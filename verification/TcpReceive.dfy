/** The receiving side of a TCP connection: in-order delivery into a ring of
    packets, a small table for segments that arrive early, and the
    acknowledgment number. */
module TcpReceive {
  import opened Bytes

  const QUEUE: nat := 8
  const HOLD_SLOTS: nat := 4

  datatype Segment = Segment(sequence: nat, payload: bytes, fin: bool)

  datatype Held = Held(used: bool, segment: Segment)

  /** The peer's byte stream; its first byte has number `base`. */
  datatype Stream = Stream(base: nat, data: bytes) {
    /** A segment cut from the stream anywhere; only the last one carries FIN. */
    ghost predicate Cut(s: Segment) {
      && base <= s.sequence && s.sequence - base + |s.payload| <= |data|
      && s.payload == data[s.sequence - base..s.sequence - base + |s.payload|]
      && (s.fin ==> s.sequence - base + |s.payload| == |data|)
    }
  }

  ghost function Joined(q: seq<bytes>): bytes {
    if q == [] then [] else q[0] + Joined(q[1..])
  }

  lemma {:induction false} JoinedAppend(q: seq<bytes>, p: bytes)
    ensures Joined(q + [p]) == Joined(q) + p
  {
    if q == [] {
      assert q + [p] == [p] && Joined([p]) == p + Joined([]);
    } else {
      JoinedAppend(q[1..], p);
      assert (q + [p])[1..] == q[1..] + [p];
    }
  }

  /** The ring as a sequence. */
  ghost function RingOf(packets: seq<bytes>, head: nat, count: nat): seq<bytes>
    requires |packets| == QUEUE && head < QUEUE && count <= QUEUE
  {
    seq(count, i requires 0 <= i < count => packets[(head + i) % QUEUE])
  }

  /** Whatever is held was cut from the stream. */
  ghost predicate AllCut(st: Stream, held: seq<Held>) {
    forall i :: 0 <= i < |held| && held[i].used ==> st.Cut(held[i].segment)
  }

  ghost predicate NoneEmpty(q: seq<bytes>) {
    forall i :: 0 <= i < |q| ==> q[i] != []
  }

  lemma RingPut(packets: seq<bytes>, head: nat, count: nat, p: bytes)
    requires |packets| == QUEUE && head < QUEUE && count < QUEUE
    ensures RingOf(packets[(head + count) % QUEUE := p], head, count + 1) == RingOf(packets, head, count) + [p]
  {
  }

  lemma RingTake(packets: seq<bytes>, head: nat, count: nat)
    requires |packets| == QUEUE && head < QUEUE && 0 < count <= QUEUE
    ensures RingOf(packets, head, count) == [packets[head]] + RingOf(packets, (head + 1) % QUEUE, count - 1)
  {
  }

  /** How far reception has come: `n` bytes of the stream, and whether the FIN
      was taken. */
  ghost predicate Received(st: Stream, got: bytes, ack: nat, closeWait: bool) {
    && got <= st.data && ack == st.base + |got| + (if closeWait then 1 else 0)
    && (closeWait ==> got == st.data)
  }

  lemma NextPart(st: Stream, got: bytes, ack: nat, s: Segment)
    requires Received(st, got, ack, false) && st.Cut(s) && s.sequence == ack
    ensures Received(st, got + s.payload, ack + |s.payload| + (if s.fin then 1 else 0), s.fin)
  {
    var n := |got|;
    assert got + s.payload == st.data[..n] + st.data[n..n + |s.payload|] == st.data[..n + |s.payload|];
  }

  lemma PartQueued(delivered: bytes, was: seq<bytes>, payload: bytes, now: seq<bytes>)
    requires now == if payload == [] then was else was + [payload]
    ensures Joined(now) == Joined(was) + payload && delivered + Joined(now) == delivered + Joined(was) + payload
  {
    if payload != [] {
      JoinedAppend(was, payload);
    }
    assert delivered + (Joined(was) + payload) == delivered + Joined(was) + payload;
  }

  /** Sequence numbers a segment takes up. */
  function Extent(s: Segment): nat {
    |s.payload| + if s.fin then 1 else 0
  }

  /** A segment with this number is held already. */
  ghost predicate Duplicate(held: seq<Held>, s: Segment) {
    exists i :: 0 <= i < |held| && held[i].used && held[i].segment.sequence == s.sequence
  }

  ghost predicate FirstFree(held: seq<Held>, k: nat) {
    k < |held| && !held[k].used && forall j :: 0 <= j < k ==> held[j].used
  }

  /** A slot the acknowledgment has passed: nothing can free it any more. */
  ghost predicate Dead(h: Held, ack: nat) {
    h.used && h.segment.sequence < ack
  }

  /** Every slot is dead. */
  ghost predicate Choked(held: seq<Held>, ack: nat) {
    forall i :: 0 <= i < |held| ==> Dead(held[i], ack)
  }

  /** The later of two segments does not start inside the earlier one, nor with it. */
  ghost predicate Aligned(a: Segment, b: Segment) {
    (a.sequence < b.sequence && a.sequence + Extent(a) <= b.sequence) || (b.sequence < a.sequence && b.sequence + Extent(b) <= a.sequence)
  }

  ghost predicate AlignedWith(held: seq<Held>, s: Segment) {
    forall i :: 0 <= i < |held| && held[i].used ==> Aligned(held[i].segment, s) || held[i].segment.sequence == s.sequence
  }

  /** Held segments are all still to come, and cut at the same places. */
  ghost predicate Tidy(held: seq<Held>, ack: nat) {
    && (forall i :: 0 <= i < |held| && held[i].used ==> ack <= held[i].segment.sequence)
    && (forall i, j :: 0 <= i < j < |held| && held[i].used && held[j].used ==> Aligned(held[i].segment, held[j].segment))
  }

  lemma TidyNext(held: seq<Held>, ack: nat, i: nat)
    requires Tidy(held, ack) && i < |held| && held[i].used && held[i].segment.sequence == ack
    ensures Tidy(held[i := held[i].(used := false)], ack + Extent(held[i].segment))
  {
  }

  lemma TidyTaken(held: seq<Held>, ack: nat, s: Segment)
    requires Tidy(held, ack) && NoneNext(held, ack) && AlignedWith(held, s) && s.sequence == ack
    ensures Tidy(held, ack + Extent(s))
  {
  }

  /** A segment that is taken over the start of a held one leaves that one dead. */
  lemma PassedOver(was: seq<Held>, now: seq<Held>, ack: nat, after: nat, s: Segment)
    requires Tidy(was, ack) && NoneNext(was, ack) && !AlignedWith(was, s) && s.sequence == ack
    requires Freed(was, now, ack + Extent(s), after) && ack + Extent(s) <= after
    ensures !Tidy(now, after)
  {
    var i :| 0 <= i < |was| && was[i].used && !Aligned(was[i].segment, s) && was[i].segment.sequence != s.sequence;
    assert FreedSlot(was[i], now[i], ack + Extent(s), after);
  }

  lemma TidyHeld(held: seq<Held>, held': seq<Held>, ack: nat, s: Segment, k: nat)
    requires Tidy(held, ack) && NoneNext(held, ack) && AlignedWith(held, s) && s.sequence > ack && k < |held| && !held[k].used
    requires forall i :: 0 <= i < |held| && held[i].used ==> held[i].segment.sequence != s.sequence
    requires held' == held[k := Held(true, s)]
    ensures Tidy(held', ack) && NoneNext(held', ack)
  {
  }

  class Receiver {
    var packets: seq<bytes>
    var head: nat
    var count: nat
    var held: seq<Held>
    var ack: nat
    /** CLOSE_WAIT instead of ESTABLISHED: the peer has sent its FIN. */
    var closeWait: bool
    ghost const stream: Stream
    /** Everything handed to the application so far. */
    ghost var delivered: bytes

    ghost function Queued(): seq<bytes>
      requires |packets| == QUEUE && head < QUEUE && count <= QUEUE
      reads this
    {
      RingOf(packets, head, count)
    }

    /** Delivered and queued bytes are a prefix of the stream, the acknowledgment
        is its length plus FIN, and whatever is held was cut from the stream. */
    ghost predicate Valid()
      reads this
    {
      && |packets| == QUEUE && head < QUEUE && count <= QUEUE && |held| == HOLD_SLOTS
      && Received(stream, delivered + Joined(Queued()), ack, closeWait)
      && NoneEmpty(Queued())
      && AllCut(stream, held)
    }

    /** After the handshake. */
    constructor (ghost stream: Stream, base: nat)
      requires base == stream.base
      ensures Valid() && this.stream == stream && delivered == [] && count == 0 && ack == base && !closeWait
      ensures forall i :: 0 <= i < HOLD_SLOTS ==> !held[i].used
    {
      packets := seq(QUEUE, _ => []);
      head, count, ack, closeWait := 0, 0, base, false;
      held := seq(HOLD_SLOTS, _ => Held(false, Segment(0, [], false)));
      this.stream := stream;
      delivered := [];
    }

    /** Append to the ring; a full ring refuses. */
    method QueuePacket(p: bytes) returns (ok: bool)
      requires |packets| == QUEUE && head < QUEUE && count <= QUEUE
      modifies this`packets, this`count
      ensures |packets| == QUEUE && count <= QUEUE && (ok <==> old(count) < QUEUE)
      ensures Queued() == if ok then old(Queued()) + [p] else old(Queued())
    {
      if count >= QUEUE {
        return false;
      }
      RingPut(packets, head, count, p);
      packets := packets[(head + count) % QUEUE := p];
      count := count + 1;
      ok := true;
    }

    /** Take the segment that starts at the acknowledgment number. */
    method QueuePayload(s: Segment) returns (ok: bool)
      requires Valid() && stream.Cut(s)
      modifies this`packets, this`count, this`ack, this`closeWait
      ensures Valid()
      ensures ok <==> s.sequence == old(ack) && (s.payload == [] || old(count) < QUEUE)
      ensures !ok ==> ack == old(ack) && closeWait == old(closeWait) && Queued() == old(Queued())
      ensures ok ==> ack == old(ack) + |s.payload| + (if s.fin then 1 else 0) && closeWait == (old(closeWait) || s.fin)
                     && Joined(Queued()) == old(Joined(Queued())) + s.payload
    {
      if s.sequence != ack {
        return false;
      }
      ghost var was := Queued();
      if s.payload != [] {
        ok := QueuePacket(s.payload);
        if !ok {
          return false;
        }
      }
      Acknowledge(s, was);
      ok := true;
    }

    /** The payload of `s` is queued behind `was`; move the acknowledgment past it. */
    method Acknowledge(s: Segment, ghost was: seq<bytes>)
      requires |packets| == QUEUE && head < QUEUE && count <= QUEUE && |held| == HOLD_SLOTS && AllCut(stream, held)
      requires Received(stream, delivered + Joined(was), ack, closeWait) && NoneEmpty(was) && stream.Cut(s) && s.sequence == ack
      requires Queued() == if s.payload == [] then was else was + [s.payload]
      modifies this`ack, this`closeWait
      ensures Valid() && ack == old(ack) + Extent(s) && closeWait == s.fin && !old(closeWait)
      ensures Joined(Queued()) == Joined(was) + s.payload
    {
      assert !closeWait;
      NextPart(stream, delivered + Joined(was), ack, s);
      PartQueued(delivered, was, s.payload, Queued());
      ack := ack + |s.payload| + if s.fin then 1 else 0;
      if s.fin {
        closeWait := true;
      }
    }

    /** Keep an early segment; one that starts at a number already kept counts as
        a duplicate. */
    method Hold(s: Segment) returns (ok: bool)
      requires Valid() && stream.Cut(s)
      modifies this`held
      ensures Valid()
      ensures ok ==> exists i :: 0 <= i < HOLD_SLOTS && held[i].used && held[i].segment.sequence == s.sequence
      ensures !ok ==> held == old(held)
      ensures !ok <==> forall i :: 0 <= i < HOLD_SLOTS ==> old(held)[i].used && old(held)[i].segment.sequence != s.sequence
      ensures Tidy(old(held), ack) && NoneNext(old(held), ack) && AlignedWith(old(held), s) && s.sequence > ack ==> Tidy(held, ack) && NoneNext(held, ack)
      ensures forall i :: 0 <= i < HOLD_SLOTS && old(held)[i].used ==> held[i] == old(held)[i]
      ensures Duplicate(old(held), s) ==> held == old(held)
      ensures forall k: nat :: !Duplicate(old(held), s) && FirstFree(old(held), k) ==> held == old(held)[k := Held(true, s)]
    {
      var i := 0;
      while i < HOLD_SLOTS
        invariant 0 <= i <= HOLD_SLOTS
        invariant forall j :: 0 <= j < i ==> !(held[j].used && held[j].segment.sequence == s.sequence)
      {
        if held[i].used && held[i].segment.sequence == s.sequence {
          return true;
        }
        i := i + 1;
      }
      i := 0;
      while i < HOLD_SLOTS
        invariant 0 <= i <= HOLD_SLOTS && held == old(held)
        invariant forall j :: 0 <= j < i ==> held[j].used
      {
        if !held[i].used {
          assert forall k: nat :: FirstFree(held, k) ==> k == i;
          held := held[i := Held(true, s)];
          if Tidy(old(held), ack) && NoneNext(old(held), ack) && AlignedWith(old(held), s) && s.sequence > ack {
            TidyHeld(old(held), held, ack, s, i);
          }
          assert held[i].used && held[i].segment.sequence == s.sequence;
          return true;
        }
        i := i + 1;
      }
      ok := false;
    }

    /** One pass over the held segments: each that now is next goes to the queue. */
    method DrainPass() returns (ok: bool, progressed: bool)
      requires Valid()
      modifies this`packets, this`count, this`ack, this`closeWait, this`held
      ensures Valid() && old(ack) <= ack && old(Joined(Queued())) <= Joined(Queued())
      ensures Freed(old(held), held, old(ack), ack) && (Tidy(old(held), old(ack)) ==> Tidy(held, ack))
      ensures NoneNext(old(held), old(ack)) ==> ok && !progressed && held == old(held)
      ensures ok && progressed ==> UsedCount(held) < UsedCount(old(held))
      ensures ok && !progressed ==> ack == old(ack) && NoneNext(held, ack)
      ensures !ok ==> count == QUEUE
    {
      ghost var held0, ack0, got0 := held, ack, Joined(Queued());
      progressed := false;
      var i := 0;
      while i < HOLD_SLOTS
        invariant 0 <= i <= HOLD_SLOTS && Valid() && ack0 <= ack && got0 <= Joined(Queued())
        invariant Freed(held0, held, ack0, ack) && (Tidy(held0, ack0) ==> Tidy(held, ack))
        invariant progressed ==> UsedCount(held) < UsedCount(held0)
        invariant !progressed ==> held == held0 && ack == ack0
        invariant NoneNext(held0, ack0) ==> !progressed
        invariant !progressed ==> forall j :: 0 <= j < i ==> !(held[j].used && held[j].segment.sequence == ack)
      {
        var took;
        ok, took := DrainSlot(i);
        if !ok {
          return false, progressed;
        }
        progressed := progressed || took;
        i := i + 1;
      }
      ok := true;
    }

    /** Slot `i`, if it is next. */
    method DrainSlot(i: nat) returns (ok: bool, took: bool)
      requires Valid() && i < HOLD_SLOTS
      modifies this`packets, this`count, this`ack, this`closeWait, this`held
      ensures Valid() && (took ==> ok) && old(ack) <= ack && old(Joined(Queued())) <= Joined(Queued())
      ensures took ==> held == old(held)[i := held[i]] && UsedCount(held) < UsedCount(old(held))
      ensures FreedSlot(old(held)[i], held[i], old(ack), ack) && (Tidy(old(held), old(ack)) ==> Tidy(held, ack))
      ensures !took ==> held == old(held) && ack == old(ack)
      ensures ok && !took <==> !(old(held)[i].used && old(held)[i].segment.sequence == old(ack))
      ensures !ok ==> count == QUEUE
    {
      if !held[i].used || held[i].segment.sequence != ack {
        return true, false;
      }
      ok := QueuePayload(held[i].segment);
      took := ok;
      if ok {
        OneFewer(held, i);
        if Tidy(held, old(ack)) {
          TidyNext(held, old(ack), i);
        }
        held := held[i := held[i].(used := false)];
      }
    }

    /** Repeat until nothing held is next. */
    method Drain() returns (ok: bool)
      requires Valid()
      modifies this`packets, this`count, this`ack, this`closeWait, this`held
      ensures Valid() && old(ack) <= ack && old(Joined(Queued())) <= Joined(Queued())
      ensures Freed(old(held), held, old(ack), ack) && (Tidy(old(held), old(ack)) ==> Tidy(held, ack))
      ensures ok ==> NoneNext(held, ack)
      ensures NoneNext(old(held), old(ack)) ==> ok && held == old(held) && ack == old(ack)
      ensures !ok ==> count == QUEUE
    {
      var progressed := true;
      while progressed
        invariant Valid() && old(ack) <= ack && old(Joined(Queued())) <= Joined(Queued())
        invariant Freed(old(held), held, old(ack), ack) && (Tidy(old(held), old(ack)) ==> Tidy(held, ack))
        invariant !progressed ==> NoneNext(held, ack)
        invariant NoneNext(old(held), old(ack)) ==> held == old(held) && ack == old(ack)
        decreases progressed, UsedCount(held)
      {
        ok, progressed := DrainPass();
        if !ok {
          return;
        }
      }
      ok := true;
    }

    /** An arriving segment of an established connection: 14 old or early, 11
        taken, 0 taken and empty, -1 no room. */
    method Arrive(s: Segment) returns (code: int)
      requires Valid() && stream.Cut(s)
      modifies this`packets, this`count, this`ack, this`closeWait, this`held
      ensures Valid() && old(ack) <= ack && old(Joined(Queued())) <= Joined(Queued())
      ensures code == 14 || code == 11 || code == 0 || code == -1
      ensures s.sequence != old(ack) ==> ack == old(ack) && Queued() == old(Queued())
      ensures s.sequence < old(ack) ==> code == 14 && held == old(held)
      ensures s.sequence == old(ack) && code != -1 ==>
                ack >= old(ack) + |s.payload| + (if s.fin then 1 else 0) && NoneNext(held, ack)
                && (code == 11 <==> s.payload != [] || s.fin)
      ensures code == -1 && s.sequence == old(ack) ==> count == QUEUE
      ensures s.sequence > old(ack) ==>
                (code == -1 <==> forall i :: 0 <= i < HOLD_SLOTS ==> old(held)[i].used && old(held)[i].segment.sequence != s.sequence)
      ensures s.sequence > old(ack) && Duplicate(old(held), s) ==> held == old(held)
      ensures forall k: nat :: s.sequence > old(ack) && !Duplicate(old(held), s) && FirstFree(old(held), k) ==>
                held == old(held)[k := Held(true, s)]
      ensures s.sequence == old(ack) && (s.payload == [] || old(count) < QUEUE) && NoneNext(old(held), old(ack) + Extent(s)) ==>
                code != -1 && held == old(held) && ack == old(ack) + Extent(s)
      ensures s.sequence == old(ack) ==> Freed(old(held), held, old(ack), ack)
      ensures DeadStay(old(held), held, old(ack))
      ensures Tidy(old(held), old(ack)) && NoneNext(old(held), old(ack)) && AlignedWith(old(held), s) && code != -1 ==>
                Tidy(held, ack) && NoneNext(held, ack)
      ensures Tidy(old(held), old(ack)) && NoneNext(old(held), old(ack)) && s.sequence == old(ack) && code != -1 ==>
                (Tidy(held, ack) <==> AlignedWith(old(held), s))
    {
      if s.sequence < ack {
        return 14;
      }
      if s.sequence > ack {
        var ok := Hold(s);
        return if ok then 14 else -1;
      }
      code := ArriveNext(s);
    }

    /** The segment that is next, and all held ones that are next then. */
    method ArriveNext(s: Segment) returns (code: int)
      requires Valid() && stream.Cut(s) && s.sequence == ack
      modifies this`packets, this`count, this`ack, this`closeWait, this`held
      ensures Valid() && old(ack) <= ack && old(Joined(Queued())) <= Joined(Queued())
      ensures code == 11 || code == 0 || code == -1
      ensures code != -1 ==> ack >= old(ack) + Extent(s) && NoneNext(held, ack) && (code == 11 <==> s.payload != [] || s.fin)
      ensures code == -1 ==> count == QUEUE
      ensures (s.payload == [] || old(count) < QUEUE) && NoneNext(old(held), old(ack) + Extent(s)) ==>
                code != -1 && held == old(held) && ack == old(ack) + Extent(s)
      ensures Freed(old(held), held, old(ack), ack)
      ensures Tidy(old(held), old(ack)) && NoneNext(old(held), old(ack)) && code != -1 ==>
                (Tidy(held, ack) <==> AlignedWith(old(held), s))
    {
      var ok := QueuePayload(s);
      if !ok {
        return -1;
      }
      ok := DrainAfter(s, old(ack), old(Joined(Queued())));
      code := if !ok then -1 else if s.payload != [] || s.fin then 11 else 0;
    }

    /** Drain once `s`, which started at `before`, has been taken. */
    method DrainAfter(s: Segment, ghost before: nat, ghost got: bytes) returns (ok: bool)
      requires Valid() && s.sequence == before && ack == before + Extent(s) && got <= Joined(Queued())
      modifies this`packets, this`count, this`ack, this`closeWait, this`held
      ensures Valid() && old(ack) <= ack && got <= Joined(Queued())
      ensures ok ==> NoneNext(held, ack)
      ensures !ok ==> count == QUEUE
      ensures NoneNext(old(held), old(ack)) ==> ok && held == old(held) && ack == old(ack)
      ensures Freed(old(held), held, before, ack)
      ensures Tidy(old(held), before) && NoneNext(old(held), before) ==> (Tidy(held, ack) <==> AlignedWith(old(held), s))
    {
      ghost var was, mid, now := held, Joined(Queued()), ack;
      ok := Drain();
      FreedWider(was, held, before, now, ack);
      PrefixTrans(got, mid, Joined(Queued()));
      if Tidy(was, before) && NoneNext(was, before) {
        if AlignedWith(was, s) {
          TidyTaken(was, before, s);
        } else {
          PassedOver(was, held, before, ack, s);
        }
      }
    }

    /** The application takes one packet. End of file is reported only when the
        whole stream has been handed over. */
    method Receive(capacity: nat) returns (code: int, data: bytes)
      requires Valid() && capacity > 0
      modifies this`head, this`count, this`delivered
      ensures Valid()
      ensures code == 0 <==> old(count) == 0 && closeWait
      ensures code == 0 ==> delivered == stream.data
      ensures code > 0 ==> code == |data| <= capacity && old(Queued()) == [data] + Queued()
      ensures delivered == if code > 0 then old(delivered) + data else old(delivered)
      ensures code == -4 <==> old(count) > 0 && |old(Queued())[0]| > capacity
      ensures code == -3 <==> old(count) == 0 && !closeWait
      ensures code <= 0 ==> Queued() == old(Queued())
    {
      data := [];
      if count == 0 {
        code := if closeWait then 0 else -3;
        return;
      }
      RingTake(packets, head, count);
      var p := packets[head];
      assert Queued()[0] == p;
      if |p| > capacity {
        return -4, [];
      }
      ghost var rest := RingOf(packets, (head + 1) % QUEUE, count - 1);
      assert delivered + Joined([p] + rest) == (delivered + p) + Joined(rest) by {
        assert ([p] + rest)[1..] == rest;
      }
      delivered := delivered + p;
      head := (head + 1) % QUEUE;
      count := count - 1;
      return |p|, p;
    }
  }

  ghost predicate NoneNext(held: seq<Held>, ack: nat) {
    forall i :: 0 <= i < |held| ==> !(held[i].used && held[i].segment.sequence == ack)
  }

  /** Slots are only freed, and only while the acknowledgment passes over the
      start of their segment: one that it has passed before stays occupied. */
  ghost predicate Freed(was: seq<Held>, now: seq<Held>, before: nat, after: nat) {
    && |was| == |now|
    && forall i :: 0 <= i < |was| ==> FreedSlot(was[i], now[i], before, after)
  }

  lemma FreedWider(was: seq<Held>, now: seq<Held>, lower: nat, before: nat, after: nat)
    requires Freed(was, now, before, after) && lower <= before
    ensures Freed(was, now, lower, after)
  {
  }

  lemma PrefixTrans(a: bytes, b: bytes, c: bytes)
    requires a <= b <= c
    ensures a <= c
  {
  }

  ghost predicate FreedSlot(was: Held, now: Held, before: nat, after: nat) {
    now == was || (was.used && now == was.(used := false) && before <= was.segment.sequence <= after)
  }

  /** Dead slots are as they were. */
  ghost predicate DeadStay(was: seq<Held>, now: seq<Held>, ack: nat) {
    |was| == |now| && forall i :: 0 <= i < |was| && Dead(was[i], ack) ==> now[i] == was[i]
  }

  /** Once every slot is dead it stays so, and every early segment is refused. */
  method ChokedForGood(r: Receiver, s: Segment) returns (code: int)
    requires r.Valid() && r.stream.Cut(s) && Choked(r.held, r.ack)
    modifies r
    ensures r.Valid() && Choked(r.held, r.ack) && r.held == old(r.held)
    ensures s.sequence > old(r.ack) ==> code == -1
  {
    code := r.Arrive(s);
  }

  /** Byte `i + 1` of the stream, on its own. */
  function Early(data: bytes, i: nat): Segment
    requires i + 1 < |data|
  {
    Segment(i + 1, [data[i + 1]], false)
  }

  /** The first `n` slots hold the first `n` early bytes. */
  ghost predicate Filled(held: seq<Held>, data: bytes, n: nat) {
    && |held| == HOLD_SLOTS && n <= HOLD_SLOTS < |data| && (forall j :: 0 <= j < n ==> held[j] == Held(true, Early(data, j)))
    && forall j :: n <= j < HOLD_SLOTS ==> !held[j].used
  }

  lemma FilledNext(held: seq<Held>, data: bytes, n: nat)
    requires Filled(held, data, n) && n < HOLD_SLOTS
    ensures !Duplicate(held, Early(data, n)) && FirstFree(held, n) && Filled(held[n := Held(true, Early(data, n))], data, n + 1)
  {
  }

  method EarlyArrival(r: Receiver, data: bytes, i: nat)
    requires r.Valid() && r.stream == Stream(0, data) && r.ack == 0 && r.count == 0 && i < HOLD_SLOTS && Filled(r.held, data, i)
    modifies r
    ensures r.Valid() && r.ack == 0 && r.count == 0 && Filled(r.held, data, i + 1)
  {
    FilledNext(r.held, data, i);
    var _ := r.Arrive(Early(data, i));
    assert |r.Queued()| == 0;
  }

  /** It happens: four early bytes, and then one segment that covers them all. */
  method Choke(data: bytes) returns (r: Receiver)
    requires |data| > 6
    ensures r.Valid() && r.stream == Stream(0, data) && Choked(r.held, r.ack) && r.ack < |data|
  {
    r := new Receiver(Stream(0, data), 0);
    for i := 0 to HOLD_SLOTS
      invariant r.Valid() && r.stream == Stream(0, data) && r.ack == 0 && r.count == 0 && Filled(r.held, data, i)
    {
      EarlyArrival(r, data, i);
    }
    var code := r.Arrive(Segment(0, data[..6], false));
  }

  ghost function UsedCount(held: seq<Held>): nat {
    if held == [] then 0 else (if held[0].used then 1 else 0) + UsedCount(held[1..])
  }

  lemma {:induction false} OneFewer(held: seq<Held>, i: nat)
    requires i < |held| && held[i].used
    ensures UsedCount(held[i := held[i].(used := false)]) == UsedCount(held) - 1
  {
    var held' := held[i := held[i].(used := false)];
    if i == 0 {
      assert held'[1..] == held[1..];
    } else {
      OneFewer(held[1..], i - 1);
      assert held'[1..] == held[1..][i - 1 := held[1..][i - 1].(used := false)];
    }
  }
}
