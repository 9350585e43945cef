/** The journal code of a mounted volume, as it runs: buffers filled in place,
    requests sent one by one, early exit at the first one that fails. */
module JournalDriver {
  import opened Common
  import opened Bytes
  import opened Disk
  import opened JournalFormat
  import opened Journal

  /** A transaction header, entry after entry. */
  method FillMulti(buffer: array<byte>, gen: nat, es: seq<Entry>)
    requires buffer.Length >= 512 && |es| <= TX_MAX
    modifies buffer
    ensures buffer[..] == EncodeMulti(buffer.Length, gen, es)
  {
    ZeroFill(buffer);
    StoreField(buffer, 0, TX_MAGIC);
    StoreField(buffer, 8, gen);
    buffer[16] := |es|;
    for i := 0 to |es|
      invariant forall k | 0 <= k < buffer.Length :: buffer[k] == if k < EntryAt(i) then MultiByte(gen, es, k) else 0
    {
      ghost var before := buffer[..];
      StoreField(buffer, EntryAt(i), es[i].sector);
      StoreField(buffer, EntryAt(i) + 8, es[i].sum);
      forall k | EntryAt(i) <= k < EntryAt(i + 1) ensures buffer[k] == MultiByte(gen, es, k) {
        MultiEntryByte(gen, es, i, k - EntryAt(i));
      }
      assert forall k | 0 <= k < buffer.Length && !(EntryAt(i) <= k < EntryAt(i + 1)) :: buffer[k] == before[k];
    }
  }

  /** A single-sector header. */
  method FillSingle(buffer: array<byte>, e: Entry, sequence: nat)
    requires buffer.Length >= 512
    modifies buffer
    ensures buffer[..] == EncodeSingle(buffer.Length, e, sequence)
  {
    ZeroFill(buffer);
    StoreField(buffer, 0, SINGLE_MAGIC);
    StoreField(buffer, 8, e.sector);
    StoreField(buffer, 16, sequence);
    StoreField(buffer, 32, e.sum);
  }

  method MultiSector(size: nat, gen: nat, es: seq<Entry>) returns (h: bytes)
    requires size >= 512 && |es| <= TX_MAX
    ensures h == EncodeMulti(size, gen, es)
  {
    var buffer := new byte[size];
    FillMulti(buffer, gen, es);
    h := buffer[..];
  }

  method SingleSector(size: nat, e: Entry, sequence: nat) returns (h: bytes)
    requires size >= 512
    ensures h == EncodeSingle(size, e, sequence)
  {
    var buffer := new byte[size];
    FillSingle(buffer, e, sequence);
    h := buffer[..];
  }

  /** Sectors no write touches read as before. */
  lemma {:induction false} ContentsKept(st: State, ws: seq<Write>, s: nat)
    requires s < |st.durable| && forall w | w in ws :: w.0 != s
    ensures Contents(Written(st, ws))[s] == Contents(st)[s]
    decreases |ws|
  {
    var all := st.pending + ws;
    if ws == [] {
      assert all == st.pending;
    } else {
      var init := ws[..|ws| - 1];
      ContentsKept(st, init, s);
      assert all[..|all| - 1] == st.pending + init;
      assert all[|all| - 1] == ws[|ws| - 1] && ws[|ws| - 1] in ws;
    }
  }

  lemma ContentsWellSized(g: Geometry, st: State)
    requires Shaped(g, st)
    ensures WellSized(g, Contents(st))
  {
    forall s | 0 <= s < g.total ensures |Contents(st)[s]| == g.sectorSize {
      ContentsMayHold(st, s);
      ShapedMayHold(g, st, s, Contents(st)[s]);
    }
  }

  /** Where a group of writes and its flush may have stopped. */
  ghost predicate Stopped(st: State, ws: seq<Write>, c: State) {
    PartWritten(st, ws, c) || c == Flushed(Written(st, ws))
  }

  /** A driver sent `p` to the device and stopped somewhere in it, at its very end
      if every request went through. */
  ghost predicate Ran(st: State, p: Program, c: State, complete: bool) {
    Cut(st, p, c) && (complete ==> c == Final(st, p))
  }

  lemma RanStopped(st: State, ws: seq<Write>, rest: Program, c: State)
    requires Stopped(st, ws, c)
    ensures Ran(st, Batch(ws, rest), c, false)
  {
    StartIsCut(Flushed(Written(st, ws)), rest);
  }

  lemma RanOn(st: State, ws: seq<Write>, rest: Program, c: State, complete: bool)
    requires Ran(Flushed(Written(st, ws)), rest, c, complete)
    ensures Ran(st, Batch(ws, rest), c, complete)
  {
  }

  /** What a call of the transaction writer did, completely or up to some request. */
  ghost predicate TransactionRan(g: Geometry, generation: nat, cs: seq<Change>, st: State, c: State, complete: bool)
    requires |cs| <= TX_MAX
  {
    Ran(st, TxProgram(g, EncodeMulti(g.sectorSize, generation, EntriesOf(g, cs)), cs), c, complete)
  }

  /** What a call of the single-sector writer did. */
  ghost predicate SingleRan(g: Geometry, generation: nat, target: nat, data: bytes, st: State, c: State, complete: bool) {
    Ran(st, SingleProgram(g, EncodeSingle(g.sectorSize, Entry(target, g.sum(data)), generation), target, data), c, complete)
  }

  /** What a replay at mount did, and its result; `faultless` if no request failed. */
  ghost predicate ReplayRan(g: Geometry, st: State, c: State, code: int, faultless: bool)
    requires g.Valid() && WellSized(g, Contents(st))
  {
    var r := ReplayOf(g, Contents(st));
    Ran(st, r.program, c, faultless) && if faultless then code == r.code else code != 0
  }

  /** The journal generation that follows, in 64 bits. */
  function Next(generation: u64): u64 {
    (generation + 1) % TWO64
  }

  /** A mounted volume, as far as its journal goes. */
  class Volume {
    const disk: Device
    const g: Geometry
    var generation: u64

    ghost predicate Valid()
      reads this, disk
    {
      g.Valid() && Shaped(g, disk.Snapshot())
    }

    constructor (disk: Device, g: Geometry, generation: u64)
      requires g.Valid() && Shaped(g, disk.Snapshot())
      ensures Valid() && this.disk == disk && this.g == g && this.generation == generation
    {
      this.disk, this.g, this.generation := disk, g, generation;
    }

    method SendWrite(s: nat, data: bytes) returns (ok: bool)
      requires Valid() && s < g.total && |data| == g.sectorSize
      modifies disk
      ensures Valid()
      ensures ok ==> disk.Snapshot() == Written(old(disk.Snapshot()), [(s, data)])
      ensures !ok ==> disk.Snapshot() == old(disk.Snapshot()) || disk.Snapshot() == Written(old(disk.Snapshot()), [(s, data)])
      ensures disk.faults == old(disk.faults) + if ok then 0 else 1
    {
      ok := disk.Write(s, data);
    }

    method SendFlush() returns (ok: bool)
      requires Valid()
      modifies disk
      ensures Valid()
      ensures ok ==> disk.Snapshot() == Flushed(old(disk.Snapshot()))
      ensures !ok ==> disk.Snapshot() == old(disk.Snapshot()) || disk.Snapshot() == Flushed(old(disk.Snapshot()))
      ensures disk.faults == old(disk.faults) + if ok then 0 else 1
    {
      ContentsWellSized(g, disk.Snapshot());
      ok := disk.Flush();
    }

    /** Send a group of writes and flush it, stopping at the first failure. */
    method SendBatch(ws: seq<Write>) returns (ok: bool)
      requires Valid()
      requires forall w | w in ws :: w.0 < g.total && |w.1| == g.sectorSize
      modifies disk
      ensures Valid()
      ensures ok ==> disk.Snapshot() == Flushed(Written(old(disk.Snapshot()), ws)) && disk.faults == old(disk.faults)
      ensures !ok ==> Stopped(old(disk.Snapshot()), ws, disk.Snapshot()) && disk.faults > old(disk.faults)
    {
      ghost var st := disk.Snapshot();
      for i := 0 to |ws|
        invariant disk.Snapshot() == Written(st, ws[..i])
        invariant disk.faults == old(disk.faults)
        invariant Valid()
      {
        assert ws[i] in ws;
        assert ws[..i + 1] == ws[..i] + [ws[i]] && (ws[i].0, ws[i].1) == ws[i];
        assert Written(st, ws[..i + 1]) == Written(Written(st, ws[..i]), [ws[i]]);
        ok := SendWrite(ws[i].0, ws[i].1);
        if !ok {
          return;
        }
      }
      assert ws[..|ws|] == ws;
      ok := SendFlush();
    }

    /** The multi-sector transaction. `havePage` is whether a page for the header
        buffer could be allocated. */
    method WriteTransaction(cs: seq<Change>, havePage: bool) returns (code: int)
      requires Valid()
      requires forall c | c in cs :: c.sector < g.total && |c.data| == g.sectorSize
      modifies this`generation, disk
      ensures Valid()
      ensures var refused := |cs| == 0 || |cs| > TX_MAX || |cs| + 1 > g.count || !havePage;
              if refused then code < 0 && generation == old(generation) && disk.Snapshot() == old(disk.Snapshot())
              else
                && generation == (if old(generation) == 0xFFFF_FFFF_FFFF_FFFF then 0 else old(generation) + 1)
                && (code == 0 <==> disk.faults == old(disk.faults))
                && TransactionRan(g, generation, cs, old(disk.Snapshot()), disk.Snapshot(), code == 0)
    {
      if |cs| == 0 || |cs| > TX_MAX || |cs| + 1 > g.count || EntryAt(|cs|) > g.sectorSize {
        return -1;
      }
      if !havePage {
        return -2;
      }
      var es := seq(|cs|, i requires 0 <= i < |cs| => Entry(cs[i].sector, g.sum(cs[i].data)));
      generation := Next(generation);
      var header := MultiSector(g.sectorSize, generation, es);
      assert es == EntriesOf(g, cs);
      var first, payloads, targets, clear :=
        [(g.start, header)], Payloads(g, cs), Targets(cs), [(g.start, g.Blank())];
      assert TxProgram(g, header, cs) == Batch(first, Batch(payloads, Batch(targets, Batch(clear, Done))));
      var done := SendAll(first, payloads, targets, clear);
      code := if done == 4 then 0 else -1;
    }

    /** The single-sector journal write. */
    method WriteSingle(target: nat, data: bytes, havePage: bool) returns (code: int)
      requires Valid() && |data| == g.sectorSize
      modifies this`generation, disk
      ensures Valid()
      ensures var refused := target >= g.total || target == g.start || target == g.start + 1 || !havePage;
              if refused then code < 0 && generation == old(generation) && disk.Snapshot() == old(disk.Snapshot())
              else
                && (code == 0 <==> disk.faults == old(disk.faults))
                && SingleRan(g, Next(old(generation)), target, data, old(disk.Snapshot()), disk.Snapshot(), code == 0)
                && generation == (if code == -3 then old(generation)
                                  else if old(generation) == 0xFFFF_FFFF_FFFF_FFFF then 0 else old(generation) + 1)
    {
      if target >= g.total || target == g.start || target == g.start + 1 {
        return -1;
      }
      if !havePage {
        return -2;
      }
      code := SendSingle(target, data, EncodeSingle(g.sectorSize, Entry(target, g.sum(data)), Next(generation)));
    }

    /** The requests of a single-sector write; `header` is the header it builds. */
    method SendSingle(target: nat, data: bytes, ghost header: bytes) returns (code: int)
      requires Valid() && |data| == g.sectorSize && target < g.total
      requires header == EncodeSingle(g.sectorSize, Entry(target, g.sum(data)), Next(generation))
      modifies this`generation, disk
      ensures Valid() && (code == 0 <==> disk.faults == old(disk.faults))
      ensures Ran(old(disk.Snapshot()), SingleProgram(g, header, target, data), disk.Snapshot(), code == 0)
      ensures generation == if code == -3 then old(generation) else Next(old(generation))
    {
      ghost var s0, rest := disk.Snapshot(), AnnounceProgram(g, header, target, data);
      var first: seq<Write> := [(g.start + 1, data)];
      var ok := SendBatch(first);
      if !ok {
        RanStopped(s0, first, rest, disk.Snapshot());
        return -3;
      }
      generation := Next(generation);
      var h := SingleSector(g.sectorSize, Entry(target, g.sum(data)), generation);
      code := Announce(h, target, data);
      RanOn(s0, first, rest, disk.Snapshot(), code == 0);
    }

    /** The rest of a single-sector write, once its payload is flushed: header,
        target, erased header. */
    method Announce(header: bytes, target: nat, data: bytes) returns (code: int)
      requires Valid() && |header| == |data| == g.sectorSize && target < g.total
      modifies disk
      ensures Valid() && code != -3
      ensures code == 0 <==> disk.faults == old(disk.faults)
      ensures Ran(old(disk.Snapshot()), AnnounceProgram(g, header, target, data), disk.Snapshot(), code == 0)
    {
      var second: seq<Write>, third: seq<Write>, fourth: seq<Write> := [(g.start, header)], [(target, data)], [(g.start, g.Blank())];
      assert forall w | w in second + third + fourth :: w.0 < g.total && |w.1| == g.sectorSize;
      var done := SendThree(second, third, fourth);
      code := if done == 3 then 0 else if done == 0 then -4 else if done == 1 then -5 else -1;
    }

    /** Four groups of writes in a row, stopping at the first failure; `done` is
        how many went through. */
    method SendAll(first: seq<Write>, second: seq<Write>, third: seq<Write>, fourth: seq<Write>)
      returns (done: nat)
      requires Valid()
      requires forall w | w in first + second + third + fourth :: w.0 < g.total && |w.1| == g.sectorSize
      modifies disk
      ensures Valid()
      ensures var p := Batch(first, Batch(second, Batch(third, Batch(fourth, Done))));
              && (done == 4 <==> disk.faults == old(disk.faults))
              && Ran(old(disk.Snapshot()), p, disk.Snapshot(), done == 4)
    {
      ghost var s0 := disk.Snapshot();
      ghost var rest := Batch(second, Batch(third, Batch(fourth, Done)));
      var ok := SendBatch(first);
      if !ok {
        RanStopped(s0, first, rest, disk.Snapshot());
        return 0;
      }
      done := SendThree(second, third, fourth);
      done := done + 1;
      RanOn(s0, first, rest, disk.Snapshot(), done == 4);
    }

    method SendThree(second: seq<Write>, third: seq<Write>, fourth: seq<Write>) returns (done: nat)
      requires Valid()
      requires forall w | w in second + third + fourth :: w.0 < g.total && |w.1| == g.sectorSize
      modifies disk
      ensures Valid()
      ensures var p := Batch(second, Batch(third, Batch(fourth, Done)));
              && (done == 3 <==> disk.faults == old(disk.faults))
              && Ran(old(disk.Snapshot()), p, disk.Snapshot(), done == 3)
    {
      ghost var s0 := disk.Snapshot();
      ghost var rest := Batch(third, Batch(fourth, Done));
      var ok := SendBatch(second);
      if !ok {
        RanStopped(s0, second, rest, disk.Snapshot());
        return 0;
      }
      done := SendTwo(third, fourth);
      done := done + 1;
      RanOn(s0, second, rest, disk.Snapshot(), done == 3);
    }

    method SendTwo(third: seq<Write>, fourth: seq<Write>) returns (done: nat)
      requires Valid()
      requires forall w | w in third + fourth :: w.0 < g.total && |w.1| == g.sectorSize
      modifies disk
      ensures Valid()
      ensures var p := Batch(third, Batch(fourth, Done));
              && (done == 2 <==> disk.faults == old(disk.faults))
              && Ran(old(disk.Snapshot()), p, disk.Snapshot(), done == 2)
    {
      ghost var s0 := disk.Snapshot();
      var ok := SendBatch(third);
      if !ok {
        RanStopped(s0, third, Batch(fourth, Done), disk.Snapshot());
        return 0;
      }
      ghost var s1 := disk.Snapshot();
      ok := SendBatch(fourth);
      if ok {
        RanOn(s1, fourth, Done, disk.Snapshot(), true);
      } else {
        RanStopped(s1, fourth, Done, disk.Snapshot());
      }
      done := if ok then 2 else 1;
      RanOn(s0, third, Batch(fourth, Done), disk.Snapshot(), done == 2);
    }

    /** Replay at mount. */
    method ReplayJournal(havePage: bool) returns (code: int)
      requires Valid()
      modifies disk
      ensures Valid()
      ensures !havePage ==> code == -2 && disk.Snapshot() == old(disk.Snapshot())
      ensures WellSized(g, Contents(old(disk.Snapshot())))
      ensures havePage ==> ReplayRan(g, old(disk.Snapshot()), disk.Snapshot(), code, disk.faults == old(disk.faults))
    {
      ghost var st := disk.Snapshot();
      ContentsWellSized(g, st);
      if !havePage {
        return -2;
      }
      StartIsCut(st, ReplayOf(g, Contents(st)).program);
      var ok, header := disk.Read(g.start);
      if !ok {
        return -3;
      }
      match g.decode(header) {
        case Empty =>
          code := 0;
        case BadMulti =>
          code := -4;
        case Multi(es) =>
          if |es| + 1 > g.count || EntryAt(|es|) > g.sectorSize {
            return -4;
          }
          var bad := AnyBadTarget(es);
          if bad {
            return -5;
          }
          code := RedoMulti(es);
        case Single(e, sequence) =>
          if sequence == 0 || e.sector >= g.total || (g.start <= e.sector < g.start + g.count) {
            return -7;
          }
          code := RedoSingle(e);
      }
    }

    method AnyBadTarget(es: seq<Entry>) returns (bad: bool)
      ensures bad <==> exists i | 0 <= i < |es| :: g.BadTarget(es[i].sector)
    {
      for i := 0 to |es|
        invariant forall j | 0 <= j < i :: !g.BadTarget(es[j].sector)
      {
        if es[i].sector >= g.total || (g.start <= es[i].sector < g.start + g.count) {
          assert g.BadTarget(es[i].sector);
          return true;
        }
      }
      return false;
    }

    method RedoSingle(e: Entry) returns (code: int)
      requires Valid() && !g.BadTarget(e.sector)
      modifies disk
      ensures Valid()
      ensures var image := old(Contents(disk.Snapshot()));
              var p := if g.sum(image[g.start + 1]) == e.sum then RedoProgram(g, [(e.sector, image[g.start + 1])]) else Done;
              && Ran(old(disk.Snapshot()), p, disk.Snapshot(), disk.faults == old(disk.faults))
              && (disk.faults == old(disk.faults) ==> code == if g.sum(image[g.start + 1]) == e.sum then 0 else -8)
              && (disk.faults != old(disk.faults) ==> code != 0)
    {
      ghost var st := disk.Snapshot();
      ContentsWellSized(g, st);
      StartIsCut(st, RedoProgram(g, [(e.sector, Contents(st)[g.start + 1])]));
      var ok, payload := disk.Read(g.start + 1);
      if !ok || g.sum(payload) != e.sum {
        return -8;
      }
      code := PutSingle(e.sector, payload);
    }

    /** A checked payload goes in place and the header is erased. */
    method PutSingle(target: nat, payload: bytes) returns (code: int)
      requires Valid() && target < g.total && |payload| == g.sectorSize
      modifies disk
      ensures Valid() && (code == 0 <==> disk.faults == old(disk.faults))
      ensures Ran(old(disk.Snapshot()), RedoProgram(g, [(target, payload)]), disk.Snapshot(), code == 0)
    {
      var ws: seq<Write> := [(target, payload)];
      var clear: seq<Write> := [(g.start, g.Blank())];
      var done := SendTwo(ws, clear);
      code := if done == 2 then 0 else if done == 0 then -8 else -1;
    }

    /** What the redo of `es` should write, given what the volume reads now. */
    ghost function Placed(es: seq<Entry>): seq<Write>
      requires Valid() && |es| + 1 <= g.count
      reads this, disk
    {
      var image := Contents(disk.Snapshot());
      Redo(g, image, es[..Matching(g, image, es)])
    }

    /** Each payload is read, checked and written in place before the next. */
    method Place(es: seq<Entry>) returns (all: bool)
      requires Valid() && |es| + 1 <= g.count
      requires forall i | 0 <= i < |es| :: !g.BadTarget(es[i].sector)
      modifies disk
      ensures Valid()
      ensures PartWritten(old(disk.Snapshot()), old(Placed(es)), disk.Snapshot())
      ensures disk.faults == old(disk.faults) ==>
                disk.Snapshot() == Written(old(disk.Snapshot()), old(Placed(es))) && (all <==> |old(Placed(es))| == |es|)
      ensures disk.faults != old(disk.faults) ==> !all
    {
      ghost var st, redo := disk.Snapshot(), Placed(es);
      forall i: nat | i < |es| && i <= |redo| ensures PlaceFact(g, st, es, redo, i) {
        PlaceNext(g, st, es, redo, i);
      }
      all := PlaceAll(es, st, redo);
    }

    method PlaceAll(es: seq<Entry>, ghost st: State, ghost redo: seq<Write>) returns (all: bool)
      requires Valid() && |es| + 1 <= g.count && disk.Snapshot() == st && |redo| <= |es|
      requires forall i | 0 <= i < |es| :: !g.BadTarget(es[i].sector)
      requires forall i: nat | i < |es| && i <= |redo| :: PlaceFact(g, st, es, redo, i)
      modifies disk
      ensures Valid() && PartWritten(st, redo, disk.Snapshot())
      ensures disk.faults == old(disk.faults) ==> disk.Snapshot() == Written(st, redo) && (all <==> |redo| == |es|)
      ensures disk.faults != old(disk.faults) ==> !all
    {
      for i := 0 to |es|
        invariant i <= |redo| && disk.Snapshot() == Written(st, redo[..i])
        invariant disk.faults == old(disk.faults) && Valid()
      {
        assert PlaceFact(g, st, es, redo, i);
        var ok := PlaceOne(es[i], g.start + 1 + i, st, redo, i);
        if !ok {
          return false;
        }
      }
      assert redo[..|es|] == redo;
      return true;
    }

    /** One payload: read from `at`, checked and written in place. */
    method PlaceOne(e: Entry, at: nat, ghost st: State, ghost redo: seq<Write>, ghost i: nat) returns (ok: bool)
      requires Valid() && at < g.total && e.sector < g.total && i <= |redo| && disk.Snapshot() == Written(st, redo[..i])
      requires g.sum(Contents(disk.Snapshot())[at]) == e.sum <==> i < |redo|
      requires i < |redo| ==> redo[i] == (e.sector, Contents(disk.Snapshot())[at])
      modifies disk
      ensures Valid()
      ensures ok ==> disk.faults == old(disk.faults) && i < |redo| && disk.Snapshot() == Written(st, redo[..i + 1])
      ensures !ok ==> PartWritten(st, redo, disk.Snapshot())
      ensures !ok && disk.faults == old(disk.faults) ==> |redo| == i && disk.Snapshot() == Written(st, redo)
    {
      ContentsWellSized(g, disk.Snapshot());
      var payload;
      ok, payload := disk.Read(at);
      if !ok || g.sum(payload) != e.sum {
        assert ok ==> redo[..i] == redo;
        return false;
      }
      OneMore(st, redo, i);
      ok := SendWrite(e.sector, payload);
    }

    method RedoMulti(es: seq<Entry>) returns (code: int)
      requires Valid() && |es| + 1 <= g.count
      requires forall i | 0 <= i < |es| :: !g.BadTarget(es[i].sector)
      modifies disk
      ensures Valid()
      ensures var redo := old(Placed(es));
              var p := if |redo| < |es| then Unflushed(redo) else RedoProgram(g, redo);
              && Ran(old(disk.Snapshot()), p, disk.Snapshot(), disk.faults == old(disk.faults))
              && (disk.faults == old(disk.faults) ==> code == if |redo| < |es| then -6 else 0)
              && (disk.faults != old(disk.faults) ==> code != 0)
    {
      ghost var st, redo := disk.Snapshot(), Placed(es);
      var all := Place(es);
      if !all {
        return -6;
      }
      code := FlushAndClear(st, redo);
    }

    /** The end of a replay: everything in place, then the header is erased. */
    method FlushAndClear(ghost st: State, ghost redo: seq<Write>) returns (code: int)
      requires Valid() && disk.Snapshot() == Written(st, redo)
      modifies disk
      ensures Valid()
      ensures Ran(st, RedoProgram(g, redo), disk.Snapshot(), disk.faults == old(disk.faults))
      ensures code == 0 <==> disk.faults == old(disk.faults)
    {
      assert redo[..|redo|] == redo;
      RanStopped(st, redo, ClearProgram(g), Written(st, redo));
      RanStopped(st, redo, ClearProgram(g), Flushed(Written(st, redo)));
      var ok := SendFlush();
      if !ok {
        return -1;
      }
      ghost var placed := disk.Snapshot();
      var clear: seq<Write> := [(g.start, g.Blank())];
      ok := SendBatch(clear);
      if ok {
        RanOn(placed, clear, Done, disk.Snapshot(), true);
      } else {
        RanStopped(placed, clear, Done, disk.Snapshot());
      }
      RanOn(st, redo, ClearProgram(g), disk.Snapshot(), ok);
      code := if ok then 0 else -1;
    }
  }

  /** A payload matches exactly when the redo goes past it. */
  lemma MatchingAt(g: Geometry, image: seq<bytes>, es: seq<Entry>, redo: seq<Write>, i: nat)
    requires g.start + 1 + |es| <= |image| && i < |es| && i <= Matching(g, image, es)
    requires redo == Redo(g, image, es[..Matching(g, image, es)])
    ensures g.sum(image[g.start + 1 + i]) == es[i].sum <==> i < |redo|
    ensures i < |redo| ==> redo[i] == (es[i].sector, image[g.start + 1 + i])
  {
  }

  /** What the volume reads before the `i`-th payload is placed: it matches exactly
      when the redo goes past it. */
  ghost predicate PlaceFact(g: Geometry, st: State, es: seq<Entry>, redo: seq<Write>, i: nat) {
    && i < |es| && i <= |redo| && g.start + 1 + i < |st.durable|
    && var payload := Contents(Written(st, redo[..i]))[g.start + 1 + i];
       (g.sum(payload) == es[i].sum <==> i < |redo|) && (i < |redo| ==> redo[i] == (es[i].sector, payload))
  }

  lemma PlaceNext(g: Geometry, st: State, es: seq<Entry>, redo: seq<Write>, i: nat)
    requires g.Valid() && |st.durable| == g.total && |es| + 1 <= g.count && i < |es| && i <= |redo|
    requires forall i | 0 <= i < |es| :: !g.BadTarget(es[i].sector)
    requires redo == Redo(g, Contents(st), es[..Matching(g, Contents(st), es)])
    ensures PlaceFact(g, st, es, redo, i)
  {
    PayloadKept(g, st, es, redo, i, g.start + 1 + i);
    MatchingAt(g, Contents(st), es, redo, i);
  }

  lemma OneMore(st: State, redo: seq<Write>, i: nat)
    requires i < |redo|
    ensures Written(st, redo[..i + 1]) == Written(Written(st, redo[..i]), [redo[i]])
  {
    assert redo[..i + 1] == redo[..i] + [redo[i]];
  }

  /** The redo never touches the journal, so its payloads read as they were. */
  lemma PayloadKept(g: Geometry, st: State, es: seq<Entry>, redo: seq<Write>, i: nat, s: nat)
    requires i <= |redo| <= |es| && g.InJournal(s) && s < |st.durable|
    requires forall j | 0 <= j < |redo| :: redo[j].0 == es[j].sector && !g.BadTarget(es[j].sector)
    ensures Contents(Written(st, redo[..i]))[s] == Contents(st)[s]
  {
    ContentsKept(st, redo[..i], s);
  }
}
