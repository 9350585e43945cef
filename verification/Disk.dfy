/** The block device as the file system sees it: sectors that are durable, and
    writes the device has accepted but not yet flushed. A crash keeps, sector
    by sector, the durable value or the value of any unflushed write. */
module Disk {
  import opened Bytes

  type Write = (nat, bytes)

  datatype State = State(durable: seq<bytes>, pending: seq<Write>)

  /** `d` after the writes `ws`, in order. */
  function Land(d: seq<bytes>, ws: seq<Write>): (r: seq<bytes>)
    ensures |r| == |d|
    decreases |ws|
  {
    if ws == [] then d
    else
      var before := Land(d, ws[..|ws| - 1]);
      var (s, v) := ws[|ws| - 1];
      if s < |before| then before[s := v] else before
  }

  /** What a read returns: the newest accepted value of every sector. */
  function Contents(st: State): (r: seq<bytes>)
    ensures |r| == |st.durable|
  {
    Land(st.durable, st.pending)
  }

  function Booted(image: seq<bytes>): State {
    State(image, [])
  }

  function Written(st: State, ws: seq<Write>): State {
    State(st.durable, st.pending + ws)
  }

  function Flushed(st: State): State {
    Booted(Contents(st))
  }

  /** What a driver sends to the device: groups of writes, each closed by a
      flush, the last one possibly left unflushed. */
  datatype Program = Done | Unflushed(ws: seq<Write>) | Batch(ws: seq<Write>, rest: Program)

  function Final(st: State, p: Program): (r: State)
    ensures |r.durable| == |st.durable|
    decreases p
  {
    match p
    case Done => st
    case Unflushed(ws) => Written(st, ws)
    case Batch(ws, rest) => Final(Flushed(Written(st, ws)), rest)
  }

  /** `c` is the device after some, possibly all, of the requests of `p`. */
  ghost predicate Cut(st: State, p: Program, c: State)
    decreases p
  {
    match p
    case Done => c == st
    case Unflushed(ws) => PartWritten(st, ws, c)
    case Batch(ws, rest) => PartWritten(st, ws, c) || Cut(Flushed(Written(st, ws)), rest, c)
  }

  ghost predicate PartWritten(st: State, ws: seq<Write>, c: State) {
    exists m | 0 <= m <= |ws| :: c == Written(st, ws[..m])
  }

  /** Sector `s` may hold `v` once power is lost in state `st`. */
  ghost predicate MayHold(st: State, s: nat, v: bytes) {
    && s < |st.durable|
    && (v == st.durable[s] || (s, v) in st.pending)
  }

  /** `image` is a disk a crash in state `st` can leave behind. */
  ghost predicate CrashImage(st: State, image: seq<bytes>) {
    && |image| == |st.durable|
    && forall s | 0 <= s < |image| :: MayHold(st, s, image[s])
  }

  lemma {:induction false} LandMayHold(d: seq<bytes>, ws: seq<Write>, s: nat)
    requires s < |d|
    ensures Land(d, ws)[s] == d[s] || (s, Land(d, ws)[s]) in ws
    decreases |ws|
  {
    if ws != [] {
      LandMayHold(d, ws[..|ws| - 1], s);
      var w := ws[|ws| - 1];
      assert w == (w.0, w.1) && w in ws;
      assert forall w | w in ws[..|ws| - 1] :: w in ws;
    }
  }

  /** What a read returns is one of the values a crash may leave. */
  lemma ContentsMayHold(st: State, s: nat)
    requires s < |st.durable|
    ensures MayHold(st, s, Contents(st)[s])
  {
    LandMayHold(st.durable, st.pending, s);
  }

  ghost predicate DistinctSectors(ws: seq<Write>) {
    forall i, j | 0 <= i < j < |ws| :: ws[i].0 != ws[j].0
  }

  /** A write whose sector no later write touches lands exactly as issued. */
  lemma {:induction false} LandLast(d: seq<bytes>, ws: seq<Write>, i: nat)
    requires i < |ws| && ws[i].0 < |d| && forall j | i < j < |ws| :: ws[j].0 != ws[i].0
    ensures Land(d, ws)[ws[i].0] == ws[i].1
    decreases |ws|
  {
    if i < |ws| - 1 {
      LandLast(d, ws[..|ws| - 1], i);
    }
  }

  /** The same for writes to sectors all different. */
  lemma LandAt(d: seq<bytes>, ws: seq<Write>, i: nat)
    requires i < |ws| && ws[i].0 < |d| && DistinctSectors(ws)
    ensures Land(d, ws)[ws[i].0] == ws[i].1
  {
    LandLast(d, ws, i);
  }

  lemma LandOne(d: seq<bytes>, s: nat, v: bytes)
    requires s < |d|
    ensures Land(d, [(s, v)]) == d[s := v]
  {
    assert [(s, v)][..0] == [];
  }

  /** A sector no write touches stays. */
  lemma {:induction false} LandOther(d: seq<bytes>, ws: seq<Write>, s: nat)
    requires s < |d| && forall i | 0 <= i < |ws| :: ws[i].0 != s
    ensures Land(d, ws)[s] == d[s]
    decreases |ws|
  {
    if ws != [] {
      LandOther(d, ws[..|ws| - 1], s);
    }
  }

  /** On a disk with nothing pending, a flushed group lands as a whole. */
  lemma FlushQuiet(d: seq<bytes>, ws: seq<Write>)
    ensures Flushed(Written(Booted(d), ws)) == Booted(Land(d, ws))
  {
    assert Booted(d).pending + ws == ws;
  }

  /** One more write, then a flush: that sector holds the new value, the others
      what a read returned before. */
  lemma FlushOne(st: State, s: nat, v: bytes)
    requires s < |st.durable|
    ensures Flushed(Written(st, [(s, v)])) == Booted(Contents(st)[s := v])
  {
    var ws := st.pending + [(s, v)];
    assert ws[..|ws| - 1] == st.pending;
  }

  lemma {:induction false} LandAppend(d: seq<bytes>, a: seq<Write>, b: seq<Write>)
    ensures Land(d, a + b) == Land(Land(d, a), b)
    decreases |b|
  {
    if b == [] {
      assert a + b == a;
    } else {
      LandAppend(d, a, b[..|b| - 1]);
      assert (a + b)[..|a + b| - 1] == a + b[..|b| - 1];
    }
  }

  /** What reads return at the end of a program depends only on what they returned
      at its start. */
  lemma FinalReads(st: State, p: Program)
    ensures Contents(Final(st, p)) == Contents(Final(Booted(Contents(st)), p))
  {
    match p
    case Done =>
    case Unflushed(ws) =>
      LandAppend(st.durable, st.pending, ws);
      FlushQuiet(Contents(st), ws);
    case Batch(ws, rest) =>
      LandAppend(st.durable, st.pending, ws);
      FlushQuiet(Contents(st), ws);
  }

  /** The whole program is one of its cuts. */
  lemma {:induction false} FinalIsCut(st: State, p: Program)
    ensures Cut(st, p, Final(st, p))
    decreases p
  {
    match p
    case Done =>
    case Unflushed(ws) =>
      assert ws[..|ws|] == ws;
    case Batch(ws, rest) =>
      FinalIsCut(Flushed(Written(st, ws)), rest);
  }

  /** Before its first request a program has done nothing. */
  lemma StartIsCut(st: State, p: Program)
    ensures Cut(st, p, st)
  {
    match p
    case Done =>
    case Unflushed(ws) =>
      assert st == Written(st, ws[..0]);
    case Batch(ws, rest) =>
      assert st == Written(st, ws[..0]);
  }

  /** The device driver's request interface. A request may fail, and a request
      that reports failure may have reached the device or not. */
  class Device {
    var durable: seq<bytes>
    var pending: seq<Write>
    /** Number of requests that reported failure. */
    ghost var faults: nat

    ghost function Snapshot(): State
      reads this
    {
      State(durable, pending)
    }

    constructor (image: seq<bytes>)
      ensures Snapshot() == Booted(image) && faults == 0
    {
      durable, pending, faults := image, [], 0;
    }

    method Read(s: nat) returns (ok: bool, data: bytes)
      modifies this`faults
      ensures ok ==> s < |durable| && data == Contents(Snapshot())[s] && faults == old(faults)
      ensures !ok && s < |durable| ==> faults == old(faults) + 1
    {
      ok := *;
      data := [];
      if s >= |durable| {
        ok := false;
      } else if ok {
        data := Land(durable, pending)[s];
      } else {
        faults := faults + 1;
      }
    }

    method Write(s: nat, data: bytes) returns (ok: bool)
      modifies this
      ensures ok ==> Snapshot() == Written(old(Snapshot()), [(s, data)]) && faults == old(faults)
      ensures !ok ==> Snapshot() == old(Snapshot()) || Snapshot() == Written(old(Snapshot()), [(s, data)])
      ensures !ok && s < |old(durable)| ==> faults == old(faults) + 1
    {
      ok := *;
      if s >= |durable| {
        ok := false;
        return;
      }
      var reached := *;
      if ok || reached {
        pending := pending + [(s, data)];
      }
      if !ok {
        faults := faults + 1;
      }
    }

    method Flush() returns (ok: bool)
      modifies this
      ensures ok ==> Snapshot() == Flushed(old(Snapshot())) && faults == old(faults)
      ensures !ok ==> Snapshot() == old(Snapshot()) || Snapshot() == Flushed(old(Snapshot()))
      ensures !ok ==> faults == old(faults) + 1
    {
      ok := *;
      var reached := *;
      if ok || reached {
        durable, pending := Land(durable, pending), [];
      }
      if !ok {
        faults := faults + 1;
      }
    }
  }
}
