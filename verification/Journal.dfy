/** The RixFS redo journal: what the writers send to the device, and what a
    replay at mount makes of the disk it finds. Everything is stated on the
    sequence of device requests, so that a crash can be taken at any point. */
module Journal {
  import opened Common
  import opened Bytes
  import opened Disk
  import opened JournalFormat

  /** Where the journal lies on the volume, how its header sector reads and
      which checksum it keeps of a payload sector. The crash-safety results
      hold for any checksum and any header format. */
  datatype Geometry = Geometry(total: nat, start: nat, count: nat, sectorSize: nat,
                               sum: bytes -> u64, decode: bytes -> Header) {
    ghost predicate Valid() {
      && 512 <= sectorSize <= 4096
      && 2 <= count
      && start + count <= total < TWO64
      && decode(Blank()) == Empty
    }

    predicate InJournal(s: nat) {
      start <= s < start + count
    }

    /** A replay refuses to write here. */
    predicate BadTarget(s: nat) {
      s >= total || InJournal(s)
    }

    function Blank(): bytes {
      Zeros(sectorSize)
    }
  }

  /** A volume with the header format of RixFS. */
  function RixfsGeometry(total: nat, start: nat, count: nat, sectorSize: nat, sum: bytes -> u64): Geometry {
    Geometry(total, start, count, sectorSize, sum, Decode)
  }

  datatype Change = Change(sector: nat, data: bytes)

  ghost predicate Shaped(g: Geometry, st: State) {
    && |st.durable| == g.total
    && (forall s | 0 <= s < g.total :: |st.durable[s]| == g.sectorSize)
    && (forall w | w in st.pending :: w.0 < g.total && |w.1| == g.sectorSize)
  }

  lemma ShapedMayHold(g: Geometry, st: State, s: nat, v: bytes)
    requires Shaped(g, st) && MayHold(st, s, v)
    ensures s < g.total && |v| == g.sectorSize
  {
    if (s, v) in st.pending {
      var w := (s, v);
      assert w in st.pending;
    }
  }

  // ---------------------------------------------------------------------
  // Programs the writers run
  // ---------------------------------------------------------------------

  function EntriesOf(g: Geometry, cs: seq<Change>): (es: seq<Entry>)
    ensures |es| == |cs|
    ensures forall i | 0 <= i < |cs| :: es[i] == Entry(cs[i].sector, g.sum(cs[i].data))
  {
    seq(|cs|, i requires 0 <= i < |cs| => Entry(cs[i].sector, g.sum(cs[i].data)))
  }

  function Payloads(g: Geometry, cs: seq<Change>): (ws: seq<Write>)
    ensures |ws| == |cs|
    ensures forall i | 0 <= i < |cs| :: ws[i] == (g.start + 1 + i, cs[i].data)
  {
    seq(|cs|, i requires 0 <= i < |cs| => (g.start + 1 + i, cs[i].data))
  }

  function Targets(cs: seq<Change>): (ws: seq<Write>)
    ensures |ws| == |cs|
    ensures forall i | 0 <= i < |cs| :: ws[i] == (cs[i].sector, cs[i].data)
  {
    seq(|cs|, i requires 0 <= i < |cs| => (cs[i].sector, cs[i].data))
  }

  /** Erase the header. */
  function ClearProgram(g: Geometry): Program {
    Batch([(g.start, g.Blank())], Done)
  }

  /** Write `ws` in place and erase the header: the end of both writers, and what
      a successful replay does. */
  function RedoProgram(g: Geometry, ws: seq<Write>): Program {
    Batch(ws, ClearProgram(g))
  }

  /** Redoing, step by step. */
  lemma RedoSteps(g: Geometry, ws: seq<Write>, st: State)
    ensures var placed := Flushed(Written(st, ws));
            var clear := [(g.start, g.Blank())];
            && Final(st, RedoProgram(g, ws)) == Flushed(Written(placed, clear))
            && forall c :: Cut(st, RedoProgram(g, ws), c) <==>
                 PartWritten(st, ws, c) || PartWritten(placed, clear, c) || c == Flushed(Written(placed, clear))
  {
    var placed, clear := Flushed(Written(st, ws)), [(g.start, g.Blank())];
    assert Final(placed, ClearProgram(g)) == Final(Flushed(Written(placed, clear)), Done);
    forall c
      ensures Cut(placed, ClearProgram(g), c) <==> PartWritten(placed, clear, c) || c == Flushed(Written(placed, clear))
    {
      assert Cut(Flushed(Written(placed, clear)), Done, c) <==> c == Flushed(Written(placed, clear));
    }
  }

  /** Header, payloads, targets, erased header. */
  function TxProgram(g: Geometry, header: bytes, cs: seq<Change>): Program {
    Batch([(g.start, header)], Batch(Payloads(g, cs), RedoProgram(g, Targets(cs))))
  }

  /** Payload, header, target, erased header. */
  function SingleProgram(g: Geometry, header: bytes, target: nat, data: bytes): Program {
    Batch([(g.start + 1, data)], AnnounceProgram(g, header, target, data))
  }

  /** The same without the payload. */
  function AnnounceProgram(g: Geometry, header: bytes, target: nat, data: bytes): Program {
    Batch([(g.start, header)], RedoProgram(g, [(target, data)]))
  }

  /** Both writers, step by step up to the point where they redo. */
  lemma WriterSteps(first: seq<Write>, second: seq<Write>, rest: Program, st: State, c: State)
    requires Cut(st, Batch(first, Batch(second, rest)), c)
    ensures || PartWritten(st, first, c)
            || PartWritten(Flushed(Written(st, first)), second, c)
            || Cut(Flushed(Written(Flushed(Written(st, first)), second)), rest, c)
  {
  }

  lemma WriterReaches(first: seq<Write>, second: seq<Write>, rest: Program, st: State, c: State)
    requires Cut(Flushed(Written(Flushed(Written(st, first)), second)), rest, c)
    ensures Cut(st, Batch(first, Batch(second, rest)), c)
  {
    assert Cut(Flushed(Written(st, first)), Batch(second, rest), c);
  }

  // ---------------------------------------------------------------------
  // Replay
  // ---------------------------------------------------------------------

  /** What a replay sends to the device when no request fails, and its result. */
  datatype Replay = Replay(program: Program, code: int)

  ghost predicate WellSized(g: Geometry, image: seq<bytes>) {
    |image| == g.total && forall s | 0 <= s < g.total :: |image[s]| == g.sectorSize
  }

  /** How many leading payload sectors match the sums in the header. */
  function Matching(g: Geometry, image: seq<bytes>, es: seq<Entry>): (m: nat)
    requires g.start + 1 + |es| <= |image|
    ensures m <= |es|
    ensures forall i | 0 <= i < m :: g.sum(image[g.start + 1 + i]) == es[i].sum
    ensures m < |es| ==> g.sum(image[g.start + 1 + m]) != es[m].sum
  {
    if es == [] then 0
    else
      var n := |es| - 1;
      var m := Matching(g, image, es[..n]);
      if m == n && g.sum(image[g.start + 1 + n]) == es[n].sum then n + 1 else m
  }

  /** The announced sectors, taken from the journal. */
  function Redo(g: Geometry, image: seq<bytes>, es: seq<Entry>): (ws: seq<Write>)
    requires g.start + 1 + |es| <= |image|
    ensures |ws| == |es|
    ensures forall i | 0 <= i < |es| :: ws[i] == (es[i].sector, image[g.start + 1 + i])
  {
    seq(|es|, i requires 0 <= i < |es| => (es[i].sector, image[g.start + 1 + i]))
  }

  /** Each payload is checked just before it is written in place: a payload that
      does not match stops the replay with the earlier ones written. */
  function ReplayMulti(g: Geometry, image: seq<bytes>, es: seq<Entry>): Replay
    requires g.Valid() && WellSized(g, image)
  {
    if |es| + 1 > g.count || EntryAt(|es|) > g.sectorSize then Replay(Done, -4)
    else if exists i | 0 <= i < |es| :: g.BadTarget(es[i].sector) then Replay(Done, -5)
    else
      var m := Matching(g, image, es);
      var redo := Redo(g, image, es[..m]);
      if m < |es| then Replay(Unflushed(redo), -6)
      else Replay(RedoProgram(g, redo), 0)
  }

  function ReplaySingle(g: Geometry, image: seq<bytes>, e: Entry, sequence: nat): Replay
    requires g.Valid() && WellSized(g, image)
  {
    var payload := image[g.start + 1];
    if sequence == 0 || g.BadTarget(e.sector) then Replay(Done, -7)
    else if g.sum(payload) != e.sum then Replay(Done, -8)
    else Replay(RedoProgram(g, [(e.sector, payload)]), 0)
  }

  function ReplayOf(g: Geometry, image: seq<bytes>): Replay
    requires g.Valid() && WellSized(g, image)
  {
    match g.decode(image[g.start])
    case Empty => Replay(Done, 0)
    case BadMulti => Replay(Done, -4)
    case Multi(es) => ReplayMulti(g, image, es)
    case Single(e, sequence) => ReplaySingle(g, image, e, sequence)
  }

  /** The disk a replay that runs to completion leaves behind. */
  function Recovered(g: Geometry, image: seq<bytes>): (d: seq<bytes>)
    requires g.Valid() && WellSized(g, image)
    ensures |d| == |image|
  {
    Contents(Final(Booted(image), ReplayOf(g, image).program))
  }

  /** A replay that succeeds leaves nothing to replay. */
  lemma RecoveredIsQuiet(g: Geometry, image: seq<bytes>)
    requires g.Valid() && WellSized(g, image) && ReplayOf(g, image).code == 0
    ensures g.decode(Recovered(g, image)[g.start]) == Empty
  {
    var p := ReplayOf(g, image).program;
    if g.decode(image[g.start]) != Empty {
      var ws := p.ws;
      RedoSteps(g, ws, Booted(image));
      FlushOne(Flushed(Written(Booted(image), ws)), g.start, g.Blank());
    }
  }

  /** A mount attempt on `from` stops at some request of its replay (it crashed,
      a request failed, or it finished) and power is lost. */
  ghost predicate RebootStep(g: Geometry, from: seq<bytes>, to: seq<bytes>)
    requires g.Valid() && WellSized(g, from)
  {
    exists c :: Cut(Booted(from), ReplayOf(g, from).program, c) && CrashImage(c, to)
  }

  ghost predicate Rebooted(g: Geometry, images: seq<seq<bytes>>, i: nat) {
    g.Valid() && 0 < i < |images| && WellSized(g, images[i - 1]) && RebootStep(g, images[i - 1], images[i])
  }

  /** A run of such mount attempts. */
  ghost predicate Reboots(g: Geometry, images: seq<seq<bytes>>) {
    && g.Valid()
    && (forall i | 0 <= i < |images| :: WellSized(g, images[i]))
    && forall i | 0 < i < |images| :: Rebooted(g, images, i)
  }

  /** What every mount attempt keeps, a run of them keeps. */
  lemma {:induction false} RebootsKeep(g: Geometry, images: seq<seq<bytes>>, good: seq<bytes> -> bool, n: nat)
    requires Reboots(g, images) && n < |images| && good(images[0])
    requires forall from, to | good(from) && WellSized(g, from) && RebootStep(g, from, to) :: good(to)
    ensures good(images[n])
  {
    if n > 0 {
      RebootsKeep(g, images, good, n - 1);
      assert Rebooted(g, images, n);
    }
  }

  // ---------------------------------------------------------------------
  // What a replay makes of a transaction header
  // ---------------------------------------------------------------------

  /** Replay reads the transaction `cs` from header `h`. */
  ghost predicate Announces(g: Geometry, h: bytes, cs: seq<Change>) {
    && |h| == g.sectorSize
    && |cs| + 1 <= g.count && EntryAt(|cs|) <= g.sectorSize
    && g.decode(h) == Multi(EntriesOf(g, cs))
  }

  /** The header the writer builds is read back as the transaction. */
  lemma WriterAnnounces(total: nat, start: nat, count: nat, size: nat, sum: bytes -> u64, gen: nat, cs: seq<Change>)
    requires 512 <= size <= 4096 && 0 < |cs| <= TX_MAX && |cs| + 1 <= count
    requires forall i | 0 <= i < |cs| :: cs[i].sector < TWO64
    ensures var g := RixfsGeometry(total, start, count, size, sum);
            Announces(g, EncodeMulti(size, gen, EntriesOf(g, cs)), cs)
  {
    var g := RixfsGeometry(total, start, count, size, sum);
    MultiRoundTrip(size, gen, EntriesOf(g, cs));
  }

  /** The checksum tells whether `v` is `data`. */
  ghost predicate SumTells(g: Geometry, v: bytes, data: bytes) {
    g.sum(v) == g.sum(data) <==> v == data
  }

  /** Replaying an announced transaction redoes its targets in order up to the
      first payload that is not there. */
  lemma ReplayOfAnnounced(g: Geometry, cs: seq<Change>, image: seq<bytes>) returns (m: nat)
    requires g.Valid() && WellSized(g, image)
    requires forall i | 0 <= i < |cs| :: !g.BadTarget(cs[i].sector)
    requires Announces(g, image[g.start], cs)
    requires forall i | 0 <= i < |cs| :: SumTells(g, image[g.start + 1 + i], cs[i].data)
    ensures m <= |cs|
    ensures forall i | 0 <= i < m :: image[g.start + 1 + i] == cs[i].data
    ensures m < |cs| ==> image[g.start + 1 + m] != cs[m].data
    ensures ReplayOf(g, image) == if m < |cs| then Replay(Unflushed(Targets(cs)[..m]), -6)
                                  else Replay(RedoProgram(g, Targets(cs)), 0)
  {
    var es := EntriesOf(g, cs);
    m := Matching(g, image, es);
    assert Redo(g, image, es[..m]) == Targets(cs)[..m];
    assert m == |cs| ==> Targets(cs)[..m] == Targets(cs);
  }

  // ---------------------------------------------------------------------
  // What a disk may hold, sector by sector
  // ---------------------------------------------------------------------

  /** Which values each sector is allowed to hold. */
  type Rule = (nat, bytes) -> bool

  /** Whatever a crash may leave of `st` is allowed by `rule`. */
  ghost predicate Within(g: Geometry, rule: Rule, st: State) {
    Shaped(g, st) && forall s, v | MayHold(st, s, v) :: rule(s, v)
  }

  ghost predicate WriteAllowed(g: Geometry, rule: Rule, w: Write) {
    w.0 < g.total && |w.1| == g.sectorSize && rule(w.0, w.1)
  }

  ghost predicate WritesAllowed(g: Geometry, rule: Rule, ws: seq<Write>) {
    forall w | w in ws :: WriteAllowed(g, rule, w)
  }

  /** Whatever a crash leaves on disk could be there already. */
  lemma CrashKeeps(g: Geometry, rule: Rule, st: State, image: seq<bytes>)
    requires Within(g, rule, st) && CrashImage(st, image)
    ensures Within(g, rule, Booted(image))
  {
    forall s | 0 <= s < g.total ensures |image[s]| == g.sectorSize {
      ShapedMayHold(g, st, s, image[s]);
    }
  }

  /** Allowed writes keep the device within the rule, however many got out. */
  lemma WritesKeep(g: Geometry, rule: Rule, st: State, ws: seq<Write>, c: State)
    requires Within(g, rule, st) && WritesAllowed(g, rule, ws) && PartWritten(st, ws, c)
    ensures Within(g, rule, c)
  {
    var m :| 0 <= m <= |ws| && c == Written(st, ws[..m]);
    forall w | w in c.pending ensures w in st.pending || WriteAllowed(g, rule, w) {
      if w !in st.pending {
        assert w in ws[..m] && w in ws;
      }
    }
    forall s: nat, v | MayHold(c, s, v) ensures rule(s, v) {
      if (s, v) in st.pending || v == st.durable[s] {
        assert MayHold(st, s, v);
      } else {
        assert WriteAllowed(g, rule, (s, v));
      }
    }
  }

  /** A flush keeps the device within the rule. */
  lemma FlushKeeps(g: Geometry, rule: Rule, st: State)
    requires Within(g, rule, st)
    ensures Within(g, rule, Flushed(st))
  {
    forall s | 0 <= s < g.total ensures MayHold(st, s, Contents(st)[s]) && |Contents(st)[s]| == g.sectorSize {
      ContentsMayHold(st, s);
      ShapedMayHold(g, st, s, Contents(st)[s]);
    }
  }

  /** A group of allowed writes and its flush. */
  lemma BatchKeeps(g: Geometry, rule: Rule, st: State, ws: seq<Write>)
    requires Within(g, rule, st) && WritesAllowed(g, rule, ws)
    ensures Within(g, rule, Flushed(Written(st, ws)))
  {
    assert Written(st, ws) == Written(st, ws[..|ws|]);
    WritesKeep(g, rule, st, ws, Written(st, ws));
    FlushKeeps(g, rule, Written(st, ws));
  }

  /** One write flushed on a device whose other sectors are within the rule. */
  lemma FlushOneKeeps(g: Geometry, rule: Rule, st: State, s: nat, v: bytes) returns (d: seq<bytes>)
    requires Shaped(g, st) && WriteAllowed(g, rule, (s, v))
    requires forall t, w | MayHold(st, t, w) && t != s :: rule(t, w)
    ensures Flushed(Written(st, [(s, v)])) == Booted(d)
    ensures Within(g, rule, Booted(d)) && d[s] == v
  {
    FlushOne(st, s, v);
    d := Contents(st)[s := v];
    forall t | 0 <= t < g.total ensures |d[t]| == g.sectorSize && rule(t, d[t]) {
      if t != s {
        ContentsMayHold(st, t);
        ShapedMayHold(g, st, t, d[t]);
      }
    }
  }

  /** Redoing allowed writes, cut anywhere and run to its end. */
  lemma RedoWithin(g: Geometry, rule: Rule, ws: seq<Write>, st: State)
    requires Within(g, rule, st) && WritesAllowed(g, rule, ws) && WriteAllowed(g, rule, (g.start, g.Blank()))
    ensures forall c | Cut(st, RedoProgram(g, ws), c) :: Within(g, rule, c)
    ensures Within(g, rule, Final(st, RedoProgram(g, ws)))
  {
    var clear := [(g.start, g.Blank())];
    var placed := Flushed(Written(st, ws));
    RedoSteps(g, ws, st);
    BatchKeeps(g, rule, st, ws);
    BatchKeeps(g, rule, placed, clear);
    forall c | Cut(st, RedoProgram(g, ws), c) ensures Within(g, rule, c) {
      if PartWritten(st, ws, c) {
        WritesKeep(g, rule, st, ws, c);
      } else if PartWritten(placed, clear, c) {
        WritesKeep(g, rule, placed, clear, c);
      }
    }
  }

  /** `d` except at the sectors in `moved`. */
  ghost function Except(d: seq<bytes>, moved: set<nat>): Rule {
    (s: nat, v: bytes) => s in moved || (s < |d| && v == d[s])
  }
}
