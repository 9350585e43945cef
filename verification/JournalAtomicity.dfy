/** Crash safety of the multi-sector transaction, over every cut of the writer,
    every set of surviving unflushed writes, and every run of mount attempts that
    follows. */
module JournalAtomicity {
  import opened Bytes
  import opened Disk
  import opened Journal
  import opened JournalFormat

  /** How far a transaction has come, as the disk shows it.
      - Announced: the header may be on disk, nothing else is.
      - Filling: the header is on disk; payloads and targets may be old or new.
      - Ready: the header and every payload are on disk.
      - Applied: every target is new; the header may be gone. */
  datatype Phase = Announced | Filling | Ready | Applied

  /** A transaction about to be written to a volume in state `before`. */
  datatype Tx = Tx(g: Geometry, header: bytes, cs: seq<Change>, before: State) {

    ghost predicate Valid() {
      && g.Valid()
      && Shaped(g, before)
      && Announces(g, header, cs)
      && (forall i | 0 <= i < |cs| :: !g.BadTarget(cs[i].sector) && |cs[i].data| == g.sectorSize)
      && (forall i, j | 0 <= i < j < |cs| :: cs[i].sector != cs[j].sector)
      && (forall v | MayHold(before, g.start, v) :: g.decode(v) == Empty)
      && DistinctSums()
    }

    /** No stale payload sector carries the checksum of the new payload. */
    ghost predicate DistinctSums() {
      forall s, v | IsSlot(s) && MayHold(before, s, v) && g.sum(v) == g.sum(Payload(s)) :: v == Payload(s)
    }

    predicate IsSlot(s: nat) {
      g.start < s <= g.start + |cs|
    }

    function Payload(s: nat): bytes
      requires IsSlot(s)
    {
      cs[s - g.start - 1].data
    }

    /** What the writer sends to the device. */
    function Program(): Program {
      TxProgram(g, header, cs)
    }

    /** Every payload is in its journal sector. */
    ghost predicate PayloadsOn(d: seq<bytes>) {
      |d| == g.total && forall s: nat | IsSlot(s) && s < |d| :: d[s] == Payload(s)
    }

    ghost predicate IsTarget(s: nat) {
      exists i | 0 <= i < |cs| :: cs[i].sector == s
    }

    ghost predicate NewTarget(s: nat, v: bytes) {
      exists i | 0 <= i < |cs| :: cs[i].sector == s && cs[i].data == v
    }

    ghost predicate HeaderAllowed(p: Phase, v: bytes) {
      v == header || ((p.Announced? || p.Applied?) && g.decode(v) == Empty)
    }

    ghost predicate SlotAllowed(p: Phase, s: nat, v: bytes)
      requires IsSlot(s)
    {
      v == Payload(s) || ((p.Announced? || p.Filling?) && MayHold(before, s, v))
    }

    ghost predicate TargetAllowed(p: Phase, s: nat, v: bytes) {
      (!p.Announced? && NewTarget(s, v)) || (!p.Applied? && MayHold(before, s, v))
    }

    /** In phase `p`, sector `s` may hold `v`. */
    ghost predicate Allows(p: Phase, s: nat, v: bytes) {
      if s == g.start then HeaderAllowed(p, v)
      else if IsSlot(s) then SlotAllowed(p, s, v)
      else if g.InJournal(s) then true
      else if IsTarget(s) then TargetAllowed(p, s, v)
      else MayHold(before, s, v)
    }

    ghost function RuleOf(p: Phase): Rule {
      (s: nat, v: bytes) => Allows(p, s, v)
    }

    ghost predicate In(p: Phase, st: State) {
      Within(g, RuleOf(p), st)
    }

    ghost predicate Recoverable(st: State) {
      exists p :: In(p, st)
    }

    /** From here on the outcome is decided: the targets will be new. */
    ghost predicate Committed(st: State) {
      In(Ready, st) || In(Applied, st)
    }
  }

  // ---------------------------------------------------------------------
  // From phase to phase
  // ---------------------------------------------------------------------

  lemma NewTargetOf(tx: Tx, i: nat)
    requires tx.Valid() && i < |tx.cs|
    ensures tx.IsTarget(tx.cs[i].sector) && tx.NewTarget(tx.cs[i].sector, tx.cs[i].data)
    ensures forall p: Phase | !p.Announced? :: tx.Allows(p, tx.cs[i].sector, tx.cs[i].data)
  {
  }

  /** Writing new values over targets is allowed once the header is on disk. */
  lemma TargetsAllowed(tx: Tx, p: Phase, m: nat)
    requires tx.Valid() && !p.Announced? && m <= |tx.cs|
    ensures WritesAllowed(tx.g, tx.RuleOf(p), Targets(tx.cs)[..m])
  {
    forall w | w in Targets(tx.cs)[..m] ensures WriteAllowed(tx.g, tx.RuleOf(p), w) {
      var i :| 0 <= i < m && Targets(tx.cs)[i] == w;
      NewTargetOf(tx, i);
    }
  }

  /** The header on disk takes the transaction past `Announced`. */
  lemma MakeFilling(tx: Tx, p: Phase, d: seq<bytes>)
    requires tx.Valid() && tx.In(p, Booted(d)) && p.Announced? && d[tx.g.start] == tx.header
    ensures tx.In(Filling, Booted(d))
  {
    forall s: nat, v | MayHold(Booted(d), s, v) ensures tx.Allows(Filling, s, v) {
      assert tx.Allows(p, s, v);
    }
  }

  /** The header and every payload on disk make the transaction `Ready`. */
  lemma MakeReady(tx: Tx, p: Phase, d: seq<bytes>)
    requires tx.Valid() && tx.In(p, Booted(d)) && !p.Applied? && d[tx.g.start] == tx.header
    requires tx.PayloadsOn(d)
    ensures tx.In(Ready, Booted(d))
  {
    forall s: nat, v | MayHold(Booted(d), s, v) ensures tx.Allows(Ready, s, v) {
      assert tx.Allows(p, s, v);
    }
  }

  /** Every target new on a committed disk makes the transaction `Applied`. */
  lemma MakeApplied(tx: Tx, p: Phase, d: seq<bytes>)
    requires tx.Valid() && p in {Ready, Applied} && tx.In(p, Booted(d))
    requires forall i | 0 <= i < |tx.cs| :: d[tx.cs[i].sector] == tx.cs[i].data
    ensures tx.In(Applied, Booted(d))
  {
    forall s: nat, v | MayHold(Booted(d), s, v) ensures tx.Allows(Applied, s, v) {
      assert tx.Allows(p, s, v);
      if !tx.g.InJournal(s) && tx.IsTarget(s) {
        var i :| 0 <= i < |tx.cs| && tx.cs[i].sector == s;
        NewTargetOf(tx, i);
      }
    }
  }

  // ---------------------------------------------------------------------
  // The writer
  // ---------------------------------------------------------------------

  /** Writes to consecutive sectors land where they belong. */
  lemma LandRow(start: nat, ws: seq<Write>, d: seq<bytes>, s: nat)
    requires start < s <= start + |ws| < |d|
    requires forall i | 0 <= i < |ws| :: ws[i].0 == start + 1 + i
    ensures Land(d, ws)[s] == ws[s - start - 1].1
  {
    var i := s - start - 1;
    assert ws[i].0 == s;
    LandAt(d, ws, i);
  }

  lemma PayloadsAllowed(tx: Tx)
    requires tx.Valid()
    ensures WritesAllowed(tx.g, tx.RuleOf(Filling), Payloads(tx.g, tx.cs))
  {
    var ws := Payloads(tx.g, tx.cs);
    forall w | w in ws ensures WriteAllowed(tx.g, tx.RuleOf(Filling), w) {
      var i :| 0 <= i < |ws| && ws[i] == w;
      assert tx.IsSlot(w.0) && tx.Payload(w.0) == w.1;
    }
  }

  lemma LandPayload(tx: Tx, d: seq<bytes>, ws: seq<Write>, s: nat)
    requires tx.g.start + |tx.cs| < |d| && tx.IsSlot(s) && ws == Payloads(tx.g, tx.cs)
    ensures Land(d, ws)[s] == tx.Payload(s)
  {
    LandRow(tx.g.start, ws, d, s);
    assert ws[s - tx.g.start - 1].1 == tx.Payload(s);
  }

  /** The payloads reach the disk: the transaction is committed. */
  lemma PayloadPhase(tx: Tx, d: seq<bytes>)
    requires tx.Valid() && tx.In(Filling, Booted(d))
    ensures WritesAllowed(tx.g, tx.RuleOf(Filling), Payloads(tx.g, tx.cs))
    ensures Flushed(Written(Booted(d), Payloads(tx.g, tx.cs))) == Booted(Land(d, Payloads(tx.g, tx.cs)))
    ensures tx.In(Ready, Booted(Land(d, Payloads(tx.g, tx.cs))))
  {
    var ws := Payloads(tx.g, tx.cs);
    PayloadsAllowed(tx);
    BatchKeeps(tx.g, tx.RuleOf(Filling), Booted(d), ws);
    FlushQuiet(d, ws);
    var e := Land(d, ws);
    forall s: nat | tx.IsSlot(s) ensures e[s] == tx.Payload(s) {
      LandPayload(tx, d, ws, s);
    }
    assert MayHold(Booted(e), tx.g.start, e[tx.g.start]) && tx.Allows(Filling, tx.g.start, e[tx.g.start]);
    MakeReady(tx, Filling, e);
  }

  /** Every target reaches the disk. */
  lemma TargetPhase(tx: Tx, p: Phase, d: seq<bytes>)
    requires tx.Valid() && p in {Ready, Applied} && tx.In(p, Booted(d))
    ensures WritesAllowed(tx.g, tx.RuleOf(p), Targets(tx.cs))
    ensures Flushed(Written(Booted(d), Targets(tx.cs))) == Booted(Land(d, Targets(tx.cs)))
    ensures tx.In(Applied, Booted(Land(d, Targets(tx.cs))))
  {
    var ws := Targets(tx.cs);
    assert ws[..|ws|] == ws;
    TargetsAllowed(tx, p, |ws|);
    BatchKeeps(tx.g, tx.RuleOf(p), Booted(d), ws);
    FlushQuiet(d, ws);
    forall i | 0 <= i < |tx.cs| ensures Land(d, ws)[tx.cs[i].sector] == tx.cs[i].data {
      LandAt(d, ws, i);
    }
    MakeApplied(tx, p, Land(d, ws));
  }

  /** The header is erased. */
  lemma ClearPhase(tx: Tx, d: seq<bytes>) returns (e: seq<bytes>)
    requires tx.Valid() && tx.In(Applied, Booted(d))
    ensures WritesAllowed(tx.g, tx.RuleOf(Applied), [(tx.g.start, tx.g.Blank())])
    ensures Flushed(Written(Booted(d), [(tx.g.start, tx.g.Blank())])) == Booted(e)
    ensures tx.In(Applied, Booted(e)) && tx.g.decode(e[tx.g.start]) == Empty
  {
    e := FlushOneKeeps(tx.g, tx.RuleOf(Applied), Booted(d), tx.g.start, tx.g.Blank());
  }

  /** Redoing a committed transaction, cut anywhere and run to its end. */
  lemma RedoPhases(tx: Tx, p: Phase, d: seq<bytes>) returns (e: seq<bytes>)
    requires tx.Valid() && p in {Ready, Applied} && tx.In(p, Booted(d))
    ensures forall c | Cut(Booted(d), RedoProgram(tx.g, Targets(tx.cs)), c) :: tx.Committed(c)
    ensures Final(Booted(d), RedoProgram(tx.g, Targets(tx.cs))) == Booted(e)
    ensures tx.In(Applied, Booted(e)) && tx.g.decode(e[tx.g.start]) == Empty
  {
    var ws, clear := Targets(tx.cs), [(tx.g.start, tx.g.Blank())];
    RedoSteps(tx.g, ws, Booted(d));
    TargetPhase(tx, p, d);
    e := ClearPhase(tx, Land(d, ws));
    forall c | Cut(Booted(d), RedoProgram(tx.g, ws), c) ensures tx.Committed(c) {
      if PartWritten(Booted(d), ws, c) {
        WritesKeep(tx.g, tx.RuleOf(p), Booted(d), ws, c);
      } else if PartWritten(Booted(Land(d, ws)), clear, c) {
        WritesKeep(tx.g, tx.RuleOf(Applied), Booted(Land(d, ws)), clear, c);
      } else {
        assert c == Booted(e);
      }
    }
  }

  /** The device once the header has been flushed. */
  function HeaderDown(tx: Tx): State {
    Flushed(Written(tx.before, [(tx.g.start, tx.header)]))
  }

  /** The device once the payloads have been flushed as well. */
  function PayloadsDown(tx: Tx): State {
    Flushed(Written(HeaderDown(tx), Payloads(tx.g, tx.cs)))
  }

  /** The header reaches the disk. */
  lemma HeaderPhase(tx: Tx) returns (d: seq<bytes>)
    requires tx.Valid()
    ensures forall c | PartWritten(tx.before, [(tx.g.start, tx.header)], c) :: tx.In(Announced, c)
    ensures HeaderDown(tx) == Booted(d) && tx.In(Filling, Booted(d))
  {
    assert tx.In(Announced, tx.before);
    var ws := [(tx.g.start, tx.header)];
    forall c | PartWritten(tx.before, ws, c) ensures tx.In(Announced, c) {
      WritesKeep(tx.g, tx.RuleOf(Announced), tx.before, ws, c);
    }
    d := FlushOneKeeps(tx.g, tx.RuleOf(Filling), tx.before, tx.g.start, tx.header);
  }

  /** `c` is the device at a moment after the payloads have been flushed. */
  ghost predicate AfterCommit(tx: Tx, c: State) {
    Cut(PayloadsDown(tx), RedoProgram(tx.g, Targets(tx.cs)), c)
  }

  /** Wherever the writer is cut, the disk is in a phase a replay can settle; once
      the payloads are flushed the outcome is decided. */
  lemma WriterPhases(tx: Tx, c: State)
    requires tx.Valid() && Cut(tx.before, tx.Program(), c)
    ensures tx.Recoverable(c)
    ensures AfterCommit(tx, c) ==> tx.Committed(c)
  {
    WriterSteps([(tx.g.start, tx.header)], Payloads(tx.g, tx.cs), RedoProgram(tx.g, Targets(tx.cs)), tx.before, c);
    var d := HeaderPhase(tx);
    PayloadPhase(tx, d);
    var _ := RedoPhases(tx, Ready, Land(d, Payloads(tx.g, tx.cs)));
    if PartWritten(tx.before, [(tx.g.start, tx.header)], c) {
    } else if PartWritten(Booted(d), Payloads(tx.g, tx.cs), c) {
      WritesKeep(tx.g, tx.RuleOf(Filling), Booted(d), Payloads(tx.g, tx.cs), c);
      assert tx.In(Filling, c);
    } else {
      assert tx.Committed(c);
    }
  }

  // ---------------------------------------------------------------------
  // Replay
  // ---------------------------------------------------------------------

  /** A payload sector whose checksum is the announced one holds the payload. */
  lemma SumsIdentifyPayloads(tx: Tx, p: Phase, image: seq<bytes>, s: nat)
    requires tx.Valid() && tx.In(p, Booted(image)) && tx.IsSlot(s)
    ensures s < |image|
    ensures SumTells(tx.g, image[s], tx.Payload(s))
  {
    assert MayHold(Booted(image), s, image[s]);
    assert tx.Allows(p, s, image[s]);
  }

  lemma SumsIdentifyAll(tx: Tx, p: Phase, image: seq<bytes>)
    requires tx.Valid() && tx.In(p, Booted(image))
    ensures WellSized(tx.g, image)
    ensures forall i | 0 <= i < |tx.cs| :: SumTells(tx.g, image[tx.g.start + 1 + i], tx.cs[i].data)
  {
    forall i | 0 <= i < |tx.cs| ensures SumTells(tx.g, image[tx.g.start + 1 + i], tx.cs[i].data) {
      var s := tx.g.start + 1 + i;
      assert tx.Payload(s) == tx.cs[i].data;
      SumsIdentifyPayloads(tx, p, image, s);
    }
  }

  /** How a replay reads the header this transaction wrote. */
  lemma ReplayReadsHeader(tx: Tx, p: Phase, image: seq<bytes>) returns (m: nat)
    requires tx.Valid() && tx.In(p, Booted(image)) && image[tx.g.start] == tx.header
    ensures WellSized(tx.g, image) && m <= |tx.cs|
    ensures m == |tx.cs| <==> tx.PayloadsOn(image)
    ensures ReplayOf(tx.g, image)
         == if m < |tx.cs| then Replay(Unflushed(Targets(tx.cs)[..m]), -6)
            else Replay(RedoProgram(tx.g, Targets(tx.cs)), 0)
  {
    SumsIdentifyAll(tx, p, image);
    m := ReplayOfAnnounced(tx.g, tx.cs, image);
    PayloadsOnFrom(tx, image, m);
  }

  /** Every payload is there exactly when the first `m` are all of them. */
  lemma PayloadsOnFrom(tx: Tx, image: seq<bytes>, m: nat)
    requires tx.g.start + 1 + |tx.cs| <= |image| == tx.g.total && m <= |tx.cs|
    requires forall i | 0 <= i < m :: image[tx.g.start + 1 + i] == tx.cs[i].data
    requires m < |tx.cs| ==> image[tx.g.start + 1 + m] != tx.cs[m].data
    ensures m == |tx.cs| <==> tx.PayloadsOn(image)
  {
    if m == |tx.cs| {
      forall s: nat | tx.IsSlot(s) ensures image[s] == tx.Payload(s) {
        var i := s - tx.g.start - 1;
        assert image[tx.g.start + 1 + i] == tx.cs[i].data;
      }
    } else {
      assert tx.IsSlot(tx.g.start + 1 + m);
    }
  }

  lemma CommittedPayloads(tx: Tx, p: Phase, image: seq<bytes>)
    requires tx.Valid() && tx.In(p, Booted(image)) && p in {Ready, Applied}
    ensures tx.PayloadsOn(image)
  {
    forall s: nat | tx.IsSlot(s) ensures image[s] == tx.Payload(s) {
      assert MayHold(Booted(image), s, image[s]) && tx.Allows(p, s, image[s]);
    }
  }

  /** With its header on disk the transaction is past `Announced`; with every
      payload on disk it is committed. */
  lemma Sharpen(tx: Tx, p: Phase, image: seq<bytes>) returns (q: Phase)
    requires tx.Valid() && tx.In(p, Booted(image)) && image[tx.g.start] == tx.header
    ensures !q.Announced? && tx.In(q, Booted(image))
    ensures tx.PayloadsOn(image) ==> q in {Ready, Applied}
  {
    if !p.Applied? && tx.PayloadsOn(image) {
      MakeReady(tx, p, image);
      q := Ready;
    } else if p.Announced? {
      MakeFilling(tx, p, image);
      q := Filling;
    } else {
      q := p;
    }
  }

  /** One replay, cut anywhere, started on a disk in phase `p`. */
  lemma ReplayPhases(tx: Tx, p: Phase, image: seq<bytes>, c: State)
    requires tx.Valid() && tx.In(p, Booted(image)) && WellSized(tx.g, image)
    requires Cut(Booted(image), ReplayOf(tx.g, image).program, c)
    ensures tx.Recoverable(c)
    ensures p in {Ready, Applied} ==> tx.Committed(c)
  {
    assert MayHold(Booted(image), tx.g.start, image[tx.g.start]);
    assert tx.Allows(p, tx.g.start, image[tx.g.start]);
    if p in {Ready, Applied} {
      CommittedPayloads(tx, p, image);
    }
    if image[tx.g.start] == tx.header {
      var m := ReplayReadsHeader(tx, p, image);
      var q := Sharpen(tx, p, image);
      if m < |tx.cs| {
        TargetsAllowed(tx, q, m);
        WritesKeep(tx.g, tx.RuleOf(q), Booted(image), Targets(tx.cs)[..m], c);
        assert tx.In(q, c);
      } else {
        var _ := RedoPhases(tx, q, image);
      }
    }
  }

  /** A replay that succeeds settles the transaction one way or the other. */
  lemma ReplaySettles(tx: Tx, p: Phase, image: seq<bytes>)
    requires tx.Valid() && tx.In(p, Booted(image)) && WellSized(tx.g, image)
    requires ReplayOf(tx.g, image).code == 0
    ensures var d := Recovered(tx.g, image);
            && tx.g.decode(d[tx.g.start]) == Empty
            && (tx.In(Announced, Booted(d)) || tx.In(Applied, Booted(d)))
            && (p in {Ready, Applied} ==> tx.In(Applied, Booted(d)))
  {
    assert MayHold(Booted(image), tx.g.start, image[tx.g.start]);
    assert tx.Allows(p, tx.g.start, image[tx.g.start]);
    if image[tx.g.start] == tx.header {
      var m := ReplayReadsHeader(tx, p, image);
      var q := Sharpen(tx, p, image);
      var e := RedoPhases(tx, q, image);
      assert Recovered(tx.g, image) == e;
    } else {
      assert Recovered(tx.g, image) == image;
    }
  }

  // ---------------------------------------------------------------------
  // Whole runs
  // ---------------------------------------------------------------------

  lemma CrashKeepsPhase(tx: Tx, st: State, image: seq<bytes>)
    requires tx.Valid() && CrashImage(st, image)
    ensures tx.Recoverable(st) ==> tx.Recoverable(Booted(image))
    ensures tx.Committed(st) ==> tx.Committed(Booted(image))
  {
    forall p | tx.In(p, st) ensures tx.In(p, Booted(image)) {
      CrashKeeps(tx.g, tx.RuleOf(p), st, image);
    }
  }

  /** What one mount attempt and the next crash make of a phase. */
  lemma RebootKeeps(tx: Tx, from: seq<bytes>, to: seq<bytes>)
    requires tx.Valid() && WellSized(tx.g, from) && RebootStep(tx.g, from, to) && tx.Recoverable(Booted(from))
    ensures tx.Recoverable(Booted(to)) && (tx.Committed(Booted(from)) ==> tx.Committed(Booted(to)))
  {
    var p: Phase;
    if tx.Committed(Booted(from)) {
      p := if tx.In(Ready, Booted(from)) then Ready else Applied;
    } else {
      p :| tx.In(p, Booted(from));
    }
    var c :| Cut(Booted(from), ReplayOf(tx.g, from).program, c) && CrashImage(c, to);
    ReplayPhases(tx, p, from, c);
    CrashKeepsPhase(tx, c, to);
  }

  /** What a run of mount attempts makes of a phase. */
  lemma {:induction false} RebootsKeep(tx: Tx, images: seq<seq<bytes>>, n: nat)
    requires tx.Valid() && Reboots(tx.g, images) && n < |images|
    requires tx.Recoverable(Booted(images[0]))
    ensures tx.Recoverable(Booted(images[n]))
    ensures tx.Committed(Booted(images[0])) ==> tx.Committed(Booted(images[n]))
  {
    if n > 0 {
      RebootsKeep(tx, images, n - 1);
      assert Rebooted(tx.g, images, n);
      RebootKeeps(tx, images[n - 1], images[n]);
    }
  }

  /** The writer is cut in state `c`, power is lost, and the volume is mounted
      again and again; `images` are the disks those mounts find. */
  ghost predicate CrashRun(tx: Tx, c: State, images: seq<seq<bytes>>) {
    && Cut(tx.before, tx.Program(), c)
    && Reboots(tx.g, images)
    && |images| > 0
    && CrashImage(c, images[0])
  }

  lemma CrashRunPhases(tx: Tx, c: State, images: seq<seq<bytes>>, n: nat) returns (p: Phase)
    requires tx.Valid() && CrashRun(tx, c, images) && n < |images|
    ensures tx.In(p, Booted(images[n])) && (AfterCommit(tx, c) ==> p in {Ready, Applied})
  {
    WriterPhases(tx, c);
    CrashKeepsPhase(tx, c, images[0]);
    RebootsKeep(tx, images, n);
    if tx.Committed(Booted(images[n])) {
      p := if tx.In(Ready, Booted(images[n])) then Ready else Applied;
    } else {
      p :| tx.In(p, Booted(images[n]));
    }
  }

  /** Every target new, or every target as it was. */
  ghost predicate AllOrNothing(tx: Tx, d: seq<bytes>)
    requires tx.Valid() && |d| == tx.g.total
  {
    || AllNew(tx, d)
    || (forall i | 0 <= i < |tx.cs| :: MayHold(tx.before, tx.cs[i].sector, d[tx.cs[i].sector]))
  }

  ghost predicate AllNew(tx: Tx, d: seq<bytes>)
    requires tx.Valid() && |d| == tx.g.total
  {
    forall i | 0 <= i < |tx.cs| :: d[tx.cs[i].sector] == tx.cs[i].data
  }

  /** No sector outside the journal and the targets has changed. */
  ghost predicate OthersKept(tx: Tx, d: seq<bytes>)
    requires |d| == tx.g.total
  {
    forall s | 0 <= s < tx.g.total && !tx.g.InJournal(s) && !tx.IsTarget(s) :: MayHold(tx.before, s, d[s])
  }

  lemma NewTargetUnique(tx: Tx, i: nat, v: bytes)
    requires tx.Valid() && i < |tx.cs| && tx.NewTarget(tx.cs[i].sector, v)
    ensures v == tx.cs[i].data
  {
  }

  lemma SettledOutcome(tx: Tx, q: Phase, d: seq<bytes>)
    requires tx.Valid() && |d| == tx.g.total && tx.In(q, Booted(d)) && q in {Announced, Applied}
    ensures AllOrNothing(tx, d) && OthersKept(tx, d)
    ensures q.Applied? ==> AllNew(tx, d)
  {
    forall s | 0 <= s < tx.g.total ensures tx.Allows(q, s, d[s]) {
      assert MayHold(Booted(d), s, d[s]);
    }
    forall i | 0 <= i < |tx.cs|
      ensures if q.Applied? then d[tx.cs[i].sector] == tx.cs[i].data
              else MayHold(tx.before, tx.cs[i].sector, d[tx.cs[i].sector])
    {
      NewTargetOf(tx, i);
      assert tx.TargetAllowed(q, tx.cs[i].sector, d[tx.cs[i].sector]);
      if q.Applied? {
        NewTargetUnique(tx, i, d[tx.cs[i].sector]);
      }
    }
  }

  /** ATOMICITY. However the writer was cut, whatever unflushed writes survived,
      and however many mounts failed or crashed before, a mount that gets through
      finds every target new or every target as it was; no other sector outside
      the journal has changed and the journal is empty. */
  lemma TransactionAtomic(tx: Tx, c: State, images: seq<seq<bytes>>, n: nat)
    requires tx.Valid() && CrashRun(tx, c, images) && n < |images| && ReplayOf(tx.g, images[n]).code == 0
    ensures (var d := Recovered(tx.g, images[n]);
             AllOrNothing(tx, d) && OthersKept(tx, d) && tx.g.decode(d[tx.g.start]) == Empty)
  {
    var p := CrashRunPhases(tx, c, images, n);
    ReplaySettles(tx, p, images[n]);
    var d := Recovered(tx.g, images[n]);
    SettledOutcome(tx, if tx.In(Announced, Booted(d)) then Announced else Applied, d);
  }

  /** DURABILITY. Once the payloads are flushed, no crash stops the transaction:
      every later mount gets through and finds every target new. */
  lemma TransactionDurable(tx: Tx, c: State, images: seq<seq<bytes>>, n: nat)
    requires tx.Valid() && CrashRun(tx, c, images) && n < |images| && AfterCommit(tx, c)
    ensures ReplayOf(tx.g, images[n]).code == 0 && AllNew(tx, Recovered(tx.g, images[n]))
  {
    var p := CrashRunPhases(tx, c, images, n);
    CommittedPayloads(tx, p, images[n]);
    MountResult(tx, p, images[n]);
    ReplaySettles(tx, p, images[n]);
    SettledOutcome(tx, Applied, Recovered(tx.g, images[n]));
  }

  lemma MountResult(tx: Tx, p: Phase, image: seq<bytes>)
    requires tx.Valid() && tx.In(p, Booted(image)) && WellSized(tx.g, image)
    ensures ReplayOf(tx.g, image).code == if image[tx.g.start] == tx.header && !tx.PayloadsOn(image) then -6 else 0
  {
    assert MayHold(Booted(image), tx.g.start, image[tx.g.start]);
    assert tx.Allows(p, tx.g.start, image[tx.g.start]);
    if image[tx.g.start] == tx.header {
      var m := ReplayReadsHeader(tx, p, image);
    }
  }

  /** The disk on which replay gives up: the header survived, some payload did not. */
  ghost predicate Torn(tx: Tx, image: seq<bytes>)
    requires |image| == tx.g.total && tx.g.start < tx.g.total
  {
    image[tx.g.start] == tx.header && !tx.PayloadsOn(image)
  }

  /** AVAILABILITY. A mount is refused exactly when the header survived and some
      payload it announces did not; it then reports -6. */
  lemma MountRefusedExactlyWhen(tx: Tx, c: State, images: seq<seq<bytes>>, n: nat)
    requires tx.Valid() && CrashRun(tx, c, images) && n < |images|
    ensures ReplayOf(tx.g, images[n]).code == if Torn(tx, images[n]) then -6 else 0
  {
    var p := CrashRunPhases(tx, c, images, n);
    MountResult(tx, p, images[n]);
  }

  /** A replay that gives up writes targets only. */
  lemma TornStep(tx: Tx, p: Phase, from: seq<bytes>, to: seq<bytes>)
    requires tx.Valid() && tx.In(p, Booted(from)) && WellSized(tx.g, from) && Torn(tx, from) && RebootStep(tx.g, from, to)
    ensures |to| == tx.g.total && Torn(tx, to)
  {
    var c :| Cut(Booted(from), ReplayOf(tx.g, from).program, c) && CrashImage(c, to);
    var m := ReplayReadsHeader(tx, p, from);
    forall s | 0 <= s < tx.g.total && tx.g.InJournal(s) ensures to[s] == from[s] {
      assert MayHold(c, s, to[s]);
      OnlyTargets(tx, m, from, c, s, to[s]);
    }
    var s: nat :| tx.IsSlot(s) && s < |from| && from[s] != tx.Payload(s);
    assert to[s] == from[s];
  }

  lemma OnlyTargets(tx: Tx, m: nat, d: seq<bytes>, c: State, s: nat, v: bytes)
    requires tx.Valid() && m <= |tx.cs| && PartWritten(Booted(d), Targets(tx.cs)[..m], c) && tx.g.InJournal(s) && MayHold(c, s, v)
    ensures v == d[s]
  {
    forall w | w in c.pending ensures w.0 != s {
      var i :| 0 <= i < |c.pending| && c.pending[i] == w;
      assert Targets(tx.cs)[i] == w;
    }
    assert (s, v) !in c.pending;
  }

  lemma TornNext(tx: Tx, c: State, images: seq<seq<bytes>>, n: nat, from: seq<bytes>, to: seq<bytes>)
    requires tx.Valid() && CrashRun(tx, c, images) && n + 1 < |images| && from == images[n] && to == images[n + 1]
    requires |from| == tx.g.total && Torn(tx, from)
    ensures |to| == tx.g.total && Torn(tx, to)
  {
    var p := CrashRunPhases(tx, c, images, n);
    assert Rebooted(tx.g, images, n + 1);
    TornStep(tx, p, from, to);
  }

  lemma {:induction false} TornPersists(tx: Tx, c: State, images: seq<seq<bytes>>, n: nat, m: nat)
    requires tx.Valid() && CrashRun(tx, c, images) && n <= m < |images| && Torn(tx, images[n])
    ensures Torn(tx, images[m])
    decreases m
  {
    if n < m {
      TornPersists(tx, c, images, n, m - 1);
      TornNext(tx, c, images, m - 1, images[m - 1], images[m]);
    }
  }

  /** Once refused, refused for good: every later mount of the run is refused too. */
  lemma RefusalPersists(tx: Tx, c: State, images: seq<seq<bytes>>, n: nat, m: nat)
    requires tx.Valid() && CrashRun(tx, c, images) && n <= m < |images|
    requires ReplayOf(tx.g, images[n]).code != 0
    ensures ReplayOf(tx.g, images[m]).code == -6
  {
    MountRefusedExactlyWhen(tx, c, images, n);
    TornPersists(tx, c, images, n, m);
    MountRefusedExactlyWhen(tx, c, images, m);
  }

  /** A payload sector of the journal may hold something else than its payload. */
  ghost predicate StalePayload(tx: Tx) {
    exists s: nat, v :: tx.IsSlot(s) && MayHold(tx.before, s, v) && v != tx.Payload(s)
  }

  /** A crash that keeps the unflushed header and a stale payload sector. */
  lemma TornCrash(tx: Tx) returns (c: State, image: seq<bytes>)
    requires tx.Valid() && StalePayload(tx)
    ensures CrashRun(tx, c, [image]) && ReplayOf(tx.g, image).code == -6
  {
    var s: nat, v :| tx.IsSlot(s) && MayHold(tx.before, s, v) && v != tx.Payload(s);
    ShapedMayHold(tx.g, tx.before, s, v);
    var ws := [(tx.g.start, tx.header)];
    assert ws[..1] == ws;
    c := Written(tx.before, ws);
    assert PartWritten(tx.before, ws, c) by {
      assert c == Written(tx.before, ws[..1]);
    }
    image := tx.before.durable[tx.g.start := tx.header][s := v];
    assert (tx.g.start, tx.header) in ws && (tx.g.start, tx.header) in c.pending;
    forall t | 0 <= t < |image| ensures MayHold(c, t, image[t]) {
    }
    assert Reboots(tx.g, [image]);
    assert CrashRun(tx, c, [image]);
    MountRefusedExactlyWhen(tx, c, [image], 0);
    assert Torn(tx, image);
  }

  lemma PayloadsAlwaysOn(tx: Tx, p: Phase, image: seq<bytes>)
    requires tx.Valid() && tx.In(p, Booted(image)) && !StalePayload(tx)
    ensures tx.PayloadsOn(image)
  {
    forall s: nat | tx.IsSlot(s) && s < |image| ensures image[s] == tx.Payload(s) {
      assert MayHold(Booted(image), s, image[s]) && tx.Allows(p, s, image[s]);
    }
  }

  /** EXACT CONDITION. Every mount after every crash of the writer gets through
      exactly when the payload sectors of the journal hold their payloads already. */
  lemma RefusalPossibleExactlyWhen(tx: Tx)
    requires tx.Valid()
    ensures (forall c, images, n | CrashRun(tx, c, images) && 0 <= n < |images| :: ReplayOf(tx.g, images[n]).code == 0) <==> !StalePayload(tx)
  {
    if StalePayload(tx) {
      var c, image := TornCrash(tx);
      var images := [image];
      assert CrashRun(tx, c, images) && images[0] == image;
    } else {
      forall c, images, n | CrashRun(tx, c, images) && 0 <= n < |images| ensures ReplayOf(tx.g, images[n]).code == 0 {
        NeverRefused(tx, c, images, n);
      }
    }
  }

  lemma NeverRefused(tx: Tx, c: State, images: seq<seq<bytes>>, n: nat)
    requires tx.Valid() && !StalePayload(tx) && CrashRun(tx, c, images) && n < |images|
    ensures ReplayOf(tx.g, images[n]).code == 0
  {
    MountRefusedExactlyWhen(tx, c, images, n);
    var p := CrashRunPhases(tx, c, images, n);
    PayloadsAlwaysOn(tx, p, images[n]);
  }

  /** A transaction that ran to its end is past its commit point. */
  lemma CompletedIsCommitted(tx: Tx)
    requires tx.Valid()
    ensures Cut(tx.before, tx.Program(), Final(tx.before, tx.Program()))
    ensures AfterCommit(tx, Final(tx.before, tx.Program()))
  {
    FinalIsCut(tx.before, tx.Program());
    FinalIsCut(PayloadsDown(tx), RedoProgram(tx.g, Targets(tx.cs)));
  }
}
