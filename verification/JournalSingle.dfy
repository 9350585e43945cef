/** Crash safety of the single-sector journal write, and the exact inputs for
    which it holds. */
module JournalSingle {
  import opened Bytes
  import opened Disk
  import opened Journal
  import opened JournalFormat

  /** How far the write has come, as the disk shows it.
      - Quiet: the header says nothing, the target is old.
      - Armed: the payload is on disk, the header may be, the target is old.
      - Writing: payload and header are on disk, the target may be old or new.
      - Rewritten: the target is new, the header may be gone. */
  datatype Stage = Quiet | Armed | Writing | Rewritten

  /** A journal write of `data` to sector `target` with sequence `sequence`. */
  datatype Single = Single(g: Geometry, header: bytes, sequence: nat, target: nat, data: bytes, before: State) {

    /** What the writer itself checks, and a quiet journal. */
    ghost predicate Accepted() {
      && g.Valid()
      && Shaped(g, before)
      && |header| == |data| == g.sectorSize
      && g.decode(header) == Header.Single(Entry(target, g.sum(data)), sequence)
      && target < g.total && target != g.start && target != g.start + 1
      && forall v | MayHold(before, g.start, v) :: g.decode(v) == Empty
    }

    /** What a replay checks on top of that. */
    predicate Replayable() {
      sequence != 0 && !g.BadTarget(target)
    }

    /** What the writer sends to the device. */
    function Program(): Program {
      SingleProgram(g, header, target, data)
    }

    function Redo(): Program {
      RedoProgram(g, [(target, data)])
    }

    ghost predicate Allows(p: Stage, s: nat, v: bytes) {
      if s == g.start then (!p.Writing? && g.decode(v) == Empty) || (!p.Quiet? && v == header)
      else if s == g.start + 1 then p.Quiet? || v == data
      else if s == target then (!p.Rewritten? && MayHold(before, s, v)) || (p in {Writing, Rewritten} && v == data)
      else g.InJournal(s) || MayHold(before, s, v)
    }

    ghost function RuleOf(p: Stage): Rule {
      (s: nat, v: bytes) => Allows(p, s, v)
    }

    ghost predicate In(p: Stage, st: State) {
      Within(g, RuleOf(p), st)
    }

    ghost predicate Recoverable(st: State) {
      exists p :: In(p, st)
    }

    /** From here on the outcome is decided: the target will be new. */
    ghost predicate Committed(st: State) {
      In(Writing, st) || In(Rewritten, st)
    }
  }

  /** Redoing the write, cut anywhere and run to its end. */
  lemma RedoStages(w: Single, p: Stage, d: seq<bytes>) returns (e: seq<bytes>)
    requires w.Accepted() && p in {Writing, Rewritten} && w.In(p, Booted(d))
    ensures forall c | Cut(Booted(d), w.Redo(), c) :: w.Committed(c)
    ensures Final(Booted(d), w.Redo()) == Booted(e)
    ensures w.In(Rewritten, Booted(e)) && w.g.decode(e[w.g.start]) == Empty
  {
    var ws, clear := [(w.target, w.data)], [(w.g.start, w.g.Blank())];
    RedoSteps(w.g, ws, Booted(d));
    var f := FlushOneKeeps(w.g, w.RuleOf(p), Booted(d), w.target, w.data);
    forall s: nat, v | MayHold(Booted(f), s, v) ensures w.Allows(Rewritten, s, v) {
      assert w.Allows(p, s, v);
    }
    e := FlushOneKeeps(w.g, w.RuleOf(Rewritten), Booted(f), w.g.start, w.g.Blank());
    forall c | Cut(Booted(d), w.Redo(), c) ensures w.Committed(c) {
      if PartWritten(Booted(d), ws, c) {
        WritesKeep(w.g, w.RuleOf(p), Booted(d), ws, c);
        assert w.In(p, c);
      } else if PartWritten(Booted(f), clear, c) {
        WritesKeep(w.g, w.RuleOf(Rewritten), Booted(f), clear, c);
        assert w.In(Rewritten, c);
      } else {
        assert c == Booted(e) && w.In(Rewritten, c);
      }
    }
  }

  /** The device once the payload has been flushed. */
  function PayloadDown(w: Single): State {
    Flushed(Written(w.before, [(w.g.start + 1, w.data)]))
  }

  /** The device once the header has been flushed as well. */
  function HeaderDown(w: Single): State {
    Flushed(Written(PayloadDown(w), [(w.g.start, w.header)]))
  }

  /** `c` is the device at a moment after the header has been flushed. */
  ghost predicate AfterCommit(w: Single, c: State) {
    Cut(HeaderDown(w), w.Redo(), c)
  }

  /** Once the header is flushed the outcome is decided. */
  lemma CommitStage(w: Single, c: State)
    requires w.Accepted() && AfterCommit(w, c)
    ensures w.Committed(c)
  {
    var d, e := HeaderStage(w);
    var _ := RedoStages(w, Writing, e);
  }

  lemma HeaderStage(w: Single) returns (d: seq<bytes>, e: seq<bytes>)
    requires w.Accepted()
    ensures PayloadDown(w) == Booted(d) && w.In(Armed, Booted(d))
    ensures HeaderDown(w) == Booted(e) && w.In(Writing, Booted(e)) && e[w.g.start] == w.header
  {
    d := FlushOneKeeps(w.g, w.RuleOf(Armed), w.before, w.g.start + 1, w.data);
    e := ArmedStage(w, d);
  }

  lemma ArmedStage(w: Single, d: seq<bytes>) returns (e: seq<bytes>)
    requires w.Accepted() && w.In(Armed, Booted(d))
    ensures Flushed(Written(Booted(d), [(w.g.start, w.header)])) == Booted(e) && w.In(Writing, Booted(e))
    ensures e[w.g.start] == w.header
  {
    e := FlushOneKeeps(w.g, w.RuleOf(Armed), Booted(d), w.g.start, w.header);
    forall s: nat, v | MayHold(Booted(e), s, v) ensures w.Allows(Writing, s, v) {
      assert w.Allows(Armed, s, v);
    }
  }

  lemma QuietCut(w: Single, c: State)
    requires w.Accepted() && PartWritten(w.before, [(w.g.start + 1, w.data)], c)
    ensures w.In(Quiet, c)
  {
    assert w.In(Quiet, w.before);
    WritesKeep(w.g, w.RuleOf(Quiet), w.before, [(w.g.start + 1, w.data)], c);
  }

  lemma ArmedCut(w: Single, c: State)
    requires w.Accepted() && PartWritten(PayloadDown(w), [(w.g.start, w.header)], c)
    ensures w.In(Armed, c)
  {
    var d, e := HeaderStage(w);
    WritesKeep(w.g, w.RuleOf(Armed), Booted(d), [(w.g.start, w.header)], c);
  }

  /** The three parts of the writer. */
  lemma WriterParts(w: Single, c: State)
    requires Cut(w.before, w.Program(), c)
    ensures || PartWritten(w.before, [(w.g.start + 1, w.data)], c)
            || PartWritten(PayloadDown(w), [(w.g.start, w.header)], c)
            || AfterCommit(w, c)
  {
    WriterSteps([(w.g.start + 1, w.data)], [(w.g.start, w.header)], w.Redo(), w.before, c);
  }

  /** Wherever the writer is cut, the disk is in a stage a replay can settle. */
  lemma WriterStages(w: Single, c: State)
    requires w.Accepted() && Cut(w.before, w.Program(), c)
    ensures w.Recoverable(c)
  {
    WriterParts(w, c);
    if PartWritten(w.before, [(w.g.start + 1, w.data)], c) {
      QuietCut(w, c);
    } else if PartWritten(PayloadDown(w), [(w.g.start, w.header)], c) {
      ArmedCut(w, c);
    } else {
      CommitStage(w, c);
    }
  }

  /** What a replay finds: an empty journal, or this write ready to be redone. */
  lemma ReplayReads(w: Single, p: Stage, image: seq<bytes>) returns (q: Stage)
    requires w.Accepted() && w.Replayable() && w.In(p, Booted(image))
    ensures WellSized(w.g, image)
    ensures || (ReplayOf(w.g, image) == Replay(Done, 0) && w.g.decode(image[w.g.start]) == Empty && q == p)
            || (ReplayOf(w.g, image) == Replay(w.Redo(), 0) && q in {Writing, Rewritten})
    ensures w.In(q, Booted(image))
  {
    var s := w.g.start;
    assert MayHold(Booted(image), s, image[s]) && w.Allows(p, s, image[s]);
    assert MayHold(Booted(image), s + 1, image[s + 1]) && w.Allows(p, s + 1, image[s + 1]);
    q := p;
    if image[s] == w.header {
      q := if p.Rewritten? then Rewritten else Writing;
      forall t: nat, v | MayHold(Booted(image), t, v) ensures w.Allows(q, t, v) {
        assert w.Allows(p, t, v);
      }
    }
  }

  /** Two disks agree outside the journal. */
  ghost predicate SameOutside(g: Geometry, d: seq<bytes>, e: seq<bytes>) {
    |d| == |e| == g.total && forall s | 0 <= s < g.total && !g.InJournal(s) :: d[s] == e[s]
  }

  /** Redoing the write changes the target and the header only. */
  lemma RedoMoves(w: Single, d: seq<bytes>)
    requires w.Accepted() && WellSized(w.g, d)
    ensures (var rule := Except(d, {w.target, w.g.start});
             && (forall c | Cut(Booted(d), w.Redo(), c) :: Within(w.g, rule, c))
             && Within(w.g, rule, Final(Booted(d), w.Redo())))
  {
    var rule := Except(d, {w.target, w.g.start});
    assert Within(w.g, rule, Booted(d));
    RedoWithin(w.g, rule, [(w.target, w.data)], Booted(d));
  }

  /** What a mount makes of a disk in stage `p`. */
  lemma MountOutcome(w: Single, p: Stage, image: seq<bytes>) returns (d: seq<bytes>)
    requires w.Accepted() && w.Replayable() && w.In(p, Booted(image))
    ensures WellSized(w.g, image) && ReplayOf(w.g, image).code == 0 && d == Recovered(w.g, image)
    ensures Settled(w, d) && (p in {Writing, Rewritten} ==> d[w.target] == w.data)
    ensures ReplayOf(w.g, image).program == Done ==> d == image
    ensures ReplayOf(w.g, image).program != Done ==> ReplayOf(w.g, image).program == w.Redo() && d[w.target] == w.data
    ensures forall s | 0 <= s < w.g.total && !w.g.InJournal(s) && s != w.target :: d[s] == image[s]
  {
    var q := ReplayReads(w, p, image);
    d := Recovered(w.g, image);
    if ReplayOf(w.g, image).program == Done {
      assert MayHold(Booted(image), w.g.start, image[w.g.start]) && w.Allows(p, w.g.start, image[w.g.start]);
      SettledFrom(w, p, image);
    } else {
      var e := RedoStages(w, q, image);
      SettledFrom(w, Rewritten, e);
      RedoMoves(w, image);
      forall s | 0 <= s < w.g.total && !w.g.InJournal(s) && s != w.target ensures d[s] == image[s] {
        assert MayHold(Booted(e), s, e[s]);
      }
    }
  }

  /** One mount attempt and the next crash: the disk stays recoverable, and what a
      mount will make of it outside the journal is the same as before. */
  lemma RebootSame(w: Single, p: Stage, from: seq<bytes>, to: seq<bytes>) returns (q: Stage)
    requires w.Accepted() && w.Replayable() && w.In(p, Booted(from)) && WellSized(w.g, from) && RebootStep(w.g, from, to)
    ensures w.In(q, Booted(to)) && WellSized(w.g, to) && SameOutside(w.g, Recovered(w.g, from), Recovered(w.g, to))
    ensures p in {Writing, Rewritten} ==> q in {Writing, Rewritten}
  {
    var c :| Cut(Booted(from), ReplayOf(w.g, from).program, c) && CrashImage(c, to);
    var d := MountOutcome(w, p, from);
    var r := ReplayReads(w, p, from);
    q := p;
    if ReplayOf(w.g, from).program == Done {
      forall s | 0 <= s < |to| ensures to[s] == from[s] {
        assert MayHold(c, s, to[s]);
      }
      assert to == from;
    } else {
      var _ := RedoStages(w, r, from);
      q := if w.In(Writing, c) then Writing else Rewritten;
      CrashKeeps(w.g, w.RuleOf(q), c, to);
      var e := MountOutcome(w, q, to);
      RedoMoves(w, from);
      forall s | 0 <= s < w.g.total && !w.g.InJournal(s) ensures d[s] == e[s] {
        assert MayHold(c, s, to[s]);
      }
    }
  }

  /** `first` and `image` come to the same. */
  ghost predicate Converges(w: Single, first: seq<bytes>, image: seq<bytes>) {
    && w.g.Valid() && WellSized(w.g, first) && WellSized(w.g, image)
    && SameOutside(w.g, Recovered(w.g, first), Recovered(w.g, image))
  }

  /** `image` is recoverable, comes to the same as `first`, and once the write is
      committed stays committed. */
  ghost predicate OnCourse(w: Single, committed: bool, first: seq<bytes>, image: seq<bytes>) {
    Converges(w, first, image) && w.Recoverable(Booted(image)) && (committed ==> w.Committed(Booted(image)))
  }

  lemma StaysOnCourse(w: Single, committed: bool, first: seq<bytes>, from: seq<bytes>, to: seq<bytes>)
    requires w.Accepted() && w.Replayable() && OnCourse(w, committed, first, from) && RebootStep(w.g, from, to)
    ensures OnCourse(w, committed, first, to)
  {
    var p := StageOf(w, Booted(from));
    var q := RebootSame(w, p, from, to);
  }

  lemma StageOf(w: Single, st: State) returns (p: Stage)
    requires w.Recoverable(st)
    ensures w.In(p, st) && (w.Committed(st) ==> p in {Writing, Rewritten})
  {
    if w.Committed(st) {
      p := if w.In(Writing, st) then Writing else Rewritten;
    } else {
      p :| w.In(p, st);
    }
  }

  /** CONVERGENCE. However often mounts are interrupted, each of them makes the same
      of the disk outside the journal. */
  lemma RebootsConverge(w: Single, committed: bool, images: seq<seq<bytes>>, n: nat)
    requires w.Accepted() && w.Replayable() && Reboots(w.g, images) && n < |images| && OnCourse(w, committed, images[0], images[0])
    ensures OnCourse(w, committed, images[0], images[n])
  {
    var first := images[0];
    var good := image => OnCourse(w, committed, first, image);
    forall from, to | good(from) && WellSized(w.g, from) && RebootStep(w.g, from, to) ensures good(to) {
      StaysOnCourse(w, committed, first, from, to);
    }
    RebootsKeep(w.g, images, good, n);
  }

  lemma CrashOnCourse(w: Single, st: State, image: seq<bytes>)
    requires w.Accepted() && w.Recoverable(st) && CrashImage(st, image)
    ensures OnCourse(w, w.Committed(st), image, image)
  {
    var p := StageOf(w, st);
    CrashKeeps(w.g, w.RuleOf(p), st, image);
    assert w.In(p, Booted(image));
  }

  ghost predicate CrashRun(w: Single, c: State, images: seq<seq<bytes>>) {
    && Cut(w.before, w.Program(), c)
    && Reboots(w.g, images)
    && |images| > 0
    && CrashImage(c, images[0])
  }

  /** The target is old or new, nothing else outside the journal has changed, and
      the journal is empty. */
  ghost predicate Settled(w: Single, d: seq<bytes>)
    requires w.Accepted() && |d| == w.g.total
  {
    && (d[w.target] == w.data || MayHold(w.before, w.target, d[w.target]))
    && (forall s | 0 <= s < w.g.total && !w.g.InJournal(s) && s != w.target :: MayHold(w.before, s, d[s]))
    && w.g.decode(d[w.g.start]) == Empty
  }

  lemma SettledFrom(w: Single, p: Stage, d: seq<bytes>)
    requires w.Accepted() && |d| == w.g.total && w.In(p, Booted(d)) && w.g.decode(d[w.g.start]) == Empty
    ensures Settled(w, d)
    ensures p.Rewritten? ==> d[w.target] == w.data
  {
    forall s | 0 <= s < w.g.total ensures w.Allows(p, s, d[s]) {
      assert MayHold(Booted(d), s, d[s]);
    }
  }

  /** Every mount after a crash gets through and settles the write, and all of them
      the same way: each finds outside the journal what the first one would have.
      From the header's flush on, the target is new. */
  lemma SingleWriteRecovers(w: Single, c: State, images: seq<seq<bytes>>, n: nat)
    requires w.Accepted() && w.Replayable() && CrashRun(w, c, images) && n < |images|
    ensures ReplayOf(w.g, images[n]).code == 0 && Settled(w, Recovered(w.g, images[n]))
    ensures SameOutside(w.g, Recovered(w.g, images[0]), Recovered(w.g, images[n]))
    ensures AfterCommit(w, c) ==> Recovered(w.g, images[n])[w.target] == w.data
  {
    WriterStages(w, c);
    if AfterCommit(w, c) {
      CommitStage(w, c);
    }
    CrashOnCourse(w, c, images[0]);
    RebootsConverge(w, w.Committed(c), images, n);
    var p := StageOf(w, Booted(images[n]));
    var d := MountOutcome(w, p, images[n]);
  }

  /** A write that ran to its end is past its commit point. */
  lemma CompletedIsCommitted(w: Single)
    ensures Cut(w.before, w.Program(), Final(w.before, w.Program())) && AfterCommit(w, Final(w.before, w.Program()))
  {
    FinalIsCut(w.before, w.Program());
    FinalIsCut(HeaderDown(w), w.Redo());
  }

  /** A crash just after the header's flush, on a write replay does not accept. */
  lemma RefusedMount(w: Single) returns (e: seq<bytes>)
    requires w.Accepted() && !w.Replayable()
    ensures CrashRun(w, Booted(e), [e]) && ReplayOf(w.g, e).code == -7
  {
    var d;
    d, e := HeaderStage(w);
    StartIsCut(Booted(e), w.Redo());
    WriterReaches([(w.g.start + 1, w.data)], [(w.g.start, w.header)], w.Redo(), w.before, Booted(e));
  }

  /** EXACT CONDITION. The write survives every crash exactly when replay accepts
      what the writer accepts: a sequence number other than zero and a target
      outside the whole journal, not only outside its first two sectors. */
  lemma SingleWriteRecoversExactlyWhen(w: Single)
    requires w.Accepted()
    ensures (forall c, images, n | CrashRun(w, c, images) && 0 <= n < |images| :: ReplayOf(w.g, images[n]).code == 0) <==> w.Replayable()
  {
    if w.Replayable() {
      forall c, images, n | CrashRun(w, c, images) && 0 <= n < |images| ensures ReplayOf(w.g, images[n]).code == 0 {
        SingleWriteRecovers(w, c, images, n);
      }
    } else {
      var e := RefusedMount(w);
      var images := [e];
      assert CrashRun(w, Booted(e), images) && images[0] == e;
    }
  }
}
