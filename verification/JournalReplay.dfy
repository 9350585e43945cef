/** What a replay at mount does to any disk whatever, read off the bytes of its
    header sector: which result it gives, which sectors it may change and what
    they hold afterwards. */
module JournalReplay {
  import opened Common
  import opened Bytes
  import opened Disk
  import opened JournalFormat
  import opened Journal
  import opened JournalDriver
  import opened JournalRecovery
  import H = SectorHash

  // ------------------------------------------------------ the header's bytes

  predicate HasSingle(h: bytes) {
    |h| >= 512 && Load64(h, 0) == 0x524A4E4C56310001
  }

  predicate HasMulti(h: bytes) {
    |h| >= 512 && Load64(h, 0) == 0x5254584A4E4C5631
  }

  /** The number of sectors a transaction header announces. */
  function Announced(h: bytes): nat
    requires |h| >= 512
  {
    Load(h[16..20])
  }

  /** The count is one a replay goes along with. */
  predicate GoodCount(v: Layout, h: bytes)
    requires |h| >= 512
  {
    var n := Announced(h);
    0 < n <= 16 && n + 1 <= v.count && 24 + n * 16 <= v.sectorSize
  }

  /** Target and checksum of the `i`-th sector of a transaction. */
  function Target(h: bytes, i: nat): nat
    requires 32 + 16 * i <= |h|
  {
    Load64(h, 24 + 16 * i)
  }

  function SumOf(h: bytes, i: nat): nat
    requires 40 + 16 * i <= |h|
  {
    Load64(h, 32 + 16 * i)
  }

  /** On the volume and outside the journal. */
  predicate MayGo(v: Layout, s: nat) {
    s < v.total && (s < v.start || s >= v.start + v.count)
  }

  /** Journal sector `i` of the payload matches the sum the header holds for it. */
  predicate Matches(v: Layout, image: seq<bytes>, i: nat)
    requires v.Valid() && WellSized(v.G(), image) && GoodCount(v, image[v.start]) && i < Announced(image[v.start])
  {
    v.sum(image[v.start + 1 + i]) == SumOf(image[v.start], i)
  }

  /** The first `m` payloads match. */
  ghost predicate MatchUpTo(v: Layout, image: seq<bytes>, m: nat)
    requires v.Valid() && WellSized(v.G(), image) && GoodCount(v, image[v.start]) && m <= Announced(image[v.start])
  {
    forall i | 0 <= i < m :: Matches(v, image, i)
  }

  // --------------------------------------------------------- what it returns

  ghost predicate SinglePasses(v: Layout, image: seq<bytes>)
    requires v.Valid() && WellSized(v.G(), image)
  {
    var h := image[v.start];
    Load64(h, 16) != 0 && MayGo(v, Load64(h, 8)) && v.sum(image[v.start + 1]) == Load64(h, 32)
  }

  ghost predicate TargetsGood(v: Layout, h: bytes)
    requires |h| == v.sectorSize >= 512 && GoodCount(v, h)
  {
    forall i | 0 <= i < Announced(h) :: MayGo(v, Target(h, i))
  }

  /** The result of a replay without failing requests on a single-sector header. */
  lemma SingleResult(v: Layout, image: seq<bytes>)
    requires v.Valid() && WellSized(v.G(), image) && HasSingle(image[v.start])
    ensures v.G().Valid()
    ensures var h := image[v.start];
            var code := ReplayOf(v.G(), image).code;
            && (code == -7 <==> Load64(h, 16) == 0 || !MayGo(v, Load64(h, 8)))
            && (code == 0 <==> SinglePasses(v, image))
            && (code != 0 && code != -7 ==> code == -8)
  {
    GeometryValid(v);
  }

  /** What a transaction header reads as. */
  lemma MultiDecoded(v: Layout, image: seq<bytes>)
    requires v.Valid() && WellSized(v.G(), image) && HasMulti(image[v.start])
    ensures v.G().Valid()
    ensures !GoodCount(v, image[v.start]) ==> ReplayOf(v.G(), image) == Replay(Done, -4)
    ensures GoodCount(v, image[v.start]) ==>
              var h := image[v.start];
              && v.G().decode(h).Multi? && ReadAs(v, h, v.G().decode(h).entries)
              && ReplayOf(v.G(), image) == ReplayMulti(v.G(), image, v.G().decode(h).entries)
  {
    GeometryValid(v);
  }

  /** The entries a transaction header reads as. */
  ghost predicate ReadAs(v: Layout, h: bytes, es: seq<Entry>)
    requires |h| == v.sectorSize >= 512 && GoodCount(v, h)
  {
    |es| == Announced(h) && forall i | 0 <= i < |es| :: es[i] == Entry(Target(h, i), SumOf(h, i))
  }

  lemma TargetsRead(v: Layout, h: bytes, es: seq<Entry>)
    requires |h| == v.sectorSize >= 512 && GoodCount(v, h) && ReadAs(v, h, es)
    ensures (exists i | 0 <= i < |es| :: v.G().BadTarget(es[i].sector)) <==> !TargetsGood(v, h)
  {
    if !TargetsGood(v, h) {
      var i :| 0 <= i < Announced(h) && !MayGo(v, Target(h, i));
      assert v.G().BadTarget(es[i].sector);
    }
  }

  lemma PayloadMatches(v: Layout, image: seq<bytes>, es: seq<Entry>, i: nat)
    requires v.Valid() && WellSized(v.G(), image) && GoodCount(v, image[v.start]) && ReadAs(v, image[v.start], es) && i < |es|
    ensures Matches(v, image, i) <==> v.G().sum(image[v.G().start + 1 + i]) == es[i].sum
  {
  }

  lemma {:induction false} PayloadsRead(v: Layout, image: seq<bytes>, es: seq<Entry>)
    requires v.Valid() && WellSized(v.G(), image) && GoodCount(v, image[v.start]) && ReadAs(v, image[v.start], es)
    ensures var m := Matching(v.G(), image, es);
            MatchUpTo(v, image, m) && (m < |es| ==> !Matches(v, image, m))
  {
    var m := Matching(v.G(), image, es);
    forall i: nat | i < m ensures Matches(v, image, i) {
      PayloadMatches(v, image, es, i);
    }
    if m < |es| {
      PayloadMatches(v, image, es, m);
    }
  }

  /** The result on a transaction header. */
  lemma MultiResult(v: Layout, image: seq<bytes>)
    requires v.Valid() && WellSized(v.G(), image) && HasMulti(image[v.start])
    ensures v.G().Valid()
    ensures var h := image[v.start];
            var code := ReplayOf(v.G(), image).code;
            && (code == -4 <==> !GoodCount(v, h))
            && (code == -5 <==> GoodCount(v, h) && !TargetsGood(v, h))
            && (code == 0 <==> GoodCount(v, h) && TargetsGood(v, h) && MatchUpTo(v, image, Announced(h)))
            && (code == 0 || -6 <= code <= -4)
  {
    MultiDecoded(v, image);
    if GoodCount(v, image[v.start]) {
      var es := v.G().decode(image[v.start]).entries;
      TargetsRead(v, image[v.start], es);
      PayloadsRead(v, image, es);
    }
  }

  // -------------------------------------------------------- what it may change

  /** The header announces value `d` for sector `s`: a journal sector holds `d`, and
      its checksum is the one the header keeps for that target. */
  ghost predicate Vouched(v: Layout, image: seq<bytes>, s: nat, d: bytes)
    requires v.Valid() && WellSized(v.G(), image)
  {
    var h := image[v.start];
    && MayGo(v, s)
    && (|| (HasSingle(h) && s == Load64(h, 8) && d == image[v.start + 1] && v.sum(d) == Load64(h, 32))
        || (HasMulti(h) && GoodCount(v, h) && exists i: nat | i < Announced(h) :: VouchedBy(v, image, s, d, i)))
  }

  ghost predicate VouchedBy(v: Layout, image: seq<bytes>, s: nat, d: bytes, i: nat)
    requires v.Valid() && WellSized(v.G(), image) && GoodCount(v, image[v.start]) && i < Announced(image[v.start])
  {
    var h := image[v.start];
    s == Target(h, i) && d == image[v.start + 1 + i] && v.sum(d) == SumOf(h, i)
  }

  /** What a replay of `image` from state `st` may leave in each sector: what was
      there, an erased header, or what the header vouches for. */
  ghost function ReplayRule(v: Layout, image: seq<bytes>, st: State): Rule
    requires v.Valid() && WellSized(v.G(), image)
  {
    (s: nat, d: bytes) => MayHold(st, s, d) || (s == v.start && d == Zeros(v.sectorSize)) || Vouched(v, image, s, d)
  }

  /** The requests of a replay are vouched for. */
  lemma ReplaySends(v: Layout, image: seq<bytes>, st: State)
    requires v.Valid() && WellSized(v.G(), image)
    ensures v.G().Valid()
    ensures var p := ReplayOf(v.G(), image).program;
            var rule := ReplayRule(v, image, st);
            || p == Done
            || (p.Unflushed? && WritesAllowed(v.G(), rule, p.ws))
            || (p.Batch? && p == RedoProgram(v.G(), p.ws) && WritesAllowed(v.G(), rule, p.ws))
  {
    GeometryValid(v);
    if HasMulti(image[v.start]) {
      MultiDecoded(v, image);
      if GoodCount(v, image[v.start]) {
        TargetsRead(v, image[v.start], v.G().decode(image[v.start]).entries);
      }
      if GoodCount(v, image[v.start]) && TargetsGood(v, image[v.start]) {
        MultiSends(v, image, v.G().decode(image[v.start]).entries, st);
      }
    } else if HasSingle(image[v.start]) {
      SingleResult(v, image);
    }
  }

  /** One payload that matches, at a target that may be written. */
  lemma PayloadAllowed(v: Layout, image: seq<bytes>, st: State, i: nat)
    requires v.Valid() && WellSized(v.G(), image) && HasMulti(image[v.start]) && GoodCount(v, image[v.start])
    requires i < Announced(image[v.start]) && Matches(v, image, i) && MayGo(v, Target(image[v.start], i))
    ensures WriteAllowed(v.G(), ReplayRule(v, image, st), (Target(image[v.start], i), image[v.start + 1 + i]))
  {
    assert VouchedBy(v, image, Target(image[v.start], i), image[v.start + 1 + i], i);
  }

  lemma {:induction false} MultiSends(v: Layout, image: seq<bytes>, es: seq<Entry>, st: State)
    requires v.Valid() && WellSized(v.G(), image) && HasMulti(image[v.start])
    requires GoodCount(v, image[v.start]) && ReadAs(v, image[v.start], es) && TargetsGood(v, image[v.start])
    ensures WritesAllowed(v.G(), ReplayRule(v, image, st), Redo(v.G(), image, es[..Matching(v.G(), image, es)]))
  {
    var m := Matching(v.G(), image, es);
    PayloadsRead(v, image, es);
    RedoAllowed(v, image, es, st, m);
  }

  lemma {:induction false} RedoAllowed(v: Layout, image: seq<bytes>, es: seq<Entry>, st: State, m: nat)
    requires v.Valid() && WellSized(v.G(), image) && HasMulti(image[v.start])
    requires GoodCount(v, image[v.start]) && ReadAs(v, image[v.start], es) && TargetsGood(v, image[v.start])
    requires m <= |es| && MatchUpTo(v, image, m)
    ensures WritesAllowed(v.G(), ReplayRule(v, image, st), Redo(v.G(), image, es[..m]))
  {
    var ws := Redo(v.G(), image, es[..m]);
    forall w | w in ws ensures WriteAllowed(v.G(), ReplayRule(v, image, st), w) {
      var i: nat :| i < m && w == ws[i];
      assert Matches(v, image, i) && es[..m][i] == es[i];
      PayloadAllowed(v, image, st, i);
    }
  }

  /** Wherever a replay stops, every sector holds what it held, or is the erased
      header, or holds a journal sector whose checksum the header keeps for it. */
  lemma ReplayChangesOnlyVouched(v: Layout, st: State, c: State, s: nat, d: bytes)
    requires v.Valid() && Shaped(v.G(), st) && WellSized(v.G(), Contents(st)) && v.G().Valid()
    requires Cut(st, ReplayOf(v.G(), Contents(st)).program, c) && MayHold(c, s, d)
    ensures MayHold(st, s, d) || (s == v.start && d == Zeros(v.sectorSize)) || Vouched(v, Contents(st), s, d)
  {
    var image := Contents(st);
    var p, rule := ReplayOf(v.G(), image).program, ReplayRule(v, image, st);
    ReplaySends(v, image, st);
    if p.Unflushed? {
      WritesKeep(v.G(), rule, st, p.ws, c);
    } else if p.Batch? {
      RedoWithin(v.G(), rule, p.ws, st);
    }
    assert rule(s, d);
  }

  // ------------------------------------------------------ what it leaves behind

  /** No request of a replay of `image` fails and it succeeds. */
  ghost predicate Passes(v: Layout, image: seq<bytes>)
    requires v.Valid() && WellSized(v.G(), image)
  {
    var h := image[v.start];
    && (HasSingle(h) ==> SinglePasses(v, image))
    && (HasMulti(h) ==> GoodCount(v, h) && TargetsGood(v, h) && MatchUpTo(v, image, Announced(h)))
  }

  /** The first `m` sectors of the transaction are in place, a later one over an
      earlier one; the others are as they were, and so is the header unless erased. */
  ghost predicate PlacedUpTo(v: Layout, image: seq<bytes>, now: seq<bytes>, m: nat, erased: bool)
    requires v.Valid() && WellSized(v.G(), image) && GoodCount(v, image[v.start]) && m <= Announced(image[v.start])
  {
    var h := image[v.start];
    && |now| == v.total
    && (forall i: nat | i < m && LastAt(h, i, m) && Target(h, i) < v.total :: now[Target(h, i)] == image[v.start + 1 + i])
    && (forall s: nat | s < v.total && s != v.start && !Aimed(h, s, m) :: now[s] == image[s])
    && now[v.start] == if erased then Zeros(v.sectorSize) else h
  }

  ghost predicate LastAt(h: bytes, i: nat, m: nat)
    requires i < m && 32 + 16 * m <= |h| + 16
  {
    forall j | i < j < m :: Target(h, j) != Target(h, i)
  }

  ghost predicate Aimed(h: bytes, s: nat, m: nat)
    requires 16 + 16 * m <= |h|
  {
    exists i | 0 <= i < m :: Target(h, i) == s
  }

  ghost predicate Redone(v: Layout, image: seq<bytes>, now: seq<bytes>)
    requires v.Valid() && WellSized(v.G(), image) && Passes(v, image)
  {
    var h := image[v.start];
    if HasSingle(h) then now == image[Load64(h, 8) := image[v.start + 1]][v.start := Zeros(v.sectorSize)]
    else if HasMulti(h) then PlacedUpTo(v, image, now, Announced(h), true)
    else now == image
  }

  lemma {:induction false} PlacedByRedo(v: Layout, image: seq<bytes>, es: seq<Entry>, m: nat)
    requires v.Valid() && v.G().Valid() && WellSized(v.G(), image) && GoodCount(v, image[v.start])
    requires ReadAs(v, image[v.start], es) && TargetsGood(v, image[v.start]) && m <= |es|
    ensures PlacedUpTo(v, image, Land(image, Redo(v.G(), image, es[..m])), m, false)
  {
    var h, ws := image[v.start], Redo(v.G(), image, es[..m]);
    assert forall i | 0 <= i < m :: ws[i] == (Target(h, i), image[v.start + 1 + i]) && MayGo(v, Target(h, i));
    forall i: nat | i < m && LastAt(h, i, m) && Target(h, i) < v.total
      ensures Land(image, ws)[Target(h, i)] == image[v.start + 1 + i]
    {
      LandLast(image, ws, i);
    }
    forall s: nat | s < v.total && !Aimed(h, s, m) ensures Land(image, ws)[s] == image[s] {
      LandOther(image, ws, s);
    }
    assert !Aimed(h, v.start, m);
  }

  /** A replay that runs through succeeds exactly when the header passes, and then
      leaves the announced sectors in place and an erased header. */
  lemma ReplayLeaves(v: Layout, image: seq<bytes>)
    requires v.Valid() && WellSized(v.G(), image)
    ensures v.G().Valid()
    ensures ReplayOf(v.G(), image).code == 0 <==> Passes(v, image)
    ensures Passes(v, image) ==> Redone(v, image, Recovered(v.G(), image))
  {
    GeometryValid(v);
    if HasMulti(image[v.start]) {
      MultiResult(v, image);
      MultiLeaves(v, image);
    } else if HasSingle(image[v.start]) {
      SingleResult(v, image);
      SingleLeaves(v, image);
    }
  }

  lemma RedoReads(v: Layout, image: seq<bytes>, ws: seq<Write>)
    requires v.Valid() && |image| == v.total
    ensures Contents(Final(Booted(image), RedoProgram(v.G(), ws))) == Land(image, ws)[v.start := Zeros(v.sectorSize)]
  {
    RedoSteps(v.G(), ws, Booted(image));
    FlushQuiet(image, ws);
    FlushOne(Booted(Land(image, ws)), v.start, Zeros(v.sectorSize));
  }

  /** Erasing the header of a disk with the transaction in place. */
  lemma Erase(v: Layout, image: seq<bytes>, d: seq<bytes>, m: nat)
    requires v.Valid() && WellSized(v.G(), image) && GoodCount(v, image[v.start]) && TargetsGood(v, image[v.start])
    requires m <= Announced(image[v.start]) && PlacedUpTo(v, image, d, m, false)
    ensures PlacedUpTo(v, image, d[v.start := Zeros(v.sectorSize)], m, true)
  {
    assert forall i: nat | i < m :: MayGo(v, Target(image[v.start], i));
  }

  /** A transaction header that passes is redone as a whole. */
  lemma {:induction false} MultiProgram(v: Layout, image: seq<bytes>) returns (es: seq<Entry>)
    requires v.Valid() && WellSized(v.G(), image) && HasMulti(image[v.start]) && v.G().Valid() && Passes(v, image)
    ensures ReadAs(v, image[v.start], es)
    ensures ReplayOf(v.G(), image).program == RedoProgram(v.G(), Redo(v.G(), image, es))
  {
    var h := image[v.start];
    MultiDecoded(v, image);
    es := v.G().decode(h).entries;
    TargetsRead(v, h, es);
    PayloadsRead(v, image, es);
    assert es[..|es|] == es;
  }

  lemma MultiLeaves(v: Layout, image: seq<bytes>)
    requires v.Valid() && WellSized(v.G(), image) && HasMulti(image[v.start]) && v.G().Valid()
    ensures Passes(v, image) ==> Redone(v, image, Recovered(v.G(), image))
  {
    if Passes(v, image) {
      var es := MultiProgram(v, image);
      assert es[..|es|] == es;
      PlacedByRedo(v, image, es, |es|);
      RedoReads(v, image, Redo(v.G(), image, es));
      Erase(v, image, Land(image, Redo(v.G(), image, es)), |es|);
    }
  }

  /** A single-sector header that passes is redone. */
  lemma SingleProgram(v: Layout, image: seq<bytes>)
    requires v.Valid() && WellSized(v.G(), image) && HasSingle(image[v.start]) && v.G().Valid() && SinglePasses(v, image)
    ensures var s := Load64(image[v.start], 8);
            ReplayOf(v.G(), image).program == RedoProgram(v.G(), [(s, image[v.start + 1])])
  {
  }

  lemma SingleLeaves(v: Layout, image: seq<bytes>)
    requires v.Valid() && WellSized(v.G(), image) && HasSingle(image[v.start]) && v.G().Valid()
    ensures Passes(v, image) ==> Redone(v, image, Recovered(v.G(), image))
  {
    if Passes(v, image) {
      var s, payload := Load64(image[v.start], 8), image[v.start + 1];
      SingleProgram(v, image);
      LandOne(image, s, payload);
      RedoReads(v, image, [(s, payload)]);
    }
  }

  /** Replay at mount, on whatever the disk holds. A single-sector payload whose
      checksum is not the header's changes nothing and is never a success. */
  method ReplayAtMount(volume: Volume, v: Layout, havePage: bool) returns (code: int)
    requires volume.Valid() && v.Valid() && volume.g == v.G()
    modifies volume.disk
    ensures volume.Valid() && WellSized(v.G(), Contents(old(volume.disk.Snapshot())))
    ensures var was := Contents(old(volume.disk.Snapshot()));
            HasSingle(was[v.start]) && v.sum(was[v.start + 1]) != Load64(was[v.start], 32) ==>
              code != 0 && volume.disk.Snapshot() == old(volume.disk.Snapshot())
    ensures forall s: nat, d: bytes | MayHold(volume.disk.Snapshot(), s, d) ::
              || MayHold(old(volume.disk.Snapshot()), s, d)
              || (s == v.start && d == Zeros(v.sectorSize))
              || Vouched(v, Contents(old(volume.disk.Snapshot())), s, d)
    ensures code == 0 <==> havePage && volume.disk.faults == old(volume.disk.faults)
                           && Passes(v, Contents(old(volume.disk.Snapshot())))
    ensures code == 0 ==> Redone(v, Contents(old(volume.disk.Snapshot())), Contents(volume.disk.Snapshot()))
  {
    ghost var st := volume.disk.Snapshot();
    code := volume.ReplayJournal(havePage);
    if havePage {
      ReplayFollowed(v, st, volume.disk.Snapshot(), code, volume.disk.faults == old(volume.disk.faults));
    }
  }

  lemma ReplayFollowed(v: Layout, st: State, c: State, code: int, faultless: bool)
    requires v.Valid() && v.G().Valid() && Shaped(v.G(), st) && WellSized(v.G(), Contents(st))
    requires ReplayRan(v.G(), st, c, code, faultless)
    ensures HasSingle(Contents(st)[v.start]) && v.sum(Contents(st)[v.start + 1]) != Load64(Contents(st)[v.start], 32) ==>
              code != 0 && c == st
    ensures forall s: nat, d: bytes | MayHold(c, s, d) ::
              MayHold(st, s, d) || (s == v.start && d == Zeros(v.sectorSize)) || Vouched(v, Contents(st), s, d)
    ensures code == 0 <==> faultless && Passes(v, Contents(st))
    ensures code == 0 ==> Redone(v, Contents(st), Contents(c))
  {
    var image := Contents(st);
    ReplayLeaves(v, image);
    FinalReads(st, ReplayOf(v.G(), image).program);
    forall s: nat, d: bytes | MayHold(c, s, d)
      ensures MayHold(st, s, d) || (s == v.start && d == Zeros(v.sectorSize)) || Vouched(v, image, s, d)
    {
      ReplayChangesOnlyVouched(v, st, c, s, d);
    }
    if HasSingle(image[v.start]) {
      SingleRefuses(v, st, c);
    }
  }

  lemma SingleRefuses(v: Layout, st: State, c: State)
    requires v.Valid() && v.G().Valid() && WellSized(v.G(), Contents(st)) && HasSingle(Contents(st)[v.start])
    requires v.sum(Contents(st)[v.start + 1]) != Load64(Contents(st)[v.start], 32) ==>
               Cut(st, ReplayOf(v.G(), Contents(st)).program, c)
    ensures v.sum(Contents(st)[v.start + 1]) != Load64(Contents(st)[v.start], 32) ==> c == st
  {
  }

  // --------------------------------------------------------------- damaged bytes

  /** `b` is `a` with byte `i` damaged. */
  predicate DamagedAt(a: bytes, b: bytes, i: nat) {
    |a| == |b| && i < |a| && a[i] != b[i] && forall k | 0 <= k < |a| && k != i :: a[k] == b[k]
  }

  /** A single-sector payload with another sum than the header's. */
  lemma OtherSumRefused(v: Layout, image: seq<bytes>)
    requires v.Valid() && WellSized(v.G(), image) && HasSingle(image[v.start])
    requires v.sum(image[v.start + 1]) != Load64(image[v.start], 32)
    ensures v.G().Valid() && ReplayOf(v.G(), image).code != 0 && Recovered(v.G(), image) == image
  {
    SingleResult(v, image);
  }

  lemma SingleHeaderReads(size: nat, h: bytes, target: nat, sum: nat, gen: nat)
    requires size >= 512 && target < TWO64 && sum < TWO64 && gen < TWO64 && h == EncodeSingle(size, Entry(target, sum), gen)
    ensures HasSingle(h) && Load64(h, 32) == sum
  {
    SingleOnDisk(size, Entry(target, sum), gen);
    Load64Is(h, 0);
    Load64Is(h, 32);
  }

  /** With the checksum of RixFS: whatever sector was announced, a payload with one byte
      damaged is refused and the disk stays as it is. */
  lemma {:induction false} DamagedSingleRefused(v: Layout, image: seq<bytes>, target: nat, data: bytes, gen: nat, i: nat)
    requires v.Valid() && (forall b :: v.sum(b) == H.Hash(b)) && WellSized(v.G(), image) && target < TWO64 && gen < TWO64
    requires image[v.start] == EncodeSingle(v.sectorSize, Entry(target, H.Hash(data)), gen)
    requires DamagedAt(data, image[v.start + 1], i)
    ensures v.G().Valid() && ReplayOf(v.G(), image).code != 0 && Recovered(v.G(), image) == image
  {
    H.OneByteTells(data, image[v.start + 1], i);
    SingleHeaderReads(v.sectorSize, image[v.start], target, H.Hash(data), gen);
    OtherSumRefused(v, image);
  }

  lemma MultiHeaderReads(size: nat, h: bytes, es: seq<Entry>, gen: nat, j: nat)
    requires size >= 512 && gen < TWO64 && j < |es| <= TX_MAX && es[j].sector < TWO64 && es[j].sum < TWO64
    requires h == EncodeMulti(size, gen, es)
    ensures HasMulti(h) && Announced(h) == |es| && SumOf(h, j) == es[j].sum
  {
    MultiOnDisk(size, gen, es);
    EntryOnDisk(size, gen, es, j);
    Load64Is(h, 0);
    CountIs(h);
    Load64Is(h, 32 + 16 * j);
  }

  lemma {:induction false} OneMismatchRefused(v: Layout, image: seq<bytes>, j: nat)
    requires v.Valid() && WellSized(v.G(), image) && HasMulti(image[v.start]) && j < Announced(image[v.start])
    requires j < 16 && v.start + 1 + j < v.total && v.sum(image[v.start + 1 + j]) != SumOf(image[v.start], j)
    ensures v.G().Valid() && ReplayOf(v.G(), image).code != 0
  {
    MultiResult(v, image);
    assert GoodCount(v, image[v.start]) ==> !Matches(v, image, j);
  }

  /** The same for any payload of a transaction: the mount does not get through. */
  lemma {:induction false} DamagedMultiRefused(v: Layout, image: seq<bytes>, es: seq<Entry>, gen: nat, data: bytes, j: nat, i: nat)
    requires v.Valid() && (forall b :: v.sum(b) == H.Hash(b)) && WellSized(v.G(), image) && gen < TWO64
    requires j < |es| <= TX_MAX && es[j].sector < TWO64 && es[j].sum == H.Hash(data)
    requires image[v.start] == EncodeMulti(v.sectorSize, gen, es)
    requires v.start + 1 + j < v.total && DamagedAt(data, image[v.start + 1 + j], i)
    ensures v.G().Valid() && ReplayOf(v.G(), image).code != 0
  {
    var payload := image[v.start + 1 + j];
    H.OneByteTells(data, payload, i);
    assert v.sum(payload) == H.Hash(payload);
    MultiHeaderReads(v.sectorSize, image[v.start], es, gen, j);
    OneMismatchRefused(v, image, j);
  }
}
