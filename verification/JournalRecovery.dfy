/** The journal end to end, for the RixFS header format: what the writers did to
    the device, a crash, and the mounts that follow. */
module JournalRecovery {
  import opened Common
  import opened Bytes
  import opened Disk
  import opened JournalFormat
  import opened Journal
  import opened JournalDriver
  import Multi = JournalAtomicity
  import One = JournalSingle

  /** Where the journal of a RixFS volume may lie, and the checksum it uses. */
  datatype Layout = Layout(total: nat, start: nat, count: nat, sectorSize: nat, sum: bytes -> u64) {
    predicate Valid() {
      512 <= sectorSize <= 4096 && 2 <= count && start + count <= total < TWO64
    }

    function G(): Geometry {
      RixfsGeometry(total, start, count, sectorSize, sum)
    }
  }

  /** A RixFS journal is one of those the crash theorems are about. */
  lemma GeometryValid(v: Layout)
    requires v.Valid()
    ensures v.G().Valid()
  {
    BlankDecodes(v.sectorSize);
  }

  /** No write is announced: an erased header sector, whatever is still unflushed. */
  ghost predicate Quiet(v: Layout, st: State) {
    Shaped(v.G(), st) && forall h | MayHold(st, v.start, h) :: Decode(h) == Empty
  }

  /** The disks a series of mounts finds: the first one after a crash in state `c`,
      each next one after a replay that stopped at some request, and a crash. */
  ghost predicate Mounts(v: Layout, c: State, images: seq<seq<bytes>>)
    requires v.G().Valid()
  {
    && |images| > 0 && CrashImage(c, images[0])
    && (forall i | 0 <= i < |images| :: WellSized(v.G(), images[i]))
    && forall i | 0 < i < |images| :: MountedBefore(v, images, i)
  }

  /** Between disk `i - 1` and disk `i`: a replay, with whatever result, and a crash. */
  ghost predicate MountedBefore(v: Layout, images: seq<seq<bytes>>, i: nat)
    requires v.G().Valid()
  {
    0 < i < |images| && MountedOn(v, images[i - 1], images[i])
  }

  ghost predicate MountedOn(v: Layout, from: seq<bytes>, to: seq<bytes>)
    requires v.G().Valid()
  {
    WellSized(v.G(), from) && exists d: State, code: int, faultless: bool :: Attempt(v, from, to, d, code, faultless)
  }

  ghost predicate Attempt(v: Layout, from: seq<bytes>, to: seq<bytes>, d: State, code: int, faultless: bool)
    requires v.G().Valid() && WellSized(v.G(), from)
  {
    ReplayRan(v.G(), Booted(from), d, code, faultless) && CrashImage(d, to)
  }

  lemma MountsAreReboots(v: Layout, c: State, images: seq<seq<bytes>>)
    requires v.G().Valid() && Mounts(v, c, images)
    ensures Reboots(v.G(), images)
  {
    forall i | 0 < i < |images| ensures Rebooted(v.G(), images, i) {
      assert MountedBefore(v, images, i);
      var d: State, code: int, faultless: bool :| Attempt(v, images[i - 1], images[i], d, code, faultless);
      assert RebootStep(v.G(), images[i - 1], images[i]);
    }
  }

  // ---------------------------------------------------------- transactions

  /** What the callers of the transaction writer see to: different target sectors
      outside the journal, and payload sums that stale journal sectors do not have. */
  ghost predicate GoodChanges(v: Layout, cs: seq<Change>, st: State) {
    && 0 < |cs| <= TX_MAX && |cs| + 1 <= v.count
    && (forall i | 0 <= i < |cs| :: !v.G().BadTarget(cs[i].sector) && |cs[i].data| == v.sectorSize)
    && (forall i, j | 0 <= i < j < |cs| :: cs[i].sector != cs[j].sector)
    && (forall i, h | 0 <= i < |cs| && MayHold(st, v.start + 1 + i, h) && v.sum(h) == v.sum(cs[i].data) :: h == cs[i].data)
  }

  function TxOf(v: Layout, generation: nat, cs: seq<Change>, st: State): Multi.Tx
    requires |cs| <= TX_MAX
  {
    Multi.Tx(v.G(), EncodeMulti(v.sectorSize, generation, EntriesOf(v.G(), cs)), cs, st)
  }

  lemma SumsDiffer(v: Layout, header: bytes, cs: seq<Change>, st: State)
    requires GoodChanges(v, cs, st)
    ensures Multi.Tx(v.G(), header, cs, st).DistinctSums()
  {
    var tx := Multi.Tx(v.G(), header, cs, st);
    forall s: nat, h | tx.IsSlot(s) && MayHold(st, s, h) && v.sum(h) == v.sum(tx.Payload(s)) ensures h == tx.Payload(s) {
      var i := s - v.start - 1;
      assert MayHold(st, v.start + 1 + i, h) && cs[i].data == tx.Payload(s);
    }
  }

  lemma TxValidFor(v: Layout, header: bytes, cs: seq<Change>, st: State)
    requires v.G().Valid() && Quiet(v, st) && GoodChanges(v, cs, st) && Announces(v.G(), header, cs)
    ensures Multi.Tx(v.G(), header, cs, st).Valid()
  {
    SumsDiffer(v, header, cs, st);
  }

  lemma TxValid(v: Layout, generation: nat, cs: seq<Change>, st: State)
    requires v.Valid() && Quiet(v, st) && GoodChanges(v, cs, st)
    ensures TxOf(v, generation, cs, st).Valid()
  {
    GeometryValid(v);
    WriterAnnounces(v.total, v.start, v.count, v.sectorSize, v.sum, generation, cs);
    TxValidFor(v, EncodeMulti(v.sectorSize, generation, EntriesOf(v.G(), cs)), cs, st);
  }

  /** After any crash of the transaction writer on a quiet journal, every mount that
      gets through leaves all targets new or all as they were, nothing else outside
      the journal changed and the journal quiet; if the writer had reported success,
      every mount gets through and all targets are new. */
  lemma TransactionThenMount(v: Layout, generation: nat, cs: seq<Change>, st: State, c: State, complete: bool,
                             images: seq<seq<bytes>>, n: nat, d: State, code: int)
    requires v.Valid() && Quiet(v, st) && GoodChanges(v, cs, st)
    requires TransactionRan(v.G(), generation, cs, st, c, complete)
    requires v.G().Valid() && Mounts(v, c, images) && n < |images|
    requires ReplayRan(v.G(), Booted(images[n]), d, code, true)
    ensures TxOf(v, generation, cs, st).Valid()
    ensures (var tx := TxOf(v, generation, cs, st);
             && (code == 0 ==> Multi.AllOrNothing(tx, Contents(d)) && Multi.OthersKept(tx, Contents(d)) && Decode(Contents(d)[v.start]) == Empty)
             && (complete ==> code == 0 && Multi.AllNew(tx, Contents(d))))
  {
    TxValid(v, generation, cs, st);
    var tx := TxOf(v, generation, cs, st);
    MountsAreReboots(v, c, images);
    assert Multi.CrashRun(tx, c, images);
    assert Contents(d) == Recovered(v.G(), images[n]);
    if code == 0 {
      Multi.TransactionAtomic(tx, c, images, n);
    }
    if complete {
      Multi.CompletedIsCommitted(tx);
      Multi.TransactionDurable(tx, c, images, n);
    }
  }

  // ------------------------------------------------------- single sectors

  function SingleOf(v: Layout, generation: nat, target: nat, data: bytes, st: State): One.Single {
    One.Single(v.G(), EncodeSingle(v.sectorSize, Entry(target, v.sum(data)), generation), generation, target, data, st)
  }

  lemma SingleAccepted(v: Layout, generation: nat, target: nat, data: bytes, st: State)
    requires v.Valid() && Quiet(v, st) && |data| == v.sectorSize && generation < TWO64
    requires target < v.total && target != v.start && target != v.start + 1
    ensures SingleOf(v, generation, target, data, st).Accepted()
  {
    GeometryValid(v);
    SingleRoundTrip(v.sectorSize, Entry(target, v.sum(data)), generation);
  }

  /** After any crash of the single-sector writer on a quiet journal, every mount gets
      through, leaves the target old or new, the same at every mount, and everything
      else outside the journal as it was; if the writer had reported success, the
      target is new. The condition on the arguments is the exact one. */
  lemma SingleThenMount(v: Layout, generation: nat, target: nat, data: bytes, st: State, c: State, complete: bool,
                        images: seq<seq<bytes>>, n: nat, d: State, code: int)
    requires v.Valid() && Quiet(v, st) && |data| == v.sectorSize
    requires 0 < generation < TWO64 && !v.G().BadTarget(target)
    requires SingleRan(v.G(), generation, target, data, st, c, complete)
    requires v.G().Valid() && Mounts(v, c, images) && n < |images|
    requires ReplayRan(v.G(), Booted(images[n]), d, code, true)
    ensures SingleOf(v, generation, target, data, st).Accepted()
    ensures code == 0 && One.Settled(SingleOf(v, generation, target, data, st), Contents(d))
    ensures One.SameOutside(v.G(), Recovered(v.G(), images[0]), Contents(d))
    ensures complete ==> Contents(d)[target] == data
  {
    SingleAccepted(v, generation, target, data, st);
    var w := SingleOf(v, generation, target, data, st);
    MountsAreReboots(v, c, images);
    assert One.CrashRun(w, c, images);
    assert Contents(d) == Recovered(v.G(), images[n]);
    One.SingleWriteRecovers(w, c, images, n);
    if complete {
      One.CompletedIsCommitted(w);
    }
  }
}
