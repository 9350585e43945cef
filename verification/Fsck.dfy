/** The file-system checker: what a clean verdict means, and that repair restores
    one. Inodes and directory listings are decoded values; the bitmap is the
    sequence of its bits. */
module Fsck {
  import opened Common

  const UINT32_MAX: nat := 0xffff_ffff
  const DIRECT_EXTENTS: nat := 4
  const MAX_INODES: nat := 65536

  datatype Kind = Regular | Directory | Symlink | Other

  datatype Extent = Extent(start: nat, len: nat)

  /** `number` is zero in a free slot. */
  datatype Inode = Inode(number: nat, kind: Kind, size: nat, extents: seq<Extent>, links: nat)

  datatype Dirent = Dirent(inode: nat, kind: Kind)

  /** A mounted volume without its bitmap. Inode numbers start at one; a listing
      is None when the directory cannot be read. */
  datatype Volume = Volume(total: nat, dataStart: nat, sectorSize: nat, root: nat,
                           inodes: seq<Inode>, listings: seq<Option<seq<Dirent>>>)
  {
    /** What mounting has checked, plus 64-bit fields, and fewer inodes than the
        checker has bits for. */
    ghost predicate Mounted() {
      && 0 < |inodes| < MAX_INODES && |listings| == |inodes|
      && 512 <= sectorSize <= 4096 && dataStart < total < TWO64
      && (forall i :: 0 <= i < |inodes| ==>
            |inodes[i].extents| == DIRECT_EXTENTS && inodes[i].size < TWO64 && inodes[i].links <= UINT32_MAX)
    }

    predicate Is(i: nat) {
      1 <= i <= |inodes|
    }

    function At(i: nat): Inode
      requires Is(i)
    {
      inodes[i - 1]
    }

    predicate Live(i: nat) {
      Is(i) && At(i).number != 0
    }

    predicate IsDir(i: nat) {
      Live(i) && At(i).kind.Directory?
    }

    /** Reading directory `i`. */
    function Listing(i: nat): Option<seq<Dirent>>
      requires |listings| == |inodes|
    {
      if IsDir(i) && At(i).number == i then listings[i - 1] else None
    }
  }

  // -------------------------------------------------------------- sectors

  ghost predicate In(s: nat, e: Extent) {
    e.start <= s < e.start + e.len
  }

  ghost function Span(e: Extent): set<nat> {
    set s | e.start <= s < e.start + e.len && In(s, e)
  }

  lemma {:induction false} SpanSize(e: Extent)
    ensures |Span(e)| == e.len
    decreases e.len
  {
    if e.len == 0 {
      assert Span(e) == {};
    } else {
      var rest := Extent(e.start, e.len - 1);
      SpanSize(rest);
      assert Span(e) == Span(rest) + {e.start + e.len - 1};
    }
  }

  /** Sectors of the first `n` extents. */
  ghost function Sectors(es: seq<Extent>, n: nat): set<nat>
    requires n <= |es|
  {
    if n == 0 then {} else Sectors(es, n - 1) + Span(es[n - 1])
  }

  ghost function OwnedBy(v: Volume, i: nat): set<nat>
    requires v.Is(i)
  {
    if v.At(i).number == 0 then {} else Sectors(v.At(i).extents, |v.At(i).extents|)
  }

  /** Sectors owned by inodes 1 to `n`. */
  ghost function OwnedUpTo(v: Volume, n: nat): set<nat>
    requires n <= |v.inodes|
  {
    if n == 0 then {} else OwnedUpTo(v, n - 1) + OwnedBy(v, n)
  }

  ghost function Owned(v: Volume): set<nat> {
    OwnedUpTo(v, |v.inodes|)
  }

  ghost predicate Apart(a: Extent, b: Extent) {
    Span(a) * Span(b) == {}
  }

  /** Two extents share a sector. */
  function Overlap(a: Extent, b: Extent): (r: bool)
    ensures r <==> !Apart(a, b)
  {
    var r := a.len != 0 && b.len != 0
             && if a.start < b.start then b.start - a.start < a.len else a.start - b.start < b.len;
    assert r ==> (if a.start < b.start then b.start else a.start) in Span(a) * Span(b);
    assert !r ==> forall s :: s !in Span(a) * Span(b);
    r
  }

  lemma {:induction false} SectorsApart(es: seq<Extent>, n: nat, e: Extent)
    requires n <= |es|
    ensures Sectors(es, n) * Span(e) == {} <==> forall k :: 0 <= k < n ==> Apart(es[k], e)
  {
    if n > 0 {
      SectorsApart(es, n - 1, e);
      assert Sectors(es, n) * Span(e) == Sectors(es, n - 1) * Span(e) + Span(es[n - 1]) * Span(e);
    }
  }

  lemma {:induction false} ExtentsApart(es: seq<Extent>, n: nat, fs: seq<Extent>, m: nat)
    requires n <= |es| && m <= |fs|
    ensures Sectors(es, n) * Sectors(fs, m) == {} <==>
            forall k, l :: 0 <= k < n && 0 <= l < m ==> Apart(es[k], fs[l])
    decreases m
  {
    if m > 0 {
      ExtentsApart(es, n, fs, m - 1);
      SectorsApart(es, n, fs[m - 1]);
      assert Sectors(es, n) * Sectors(fs, m) == Sectors(es, n) * Sectors(fs, m - 1) + Sectors(es, n) * Span(fs[m - 1]);
    }
  }

  /** The extents of one inode share no sector. */
  ghost predicate Separate(es: seq<Extent>) {
    forall k, l :: 0 <= k < l < |es| ==> Apart(es[k], es[l])
  }

  ghost function Lengths(es: seq<Extent>, n: nat): nat
    requires n <= |es|
  {
    if n == 0 then 0 else Lengths(es, n - 1) + es[n - 1].len
  }

  lemma LastApart(es: seq<Extent>, n: nat)
    requires 0 < n <= |es| && Separate(es)
    ensures Sectors(es, n - 1) * Span(es[n - 1]) == {}
  {
    var last := es[n - 1];
    assert forall k :: 0 <= k < n - 1 ==> Apart(es[k], last);
    SectorsApart(es, n - 1, last);
  }

  lemma {:induction false} SectorCount(es: seq<Extent>, n: nat)
    requires n <= |es| && Separate(es)
    ensures |Sectors(es, n)| == Lengths(es, n)
  {
    if n > 0 {
      SectorCount(es, n - 1);
      var a, b := Sectors(es, n - 1), Span(es[n - 1]);
      assert Sectors(es, n) == a + b;
      assert a * b == {} by {
        LastApart(es, n);
      }
      assert |b| == es[n - 1].len by {
        SpanSize(es[n - 1]);
      }
      UnionSize(a, b);
    }
  }

  lemma UnionSize(a: set<nat>, b: set<nat>)
    requires a * b == {}
    ensures |a + b| == |a| + |b|
  {
  }

  // -------------------------------------------------------- what clean means

  function Expected(k: Kind): Kind {
    if k.Directory? || k.Symlink? then k else Regular
  }

  /** Sectors a file of this size needs, in 64-bit arithmetic. */
  function Needed(v: Volume, size: nat): nat
    requires v.sectorSize > 0
  {
    (size + (v.sectorSize - 1)) % TWO64 / v.sectorSize
  }

  ghost predicate InData(v: Volume, es: seq<Extent>) {
    forall k :: 0 <= k < |es| && es[k].len > 0 ==>
      v.dataStart <= es[k].start && es[k].start + es[k].len <= v.total
  }

  ghost predicate GoodEntry(v: Volume, d: Dirent) {
    v.Live(d.inode) && d.kind == Expected(v.At(d.inode).kind)
  }

  /** The inode by itself. */
  ghost predicate WellFormed(v: Volume, i: nat)
    requires v.Mounted() && v.Live(i)
  {
    var n := v.At(i);
    && n.number == i && !n.kind.Other? && Separate(n.extents) && InData(v, n.extents)
    && (n.kind.Regular? ==> Needed(v, n.size) <= Lengths(n.extents, DIRECT_EXTENTS))
    && (n.kind.Directory? ==>
          v.Listing(i).Some? && forall k :: 0 <= k < |v.Listing(i).value| ==> GoodEntry(v, v.Listing(i).value[k]))
  }

  /** No inode shares a sector with a lower one. */
  ghost predicate Unshared(v: Volume, i: nat)
    requires v.Is(i)
  {
    OwnedUpTo(v, i - 1) * OwnedBy(v, i) == {}
  }

  /** Directory `a` has an entry for `b`. */
  ghost predicate Names(v: Volume, a: nat, b: nat)
    requires |v.listings| == |v.inodes|
  {
    v.Listing(a).Some? && exists k :: 0 <= k < |v.Listing(a).value| && v.Listing(a).value[k].inode == b
  }

  /** `b` is reached from the root along `n` directory entries. */
  ghost predicate Reached(v: Volume, b: nat, n: nat)
    requires |v.listings| == |v.inodes|
    decreases n
  {
    if n == 0 then b == v.root else exists a: nat :: Reached(v, a, n - 1) && Names(v, a, b)
  }

  ghost predicate Reachable(v: Volume, b: nat)
    requires |v.listings| == |v.inodes|
  {
    exists n: nat :: Reached(v, b, n)
  }

  ghost function Count(ds: seq<Dirent>, target: nat, n: nat): nat
    requires n <= |ds|
  {
    if n == 0 then 0 else Count(ds, target, n - 1) + if ds[n - 1].inode == target then 1 else 0
  }

  /** Entries for `target` in directories 1 to `n`. */
  ghost function LinksUpTo(v: Volume, target: nat, n: nat): nat
    requires |v.listings| == |v.inodes| && n <= |v.inodes|
  {
    if n == 0 then 0
    else LinksUpTo(v, target, n - 1)
         + if v.Listing(n).Some? then Count(v.Listing(n).value, target, |v.Listing(n).value|) else 0
  }

  ghost function Links(v: Volume, target: nat): nat
    requires |v.listings| == |v.inodes|
  {
    LinksUpTo(v, target, |v.inodes|)
  }

  ghost predicate GoodLinks(v: Volume, i: nat)
    requires v.Mounted() && v.Live(i)
  {
    && 0 < Links(v, i) <= UINT32_MAX
    && (!v.At(i).kind.Directory? ==> v.At(i).links == Links(v, i))
  }

  /** Everything but the bitmap is in order. */
  ghost predicate Structured(v: Volume)
    requires v.Mounted()
  {
    && v.IsDir(v.root)
    && (forall i: nat :: v.Live(i) ==> WellFormed(v, i) && Unshared(v, i) && Reachable(v, i))
    && (forall i: nat :: v.Live(i) && i != v.root ==> GoodLinks(v, i))
  }

  /** The bitmap has a bit for every data sector, set exactly when an inode owns
      the sector. */
  ghost predicate BitmapExact(v: Volume, bits: seq<bool>) {
    && v.total <= |bits|
    && forall s :: v.dataStart <= s < v.total ==> (bits[s] <==> s in Owned(v))
  }

  ghost predicate Clean(v: Volume, bits: seq<bool>)
    requires v.Mounted()
  {
    Structured(v) && BitmapExact(v, bits)
  }

  /** The extents of one inode, as a set of sectors. */
  lemma {:induction false} InSectors(es: seq<Extent>, n: nat, s: nat)
    requires n <= |es|
    ensures s in Sectors(es, n) <==> exists k: nat :: k < n && es[k].start <= s < es[k].start + es[k].len
  {
    if n > 0 {
      InSectors(es, n - 1, s);
      assert s in Span(es[n - 1]) <==> In(s, es[n - 1]);
    }
  }

  /** Extent `k` of live inode `i` has sector `s`. */
  predicate Holds(v: Volume, i: nat, k: nat, s: nat) {
    v.Live(i) && k < |v.At(i).extents| && v.At(i).extents[k].start <= s < v.At(i).extents[k].start + v.At(i).extents[k].len
  }

  lemma {:induction false} OwnedIsHeld(v: Volume, n: nat, s: nat)
    requires n <= |v.inodes|
    ensures s in OwnedUpTo(v, n) <==> exists i: nat, k: nat :: 1 <= i <= n && Holds(v, i, k, s)
  {
    if n > 0 {
      OwnedIsHeld(v, n - 1, s);
      if v.At(n).number != 0 {
        InSectors(v.At(n).extents, |v.At(n).extents|, s);
        if k: nat :| k < |v.At(n).extents| && v.At(n).extents[k].start <= s < v.At(n).extents[k].start + v.At(n).extents[k].len {
          assert Holds(v, n, k, s);
        }
      }
    }
  }

  /** What a clean verdict means, without the checker's own notions: a data sector is
      marked exactly when some extent has it, and then only one inode's; every entry of
      a directory names a live inode of the same kind; regular files fit their extents. */
  lemma CleanMeans(v: Volume, bits: seq<bool>)
    requires v.Mounted() && Clean(v, bits)
    ensures forall s: nat | v.dataStart <= s < v.total :: bits[s] <==> exists i: nat, k: nat :: Holds(v, i, k, s)
    ensures forall i: nat, k: nat, j: nat, m: nat, s: nat | Holds(v, i, k, s) && Holds(v, j, m, s) :: i == j && k == m
    ensures forall i: nat, k: nat | v.IsDir(i) && k < |v.Listing(i).value| ::
              v.Live(v.Listing(i).value[k].inode) && v.Listing(i).value[k].kind == v.At(v.Listing(i).value[k].inode).kind
    ensures forall i: nat | v.Live(i) :: v.At(i).number == i
  {
    forall s: nat | v.dataStart <= s < v.total ensures bits[s] <==> exists i: nat, k: nat :: Holds(v, i, k, s) {
      OwnedIsHeld(v, |v.inodes|, s);
    }
    forall i: nat, k: nat, j: nat, m: nat, s: nat | Holds(v, i, k, s) && Holds(v, j, m, s) ensures i == j && k == m {
      OnlyHolder(v, i, k, j, m, s);
    }
    forall i: nat, k: nat | v.IsDir(i) && k < |v.Listing(i).value|
      ensures v.Live(v.Listing(i).value[k].inode) && v.Listing(i).value[k].kind == v.At(v.Listing(i).value[k].inode).kind
    {
      assert WellFormed(v, i) && GoodEntry(v, v.Listing(i).value[k]);
      assert WellFormed(v, v.Listing(i).value[k].inode);
    }
  }

  lemma NotInBoth(a: set<nat>, b: set<nat>, s: nat)
    requires a * b == {}
    ensures !(s in a && s in b)
  {
    assert s in a * b <==> s in a && s in b;
  }

  lemma NotBoth(v: Volume, i: nat, j: nat, s: nat)
    requires v.Mounted() && 1 <= i < j <= |v.inodes| && Unshared(v, j)
    ensures !(s in OwnedBy(v, i) && s in OwnedBy(v, j))
  {
    OwnersApart(v, i, j);
    NotInBoth(OwnedBy(v, i), OwnedBy(v, j), s);
  }

  lemma NotTwice(es: seq<Extent>, k: nat, m: nat, s: nat)
    requires Separate(es) && k < m < |es|
    ensures !(In(s, es[k]) && In(s, es[m]))
  {
    assert Apart(es[k], es[m]);
    NotInBoth(Span(es[k]), Span(es[m]), s);
  }

  lemma OnlyHolder(v: Volume, i: nat, k: nat, j: nat, m: nat, s: nat)
    requires v.Mounted() && Structured(v) && Holds(v, i, k, s) && Holds(v, j, m, s)
    ensures i == j && k == m
  {
    assert WellFormed(v, i) && WellFormed(v, j);
    InSectors(v.At(i).extents, |v.At(i).extents|, s);
    InSectors(v.At(j).extents, |v.At(j).extents|, s);
    if i < j {
      NotBoth(v, i, j, s);
    } else if j < i {
      NotBoth(v, j, i, s);
    } else if k < m {
      NotTwice(v.At(i).extents, k, m, s);
    } else if m < k {
      NotTwice(v.At(i).extents, m, k, s);
    }
  }

  /** No two inodes own the same sector. */
  lemma OwnersApart(v: Volume, i: nat, j: nat)
    requires v.Mounted() && 1 <= i < j <= |v.inodes| && Unshared(v, j)
    ensures OwnedBy(v, i) * OwnedBy(v, j) == {}
  {
    OwnedUpToHolds(v, i, j - 1);
  }

  lemma {:induction false} OwnedUpToHolds(v: Volume, i: nat, n: nat)
    requires 1 <= i <= n <= |v.inodes|
    ensures OwnedBy(v, i) <= OwnedUpTo(v, n)
  {
    if i < n {
      OwnedUpToHolds(v, i, n - 1);
    }
  }

  lemma {:induction false} OwnedUpToOnly(v: Volume, n: nat, s: nat)
    requires n <= |v.inodes| && s in OwnedUpTo(v, n)
    ensures exists i :: 1 <= i <= n && s in OwnedBy(v, i)
  {
    if s !in OwnedBy(v, n) {
      OwnedUpToOnly(v, n - 1, s);
    } else {
      assert s in OwnedBy(v, n);
    }
  }

  ghost predicate NotOwned(v: Volume, i: nat, ss: set<nat>)
    requires v.Is(i)
  {
    OwnedBy(v, i) * ss == {}
  }

  lemma {:induction false} OwnedApartFrom(v: Volume, n: nat, ss: set<nat>)
    requires n <= |v.inodes|
    ensures OwnedUpTo(v, n) * ss == {} <==> forall i :: 1 <= i <= n ==> NotOwned(v, i, ss)
  {
    if n > 0 {
      OwnedApartFrom(v, n - 1, ss);
      assert NotOwned(v, n, ss) <==> OwnedBy(v, n) * ss == {};
      assert OwnedUpTo(v, n) * ss == OwnedUpTo(v, n - 1) * ss + OwnedBy(v, n) * ss;
    }
  }

  // -------------------------------------------------------------- counting

  ghost function UsedIn(bits: seq<bool>, lo: nat, hi: nat): set<nat> {
    set s | lo <= s < hi && s < |bits| && bits[s]
  }

  /** The heart of the check: all owned sectors are marked, and as many sectors
      are marked as are owned, so the two sets are the same. */
  lemma CountsDecide(v: Volume, bits: seq<bool>)
    requires v.total <= |bits| && Owned(v) <= UsedIn(bits, v.dataStart, v.total)
    ensures |UsedIn(bits, v.dataStart, v.total)| == |Owned(v)| <==> BitmapExact(v, bits)
  {
    var used, owned := UsedIn(bits, v.dataStart, v.total), Owned(v);
    if |used| == |owned| {
      UnionSize(owned, used - owned);
      assert used == owned + (used - owned);
      assert used - owned == {};
    }
    if BitmapExact(v, bits) {
      assert used == owned;
    }
  }

  lemma {:induction false} SectorsInData(v: Volume, es: seq<Extent>, n: nat)
    requires InData(v, es) && n <= |es|
    ensures forall s :: s in Sectors(es, n) ==> v.dataStart <= s < v.total
  {
    if n > 0 {
      SectorsInData(v, es, n - 1);
    }
  }

  // ------------------------------------------------------------ inode checks

  method SharesSector(es: seq<Extent>, fs: seq<Extent>) returns (shared: bool)
    ensures shared <==> Sectors(es, |es|) * Sectors(fs, |fs|) != {}
  {
    ExtentsApart(es, |es|, fs, |fs|);
    var a := 0;
    while a < |es|
      invariant 0 <= a <= |es|
      invariant forall k, l :: 0 <= k < a && 0 <= l < |fs| ==> Apart(es[k], fs[l])
    {
      var b := 0;
      while b < |fs|
        invariant 0 <= b <= |fs|
        invariant forall l :: 0 <= l < b ==> Apart(es[a], fs[l])
      {
        if Overlap(es[a], fs[b]) {
          return true;
        }
        b := b + 1;
      }
      a := a + 1;
    }
    shared := false;
  }

  method OverlapsItself(es: seq<Extent>) returns (bad: bool)
    ensures bad <==> !Separate(es)
  {
    var a := 0;
    while a < |es|
      invariant 0 <= a <= |es|
      invariant forall k, l :: 0 <= k < a && k < l < |es| ==> Apart(es[k], es[l])
    {
      var b := a + 1;
      while b < |es|
        invariant a < b <= |es|
        invariant forall l :: a < l < b ==> Apart(es[a], es[l])
      {
        if Overlap(es[a], es[b]) {
          return true;
        }
        b := b + 1;
      }
      a := a + 1;
    }
    bad := false;
  }

  method SharesWithLower(v: Volume, i: nat) returns (bad: bool)
    requires v.Mounted() && v.Live(i)
    ensures bad <==> !Unshared(v, i)
  {
    OwnedApartFrom(v, i - 1, OwnedBy(v, i));
    var prior := 1;
    while prior < i
      invariant 1 <= prior <= i
      invariant forall j :: 1 <= j < prior ==> NotOwned(v, j, OwnedBy(v, i))
    {
      if v.At(prior).number != 0 {
        var shared := SharesSector(v.At(prior).extents, v.At(i).extents);
        if shared {
          assert !NotOwned(v, prior, OwnedBy(v, i));
          return true;
        }
      }
      prior := prior + 1;
    }
    bad := false;
  }

  /** The sectors a bitmap test finds marked; all of them while the bitmap is
      being ignored. */
  ghost predicate Marked(v: Volume, bits: seq<bool>, ignore: bool, s: nat) {
    ignore || (s < v.total && s < |bits| && bits[s])
  }

  method BitmapTest(v: Volume, bits: seq<bool>, ignore: bool, s: nat) returns (err: bool, used: bool)
    ensures !err && used <==> Marked(v, bits, ignore, s)
    ensures err <==> !ignore && (s >= v.total || s >= |bits|)
  {
    if ignore {
      return false, true;
    }
    if s >= v.total || s >= |bits| {
      return true, false;
    }
    return false, bits[s];
  }

  ghost predicate AllMarked(v: Volume, bits: seq<bool>, ignore: bool, ss: set<nat>) {
    forall s :: s in ss ==> Marked(v, bits, ignore, s)
  }

  method CountExtent(v: Volume, bits: seq<bool>, ignore: bool, e: Extent) returns (ok: bool, n: nat)
    ensures ok <==> AllMarked(v, bits, ignore, Span(e))
    ensures ok ==> n == e.len
  {
    n := 0;
    while n < e.len
      invariant n <= e.len
      invariant forall j: nat :: e.start <= j < e.start + n ==> Marked(v, bits, ignore, j)
    {
      var err, used := BitmapTest(v, bits, ignore, e.start + n);
      if err || !used {
        assert e.start + n in Span(e);
        return false, n;
      }
      n := n + 1;
    }
    ok := true;
  }

  /** Extents apart from each other and inside the data area: their lengths
      cannot add up past 64 bits. */
  lemma LengthsFit(v: Volume, es: seq<Extent>, n: nat)
    requires n <= |es| && Separate(es) && v.total < TWO64
    requires forall k :: 0 <= k < n ==> es[k].start + es[k].len <= v.total || es[k].len == 0
    ensures Lengths(es, n) < TWO64
  {
    SectorCount(es, n);
    var disk := Extent(0, v.total);
    SectorsBelow(v, es, n);
    SpanSize(disk);
    assert Span(disk) == Sectors(es, n) + (Span(disk) - Sectors(es, n));
    UnionSize(Sectors(es, n), Span(disk) - Sectors(es, n));
  }

  lemma {:induction false} SectorsBelow(v: Volume, es: seq<Extent>, n: nat)
    requires n <= |es|
    requires forall k :: 0 <= k < n ==> es[k].start + es[k].len <= v.total || es[k].len == 0
    ensures Sectors(es, n) <= Span(Extent(0, v.total))
  {
    if n > 0 {
      SectorsBelow(v, es, n - 1);
    }
  }

  ghost predicate GoodExtent(v: Volume, bits: seq<bool>, ignore: bool, e: Extent) {
    && (e.len > 0 ==> v.dataStart <= e.start && e.start + e.len <= v.total)
    && AllMarked(v, bits, ignore, Span(e))
  }

  method CheckExtent(v: Volume, bits: seq<bool>, ignore: bool, e: Extent) returns (code: int)
    requires v.dataStart < v.total
    ensures code <= 0 && (code == 0 <==> GoodExtent(v, bits, ignore, e))
  {
    if e.len == 0 {
      return 0;
    }
    if e.start < v.dataStart || e.start >= v.total || e.len > v.total - e.start {
      return -3;
    }
    var ok, n := CountExtent(v, bits, ignore, e);
    code := if ok then 0 else -5;
  }

  lemma {:induction false} GoodExtents(v: Volume, bits: seq<bool>, ignore: bool, es: seq<Extent>, n: nat)
    requires n <= |es|
    ensures AllMarked(v, bits, ignore, Sectors(es, n)) <==>
            forall k :: 0 <= k < n ==> AllMarked(v, bits, ignore, Span(es[k]))
  {
    if n > 0 {
      GoodExtents(v, bits, ignore, es, n - 1);
      AllMarkedUnion(v, bits, ignore, Sectors(es, n - 1), Span(es[n - 1]));
    }
  }

  lemma AllMarkedUnion(v: Volume, bits: seq<bool>, ignore: bool, a: set<nat>, b: set<nat>)
    ensures AllMarked(v, bits, ignore, a + b) <==> AllMarked(v, bits, ignore, a) && AllMarked(v, bits, ignore, b)
  {
    if AllMarked(v, bits, ignore, a + b) {
      assert forall s :: s in a ==> s in a + b;
      assert forall s :: s in b ==> s in a + b;
    }
  }

  method SumExtents(v: Volume, bits: seq<bool>, ignore: bool, es: seq<Extent>) returns (code: int, total: nat)
    requires v.Mounted() && Separate(es)
    ensures code <= 0 && (code == 0 <==> forall k :: 0 <= k < |es| ==> GoodExtent(v, bits, ignore, es[k]))
    ensures code == 0 ==> total == Lengths(es, |es|)
  {
    total := 0;
    var e := 0;
    while e < |es|
      invariant 0 <= e <= |es| && total == Lengths(es, e)
      invariant forall k :: 0 <= k < e ==> GoodExtent(v, bits, ignore, es[k])
    {
      code := CheckExtent(v, bits, ignore, es[e]);
      if code != 0 {
        return;
      }
      LengthsFit(v, es, e + 1);
      total := total + es[e].len;
      e := e + 1;
    }
    code := 0;
  }

  method CheckExtents(v: Volume, bits: seq<bool>, ignore: bool, es: seq<Extent>) returns (code: int, total: nat)
    requires v.Mounted() && Separate(es)
    ensures code <= 0
    ensures code == 0 <==> InData(v, es) && AllMarked(v, bits, ignore, Sectors(es, |es|))
    ensures code == 0 ==> total == Lengths(es, |es|)
  {
    code, total := SumExtents(v, bits, ignore, es);
    GoodExtents(v, bits, ignore, es, |es|);
  }

  method CheckListing(v: Volume, i: nat) returns (code: int)
    requires v.Mounted() && v.IsDir(i) && v.At(i).number == i
    ensures code <= 0
    ensures code == 0 <==> v.Listing(i).Some?
                           && forall k :: 0 <= k < |v.Listing(i).value| ==> GoodEntry(v, v.Listing(i).value[k])
  {
    var list := v.Listing(i);
    if list.None? {
      return -7;
    }
    var k := 0;
    while k < |list.value|
      invariant 0 <= k <= |list.value|
      invariant forall j :: 0 <= j < k ==> GoodEntry(v, list.value[j])
    {
      var d := list.value[k];
      if d.inode == 0 || d.inode > |v.inodes| || v.At(d.inode).number == 0
         || d.kind != Expected(v.At(d.inode).kind) {
        assert !GoodEntry(v, list.value[k]);
        return -8;
      }
      k := k + 1;
    }
    code := 0;
  }

  /** One live inode: sound in itself, apart from the lower ones, and with every
      sector marked. */
  method CheckInode(v: Volume, bits: seq<bool>, ignore: bool, i: nat) returns (code: int, refs: nat)
    requires v.Mounted() && v.Live(i) && v.At(i).number == i
    ensures code == 0 <==> WellFormed(v, i) && Unshared(v, i) && AllMarked(v, bits, ignore, OwnedBy(v, i))
    ensures code <= 0
    ensures code == 0 ==> refs == Lengths(v.At(i).extents, DIRECT_EXTENTS)
  {
    refs := 0;
    var n := v.At(i);
    if n.kind.Other? {
      return -2, 0;
    }
    var bad := OverlapsItself(n.extents);
    if bad {
      return -9, 0;
    }
    bad := SharesWithLower(v, i);
    if bad {
      return -9, 0;
    }
    code, refs := CheckExtents(v, bits, ignore, n.extents);
    if code != 0 {
      return;
    }
    if n.kind.Regular? && Needed(v, n.size) > refs {
      return -6, refs;
    }
    if n.kind.Directory? {
      code := CheckListing(v, i);
    }
  }

  ghost predicate GoodInode(v: Volume, bits: seq<bool>, ignore: bool, i: nat)
    requires v.Mounted() && v.Is(i)
  {
    v.Live(i) ==> WellFormed(v, i) && Unshared(v, i) && AllMarked(v, bits, ignore, OwnedBy(v, i))
  }

  lemma {:induction false} GoodInodes(v: Volume, bits: seq<bool>, ignore: bool, n: nat)
    requires v.Mounted() && n <= |v.inodes|
    ensures AllMarked(v, bits, ignore, OwnedUpTo(v, n)) <==>
            forall i :: 1 <= i <= n ==> AllMarked(v, bits, ignore, OwnedBy(v, i))
  {
    if n > 0 {
      GoodInodes(v, bits, ignore, n - 1);
      AllMarkedUnion(v, bits, ignore, OwnedUpTo(v, n - 1), OwnedBy(v, n));
    }
  }

  method CheckSlot(v: Volume, bits: seq<bool>, ignore: bool, i: nat) returns (code: int, n: nat)
    requires v.Mounted() && v.Is(i)
    ensures code <= 0 && (code == 0 <==> GoodInode(v, bits, ignore, i))
    ensures code == 0 ==> n == if v.Live(i) then Lengths(v.At(i).extents, DIRECT_EXTENTS) else 0
  {
    if v.At(i).number == 0 {
      return 0, 0;
    }
    if v.At(i).number != i {
      return -5, 0;
    }
    code, n := CheckInode(v, bits, ignore, i);
    if code != 0 {
      code := -10 + code;
    }
  }

  /** Sectors counted over inodes 1 to `n`. */
  ghost function CountedUpTo(v: Volume, n: nat): nat
    requires v.Mounted() && n <= |v.inodes|
  {
    if n == 0 then 0
    else CountedUpTo(v, n - 1) + if v.Live(n) then Lengths(v.At(n).extents, DIRECT_EXTENTS) else 0
  }

  lemma {:induction false} CountedIsOwned(v: Volume, bits: seq<bool>, ignore: bool, n: nat)
    requires v.Mounted() && n <= |v.inodes| && GoodUpTo(v, bits, ignore, n)
    ensures CountedUpTo(v, n) == |OwnedUpTo(v, n)|
  {
    if n > 0 {
      CountedIsOwned(v, bits, ignore, n - 1);
      if v.Live(n) {
        SectorCount(v.At(n).extents, DIRECT_EXTENTS);
        UnionSize(OwnedUpTo(v, n - 1), OwnedBy(v, n));
      }
    }
  }

  ghost predicate GoodUpTo(v: Volume, bits: seq<bool>, ignore: bool, n: nat)
    requires v.Mounted() && n <= |v.inodes|
  {
    n == 0 || (GoodUpTo(v, bits, ignore, n - 1) && GoodInode(v, bits, ignore, n))
  }

  lemma {:induction false} GoodUpToAll(v: Volume, bits: seq<bool>, ignore: bool, n: nat)
    requires v.Mounted() && n <= |v.inodes|
    ensures GoodUpTo(v, bits, ignore, n) <==> forall i :: 1 <= i <= n ==> GoodInode(v, bits, ignore, i)
  {
    if n > 0 {
      GoodUpToAll(v, bits, ignore, n - 1);
    }
  }

  lemma {:induction false} OneBad(v: Volume, bits: seq<bool>, ignore: bool, i: nat, n: nat)
    requires v.Mounted() && 1 <= i <= n <= |v.inodes| && !GoodInode(v, bits, ignore, i)
    ensures !GoodUpTo(v, bits, ignore, n)
    decreases n
  {
    if i < n {
      OneBad(v, bits, ignore, i, n - 1);
    }
  }

  /** One step of the scan, against what is already known of the lower slots. */
  method ScanSlot(v: Volume, bits: seq<bool>, ignore: bool, i: nat) returns (code: int, n: nat)
    requires v.Mounted() && i < |v.inodes| && GoodUpTo(v, bits, ignore, i)
    ensures code == 0 ==> GoodUpTo(v, bits, ignore, i + 1) && CountedUpTo(v, i + 1) == CountedUpTo(v, i) + n
    ensures code != 0 ==> !GoodUpTo(v, bits, ignore, |v.inodes|)
  {
    code, n := CheckSlot(v, bits, ignore, i + 1);
    if code != 0 {
      OneBad(v, bits, ignore, i + 1, |v.inodes|);
    }
  }

  method ScanInodes(v: Volume, bits: seq<bool>, ignore: bool) returns (code: int, refs: nat)
    requires v.Mounted()
    ensures code == 0 <==> GoodUpTo(v, bits, ignore, |v.inodes|)
    ensures code == 0 ==> refs == CountedUpTo(v, |v.inodes|)
  {
    refs := 0;
    var i := 0;
    while i < |v.inodes|
      invariant 0 <= i <= |v.inodes| && refs == CountedUpTo(v, i)
      invariant GoodUpTo(v, bits, ignore, i)
    {
      var n;
      code, n := ScanSlot(v, bits, ignore, i);
      if code != 0 {
        return;
      }
      refs := refs + n;
      i := i + 1;
    }
    code := 0;
  }

  /** Every live inode in turn. */
  method CheckInodes(v: Volume, bits: seq<bool>, ignore: bool) returns (code: int, refs: nat)
    requires v.Mounted()
    ensures code == 0 <==>
            (forall i: nat :: v.Live(i) ==> WellFormed(v, i) && Unshared(v, i)) && AllMarked(v, bits, ignore, Owned(v))
    ensures code == 0 ==> refs == |Owned(v)|
  {
    code, refs := ScanInodes(v, bits, ignore);
    GoodUpToAll(v, bits, ignore, |v.inodes|);
    GoodInodes(v, bits, ignore, |v.inodes|);
    if code == 0 {
      CountedIsOwned(v, bits, ignore, |v.inodes|);
      forall i: nat | v.Live(i) ensures WellFormed(v, i) && Unshared(v, i) {
        assert GoodInode(v, bits, ignore, i);
      }
      forall i | 1 <= i <= |v.inodes| ensures AllMarked(v, bits, ignore, OwnedBy(v, i)) {
        assert GoodInode(v, bits, ignore, i);
      }
    }
  }

  // ------------------------------------------------------------ reachability

  /** A directory the scan can follow: readable, with entries in range. */
  ghost predicate Followable(v: Volume, a: nat)
    requires v.Mounted() && v.Is(a)
  {
    v.At(a).kind.Directory? ==>
      v.Listing(a).Some? && forall k :: 0 <= k < |v.Listing(a).value| ==> v.Is(v.Listing(a).value[k].inode)
  }

  ghost predicate AllReachable(v: Volume)
    requires v.Mounted()
  {
    && (forall a: nat :: v.Is(a) && Reachable(v, a) ==> Followable(v, a))
    && (forall i: nat :: v.Live(i) ==> Reachable(v, i))
  }

  lemma NamedIsReachable(v: Volume, a: nat, b: nat)
    requires v.Mounted() && Reachable(v, a) && Names(v, a, b)
    ensures Reachable(v, b)
  {
    var n: nat :| Reached(v, a, n);
    assert Reached(v, b, n + 1);
  }

  /** Everything `a` names is in `seen`. */
  ghost predicate Followed(v: Volume, seen: set<nat>, a: nat)
    requires v.Mounted() && v.Is(a)
  {
    Followable(v, a) && forall b: nat :: Names(v, a, b) ==> b in seen
  }

  /** A set that holds the root and is closed under entries holds everything
      reachable. */
  lemma {:induction false} ClosedHoldsReached(v: Volume, seen: set<nat>, b: nat, n: nat)
    requires v.Mounted() && v.root in seen && Reached(v, b, n)
    requires forall a: nat :: a in seen ==> v.Is(a) && Followed(v, seen, a)
    ensures b in seen
    decreases n
  {
    if n > 0 {
      var a: nat :| Reached(v, a, n - 1) && Names(v, a, b);
      ClosedHoldsReached(v, seen, a, n - 1);
    }
  }

  method FollowEntries(v: Volume, a: nat, seen: set<nat>) returns (ok: bool, seen': set<nat>)
    requires v.Mounted() && v.Is(a) && Reachable(v, a)
    requires forall x :: x in seen ==> v.Is(x) && Reachable(v, x)
    ensures ok <==> Followable(v, a)
    ensures seen <= seen' && forall x :: x in seen' ==> v.Is(x) && Reachable(v, x)
    ensures ok ==> Followed(v, seen', a)
  {
    seen' := seen;
    if !v.At(a).kind.Directory? {
      return true, seen;
    }
    var list := v.Listing(a);
    if list.None? {
      return false, seen;
    }
    var k := 0;
    while k < |list.value|
      invariant 0 <= k <= |list.value| && seen <= seen'
      invariant forall x :: x in seen' ==> v.Is(x) && Reachable(v, x)
      invariant forall j :: 0 <= j < k ==> v.Is(list.value[j].inode) && list.value[j].inode in seen'
    {
      var b := list.value[k].inode;
      if b == 0 || b > |v.inodes| {
        return false, seen';
      }
      assert Names(v, a, b);
      NamedIsReachable(v, a, b);
      seen' := seen' + {b};
      k := k + 1;
    }
    ok := true;
  }

  /** One pass over the directories seen so far. */
  method FollowAll(v: Volume, seen: set<nat>) returns (ok: bool, seen': set<nat>)
    requires v.Mounted()
    requires forall x :: x in seen ==> v.Is(x) && Reachable(v, x)
    ensures seen <= seen' && forall x :: x in seen' ==> v.Is(x) && Reachable(v, x)
    ensures !ok ==> exists a: nat :: v.Is(a) && Reachable(v, a) && !Followable(v, a)
    ensures ok ==> forall a: nat :: a in seen ==> Followed(v, seen', a)
  {
    seen' := seen;
    var dir: nat := 1;
    while dir <= |v.inodes|
      invariant 1 <= dir <= |v.inodes| + 1 && seen <= seen'
      invariant forall x :: x in seen' ==> v.Is(x) && Reachable(v, x)
      invariant forall a: nat :: a in seen && a < dir ==> Followed(v, seen', a)
    {
      if dir in seen' {
        ghost var was := seen';
        ok, seen' := FollowEntries(v, dir, seen');
        if !ok {
          return;
        }
        forall a: nat | a in seen && a < dir ensures Followed(v, seen', a) {
          assert Followed(v, was, a);
        }
      }
      dir := dir + 1;
    }
    ok := true;
  }

  ghost function AllInodes(v: Volume): set<nat> {
    set i: nat | i <= |v.inodes| && v.Is(i)
  }

  /** The set of inodes reached from the root, built pass by pass until nothing
      new turns up. */
  method CheckReachable(v: Volume) returns (code: int)
    requires v.Mounted() && v.Is(v.root)
    ensures code == 0 <==> AllReachable(v)
  {
    assert Reached(v, v.root, 0);
    var seen: set<nat> := {v.root};
    var changed := true;
    while changed
      invariant v.root in seen
      invariant forall x :: x in seen ==> v.Is(x) && Reachable(v, x)
      invariant !changed ==> forall a: nat :: a in seen ==> Followed(v, seen, a)
      decreases changed, AllInodes(v) - seen
    {
      var ok, more := FollowAll(v, seen);
      if !ok {
        return -3;
      }
      changed := more != seen;
      if changed {
        assert AllInodes(v) - more < AllInodes(v) - seen by {
          var x :| x in more && x !in seen;
          assert x in AllInodes(v) - seen;
        }
      }
      seen := more;
    }
    forall b: nat | Reachable(v, b) ensures b in seen {
      var n: nat :| Reached(v, b, n);
      ClosedHoldsReached(v, seen, b, n);
    }
    var ino := 1;
    while ino <= |v.inodes|
      invariant 1 <= ino <= |v.inodes| + 1
      invariant forall i: nat :: i < ino && v.Live(i) ==> i in seen
    {
      if v.At(ino).number != 0 && ino !in seen {
        assert v.Live(ino) && !Reachable(v, ino);
        return -5;
      }
      ino := ino + 1;
    }
    code := 0;
  }

  // ------------------------------------------------------------- link counts

  method CountEntries(ds: seq<Dirent>, target: nat, before: nat) returns (ok: bool, links: nat)
    requires before <= UINT32_MAX
    ensures ok <==> before + Count(ds, target, |ds|) <= UINT32_MAX
    ensures ok ==> links == before + Count(ds, target, |ds|)
  {
    links := before;
    var k := 0;
    while k < |ds|
      invariant 0 <= k <= |ds| && links == before + Count(ds, target, k) <= UINT32_MAX
    {
      if ds[k].inode == target {
        if links == UINT32_MAX {
          CountGrows(ds, target, k + 1, |ds|);
          return false, links;
        }
        links := links + 1;
      }
      k := k + 1;
    }
    ok := true;
  }

  lemma {:induction false} CountGrows(ds: seq<Dirent>, target: nat, n: nat, m: nat)
    requires n <= m <= |ds|
    ensures Count(ds, target, n) <= Count(ds, target, m)
    decreases m
  {
    if n < m {
      CountGrows(ds, target, n, m - 1);
    }
  }

  lemma {:induction false} LinksGrow(v: Volume, target: nat, n: nat, m: nat)
    requires |v.listings| == |v.inodes| && n <= m <= |v.inodes|
    ensures LinksUpTo(v, target, n) <= LinksUpTo(v, target, m)
    decreases m
  {
    if n < m {
      LinksGrow(v, target, n, m - 1);
    }
  }

  ghost predicate DirsReadable(v: Volume)
    requires v.Mounted()
  {
    forall i: nat :: v.IsDir(i) ==> v.Listing(i).Some?
  }

  method LinkCount(v: Volume, target: nat) returns (ok: bool, links: nat)
    requires v.Mounted()
    ensures ok <==> DirsReadable(v) && Links(v, target) <= UINT32_MAX
    ensures ok ==> links == Links(v, target)
  {
    links := 0;
    var dir := 1;
    while dir <= |v.inodes|
      invariant 1 <= dir <= |v.inodes| + 1 && links == LinksUpTo(v, target, dir - 1) <= UINT32_MAX
      invariant forall i: nat :: i < dir && v.IsDir(i) ==> v.Listing(i).Some?
    {
      if v.IsDir(dir) {
        if v.Listing(dir).None? {
          return false, links;
        }
        ok, links := CountEntries(v.Listing(dir).value, target, links);
        if !ok {
          LinksGrow(v, target, dir, |v.inodes|);
          return;
        }
      }
      dir := dir + 1;
    }
    ok := true;
  }

  method CheckLinks(v: Volume) returns (code: int)
    requires v.Mounted() && DirsReadable(v)
    ensures code == 0 <==> forall i: nat :: v.Live(i) && i != v.root ==> GoodLinks(v, i)
  {
    var ino := 1;
    while ino <= |v.inodes|
      invariant 1 <= ino <= |v.inodes| + 1
      invariant forall i: nat :: i < ino && v.Live(i) && i != v.root ==> GoodLinks(v, i)
    {
      if v.At(ino).number != 0 && ino != v.root {
        assert v.Live(ino);
        var ok, links := LinkCount(v, ino);
        if !ok {
          return -22;
        }
        if links == 0 {
          return -23;
        }
        if !v.At(ino).kind.Directory? && v.At(ino).links != links {
          return -24;
        }
      }
      ino := ino + 1;
    }
    code := 0;
  }

  // ---------------------------------------------------------- the whole check

  /** Marked sectors from `lo` up to `hi`. */
  ghost function UsedCount(bits: seq<bool>, lo: nat, hi: nat): nat
    requires lo <= hi <= |bits|
    decreases hi
  {
    if lo == hi then 0 else UsedCount(bits, lo, hi - 1) + if bits[hi - 1] then 1 else 0
  }

  lemma {:induction false} UsedCountIsSize(bits: seq<bool>, lo: nat, hi: nat)
    requires lo <= hi <= |bits|
    ensures UsedCount(bits, lo, hi) == |UsedIn(bits, lo, hi)|
    decreases hi
  {
    if lo == hi {
      assert UsedIn(bits, lo, hi) == {};
    } else {
      UsedCountIsSize(bits, lo, hi - 1);
      assert UsedIn(bits, lo, hi) == UsedIn(bits, lo, hi - 1) + if bits[hi - 1] then {hi - 1} else {};
    }
  }

  method CountAllocated(v: Volume, bits: seq<bool>) returns (ok: bool, count: nat)
    requires v.Mounted()
    ensures ok <==> v.total <= |bits|
    ensures ok ==> count == UsedCount(bits, v.dataStart, v.total)
  {
    count := 0;
    var sector := v.dataStart;
    while sector < v.total
      invariant v.dataStart <= sector <= v.total && (sector > v.dataStart ==> sector <= |bits|)
      invariant sector > v.dataStart ==> count == UsedCount(bits, v.dataStart, sector)
      invariant sector == v.dataStart ==> count == 0
    {
      var err, used := BitmapTest(v, bits, false, sector);
      if err {
        return false, count;
      }
      if used {
        count := count + 1;
      }
      sector := sector + 1;
    }
    ok := true;
  }

  lemma {:induction false} ReachedIsLive(v: Volume, b: nat, n: nat)
    requires v.Mounted() && v.Live(v.root) && Reached(v, b, n)
    requires forall i: nat :: v.Live(i) ==> WellFormed(v, i)
    ensures v.Live(b)
    decreases n
  {
    if n > 0 {
      var a: nat :| Reached(v, a, n - 1) && Names(v, a, b);
      ReachedIsLive(v, a, n - 1);
      assert WellFormed(v, a);
    }
  }

  /** With sound inodes the scan from the root finds nothing it cannot follow. */
  lemma ScanSucceeds(v: Volume)
    requires v.Mounted() && v.Live(v.root) && forall i: nat :: v.Live(i) ==> WellFormed(v, i)
    ensures AllReachable(v) <==> forall i: nat :: v.Live(i) ==> Reachable(v, i)
  {
    forall a: nat | v.Is(a) && Reachable(v, a) ensures Followable(v, a) {
      var n: nat :| Reached(v, a, n);
      ReachedIsLive(v, a, n);
      assert WellFormed(v, a);
    }
  }

  lemma OwnedInData(v: Volume, s: nat)
    requires v.Mounted() && s in Owned(v) && forall i: nat :: v.Live(i) ==> WellFormed(v, i)
    ensures v.dataStart <= s < v.total
  {
    OwnedUpToOnly(v, |v.inodes|, s);
    var i :| 1 <= i <= |v.inodes| && s in OwnedBy(v, i);
    assert v.Live(i) && WellFormed(v, i);
    SectorsInData(v, v.At(i).extents, |v.At(i).extents|);
  }

  /** All owned sectors marked and the two counts equal: the bitmap is exact. */
  lemma MarksAndCounts(v: Volume, bits: seq<bool>)
    requires v.Mounted() && forall i: nat :: v.Live(i) ==> WellFormed(v, i)
    ensures BitmapExact(v, bits) <==>
            AllMarked(v, bits, false, Owned(v)) && v.total <= |bits|
            && UsedCount(bits, v.dataStart, v.total) == |Owned(v)|
  {
    forall s | s in Owned(v) ensures v.dataStart <= s < v.total {
      OwnedInData(v, s);
    }
    if v.total <= |bits| {
      UsedCountIsSize(bits, v.dataStart, v.total);
      if AllMarked(v, bits, false, Owned(v)) {
        forall s | s in Owned(v) ensures s in UsedIn(bits, v.dataStart, v.total) {
          assert Marked(v, bits, false, s);
        }
        CountsDecide(v, bits);
      }
      if BitmapExact(v, bits) {
        assert Owned(v) <= UsedIn(bits, v.dataStart, v.total);
        CountsDecide(v, bits);
      }
    }
  }

  /** Root and reachability, for sound inodes. */
  method CheckRoot(v: Volume) returns (code: int)
    requires v.Mounted() && v.Is(v.root) && forall i: nat :: v.Live(i) ==> WellFormed(v, i)
    ensures code == 0 <==> v.IsDir(v.root) && (forall i: nat :: v.Live(i) ==> Reachable(v, i))
    ensures DirsReadable(v)
  {
    forall i: nat | v.IsDir(i) ensures v.Listing(i).Some? {
      assert WellFormed(v, i);
    }
    if v.At(v.root).number != v.root || !v.At(v.root).kind.Directory? {
      assert v.Live(v.root) ==> WellFormed(v, v.root);
      return -20;
    }
    ScanSucceeds(v);
    code := CheckReachable(v);
    if code != 0 {
      code := -25;
    }
  }

  /** The checker returns zero exactly on clean volumes. */
  method Check(v: Volume, bits: seq<bool>) returns (code: int)
    requires v.Mounted()
    ensures code == 0 <==> Clean(v, bits)
  {
    if !v.Is(v.root) {
      return -3;
    }
    var refs;
    code, refs := CheckInodes(v, bits, false);
    if code != 0 {
      CleanIsMarked(v, bits);
      return;
    }
    MarksAndCounts(v, bits);
    code := CheckRoot(v);
    if code != 0 {
      return;
    }
    var ok, count := CountAllocated(v, bits);
    if !ok || count != refs {
      return -26;
    }
    code := CheckLinks(v);
  }

  lemma CleanIsMarked(v: Volume, bits: seq<bool>)
    requires v.Mounted()
    ensures Clean(v, bits) ==>
              (forall i: nat :: v.Live(i) ==> WellFormed(v, i) && Unshared(v, i)) && AllMarked(v, bits, false, Owned(v))
  {
    if Clean(v, bits) {
      MarksAndCounts(v, bits);
    }
  }

  // ----------------------------------------------------------------- repair

  /** The bitmap repair writes: everything below the data area, every owned
      sector, and nothing past the end. */
  ghost function Rebuilt(v: Volume, n: nat): seq<bool> {
    seq(n, s requires 0 <= s < n => Belongs(v, s))
  }

  ghost predicate Belongs(v: Volume, s: nat) {
    s < v.total && (s < v.dataStart || s in Owned(v))
  }

  lemma BelongsExactlyWhen(v: Volume, s: nat)
    ensures Belongs(v, s) <==> s < v.total && (s < v.dataStart || exists i: nat, k: nat :: Holds(v, i, k, s))
  {
    OwnedIsHeld(v, |v.inodes|, s);
  }

  method StructureOk(v: Volume) returns (ok: bool)
    requires v.Mounted()
    ensures ok <==> Structured(v)
  {
    if !v.Is(v.root) {
      return false;
    }
    var code, refs := CheckInodes(v, [], true);
    if code != 0 {
      return false;
    }
    code := CheckRoot(v);
    if code != 0 {
      return false;
    }
    code := CheckLinks(v);
    ok := code == 0;
  }

  /** Bits of one bitmap sector as they should be. */
  method Wanted(v: Volume, first: nat, count: nat) returns (want: seq<bool>)
    ensures |want| == count
    ensures forall k :: 0 <= k < count ==> (want[k] <==> Belongs(v, first + k))
  {
    var buffer := new bool[count](_ => false);
    var k := 0;
    while k < count
      invariant 0 <= k <= count
      invariant forall j :: 0 <= j < count ==> (buffer[j] <==> j < k && first + j < v.total && first + j < v.dataStart)
    {
      if first + k < v.total && first + k < v.dataStart {
        buffer[k] := true;
      }
      k := k + 1;
    }
    var i := 0;
    while i < |v.inodes|
      invariant 0 <= i <= |v.inodes|
      invariant forall j :: 0 <= j < count ==>
                  (buffer[j] <==> first + j < v.total && (first + j < v.dataStart || first + j in OwnedUpTo(v, i)))
    {
      if v.At(i + 1).number != 0 {
        MarkInode(v, buffer, first, v.At(i + 1).extents);
      }
      i := i + 1;
    }
    want := buffer[..];
  }

  /** Mark the sectors of one inode that fall into this bitmap sector. */
  method MarkInode(v: Volume, buffer: array<bool>, first: nat, es: seq<Extent>)
    modifies buffer
    ensures forall j :: 0 <= j < buffer.Length ==>
              (buffer[j] <==> old(buffer[j]) || (first + j < v.total && first + j in Sectors(es, |es|)))
  {
    var e := 0;
    while e < |es|
      invariant 0 <= e <= |es|
      invariant forall j :: 0 <= j < buffer.Length ==>
                  (buffer[j] <==> old(buffer[j]) || (first + j < v.total && first + j in Sectors(es, e)))
    {
      MarkExtent(v, buffer, first, es[e]);
      e := e + 1;
    }
  }

  method MarkExtent(v: Volume, buffer: array<bool>, first: nat, e: Extent)
    modifies buffer
    ensures forall j :: 0 <= j < buffer.Length ==>
              (buffer[j] <==> old(buffer[j]) || (first + j < v.total && first + j in Span(e)))
  {
    var n := 0;
    while n < e.len
      invariant 0 <= n <= e.len
      invariant forall j :: 0 <= j < buffer.Length ==>
                  (buffer[j] <==> old(buffer[j]) || (first + j < v.total && e.start <= first + j < e.start + n))
    {
      var s := e.start + n;
      if first <= s < first + buffer.Length && s < v.total {
        buffer[s - first] := true;
      }
      n := n + 1;
    }
  }

  /** How many of the first `n` bits differ. */
  ghost function Differences(a: seq<bool>, b: seq<bool>, n: nat): nat
    requires n <= |a| && n <= |b|
  {
    if n == 0 then 0 else Differences(a, b, n - 1) + if a[n - 1] != b[n - 1] then 1 else 0
  }

  method CountDifferences(a: seq<bool>, b: seq<bool>) returns (n: nat)
    requires |a| == |b|
    ensures n == Differences(a, b, |a|)
  {
    n := 0;
    for k := 0 to |a|
      invariant n == Differences(a, b, k)
    {
      if a[k] != b[k] {
        n := n + 1;
      }
    }
  }

  /** After a repair the check returns zero exactly when the bitmap has a bit for
      every sector. */
  lemma RepairedIsClean(v: Volume, n: nat)
    requires v.Mounted() && Structured(v)
    ensures Clean(v, Rebuilt(v, n)) <==> v.total <= n
  {
  }

  lemma {:induction false} NoSectors(es: seq<Extent>, n: nat)
    requires n <= |es| && forall k :: 0 <= k < n ==> es[k].len == 0
    ensures Sectors(es, n) == {}
  {
    if n > 0 {
      NoSectors(es, n - 1);
    }
  }

  /** The size check rounds the sector count down to whole bytes, so a bitmap up
      to seven bits short passes it and stays unclean after a repair that
      reports success. */
  lemma RepairMissesTail()
    ensures exists v: Volume, sectors: nat ::
              v.Mounted() && Structured(v) && sectors > 0 && sectors * v.sectorSize >= v.total / 8
              && !Clean(v, Rebuilt(v, sectors * (v.sectorSize * 8)))
  {
    var none := Extent(0, 0);
    var root := Inode(1, Directory, 0, [none, none, none, none], 0);
    var v := Volume(4097, 20, 512, 1, [root], [Some([])]);
    assert Reached(v, 1, 0);
    NoSectors(root.extents, 4);
    assert WellFormed(v, 1);
    forall i: nat | v.Live(i) ensures i == 1 {
    }
    assert Structured(v);
    var sectors: nat := 1;
    assert !Clean(v, Rebuilt(v, sectors * (v.sectorSize * 8)));
  }

  /** The size test of a regular file compares bytes with sectors as intended,
      unless rounding the size up passes 64 bits: then every such file passes. */
  lemma SizeTestExactlyWhen(v: Volume, size: nat, sectors: nat)
    requires v.Mounted() && size < TWO64
    ensures size + (v.sectorSize - 1) < TWO64 ==> (Needed(v, size) <= sectors <==> size <= sectors * v.sectorSize)
    ensures size + (v.sectorSize - 1) >= TWO64 ==> Needed(v, size) == 0
  {
    var x := size + (v.sectorSize - 1);
    if x < TWO64 {
      Unwrapped(x);
      RoundUp(size, v.sectorSize, sectors);
    } else {
      Wrapped(x);
      NoWhole(x - TWO64, v.sectorSize);
    }
  }

  lemma Unwrapped(x: nat)
    requires x < TWO64
    ensures x % TWO64 == x
  {
  }

  lemma Wrapped(x: nat)
    requires TWO64 <= x < 2 * TWO64
    ensures x % TWO64 == x - TWO64
  {
  }

  lemma NoWhole(x: nat, ss: nat)
    requires x < ss
    ensures x / ss == 0
  {
  }

  lemma RoundUp(size: nat, ss: nat, n: nat)
    requires ss > 0
    ensures (size + (ss - 1)) / ss <= n <==> size <= n * ss
  {
    var x := size + (ss - 1);
    var d := x / ss;
    assert d * ss <= x < d * ss + ss;
    if d <= n {
      assert d * ss <= n * ss;
    } else {
      assert (n + 1) * ss <= d * ss;
      assert (n + 1) * ss == n * ss + ss;
    }
  }
}
