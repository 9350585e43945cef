/** A RixFS volume as it lies on the device: where its regions are, and how the
    inodes, the directories and the allocation bitmap are read from its sectors. */
module VolumeImage {
  import opened Common
  import opened Bytes
  import opened Journal
  import opened JournalFormat
  import opened Fsck

  const INODE_SIZE: nat := 128

  /** The superblock's fields: regions one after the other, as formatting lays them
      out, with inodes that do not straddle sectors. */
  datatype Layout = Layout(total: nat, sectorSize: nat, inodeTable: nat, inodeSectors: nat, inodeCount: nat, root: nat,
                           bitmap: nat, bitmapSectors: nat, journal: nat, journalSectors: nat, dataStart: nat,
                           sum: bytes -> u64) {
    predicate Valid() {
      && 512 <= sectorSize <= 4096 && sectorSize % INODE_SIZE == 0
      && 1 <= inodeTable && inodeTable + inodeSectors <= bitmap && bitmap + bitmapSectors <= journal
      && journal + journalSectors <= dataStart < total < TWO64 && 2 <= journalSectors && 0 < bitmapSectors
      && 0 < inodeCount < MAX_INODES && inodeCount * INODE_SIZE <= Times(inodeSectors, sectorSize)
    }

    /** Bits in one bitmap sector. */
    function Chunk(): nat {
      8 * sectorSize
    }

    /** The first bit of bitmap sector `n`. */
    function First(n: nat): nat {
      Times(n, Chunk())
    }

    function BitmapBits(): nat {
      First(bitmapSectors)
    }

    function G(): Geometry {
      RixfsGeometry(total, journal, journalSectors, sectorSize, sum)
    }

    predicate InBitmap(s: nat) {
      bitmap <= s < bitmap + bitmapSectors
    }
  }

  lemma LayoutGeometry(l: Layout)
    requires l.Valid()
    ensures l.G().Valid()
  {
    BlankDecodes(l.sectorSize);
  }

  // ------------------------------------------------------------------ inodes

  function KindOf(mode: nat): Kind {
    var t := mode / 0x1000 % 16;
    if t == 8 then Regular else if t == 4 then Directory else if t == 10 then Symlink else Other
  }

  function InodeFrom(b: bytes): (n: Inode)
    requires |b| == INODE_SIZE
    ensures |n.extents| == DIRECT_EXTENTS
  {
    Inode(Field(b, 0, 8), KindOf(Field(b, 8, 4)), Field(b, 24, 8),
          [Extent(Field(b, 40, 8), Field(b, 72, 8)), Extent(Field(b, 48, 8), Field(b, 80, 8)),
           Extent(Field(b, 56, 8), Field(b, 88, 8)), Extent(Field(b, 64, 8), Field(b, 96, 8))],
          Field(b, 104, 4))
  }

  lemma InodeFromBounds(b: bytes)
    requires |b| == INODE_SIZE
    ensures InodeFrom(b).size < TWO64 && InodeFrom(b).links <= UINT32_MAX
  {
    FieldBound(b, 24, 8);
    FieldBound(b, 104, 4);
    Pow256Eight();
    assert Pow256(2) == 0x1_0000;
  }

  function InodeSector(l: Layout, i: nat): nat
    requires l.sectorSize > 0 && i > 0
  {
    l.inodeTable + (i - 1) * INODE_SIZE / l.sectorSize
  }

  function InodeOffset(l: Layout, i: nat): nat
    requires l.sectorSize > 0 && i > 0
  {
    (i - 1) * INODE_SIZE % l.sectorSize
  }

  lemma Quotient(x: nat, ss: nat, n: nat)
    requires ss > 0 && x < n * ss
    ensures 0 <= x / ss < n
  {
    assert x / ss * ss <= x;
    Scaled(n, x / ss, ss);
  }

  lemma Scaled(n: nat, d: nat, ss: nat)
    ensures n <= d ==> n * ss <= d * ss
  {
  }

  /** A multiple of 128 leaves, divided by one, a multiple of 128. */
  lemma Remainder(k: nat, q: nat)
    requires q > 0
    ensures 128 * k % (128 * q) + 128 <= 128 * q
  {
    var x, ss := 128 * k, 128 * q;
    var d, m := x / ss, x % ss;
    assert x == ss * d + m;
    assert m == 128 * (k - q * d);
  }

  lemma InodePlace(l: Layout, i: nat)
    requires l.Valid() && 1 <= i <= l.inodeCount
    ensures l.inodeTable <= InodeSector(l, i) < l.inodeTable + l.inodeSectors
    ensures InodeOffset(l, i) + INODE_SIZE <= l.sectorSize
  {
    TimesIs(l.inodeSectors, l.sectorSize);
    SectorFits(i - 1, l.sectorSize, l.inodeCount, l.inodeSectors);
    OffsetFits(i - 1, l.sectorSize);
  }

  lemma SectorFits(k: nat, ss: nat, count: nat, sectors: nat)
    requires ss > 0 && k < count && count * INODE_SIZE <= sectors * ss
    ensures 0 <= k * INODE_SIZE / ss < sectors
  {
    Quotient(k * INODE_SIZE, ss, sectors);
  }

  lemma OffsetFits(k: nat, ss: nat)
    requires ss > 0 && ss % INODE_SIZE == 0
    ensures k * INODE_SIZE % ss + INODE_SIZE <= ss
  {
    var q := ss / INODE_SIZE;
    assert ss == 128 * q;
    Remainder(k, q);
  }

  function InodeAt(l: Layout, image: seq<bytes>, i: nat): Inode
    requires l.Valid() && WellSized(l.G(), image) && 1 <= i <= l.inodeCount
  {
    InodePlace(l, i);
    var o := InodeOffset(l, i);
    InodeFrom(image[InodeSector(l, i)][o..o + INODE_SIZE])
  }

  // ------------------------------------------------------------- directories

  /** How a directory's entries are read from its inode and its sectors; None if they
      cannot be. The results hold for any such function. */
  type Reader = (Inode, seq<bytes>) -> Option<seq<Dirent>>

  function ExtentData(image: seq<bytes>, e: Extent): seq<bytes> {
    if e.start + e.len <= |image| then image[e.start..e.start + e.len] else []
  }

  function DirData(image: seq<bytes>, es: seq<Extent>): seq<bytes> {
    if es == [] then [] else DirData(image, es[..|es| - 1]) + ExtentData(image, es[|es| - 1])
  }

  function ListingAt(l: Layout, read: Reader, image: seq<bytes>, i: nat): Option<seq<Dirent>>
    requires l.Valid() && WellSized(l.G(), image) && 1 <= i <= l.inodeCount
  {
    var n := InodeAt(l, image, i);
    if n.number == i && n.kind.Directory? then read(n, DirData(image, n.extents)) else None
  }

  /** The volume as the checker sees it. */
  function Decoded(l: Layout, read: Reader, image: seq<bytes>): (v: Volume)
    requires l.Valid() && WellSized(l.G(), image)
    ensures |v.inodes| == |v.listings| == l.inodeCount && v.total == l.total && v.dataStart == l.dataStart && v.sectorSize == l.sectorSize
    ensures forall i: nat | 1 <= i <= l.inodeCount :: v.At(i) == InodeAt(l, image, i) && v.listings[i - 1] == ListingAt(l, read, image, i)
  {
    var v := Volume(l.total, l.dataStart, l.sectorSize, l.root,
                    seq(l.inodeCount, i requires 0 <= i < l.inodeCount => InodeAt(l, image, i + 1)),
                    seq(l.inodeCount, i requires 0 <= i < l.inodeCount => ListingAt(l, read, image, i + 1)));
    v
  }

  lemma DecodedMounted(l: Layout, read: Reader, image: seq<bytes>)
    requires l.Valid() && WellSized(l.G(), image)
    ensures Decoded(l, read, image).Mounted()
  {
    var v := Decoded(l, read, image);
    forall i | 0 <= i < |v.inodes|
      ensures |v.inodes[i].extents| == DIRECT_EXTENTS && v.inodes[i].size < TWO64 && v.inodes[i].links <= UINT32_MAX
    {
      assert v.At(i + 1) == InodeAt(l, image, i + 1);
      InodePlace(l, i + 1);
      var o := InodeOffset(l, i + 1);
      InodeFromBounds(image[InodeSector(l, i + 1)][o..o + INODE_SIZE]);
    }
  }

  // ---------------------------------------------------- what repair may touch

  /** Two images that differ in bitmap sectors only. */
  ghost predicate SameButBitmap(l: Layout, a: seq<bytes>, b: seq<bytes>) {
    |a| == |b| == l.total && forall s | 0 <= s < l.total && !l.InBitmap(s) :: a[s] == b[s]
  }

  lemma InodeSame(l: Layout, a: seq<bytes>, b: seq<bytes>, i: nat)
    requires l.Valid() && WellSized(l.G(), a) && WellSized(l.G(), b) && SameButBitmap(l, a, b) && 1 <= i <= l.inodeCount
    ensures InodeAt(l, a, i) == InodeAt(l, b, i)
  {
    InodePlace(l, i);
  }

  lemma {:induction false} DirDataSame(l: Layout, a: seq<bytes>, b: seq<bytes>, es: seq<Extent>)
    requires l.Valid() && SameButBitmap(l, a, b) && forall k | 0 <= k < |es| && es[k].len > 0 :: l.dataStart <= es[k].start
    ensures DirData(a, es) == DirData(b, es)
  {
    if es != [] {
      DirDataSame(l, a, b, es[..|es| - 1]);
      var e := es[|es| - 1];
      assert ExtentData(a, e) == ExtentData(b, e);
    }
  }

  /** Inodes and directories do not depend on the bitmap. */
  lemma DecodedSame(l: Layout, read: Reader, a: seq<bytes>, b: seq<bytes>)
    requires l.Valid() && WellSized(l.G(), a) && WellSized(l.G(), b) && SameButBitmap(l, a, b)
    requires Decoded(l, read, a).Mounted() && Structured(Decoded(l, read, a))
    ensures Decoded(l, read, b) == Decoded(l, read, a)
  {
    var v, w := Decoded(l, read, a), Decoded(l, read, b);
    forall i: nat | 1 <= i <= l.inodeCount ensures v.At(i) == w.At(i) && v.listings[i - 1] == w.listings[i - 1] {
      InodeSame(l, a, b, i);
      if v.At(i).number == i {
        assert WellFormed(v, i);
        DirDataSame(l, a, b, v.At(i).extents);
      }
    }
    assert v.inodes == w.inodes by {
      forall k | 0 <= k < l.inodeCount ensures v.inodes[k] == w.inodes[k] {
        assert v.At(k + 1) == w.At(k + 1);
      }
    }
    assert v.listings == w.listings by {
      forall k | 0 <= k < l.inodeCount ensures v.listings[k] == w.listings[k] {
        assert v.listings[k + 1 - 1] == w.listings[k + 1 - 1];
      }
    }
  }

  // -------------------------------------------------------------- the bitmap

  /** Bit `k` of a number. */
  function Bit(n: nat, k: nat): bool
    decreases k
  {
    if k == 0 then n % 2 == 1 else Bit(n / 2, k - 1)
  }

  /** The number with these bits, lowest first. */
  function Number(w: seq<bool>): (n: nat)
    ensures n < Pow2(|w|)
  {
    if w == [] then 0 else (if w[0] then 1 else 0) + 2 * Number(w[1..])
  }

  lemma {:induction false} BitOfNumber(w: seq<bool>, k: nat)
    requires k < |w|
    ensures Bit(Number(w), k) == w[k]
    decreases k
  {
    if k > 0 {
      BitOfNumber(w[1..], k - 1);
    }
  }

  function PackByte(w: seq<bool>): byte
    requires |w| == 8
  {
    assert Pow2(4) == 16 && Pow2(8) == 256;
    Number(w)
  }

  /** The bits of a sector, lowest bit of the first byte first. */
  function SectorBits(b: bytes): (w: seq<bool>)
    ensures |w| == 8 * |b|
  {
    seq(8 * |b|, j requires 0 <= j < 8 * |b| => Bit(b[j / 8], j % 8))
  }

  function Pack(w: seq<bool>, size: nat): (b: bytes)
    requires |w| == 8 * size
    ensures |b| == size
  {
    seq(size, i requires 0 <= i < size => PackByte(w[8 * i..8 * i + 8]))
  }

  lemma BitsOfPack(w: seq<bool>, size: nat)
    requires |w| == 8 * size
    ensures SectorBits(Pack(w, size)) == w
  {
    forall j | 0 <= j < |w| ensures SectorBits(Pack(w, size))[j] == w[j] {
      var i := j / 8;
      BitOfNumber(w[8 * i..8 * i + 8], j % 8);
    }
  }

  /** The bits of the first `n` bitmap sectors. */
  function BitsUpTo(l: Layout, image: seq<bytes>, n: nat): seq<bool>
    requires l.bitmap + n <= |image|
  {
    if n == 0 then [] else BitsUpTo(l, image, n - 1) + SectorBits(image[l.bitmap + n - 1])
  }

  function BitsOf(l: Layout, image: seq<bytes>): seq<bool>
    requires l.bitmap + l.bitmapSectors <= |image|
  {
    BitsUpTo(l, image, l.bitmapSectors)
  }

  /** The bits repair wants in bitmap sector `n`. */
  ghost function WantedBits(l: Layout, v: Volume, n: nat): (w: seq<bool>)
    ensures |w| == l.Chunk()
  {
    seq(l.Chunk(), k requires 0 <= k < l.Chunk() => Belongs(v, l.First(n) + k))
  }

  method ComputeWanted(l: Layout, v: Volume, n: nat) returns (bits: seq<bool>)
    ensures bits == WantedBits(l, v, n)
  {
    bits := Wanted(v, l.First(n), l.Chunk());
  }

  lemma RebuiltGrows(l: Layout, v: Volume, n: nat)
    ensures Rebuilt(v, l.First(n + 1)) == Rebuilt(v, l.First(n)) + WantedBits(l, v, n)
  {
  }

  /** Bitmap sector `n` holds the bits repair wants there. */
  ghost predicate Mended(l: Layout, v: Volume, image: seq<bytes>, n: nat) {
    l.bitmap + n < |image| && SectorBits(image[l.bitmap + n]) == WantedBits(l, v, n)
  }

  lemma {:induction false} MendedBits(l: Layout, v: Volume, image: seq<bytes>, n: nat)
    requires l.bitmap + n <= |image| && forall j | 0 <= j < n :: Mended(l, v, image, j)
    ensures BitsUpTo(l, image, n) == Rebuilt(v, l.First(n))
  {
    if n > 0 {
      MendedBits(l, v, image, n - 1);
      assert Mended(l, v, image, n - 1);
      RebuiltGrows(l, v, n - 1);
    }
  }
}
