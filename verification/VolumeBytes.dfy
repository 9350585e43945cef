/** The on-disk format of a volume, byte by byte: where each inode field and each
    allocation bit lies, and how directory records are read. */
module VolumeBytes {
  import opened Common
  import opened Bytes
  import opened Journal
  import opened Fsck
  import opened VolumeImage
  import D = DirRecords
  import Dir = Directory

  // ----------------------------------------------------------------- regions

  ghost predicate AllSized(secs: seq<bytes>, ss: nat) {
    forall k | 0 <= k < |secs| :: |secs[k]| == ss
  }

  /** Byte `o` of sector `j`, in the bytes of all sectors one after the other. */
  lemma {:induction false} FlatAt(secs: seq<bytes>, ss: nat, j: nat, o: nat)
    requires AllSized(secs, ss) && j < |secs| && o < ss
    ensures |Dir.Flat(secs)| == Times(|secs|, ss) && Times(j, ss) + o < |Dir.Flat(secs)|
    ensures Dir.Flat(secs)[Times(j, ss) + o] == secs[j][o]
    decreases |secs|
  {
    FlatSize(secs, ss);
    FlatSize(secs[1..], ss);
    if j > 0 {
      FlatAt(secs[1..], ss, j - 1, o);
    }
  }

  lemma {:induction false} FlatSize(secs: seq<bytes>, ss: nat)
    requires AllSized(secs, ss)
    ensures |Dir.Flat(secs)| == Times(|secs|, ss)
    decreases |secs|
  {
    if secs != [] {
      FlatSize(secs[1..], ss);
    }
  }

  lemma {:induction false} FlatMore(secs: seq<bytes>, b: bytes)
    ensures Dir.Flat(secs + [b]) == Dir.Flat(secs) + b
    decreases |secs|
  {
    if secs == [] {
      assert [b][1..] == [];
    } else {
      FlatMore(secs[1..], b);
      assert (secs + [b])[1..] == secs[1..] + [b];
    }
  }

  // ------------------------------------------------------------- inode table

  /** The bytes of the inode table. */
  function Table(l: Layout, image: seq<bytes>): (t: bytes)
    requires l.Valid() && WellSized(l.G(), image)
    ensures |t| == Times(l.inodeSectors, l.sectorSize) >= 128 * l.inodeCount
  {
    var secs := image[l.inodeTable..l.inodeTable + l.inodeSectors];
    FlatSize(secs, l.sectorSize);
    Dir.Flat(secs)
  }

  lemma Divided(x: nat, ss: nat)
    requires ss > 0
    ensures x == Times(x / ss, ss) + x % ss
  {
    TimesIs(x / ss, ss);
  }

  /** The 128 bytes inode `i` is read from. */
  function InodeBytes(l: Layout, image: seq<bytes>, i: nat): (b: bytes)
    requires l.Valid() && WellSized(l.G(), image) && 1 <= i <= l.inodeCount
    ensures |b| == 128
  {
    InodePlace(l, i);
    image[InodeSector(l, i)][InodeOffset(l, i)..InodeOffset(l, i) + 128]
  }

  lemma ByteThere(l: Layout, image: seq<bytes>, j: nat, o: nat)
    requires l.Valid() && WellSized(l.G(), image) && j < l.inodeSectors && o < l.sectorSize
    ensures Times(j, l.sectorSize) + o < |Table(l, image)|
    ensures Table(l, image)[Times(j, l.sectorSize) + o] == image[l.inodeTable + j][o]
  {
    var secs := image[l.inodeTable..l.inodeTable + l.inodeSectors];
    FlatAt(secs, l.sectorSize, j, o);
  }

  /** 128 bytes at offset `o` of sector `j` of the table. */
  lemma Stretch(l: Layout, image: seq<bytes>, j: nat, o: nat, at: nat)
    requires l.Valid() && WellSized(l.G(), image) && j < l.inodeSectors && o + 128 <= l.sectorSize
    requires at == Times(j, l.sectorSize) + o && at + 128 <= |Table(l, image)|
    ensures image[l.inodeTable + j][o..o + 128] == Table(l, image)[at..at + 128]
  {
    var b, t := image[l.inodeTable + j][o..o + 128], Table(l, image);
    forall k: nat | k < 128 ensures b[k] == t[at + k] {
      ByteThere(l, image, j, o + k);
    }
  }

  /** Inode `i` is read from the 128 bytes at 128 * (i - 1) of the table. */
  lemma InodeInTable(l: Layout, image: seq<bytes>, i: nat)
    requires l.Valid() && WellSized(l.G(), image) && 1 <= i <= l.inodeCount
    ensures InodeBytes(l, image, i) == Table(l, image)[128 * (i - 1)..128 * i]
    ensures InodeAt(l, image, i) == InodeFrom(InodeBytes(l, image, i))
  {
    InodePlace(l, i);
    Divided((i - 1) * INODE_SIZE, l.sectorSize);
    Stretch(l, image, InodeSector(l, i) - l.inodeTable, InodeOffset(l, i), 128 * (i - 1));
  }

  /** Each field of an inode at its place in the bytes: number, mode, size, the four
      starts, the four lengths, links. */
  lemma InodeFields(b: bytes)
    requires |b| == 128
    ensures var n := InodeFrom(b);
            && n.number == Eight(b, 0) && n.size == Eight(b, 24) && n.links == Four(b, 104)
            && |n.extents| == 4
            && n.extents[0].start == Eight(b, 40) && n.extents[0].len == Eight(b, 72)
            && n.extents[1].start == Eight(b, 48) && n.extents[1].len == Eight(b, 80)
            && n.extents[2].start == Eight(b, 56) && n.extents[2].len == Eight(b, 88)
            && n.extents[3].start == Eight(b, 64) && n.extents[3].len == Eight(b, 96)
  {
    EightIs(b, 0);
    EightIs(b, 24);
    FourIs(b, 104);
    EightIs(b, 40);
    EightIs(b, 48);
    EightIs(b, 56);
    EightIs(b, 64);
    EightIs(b, 72);
    EightIs(b, 80);
    EightIs(b, 88);
    EightIs(b, 96);
  }

  /** The type of an inode is the high half of byte 9. */
  lemma InodeKind(b: bytes)
    requires |b| == 128
    ensures var k, t := InodeFrom(b).kind, b[9] / 16;
            && (k == Regular <==> t == 8) && (k == Directory <==> t == 4) && (k == Symlink <==> t == 10)
  {
    FourIs(b, 8);
    TypeHalf(b[8], b[9], b[10] as int + 0x100 * b[11] as int);
  }

  lemma TypeHalf(a: byte, b: byte, c: nat)
    ensures (a as int + 0x100 * b as int + 0x1_0000 * c) / 0x1000 % 16 == b as int / 16
  {
    var t, r := b as int / 16, b as int % 16;
    var low := a as int + 0x100 * r;
    assert a as int + 0x100 * b as int + 0x1_0000 * c == 0x1000 * (t + 16 * c) + low;
    assert (0x1000 * (t + 16 * c) + low) / 0x1000 == t + 16 * c;
  }

  // ------------------------------------------------------------------ bitmap

  lemma BitsJoin(a: bytes, b: bytes)
    ensures SectorBits(a + b) == SectorBits(a) + SectorBits(b)
  {
    var w := SectorBits(a) + SectorBits(b);
    forall j | 0 <= j < |w| ensures SectorBits(a + b)[j] == w[j] {
      if j >= 8 * |a| {
        assert (j - 8 * |a|) / 8 == j / 8 - |a|;
      }
    }
  }

  lemma {:induction false} BitsAreFlat(l: Layout, image: seq<bytes>, n: nat)
    requires l.bitmap + n <= |image|
    ensures BitsUpTo(l, image, n) == SectorBits(Dir.Flat(image[l.bitmap..l.bitmap + n]))
  {
    if n > 0 {
      BitsAreFlat(l, image, n - 1);
      var before, last := image[l.bitmap..l.bitmap + n - 1], image[l.bitmap + n - 1];
      assert image[l.bitmap..l.bitmap + n] == before + [last];
      FlatMore(before, last);
      BitsJoin(Dir.Flat(before), last);
    }
  }

  /** Bit `k` of a byte, written out. */
  predicate BitSet(b: byte, k: nat)
    requires k < 8
  {
    match k
    case 0 => b % 2 == 1
    case 1 => b / 2 % 2 == 1
    case 2 => b / 4 % 2 == 1
    case 3 => b / 8 % 2 == 1
    case 4 => b / 16 % 2 == 1
    case 5 => b / 32 % 2 == 1
    case 6 => b / 64 % 2 == 1
    case _ => b / 128 % 2 == 1
  }

  lemma {:induction false} BitIs(b: byte, k: nat)
    requires k < 8
    ensures Bit(b, k) == BitSet(b, k)
    decreases k
  {
    if k > 0 {
      BitIs(b / 2, k - 1);
      Halved(b, k);
    }
  }

  lemma Halved(b: byte, k: nat)
    requires 0 < k < 8
    ensures BitSet(b, k) == BitSet(b / 2, k - 1)
  {
  }

  /** Sector `s` counts as allocated exactly when bit `s % 8` is set in byte `s / 8`
      of the bitmap sectors one after the other. */
  lemma AllocatedBit(l: Layout, image: seq<bytes>, s: nat)
    requires l.Valid() && WellSized(l.G(), image) && s < |BitsOf(l, image)|
    ensures var map_ := Dir.Flat(image[l.bitmap..l.bitmap + l.bitmapSectors]);
            s / 8 < |map_| && (BitsOf(l, image)[s] <==> BitSet(map_[s / 8], s % 8))
  {
    BitsAreFlat(l, image, l.bitmapSectors);
    var m := Dir.Flat(image[l.bitmap..l.bitmap + l.bitmapSectors]);
    BitIs(m[s / 8], s % 8);
  }
}
