/** A small volume in bytes, with a different value in every inode field: a root
    directory with one file, whose four extents leave one sector between them free.
    The checker finds it clean. */
module VolumeSample {
  import opened Common
  import opened Bytes
  import opened Disk
  import opened Journal
  import opened JournalFormat
  import opened Fsck
  import opened VolumeImage
  import opened VolumeBytes
  import opened DirReading
  import opened FsckDevice
  import J = JournalDriver
  import Dir = Directory
  import D = DirRecords

  function SampleLayout(sum: bytes -> u64): Layout {
    Layout(16, 512, 1, 1, 4, 1, 2, 1, 3, 2, 5, sum)
  }

  /** Inode 1: mode 0x41ED, 512 bytes in sector 5. */
  function RootByte(k: nat): byte {
    if k == 0 then 1 else if k == 8 then 0xED else if k == 9 then 0x41 else if k == 25 then 2
    else if k == 32 then 7 else if k == 40 then 5 else if k == 72 then 1 else if k == 104 then 2 else 0
  }

  /** Inode 2: mode 0x81A4, user 100, group 20, 4100 bytes in sectors 6, 7, 9 to 11 and
      12 to 15, generation 8, one link. */
  function FileByte(k: nat): byte {
    if k == 0 then 2 else if k == 8 then 0xA4 else if k == 9 then 0x81 else if k == 12 then 100
    else if k == 16 then 20 else if k == 24 then 4 else if k == 25 then 0x10 else if k == 32 then 8
    else if k == 40 then 6 else if k == 48 then 7 else if k == 56 then 9 else if k == 64 then 12
    else if k == 72 then 1 else if k == 80 then 1 else if k == 88 then 3 else if k == 96 then 4
    else if k == 104 then 1 else 0
  }

  /** One record of 512 bytes: inode 2, a file, named "a". */
  function RecordByte(k: nat): byte {
    if k == 0 then 2 else if k == 9 then 2 else if k == 10 then 2 else if k == 11 then 1
    else if k == 16 then 97 else 0
  }

  function SampleByte(s: nat, k: nat): byte {
    if s == 1 then (if k < 128 then RootByte(k) else if k < 256 then FileByte(k - 128) else 0)
    else if s == 2 then (if k == 0 then 0xFF else if k == 1 then 0xFE else 0)
    else if s == 5 then RecordByte(k)
    else 0
  }

  function SampleSector(s: nat): (b: bytes)
    ensures |b| == 512 && forall k | 0 <= k < 512 :: b[k] == SampleByte(s, k)
  {
    seq(512, k requires 0 <= k < 512 => SampleByte(s, k))
  }

  function SampleImage(): (image: seq<bytes>)
    ensures |image| == 16 && forall s | 0 <= s < 16 :: image[s] == SampleSector(s)
  {
    seq(16, s requires 0 <= s < 16 => SampleSector(s))
  }

  const NONE := Extent(0, 0)

  function SampleVolume(): Volume {
    Volume(16, 5, 512, 1,
           [Inode(1, Directory, 512, [Extent(5, 1), NONE, NONE, NONE], 2),
            Inode(2, Regular, 4100, [Extent(6, 1), Extent(7, 1), Extent(9, 3), Extent(12, 4)], 1),
            Inode(0, Other, 0, [NONE, NONE, NONE, NONE], 0), Inode(0, Other, 0, [NONE, NONE, NONE, NONE], 0)],
           [Some([Dirent(2, Regular)]), None, None, None])
  }

  // -------------------------------------------------------- reading the bytes

  lemma RootInode(b: bytes)
    requires |b| == 128 && forall k | 0 <= k < 128 :: b[k] == RootByte(k)
    ensures InodeFrom(b) == SampleVolume().inodes[0]
  {
    InodeFields(b);
    InodeKind(b);
  }

  lemma FileInode(b: bytes)
    requires |b| == 128 && forall k | 0 <= k < 128 :: b[k] == FileByte(k)
    ensures InodeFrom(b) == SampleVolume().inodes[1]
  {
    InodeFields(b);
    InodeKind(b);
  }

  lemma FreeInode(b: bytes)
    requires |b| == 128 && forall k | 0 <= k < 128 :: b[k] == 0
    ensures InodeFrom(b) == SampleVolume().inodes[2]
  {
    InodeFields(b);
    InodeKind(b);
  }

  lemma SampleSized(sum: bytes -> u64)
    ensures SampleLayout(sum).Valid() && WellSized(SampleLayout(sum).G(), SampleImage())
  {
    assert Times(1, 512) == Times(0, 512) + 512;
  }

  lemma OneSector(i: nat)
    requires 1 <= i <= 4
    ensures (i - 1) * INODE_SIZE / 512 == 0 && (i - 1) * INODE_SIZE % 512 == 128 * (i - 1)
  {
  }

  lemma SampleInode(b: bytes, i: nat)
    requires 1 <= i <= 4 && |b| == 128 && forall k | 0 <= k < 128 :: b[k] == SampleByte(1, 128 * (i - 1) + k)
    ensures InodeFrom(b) == SampleVolume().inodes[i - 1]
  {
    if i == 1 {
      RootInode(b);
    } else if i == 2 {
      FileInode(b);
    } else {
      FreeInode(b);
    }
  }

  lemma SampleInodes(sum: bytes -> u64, i: nat)
    requires 1 <= i <= 4 && SampleLayout(sum).Valid() && WellSized(SampleLayout(sum).G(), SampleImage())
    ensures InodeAt(SampleLayout(sum), SampleImage(), i) == SampleVolume().inodes[i - 1]
  {
    var b := SampleSector(1)[128 * (i - 1)..128 * i];
    OneSector(i);
    SampleInode(b, i);
    assert InodeAt(SampleLayout(sum), SampleImage(), i) == InodeFrom(b);
  }

  lemma RootListing(n: Inode, b: bytes)
    requires n.size == 512 && |b| == 512 && forall k | 0 <= k < 512 :: b[k] == RecordByte(k)
    ensures ReadDir(n, [b]) == Some([Dirent(2, Regular)])
  {
    var secs := [b];
    assert secs[1..] == [] && Dir.Flat(secs) == b + Dir.Flat([]) == b;
    EightIs(b, 0);
    assert D.Ino(b, 0) == Field(b, 0, 8) == 2 && D.Size(b, 0) == 512 && D.NameLen(b, 0) == 1;
    var entry, nothing: seq<Dirent> := [Dirent(2, Regular)], [];
    assert ReadFrom(b, 512, 512, 512) == Some(nothing) && entry + nothing == entry;
    assert ReadFrom(b, 512, 512, 0) == Some([Dirent(2, KindOfType(b[10]))] + nothing);
  }

  lemma RootData(image: seq<bytes>, es: seq<Extent>)
    requires |image| == 16 && es == [Extent(5, 1), NONE, NONE, NONE]
    ensures DirData(image, es) == [image[5]]
  {
    var e3, e2, e1, e0: seq<Extent> := es[..3], es[..2], es[..1], es[..0];
    assert e3[..2] == e2 && e2[..1] == e1 && e1[..0] == e0;
    assert DirData(image, e0) == [];
    assert DirData(image, e1) == DirData(image, e0) + ExtentData(image, e1[0]);
    assert DirData(image, e2) == DirData(image, e1) + ExtentData(image, e2[1]);
    assert DirData(image, e3) == DirData(image, e2) + ExtentData(image, e3[2]);
    assert ExtentData(image, NONE) == [] && ExtentData(image, Extent(5, 1)) == [image[5]];
  }

  /** What the checker reads from the sample. */
  lemma SampleDecoded(sum: bytes -> u64)
    requires SampleLayout(sum).Valid() && WellSized(SampleLayout(sum).G(), SampleImage())
    ensures Decoded(SampleLayout(sum), ReadDir, SampleImage()) == SampleVolume()
  {
    var l, image := SampleLayout(sum), SampleImage();
    var v, w := Decoded(l, ReadDir, image), SampleVolume();
    forall k | 0 <= k < 4 ensures v.inodes[k] == w.inodes[k] && v.listings[k] == w.listings[k] {
      var i := k + 1;
      SampleInodes(sum, i);
      assert v.At(i) == InodeAt(l, image, i) && v.listings[i - 1] == ListingAt(l, ReadDir, image, i);
      if i == 1 {
        RootData(image, w.inodes[0].extents);
        RootListing(w.inodes[0], image[5]);
      }
    }
    assert v.inodes == w.inodes && v.listings == w.listings;
  }

  lemma SixteenBits(b: bytes, s: nat)
    requires |b| == 512 && b[0] == 0xFF && b[1] == 0xFE && s < 16
    ensures SectorBits(b)[s] <==> s != 8
  {
    if s < 8 {
      BitIs(0xFF, s);
    } else {
      BitIs(0xFE, s - 8);
      assert s / 8 == 1 && s % 8 == s - 8;
    }
  }

  lemma SampleBits(sum: bytes -> u64, s: nat)
    requires SampleLayout(sum).Valid() && WellSized(SampleLayout(sum).G(), SampleImage()) && s < 16
    ensures |BitsOf(SampleLayout(sum), SampleImage())| == 4096
    ensures BitsOf(SampleLayout(sum), SampleImage())[s] <==> s != 8
  {
    var l, image := SampleLayout(sum), SampleImage();
    assert BitsUpTo(l, image, 0) == [];
    assert BitsOf(l, image) == SectorBits(image[2]);
    SixteenBits(image[2], s);
  }

  // ----------------------------------------------------------- why it is clean

  lemma SampleSectors(s: nat)
    ensures s in Sectors(SampleVolume().inodes[0].extents, 4) <==> s == 5
    ensures s in Sectors(SampleVolume().inodes[1].extents, 4) <==> 6 <= s < 16 && s != 8
  {
    FourSectors(SampleVolume().inodes[0].extents, s);
    FourSectors(SampleVolume().inodes[1].extents, s);
  }

  lemma FourSectors(es: seq<Extent>, s: nat)
    requires |es| == 4
    ensures s in Sectors(es, 4) <==> In(s, es[0]) || In(s, es[1]) || In(s, es[2]) || In(s, es[3])
  {
    assert Sectors(es, 4) == Sectors(es, 3) + Span(es[3]);
    assert Sectors(es, 3) == Sectors(es, 2) + Span(es[2]);
    assert Sectors(es, 2) == Sectors(es, 1) + Span(es[1]);
    assert Sectors(es, 1) == Sectors(es, 0) + Span(es[0]);
  }

  lemma SampleOwned()
    ensures OwnedBy(SampleVolume(), 1) == {5} && OwnedUpTo(SampleVolume(), 1) == {5}
    ensures OwnedBy(SampleVolume(), 2) == {6, 7, 9, 10, 11, 12, 13, 14, 15}
    ensures Owned(SampleVolume()) == {5, 6, 7, 9, 10, 11, 12, 13, 14, 15}
  {
    var v := SampleVolume();
    forall s: nat
      ensures s in OwnedBy(v, 1) <==> s == 5
      ensures s in OwnedBy(v, 2) <==> 6 <= s < 16 && s != 8
    {
      SampleSectors(s);
    }
    assert OwnedUpTo(v, 0) == {};
    assert OwnedUpTo(v, 2) == OwnedUpTo(v, 1) + OwnedBy(v, 2);
    assert OwnedUpTo(v, 3) == OwnedUpTo(v, 2) + OwnedBy(v, 3);
    assert OwnedUpTo(v, 4) == OwnedUpTo(v, 3) + OwnedBy(v, 4);
  }

  lemma SampleFormed()
    ensures SampleVolume().Mounted() && WellFormed(SampleVolume(), 1) && WellFormed(SampleVolume(), 2)
  {
    var v := SampleVolume();
    var es := v.inodes[1].extents;
    assert Separate(es) by {
      forall k, l | 0 <= k < l < 4 ensures Apart(es[k], es[l]) {
      }
    }
    assert Separate(v.inodes[0].extents);
    assert Lengths(es, 4) == Lengths(es, 3) + 4;
    assert Lengths(es, 3) == Lengths(es, 2) + 3;
    assert Lengths(es, 2) == Lengths(es, 1) + 1;
    assert v.Listing(1) == Some([Dirent(2, Regular)]) && v.Live(2);
  }

  lemma SampleLinks()
    ensures SampleVolume().Mounted() && GoodLinks(SampleVolume(), 2) && Reachable(SampleVolume(), 1) && Reachable(SampleVolume(), 2)
  {
    var v := SampleVolume();
    var ds := v.Listing(1).value;
    assert ds == [Dirent(2, Regular)] && Count(ds, 2, 1) == Count(ds, 2, 0) + 1;
    assert LinksUpTo(v, 2, 1) == LinksUpTo(v, 2, 0) + Count(ds, 2, 1);
    assert LinksUpTo(v, 2, 2) == LinksUpTo(v, 2, 1);
    assert LinksUpTo(v, 2, 3) == LinksUpTo(v, 2, 2);
    assert Reached(v, 1, 0);
    assert ds[0].inode == 2 && Names(v, 1, 2);
    assert Reached(v, 2, 1);
  }

  /** A volume whose only inodes are its root, 1, and a file, 2. */
  lemma TwoInodes(v: Volume)
    requires v.Mounted() && v.root == 1 && v.IsDir(1) && (forall i: nat | v.Live(i) :: i == 1 || i == 2) && v.Live(2)
    requires WellFormed(v, 1) && WellFormed(v, 2) && Reachable(v, 1) && Reachable(v, 2) && GoodLinks(v, 2)
    requires Unshared(v, 1) && Unshared(v, 2)
    ensures Structured(v)
  {
  }

  lemma SampleStructured()
    ensures SampleVolume().Mounted() && Structured(SampleVolume())
  {
    var v := SampleVolume();
    SampleFormed();
    SampleLinks();
    SampleUnshared();
    TwoInodes(v);
  }

  lemma SampleUnshared()
    ensures Unshared(SampleVolume(), 1) && Unshared(SampleVolume(), 2)
  {
    SampleOwned();
    assert OwnedUpTo(SampleVolume(), 0) == {};
  }

  lemma SampleExact(bits: seq<bool>)
    requires |bits| == 4096 && forall s | 0 <= s < 16 :: bits[s] <==> s != 8
    ensures BitmapExact(SampleVolume(), bits)
  {
    SampleOwned();
  }

  /** The whole check, on a device that holds the sample: it passes. */
  method CheckSample(sum: bytes -> u64) returns (disk: Device, code: int)
    ensures disk.faults == 0 ==> code == 0
  {
    disk := new Device(SampleImage());
    var l := SampleLayout(sum);
    SampleSized(sum);
    LayoutGeometry(l);
    var vol := new J.Volume(disk, l.G(), 0);
    assert Contents(disk.Snapshot()) == SampleImage();
    SampleQuiet(sum);
    code := CheckDevice(vol, l, ReadDir);
  }

  /** Nothing to replay, and a clean volume. */
  lemma SampleQuiet(sum: bytes -> u64)
    requires SampleLayout(sum).Valid() && SampleLayout(sum).G().Valid() && WellSized(SampleLayout(sum).G(), SampleImage())
    ensures ReplayOf(SampleLayout(sum).G(), SampleImage()).code == 0
    ensures Recovered(SampleLayout(sum).G(), SampleImage()) == SampleImage()
    ensures CleanImage(SampleLayout(sum), ReadDir, SampleImage())
  {
    LoadZeros(SampleImage()[3][0..8]);
    SampleIsClean(sum);
  }

  lemma SampleIsClean(sum: bytes -> u64)
    requires SampleLayout(sum).Valid() && WellSized(SampleLayout(sum).G(), SampleImage())
    ensures CleanImage(SampleLayout(sum), ReadDir, SampleImage())
  {
    var bits := BitsOf(SampleLayout(sum), SampleImage());
    forall s: nat | s < 16 ensures |bits| == 4096 && (bits[s] <==> s != 8) {
      SampleBits(sum, s);
    }
    SampleDecoded(sum);
    SampleStructured();
    SampleBits(sum, 0);
    SampleExact(bits);
  }
}
