/** Checking and repairing a volume on its device: mount with journal replay, read,
    and for a repair rewrite the bitmap sectors that differ. */
module FsckDevice {
  import opened Common
  import opened Bytes
  import opened Disk
  import opened Journal
  import opened JournalFormat
  import opened Fsck
  import opened VolumeImage
  import J = JournalDriver

  /** A driver for the volume that `l` describes. */
  ghost predicate Drives(vol: J.Volume, l: Layout)
    reads vol, vol.disk
  {
    l.Valid() && vol.Valid() && vol.g == l.G()
  }

  ghost function Reads(vol: J.Volume): seq<bytes>
    reads vol, vol.disk
  {
    Contents(vol.disk.Snapshot())
  }

  /** Mount: true if the replay got through. */
  method Mount(vol: J.Volume, l: Layout) returns (ok: bool)
    requires Drives(vol, l)
    modifies vol.disk
    ensures Drives(vol, l) && WellSized(l.G(), old(Reads(vol)))
    ensures ok ==> vol.disk.faults == old(vol.disk.faults) && ReplayOf(l.G(), old(Reads(vol))).code == 0
                   && Reads(vol) == Recovered(l.G(), old(Reads(vol))) && Decode(Reads(vol)[l.journal]) == Empty
    ensures vol.disk.faults == old(vol.disk.faults) ==> (ok <==> ReplayOf(l.G(), old(Reads(vol))).code == 0)
  {
    ghost var st := vol.disk.Snapshot();
    var code := vol.ReplayJournal(true);
    ok := code == 0;
    if ok {
      FinalReads(st, ReplayOf(l.G(), Contents(st)).program);
      RecoveredIsQuiet(l.G(), Contents(st));
    }
  }

  /** Everything the checker reads from the device. */
  method ReadAll(vol: J.Volume, l: Layout) returns (ok: bool, image: seq<bytes>)
    requires Drives(vol, l)
    modifies vol.disk`faults
    ensures Drives(vol, l) && (ok ==> image == Reads(vol) && WellSized(l.G(), image))
    ensures ok <==> vol.disk.faults == old(vol.disk.faults)
  {
    image := [];
    J.ContentsWellSized(l.G(), vol.disk.Snapshot());
    for s := 0 to l.total
      invariant |image| == s && image == Reads(vol)[..s] && vol.disk.faults == old(vol.disk.faults)
    {
      var data;
      ok, data := vol.disk.Read(s);
      if !ok {
        return;
      }
      image := image + [data];
    }
    ok := true;
  }

  /** The checker. */
  method CheckDevice(vol: J.Volume, l: Layout, read: Reader) returns (code: int)
    requires Drives(vol, l)
    modifies vol.disk
    ensures Drives(vol, l) && WellSized(l.G(), old(Reads(vol)))
    ensures code == 0 ==> vol.disk.faults == old(vol.disk.faults) && Reads(vol) == Recovered(l.G(), old(Reads(vol)))
    ensures vol.disk.faults == old(vol.disk.faults) ==>
              (code == 0 <==> ReplayOf(l.G(), old(Reads(vol))).code == 0 && CleanImage(l, read, Recovered(l.G(), old(Reads(vol)))))
  {
    var ok := Mount(vol, l);
    if !ok {
      return -2;
    }
    var image;
    ok, image := ReadAll(vol, l);
    if !ok {
      return -4;
    }
    DecodedMounted(l, read, image);
    code := Check(Decoded(l, read, image), BitsOf(l, image));
  }

  /** A clean volume, read from its sectors. */
  ghost predicate CleanImage(l: Layout, read: Reader, image: seq<bytes>)
    requires l.Valid()
  {
    && WellSized(l.G(), image) && Decoded(l, read, image).Mounted()
    && Clean(Decoded(l, read, image), BitsOf(l, image))
  }

  // ----------------------------------------------------------------- repair

  /** What a repair accepts: a sound structure, and a bitmap with at least the whole
      bytes it needs. */
  ghost predicate Repairable(l: Layout, read: Reader, image: seq<bytes>)
    requires l.Valid()
  {
    && WellSized(l.G(), image) && Decoded(l, read, image).Mounted() && Structured(Decoded(l, read, image))
    && Times(l.bitmapSectors, l.sectorSize) >= l.total / 8
  }

  /** Bitmap sectors below `n` are mended, everything else is as it was. */
  ghost predicate Mending(l: Layout, v: Volume, was: seq<bytes>, now: seq<bytes>, n: nat) {
    && SameButBitmap(l, was, now)
    && (forall j | 0 <= j < n :: Mended(l, v, now, j))
    && (forall s | l.bitmap + n <= s < l.total :: now[s] == was[s])
  }

  /** Bits of the first `n` bitmap sectors of `was` that were wrong. */
  ghost function Wrong(l: Layout, v: Volume, was: seq<bytes>, n: nat): nat {
    if n == 0 then 0 else Wrong(l, v, was, n - 1) + WrongIn(l, v, was, n - 1)
  }

  ghost function WrongIn(l: Layout, v: Volume, was: seq<bytes>, n: nat): nat {
    if l.bitmap + n < |was| && |was[l.bitmap + n]| == l.sectorSize
    then Differences(SectorBits(was[l.bitmap + n]), WantedBits(l, v, n), l.Chunk()) else 0
  }

  lemma MendNext(l: Layout, v: Volume, was: seq<bytes>, now: seq<bytes>, n: nat, want: bytes)
    requires l.bitmap + l.bitmapSectors <= l.total && n < l.bitmapSectors && Mending(l, v, was, now, n)
    requires SectorBits(want) == WantedBits(l, v, n)
    ensures Mending(l, v, was, now[l.bitmap + n := want], n + 1)
  {
    var after := now[l.bitmap + n := want];
    forall j | 0 <= j < n + 1 ensures Mended(l, v, after, j) {
      if j < n {
        assert Mended(l, v, now, j);
      }
    }
  }

  /** The device reads `now`. */
  ghost predicate ReadsAs(vol: J.Volume, l: Layout, now: seq<bytes>)
    reads vol, vol.disk
  {
    Drives(vol, l) && Reads(vol) == now
  }

  method Put(vol: J.Volume, l: Layout, s: nat, data: bytes, ghost now: seq<bytes>) returns (ok: bool, ghost next: seq<bytes>)
    requires ReadsAs(vol, l, now) && s < l.total && |data| == l.sectorSize
    modifies vol.disk
    ensures ReadsAs(vol, l, next) && (ok <==> vol.disk.faults == old(vol.disk.faults))
    ensures |now| == l.total && (next == now[s := data] || (next == now && !ok))
  {
    FlushOne(vol.disk.Snapshot(), s, data);
    ok := vol.SendWrite(s, data);
    next := Reads(vol);
  }

  /** Count the bits that are wrong in one bitmap sector, and write it if there are any. */
  method Rewrite(vol: J.Volume, l: Layout, s: nat, cur: bytes, bits: seq<bool>, ghost now: seq<bytes>)
    returns (ok: bool, changed: nat, ghost want: bytes, ghost next: seq<bytes>)
    requires ReadsAs(vol, l, now) && s < l.total && |cur| == l.sectorSize && |bits| == l.Chunk()
    requires |now| == l.total && cur == now[s]
    modifies vol.disk
    ensures ReadsAs(vol, l, next) && (ok <==> vol.disk.faults == old(vol.disk.faults))
    ensures changed == Differences(SectorBits(cur), bits, l.Chunk()) && |want| == l.sectorSize && SectorBits(want) == bits
    ensures next == now[s := want] || (next == now && !ok)
  {
    changed := CountDifferences(SectorBits(cur), bits);
    var buffer := Pack(bits, l.sectorSize);
    BitsOfPack(bits, l.sectorSize);
    ok, want, next := true, buffer, now;
    if cur == buffer {
      assert now == now[s := want];
    } else {
      ok, next := Put(vol, l, s, buffer, now);
    }
  }

  /** How the inodes and directories are read from an image. */
  type Decoder = seq<bytes> --> Volume

  /** Whatever the bitmap holds, `decode` reads `v`. */
  ghost predicate Stable(l: Layout, decode: Decoder, was: seq<bytes>, v: Volume) {
    forall now | Sized(l, now) && SameButBitmap(l, was, now) :: decode.requires(now) && decode(now) == v
  }

  ghost predicate Sized(l: Layout, image: seq<bytes>) {
    forall s | 0 <= s < |image| :: |image[s]| == l.sectorSize
  }

  /** One bitmap sector: rewritten if it differs from what the inodes on the device ask
      for. */
  method MendSector(vol: J.Volume, l: Layout, decode: Decoder, n: nat, ghost v: Volume, ghost was: seq<bytes>, ghost now: seq<bytes>)
    returns (ok: bool, changed: nat, ghost next: seq<bytes>)
    requires ReadsAs(vol, l, now) && n < l.bitmapSectors && Stable(l, decode, was, v) && Mending(l, v, was, now, n)
    modifies vol.disk
    ensures ReadsAs(vol, l, next) && (ok <==> vol.disk.faults == old(vol.disk.faults))
    ensures ok ==> Mending(l, v, was, next, n + 1) && changed == WrongIn(l, v, was, n)
    ensures SameButBitmap(l, was, next)
  {
    changed, next := 0, now;
    var cur, image;
    ok, cur := vol.disk.Read(l.bitmap + n);
    if !ok {
      return;
    }
    ok, image := ReadAll(vol, l);
    if !ok {
      return;
    }
    var bits := ComputeWanted(l, decode(image), n);
    ghost var want;
    ok, changed, want, next := Rewrite(vol, l, l.bitmap + n, cur, bits, now);
    MendNext(l, v, was, now, n, want);
  }

  /** The bitmap sectors in turn, and a flush. */
  method RepairBitmap(vol: J.Volume, l: Layout, decode: Decoder, ghost v: Volume, ghost was: seq<bytes>)
    returns (code: int, changed: nat, ghost now: seq<bytes>)
    requires ReadsAs(vol, l, was) && |was| == l.total && Stable(l, decode, was, v)
    modifies vol.disk
    ensures ReadsAs(vol, l, now) && (code == 0 <==> vol.disk.faults == old(vol.disk.faults)) && code != -2
    ensures SameButBitmap(l, was, now)
    ensures code == 0 ==> vol.disk.pending == [] && Mending(l, v, was, now, l.bitmapSectors)
                          && changed == Wrong(l, v, was, l.bitmapSectors)
  {
    changed, now := 0, was;
    for n := 0 to l.bitmapSectors
      invariant ReadsAs(vol, l, now) && vol.disk.faults == old(vol.disk.faults)
      invariant Mending(l, v, was, now, n) && changed == Wrong(l, v, was, n)
    {
      var ok, more;
      ok, more, now := MendSector(vol, l, decode, n, v, was, now);
      if !ok {
        return -6, 0, now;
      }
      changed := changed + more;
    }
    var ok := vol.SendFlush();
    code := if ok then 0 else -9;
  }

  /** Repair. Success means: the journal was replayed, the structure is sound, and the
      disk is the recovered one with every bitmap sector rebuilt, all of it durable. */
  method RepairDevice(vol: J.Volume, l: Layout, read: Reader) returns (code: int, changed: nat)
    requires Drives(vol, l) && l.BitmapBits() < TWO64
    modifies vol.disk
    ensures Drives(vol, l) && WellSized(l.G(), old(Reads(vol)))
    ensures code != -2 ==> SameButBitmap(l, Recovered(l.G(), old(Reads(vol))), Reads(vol))
    ensures code == 0 ==> vol.disk.faults == old(vol.disk.faults) && vol.disk.pending == []
                          && Repaired(l, read, Recovered(l.G(), old(Reads(vol))), Reads(vol), changed)
    ensures vol.disk.faults == old(vol.disk.faults) ==>
              (code == 0 <==> ReplayOf(l.G(), old(Reads(vol))).code == 0 && Repairable(l, read, Recovered(l.G(), old(Reads(vol)))))
  {
    changed := 0;
    var ok := Mount(vol, l);
    if !ok {
      return -2, 0;
    }
    ghost var was := Reads(vol);
    code := Accepts(vol, l, read, was);
    if code == 0 {
      ghost var v := Decoded(l, read, was);
      var decode := (image: seq<bytes>) requires l.Valid() && WellSized(l.G(), image) => Decoded(l, read, image);
      DecodingStable(l, read, was);
      ghost var now;
      code, changed, now := RepairBitmap(vol, l, decode, v, was);
      if code == 0 {
        RepairDone(l, read, was, now, v);
      }
    }
  }

  /** The structure check in front of a repair, and the size check of the bitmap. */
  method Accepts(vol: J.Volume, l: Layout, read: Reader, ghost was: seq<bytes>) returns (code: int)
    requires ReadsAs(vol, l, was)
    modifies vol.disk`faults
    ensures ReadsAs(vol, l, was) && code != -2
    ensures code == 0 ==> vol.disk.faults == old(vol.disk.faults) && Repairable(l, read, was)
    ensures vol.disk.faults == old(vol.disk.faults) ==> (code == 0 <==> Repairable(l, read, was))
  {
    var ok, image := ReadAll(vol, l);
    if !ok {
      return -3;
    }
    DecodedMounted(l, read, image);
    ok := StructureOk(Decoded(l, read, image));
    if !ok {
      return -3;
    }
    code := if Times(l.bitmapSectors, l.sectorSize) < l.total / 8 then -4 else 0;
  }

  /** `now` is `was` with its bitmap rebuilt; `changed` bits were wrong. */
  ghost predicate Repaired(l: Layout, read: Reader, was: seq<bytes>, now: seq<bytes>, changed: nat)
    requires l.Valid()
  {
    && Repairable(l, read, was) && WellSized(l.G(), now) && SameButBitmap(l, was, now)
    && Decode(now[l.journal]) == Empty
    && BitsOf(l, now) == Rebuilt(Decoded(l, read, was), l.BitmapBits())
    && changed == Wrong(l, Decoded(l, read, was), was, l.bitmapSectors)
  }

  /** Inodes and directories are read the same whatever the bitmap holds. */
  lemma DecodingStable(l: Layout, read: Reader, was: seq<bytes>)
    requires l.Valid() && Repairable(l, read, was)
    ensures forall now | Sized(l, now) && SameButBitmap(l, was, now) :: WellSized(l.G(), now) && Decoded(l, read, now) == Decoded(l, read, was)
  {
    forall now | Sized(l, now) && SameButBitmap(l, was, now)
      ensures WellSized(l.G(), now) && Decoded(l, read, now) == Decoded(l, read, was)
    {
      DecodedSame(l, read, was, now);
    }
  }

  lemma RepairDone(l: Layout, read: Reader, was: seq<bytes>, now: seq<bytes>, v: Volume)
    requires l.Valid() && Repairable(l, read, was) && Decode(was[l.journal]) == Empty && WellSized(l.G(), now)
    requires v == Decoded(l, read, was) && Mending(l, v, was, now, l.bitmapSectors)
    ensures Repaired(l, read, was, now, Wrong(l, v, was, l.bitmapSectors))
  {
    MendedBits(l, v, now, l.bitmapSectors);
  }

  /** After a repair the next mount replays nothing and finds the same inodes and
      directories, and the check passes exactly when the bitmap has a bit for every
      sector. */
  lemma RepairedDevice(l: Layout, read: Reader, was: seq<bytes>, now: seq<bytes>, changed: nat)
    requires l.Valid() && Repaired(l, read, was, now, changed)
    ensures l.G().Valid() && ReplayOf(l.G(), now).code == 0 && Recovered(l.G(), now) == now
    ensures Decoded(l, read, now) == Decoded(l, read, was)
    ensures CleanImage(l, read, now) <==> l.total <= l.BitmapBits()
  {
    LayoutGeometry(l);
    DecodedSame(l, read, was, now);
    RepairedIsClean(Decoded(l, read, was), l.BitmapBits());
  }

  /** What a repair leaves marked: the sectors in front of the data area and those of
      some extent, and nothing else. */
  lemma RepairedMarks(l: Layout, read: Reader, was: seq<bytes>, now: seq<bytes>, changed: nat, s: nat)
    requires l.Valid() && Repaired(l, read, was, now, changed) && s < |BitsOf(l, now)|
    ensures BitsOf(l, now)[s] <==>
              s < l.total && (s < l.dataStart || exists i: nat, k: nat :: Holds(Decoded(l, read, was), i, k, s))
  {
    BelongsExactlyWhen(Decoded(l, read, was), s);
  }

  /** Repair, lose power, and check: a clean verdict exactly when the bitmap covers the
      disk. */
  method RepairThenCheck(vol: J.Volume, l: Layout, read: Reader) returns (repaired: int, checked: int)
    requires Drives(vol, l) && l.BitmapBits() < TWO64
    modifies vol.disk
    ensures repaired == 0 && vol.disk.faults == old(vol.disk.faults) ==> (checked == 0 <==> l.total <= l.BitmapBits())
  {
    var changed;
    repaired, changed := RepairDevice(vol, l, read);
    checked := -1;
    if repaired == 0 {
      RepairedDevice(l, read, Recovered(l.G(), old(Reads(vol))), Reads(vol), changed);
      checked := CheckDevice(vol, l, read);
    }
  }
}
