/** A file the loader takes although the page of its entry point cannot be executed. */
module ElfRights {
  import opened Common
  import opened Bytes
  import opened ElfImage
  import opened ElfFormat

  const BASE: nat := 0x80_0000_0000

  /** Sixteen bytes of code at the first user address, and sixteen bytes of data half
      a page further: both segments lie on one page. */
  function ByteOfShared(k: nat): byte {
    if k < 64 then HeaderByte(k)
    else if k < 120 then ProgramByte(k - 64, 5, 0)
    else ProgramByte(k - 120, 6, 8)
  }

  function HeaderByte(k: nat): byte {
    if k == 0 then 0x7f else if k == 1 then 0x45 else if k == 2 then 0x4c else if k == 3 then 0x46
    else if k == 4 then 2 else if k == 5 || k == 6 || k == 20 then 1
    else if k == 18 then 62 else if k == 28 then 0x80 else if k == 32 || k == 52 then 64
    else if k == 54 then 56 else if k == 56 then 2 else 0
  }

  /** A load segment with these flags; `high` is the second byte of its address. */
  function ProgramByte(k: nat, flags: byte, high: byte): byte {
    if k == 0 then 1 else if k == 4 then flags else if k == 17 then high
    else if k == 20 then 0x80 else if k == 32 || k == 40 then 16 else 0
  }

  function SharedFile(): (f: bytes)
    ensures |f| == 176 && forall k | 0 <= k < 176 :: f[k] == ByteOfShared(k)
  {
    seq(176, k requires 0 <= k < 176 => ByteOfShared(k))
  }

  lemma LoadNext(b: bytes)
    requires |b| > 0
    ensures Load(b) == b[0] + 256 * Load(b[1..])
  {
  }

  /** A number with nothing above its first two bytes but, maybe, the fifth. */
  lemma {:induction false} FieldWide(f: bytes, at: nat, n: nat)
    requires (n == 4 || n == 8) && at + n <= |f| && f[at + 2] == f[at + 3] == 0
    requires n == 8 ==> f[at + 5] == f[at + 6] == f[at + 7] == 0
    ensures Field(f, at, n) == (f[at] as int) + 256 * (f[at + 1] as int) + if n == 8 then 0x1_0000_0000 * (f[at + 4] as int) else 0
  {
    var b := f[at..at + n];
    var d, e := b[2..], b[4..];
    LoadNext(b);
    LoadNext(b[1..]);
    assert b[1..][1..] == d;
    LoadNext(d);
    LoadNext(d[1..]);
    assert d[1..][1..] == e;
    if n == 8 {
      LoadNext(e);
      LoadZeros(e[1..]);
    }
  }

  ghost predicate Shared(f: bytes) {
    |f| == 176 && forall k | 0 <= k < 176 :: f[k] == ByteOfShared(k)
  }

  lemma SharedHeader(f: bytes)
    requires |f| == 176 && forall k | 0 <= k < 64 :: f[k] == HeaderByte(k)
    ensures HeaderOk(f)
    ensures ReadHeader(f).entry == BASE && ReadHeader(f).phoff == 64 && ReadHeader(f).phnum == 2
  {
    TwoIs(f, 18);
    FieldWide(f, 20, 4);
    FieldWide(f, 24, 8);
    FieldWide(f, 32, 8);
    TwoIs(f, 52);
    TwoIs(f, 54);
    TwoIs(f, 56);
  }

  lemma SharedProgram(f: bytes, at: nat, flags: byte, high: byte)
    requires at + 56 <= |f| && forall k | at <= k < at + 56 :: f[k] == ProgramByte(k - at, flags, high)
    ensures ReadProgram(f, at) == Program(PT_LOAD, flags, 0, BASE + 256 * (high as int), 16, 16, 0)
  {
    FieldWide(f, at, 4);
    FieldWide(f, at + 4, 4);
    FieldWide(f, at + 8, 8);
    FieldWide(f, at + 16, 8);
    FieldWide(f, at + 32, 8);
    FieldWide(f, at + 40, 8);
    FieldWide(f, at + 48, 8);
  }

  function Code(): Segment {
    Segment(0, BASE, 16, 16, false, true)
  }

  function Data(): Segment {
    Segment(0, BASE + 0x800, 16, 16, true, false)
  }

  lemma TwoLoads(ps: seq<Program>)
    requires ps == [Program(PT_LOAD, 5, 0, BASE, 16, 16, 0), Program(PT_LOAD, 6, 0, BASE + 0x800, 16, 16, 0)]
    ensures Loads(ps) == [Code(), Data()] && ValidPrograms(176, ps, BASE) && AllLoadable(176, ps)
  {
    var one := ps[..1];
    assert one[..0] == [] && one[0] == ps[0];
    assert SegmentOf(ps[0]) == Code() && SegmentOf(ps[1]) == Data();
    assert Loads(one) == [Code()];
    assert Loads(ps) == [Code(), Data()];
    assert EntryOk(Loads(ps), BASE) by {
      assert Loads(ps)[0].exec;
    }
  }

  lemma SharedAccepted(f: bytes)
    requires Shared(f)
    ensures Accepted(f) && Loads(Programs(f)) == [Code(), Data()] && ReadHeader(f).entry == BASE
  {
    SharedHeader(f);
    SharedProgram(f, 64, 5, 0);
    SharedProgram(f, 120, 6, 8);
    var ps := Programs(f);
    assert ps[0] == ProgramAt(f, 0) && ps[1] == ProgramAt(f, 1);
    TwoLoads(ps);
  }

  /** What loading `file` into an empty space makes of the page with its entry point. */
  ghost predicate EntryPage(file: bytes, r: PageImage) {
    HeaderOk(file) && PageAfter(file, Loads(Programs(file)), ReadHeader(file).entry / PAGE, r)
  }

  ghost predicate PageAfter(file: bytes, segs: seq<Segment>, p: nat, r: PageImage) {
    AllFit(file, segs) && p in WithSegments(file, segs, map[], |segs|) && r == WithSegments(file, segs, map[], |segs|)[p]
  }

  lemma SharedPage(f: bytes) returns (r: PageImage)
    requires |f| == 176
    ensures PageAfter(f, [Code(), Data()], BASE / PAGE, r) && r.nx && r.write
  {
    var segs, p := [Code(), Data()], BASE / PAGE;
    assert AllFit(f, segs) && segs[1].Touches(p);
    LastRights(f, segs, map[], 2, 1, p);
    r := WithSegments(f, segs, map[], 2)[p];
  }

  /** The loader takes some file and leaves the page of its entry point writable and
      not executable: a data segment on the same page comes later. */
  lemma EntryNotExecutable()
    ensures exists file: bytes, r: PageImage :: Accepted(file) && EntryPage(file, r) && r.nx && r.write
  {
    var f := SharedFile();
    SharedAccepted(f);
    var r := SharedPage(f);
    assert EntryPage(f, r);
  }
}
