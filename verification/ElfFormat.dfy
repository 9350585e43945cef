/** 64-bit ELF files: headers out of bytes, and the checks a file must pass. */
module ElfFormat {
  import opened Common
  import opened Bytes
  import opened ElfImage

  const EHDR_SIZE: nat := 64
  const PHDR_SIZE: nat := 56
  const PT_LOAD: nat := 1
  const MAX_LOADS: nat := 64
  const USER_VA_MIN: nat := 0x80_0000_0000
  const USER_VA_MAX: nat := 0x8000_0000_0000

  datatype Header = Header(machine: nat, version: nat, entry: nat, phoff: nat, ehsize: nat, phentsize: nat, phnum: nat)

  datatype Program = Program(kind: nat, flags: nat, offset: nat, vaddr: nat, filesz: nat, memsz: nat, align: nat)

  function ReadHeader(file: bytes): Header
    requires |file| >= EHDR_SIZE
  {
    Header(Field(file, 18, 2), Field(file, 20, 4), Field(file, 24, 8), Field(file, 32, 8),
           Field(file, 52, 2), Field(file, 54, 2), Field(file, 56, 2))
  }

  function ReadProgram(file: bytes, at: nat): Program
    requires at + PHDR_SIZE <= |file|
  {
    Program(Field(file, at, 4), Field(file, at + 4, 4), Field(file, at + 8, 8), Field(file, at + 16, 8),
            Field(file, at + 32, 8), Field(file, at + 40, 8), Field(file, at + 48, 8))
  }

  predicate Writable(p: Program) {
    p.flags / 2 % 2 == 1
  }

  predicate Executable(p: Program) {
    p.flags % 2 == 1
  }

  predicate PowerOfTwo(v: nat) {
    v == 1 || (v > 1 && v % 2 == 0 && PowerOfTwo(v / 2))
  }

  /** A sum of two 64-bit words. */
  function WrapAdd(a: nat, b: nat): nat {
    (a + b) % TWO64
  }

  lemma WrapsExactlyWhen(a: nat, b: nat)
    requires a < TWO64 && b < TWO64
    ensures WrapAdd(a, b) == if a + b < TWO64 then a + b else a + b - TWO64
  {
  }

  function SegmentOf(p: Program): Segment {
    Segment(p.offset, p.vaddr, p.filesz, p.memsz, Writable(p), Executable(p))
  }

  /** Program header `i` lies in the file. */
  predicate HasProgram(file: bytes, i: nat) {
    |file| >= EHDR_SIZE &&
    var h := ReadHeader(file);
    h.phentsize == PHDR_SIZE && i < h.phnum && h.phoff + i * PHDR_SIZE + PHDR_SIZE <= |file|
  }

  function ProgramAt(file: bytes, i: nat): Program
    requires HasProgram(file, i)
  {
    ReadProgram(file, ReadHeader(file).phoff + i * PHDR_SIZE)
  }

  lemma HeaderBounds(file: bytes, i: nat)
    requires |file| >= EHDR_SIZE && i < 0x1_0000
    ensures (var at := ReadHeader(file).phoff; var n := i * PHDR_SIZE;
             WrapAdd(at, n) == if at + n < TWO64 then at + n else at + n - TWO64)
  {
    FieldBound(file, 32, 8);
    Pow256Eight();
    WrapsExactlyWhen(ReadHeader(file).phoff, i * PHDR_SIZE);
  }

  /** Read one program header; false if it is not all there. */
  method ProgramHeader(file: bytes, i: nat) returns (ok: bool, p: Program)
    requires |file| < TWO64 && i < 0x1_0000
    ensures ok <==> HasProgram(file, i)
    ensures ok ==> p == ProgramAt(file, i)
  {
    p := Program(0, 0, 0, 0, 0, 0, 0);
    if |file| < EHDR_SIZE {
      return false, p;
    }
    var h := ReadHeader(file);
    if h.phentsize != PHDR_SIZE || i >= h.phnum {
      return false, p;
    }
    var off := WrapAdd(h.phoff, i * h.phentsize);
    HeaderBounds(file, i);
    if off < h.phoff || off > |file| || PHDR_SIZE > |file| - off {
      return false, p;
    }
    ok, p := true, ReadProgram(file, off);
  }

  // ------------------------------------------------------------- validation

  /** The fixed part of the header, and program headers that lie in the file. */
  predicate HeaderOk(file: bytes) {
    && |file| >= EHDR_SIZE
    && file[0] == 0x7f && file[1] == 0x45 && file[2] == 0x4c && file[3] == 0x46
    && file[4] == 2 && file[5] == 1 && file[6] == 1
    && var h := ReadHeader(file);
       && h.machine == 62 && h.version == 1 && h.ehsize == EHDR_SIZE && h.phentsize == PHDR_SIZE && 0 < h.phnum < 0x1_0000
       && h.phoff + h.phnum * PHDR_SIZE <= |file|
  }

  lemma HeaderHasAll(file: bytes, i: nat)
    requires HeaderOk(file) && i < ReadHeader(file).phnum
    ensures HasProgram(file, i)
  {
  }

  /** All program headers of a file. */
  function Programs(file: bytes): (r: seq<Program>)
    requires HeaderOk(file)
    ensures |r| == ReadHeader(file).phnum && forall i: nat | i < |r| :: HasProgram(file, i) && r[i] == ProgramAt(file, i)
  {
    assert forall i: nat | i < ReadHeader(file).phnum :: HasProgram(file, i) by {
      forall i: nat | i < ReadHeader(file).phnum ensures HasProgram(file, i) {
        HeaderHasAll(file, i);
      }
    }
    seq(ReadHeader(file).phnum, i requires 0 <= i < ReadHeader(file).phnum => ProgramAt(file, i))
  }

  predicate ProgramOk(size: nat, p: Program) {
    p.kind == PT_LOAD ==>
      && p.filesz <= p.memsz && p.offset + p.filesz <= size && (p.memsz > 0 ==> p.vaddr + p.memsz < TWO64)
      && (p.align != 0 ==> PowerOfTwo(p.align)) && !(Writable(p) && Executable(p))
  }

  /** The load segments with memory. */
  function Loads(ps: seq<Program>): (r: seq<Segment>)
  {
    if ps == [] then []
    else
      var k := |ps| - 1;
      if ps[k].kind == PT_LOAD && ps[k].memsz > 0 then Loads(ps[..k]) + [SegmentOf(ps[k])] else Loads(ps[..k])
  }

  ghost predicate ProgramsOk(size: nat, ps: seq<Program>) {
    forall i | 0 <= i < |ps| :: ProgramOk(size, ps[i])
  }

  ghost predicate EntryOk(segs: seq<Segment>, entry: nat) {
    exists i :: 0 <= i < |segs| && segs[i].exec && segs[i].vaddr <= entry < segs[i].End()
  }

  ghost predicate ValidPrograms(size: nat, ps: seq<Program>, entry: nat) {
    ProgramsOk(size, ps) && 0 < |Loads(ps)| <= MAX_LOADS && Disjoint(Loads(ps)) && EntryOk(Loads(ps), entry)
  }

  /** A file the kernel takes for an executable. */
  ghost predicate ValidElf(file: bytes) {
    HeaderOk(file) && ValidPrograms(|file|, Programs(file), ReadHeader(file).entry)
  }

  method CheckHeader(file: bytes) returns (ok: bool)
    requires |file| < TWO64
    ensures ok <==> HeaderOk(file)
  {
    if |file| < EHDR_SIZE {
      return false;
    }
    if file[0] != 0x7f || file[1] != 0x45 || file[2] != 0x4c || file[3] != 0x46 {
      return false;
    }
    if file[4] != 2 || file[5] != 1 || file[6] != 1 {
      return false;
    }
    var h := ReadHeader(file);
    FieldBound(file, 56, 2);
    if h.machine != 62 || h.version != 1 || h.ehsize != EHDR_SIZE || h.phentsize != PHDR_SIZE || h.phnum == 0 {
      return false;
    }
    ok := h.phoff <= |file| && h.phentsize * h.phnum <= |file| - h.phoff;
  }

  /** The test of one program header, as the kernel computes it. */
  predicate Passes(size: nat, p: Program) {
    if p.kind != PT_LOAD then true
    else if p.filesz > p.memsz then false
    else if p.offset > size || p.filesz > size - p.offset then false
    else if p.memsz != 0 && WrapAdd(p.vaddr, p.memsz) < p.vaddr then false
    else if p.align != 0 && !PowerOfTwo(p.align) then false
    else !(Writable(p) && Executable(p))
  }

  lemma PassesExactlyWhen(size: nat, p: Program)
    requires p.memsz < TWO64 && p.vaddr < TWO64
    ensures Passes(size, p) <==> ProgramOk(size, p)
  {
    WrapsExactlyWhen(p.vaddr, p.memsz);
  }

  method CheckDisjoint(segs: seq<Segment>) returns (ok: bool)
    ensures ok <==> Disjoint(segs)
  {
    for i := 0 to |segs|
      invariant forall a, b | 0 <= a < i && a < b < |segs| :: segs[a].End() <= segs[b].vaddr || segs[b].End() <= segs[a].vaddr
    {
      for j := i + 1 to |segs|
        invariant forall b | i < b < j :: segs[i].End() <= segs[b].vaddr || segs[b].End() <= segs[i].vaddr
      {
        if segs[i].vaddr < segs[j].End() && segs[j].vaddr < segs[i].End() {
          return false;
        }
      }
    }
    ok := true;
  }

  method CheckEntry(segs: seq<Segment>, entry: nat) returns (ok: bool)
    ensures ok <==> EntryOk(segs, entry)
  {
    for i := 0 to |segs|
      invariant forall j | 0 <= j < i :: !(segs[j].exec && segs[j].vaddr <= entry < segs[j].End())
    {
      if segs[i].exec && segs[i].vaddr <= entry < segs[i].End() {
        return true;
      }
    }
    ok := false;
  }

  lemma ProgramBounds(file: bytes, i: nat)
    requires HasProgram(file, i)
    ensures ProgramAt(file, i).memsz < TWO64 && ProgramAt(file, i).vaddr < TWO64
  {
    var at := ReadHeader(file).phoff + i * PHDR_SIZE;
    FieldBound(file, at + 40, 8);
    FieldBound(file, at + 16, 8);
    Pow256Eight();
  }

  /** Addresses and sizes are 64-bit words. */
  ghost predicate Words(ps: seq<Program>) {
    forall i | 0 <= i < |ps| :: ps[i].memsz < TWO64 && ps[i].vaddr < TWO64
  }

  /** All program headers, read one by one. */
  method ReadPrograms(file: bytes) returns (ps: seq<Program>)
    requires |file| < TWO64 && HeaderOk(file)
    ensures ps == Programs(file) && Words(ps)
  {
    var n := ReadHeader(file).phnum;
    ps := [];
    for i := 0 to n
      invariant |ps| == i && Words(ps) && forall j: nat | j < i :: HasProgram(file, j) && ps[j] == ProgramAt(file, j)
    {
      HeaderHasAll(file, i);
      ProgramBounds(file, i);
      var _, p := ProgramHeader(file, i);
      ps := ps + [p];
    }
  }

  lemma LoadsNext(ps: seq<Program>, i: nat)
    requires i < |ps|
    ensures Loads(ps[..i + 1]) == if ps[i].kind == PT_LOAD && ps[i].memsz > 0 then Loads(ps[..i]) + [SegmentOf(ps[i])] else Loads(ps[..i])
  {
    assert ps[..i + 1][..i] == ps[..i];
  }

  /** Further headers never make segments fewer. */
  lemma {:induction false} LoadsGrow(ps: seq<Program>, i: nat)
    requires i <= |ps|
    ensures |Loads(ps[..i])| <= |Loads(ps)|
    decreases |ps| - i
  {
    if i < |ps| {
      LoadsNext(ps, i);
      LoadsGrow(ps, i + 1);
    } else {
      assert ps[..i] == ps;
    }
  }

  ghost predicate AllPass(check: Program -> bool, ps: seq<Program>) {
    forall i | 0 <= i < |ps| :: check(ps[i])
  }

  /** The load segments, if every program header passes and there are not too many
      of them. */
  method CollectLoads(check: Program -> bool, ps: seq<Program>) returns (ok: bool, segs: seq<Segment>)
    ensures ok <==> AllPass(check, ps) && |Loads(ps)| <= MAX_LOADS
    ensures ok ==> segs == Loads(ps)
  {
    var n := |ps|;
    segs := [];
    for i := 0 to n
      invariant AllPass(check, ps[..i]) && segs == Loads(ps[..i]) && |segs| <= MAX_LOADS
    {
      var p := ps[i];
      if !check(p) {
        return false, segs;
      }
      LoadsNext(ps, i);
      if p.kind == PT_LOAD && p.memsz != 0 {
        LoadsGrow(ps, i + 1);
        if |segs| >= MAX_LOADS {
          return false, segs;
        }
        segs := segs + [SegmentOf(p)];
      }
    }
    assert ps[..n] == ps;
    ok := true;
  }

  lemma AllPassExactlyWhen(size: nat, ps: seq<Program>)
    requires Words(ps)
    ensures AllPass(p => Passes(size, p), ps) <==> ProgramsOk(size, ps)
  {
    forall i | 0 <= i < |ps| ensures Passes(size, ps[i]) <==> ProgramOk(size, ps[i]) {
      PassesExactlyWhen(size, ps[i]);
    }
    var check := p => Passes(size, p);
    assert forall i | 0 <= i < |ps| :: check(ps[i]) <==> ProgramOk(size, ps[i]);
  }

  /** Whether the file is an executable the kernel takes. */
  method Validate(file: bytes) returns (ok: bool)
    requires |file| < TWO64
    ensures ok <==> ValidElf(file)
  {
    ok := CheckHeader(file);
    if !ok {
      return;
    }
    var ps := ReadPrograms(file);
    var segs;
    AllPassExactlyWhen(|file|, ps);
    ok, segs := CollectLoads(p => Passes(|file|, p), ps);
    if !ok || |segs| == 0 {
      return false;
    }
    ok := CheckDisjoint(segs);
    if ok {
      ok := CheckEntry(segs, ReadHeader(file).entry);
    }
  }

  // --------------------------------------------------------------- the plan

  /** What the loader asks of a load segment on top. */
  predicate Loadable(size: nat, p: Program) {
    p.kind == PT_LOAD ==>
      && 0 < p.memsz && p.filesz <= p.memsz && USER_VA_MIN <= p.vaddr && p.vaddr + p.memsz <= USER_VA_MAX
      && p.offset + p.filesz <= size
      && (p.align > 1 ==> PowerOfTwo(p.align) && p.vaddr % p.align == p.offset % p.align)
  }

  ghost predicate AllLoadable(size: nat, ps: seq<Program>) {
    forall i | 0 <= i < |ps| :: Loadable(size, ps[i])
  }

  /** A file the loader loads. */
  ghost predicate Accepted(file: bytes) {
    ValidElf(file) && AllLoadable(|file|, Programs(file))
  }

  /** The range a set of segments spans. */
  ghost predicate Spans(segs: seq<Segment>, lo: nat, hi: nat) {
    && (forall i | 0 <= i < |segs| :: lo <= segs[i].vaddr && segs[i].End() <= hi)
    && (segs == [] ==> lo == TWO64 - 1 && hi == 0)
    && (segs != [] ==> (exists i :: 0 <= i < |segs| && segs[i].vaddr == lo) && (exists i :: 0 <= i < |segs| && segs[i].End() == hi))
  }

  lemma SpansMore(segs: seq<Segment>, s: Segment, lo: nat, hi: nat)
    requires Spans(segs, lo, hi) && s.vaddr < TWO64 && s.memsz > 0
    ensures Spans(segs + [s], if s.vaddr < lo then s.vaddr else lo, if s.End() > hi then s.End() else hi)
  {
    var all := segs + [s];
    assert all[|segs|] == s;
    if i :| 0 <= i < |segs| && segs[i].vaddr == lo {
      assert all[i].vaddr == lo;
    }
    if i :| 0 <= i < |segs| && segs[i].End() == hi {
      assert all[i].End() == hi;
    }
  }

  /** Check every load segment before anything changes; the range they span. */
  method Plan(file: bytes) returns (ok: bool, lo: nat, hi: nat)
    requires |file| < TWO64
    ensures ok <==> Accepted(file)
    ensures ok ==> Spans(Loads(Programs(file)), lo, hi)
  {
    lo, hi := TWO64 - 1, 0;
    ok := Validate(file);
    if ok {
      var ps := ReadPrograms(file);
      ok, lo, hi := PlanAll(p => Loadable(|file|, p), ps);
    }
  }

  method PlanAll(check: Program -> bool, ps: seq<Program>) returns (ok: bool, lo: nat, hi: nat)
    requires Words(ps) && forall p :: check(p) && p.kind == PT_LOAD ==> p.memsz > 0
    ensures ok <==> AllPass(check, ps)
    ensures ok ==> Spans(Loads(ps), lo, hi)
  {
    lo, hi := TWO64 - 1, 0;
    var n := |ps|;
    for i := 0 to n
      invariant AllPass(check, ps[..i]) && Spans(Loads(ps[..i]), lo, hi)
    {
      var p := ps[i];
      if !check(p) {
        return false, lo, hi;
      }
      LoadsNext(ps, i);
      if p.kind == PT_LOAD {
        SpansMore(Loads(ps[..i]), SegmentOf(p), lo, hi);
        lo := if p.vaddr < lo then p.vaddr else lo;
        hi := if p.vaddr + p.memsz > hi then p.vaddr + p.memsz else hi;
      }
    }
    assert ps[..n] == ps;
    ok := true;
  }

  /** What the image needs of a segment of an accepted file. */
  ghost predicate SegmentOk(file: bytes, s: Segment) {
    s.Fits(file) && !(s.write && s.exec) && USER_VA_MIN <= s.vaddr && s.End() <= USER_VA_MAX
  }

  lemma {:induction false} LoadsOk(file: bytes, ps: seq<Program>)
    requires AllLoadable(|file|, ps) && ProgramsOk(|file|, ps)
    ensures forall i | 0 <= i < |Loads(ps)| :: SegmentOk(file, Loads(ps)[i])
  {
    if ps != [] {
      LoadsOk(file, ps[..|ps| - 1]);
    }
  }
}
