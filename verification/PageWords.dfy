/** Page tables as the processor finds them: 64-bit words in physical memory, walked
    level by level. The tree the kernel's code is proved about is what these words
    mean. */
module PageWords {
  import opened Common
  import opened PageTables
  import opened Vmm

  const FRAMES: nat := 0x100_0000_0000
  const NX: nat := 0x8000_0000_0000_0000

  // ------------------------------------------------------------------- words

  /** One entry: bits 0 to 4 present, write, user, PWT and PCD; bit 7 a large page; bit 9
      owned; bits 12 to 51 the frame; bit 63 no-execute. */
  function EntryOf(w: nat): Entry {
    Entry(w / 0x1000 % FRAMES, w % 2 == 1, w / 2 % 2 == 1, w / 4 % 2 == 1, w / 8 % 2 == 1, w / 16 % 2 == 1,
          w / 128 % 2 == 1, w / 512 % 2 == 1, w / NX % 2 == 1)
  }

  function Flag(set_: bool, value: nat): nat {
    if set_ then value else 0
  }

  function LowBits(e: Entry): (n: nat)
    ensures n < 0x1000
  {
    Flag(e.present, 1) + Flag(e.write, 2) + Flag(e.user, 4) + Flag(e.pwt, 8) + Flag(e.pcd, 16) + Flag(e.ps, 128) + Flag(e.owned, 512)
  }

  function WordOf(e: Entry): nat {
    e.frame * 0x1000 + LowBits(e) + Flag(e.nx, NX)
  }

  lemma Bit0(w: nat, b: nat, x: nat)
    requires w == b + 2 * x && b < 2
    ensures w % 2 == b && w / 2 == x
  {
  }

  lemma Bit1(w: nat, b: nat, x: nat)
    requires w / 2 == b + 2 * x && b < 2
    ensures w / 2 % 2 == b && w / 4 == x
  {
  }

  lemma Bit2(w: nat, b: nat, x: nat)
    requires w / 4 == b + 2 * x && b < 2
    ensures w / 4 % 2 == b && w / 8 == x
  {
  }

  lemma Bit3(w: nat, b: nat, x: nat)
    requires w / 8 == b + 2 * x && b < 2
    ensures w / 8 % 2 == b && w / 16 == x
  {
  }

  lemma Under128(x: nat, r: nat)
    requires r < 128
    ensures (128 * x + r) / 128 == x
  {
  }

  lemma Under512(x: nat, r: nat)
    requires r < 512
    ensures (512 * x + r) / 512 == x
  {
  }

  lemma Under4096(x: nat, r: nat)
    requires r < 0x1000
    ensures (0x1000 * x + r) / 0x1000 == x
  {
  }

  lemma Bit4(w: nat, b: nat, x: nat)
    requires w / 16 == b + 8 * x && b < 2
    ensures w / 16 % 2 == b && w / 128 == x
  {
    Bit0(w / 16, b, 4 * x);
    Under128(x, 16 * b + w % 16);
    assert w == 128 * x + (16 * b + w % 16);
  }

  lemma Bit7(w: nat, b: nat, x: nat)
    requires w / 128 == b + 4 * x && b < 2
    ensures w / 128 % 2 == b && w / 512 == x
  {
    Bit0(w / 128, b, 2 * x);
    Under512(x, 128 * b + w % 128);
    assert w == 512 * x + (128 * b + w % 128);
  }

  lemma Bit9(w: nat, b: nat, x: nat)
    requires w / 512 == b + 8 * x && b < 2
    ensures w / 512 % 2 == b && w / 0x1000 == x
  {
    Bit0(w / 512, b, 4 * x);
    Under4096(x, 512 * b + w % 512);
    assert w == 0x1000 * x + (512 * b + w % 512);
  }

  /** The bits of a word, taken off from below. */
  lemma LowBitsBack(e: Entry, w: nat, high: nat)
    requires w == LowBits(e) + 0x1000 * high
    ensures w % 2 == Flag(e.present, 1) && w / 2 % 2 == Flag(e.write, 1) && w / 4 % 2 == Flag(e.user, 1)
    ensures w / 8 % 2 == Flag(e.pwt, 1) && w / 16 % 2 == Flag(e.pcd, 1) && w / 128 % 2 == Flag(e.ps, 1)
    ensures w / 512 % 2 == Flag(e.owned, 1) && w / 0x1000 == high
  {
    var x9 := Flag(e.owned, 1) + 8 * high;
    var x7 := Flag(e.ps, 1) + 4 * x9;
    var x4 := Flag(e.pcd, 1) + 8 * x7;
    var x3 := Flag(e.pwt, 1) + 2 * x4;
    var x2 := Flag(e.user, 1) + 2 * x3;
    var x1 := Flag(e.write, 1) + 2 * x2;
    Bit0(w, Flag(e.present, 1), x1);
    Bit1(w, Flag(e.write, 1), x2);
    Bit2(w, Flag(e.user, 1), x3);
    Bit3(w, Flag(e.pwt, 1), x4);
    Bit4(w, Flag(e.pcd, 1), x7);
    Bit7(w, Flag(e.ps, 1), x9);
    Bit9(w, Flag(e.owned, 1), high);
  }

  /** Every entry has its word. */
  lemma WordRoundTrip(e: Entry)
    requires e.frame < FRAMES
    ensures WordOf(e) < TWO64 && EntryOf(WordOf(e)) == e
  {
    var high := e.frame + Flag(e.nx, 0x8_0000_0000_0000);
    LowBitsBack(e, WordOf(e), high);
    HighBits(e.frame, e.nx, high, WordOf(e));
  }

  lemma HighBits(frame: nat, nx: bool, high: nat, w: nat)
    requires frame < FRAMES && high == frame + Flag(nx, 0x8_0000_0000_0000) && w / 0x1000 == high
    ensures high % FRAMES == frame && w / NX % 2 == Flag(nx, 1) && w < TWO64
  {
    assert w / NX == w / 0x1000 / 0x8_0000_0000_0000;
  }

  /** The word the mapping code writes: address and flags. */
  lemma LeafWord(pa: nat, f: Flags)
    requires pa % 0x1000 == 0
    ensures WordOf(LeafEntry(pa, f)) ==
              pa + Flag(f.present, 1) + Flag(f.write, 2) + Flag(f.user, 4) + Flag(f.pwt, 8) + Flag(f.pcd, 16)
              + Flag(f.owned, 512) + Flag(f.nx, NX)
  {
    assert pa / PAGE * 0x1000 == pa;
  }

  // ---------------------------------------------------------------- the walk

  /** Physical memory that holds tables, frame by frame. */
  type Memory = map<nat, seq<nat>>

  function WordAt(mem: Memory, frame: nat, i: nat): nat {
    if frame in mem && i < |mem[frame]| then mem[frame][i] else 0
  }

  function FrameIn(w: nat): nat {
    w / 0x1000 % FRAMES
  }

  /** Bit of weight `bit` is set. */
  predicate Has(w: nat, bit: nat)
    requires bit > 0
  {
    w / bit % 2 == 1
  }

  /** What an upper level leaves of the rights below it. */
  function Through(w: nat, m: Mapping): Mapping {
    match m
    case Unmapped => Unmapped
    case Mapped(phys, write, user, nx, owned) => Mapped(phys, write && Has(w, 2), user && Has(w, 4), nx || Has(w, NX), owned)
  }

  /** A walk of four levels, nine address bits each; a large page ends it one level
      earlier. Rights hold if all levels grant them, no-execute if one level says so. */
  function ProcessorWalk(mem: Memory, root: nat, va: nat): Mapping {
    var w := WordAt(mem, root, va / 0x80_0000_0000 % 512);
    if !Has(w, 1) then Unmapped else Through(w, WalkPointers(mem, FrameIn(w), va))
  }

  function WalkPointers(mem: Memory, table: nat, va: nat): Mapping {
    var w := WordAt(mem, table, va / 0x4000_0000 % 512);
    if !Has(w, 1) then Unmapped else Through(w, WalkDirectory(mem, FrameIn(w), va))
  }

  function WalkDirectory(mem: Memory, table: nat, va: nat): Mapping {
    var w := WordAt(mem, table, va / 0x20_0000 % 512);
    if !Has(w, 1) then Unmapped
    else if Has(w, 128) then Mapped(FrameIn(w) * 0x1000 + va % 0x20_0000, Has(w, 2), Has(w, 4), Has(w, NX), false)
    else Through(w, WalkPages(mem, FrameIn(w), va))
  }

  function WalkPages(mem: Memory, table: nat, va: nat): Mapping {
    var w := WordAt(mem, table, va / 0x1000 % 512);
    if !Has(w, 1) then Unmapped
    else Mapped(FrameIn(w) * 0x1000 + va % 0x1000, Has(w, 2), Has(w, 4), Has(w, NX), Has(w, 512))
  }

  /** The words of `mem` are the tables of `s`. */
  ghost predicate Encodes(mem: Memory, s: Space) {
    forall t | t in s.mem :: t in mem && TableEncodes(mem[t], s.mem[t])
  }

  ghost predicate TableEncodes(ws: seq<nat>, t: Table) {
    |ws| == 512 && forall i | 0 <= i < 512 :: EntryOf(ws[i]) == t[i]
  }

  lemma WordHere(mem: Memory, s: Space, t: nat, i: nat)
    requires Encodes(mem, s) && t in s.mem && i < 512
    ensures EntryOf(WordAt(mem, t, i)) == s.mem[t][i]
  {
  }

  /** A mapping open to user mode is reached through an entry open to user mode. */
  lemma {:induction false} UserOnTheWay(s: Space, t: nat, va: nat)
    requires s.Valid() && t in s.mem
    ensures var e := s.mem[t][Index(va, s.level[t])];
            var m := LookupFrom(s, t, va);
            m.Mapped? ==> e.present && (m.user ==> e.user)
    decreases s.level[t]
  {
    var i := Index(va, s.level[t]);
    assert s.EntryOk(t, i);
    if s.Points(t, i) {
      UserOnTheWay(s, s.mem[t][i].frame, va);
    }
  }

  /** An entry that points to a table takes nothing from the rights below. */
  lemma ThroughPointer(s: Space, t: nat, va: nat, w: nat)
    requires s.Valid() && t in s.mem && s.Points(t, Index(va, s.level[t])) && EntryOf(w) == s.mem[t][Index(va, s.level[t])]
    ensures s.EntryOk(t, Index(va, s.level[t])) && FrameIn(w) in s.mem && s.level[FrameIn(w)] == s.level[t] - 1
    ensures Through(w, LookupFrom(s, FrameIn(w), va)) == LookupFrom(s, t, va)
  {
    assert s.EntryOk(t, Index(va, s.level[t]));
    UserOnTheWay(s, t, va);
  }

  lemma PagesMean(mem: Memory, s: Space, t: nat, va: nat)
    requires s.Valid() && Encodes(mem, s) && t in s.mem && s.level[t] == 1
    ensures WalkPages(mem, t, va) == LookupFrom(s, t, va)
  {
    WordHere(mem, s, t, Index(va, 1));
  }

  lemma DirectoryMeans(mem: Memory, s: Space, t: nat, va: nat)
    requires s.Valid() && Encodes(mem, s) && t in s.mem && s.level[t] == 2
    ensures WalkDirectory(mem, t, va) == LookupFrom(s, t, va)
  {
    var i := Index(va, 2);
    var w := WordAt(mem, t, i);
    WordHere(mem, s, t, i);
    if s.Points(t, i) {
      ThroughPointer(s, t, va, w);
      PagesMean(mem, s, FrameIn(w), va);
    }
  }

  lemma PointersMean(mem: Memory, s: Space, t: nat, va: nat)
    requires s.Valid() && Encodes(mem, s) && t in s.mem && s.level[t] == 3
    ensures WalkPointers(mem, t, va) == LookupFrom(s, t, va)
  {
    var i := Index(va, 3);
    var w := WordAt(mem, t, i);
    WordHere(mem, s, t, i);
    if s.Points(t, i) {
      ThroughPointer(s, t, va, w);
      DirectoryMeans(mem, s, FrameIn(w), va);
    }
  }

  /** What the processor finds is what the kernel's lookups mean. */
  lemma ProcessorWalkIsLookup(mem: Memory, s: Space, va: nat)
    requires s.Valid() && Encodes(mem, s)
    ensures ProcessorWalk(mem, s.root, va) == Lookup(s, va)
  {
    var i := Index(va, 4);
    var w := WordAt(mem, s.root, i);
    WordHere(mem, s, s.root, i);
    if s.Points(s.root, i) {
      ThroughPointer(s, s.root, va, w);
      PointersMean(mem, s, FrameIn(w), va);
    }
  }

  /** Map a page, and the processor finds it: every address of the page at its place in
      the memory mapped, with the rights asked for. */
  method MapThenWalk(tree: PageTableTree, va: nat, pa: nat, f: Flags) returns (code: int)
    requires tree.Valid() && f.present
    modifies tree
    ensures tree.Valid()
    ensures code == 0 ==>
              forall mem: Memory, vb: nat | Encodes(mem, tree.Tree()) && Canonical(vb) && vb / 0x1000 == va / 0x1000 ::
                ProcessorWalk(mem, tree.root, vb) == Mapped(pa + vb % 0x1000, f.write, f.user, f.nx, f.owned)
  {
    code := tree.MapPage(va, pa, f);
    if code == 0 {
      forall mem: Memory, vb: nat | Encodes(mem, tree.Tree()) && Canonical(vb) && vb / 0x1000 == va / 0x1000
        ensures ProcessorWalk(mem, tree.root, vb) == Mapped(pa + vb % 0x1000, f.write, f.user, f.nx, f.owned)
      {
        ProcessorWalkIsLookup(mem, tree.Tree(), vb);
      }
    }
  }
}
