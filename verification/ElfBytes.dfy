/** The ELF fields at their places in the file, and what an accepted file looks like
    byte by byte. */
module ElfBytes {
  import opened Common
  import opened Bytes
  import opened ElfImage
  import opened ElfFormat

  /** The 64-bit file header: machine, version, entry, offset, size and number of the
      program headers. */
  lemma HeaderFields(file: bytes)
    requires |file| >= 64
    ensures var h := ReadHeader(file);
            && h.machine == file[18] as int + 0x100 * file[19] as int && h.version == Four(file, 20)
            && h.entry == Eight(file, 24) && h.phoff == Eight(file, 32)
            && h.ehsize == file[52] as int + 0x100 * file[53] as int
            && h.phentsize == file[54] as int + 0x100 * file[55] as int
            && h.phnum == file[56] as int + 0x100 * file[57] as int
  {
    TwoIs(file, 18);
    FourIs(file, 20);
    EightIs(file, 24);
    EightIs(file, 32);
    TwoIs(file, 52);
    TwoIs(file, 54);
    TwoIs(file, 56);
  }

  /** Program header `i`: 56 bytes each, type, flags, file offset, address, physical
      address (not used), size in the file, size in memory, alignment. */
  lemma ProgramFields(file: bytes, i: nat, at: nat)
    requires HasProgram(file, i) && at == Eight(file, 32) + 56 * i
    ensures at + 56 <= |file|
    ensures var p := ProgramAt(file, i);
            && p.kind == Four(file, at) && p.flags == Four(file, at + 4) && p.offset == Eight(file, at + 8)
            && p.vaddr == Eight(file, at + 16) && p.filesz == Eight(file, at + 32) && p.memsz == Eight(file, at + 40)
            && p.align == Eight(file, at + 48)
  {
    HeaderFields(file);
    FourIs(file, at);
    FourIs(file, at + 4);
    EightIs(file, at + 8);
    EightIs(file, at + 16);
    EightIs(file, at + 32);
    EightIs(file, at + 40);
    EightIs(file, at + 48);
  }

  /** The rights of a segment are the two low bits of the flags. */
  lemma SegmentRights(file: bytes, i: nat, at: nat)
    requires HasProgram(file, i) && at == Eight(file, 32) + 56 * i
    ensures at + 56 <= |file|
    ensures var s := SegmentOf(ProgramAt(file, i));
            && (s.exec <==> file[at + 4] % 2 == 1) && (s.write <==> file[at + 4] / 2 % 2 == 1)
            && s.offset == Eight(file, at + 8) && s.vaddr == Eight(file, at + 16)
            && s.filesz == Eight(file, at + 32) && s.memsz == Eight(file, at + 40)
  {
    ProgramFields(file, i, at);
    LowBits(file[at + 4], file[at + 5] as int + 0x100 * file[at + 6] as int + 0x1_0000 * file[at + 7] as int);
  }

  lemma LowBits(a: byte, rest: nat)
    ensures (a as int + 0x100 * rest) % 2 == a as int % 2 && (a as int + 0x100 * rest) / 2 % 2 == a as int / 2 % 2
  {
    var half := a as int / 2 + 0x80 * rest;
    Halve(a as int % 2, half);
    Halve(a as int / 2 % 2, a as int / 4 + 0x40 * rest);
    assert a as int + 0x100 * rest == a as int % 2 + 2 * half && half == a as int / 2 % 2 + 2 * (a as int / 4 + 0x40 * rest);
  }

  lemma Halve(b: nat, x: nat)
    requires b < 2
    ensures (b + 2 * x) % 2 == b && (b + 2 * x) / 2 == x
  {
  }

  /** Every executable the kernel takes starts with these bytes. */
  lemma ValidStartsWith(file: bytes)
    requires ValidElf(file)
    ensures |file| >= 64 && file[..7] == [0x7f, 0x45, 0x4c, 0x46, 2, 1, 1]
    ensures file[18] == 62 && file[19] == 0 && Four(file, 20) == 1
    ensures file[52] == 64 && file[53] == 0 && file[54] == 56 && file[55] == 0
    ensures var n := file[56] as int + 0x100 * file[57] as int; n > 0 && Eight(file, 32) + 56 * n <= |file|
  {
    HeaderStartsWith(file);
  }

  lemma HeaderStartsWith(file: bytes)
    requires HeaderOk(file)
    ensures file[..7] == [0x7f, 0x45, 0x4c, 0x46, 2, 1, 1]
    ensures file[18] == 62 && file[19] == 0 && Four(file, 20) == 1
    ensures file[52] == 64 && file[53] == 0 && file[54] == 56 && file[55] == 0
    ensures var n := file[56] as int + 0x100 * file[57] as int; n > 0 && Eight(file, 32) + 56 * n <= |file|
  {
    HeaderFields(file);
  }

  /** The alignment test accepts exactly the powers of two. */
  lemma PowerOfTwoExactlyWhen(v: nat)
    ensures PowerOfTwo(v) <==> exists n: nat :: v == Pow2(n)
  {
    if PowerOfTwo(v) {
      var n := Exponent(v);
    }
    if n: nat :| v == Pow2(n) {
      PowersPass(n);
    }
  }

  lemma {:induction false} Exponent(v: nat) returns (n: nat)
    requires PowerOfTwo(v)
    ensures v == Pow2(n)
  {
    if v == 1 {
      n := 0;
    } else {
      n := Exponent(v / 2);
      n := n + 1;
    }
  }

  lemma {:induction false} PowersPass(n: nat)
    ensures PowerOfTwo(Pow2(n))
  {
    if n > 0 {
      PowersPass(n - 1);
      PowPositive(n - 1);
    }
  }

  lemma {:induction false} PowPositive(n: nat)
    ensures Pow2(n) > 0
  {
    if n > 0 {
      PowPositive(n - 1);
    }
  }

  /** The loader's segments are the load headers with memory: every such header is one,
      and every one is such a header, in the same order. */
  lemma {:induction false} LoadsAreHeaders(ps: seq<Program>) returns (from: seq<nat>)
    ensures |from| == |Loads(ps)|
    ensures forall j | 0 <= j < |from| ::
              from[j] < |ps| && ps[from[j]].kind == 1 && ps[from[j]].memsz > 0 && Loads(ps)[j] == SegmentOf(ps[from[j]])
    ensures forall j, k | 0 <= j < k < |from| :: from[j] < from[k]
    ensures forall i: nat | i < |ps| && ps[i].kind == 1 && ps[i].memsz > 0 :: i in from
    decreases |ps|
  {
    if ps == [] {
      from := [];
    } else {
      var k := |ps| - 1;
      from := LoadsAreHeaders(ps[..k]);
      if ps[k].kind == PT_LOAD && ps[k].memsz > 0 {
        from := from + [k];
      }
    }
  }
}
