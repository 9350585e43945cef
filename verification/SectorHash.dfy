/** The checksum RixFS keeps of sectors and of its superblock: 64-bit FNV-1a with the
    offset basis of the source. It tells any two sectors apart that differ in one byte. */
module SectorHash {
  import opened Common
  import opened Bytes

  const BASIS: nat := 1469598103934665603
  const PRIME: nat := 1099511628211

  // --------------------------------------------------------------- exclusive or

  /** Exclusive or of the `n` low bits. */
  function Xor(x: nat, y: nat, n: nat): (r: nat)
    ensures r < Pow2(n)
    decreases n
  {
    if n == 0 then 0 else (if x % 2 == y % 2 then 0 else 1) + 2 * Xor(x / 2, y / 2, n - 1)
  }

  lemma {:induction false} XorTells(x: nat, y: nat, z: nat, n: nat)
    requires y < Pow2(n) && z < Pow2(n) && Xor(x, y, n) == Xor(x, z, n)
    ensures y == z
    decreases n
  {
    if n > 0 {
      XorTells(x / 2, y / 2, z / 2, n - 1);
    }
  }

  lemma {:induction false} XorSwaps(x: nat, y: nat, n: nat)
    ensures Xor(x, y, n) == Xor(y, x, n)
    decreases n
  {
    if n > 0 {
      XorSwaps(x / 2, y / 2, n - 1);
    }
  }

  lemma EightBits()
    ensures Pow2(8) == 256
  {
    assert Pow2(4) == 16;
  }

  /** Exclusive or of a word and a byte. */
  function XorByte(h: u64, b: byte): u64 {
    EightBits();
    Joined(h / 256, Xor(h % 256, b, 8))
  }

  function Joined(high: nat, low: nat): u64
    requires high < 0x100_0000_0000_0000 && low < 256
  {
    256 * high + low
  }

  lemma JoinedTells(high: nat, low: nat, high': nat, low': nat)
    requires high < 0x100_0000_0000_0000 && low < 256 && high' < 0x100_0000_0000_0000 && low' < 256
    requires Joined(high, low) == Joined(high', low')
    ensures high == high' && low == low'
  {
  }

  lemma XorByteTells(g: u64, h: u64, b: byte, c: byte)
    requires XorByte(g, b) == XorByte(h, c)
    ensures g == h ==> b == c
    ensures b == c ==> g == h
  {
    EightBits();
    JoinedTells(g / 256, Xor(g % 256, b, 8), h / 256, Xor(h % 256, c, 8));
    if g == h {
      XorTells(g % 256, b, c, 8);
    }
    if b == c {
      XorSwaps(g % 256, b, 8);
      XorSwaps(h % 256, b, 8);
      XorTells(b, g % 256, h % 256, 8);
    }
  }

  // ------------------------------------------------------------- multiplication

  /** A 64-bit product with the prime. */
  function Scale(x: u64): u64 {
    x * PRIME % TWO64
  }

  const INVERSE: nat := 0xce965057aff6957b
  const CARRY: nat := 0xce9650590f

  /** The factor is odd, so that the product gives the other factor away. */
  lemma Unscale(x: u64)
    ensures Scale(x) * INVERSE % TWO64 == x
  {
    assert PRIME * INVERSE == 1 + CARRY * TWO64;
    var a, r := x * PRIME / TWO64, Scale(x);
    assert r == x * PRIME - TWO64 * a;
    assert r * INVERSE == x + TWO64 * (x * CARRY - a * INVERSE);
    Rest(x, x * CARRY - a * INVERSE);
  }

  lemma Rest(x: u64, k: int)
    requires x + TWO64 * k >= 0
    ensures (x + TWO64 * k) % TWO64 == x
  {
  }

  lemma ScaleTells(x: u64, y: u64)
    requires Scale(x) == Scale(y)
    ensures x == y
  {
    Unscale(x);
    Unscale(y);
  }

  // ------------------------------------------------------------------- the hash

  function Mix(h: u64, b: byte): u64 {
    Scale(XorByte(h, b))
  }

  function Hash(data: bytes): u64 {
    if data == [] then BASIS else Mix(Hash(data[..|data| - 1]), data[|data| - 1])
  }

  method Hash64(data: bytes) returns (h: u64)
    ensures h == Hash(data)
  {
    h := BASIS;
    for i := 0 to |data|
      invariant h == Hash(data[..i])
    {
      assert data[..i + 1][..i] == data[..i];
      h := Mix(h, data[i]);
    }
    assert data[..|data|] == data;
  }

  /** One of the two arguments changed: so does the result. */
  lemma MixTells(g: u64, h: u64, b: byte, c: byte)
    requires (g == h && b != c) || (g != h && b == c)
    ensures Mix(g, b) != Mix(h, c)
  {
    if XorByte(g, b) == XorByte(h, c) {
      XorByteTells(g, h, b, c);
    } else if Scale(XorByte(g, b)) == Scale(XorByte(h, c)) {
      ScaleTells(XorByte(g, b), XorByte(h, c));
    }
  }

  /** Two blocks that differ in exactly one byte never have the same checksum. */
  lemma {:induction false} OneByteTells(a: bytes, b: bytes, i: nat)
    requires |a| == |b| && i < |a| && a[i] != b[i] && forall k | 0 <= k < |a| && k != i :: a[k] == b[k]
    ensures Hash(a) != Hash(b)
    decreases |a|
  {
    var n := |a| - 1;
    if i == n {
      assert a[..n] == b[..n];
    } else {
      OneByteTells(a[..n], b[..n], i);
    }
    MixTells(Hash(a[..n]), Hash(b[..n]), a[n], b[n]);
  }

  lemma XorKnown()
    ensures Xor(0x83, 97, 8) == 0xE2
  {
    assert Xor(1, 0, 1) == 1;
    assert Xor(2, 1, 2) == 3;
    assert Xor(4, 3, 3) == 7;
    assert Xor(8, 6, 4) == 14;
    assert Xor(16, 12, 5) == 28;
    assert Xor(32, 24, 6) == 56;
    assert Xor(65, 48, 7) == 113;
  }

  lemma HashOne(b: byte)
    ensures Hash([b]) == Mix(BASIS, b)
  {
    assert [b][..0] == [];
  }

  lemma BasisXor()
    ensures XorByte(BASIS, 97) == 0x1465_0fb0_739d_03E2
  {
    XorKnown();
    assert BASIS / 256 == 0x14_650f_b073_9d03 && BASIS % 256 == 0x83;
  }

  lemma ScaleKnown()
    ensures Scale(0x1465_0fb0_739d_03E2) == 0x44bd_8ad4_73cd_9906
  {
  }

  /** One known value. */
  lemma HashOfOneByte()
    ensures Hash([97]) == 0x44bd_8ad4_73cd_9906
  {
    HashOne(97);
    BasisXor();
    ScaleKnown();
  }
}
