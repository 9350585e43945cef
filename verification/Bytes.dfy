/** Byte buffers, little-endian fields and in-place patches: the vocabulary in
    which the on-disk formats are stated. */
module Bytes {
  import opened Common

  type byte = x: int | 0 <= x < 256

  type bytes = seq<byte>

  function Zeros(n: nat): (b: bytes)
    ensures |b| == n
    ensures forall i | 0 <= i < n :: b[i] == 0
  {
    seq(n, _ => 0)
  }

  function Pow256(n: nat): (r: nat)
    ensures r > 0
  {
    if n == 0 then 1 else 256 * Pow256(n - 1)
  }

  /** The `n` low bytes of `v`, least significant first. */
  function Store(v: nat, n: nat): (b: bytes)
    ensures |b| == n
    decreases n, v
  {
    if n == 0 then [] else [v % 256] + Store(v / 256, n - 1)
  }

  /** The value of a little-endian field. */
  function Load(b: bytes): nat
  {
    if b == [] then 0 else b[0] + 256 * Load(b[1..])
  }

  function Store64(v: nat): (b: bytes)
    ensures |b| == 8
  {
    Store(v, 8)
  }

  function Load64(b: bytes, at: nat): nat
    requires at + 8 <= |b|
  {
    Load(b[at..at + 8])
  }

  /** The little-endian number in `n` bytes at `at`. */
  function Field(b: bytes, at: nat, n: nat): nat
    requires at + n <= |b|
  {
    Load(b[at..at + n])
  }

  lemma FieldNext(b: bytes, at: nat, n: nat)
    requires 0 < n && at + n <= |b|
    ensures Field(b, at, n) == b[at] as int + 256 * Field(b, at + 1, n - 1)
  {
    assert b[at..at + n][1..] == b[at + 1..at + n];
  }

  /** The number in four bytes, the lowest first, written out. */
  function Four(b: bytes, at: nat): nat
    requires at + 4 <= |b|
  {
    b[at] as int + 0x100 * b[at + 1] as int + 0x1_0000 * b[at + 2] as int + 0x100_0000 * b[at + 3] as int
  }

  function Eight(b: bytes, at: nat): nat
    requires at + 8 <= |b|
  {
    Four(b, at) + 0x1_0000_0000 * Four(b, at + 4)
  }

  /** Little-endian fields, digit by digit. */
  lemma TwoIs(b: bytes, at: nat)
    requires at + 2 <= |b|
    ensures Field(b, at, 2) == b[at] as int + 0x100 * b[at + 1] as int
  {
    FieldNext(b, at, 2);
    FieldNext(b, at + 1, 1);
  }

  lemma FourIs(b: bytes, at: nat)
    requires at + 4 <= |b|
    ensures Field(b, at, 4) == Four(b, at)
  {
    FieldNext(b, at, 4);
    FieldNext(b, at + 1, 3);
    TwoIs(b, at + 2);
  }

  lemma EightIs(b: bytes, at: nat)
    requires at + 8 <= |b|
    ensures Field(b, at, 8) == Eight(b, at)
  {
    FieldNext(b, at, 8);
    FieldNext(b, at + 1, 7);
    FieldNext(b, at + 2, 6);
    FieldNext(b, at + 3, 5);
    FourIs(b, at + 4);
  }

  lemma FieldBound(b: bytes, at: nat, n: nat)
    requires at + n <= |b|
    ensures Field(b, at, n) < Pow256(n)
  {
    LoadBound(b[at..at + n]);
  }

  lemma {:induction false} LoadBound(b: bytes)
    ensures Load(b) < Pow256(|b|)
  {
    if b != [] {
      LoadBound(b[1..]);
    }
  }

  lemma {:induction false} LoadStore(v: nat, n: nat)
    requires v < Pow256(n)
    ensures Load(Store(v, n)) == v
    decreases n
  {
    if n > 0 {
      assert v / 256 < Pow256(n - 1);
      LoadStore(v / 256, n - 1);
      assert Store(v, n)[1..] == Store(v / 256, n - 1);
    }
  }

  lemma {:induction false} LoadZeros(b: bytes)
    requires forall i | 0 <= i < |b| :: b[i] == 0
    ensures Load(b) == 0
  {
    if b != [] {
      LoadZeros(b[1..]);
    }
  }

  lemma Pow256Eight()
    ensures Pow256(8) == TWO64
  {
    assert Pow256(2) == 0x1_0000;
    assert Pow256(4) == 0x1_0000_0000;
    assert Pow256(6) == 0x1_0000_0000_0000;
  }

  /** A 64-bit field, least significant byte first. */
  method StoreField(buffer: array<byte>, at: nat, v: nat)
    requires at + 8 <= buffer.Length
    modifies buffer
    ensures forall k | 0 <= k < buffer.Length ::
              buffer[k] == if at <= k < at + 8 then Store64(v)[k - at] else old(buffer[k])
  {
    var x := v;
    for i := 0 to 8
      invariant Store64(v)[i..] == Store(x, 8 - i)
      invariant forall k | 0 <= k < buffer.Length ::
                  buffer[k] == if at <= k < at + i then Store64(v)[k - at] else old(buffer[k])
    {
      assert Store64(v)[i] == Store64(v)[i..][0] == x % 256;
      assert Store64(v)[i + 1..] == Store64(v)[i..][1..] == Store(x / 256, 8 - i - 1);
      buffer[at + i] := x % 256;
      x := x / 256;
    }
  }

  method ZeroFill(buffer: array<byte>)
    modifies buffer
    ensures forall k | 0 <= k < buffer.Length :: buffer[k] == 0
  {
    for i := 0 to buffer.Length
      invariant forall k | 0 <= k < i :: buffer[k] == 0
    {
      buffer[i] := 0;
    }
  }
}
