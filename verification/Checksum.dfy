/** The Internet checksum (RFC 1071) and big-endian fields. */
module Checksum {
  import opened Bytes

  function BE16(v: nat): (b: bytes)
    requires v < 0x1_0000
    ensures |b| == 2
  {
    [v / 256, v % 256]
  }

  function BE32(v: nat): (b: bytes)
    requires v < 0x1_0000_0000
    ensures |b| == 4
  {
    BE16(v / 0x1_0000) + BE16(v % 0x1_0000)
  }

  function Get16(b: bytes, at: nat): (v: nat)
    requires at + 2 <= |b|
    ensures v < 0x1_0000
  {
    256 * b[at] as int + b[at + 1] as int
  }

  function Get32(b: bytes, at: nat): nat
    requires at + 4 <= |b|
  {
    0x1_0000 * Get16(b, at) + Get16(b, at + 2)
  }

  /** The sum of the 16-bit words, the last byte padded with zero. */
  ghost function Sum16(b: bytes): nat {
    if b == [] then 0
    else if |b| == 1 then 256 * b[0] as int
    else Get16(b, 0) + Sum16(b[2..])
  }

  /** What is left of a sum when all carries are folded back in: zero for zero
      only, else the representative of its class modulo 65535 in 1 to 65535. */
  ghost function Folded(sum: nat): (r: nat)
    ensures r <= 0xffff
  {
    if sum == 0 then 0 else (sum - 1) % 0xffff + 1
  }

  ghost function Complement(sum: nat): nat {
    0xffff - Folded(sum)
  }

  lemma FoldStep(sum: nat)
    requires sum >= 0x1_0000
    ensures sum % 0x1_0000 + sum / 0x1_0000 < sum
    ensures Folded(sum % 0x1_0000 + sum / 0x1_0000) == Folded(sum)
  {
    var q := sum / 0x1_0000;
    assert sum == 0xffff * q + (sum % 0x1_0000 + q);
  }

  method FoldSum(x: nat) returns (sum: nat)
    ensures sum == Folded(x)
  {
    sum := x;
    while sum / 0x1_0000 != 0
      invariant Folded(sum) == Folded(x)
      decreases sum
    {
      FoldStep(sum);
      sum := sum % 0x1_0000 + sum / 0x1_0000;
    }
  }

  method ChecksumAdd(sum: nat) returns (c: nat)
    ensures c == Complement(sum) <= 0xffff
  {
    var f := FoldSum(sum);
    c := 0xffff - f;
  }

  /** Add the words of `data` to `start`. */
  method AddWords(start: nat, data: bytes) returns (sum: nat)
    ensures sum == start + Sum16(data)
  {
    sum := start;
    var i := 0;
    while |data| - i >= 2
      invariant 0 <= i <= |data|
      invariant sum + Sum16(data[i..]) == start + Sum16(data)
    {
      assert data[i..][2..] == data[i + 2..];
      sum := sum + Get16(data, i);
      i := i + 2;
    }
    if |data| - i == 1 {
      assert data[i..] == [data[i]];
      sum := sum + 256 * data[i] as int;
    } else {
      assert data[i..] == [];
    }
  }

  /** The sum of a sum and its own checksum folds to all ones, so that the
      checksum over the whole is zero. */
  lemma SelfCheck(sum: nat)
    requires sum > 0
    ensures Complement(sum + Complement(sum)) == 0
  {
    var k := (sum - 1) / 0xffff;
    assert sum + Complement(sum) == 0xffff * (k + 1);
  }

  /** All ones in place of a zero checksum checks as well. */
  lemma SelfCheckOnes(sum: nat)
    requires sum > 0 && Complement(sum) == 0
    ensures Complement(sum + 0xffff) == 0
  {
  }

  /** Sums of whole words add up. */
  lemma {:induction false} SumAppend(a: bytes, b: bytes)
    requires |a| % 2 == 0
    ensures Sum16(a + b) == Sum16(a) + Sum16(b)
  {
    if a == [] {
      assert a + b == b;
    } else {
      SumAppend(a[2..], b);
      assert (a + b)[2..] == a[2..] + b;
    }
  }

  lemma SumWord(v: nat)
    requires v < 0x1_0000
    ensures Sum16(BE16(v)) == v
  {
    assert BE16(v)[2..] == [];
  }

  /** A word in the middle contributes its value. */
  lemma SumAround(before: bytes, v: nat, after: bytes)
    requires |before| % 2 == 0 && v < 0x1_0000
    ensures Sum16(before + BE16(v) + after) == Sum16(before) + v + Sum16(after)
  {
    SumAppend(before + BE16(v), after);
    SumAppend(before, BE16(v));
    SumWord(v);
  }
}
