/** Byte layout of the two journal headers, written little-endian at fixed
    offsets of one sector, and what a replay reads back from them. */
module JournalFormat {
  import opened Common
  import opened Bytes

  const TX_MAGIC: nat := 0x5254584A4E4C5631

  const SINGLE_MAGIC: nat := 0x524A4E4C56310001

  const TX_MAX: nat := 16

  /** One announced sector: where it goes and the checksum of its payload. */
  datatype Entry = Entry(sector: nat, sum: nat)

  /** What a header sector says: nothing, a multi-sector transaction (possibly
      with an impossible count), or a single-sector write. */
  datatype Header =
    | Empty
    | Multi(entries: seq<Entry>)
    | BadMulti
    | Single(entry: Entry, sequence: nat)

  /** Offset of the header's `i`-th entry: target sector, then checksum. */
  function EntryAt(i: nat): nat {
    24 + 16 * i
  }

  function EntryByte(e: Entry, j: nat): byte
    requires j < 16
  {
    if j < 8 then Store64(e.sector)[j] else Store64(e.sum)[j - 8]
  }

  /** Byte `k` of the header of transaction `gen`. */
  function MultiByte(gen: nat, es: seq<Entry>, k: nat): byte
    requires |es| <= TX_MAX
  {
    if k < 8 then Store64(TX_MAGIC)[k]
    else if k < 16 then Store64(gen)[k - 8]
    else if k == 16 then |es|
    else if 24 <= k < EntryAt(|es|) then EntryByte(es[(k - 24) / 16], (k - 24) % 16)
    else 0
  }

  function EncodeMulti(size: nat, gen: nat, es: seq<Entry>): (b: bytes)
    requires |es| <= TX_MAX
    ensures |b| == size
    ensures forall k | 0 <= k < |b| :: b[k] == MultiByte(gen, es, k)
  {
    seq(size, k requires 0 <= k < size => MultiByte(gen, es, k))
  }

  /** Byte `k` of a single-sector header. */
  function SingleByte(e: Entry, sequence: nat, k: nat): byte
  {
    if k < 8 then Store64(SINGLE_MAGIC)[k]
    else if k < 16 then Store64(e.sector)[k - 8]
    else if k < 24 then Store64(sequence)[k - 16]
    else if 32 <= k < 40 then Store64(e.sum)[k - 32]
    else 0
  }

  function EncodeSingle(size: nat, e: Entry, sequence: nat): (b: bytes)
    ensures |b| == size
    ensures forall k | 0 <= k < |b| :: b[k] == SingleByte(e, sequence, k)
  {
    seq(size, k requires 0 <= k < size => SingleByte(e, sequence, k))
  }

  function DecodeEntry(h: bytes, at: nat): Entry
    requires at + 16 <= |h|
  {
    Entry(Load64(h, at), Load64(h, at + 8))
  }

  /** What a replay reads from a header sector. */
  function Decode(h: bytes): Header {
    if |h| < 512 then Empty
    else if Load64(h, 0) == TX_MAGIC then
      var n := Load(h[16..20]);
      if n == 0 || n > TX_MAX then BadMulti
      else Multi(seq(n, i requires 0 <= i < n => DecodeEntry(h, EntryAt(i))))
    else if Load64(h, 0) == SINGLE_MAGIC then
      Single(Entry(Load64(h, 8), Load64(h, 32)), Load64(h, 16))
    else Empty
  }

  /** A field reads back `v` when its bytes are those of `v`. */
  lemma FieldDecodes(h: bytes, at: nat, v: nat)
    requires at + 8 <= |h| && v < TWO64
    requires forall k | at <= k < at + 8 :: h[k] == Store64(v)[k - at]
    ensures Load64(h, at) == v
  {
    Pow256Eight();
    LoadStore(v, 8);
    assert h[at..at + 8] == Store64(v);
  }

  lemma MultiEntryByte(gen: nat, es: seq<Entry>, i: nat, j: nat)
    requires |es| <= TX_MAX && i < |es| && j < 16
    ensures MultiByte(gen, es, EntryAt(i) + j) == EntryByte(es[i], j)
  {
    var k := EntryAt(i) + j;
    assert (k - 24) / 16 == i && (k - 24) % 16 == j;
  }

  lemma MultiSectorDecodes(size: nat, gen: nat, es: seq<Entry>, i: nat)
    requires size >= 512 && |es| <= TX_MAX && i < |es| && es[i].sector < TWO64
    ensures Load64(EncodeMulti(size, gen, es), EntryAt(i)) == es[i].sector
  {
    var h, at := EncodeMulti(size, gen, es), EntryAt(i);
    forall k | at <= k < at + 8
      ensures h[k] == Store64(es[i].sector)[k - at]
    {
      MultiEntryByte(gen, es, i, k - at);
    }
    FieldDecodes(h, at, es[i].sector);
  }

  lemma MultiSumDecodes(size: nat, gen: nat, es: seq<Entry>, i: nat)
    requires size >= 512 && |es| <= TX_MAX && i < |es| && es[i].sum < TWO64
    ensures Load64(EncodeMulti(size, gen, es), EntryAt(i) + 8) == es[i].sum
  {
    var h, at := EncodeMulti(size, gen, es), EntryAt(i) + 8;
    forall k | at <= k < at + 8
      ensures h[k] == Store64(es[i].sum)[k - at]
    {
      MultiEntryByte(gen, es, i, k - EntryAt(i));
    }
    FieldDecodes(h, at, es[i].sum);
  }

  lemma MultiCountDecodes(size: nat, gen: nat, es: seq<Entry>)
    requires size >= 512 && |es| <= TX_MAX
    ensures Load64(EncodeMulti(size, gen, es), 0) == TX_MAGIC
    ensures Load(EncodeMulti(size, gen, es)[16..20]) == |es|
  {
    var h := EncodeMulti(size, gen, es);
    FieldDecodes(h, 0, TX_MAGIC);
    assert h[16..20][1..] == h[17..20];
    LoadZeros(h[17..20]);
  }

  /** Replay reads from a transaction header what the writer put there. */
  lemma MultiRoundTrip(size: nat, gen: nat, es: seq<Entry>)
    requires size >= 512 && 0 < |es| <= TX_MAX
    requires forall i | 0 <= i < |es| :: es[i].sector < TWO64 && es[i].sum < TWO64
    ensures Decode(EncodeMulti(size, gen, es)) == Multi(es)
  {
    var h := EncodeMulti(size, gen, es);
    MultiCountDecodes(size, gen, es);
    forall i | 0 <= i < |es|
      ensures DecodeEntry(h, EntryAt(i)) == es[i]
    {
      MultiSectorDecodes(size, gen, es, i);
      MultiSumDecodes(size, gen, es, i);
    }
    assert Decode(h).entries == es;
  }

  lemma SingleTargetDecodes(h: bytes, e: Entry, sequence: nat)
    requires |h| >= 512 && e.sector < TWO64
    requires forall k | 0 <= k < |h| :: h[k] == SingleByte(e, sequence, k)
    ensures Load64(h, 8) == e.sector
  {
    assert forall k | 8 <= k < 16 :: h[k] == Store64(e.sector)[k - 8];
    FieldDecodes(h, 8, e.sector);
  }

  lemma SingleSequenceDecodes(h: bytes, e: Entry, sequence: nat)
    requires |h| >= 512 && sequence < TWO64
    requires forall k | 0 <= k < |h| :: h[k] == SingleByte(e, sequence, k)
    ensures Load64(h, 16) == sequence
  {
    assert forall k | 16 <= k < 24 :: h[k] == Store64(sequence)[k - 16];
    FieldDecodes(h, 16, sequence);
  }

  lemma SingleSumDecodes(h: bytes, e: Entry, sequence: nat)
    requires |h| >= 512 && e.sum < TWO64
    requires forall k | 0 <= k < |h| :: h[k] == SingleByte(e, sequence, k)
    ensures Load64(h, 32) == e.sum
  {
    assert forall k | 32 <= k < 40 :: h[k] == Store64(e.sum)[k - 32];
    FieldDecodes(h, 32, e.sum);
  }

  /** Replay reads from a single-sector header what the writer put there. */
  lemma SingleRoundTrip(size: nat, e: Entry, sequence: nat)
    requires size >= 512 && e.sector < TWO64 && e.sum < TWO64 && sequence < TWO64
    ensures Decode(EncodeSingle(size, e, sequence)) == Single(e, sequence)
  {
    var h := EncodeSingle(size, e, sequence);
    FieldDecodes(h, 0, SINGLE_MAGIC);
    SingleTargetDecodes(h, e, sequence);
    SingleSequenceDecodes(h, e, sequence);
    SingleSumDecodes(h, e, sequence);
  }

  /** An erased header says nothing. */
  lemma BlankDecodes(size: nat)
    requires size >= 512
    ensures Decode(Zeros(size)) == Empty
  {
    LoadZeros(Zeros(size)[0..8]);
  }

  lemma Load64Is(b: bytes, at: nat)
    requires at + 8 <= |b|
    ensures Load64(b, at) == Eight(b, at)
  {
    EightIs(b, at);
    assert Load64(b, at) == Field(b, at, 8);
  }

  /** A transaction header on disk: magic, generation and count, then target and checksum
      of each sector. */
  lemma MultiOnDisk(size: nat, gen: nat, es: seq<Entry>)
    requires size >= 512 && |es| <= TX_MAX && gen < TWO64
    ensures var h := EncodeMulti(size, gen, es);
            Eight(h, 0) == 0x5254_584A_4E4C_5631 && Eight(h, 8) == gen && Four(h, 16) == |es|
  {
    var h := EncodeMulti(size, gen, es);
    MultiCountDecodes(size, gen, es);
    Load64Is(h, 0);
    CountIs(h);
    GenerationDecodes(h, gen, es);
    Load64Is(h, 8);
  }

  lemma CountIs(h: bytes)
    requires |h| >= 20
    ensures Load(h[16..20]) == Four(h, 16)
  {
    FourIs(h, 16);
  }

  lemma GenerationDecodes(h: bytes, gen: nat, es: seq<Entry>)
    requires |h| >= 512 && |es| <= TX_MAX && gen < TWO64
    requires forall k | 0 <= k < |h| :: h[k] == MultiByte(gen, es, k)
    ensures Load64(h, 8) == gen
  {
    assert forall k | 8 <= k < 16 :: h[k] == Store64(gen)[k - 8];
    FieldDecodes(h, 8, gen);
  }

  lemma EntryOnDisk(size: nat, gen: nat, es: seq<Entry>, i: nat)
    requires size >= 512 && |es| <= TX_MAX && i < |es| && es[i].sector < TWO64 && es[i].sum < TWO64
    ensures var h := EncodeMulti(size, gen, es);
            Eight(h, 24 + 16 * i) == es[i].sector && Eight(h, 32 + 16 * i) == es[i].sum
  {
    var h := EncodeMulti(size, gen, es);
    MultiSectorDecodes(size, gen, es, i);
    MultiSumDecodes(size, gen, es, i);
    Load64Is(h, 24 + 16 * i);
    Load64Is(h, 32 + 16 * i);
  }

  /** A single-sector header on disk: magic, target, generation, checksum. */
  lemma SingleOnDisk(size: nat, e: Entry, sequence: nat)
    requires size >= 512 && e.sector < TWO64 && e.sum < TWO64 && sequence < TWO64
    ensures var h := EncodeSingle(size, e, sequence);
            && Eight(h, 0) == 0x524A_4E4C_5631_0001 && Eight(h, 8) == e.sector
            && Eight(h, 16) == sequence && Eight(h, 32) == e.sum
  {
    var h := EncodeSingle(size, e, sequence);
    FieldDecodes(h, 0, SINGLE_MAGIC);
    SingleTargetDecodes(h, e, sequence);
    SingleSequenceDecodes(h, e, sequence);
    SingleSumDecodes(h, e, sequence);
    Load64Is(h, 0);
    Load64Is(h, 8);
    Load64Is(h, 16);
    Load64Is(h, 32);
  }
}
