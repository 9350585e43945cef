/** Directory records packed into a sector: a 16-byte header (inode, record size,
    type, name length, flags), then the name. A record whose inode is zero is a
    hole. */
module DirRecords {
  import opened Common
  import opened Bytes

  const HEADER: nat := 16

  datatype Entry = Entry(name: bytes, inode: nat, kind: byte)

  function Ino(b: bytes, off: nat): nat
    requires off + HEADER <= |b|
  {
    Load64(b, off)
  }

  function Size(b: bytes, off: nat): nat
    requires off + HEADER <= |b|
  {
    b[off + 8] as int + 256 * b[off + 9] as int
  }

  function NameLen(b: bytes, off: nat): nat
    requires off + HEADER <= |b|
  {
    b[off + 11]
  }

  /** A record inside [off, end). */
  predicate RecordOk(b: bytes, off: nat, end: nat) {
    && off + HEADER <= end <= |b|
    && HEADER <= Size(b, off) && off + Size(b, off) <= end
    && (Ino(b, off) != 0 ==> NameLen(b, off) <= Size(b, off) - HEADER)
  }

  function EntryAt(b: bytes, off: nat): Entry
    requires RecordOk(b, off, |b|) && Ino(b, off) != 0
  {
    Entry(b[off + HEADER..off + HEADER + NameLen(b, off)], Ino(b, off), b[off + 10])
  }

  /** Records fill [off, end) without gap or overlap. */
  ghost predicate Tiles(b: bytes, off: nat, end: nat)
    decreases end - off
  {
    off == end <= |b| || (off < end && RecordOk(b, off, end) && Tiles(b, off + Size(b, off), end))
  }

  /** The entries of a tiled stretch, in order. */
  ghost function List(b: bytes, off: nat, end: nat): seq<Entry>
    requires Tiles(b, off, end)
    decreases end - off
  {
    if off == end then []
    else (if Ino(b, off) == 0 then [] else [EntryAt(b, off)]) + List(b, off + Size(b, off), end)
  }

  /** Bytes free at the end of the last record. */
  ghost function Slack(b: bytes, off: nat, end: nat): nat
    requires Tiles(b, off, end)
    decreases end - off
  {
    if off == end then 0
    else if off + Size(b, off) == end then
      if Ino(b, off) == 0 then Size(b, off) else Size(b, off) - HEADER - NameLen(b, off)
    else Slack(b, off + Size(b, off), end)
  }

  // ---------------------------------------------------------- frames and joins

  ghost predicate Agree(b: bytes, b': bytes, lo: nat, hi: nat) {
    hi <= |b| && hi <= |b'| && forall k :: lo <= k < hi ==> b[k] == b'[k]
  }

  lemma SameHeader(b: bytes, b': bytes, off: nat)
    requires Agree(b, b', off, off + HEADER)
    ensures Ino(b, off) == Ino(b', off) && Size(b, off) == Size(b', off) && NameLen(b, off) == NameLen(b', off)
  {
    assert b[off..off + 8] == b'[off..off + 8];
  }

  lemma SameRecord(b: bytes, b': bytes, off: nat, end: nat)
    requires RecordOk(b, off, end) && Agree(b, b', off, end)
    ensures RecordOk(b', off, end) && Size(b', off) == Size(b, off) && Ino(b', off) == Ino(b, off)
    ensures NameLen(b', off) == NameLen(b, off)
    ensures Ino(b, off) != 0 ==> EntryAt(b', off) == EntryAt(b, off)
  {
    SameHeader(b, b', off);
    if Ino(b, off) != 0 {
      var hi := off + HEADER + NameLen(b, off);
      assert b[off + HEADER..hi] == b'[off + HEADER..hi];
    }
  }

  lemma {:induction false} SameTiles(b: bytes, b': bytes, off: nat, end: nat)
    requires Tiles(b, off, end) && Agree(b, b', off, end)
    ensures Tiles(b', off, end) && List(b', off, end) == List(b, off, end) && Slack(b', off, end) == Slack(b, off, end)
    decreases end - off
  {
    if off < end {
      SameRecord(b, b', off, end);
      SameTiles(b, b', off + Size(b, off), end);
    }
  }

  lemma {:induction false} Join(b: bytes, off: nat, mid: nat, end: nat)
    requires Tiles(b, off, mid) && Tiles(b, mid, end) && off <= mid <= end
    ensures Tiles(b, off, end) && List(b, off, end) == List(b, off, mid) + List(b, mid, end)
    decreases mid - off
  {
    if off < mid {
      var next := off + Size(b, off);
      Join(b, next, mid, end);
      var head := if Ino(b, off) == 0 then [] else [EntryAt(b, off)];
      assert List(b, off, mid) == head + List(b, next, mid);
      assert List(b, off, end) == head + List(b, next, end);
    }
  }

  lemma {:induction false} JoinSlack(b: bytes, off: nat, mid: nat, end: nat)
    requires Tiles(b, off, mid) && Tiles(b, mid, end) && Tiles(b, off, end) && off <= mid < end
    ensures Slack(b, off, end) == Slack(b, mid, end)
    decreases mid - off
  {
    if off < mid {
      JoinSlack(b, off + Size(b, off), mid, end);
    }
  }

  lemma OneRecord(b: bytes, off: nat)
    requires RecordOk(b, off, |b|)
    ensures Tiles(b, off, off + Size(b, off))
    ensures List(b, off, off + Size(b, off)) == if Ino(b, off) == 0 then [] else [EntryAt(b, off)]
    ensures Slack(b, off, off + Size(b, off))
         == if Ino(b, off) == 0 then Size(b, off) else Size(b, off) - HEADER - NameLen(b, off)
  {
    var end := off + Size(b, off);
    assert Tiles(b, end, end);
  }

  // ------------------------------------------------------------ writing records

  /** One record, in place. The flags keep their old value. */
  method WriteAt(b: array<byte>, at: nat, ino: nat, size: nat, kind: byte, name: bytes)
    requires at + HEADER + |name| <= b.Length && ino < TWO64 && size < 65536 && |name| < 256
    modifies b
    ensures forall k :: 0 <= k < b.Length && !(at <= k < at + HEADER + |name|) ==> b[k] == old(b[k])
    ensures Ino(b[..], at) == ino && Size(b[..], at) == size && NameLen(b[..], at) == |name| && b[at + 10] == kind
    ensures b[at + HEADER..at + HEADER + |name|] == name
  {
    StoreField(b, at, ino);
    b[at + 8] := size % 256;
    b[at + 9] := size / 256;
    b[at + 10] := kind;
    b[at + 11] := |name|;
    var i := 0;
    while i < |name|
      invariant 0 <= i <= |name|
      invariant forall k :: at <= k < at + 8 ==> b[k] == Store64(ino)[k - at]
      invariant b[at + 8] == size % 256 && b[at + 9] == size / 256 && b[at + 10] == kind && b[at + 11] == |name|
      invariant forall k :: 0 <= k < i ==> b[at + HEADER + k] == name[k]
      invariant forall k :: 0 <= k < b.Length && !(at <= k < at + HEADER + |name|) ==> b[k] == old(b[k])
    {
      b[at + HEADER + i] := name[i];
      i := i + 1;
    }
    assert b[..][at..at + 8] == Store64(ino);
    Pow256Eight();
    LoadStore(ino, 8);
  }

  /** A hole of the given size, zeroed. */
  method WriteHole(b: array<byte>, at: nat, size: nat)
    requires HEADER <= size < 65536 && at + size <= b.Length
    modifies b
    ensures forall k :: 0 <= k < b.Length && !(at <= k < at + size) ==> b[k] == old(b[k])
    ensures Ino(b[..], at) == 0 && Size(b[..], at) == size
  {
    var i := 0;
    while i < size
      invariant 0 <= i <= size
      invariant forall k :: at <= k < at + i ==> b[k] == 0
      invariant forall k :: 0 <= k < b.Length && !(at <= k < at + size) ==> b[k] == old(b[k])
    {
      b[at + i] := 0;
      i := i + 1;
    }
    b[at + 8] := size % 256;
    b[at + 9] := size / 256;
    LoadZeros(b[..][at..at + 8]);
  }

  /** The stretch holds this one entry. */
  ghost predicate Holds(b: bytes, at: nat, end: nat, e: Entry) {
    Tiles(b, at, end) && List(b, at, end) == [e]
  }

  lemma EntryThenHole(b: bytes, at: nat, mid: nat, end: nat, e: Entry)
    requires RecordOk(b, at, mid) && at + Size(b, at) == mid && Ino(b, at) != 0 && EntryAt(b, at) == e
    requires mid + HEADER <= end <= |b| && Ino(b, mid) == 0 && mid + Size(b, mid) == end
    ensures Holds(b, at, end, e)
  {
    OneRecord(b, at);
    OneRecord(b, mid);
    Join(b, at, mid, end);
  }

  /** Stage an entry in `avail` bytes: what is left over becomes a hole if a
      header fits, and is absorbed otherwise. */
  method Place(b: array<byte>, at: nat, avail: nat, e: Entry)
    requires HEADER + |e.name| <= avail < 65536 && at + avail <= b.Length
    requires 0 < e.inode < TWO64 && |e.name| < 256
    modifies b
    ensures forall k :: 0 <= k < b.Length && !(at <= k < at + avail) ==> b[k] == old(b[k])
    ensures Holds(b[..], at, at + avail, e)
  {
    var need := HEADER + |e.name|;
    var left := avail - need;
    if left >= HEADER {
      WriteAt(b, at, e.inode, need, e.kind, e.name);
      ghost var written := b[..];
      assert EntryAt(written, at) == e;
      WriteHole(b, at + need, left);
      SameRecord(written, b[..], at, at + need);
      EntryThenHole(b[..], at, at + need, at + avail, e);
    } else {
      WriteAt(b, at, e.inode, avail, e.kind, e.name);
      assert EntryAt(b[..], at) == e;
      OneRecord(b[..], at);
    }
  }

  // --------------------------------------------------------- the last record

  /** Records up to `p`, and nothing but zeros after. A fresh sector is packed to
      0, a sector in use to its end. */
  ghost predicate PackedTo(b: bytes, p: nat) {
    && p <= |b| && Tiles(b, 0, p)
    && (p < |b| ==> p + HEADER <= |b|) && (forall k :: p <= k < |b| ==> b[k] == 0)
  }

  /** Room behind the last record. */
  ghost function Room(b: bytes, p: nat): nat
    requires PackedTo(b, p)
  {
    if p < |b| then |b| - p else Slack(b, 0, p)
  }

  /** Where the scan of the records stops. */
  datatype Stop =
    | Corrupt
    | ZeroTail(at: nat)
    | Last(at: nat)

  ghost predicate Stopped(b: bytes, s: Stop) {
    match s
    case Corrupt => true
    case ZeroTail(p) => p < |b| && PackedTo(b, p)
    case Last(at) => Tiles(b, 0, at) && at < |b| && RecordOk(b, at, |b|) && at + Size(b, at) == |b|
  }

  ghost predicate Zero(b: bytes) {
    forall k :: 0 <= k < |b| ==> b[k] == 0
  }

  /** A directory sector as the writers leave it: untouched, or filled by records. */
  ghost predicate Sound(b: bytes) {
    Zero(b) || Tiles(b, 0, |b|)
  }

  method AllZeroFrom(b: bytes, off: nat) returns (zero: bool)
    requires off <= |b|
    ensures zero <==> forall k :: off <= k < |b| ==> b[k] == 0
  {
    var i := off;
    while i < |b|
      invariant off <= i <= |b|
      invariant forall k :: off <= k < i ==> b[k] == 0
    {
      if b[i] != 0 {
        return false;
      }
      i := i + 1;
    }
    zero := true;
  }

  lemma {:induction false} TilesRest(b: bytes, from: nat, off: nat, end: nat)
    requires Tiles(b, from, off) && Tiles(b, from, end) && from <= off <= end
    ensures Tiles(b, off, end)
    decreases off - from
  {
    if from < off {
      TilesRest(b, from + Size(b, from), off, end);
    }
  }

  lemma Extend(b: bytes, off: nat)
    requires Tiles(b, 0, off) && RecordOk(b, off, |b|)
    ensures Tiles(b, 0, off + Size(b, off))
    ensures List(b, 0, off + Size(b, off)) == List(b, 0, off) + if Ino(b, off) == 0 then [] else [EntryAt(b, off)]
  {
    OneRecord(b, off);
    Join(b, 0, off, off + Size(b, off));
  }

  lemma NextRecord(b: bytes, off: nat)
    requires Tiles(b, 0, off) && RecordOk(b, off, |b|)
    ensures Tiles(b, 0, off + Size(b, off)) && !Zero(b)
  {
    Extend(b, off);
    assert b[off + 8] != 0 || b[off + 9] != 0;
  }

  lemma SoundGoesOn(b: bytes, off: nat)
    requires Tiles(b, 0, off) && off < |b| && HEADER <= |b| && (off > 0 ==> !Zero(b)) && Sound(b)
    ensures RecordOk(b, off, |b|) || (off == 0 && Zero(b))
  {
    if Tiles(b, 0, |b|) {
      TilesRest(b, 0, off, |b|);
    }
  }

  /** Walk the records to the last one. */
  method FindStop(b: bytes) returns (s: Stop)
    requires HEADER <= |b|
    ensures Stopped(b, s)
    ensures Sound(b) ==> s != Corrupt
  {
    var off: nat, last: nat := 0, 0;
    while off < |b|
      invariant last <= off <= |b| && Tiles(b, 0, off)
      invariant off > 0 ==> !Zero(b) && Tiles(b, 0, last) && RecordOk(b, last, |b|) && last + Size(b, last) == off
    {
      if Sound(b) {
        SoundGoesOn(b, off);
      }
      if off + HEADER > |b| {
        return Corrupt;
      }
      var size := Size(b, off);
      if size == 0 {
        var zero := AllZeroFrom(b, off);
        return if zero then ZeroTail(off) else Corrupt;
      }
      if size < HEADER || off + size > |b| || (Ino(b, off) != 0 && NameLen(b, off) > size - HEADER) {
        return Corrupt;
      }
      NextRecord(b, off);
      last, off := off, off + size;
    }
    s := Last(last);
  }

  /** The entry went behind the last record exactly if there was room for it. */
  ghost predicate Fitted(was: bytes, b: bytes, p: nat, e: Entry, fit: bool) {
    && PackedTo(was, p) && (fit <==> HEADER + |e.name| <= Room(was, p))
    && if fit then |b| == |was| && Tiles(b, 0, |b|) && List(b, 0, |b|) == List(was, 0, p) + [e] else b == was
  }

  /** What was before `mid` amounts to the old entries, the rest to the new one. */
  lemma FitsBehind(was: bytes, p: nat, cut: bytes, b: bytes, mid: nat, e: Entry)
    requires |b| == |was| && PackedTo(was, p) && HEADER + |e.name| <= Room(was, p)
    requires mid <= |b| && Tiles(cut, 0, mid) && List(cut, 0, mid) == List(was, 0, p)
    requires Agree(cut, b, 0, mid) && Holds(b, mid, |b|, e)
    ensures Fitted(was, b, p, e, true)
  {
    SameTiles(cut, b, 0, mid);
    Join(b, 0, mid, |b|);
  }

  lemma EntryAlone(b: bytes, e: Entry)
    requires RecordOk(b, 0, |b|) && Size(b, 0) == |b| && Ino(b, 0) != 0 && EntryAt(b, 0) == e
    ensures Holds(b, 0, |b|, e)
  {
    OneRecord(b, 0);
  }

  method FitZeroTail(b: array<byte>, off: nat, e: Entry) returns (fit: bool)
    requires b.Length < 65536 && 0 < e.inode < TWO64 && |e.name| < 256 && Stopped(b[..], ZeroTail(off))
    modifies b
    ensures Fitted(old(b[..]), b[..], off, e, fit)
  {
    ghost var was := b[..];
    if b.Length - off < HEADER + |e.name| {
      return false;
    }
    if off == 0 {
      WriteAt(b, 0, e.inode, b.Length, e.kind, e.name);
      EntryAlone(b[..], e);
    } else {
      Place(b, off, b.Length - off, e);
    }
    FitsBehind(was, off, was, b[..], off, e);
    fit := true;
  }

  /** Fill the sector from `mid` on with the entry; `was` is the sector before. */
  method AppendBehind(b: array<byte>, mid: nat, e: Entry, ghost was: bytes)
    requires mid <= b.Length < 65536 && 0 < e.inode < TWO64 && |e.name| < 256
    requires |was| == b.Length && PackedTo(was, |was|) && HEADER + |e.name| <= Room(was, |was|) == b.Length - mid
    requires Tiles(b[..], 0, mid) && List(b[..], 0, mid) == List(was, 0, |was|)
    modifies b
    ensures Fitted(was, b[..], |was|, e, true)
  {
    ghost var cut := b[..];
    Place(b, mid, b.Length - mid, e);
    FitsBehind(was, |was|, cut, b[..], mid, e);
  }

  method FitHole(b: array<byte>, at: nat, e: Entry) returns (fit: bool)
    requires b.Length < 65536 && 0 < e.inode < TWO64 && |e.name| < 256
    requires Stopped(b[..], Last(at)) && Ino(b[..], at) == 0
    modifies b
    ensures Fitted(old(b[..]), b[..], b.Length, e, fit)
  {
    ghost var was := b[..];
    LastIsSlack(was, at);
    if Size(b[..], at) < HEADER + |e.name| {
      return false;
    }
    AppendBehind(b, at, e, was);
    fit := true;
  }

  method FitSlack(b: array<byte>, at: nat, e: Entry) returns (fit: bool)
    requires b.Length < 65536 && 0 < e.inode < TWO64 && |e.name| < 256
    requires Stopped(b[..], Last(at)) && Ino(b[..], at) != 0
    modifies b
    ensures Fitted(old(b[..]), b[..], b.Length, e, fit)
  {
    ghost var was := b[..];
    LastIsSlack(was, at);
    var size, tru := Size(b[..], at), HEADER + NameLen(b[..], at);
    if size - tru < HEADER + |e.name| {
      return false;
    }
    CutLast(b, at, tru);
    AppendBehind(b, at + tru, e, was);
    fit := true;
  }

  /** Reduce the last record to its true size. */
  method CutLast(b: array<byte>, at: nat, tru: nat)
    requires Stopped(b[..], Last(at)) && Ino(b[..], at) != 0 && tru == HEADER + NameLen(b[..], at)
    modifies b
    ensures at + tru <= b.Length && Tiles(b[..], 0, at + tru)
    ensures PackedTo(old(b[..]), b.Length) && List(b[..], 0, at + tru) == List(old(b[..]), 0, b.Length)
  {
    ghost var was := b[..];
    b[at + 8], b[at + 9] := tru % 256, tru / 256;
    ghost var cut := b[..];
    assert Size(cut, at) == tru;
    assert forall k :: 0 <= k < |cut| && k != at + 8 && k != at + 9 ==> cut[k] == was[k];
    Shrunk(was, cut, at);
  }

  /** Put the entry behind the last record of the sector, if it fits. */
  method TailFit(b: array<byte>, e: Entry) returns (code: int, ghost p: nat)
    requires HEADER <= b.Length < 65536 && 0 < e.inode < TWO64 && |e.name| < 256
    modifies b
    ensures code == 1 || code == 0 || code == -1
    ensures code == -1 ==> b[..] == old(b[..]) && !Sound(b[..])
    ensures code != -1 ==> Fitted(old(b[..]), b[..], p, e, code == 1)
  {
    var s := FindStop(b[..]);
    var fit;
    match s {
      case Corrupt =>
        return -1, 0;
      case ZeroTail(off) =>
        fit := FitZeroTail(b, off, e);
        p := off;
      case Last(at) =>
        if Ino(b[..], at) == 0 {
          fit := FitHole(b, at, e);
        } else {
          fit := FitSlack(b, at, e);
        }
        p := b.Length;
    }
    code := if fit then 1 else 0;
  }

  lemma LastIsSlack(b: bytes, at: nat)
    requires Stopped(b, Last(at))
    ensures PackedTo(b, |b|)
    ensures List(b, 0, |b|) == List(b, 0, at) + if Ino(b, at) == 0 then [] else [EntryAt(b, at)]
    ensures Slack(b, 0, |b|) == if Ino(b, at) == 0 then Size(b, at) else Size(b, at) - HEADER - NameLen(b, at)
  {
    OneRecord(b, at);
    Join(b, 0, at, |b|);
    JoinSlack(b, 0, at, |b|);
  }

  lemma ShrunkRecord(was: bytes, b: bytes, at: nat)
    requires |b| == |was| && RecordOk(was, at, |was|) && Ino(was, at) != 0
    requires forall k :: 0 <= k < |b| && k != at + 8 && k != at + 9 ==> b[k] == was[k]
    requires Size(b, at) == HEADER + NameLen(was, at)
    ensures RecordOk(b, at, |b|) && Ino(b, at) == Ino(was, at) && EntryAt(b, at) == EntryAt(was, at)
  {
    assert b[at..at + 8] == was[at..at + 8];
    var hi := at + HEADER + NameLen(was, at);
    assert b[at + HEADER..hi] == was[at + HEADER..hi];
  }

  lemma ShrunkList(was: bytes, b: bytes, at: nat)
    requires |b| == |was| && Tiles(was, 0, at) && RecordOk(was, at, |was|) && Ino(was, at) != 0
    requires forall k :: 0 <= k < |b| && k != at + 8 && k != at + 9 ==> b[k] == was[k]
    requires Size(b, at) == HEADER + NameLen(was, at)
    ensures (
      var end := at + Size(b, at);
      Tiles(b, 0, end) && List(b, 0, end) == List(was, 0, at) + [EntryAt(was, at)]
    )
  {
    ShrunkRecord(was, b, at);
    SameTiles(was, b, 0, at);
    Extend(b, at);
  }

  /** Cutting the last record to its true size keeps all entries. */
  lemma Shrunk(was: bytes, b: bytes, at: nat)
    requires |b| == |was| && Stopped(was, Last(at)) && Ino(was, at) != 0
    requires forall k :: 0 <= k < |b| && k != at + 8 && k != at + 9 ==> b[k] == was[k]
    requires Size(b, at) == HEADER + NameLen(was, at)
    ensures (
      var end := at + Size(b, at);
      Tiles(b, 0, end) && PackedTo(was, |was|) && List(b, 0, end) == List(was, 0, |was|)
    )
  {
    LastIsSlack(was, at);
    ShrunkList(was, b, at);
  }
}
