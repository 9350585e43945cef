/** A directory as a file of sectors: lookup, iteration, removal and append. */
module Directory {
  import opened Common
  import opened Bytes
  import opened DirRecords

  const NAME_MAX: nat := 255

  // ----------------------------------------------------- contents of a directory

  ghost function SectorList(b: bytes): seq<Entry> {
    if Tiles(b, 0, |b|) then List(b, 0, |b|) else []
  }

  ghost function Concat(f: bytes -> seq<Entry>, secs: seq<bytes>): seq<Entry> {
    if secs == [] then [] else f(secs[0]) + Concat(f, secs[1..])
  }

  ghost function ListOf(): bytes -> seq<Entry> {
    b => SectorList(b)
  }

  /** All entries, sector by sector. */
  ghost function Listing(secs: seq<bytes>): seq<Entry> {
    Concat(ListOf(), secs)
  }

  /** Every sector untouched or filled by records. */
  ghost predicate SoundDir(secs: seq<bytes>, ss: nat) {
    forall k :: 0 <= k < |secs| ==> |secs[k]| == ss && Sound(secs[k])
  }

  /** The file contents. */
  function Flat(secs: seq<bytes>): bytes {
    if secs == [] then [] else secs[0] + Flat(secs[1..])
  }

  lemma {:induction false} ConcatAppend(f: bytes -> seq<Entry>, a: seq<bytes>, b: seq<bytes>)
    ensures Concat(f, a + b) == Concat(f, a) + Concat(f, b)
  {
    if a == [] {
      assert a + b == b;
    } else {
      ConcatAppend(f, a[1..], b);
      assert (a + b)[1..] == a[1..] + b;
    }
  }

  /** One sector among the others. */
  lemma ListingSplit(before: seq<bytes>, b: bytes, after: seq<bytes>)
    ensures Listing(before + [b] + after) == Listing(before) + SectorList(b) + Listing(after)
  {
    ConcatAppend(ListOf(), before + [b], after);
    ConcatAppend(ListOf(), before, [b]);
    assert Concat(ListOf(), [b]) == SectorList(b) + Concat(ListOf(), []);
  }

  // ------------------------------------------------------------------ walking

  /** Where a reader stands: at byte `at` of the first sector of `rest`, which
      starts at offset `base` of the file. */
  datatype Place = Place(base: nat, at: nat, rest: seq<bytes>) {
    function Offset(): nat {
      base + at
    }
  }

  /** The place is at a record; an untouched sector has one only at its start. */
  ghost predicate Cursor(data: bytes, ss: nat, p: Place) {
    && p.base <= |data| && data[p.base..] == Flat(p.rest) && SoundDir(p.rest, ss)
    && if p.rest == [] then p.at == 0
       else p.at < ss && Tiles(p.rest[0], 0, p.at) && (Tiles(p.rest[0], p.at, ss) || (p.at == 0 && Zero(p.rest[0])))
  }

  /** Entries from the place on. */
  ghost function Remaining(p: Place): seq<Entry> {
    if p.rest == [] then []
    else (if Tiles(p.rest[0], p.at, |p.rest[0]|) then List(p.rest[0], p.at, |p.rest[0]|) else []) + Listing(p.rest[1..])
  }

  lemma CursorStart(data: bytes, ss: nat, base: nat, rest: seq<bytes>)
    requires ss > 0 && base <= |data| && data[base..] == Flat(rest) && SoundDir(rest, ss)
    ensures Cursor(data, ss, Place(base, 0, rest)) && Remaining(Place(base, 0, rest)) == Listing(rest)
  {
  }

  /** Sector `s` lies in `data` from `base` on: the records there are the same. */
  lemma SameRecordThere(data: bytes, base: nat, s: bytes, i: nat, off: nat)
    requires base + |s| <= |data| && i + HEADER <= |s| && off == base + i
    requires forall k :: 0 <= k < |s| ==> data[base + k] == s[k]
    ensures Ino(data, off) == Ino(s, i) && Size(data, off) == Size(s, i) && NameLen(data, off) == NameLen(s, i)
    ensures RecordOk(s, i, |s|) ==> RecordOk(data, off, |data|)
    ensures RecordOk(s, i, |s|) && Ino(s, i) != 0 ==> EntryAt(data, off) == EntryAt(s, i)
  {
    assert data[off..off + 8] == s[i..i + 8];
    if RecordOk(s, i, |s|) && Ino(s, i) != 0 {
      var n := NameLen(s, i);
      assert data[off + HEADER..off + HEADER + n] == s[i + HEADER..i + HEADER + n];
    }
  }

  lemma FirstSector(data: bytes, ss: nat, base: nat, rest: seq<bytes>)
    requires base <= |data| && data[base..] == Flat(rest) && rest != [] && |rest[0]| == ss
    ensures base + ss <= |data| && data[base + ss..] == Flat(rest[1..])
    ensures forall k :: 0 <= k < ss ==> data[base + k] == rest[0][k]
  {
    assert data[base..] == rest[0] + Flat(rest[1..]);
    assert data[base..][ss..] == data[base + ss..];
    forall k | 0 <= k < ss ensures data[base + k] == rest[0][k] {
      assert data[base..][k] == rest[0][k];
    }
  }

  function NextOffset(data: bytes, ss: nat, off: nat): nat
    requires off + HEADER <= |data|
  {
    off + if Ino(data, off) == 0 && Size(data, off) == 0 then ss else Size(data, off)
  }

  /** What the record at an offset contributes. */
  ghost function Head(b: bytes, off: nat): seq<Entry>
    requires off + HEADER <= |b| && (Ino(b, off) != 0 ==> RecordOk(b, off, |b|))
  {
    if Ino(b, off) == 0 then [] else [EntryAt(b, off)]
  }

  /** A reader has moved from `p` to `q`, past the entries `head`. */
  ghost predicate Moved(data: bytes, ss: nat, p: Place, head: seq<Entry>, q: Place) {
    && Cursor(data, ss, q) && (q.rest == p.rest || (p.rest != [] && q.rest == p.rest[1..]))
    && Remaining(p) == head + Remaining(q)
  }

  lemma ZeroHeader(s: bytes)
    requires HEADER <= |s| && Zero(s)
    ensures Size(s, 0) == 0 && Ino(s, 0) == 0
  {
    LoadZeros(s[0..8]);
  }

  lemma HeaderFits(ss: nat, s: bytes, i: nat)
    requires HEADER <= ss == |s| && i < ss && (Tiles(s, i, ss) || (i == 0 && Zero(s)))
    ensures i + HEADER <= ss && (Ino(s, i) != 0 ==> RecordOk(s, i, ss))
  {
    if !Tiles(s, i, ss) {
      ZeroHeader(s);
    }
  }

  /** The record at the place, as the file shows it. */
  lemma RecordHere(data: bytes, ss: nat, p: Place, off: nat)
    requires HEADER <= ss && Cursor(data, ss, p) && off == p.Offset() < |data|
    ensures p.rest != [] && p.base + ss <= |data| && data[p.base + ss..] == Flat(p.rest[1..])
    ensures p.at + HEADER <= ss && off + HEADER <= |data|
    ensures Ino(data, off) == Ino(p.rest[0], p.at) && Size(data, off) == Size(p.rest[0], p.at)
    ensures Ino(data, off) != 0 ==>
              RecordOk(p.rest[0], p.at, ss) && RecordOk(data, off, |data|) && EntryAt(data, off) == EntryAt(p.rest[0], p.at)
  {
    assert |data[p.base..]| > 0;
    var s := p.rest[0];
    FirstSector(data, ss, p.base, p.rest);
    HeaderFits(ss, s, p.at);
    SameRecordThere(data, p.base, s, p.at, off);
  }

  lemma Reassociate(x: seq<Entry>, head: seq<Entry>, y: seq<Entry>, z: seq<Entry>)
    requires x == head + y
    ensures x + z == head + (y + z)
  {
  }

  /** On to the next record of the same sector. */
  lemma InSector(data: bytes, ss: nat, p: Place, q: Place, head: seq<Entry>)
    requires Cursor(data, ss, p) && p.rest != [] && q.base == p.base && q.rest == p.rest && p.at < q.at < ss
    requires Tiles(p.rest[0], p.at, ss) && Tiles(p.rest[0], q.at, ss) && Tiles(p.rest[0], 0, q.at)
    requires List(p.rest[0], p.at, ss) == head + List(p.rest[0], q.at, ss)
    ensures Moved(data, ss, p, head, q)
  {
    var s := p.rest[0];
    Reassociate(List(s, p.at, ss), head, List(s, q.at, ss), Listing(p.rest[1..]));
  }

  /** On to the next sector. */
  lemma OverEnd(data: bytes, ss: nat, p: Place, q: Place, head: seq<Entry>)
    requires ss > 0 && Cursor(data, ss, p) && p.rest != [] && p.base + ss <= |data|
    requires q == Place(p.base + ss, 0, p.rest[1..]) && data[p.base + ss..] == Flat(p.rest[1..])
    requires if Tiles(p.rest[0], p.at, ss) then List(p.rest[0], p.at, ss) == head else head == []
    ensures Moved(data, ss, p, head, q)
  {
    CursorStart(data, ss, p.base + ss, p.rest[1..]);
  }

  /** One record of a tiled stretch. */
  lemma OneMore(s: bytes, i: nat, j: nat)
    requires Tiles(s, 0, i) && Tiles(s, i, |s|) && i < |s| && j == i + Size(s, i)
    ensures Tiles(s, 0, j) && Tiles(s, j, |s|) && List(s, i, |s|) == Head(s, i) + List(s, j, |s|)
  {
    Extend(s, i);
  }

  /** The place after the record at `p`. */
  ghost function NextPlace(ss: nat, p: Place): Place
    requires p.rest != [] && p.at + HEADER <= |p.rest[0]|
  {
    var size := Size(p.rest[0], p.at);
    if size == 0 || p.at + size == ss then Place(p.base + ss, 0, p.rest[1..]) else Place(p.base, p.at + size, p.rest)
  }

  lemma StepIn(data: bytes, ss: nat, p: Place, head: seq<Entry>)
    requires HEADER <= ss && Cursor(data, ss, p) && p.rest != [] && Tiles(p.rest[0], p.at, ss)
    requires p.base + ss <= |data| && data[p.base + ss..] == Flat(p.rest[1..]) && head == Head(p.rest[0], p.at)
    ensures Moved(data, ss, p, head, NextPlace(ss, p))
  {
    var s, j := p.rest[0], p.at + Size(p.rest[0], p.at);
    var q := NextPlace(ss, p);
    OneMore(s, p.at, j);
    if j == ss {
      assert List(s, j, ss) == [];
      OverEnd(data, ss, p, q, head);
    } else {
      InSector(data, ss, p, q, head);
    }
  }

  /** One step of every reader: over an untouched sector, a hole or an entry. */
  lemma Step(data: bytes, ss: nat, p: Place) returns (q: Place)
    requires HEADER <= ss && Cursor(data, ss, p) && p.Offset() < |data|
    ensures Readable(data, ss, p.Offset()) && q.Offset() == NextOffset(data, ss, p.Offset())
    ensures Moved(data, ss, p, Head(data, p.Offset()), q)
  {
    RecordHere(data, ss, p, p.Offset());
    q := NextPlace(ss, p);
    if Tiles(p.rest[0], p.at, ss) {
      StepIn(data, ss, p, Head(data, p.Offset()));
    } else {
      ZeroHeader(p.rest[0]);
      OverEnd(data, ss, p, q, []);
    }
  }

  // ------------------------------------------------------------------ reading

  datatype Outcome = Found(off: nat) | Absent | Malformed

  /** The walk stands at `p`, having passed the entries `before`. */
  ghost predicate Passed(secs: seq<bytes>, data: bytes, ss: nat, p: Place, before: seq<Entry>) {
    && Cursor(data, ss, p) && |p.rest| <= |secs| && p.rest == secs[|secs| - |p.rest|..]
    && Listing(secs) == before + Remaining(p)
  }

  lemma PassedStart(secs: seq<bytes>, data: bytes, ss: nat)
    requires ss > 0 && data == Flat(secs) && SoundDir(secs, ss)
    ensures Passed(secs, data, ss, Place(0, 0, secs), [])
  {
    assert data[0..] == data;
    CursorStart(data, ss, 0, secs);
  }

  lemma PassedStep(secs: seq<bytes>, data: bytes, ss: nat, p: Place, before: seq<Entry>, q: Place, head: seq<Entry>)
    requires Passed(secs, data, ss, p, before) && Moved(data, ss, p, head, q)
    ensures Passed(secs, data, ss, q, before + head)
  {
    Reassociate(before + head, before, head, Remaining(q));
    if q.rest != p.rest {
      assert p.rest[1..] == secs[|secs| - |p.rest| + 1..];
    }
  }

  ghost predicate NoneNamed(es: seq<Entry>, name: bytes) {
    forall k :: 0 <= k < |es| ==> es[k].name != name
  }

  /** What a search of a sound directory finds: the first entry of that name. */
  ghost predicate Finds(secs: seq<bytes>, data: bytes, ss: nat, name: bytes, r: Outcome, p: Place, before: seq<Entry>) {
    match r
    case Malformed => false
    case Absent => NoneNamed(Listing(secs), name)
    case Found(off) =>
      && off == p.Offset() && Passed(secs, data, ss, p, before) && NoneNamed(before, name)
      && RecordOk(data, off, |data|) && Ino(data, off) != 0 && EntryAt(data, off).name == name
  }

  /** A record the readers accept: a hole that ends inside the file, or an entry
      whose name ends inside its record. */
  predicate Readable(data: bytes, ss: nat, off: nat) {
    && off + HEADER <= |data| && NextOffset(data, ss, off) <= |data|
    && (Ino(data, off) != 0 ==> RecordOk(data, off, |data|))
  }

  method ReadRecord(data: bytes, ss: nat, off: nat) returns (ok: bool, next: nat)
    requires HEADER <= ss && off < |data|
    ensures ok <==> Readable(data, ss, off)
    ensures ok ==> next == NextOffset(data, ss, off) > off
  {
    if |data| - off < HEADER {
      return false, off;
    }
    var size := Size(data, off);
    if Ino(data, off) == 0 {
      var skip := if size == 0 then ss else size;
      return skip <= |data| - off, off + skip;
    }
    if size < HEADER || size > |data| - off || NameLen(data, off) > size - HEADER {
      return false, off;
    }
    return true, off + size;
  }

  lemma PassedNext(secs: seq<bytes>, data: bytes, ss: nat, p: Place, before: seq<Entry>) returns (q: Place)
    requires HEADER <= ss && Passed(secs, data, ss, p, before) && p.Offset() < |data|
    ensures Readable(data, ss, p.Offset()) && q.Offset() == NextOffset(data, ss, p.Offset())
    ensures Passed(secs, data, ss, q, before + Head(data, p.Offset()))
  {
    q := Step(data, ss, p);
    PassedStep(secs, data, ss, p, before, q, Head(data, p.Offset()));
  }

  lemma NoneNamedYet(data: bytes, off: nat, before: seq<Entry>, name: bytes)
    requires off + HEADER <= |data| && (Ino(data, off) != 0 ==> RecordOk(data, off, |data|)) && NoneNamed(before, name)
    requires Ino(data, off) == 0 || EntryAt(data, off).name != name
    ensures NoneNamed(before + Head(data, off), name)
  {
  }

  lemma PassedAll(secs: seq<bytes>, data: bytes, ss: nat, p: Place, before: seq<Entry>)
    requires HEADER <= ss && Passed(secs, data, ss, p, before) && p.Offset() >= |data|
    ensures Listing(secs) == before
  {
    if p.rest != [] {
      FirstSector(data, ss, p.base, p.rest);
    }
  }

  /** Walk the records until one carries the name. */
  method Search(data: bytes, ss: nat, name: bytes, ghost secs: seq<bytes>)
    returns (r: Outcome, ghost p: Place, ghost before: seq<Entry>)
    requires HEADER <= ss
    ensures r.Found? ==> RecordOk(data, r.off, |data|) && Ino(data, r.off) != 0 && EntryAt(data, r.off).name == name
    ensures data == Flat(secs) && SoundDir(secs, ss) ==> Finds(secs, data, ss, name, r, p, before)
  {
    ghost var sound := data == Flat(secs) && SoundDir(secs, ss);
    p, before := Place(0, 0, secs), [];
    if sound {
      PassedStart(secs, data, ss);
    }
    var off := 0;
    while off < |data|
      invariant 0 <= off
      invariant sound ==> off == p.Offset() && Passed(secs, data, ss, p, before) && NoneNamed(before, name)
      decreases |data| - off
    {
      var ok, next := ReadRecord(data, ss, off);
      ghost var q := p;
      if sound {
        q := PassedNext(secs, data, ss, p, before);
      }
      if !ok {
        return Malformed, p, before;
      }
      if Ino(data, off) != 0 && EntryAt(data, off).name == name {
        return Found(off), p, before;
      }
      if sound {
        NoneNamedYet(data, off, before, name);
        p, before := q, before + Head(data, off);
      }
      off := next;
    }
    if sound {
      PassedAll(secs, data, ss, p, before);
    }
    r := Absent;
  }

  /** The next entry at or after the place: iterating from the start yields the
      listing. */
  method NextEntry(data: bytes, ss: nat, start: nat, ghost secs: seq<bytes>, ghost from: Place, ghost before: seq<Entry>)
    returns (code: int, off: nat, e: Entry, ghost p: Place)
    requires HEADER <= ss && Passed(secs, data, ss, from, before) && start == from.Offset()
    ensures code == 0 || code == 1
    ensures code == 1 ==> Listing(secs) == before
    ensures code == 0 ==> off == p.Offset() && Passed(secs, data, ss, p, before + [e])
  {
    off, p, e := start, from, Entry([], 0, 0);
    while off < |data|
      invariant off == p.Offset() && Passed(secs, data, ss, p, before)
      decreases |data| - off
    {
      var ok, next := ReadRecord(data, ss, off);
      ghost var q := PassedNext(secs, data, ss, p, before);
      if Ino(data, off) != 0 {
        e := EntryAt(data, off);
        return 0, next, e, q;
      }
      assert before + Head(data, off) == before;
      off, p := next, q;
    }
    PassedAll(secs, data, ss, p, before);
    code := 1;
  }

  // ------------------------------------------------------------------ sectors

  lemma {:induction false} FlatLength(secs: seq<bytes>, ss: nat)
    requires forall k :: 0 <= k < |secs| ==> |secs[k]| == ss
    ensures |Flat(secs)| == |secs| * ss
  {
    if secs != [] {
      FlatLength(secs[1..], ss);
      assert |secs| * ss == (|secs| - 1) * ss + ss;
    }
  }

  lemma ClearedRecord(s: bytes, s': bytes, i: nat, j: nat)
    requires |s'| == |s| && RecordOk(s, i, |s|) && j == i + Size(s, i)
    requires forall k :: 0 <= k < |s| ==> s'[k] == if i <= k < i + 8 then 0 else s[k]
    ensures Tiles(s', i, j) && List(s', i, j) == []
  {
    LoadZeros(s'[i..i + 8]);
    OneRecord(s', i);
  }

  /** A stretch without entries in the middle. */
  lemma JoinAround(s: bytes, i: nat, j: nat, end: nat)
    requires i <= j <= end && Tiles(s, 0, i) && Tiles(s, i, j) && List(s, i, j) == [] && Tiles(s, j, end)
    ensures Tiles(s, 0, end) && List(s, 0, end) == List(s, 0, i) + List(s, j, end)
  {
    Join(s, 0, i, j);
    assert List(s, 0, j) == List(s, 0, i);
    Join(s, 0, j, end);
  }

  /** The inode bytes of the record at `i` are zeroed: its entry is gone. */
  lemma Cleared(s: bytes, s': bytes, i: nat, j: nat)
    requires |s'| == |s| && Tiles(s, 0, i) && i < |s| && RecordOk(s, i, |s|) && j == i + Size(s, i) && Tiles(s, j, |s|)
    requires forall k :: 0 <= k < |s| ==> s'[k] == if i <= k < i + 8 then 0 else s[k]
    ensures Tiles(s', 0, |s|) && List(s', 0, |s|) == List(s, 0, i) + List(s, j, |s|)
  {
    assert Tiles(s', 0, i) && List(s', 0, i) == List(s, 0, i) by {
      SameTiles(s, s', 0, i);
    }
    assert Tiles(s', j, |s|) && List(s', j, |s|) == List(s, j, |s|) by {
      SameTiles(s, s', j, |s|);
    }
    ClearedRecord(s, s', i, j);
    JoinAround(s', i, j, |s|);
  }

  ghost function RoomIn(s: bytes): nat {
    if Tiles(s, 0, |s|) then Slack(s, 0, |s|) else |s|
  }

  lemma PackedToEnd(s: bytes, p: nat)
    requires HEADER <= |s| && Tiles(s, 0, |s|) && PackedTo(s, p)
    ensures p == |s|
  {
    TilesRest(s, 0, p, |s|);
  }

  /** In a sound sector the scan stops at the end or at the start. */
  lemma PackedSound(s: bytes, p: nat)
    requires HEADER <= |s| && Sound(s) && PackedTo(s, p)
    ensures List(s, 0, p) == SectorList(s) && Room(s, p) == RoomIn(s)
  {
    if Tiles(s, 0, |s|) {
      PackedToEnd(s, p);
    } else {
      ZeroHeader(s);
    }
  }

  /** A sector without entries that an append may take over: one hole, or never
      written. */
  predicate FreeSector(s: bytes)
    requires HEADER <= |s|
  {
    Ino(s, 0) == 0 && (Size(s, 0) == |s| || forall k :: 0 <= k < |s| ==> s[k] == 0)
  }

  lemma FreeIsEmpty(s: bytes)
    requires HEADER <= |s| && Sound(s) && FreeSector(s)
    ensures SectorList(s) == []
  {
    if Size(s, 0) == |s| {
      if Tiles(s, 0, |s|) {
        OneRecord(s, 0);
      }
    }
  }

  // ------------------------------------------------- a directory on the device

  lemma {:induction false} LessTimes(a: nat, b: nat, c: nat)
    requires a < b
    ensures a * c + c <= b * c
    decreases b
  {
    assert b * c == (b - 1) * c + c;
    if a < b - 1 {
      LessTimes(a, b - 1, c);
    }
  }

  lemma SectorAndByte(off: nat, k: nat, i: nat, ss: nat)
    requires i < ss && off == k * ss + i
    ensures off / ss == k && off % ss == i
  {
    var d, m := off / ss, off % ss;
    assert off == d * ss + m;
    if d < k {
      LessTimes(d, k, ss);
    } else if k < d {
      LessTimes(k, d, ss);
    }
  }

  /** A byte of the file, as sector and byte of the sector. */
  lemma PlaceIsSector(secs: seq<bytes>, rest: seq<bytes>, ss: nat, base: nat, at: nat, k: nat)
    requires forall j :: 0 <= j < |secs| ==> |secs[j]| == ss
    requires forall j :: 0 <= j < |rest| ==> |rest[j]| == ss
    requires k + |rest| == |secs| && base + |Flat(rest)| == |Flat(secs)| && at < ss
    ensures (base + at) / ss == k && (base + at) % ss == at
  {
    FlatLength(secs, ss);
    FlatLength(rest, ss);
    Distribute(k, |rest|, ss);
    SectorAndByte(base + at, k, at, ss);
  }

  lemma Distribute(a: nat, b: nat, c: nat)
    ensures (a + b) * c == a * c + b * c
  {
  }

  ghost predicate Without(old_: seq<Entry>, new_: seq<Entry>, at: nat) {
    at < |old_| && new_ == old_[..at] + old_[at + 1..]
  }

  lemma ZeroIsNot(s: bytes, i: nat)
    requires i + HEADER <= |s| && Ino(s, i) != 0
    ensures !Zero(s)
  {
    if forall k :: 0 <= k < |s| ==> s[k] == 0 {
      LoadZeros(s[i..i + 8]);
    }
  }

  lemma CutOut(all: seq<Entry>, rest: seq<Entry>, before: seq<Entry>, w: seq<Entry>, e: Entry, z: seq<Entry>)
    requires all == w + [e] + z && rest == w + z && all == before + ([e] + z)
    ensures Without(all, rest, |before|) && all[|before|] == e
  {
    assert |before| == |w|;
    assert all[..|before|] == w;
    assert all[|before| + 1..] == z;
  }

  lemma Regroup(a: seq<Entry>, x: seq<Entry>, head: seq<Entry>, y: seq<Entry>, b: seq<Entry>)
    ensures a + (x + (head + y)) + b == (a + x) + head + (y + b)
  {
  }

  /** The lists of a sector before and after the record at `i` is cleared. */
  lemma SectorCleared(s: bytes, i: nat, s': bytes) returns (x: seq<Entry>, e: Entry, y: seq<Entry>)
    requires |s'| == |s| && Tiles(s, 0, i) && Tiles(s, i, |s|) && i < |s| && Ino(s, i) != 0
    requires forall j :: 0 <= j < |s'| ==> s'[j] == if i <= j < i + 8 then 0 else s[j]
    ensures Sound(s') && SectorList(s') == x + y
    ensures SectorList(s) == x + ([e] + y) && List(s, i, |s|) == [e] + y && e == EntryAt(s, i)
  {
    var j := i + Size(s, i);
    OneMore(s, i, j);
    Cleared(s, s', i, j);
    Join(s, 0, i, |s|);
    x, e, y := List(s, 0, i), EntryAt(s, i), List(s, j, |s|);
  }

  lemma EntryCutOut(all: seq<Entry>, rest: seq<Entry>, before: seq<Entry>, a: seq<Entry>, x: seq<Entry>, e: Entry,
                    y: seq<Entry>, b: seq<Entry>)
    requires all == a + (x + ([e] + y)) + b && rest == a + (x + y) + b && all == before + (([e] + y) + b)
    ensures Without(all, rest, |before|) && all[|before|] == e
  {
    Regroup(a, x, [e], y, b);
    assert rest == (a + x) + (y + b);
    assert ([e] + y) + b == [e] + (y + b);
    CutOut(all, rest, before, a + x, e, y + b);
  }

  /** Clearing the record at `i` of sector `k` takes one entry out of the listing. */
  lemma RemovedAt(secs: seq<bytes>, k: nat, i: nat, s': bytes, before: seq<Entry>)
    requires k < |secs| && |s'| == |secs[k]| && Tiles(secs[k], 0, i) && Tiles(secs[k], i, |secs[k]|)
    requires i < |secs[k]| && Ino(secs[k], i) != 0
    requires forall j :: 0 <= j < |s'| ==> s'[j] == if i <= j < i + 8 then 0 else secs[k][j]
    requires Listing(secs) == before + (List(secs[k], i, |secs[k]|) + Listing(secs[k + 1..]))
    ensures Sound(s') && Without(Listing(secs), Listing(secs[k := s']), |before|)
    ensures Listing(secs)[|before|] == EntryAt(secs[k], i)
  {
    var x, e, y := SectorCleared(secs[k], i, s');
    ReplacedSector(secs, k, secs[k]);
    ReplacedSector(secs, k, s');
    assert secs[k := secs[k]] == secs;
    EntryCutOut(Listing(secs), Listing(secs[k := s']), before, Listing(secs[..k]), x, e, y, Listing(secs[k + 1..]));
  }

  lemma ReplacedSector(secs: seq<bytes>, k: nat, s: bytes)
    requires k < |secs|
    ensures Listing(secs[k := s]) == Listing(secs[..k]) + SectorList(s) + Listing(secs[k + 1..])
  {
    assert secs[k := s] == secs[..k] + [s] + secs[k + 1..];
    ListingSplit(secs[..k], s, secs[k + 1..]);
  }

  /** The entry found by a search is the first behind `before`. */
  lemma RemovedHere(secs: seq<bytes>, data: bytes, ss: nat, p: Place, before: seq<Entry>, k: nat, s': bytes)
    requires HEADER <= ss && Passed(secs, data, ss, p, before) && p.Offset() < |data|
    requires p.Offset() + HEADER <= |data| && Ino(data, p.Offset()) != 0
    requires k < |secs| && p.rest != [] && p.rest[0] == secs[k] && p.rest[1..] == secs[k + 1..]
    requires |s'| == ss && forall j :: 0 <= j < ss ==> s'[j] == if p.at <= j < p.at + 8 then 0 else secs[k][j]
    ensures Sound(s') && Without(Listing(secs), Listing(secs[k := s']), |before|)
    ensures RecordOk(data, p.Offset(), |data|) && Listing(secs)[|before|] == EntryAt(data, p.Offset())
  {
    RecordHere(data, ss, p, p.Offset());
    ZeroIsNot(secs[k], p.at);
    RemovedAt(secs, k, p.at, s', before);
  }

  class DirFile {
    const ss: nat
    /** All sectors the directory owns, in logical order; the first `visible`
        make up its contents. */
    var secs: seq<bytes>
    var visible: nat

    ghost predicate Valid()
      reads this
    {
      && 512 <= ss < 65536 && visible <= |secs|
      && (forall k :: 0 <= k < |secs| ==> |secs[k]| == ss) && SoundDir(secs[..visible], ss)
    }

    constructor (ss: nat, secs: seq<bytes>, visible: nat)
      ensures this.ss == ss && this.secs == secs && this.visible == visible
    {
      this.ss, this.secs, this.visible := ss, secs, visible;
    }

    ghost function Entries(): seq<Entry>
      requires Valid()
      reads this
    {
      Listing(secs[..visible])
    }

    /** Find a name: its first entry, or none. */
    method Lookup(name: bytes) returns (ok: bool, e: Entry)
      requires Valid()
      ensures ok <==> !NoneNamed(Entries(), name)
      ensures ok ==> e.name == name
                     && exists at :: 0 <= at < |Entries()| && Entries()[at] == e && NoneNamed(Entries()[..at], name)
    {
      var data := Flat(secs[..visible]);
      var r;
      ghost var p, before;
      r, p, before := Search(data, ss, name, secs[..visible]);
      match r {
        case Found(off) =>
          FoundEntry(secs[..visible], data, ss, name, p, before);
          return true, EntryAt(data, off);
        case Absent =>
          return false, Entry([], 0, 0);
      }
    }

    /** Remove a name: its first entry goes, everything else stays. */
    method Remove(name: bytes) returns (ok: bool, ghost at: nat)
      requires Valid()
      modifies this`secs
      ensures Valid() && |secs| == |old(secs)|
      ensures ok <==> !NoneNamed(old(Entries()), name)
      ensures !ok ==> secs == old(secs)
      ensures ok ==> Without(old(Entries()), Entries(), at) && old(Entries())[at].name == name
                     && NoneNamed(old(Entries())[..at], name)
    {
      ghost var seen := secs[..visible];
      var data := Flat(secs[..visible]);
      var r;
      ghost var p, before;
      r, p, before := Search(data, ss, name, seen);
      if r.Absent? {
        return false, 0;
      }
      ghost var k := Located(seen, data, ss, name, p, before);
      var logical, inner := SectorOf(r.off, ss, seen, p.rest, p.base, p.at, k);
      ClearAt(logical, inner);
      RemovedFound(seen, data, ss, name, p, before, k, secs[..visible]);
      return true, |before|;
    }

    /** Zero the inode of the record at `i` of sector `k`. */
    method ClearAt(k: nat, i: nat)
      requires k < visible <= |secs| && i + 8 <= |secs[k]|
      modifies this`secs
      ensures |secs| == |old(secs)| && secs == old(secs)[k := secs[k]] && |secs[k]| == |old(secs)[k]|
      ensures secs[..visible] == old(secs)[..visible][k := secs[k]]
      ensures forall j :: 0 <= j < |secs[k]| ==> secs[k][j] == if i <= j < i + 8 then 0 else old(secs)[k][j]
    {
      var buffer := ClearInode(secs[k], i);
      secs := secs[k := buffer];
    }

    /** Pack the entry behind the last one of the last sector. */
    method PackTail(e: Entry) returns (fit: bool)
      requires Valid() && visible > 0 && 0 < e.inode < TWO64 && |e.name| <= NAME_MAX
      modifies this`secs
      ensures |secs| == |old(secs)| && (fit <==> FitsTail(old(secs), visible, e))
      ensures !fit ==> secs == old(secs)
      ensures fit ==> secs == old(secs)[visible - 1 := secs[visible - 1]] && Placed(secs[visible - 1], ss)
                      && SectorList(secs[visible - 1]) == SectorList(old(secs)[visible - 1]) + [e]
    {
      var last := secs[visible - 1];
      assert last == secs[..visible][visible - 1];
      var b: array<byte> := new byte[ss](i requires 0 <= i < ss => last[i]);
      assert b[..] == last;
      var code;
      ghost var p;
      code, p := TailFit(b, e);
      PackedSound(last, p);
      fit := code == 1;
      if fit {
        secs := secs[visible - 1 := b[..]];
      }
    }

    method TryTail(e: Entry) returns (fit: bool)
      requires Valid() && visible > 0 && 0 < e.inode < TWO64 && |e.name| <= NAME_MAX
      modifies this`secs
      ensures Valid() && |secs| == |old(secs)| && (fit <==> FitsTail(old(secs), visible, e))
      ensures !fit ==> secs == old(secs)
      ensures fit ==> multiset(Entries()) == multiset(old(Entries())) + multiset{e}
    {
      ghost var before := secs[..visible];
      fit := PackTail(e);
      if fit {
        Gained(before, secs[..visible], visible - 1, e);
        Replaced(before, secs[..visible], ss, visible - 1);
      }
    }

    /** The first sector among the visible ones that holds nothing. */
    method FindFree() returns (k: int)
      requires Valid()
      ensures -1 <= k < visible
      ensures k == -1 <==> !HasFree(secs, visible)
      ensures k >= 0 ==> FreeSector(secs[k])
    {
      k := 0;
      while k < visible
        invariant 0 <= k <= visible
        invariant forall j :: 0 <= j < k ==> !FreeSector(secs[j])
      {
        if FreeSector(secs[k]) {
          return;
        }
        k := k + 1;
      }
      k := -1;
    }

    /** Take over sector `k` with one record. */
    method Overwrite(k: nat, e: Entry)
      requires 512 <= ss < 65536 && k < |secs| && |secs[k]| == ss && 0 < e.inode < TWO64 && |e.name| <= NAME_MAX
      modifies this`secs
      ensures |secs| == |old(secs)| && secs == old(secs)[k := secs[k]] && Placed(secs[k], ss)
      ensures SectorList(secs[k]) == [e]
    {
      var b := WriteWhole(secs[k], e);
      secs := secs[k := b];
    }

    method AppendFree(k: nat, e: Entry)
      requires Valid() && k < visible && FreeSector(secs[k]) && 0 < e.inode < TWO64 && |e.name| <= NAME_MAX
      modifies this`secs
      ensures Valid() && |secs| == |old(secs)|
      ensures multiset(Entries()) == multiset(old(Entries())) + multiset{e}
    {
      ghost var before := secs[..visible];
      Overwrite(k, e);
      TakenOver(before, secs[..visible], ss, k, e);
    }

    /** Use a sector owned but not visible. Only the first sector of an empty
        directory becomes visible by it. */
    method AppendSpare(e: Entry)
      requires Valid() && visible < |secs| && 0 < e.inode < TWO64 && |e.name| <= NAME_MAX
      modifies this`secs, this`visible
      ensures Valid() && |secs| == |old(secs)| && visible == if old(visible) == 0 then 1 else old(visible)
      ensures Entries() == if old(visible) == 0 then [e] else old(Entries())
    {
      ghost var before := secs[..visible];
      Overwrite(visible, e);
      if visible == 0 {
        visible := 1;
        OneSector(secs[..1], e);
      } else {
        assert secs[..visible] == before;
      }
    }

    method AppendNew(e: Entry, place: nat)
      requires Valid() && visible == |secs| && place <= |secs| && 0 < e.inode < TWO64 && |e.name| <= NAME_MAX
      modifies this`secs, this`visible
      ensures Valid() && visible == |secs|
      ensures multiset(Entries()) == multiset(old(Entries())) + multiset{e}
    {
      var b := WriteWhole(Zeros(ss), e);
      assert secs[..visible] == secs;
      Inserted(secs, place, b, e);
      SoundInserted(secs, ss, place, b);
      secs := secs[..place] + [b] + secs[place..];
      visible := visible + 1;
      assert secs[..visible] == secs;
    }

    /** Add an entry: behind the last one if it fits, else in an empty sector,
        else in a sector owned but not yet visible, else in a new one, which the
        extents put at position `place` (-1: none to be had). */
    method Append(e: Entry, place: int) returns (code: int)
      requires Valid() && 0 < e.inode < TWO64 && |e.name| <= NAME_MAX && -1 <= place <= |secs|
      modifies this`secs, this`visible
      ensures Valid()
      ensures code == if NeedsSector(old(secs), old(visible), e) && place == -1 then -4 else 0
      ensures code != 0 ==> secs == old(secs) && visible == old(visible)
      ensures code == 0 && Lost(old(secs), old(visible), e) ==> Entries() == old(Entries())
      ensures code == 0 && !Lost(old(secs), old(visible), e) ==>
                multiset(Entries()) == multiset(old(Entries())) + multiset{e}
      ensures Tight(old(secs), old(visible)) ==> Tight(secs, visible)
    {
      if visible > 0 {
        var fit := TryTail(e);
        if fit {
          return 0;
        }
      }
      var k := FindFree();
      if k >= 0 {
        AppendFree(k, e);
      } else if visible < |secs| {
        AppendSpare(e);
      } else if place == -1 {
        return -4;
      } else {
        AppendNew(e, place);
      }
      code := 0;
    }
  }

  ghost predicate Placed(s: bytes, ss: nat) {
    |s| == ss && Sound(s)
  }

  lemma Replaced(secs: seq<bytes>, secs': seq<bytes>, ss: nat, k: nat)
    requires SoundDir(secs, ss) && k < |secs| == |secs'| && secs' == secs[k := secs'[k]] && Placed(secs'[k], ss)
    ensures SoundDir(secs', ss)
  {
  }

  lemma SoundInserted(secs: seq<bytes>, ss: nat, at: nat, b: bytes)
    requires SoundDir(secs, ss) && at <= |secs| && Placed(b, ss)
    ensures SoundDir(secs[..at] + [b] + secs[at..], ss)
  {
  }

  method WriteWhole(s: bytes, e: Entry) returns (r: bytes)
    requires 512 <= |s| < 65536 && 0 < e.inode < TWO64 && |e.name| <= NAME_MAX
    ensures Placed(r, |s|) && SectorList(r) == [e] && RoomIn(r) == |s| - HEADER - |e.name| && Ino(r, 0) == e.inode
  {
    var b: array<byte> := new byte[|s|](i requires 0 <= i < |s| => s[i]);
    WriteAt(b, 0, e.inode, b.Length, e.kind, e.name);
    EntryAlone(b[..], e);
    OneRecord(b[..], 0);
    r := b[..];
  }

  // ------------------------------------------------------ where an append goes

  ghost predicate FitsTail(secs: seq<bytes>, visible: nat, e: Entry) {
    0 < visible <= |secs| && HEADER + |e.name| <= RoomIn(secs[visible - 1])
  }

  ghost predicate HasFree(secs: seq<bytes>, visible: nat)
    requires visible <= |secs| && forall k :: 0 <= k < |secs| ==> HEADER <= |secs[k]|
  {
    exists k :: 0 <= k < visible && FreeSector(secs[k])
  }

  /** The entry goes to a sector behind the visible ones, and the size is not
      raised: nobody will see it. */
  ghost predicate Lost(secs: seq<bytes>, visible: nat, e: Entry)
    requires visible <= |secs| && forall k :: 0 <= k < |secs| ==> HEADER <= |secs[k]|
  {
    !FitsTail(secs, visible, e) && !HasFree(secs, visible) && 0 < visible < |secs|
  }

  ghost predicate NeedsSector(secs: seq<bytes>, visible: nat, e: Entry)
    requires visible <= |secs| && forall k :: 0 <= k < |secs| ==> HEADER <= |secs[k]|
  {
    !FitsTail(secs, visible, e) && !HasFree(secs, visible) && visible == |secs|
  }

  /** All sectors visible, or a single one reserved by the creation of the
      directory: no entry is ever lost then. */
  ghost predicate Tight(secs: seq<bytes>, visible: nat) {
    visible == |secs| || (visible == 0 && |secs| == 1)
  }

  lemma Gained(secs: seq<bytes>, secs': seq<bytes>, k: nat, e: Entry)
    requires k < |secs| && |secs'| == |secs| && secs' == secs[k := secs'[k]]
    requires SectorList(secs'[k]) == SectorList(secs[k]) + [e]
    ensures multiset(Listing(secs')) == multiset(Listing(secs)) + multiset{e}
  {
    ReplacedSector(secs, k, secs[k]);
    ReplacedSector(secs, k, secs'[k]);
    assert secs[k := secs[k]] == secs;
    OneMoreIn(Listing(secs[..k]), SectorList(secs[k]), e, Listing(secs[k + 1..]));
  }

  lemma TakenOver(secs: seq<bytes>, secs': seq<bytes>, ss: nat, k: nat, e: Entry)
    requires HEADER <= ss && SoundDir(secs, ss) && k < |secs| == |secs'| && FreeSector(secs[k])
    requires secs' == secs[k := secs'[k]] && Placed(secs'[k], ss) && SectorList(secs'[k]) == [e]
    ensures SoundDir(secs', ss) && multiset(Listing(secs')) == multiset(Listing(secs)) + multiset{e}
  {
    FreeIsEmpty(secs[k]);
    assert SectorList(secs'[k]) == SectorList(secs[k]) + [e];
    Gained(secs, secs', k, e);
  }

  lemma OneMoreIn(a: seq<Entry>, x: seq<Entry>, e: Entry, b: seq<Entry>)
    ensures multiset(a + (x + [e]) + b) == multiset(a + x + b) + multiset{e}
  {
  }

  lemma OneSector(secs: seq<bytes>, e: Entry)
    requires |secs| == 1 && SectorList(secs[0]) == [e]
    ensures Listing(secs) == [e]
  {
    ListingSplit([], secs[0], []);
    assert [] + [secs[0]] + [] == secs;
  }

  lemma Inserted(secs: seq<bytes>, at: nat, b: bytes, e: Entry)
    requires at <= |secs| && SectorList(b) == [e]
    ensures multiset(Listing(secs[..at] + [b] + secs[at..])) == multiset(Listing(secs)) + multiset{e}
  {
    ListingSplit(secs[..at], b, secs[at..]);
    ListingJoin(secs, at);
    BetweenThem(Listing(secs[..at]), e, Listing(secs[at..]));
  }

  lemma ListingJoin(secs: seq<bytes>, at: nat)
    requires at <= |secs|
    ensures Listing(secs) == Listing(secs[..at]) + Listing(secs[at..])
  {
    ConcatAppend(ListOf(), secs[..at], secs[at..]);
    assert secs == secs[..at] + secs[at..];
  }

  lemma BetweenThem(a: seq<Entry>, e: Entry, b: seq<Entry>)
    ensures multiset(a + [e] + b) == multiset(a + b) + multiset{e}
  {
  }

  method ClearInode(s: bytes, i: nat) returns (b: bytes)
    requires i + 8 <= |s|
    ensures |b| == |s| && forall j :: 0 <= j < |s| ==> b[j] == if i <= j < i + 8 then 0 else s[j]
  {
    b := s;
    var j := 0;
    while j < 8
      invariant 0 <= j <= 8 && |b| == |s|
      invariant forall k :: 0 <= k < |s| ==> b[k] == if i <= k < i + j then 0 else s[k]
    {
      b := b[i + j := 0];
      j := j + 1;
    }
  }

  /** Sector and byte of a file offset. */
  method SectorOf(off: nat, ss: nat, ghost secs: seq<bytes>, ghost rest: seq<bytes>, ghost base: nat, ghost at: nat,
                  ghost k: nat)
    returns (logical: nat, inner: nat)
    requires forall j :: 0 <= j < |secs| ==> |secs[j]| == ss
    requires forall j :: 0 <= j < |rest| ==> |rest[j]| == ss
    requires k + |rest| == |secs| && base + |Flat(rest)| == |Flat(secs)| && at < ss && off == base + at
    ensures logical == k && inner == at
  {
    PlaceIsSector(secs, rest, ss, base, at, k);
    logical, inner := off / ss, off % ss;
  }

  lemma Located(secs: seq<bytes>, data: bytes, ss: nat, name: bytes, p: Place, before: seq<Entry>) returns (k: nat)
    requires HEADER <= ss && data == Flat(secs) && SoundDir(secs, ss)
    requires Finds(secs, data, ss, name, Found(p.Offset()), p, before)
    ensures k < |secs| && k + |p.rest| == |secs| && p.base + |Flat(p.rest)| == |data| && p.at + HEADER <= ss
    ensures p.rest != [] && p.rest[0] == secs[k] && p.rest[1..] == secs[k + 1..]
    ensures |before| < |Listing(secs)| && Listing(secs)[..|before|] == before && !NoneNamed(Listing(secs), name)
    ensures Listing(secs)[|before|].name == name
  {
    FoundEntry(secs, data, ss, name, p, before);
    RecordHere(data, ss, p, p.Offset());
    assert |data[p.base..]| == |data| - p.base;
    k := |secs| - |p.rest|;
  }

  lemma RemovedFound(secs: seq<bytes>, data: bytes, ss: nat, name: bytes, p: Place, before: seq<Entry>, k: nat,
                     secs': seq<bytes>)
    requires HEADER <= ss && SoundDir(secs, ss) && Finds(secs, data, ss, name, Found(p.Offset()), p, before)
    requires k < |secs| == |secs'| && p.rest != [] && p.rest[0] == secs[k] && p.rest[1..] == secs[k + 1..]
    requires secs' == secs[k := secs'[k]] && |secs'[k]| == ss
    requires forall j :: 0 <= j < ss ==> secs'[k][j] == if p.at <= j < p.at + 8 then 0 else secs[k][j]
    ensures SoundDir(secs', ss) && Without(Listing(secs), Listing(secs'), |before|)
  {
    var s' := secs'[k];
    RemovedHere(secs, data, ss, p, before, k, s');
    assert Placed(s', ss);
    Replaced(secs, secs', ss, k);
  }

  lemma FoundEntry(secs: seq<bytes>, data: bytes, ss: nat, name: bytes, p: Place, before: seq<Entry>)
    requires HEADER <= ss && Finds(secs, data, ss, name, Found(p.Offset()), p, before)
    ensures |before| < |Listing(secs)| && Listing(secs)[|before|] == EntryAt(data, p.Offset())
    ensures Listing(secs)[..|before|] == before && !NoneNamed(Listing(secs), name)
  {
    var q := Step(data, ss, p);
    assert Listing(secs) == before + ([EntryAt(data, p.Offset())] + Remaining(q));
    assert Listing(secs)[|before|].name == name;
  }

  /** A directory with a spare sector and no room in its visible one: the append
      reports success and the entry is not there. */
  method LostAppend() returns (d: DirFile, e: Entry, code: int)
    ensures d.Valid() && code == 0 && e !in d.Entries()
  {
    var first := Entry(seq(NAME_MAX, _ => 97), 1, 2);
    e := Entry(seq(NAME_MAX, _ => 98), 2, 2);
    var b := WriteWhole(Zeros(512), first);
    d := new DirFile(512, [b, Zeros(512)], 1);
    assert d.secs[..1] == [b];
    OneSector([b], first);
    assert first.name[0] != e.name[0];
    code := d.Append(e, -1);
  }
}
