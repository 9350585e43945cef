/** Reading a directory record by record, as the checker does, from the bytes its
    extents hold. */
module DirReading {
  import opened Common
  import opened Bytes
  import opened Fsck
  import D = DirRecords
  import Dir = Directory

  /** A record on disk: inode in eight bytes, size in two, type, length of the name, four
      more bytes, and the name. */
  lemma RecordFields(b: bytes, off: nat)
    requires off + 16 <= |b|
    ensures D.Ino(b, off) == Eight(b, off) && D.Size(b, off) == b[off + 8] as int + 0x100 * b[off + 9] as int
    ensures D.NameLen(b, off) == b[off + 11]
    ensures D.RecordOk(b, off, |b|) && D.Ino(b, off) != 0 ==>
              D.EntryAt(b, off) == D.Entry(b[off + 16..off + 16 + b[off + 11]], Eight(b, off), b[off + 10])
  {
    EightIs(b, off);
    assert D.Ino(b, off) == Field(b, off, 8);
  }

  function KindOfType(t: byte): Kind {
    if t == 1 then Directory else if t == 2 then Regular else if t == 3 then Symlink else Other
  }

  function Direntry(e: D.Entry): Dirent {
    Dirent(e.inode, KindOfType(e.kind))
  }

  /** The entries from offset `off` of a directory of `size` bytes on; `data` are the
      bytes its extents hold. None at the first record that does not fit. */
  function ReadFrom(data: bytes, size: nat, ss: nat, off: nat): Option<seq<Dirent>>
    requires ss > 0
    decreases size - off
  {
    if off >= size then Some([])
    else if size - off < D.HEADER || off + D.HEADER > |data| then None
    else
      var record := D.Size(data, off);
      if D.Ino(data, off) == 0 then
        var skip := if record == 0 then ss else record;
        if skip > size - off then None else ReadFrom(data, size, ss, off + skip)
      else if record < D.HEADER || record > size - off || D.NameLen(data, off) > record - D.HEADER
              || off + D.HEADER + D.NameLen(data, off) > |data| then None
      else
        var rest := ReadFrom(data, size, ss, off + record);
        if rest.None? then None
        else Some([Dirent(D.Ino(data, off), KindOfType(data[off + 10]))] + rest.value)
  }

  /** Directory `n` with sectors `secs`. */
  function ReadDir(n: Inode, secs: seq<bytes>): Option<seq<Dirent>> {
    var ss := if secs == [] || secs[0] == [] then 1 else |secs[0]|;
    ReadFrom(Dir.Flat(secs), n.size, ss, 0)
  }

  ghost function Direntries(es: seq<D.Entry>): (ds: seq<Dirent>)
    ensures |ds| == |es|
    ensures forall k | 0 <= k < |es| :: ds[k] == Direntry(es[k])
  {
    seq(|es|, k requires 0 <= k < |es| => Direntry(es[k]))
  }

  lemma DirentriesJoin(a: seq<D.Entry>, b: seq<D.Entry>)
    ensures Direntries(a + b) == Direntries(a) + Direntries(b)
  {
  }

  /** One record of a directory whose size is what its extents hold. */
  lemma ReadOne(data: bytes, ss: nat, off: nat)
    requires D.HEADER <= ss && Dir.Readable(data, ss, off)
    ensures var rest := ReadFrom(data, |data|, ss, Dir.NextOffset(data, ss, off));
            rest.Some? ==> ReadFrom(data, |data|, ss, off) == Some(Direntries(Dir.Head(data, off)) + rest.value)
  {
    if D.Ino(data, off) != 0 {
      var e := D.EntryAt(data, off);
      assert Direntries([e]) == [Direntry(e)];
    } else {
      var rest := ReadFrom(data, |data|, ss, Dir.NextOffset(data, ss, off));
      assert rest.Some? ==> Direntries(Dir.Head(data, off)) + rest.value == rest.value;
    }
  }

  lemma {:induction false} ReadsRemaining(data: bytes, ss: nat, p: Dir.Place)
    requires D.HEADER <= ss && Dir.Cursor(data, ss, p)
    ensures ReadFrom(data, |data|, ss, p.Offset()) == Some(Direntries(Dir.Remaining(p)))
    decreases |data| - p.Offset()
  {
    if p.Offset() >= |data| {
      NothingLeft(data, ss, p);
    } else {
      var q := Dir.Step(data, ss, p);
      Progress(data, ss, p.Offset());
      ReadsRemaining(data, ss, q);
      ReadOne(data, ss, p.Offset());
      DirentriesJoin(Dir.Head(data, p.Offset()), Dir.Remaining(q));
    }
  }

  lemma NothingLeft(data: bytes, ss: nat, p: Dir.Place)
    requires D.HEADER <= ss && Dir.Cursor(data, ss, p) && p.Offset() >= |data|
    ensures p.rest == [] && Dir.Remaining(p) == []
  {
    if p.rest != [] {
      Dir.FirstSector(data, ss, p.base, p.rest);
    }
  }

  lemma Progress(data: bytes, ss: nat, off: nat)
    requires D.HEADER <= ss && Dir.Readable(data, ss, off)
    ensures Dir.NextOffset(data, ss, off) > off
  {
  }

  /** On a sound directory the checker sees exactly its entries, in order. */
  lemma ReadDirIsListing(n: Inode, secs: seq<bytes>, ss: nat)
    requires D.HEADER <= ss && Dir.SoundDir(secs, ss) && n.size == |Dir.Flat(secs)|
    ensures ReadDir(n, secs) == Some(Direntries(Dir.Listing(secs)))
  {
    var data := Dir.Flat(secs);
    assert data[0..] == data;
    Dir.CursorStart(data, ss, 0, secs);
    ReadsRemaining(data, ss, Dir.Place(0, 0, secs));
  }
}
