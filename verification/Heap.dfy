/** The kernel heap: first fit over freed blocks, then a bump pointer in the
    current page, with 256 records for everything it knows. */
module Heap {
  import opened Common
  import opened PhysicalPages

  const MAX_ALLOCS: nat := 256
  const MIN_SPLIT: nat := 16

  /** A live block, a freed block still in its page, or nothing (`ptr` 0). */
  datatype Record = Record(page: nat, ptr: nat, size: nat, active: bool)

  const UNUSED := Record(0, 0, 0, false)

  predicate Apart(a: Record, b: Record) {
    a.ptr + a.size <= b.ptr || b.ptr + b.size <= a.ptr
  }

  /** A block inside one page. */
  predicate Inside(r: Record) {
    r.page > 0 && r.page % PAGE == 0 && r.page <= r.ptr && 0 < r.size && r.ptr + r.size <= r.page + PAGE
  }

  predicate RecordOk(r: Record) {
    if r.ptr == 0 then r == UNUSED else Inside(r)
  }

  /** Blocks inside their pages, and no two of them overlap. */
  ghost predicate RecordsOk(rs: seq<Record>) {
    && |rs| == MAX_ALLOCS && (forall i | 0 <= i < |rs| :: RecordOk(rs[i]))
    && (forall i, j | 0 <= i < j < |rs| && rs[i].ptr != 0 && rs[j].ptr != 0 :: Apart(rs[i], rs[j]))
  }

  /** A live block on `page`. */
  ghost predicate Holds(rs: seq<Record>, page: nat) {
    exists i :: 0 <= i < |rs| && rs[i].active && rs[i].page == page
  }

  /** Freed blocks are kept only on pages with a live block. */
  ghost predicate NoneDangles(rs: seq<Record>) {
    forall i | 0 <= i < |rs| && rs[i].ptr != 0 :: Holds(rs, rs[i].page)
  }

  /** All blocks of the current page end before the bump pointer. */
  ghost predicate BumpOk(rs: seq<Record>, page: nat, offset: nat) {
    page != 0 ==>
      && Holds(rs, page) && page % PAGE == 0 && 0 < offset <= PAGE
      && forall i | 0 <= i < |rs| && rs[i].page == page :: rs[i].ptr + rs[i].size <= page + offset
  }

  /** The live blocks, by address and size. */
  ghost function Live(rs: seq<Record>): set<(nat, nat)> {
    set i | 0 <= i < |rs| && rs[i].active :: (rs[i].ptr, rs[i].size)
  }

  /** `size` bytes at `at` that no block of `live` uses. */
  ghost predicate Clear(live: set<(nat, nat)>, at: nat, size: nat) {
    forall b | b in live :: b.0 + b.1 <= at || at + size <= b.0
  }

  ghost predicate Aligned(p: nat, a: nat) {
    a > 0 && p % a == 0
  }

  /** The alignments a caller may ask for. */
  predicate AlignmentOk(a: nat) {
    a in {1, 2, 4, 8, 16, 32, 64, 128, 256, 512, 1024, 2048, 4096}
  }

  ghost function Up(v: nat, a: nat): nat
    requires a > 0
  {
    if v % a == 0 then v else v + (a - v % a)
  }

  method AlignUp(v: nat, a: nat) returns (r: nat)
    requires a > 0
    ensures r == Up(v, a) && Aligned(r, a) && v <= r < v + a && (Aligned(v, a) ==> r == v)
  {
    var m := v % a;
    if m == 0 {
      return v;
    }
    NextMultiple(v, a);
    r := v + (a - m);
  }

  lemma NextMultiple(v: nat, a: nat)
    requires a > 0 && v % a != 0
    ensures (v + (a - v % a)) % a == 0
  {
    var q := v / a;
    assert v + (a - v % a) == a * (q + 1);
    MultipleOf(a, q + 1);
  }

  lemma MultipleOf(a: nat, q: nat)
    requires a > 0
    ensures a * q % a == 0
  {
    var x := a * q;
    NoRest(a, q, x / a, x % a);
  }

  lemma NoRest(a: nat, q: int, d: int, m: nat)
    requires a * q == a * d + m && m < a
    ensures m == 0
  {
    AtLeastOne(a, q - d);
    assert a * (q - d) == m;
  }

  lemma AtLeastOne(a: nat, k: int)
    ensures (k >= 1 ==> a * k >= a) && (k <= -1 ==> a * k + a <= 0)
  {
  }

  lemma PageAligned(v: nat, a: nat)
    requires v % PAGE == 0 && AlignmentOk(a)
    ensures Aligned(v, a)
  {
    var q := v / PAGE;
    assert v == a * (PAGE / a * q) by {
      if a == 1 || a == 2 || a == 4 || a == 8 {
      } else if a == 16 || a == 32 || a == 64 || a == 128 {
      }
    }
    MultipleOf(a, PAGE / a * q);
  }

  // ------------------------------------------------------------- the records

  /** A block in place of an unused record. */
  lemma PutBlock(rs: seq<Record>, i: nat, r: Record)
    requires RecordsOk(rs) && i < |rs| && rs[i].ptr == 0 && Inside(r)
    requires forall j | 0 <= j < |rs| && rs[j].ptr != 0 :: Apart(rs[j], r)
    ensures RecordsOk(rs[i := r])
  {
  }

  /** A block cut down, and what this leaves. */
  lemma CutBlock(rs: seq<Record>, k: nat, size: nat, active: bool)
    requires RecordsOk(rs) && k < |rs| && rs[k].ptr != 0 && 0 < size <= rs[k].size
    ensures (var cut := rs[k := rs[k].(size := size, active := active)];
             var tail := Record(rs[k].page, rs[k].ptr + size, rs[k].size - size, false);
             && RecordsOk(cut) && (tail.size > 0 ==> Inside(tail))
             && forall j | 0 <= j < |rs| && cut[j].ptr != 0 :: Apart(cut[j], tail))
  {
    forall j | 0 <= j < |rs| && j != k && rs[j].ptr != 0 ensures Apart(rs[j], rs[k]) {
    }
  }

  lemma HoldsStill(rs: seq<Record>, ns: seq<Record>, page: nat)
    requires Holds(rs, page) && |ns| == |rs|
    requires forall i | 0 <= i < |rs| && rs[i].active :: ns[i].active && ns[i].page == rs[i].page
    ensures Holds(ns, page)
  {
  }

  /** Live blocks when record `k`, not live before, becomes one. */
  lemma LiveGrows(rs: seq<Record>, ns: seq<Record>, k: nat)
    requires |ns| == |rs| && k < |rs| && !rs[k].active && ns[k].active && RecordsOk(ns) && ns[k].ptr != 0
    requires forall i | 0 <= i < |rs| && i != k && (rs[i].active || ns[i].active) :: ns[i] == rs[i]
    ensures Live(ns) == Live(rs) + {(ns[k].ptr, ns[k].size)} && Clear(Live(rs), ns[k].ptr, ns[k].size)
  {
    forall b | b in Live(rs) ensures b in Live(ns) && (b.0 + b.1 <= ns[k].ptr || ns[k].ptr + ns[k].size <= b.0) {
      var i :| 0 <= i < |rs| && rs[i].active && b == (rs[i].ptr, rs[i].size);
      assert ns[i].active && RecordOk(ns[i]);
    }
  }

  /** A first-fit choice: a freed block that starts aligned and is long enough. */
  ghost predicate Fits(r: Record, size: nat, a: nat) {
    !r.active && r.ptr != 0 && Aligned(r.ptr, a) && size <= r.size
  }

  method FindFreeBlock(rs: seq<Record>, size: nat, a: nat) returns (k: nat)
    requires a > 0
    ensures k <= |rs| && (k < |rs| ==> Fits(rs[k], size, a)) && forall i | 0 <= i < k :: !Fits(rs[i], size, a)
  {
    k := 0;
    while k < |rs|
      invariant k <= |rs| && forall i | 0 <= i < k :: !Fits(rs[i], size, a)
    {
      if !rs[k].active && rs[k].ptr != 0 {
        var at := AlignUp(rs[k].ptr, a);
        if at == rs[k].ptr && at + size <= rs[k].ptr + rs[k].size {
          return;
        }
      }
      k := k + 1;
    }
  }

  method FindEmpty(rs: seq<Record>) returns (k: nat)
    requires forall i | 0 <= i < |rs| :: RecordOk(rs[i])
    ensures k <= |rs| && (k < |rs| ==> rs[k] == UNUSED) && forall i | 0 <= i < k :: rs[i].ptr != 0
  {
    k := 0;
    while k < |rs| && (rs[k].active || rs[k].ptr != 0)
      invariant k <= |rs| && forall i | 0 <= i < k :: rs[i].ptr != 0
    {
      k := k + 1;
    }
  }

  method PageHasLive(rs: seq<Record>, page: nat) returns (live: bool)
    ensures live <==> Holds(rs, page)
  {
    for i := 0 to |rs|
      invariant forall j | 0 <= j < i :: !(rs[j].active && rs[j].page == page)
    {
      if rs[i].active && rs[i].page == page {
        return true;
      }
    }
    live := false;
  }

  method DropPage(rs: seq<Record>, page: nat) returns (ns: seq<Record>)
    ensures |ns| == |rs| && forall i | 0 <= i < |rs| :: ns[i] == if rs[i].page == page then UNUSED else rs[i]
  {
    ns := rs;
    for i := 0 to |rs|
      invariant |ns| == |rs|
      invariant forall j | 0 <= j < |rs| :: ns[j] == if j < i && rs[j].page == page then UNUSED else rs[j]
    {
      if ns[i].page == page {
        ns := ns[i := UNUSED];
      }
    }
  }

  // ---------------------------------------------------------------- the heap

  ghost predicate HeapOk(rs: seq<Record>, page: nat, offset: nat) {
    RecordsOk(rs) && NoneDangles(rs) && BumpOk(rs, page, offset)
  }

  /** The same pages have live blocks. */
  ghost predicate SameHolds(rs: seq<Record>, ns: seq<Record>) {
    forall page: nat :: Holds(ns, page) <==> Holds(rs, page)
  }

  /** A freed block is used again: its front becomes live. */
  lemma Reused(rs: seq<Record>, page: nat, offset: nat, k: nat, size: nat)
    requires HeapOk(rs, page, offset) && k < |rs| && !rs[k].active && rs[k].ptr != 0 && 0 < size <= rs[k].size
    ensures (var ns := rs[k := rs[k].(size := size, active := true)];
             && HeapOk(ns, page, offset) && SameHolds(rs, ns) && Live(ns) == Live(rs) + {(rs[k].ptr, size)} && Clear(Live(rs), rs[k].ptr, size))
  {
    var ns := rs[k := rs[k].(size := size, active := true)];
    CutBlock(rs, k, size, true);
    LiveGrows(rs, ns, k);
    forall p: nat ensures Holds(ns, p) <==> Holds(rs, p) {
      if Holds(rs, p) {
        HoldsStill(rs, ns, p);
      }
      if Holds(ns, p) && p == rs[k].page {
        assert Holds(rs, rs[k].page);
      }
    }
  }

  /** A freed block more, on a page with live blocks. */
  lemma TailKept(rs: seq<Record>, page: nat, offset: nat, s: nat, r: Record)
    requires HeapOk(rs, page, offset) && s < |rs| && rs[s].ptr == 0 && Inside(r) && !r.active && Holds(rs, r.page)
    requires forall j | 0 <= j < |rs| && rs[j].ptr != 0 :: Apart(rs[j], r)
    requires r.page == page && page != 0 ==> r.ptr + r.size <= page + offset
    ensures HeapOk(rs[s := r], page, offset) && SameHolds(rs, rs[s := r]) && Live(rs[s := r]) == Live(rs)
  {
    var ns := rs[s := r];
    PutBlock(rs, s, r);
    forall p: nat ensures Holds(ns, p) <==> Holds(rs, p) {
      if Holds(rs, p) {
        HoldsStill(rs, ns, p);
      }
    }
    forall b | b in Live(rs) ensures b in Live(ns) {
      var i :| 0 <= i < |rs| && rs[i].active && b == (rs[i].ptr, rs[i].size);
      assert ns[i].active;
    }
  }

  /** A new block behind the bump pointer. */
  lemma Bumped(rs: seq<Record>, page: nat, offset: nat, s: nat, r: Record)
    requires RecordsOk(rs) && NoneDangles(rs) && s < |rs| && rs[s].ptr == 0 && Inside(r) && r.active && r.page == page
    requires forall i | 0 <= i < |rs| && rs[i].page == page :: rs[i].ptr + rs[i].size <= r.ptr
    requires offset == r.ptr + r.size - page
    ensures HeapOk(rs[s := r], page, offset) && Live(rs[s := r]) == Live(rs) + {(r.ptr, r.size)} && Clear(Live(rs), r.ptr, r.size)
    ensures forall p: nat :: Holds(rs[s := r], p) <==> Holds(rs, p) || p == page
  {
    var ns := rs[s := r];
    forall j | 0 <= j < |rs| && rs[j].ptr != 0 ensures Apart(rs[j], r) {
      OtherPages(rs[j], r);
    }
    PutBlock(rs, s, r);
    LiveGrows(rs, ns, s);
    assert Holds(ns, page) by {
      assert ns[s].active;
    }
    forall p: nat ensures Holds(ns, p) <==> Holds(rs, p) || p == page {
      if Holds(rs, p) {
        HoldsStill(rs, ns, p);
      }
    }
  }

  lemma OtherPages(a: Record, b: Record)
    requires Inside(a) && Inside(b) && (a.page == b.page ==> a.ptr + a.size <= b.ptr)
    ensures Apart(a, b)
  {
  }

  /** Pages of blocks are the heap's: managed, in use and not reserved. */
  ghost predicate Taken(rs: seq<Record>, pages: PageAllocator)
    reads pages
  {
    forall i | 0 <= i < |rs| && rs[i].ptr != 0 :: Owned(rs[i].page, pages)
  }

  ghost predicate Owned(page: nat, pages: PageAllocator)
    reads pages
  {
    OwnedIn(page, pages.managed, pages.free, pages.reserved)
  }

  ghost predicate OwnedIn(page: nat, managed: set<nat>, free: set<nat>, reserved: set<nat>) {
    var p := page / PAGE;
    p in managed && p !in free && p !in reserved
  }

  /** The alignment a request means: 0 asks for a word. */
  function Asked(alignment: nat): nat {
    if alignment == 0 then 8 else alignment
  }

  /** The current page has room behind the bump pointer. */
  ghost predicate BumpFits(page: nat, offset: nat, size: nat, a: nat) {
    a > 0 && page != 0 && Up(page + offset, a) + size <= page + PAGE
  }

  /** No freed block fits. */
  ghost predicate NoFit(rs: seq<Record>, size: nat, a: nat) {
    forall i | 0 <= i < |rs| :: !Fits(rs[i], size, a)
  }

  ghost predicate NoRecord(rs: seq<Record>) {
    forall i | 0 <= i < |rs| :: rs[i].ptr != 0
  }

  /** When a request has to fail. */
  ghost predicate Refused(rs: seq<Record>, page: nat, offset: nat, free: set<nat>, size: nat, alignment: nat) {
    var a := Asked(alignment);
    || size == 0 || !AlignmentOk(a)
    || (NoFit(rs, size, a) && (NoRecord(rs) || (!BumpFits(page, offset, size, a) && (free == {} || size > PAGE))))
  }

  /** Every page is with the allocator or holds a live block, as before. */
  ghost predicate SamePages(free: set<nat>, rs: seq<Record>, free': set<nat>, rs': seq<Record>) {
    forall p: nat :: p in free' || Holds(rs', p * PAGE) <==> p in free || Holds(rs, p * PAGE)
  }

  lemma PageReturned(free: set<nat>, rs: seq<Record>, page: nat, free': set<nat>, ns: seq<Record>)
    requires page % PAGE == 0 && Holds(rs, page) && free' == free + {page / PAGE}
    requires forall p: nat :: Holds(ns, p) <==> Holds(rs, p) && p != page
    ensures SamePages(free, rs, free', ns)
  {
    forall p: nat ensures p in free' || Holds(ns, p * PAGE) <==> p in free || Holds(rs, p * PAGE) {
      Address(p);
    }
  }

  lemma PageFetched(free: set<nat>, rs: seq<Record>, page: nat, free': set<nat>, ns: seq<Record>)
    requires page % PAGE == 0
    requires (free' == free && Holds(rs, page)) || (page / PAGE in free && free' == free - {page / PAGE})
    requires forall p: nat :: Holds(ns, p) <==> Holds(rs, p) || p == page
    ensures SamePages(free, rs, free', ns)
  {
    forall p: nat ensures p in free' || Holds(ns, p * PAGE) <==> p in free || Holds(rs, p * PAGE) {
      Address(p);
    }
  }

  /** Live blocks start at different addresses. */
  lemma LiveShrinks(rs: seq<Record>, i: nat)
    requires RecordsOk(rs) && i < |rs| && rs[i].active
    ensures forall b :: b in Live(rs[i := rs[i].(active := false)]) <==> b in Live(rs) && b.0 != rs[i].ptr
  {
    var ns := rs[i := rs[i].(active := false)];
    forall j | 0 <= j < |rs| && j != i && rs[j].active ensures rs[j].ptr != rs[i].ptr {
      assert RecordOk(rs[i]) && RecordOk(rs[j]);
    }
    forall b | b in Live(rs) && b.0 != rs[i].ptr ensures b in Live(ns) {
      var j :| 0 <= j < |rs| && rs[j].active && b == (rs[j].ptr, rs[j].size);
      assert ns[j].active;
    }
  }

  /** Blocks left are on other pages. */
  lemma StaysOwned(rs: seq<Record>, ns: seq<Record>, page: nat, managed: set<nat>, free: set<nat>, reserved: set<nat>)
    requires |ns| == |rs| && page % PAGE == 0 && RecordsOk(rs)
    requires forall j | 0 <= j < |rs| :: ns[j] == if rs[j].page == page then UNUSED else rs[j]
    requires forall j | 0 <= j < |rs| && rs[j].ptr != 0 :: OwnedIn(rs[j].page, managed, free, reserved)
    ensures forall j | 0 <= j < |ns| && ns[j].ptr != 0 :: OwnedIn(ns[j].page, managed, free + {page / PAGE}, reserved)
  {
    forall j | 0 <= j < |ns| && ns[j].ptr != 0 ensures OwnedIn(ns[j].page, managed, free + {page / PAGE}, reserved) {
      assert RecordOk(rs[j]);
    }
  }

  /** The heap holds no page exactly when it has no live block. */
  lemma HoldsNothingExactlyWhen(rs: seq<Record>)
    ensures (forall page: nat :: !Holds(rs, page)) <==> Live(rs) == {}
  {
    forall i | 0 <= i < |rs| && rs[i].active ensures (rs[i].ptr, rs[i].size) in Live(rs) && Holds(rs, rs[i].page) {
    }
  }

  lemma NotLive(rs: seq<Record>, address: nat)
    requires forall j | 0 <= j < |rs| :: !(rs[j].active && rs[j].ptr == address)
    ensures forall b | b in Live(rs) :: b.0 != address
  {
  }

  lemma HoldsWithout(rs: seq<Record>, i: nat)
    requires i < |rs| && rs[i].active
    ensures forall p: nat | p != rs[i].page :: Holds(rs[i := rs[i].(active := false)], p) <==> Holds(rs, p)
  {
    var ns := rs[i := rs[i].(active := false)];
    forall p: nat | p != rs[i].page && Holds(rs, p) ensures Holds(ns, p) {
      var j :| 0 <= j < |rs| && rs[j].active && rs[j].page == p;
      assert ns[j].active;
    }
  }

  lemma StillHeld(rs: seq<Record>, i: nat, page: nat, offset: nat)
    requires HeapOk(rs, page, offset) && i < |rs| && rs[i].active && Holds(rs[i := rs[i].(active := false)], rs[i].page)
    ensures HeapOk(rs[i := rs[i].(active := false)], page, offset) && SameHolds(rs, rs[i := rs[i].(active := false)])
  {
    HoldsWithout(rs, i);
    CutBlock(rs, i, rs[i].size, false);
    assert Holds(rs, rs[i].page);
  }

  /** All records of a page without live blocks dropped. */
  lemma Dropped(rs: seq<Record>, i: nat, ns: seq<Record>)
    requires RecordsOk(rs) && NoneDangles(rs) && i < |rs| && rs[i].active && !Holds(rs[i := rs[i].(active := false)], rs[i].page)
    requires |ns| == |rs| && forall j | 0 <= j < |rs| :: ns[j] == if rs[j].page == rs[i].page then UNUSED else rs[j]
    ensures RecordsOk(ns) && NoneDangles(ns) && Live(ns) == Live(rs[i := rs[i].(active := false)])
    ensures forall p: nat :: Holds(ns, p) <==> Holds(rs, p) && p != rs[i].page
  {
    var off := rs[i := rs[i].(active := false)];
    forall p: nat | Holds(rs, p) && p != rs[i].page ensures Holds(ns, p) {
      var j :| 0 <= j < |rs| && rs[j].active && rs[j].page == p;
      assert ns[j].active;
    }
    forall b | b in Live(off) ensures b in Live(ns) {
      var j :| 0 <= j < |rs| && off[j].active && b == (off[j].ptr, off[j].size);
      assert ns[j].active;
    }
    forall b | b in Live(ns) ensures b in Live(off) {
      var j :| 0 <= j < |rs| && ns[j].active && b == (ns[j].ptr, ns[j].size);
      assert off[j].active;
    }
  }

  class KernelHeap {
    const pages: PageAllocator
    var records: seq<Record>
    var page: nat
    var offset: nat

    ghost predicate Valid()
      reads this, pages
    {
      pages.Valid() && HeapOk(records, page, offset) && Taken(records, pages)
    }

    constructor (pages: PageAllocator)
      requires pages.Valid()
      ensures Valid() && this.pages == pages && Live(records) == {} && forall p: nat :: !Holds(records, p)
    {
      this.pages := pages;
      records, page, offset := seq(MAX_ALLOCS, _ => UNUSED), 0, 0;
    }

    /** Use freed block `k` for `size` bytes; a tail of 16 bytes or more stays a
        freed block if there is a record for it. */
    method Reuse(k: nat, size: nat) returns (at: nat)
      requires Valid() && k < |records| && !records[k].active && records[k].ptr != 0 && 0 < size <= records[k].size
      modifies this`records
      ensures Valid() && at == old(records[k].ptr) && SameHolds(old(records), records)
      ensures Live(records) == old(Live(records)) + {(at, size)} && Clear(old(Live(records)), at, size)
    {
      var block, rs := records[k], records;
      at := block.ptr;
      var tail := block.size - size;
      Reused(rs, page, offset, k, size);
      CutBlock(rs, k, size, true);
      records := records[k := block.(size := size, active := true)];
      if tail >= MIN_SPLIT {
        var s := FindEmpty(records);
        if s < |records| {
          var r := Record(block.page, at + size, tail, false);
          TailKept(records, page, offset, s, r);
          records := records[s := r];
        }
      }
    }

    /** Allocate `size` bytes. */
    method Kmalloc(size: nat, alignment: nat) returns (at: nat)
      requires Valid()
      modifies this`records, this`page, this`offset, pages
      ensures Valid()
      ensures at == 0 <==> old(Refused(records, page, offset, pages.free, size, alignment))
      ensures at == 0 ==> records == old(records) && pages.free == old(pages.free)
      ensures at != 0 ==> Aligned(at, Asked(alignment)) && Live(records) == old(Live(records)) + {(at, size)} && Clear(old(Live(records)), at, size)
      ensures SamePages(old(pages.free), old(records), pages.free, records)
    {
      var a := Asked(alignment);
      if size == 0 || !AlignmentOk(a) {
        return 0;
      }
      var k := FindFreeBlock(records, size, a);
      if k < |records| {
        at := Reuse(k, size);
        return;
      }
      var s := FindEmpty(records);
      if s == |records| {
        return 0;
      }
      at := Bump(s, size, a);
    }

    /** A block behind the bump pointer, or at the start of a new page. */
    method Bump(s: nat, size: nat, a: nat) returns (at: nat)
      requires Valid() && AlignmentOk(a) && size > 0 && s < |records| && records[s].ptr == 0
      modifies this`records, this`page, this`offset, pages
      ensures Valid()
      ensures at == 0 <==> old(!BumpFits(page, offset, size, a) && (pages.free == {} || size > PAGE))
      ensures at == 0 ==> records == old(records) && pages.free == old(pages.free)
      ensures at != 0 ==> Aligned(at, a) && Live(records) == old(Live(records)) + {(at, size)} && Clear(old(Live(records)), at, size)
      ensures SamePages(old(pages.free), old(records), pages.free, records)
    {
      at := Place(size, a);
      if at != 0 {
        PutLive(s, at, size);
        PageFetched(old(pages.free), old(records), page, pages.free, records);
      }
    }

    /** Where the next block goes: in the current page, or in a new one. */
    method Place(size: nat, a: nat) returns (at: nat)
      requires Valid() && AlignmentOk(a) && size > 0
      modifies this`page, this`offset, pages
      ensures at == 0 <==> old(!BumpFits(page, offset, size, a) && (pages.free == {} || size > PAGE))
      ensures at == 0 ==> Valid() && pages.free == old(pages.free)
      ensures at != 0 ==> && pages.Valid() && Taken(records, pages) && Owned(page, pages) && Aligned(at, a)
                          && 0 < page <= at && page % PAGE == 0 && at + size <= page + PAGE
      ensures at != 0 ==> forall i | 0 <= i < |records| && records[i].page == page :: records[i].ptr + records[i].size <= at
      ensures at != 0 ==> || (pages.free == old(pages.free) && Holds(records, page))
                          || (page / PAGE in old(pages.free) && pages.free == old(pages.free) - {page / PAGE})
    {
      at := AlignUp(page + offset, a);
      if page == 0 || at + size > page + PAGE {
        at := NewPage(size, a);
      }
    }

    /** A fresh current page, if there is one and the request fits in it. */
    method NewPage(size: nat, a: nat) returns (at: nat)
      requires Valid() && AlignmentOk(a) && size > 0
      modifies this`page, this`offset, pages
      ensures pages.Valid() && RecordsOk(records) && NoneDangles(records) && Taken(records, pages)
      ensures at == 0 <==> old(pages.free) == {} || size > PAGE
      ensures at == 0 ==> pages.free == old(pages.free) && Valid()
      ensures at != 0 ==> page == at && at % PAGE == 0 && Aligned(at, a) && Owned(at, pages) && at / PAGE in old(pages.free)
                          && pages.free == old(pages.free) - {at / PAGE}
                          && forall i | 0 <= i < |records| :: records[i].page != at
    {
      var phys := pages.AllocBelow(MAX_PHYS);
      if phys == 0 {
        return 0;
      }
      PageAligned(phys, a);
      page, offset := phys, 0;
      at := AlignUp(page, a);
      if at + size > page + PAGE {
        pages.FreePage(phys);
        page, offset, at := 0, 0, 0;
      }
    }

    /** Record a live block behind all others of the current page. */
    method PutLive(s: nat, at: nat, size: nat)
      requires pages.Valid() && RecordsOk(records) && NoneDangles(records) && Taken(records, pages)
      requires s < |records| && records[s].ptr == 0 && Owned(page, pages)
      requires 0 < page <= at && page % PAGE == 0 && 0 < size && at + size <= page + PAGE
      requires forall i | 0 <= i < |records| && records[i].page == page :: records[i].ptr + records[i].size <= at
      modifies this`records, this`offset
      ensures Valid() && Live(records) == old(Live(records)) + {(at, size)} && Clear(old(Live(records)), at, size)
      ensures forall p: nat :: Holds(records, p) <==> Holds(old(records), p) || p == page
    {
      var r := Record(page, at, size, true);
      Bumped(records, page, at + size - page, s, r);
      records, offset := records[s := r], at + size - page;
    }

    /** Give a live block back; anything else is ignored. The last live block of a
        page takes the page with it. */
    method Kfree(address: nat)
      requires Valid()
      modifies this`records, this`page, this`offset, pages
      ensures Valid()
      ensures forall b :: b in Live(records) <==> b in old(Live(records)) && b.0 != address
      ensures SamePages(old(pages.free), old(records), pages.free, records)
      ensures (forall b | b in old(Live(records)) :: b.0 != address) ==>
                records == old(records) && page == old(page) && offset == old(offset) && pages.free == old(pages.free)
    {
      for i := 0 to |records|
        invariant unchanged(this) && unchanged(pages)
        invariant forall j | 0 <= j < i :: !(records[j].active && records[j].ptr == address)
      {
        if records[i].active && records[i].ptr == address {
          assert (records[i].ptr, records[i].size) in Live(records);
          Release(i);
          return;
        }
      }
      NotLive(records, address);
    }

    method Release(i: nat)
      requires Valid() && i < |records| && records[i].active
      modifies this`records, this`page, this`offset, pages
      ensures Valid() && SamePages(old(pages.free), old(records), pages.free, records)
      ensures forall b :: b in Live(records) <==> b in old(Live(records)) && b.0 != old(records[i].ptr)
    {
      var rs, at := records, records[i].page;
      var off := rs[i := rs[i].(active := false)];
      LiveShrinks(rs, i);
      HoldsWithout(rs, i);
      var live := PageHasLive(off, at);
      if live {
        StillHeld(rs, i, page, offset);
        records := off;
      } else {
        ReturnPage(i, off, at);
      }
    }

    /** The page of record `i` goes back to the allocator. */
    method ReturnPage(i: nat, off: seq<Record>, at: nat)
      requires Valid() && i < |records| && records[i].active && at == records[i].page
      requires off == records[i := records[i].(active := false)] && !Holds(off, at)
      modifies this`records, this`page, this`offset, pages
      ensures Valid() && SamePages(old(pages.free), old(records), pages.free, records) && Live(records) == Live(off)
    {
      ghost var rs := records;
      assert RecordOk(rs[i]) && Owned(at, pages) && Holds(rs, at);
      pages.FreePage(at);
      if page == at {
        page, offset := 0, 0;
      }
      records := DropPage(off, at);
      Dropped(rs, i, records);
      PageReturned(old(pages.free), rs, at, pages.free, records);
      StaysOwned(rs, records, at, old(pages.managed), old(pages.free), old(pages.reserved));
    }
  }
}
