/** The physical page allocator: one bit per page for in use, managed and reserved,
    and counters kept beside them. */
module PhysicalPages {
  import opened Common
  import opened Bytes

  /** 128 GiB. */
  const MAX_PHYS: nat := 0x20_0000_0000
  const MAX_PAGES: nat := 0x200_0000
  /** A region of the firmware's memory map. */
  datatype Region = Region(kind: nat, base: u64, pages: u64)

  predicate Usable(kind: nat) {
    1 <= kind <= 4 || kind == 7
  }

  function CeilPage(base: nat): nat {
    (base + PAGE - 1) / PAGE
  }

  /** The pages a call to mark `pages` pages from `base` changes. */
  ghost predicate InRange(p: nat, base: nat, pages: nat) {
    base < MAX_PHYS && CeilPage(base) <= p < CeilPage(base) + pages && p < MAX_PAGES
  }

  /** `n` free pages in a row. */
  ghost predicate FreeRun(free: set<nat>, first: nat, n: nat) {
    forall p | first <= p < first + n :: p in free
  }

  lemma RangeBounds(base: nat)
    requires base < MAX_PHYS
    ensures CeilPage(base) <= MAX_PAGES
    ensures CeilPage(base) < MAX_PAGES ==> (MAX_PHYS - CeilPage(base) * PAGE) / PAGE == MAX_PAGES - CeilPage(base)
    ensures CeilPage(base) * PAGE >= MAX_PHYS <==> CeilPage(base) >= MAX_PAGES
  {
  }

  /** Pages that `size` bytes at any offset in a page may touch. */
  function BytePages(base: nat, size: nat): nat {
    (size + base % PAGE + PAGE - 1) / PAGE
  }

  ghost predicate Touches(p: nat, base: nat, size: nat) {
    p * PAGE < base + size && base < (p + 1) * PAGE
  }

  /** Reserving a byte range reserves every page it touches exactly when the range
      starts on a page: otherwise its first page is left out. */
  lemma ReservesAllExactlyWhen(base: nat, size: nat)
    requires 0 < size && base + size <= MAX_PHYS
    ensures (forall p: nat :: Touches(p, base, size) ==> InRange(p, base, BytePages(base, size))) <==> base % PAGE == 0
  {
    if base % PAGE != 0 {
      assert Touches(base / PAGE, base, size) && !InRange(base / PAGE, base, BytePages(base, size));
    }
  }

  /** A usable region of the map holds page `p`. */
  ghost predicate Reported(regions: seq<Region>, n: nat, p: nat)
    requires n <= |regions|
  {
    exists i: nat :: i < n && Usable(regions[i].kind) && InRange(p, regions[i].base, regions[i].pages)
  }

  predicate InRegion(r: Region, p: nat) {
    (r.kind == 1 || r.kind == 2 || r.kind == 3 || r.kind == 4 || r.kind == 7) && r.base <= p * 0x1000 < r.base + r.pages * 0x1000
  }

  /** For a map of whole pages: exactly the pages below 128 GiB in a region of loader,
      boot-services or conventional memory. */
  lemma ReportedExactlyWhen(regions: seq<Region>, p: nat)
    requires forall i | 0 <= i < |regions| :: regions[i].base % PAGE == 0
    ensures Reported(regions, |regions|, p) <==>
              p * 0x1000 < 0x20_0000_0000 && exists i: nat :: i < |regions| && InRegion(regions[i], p)
  {
    forall i: nat | i < |regions|
      ensures Usable(regions[i].kind) && InRange(p, regions[i].base, regions[i].pages) <==>
              InRegion(regions[i], p) && p * 0x1000 < 0x20_0000_0000
    {
      WholePages(regions[i].base, regions[i].pages, p);
    }
  }

  lemma WholePages(base: nat, pages: nat, p: nat)
    requires base % PAGE == 0
    ensures InRange(p, base, pages) <==> base <= p * 0x1000 < base + pages * 0x1000 && p * 0x1000 < 0x20_0000_0000
  {
    assert CeilPage(base) * PAGE == base;
  }

  lemma Clipped(base: nat, pages: nat, p: nat)
    requires base < MAX_PHYS
    ensures (var most := (MAX_PHYS - base) / PAGE;
             InRange(p, base, if pages > most then most else pages) <==> InRange(p, base, pages))
  {
  }

  /** The pages a byte range marks; ranges that wrap mark none. */
  ghost predicate Marked(p: nat, base: nat, size: nat) {
    && 0 < size && base + size <= TWO64 - 1 && size + base % PAGE + PAGE - 1 <= TWO64 - 1
    && InRange(p, base, BytePages(base, size))
  }

  lemma Address(p: nat)
    ensures p * PAGE / PAGE == p && p * PAGE % PAGE == 0
  {
  }

  lemma BelowOnePage(free: set<nat>, most: nat)
    requires 0 !in free && most < PAGE
    ensures forall p | p in free :: p * PAGE >= most
  {
  }

  /** No run of `count` pages starts at `from` or later. */
  lemma NoRun(free: set<nat>, count: nat, from: nat)
    requires count > 0 && from + count > MAX_PAGES && forall p | p in free :: p < MAX_PAGES
    ensures forall s: nat | s >= from :: !FreeRun(free, s, count)
  {
    forall s: nat | s >= from ensures !FreeRun(free, s, count) {
      assert s + count - 1 !in free;
    }
  }

  predicate Spans(at: nat, count: nat, p: nat) {
    at / PAGE <= p < at / PAGE + count
  }

  class PageAllocator {
    /** Pages whose bit in the page bitmap is clear. */
    var free: set<nat>
    var managed: set<nat>
    var reserved: set<nat>
    var freeCount: nat
    var totalCount: nat
    var reservedCount: nat

    /** Counters match bits. */
    ghost predicate Counted()
      reads this
    {
      && freeCount == |free| && totalCount == |managed| && reservedCount == |reserved|
      && free <= managed && (forall p | p in managed :: p < MAX_PAGES) && (forall p | p in reserved :: p < MAX_PAGES)
    }

    /** No page that may be handed out is reserved, and page 0 never is. */
    ghost predicate Valid()
      reads this
    {
      Counted() && free !! reserved && (0 in managed ==> 0 in reserved)
    }

    method MarkUsable(p: nat)
      requires Counted() && p < MAX_PAGES
      modifies this
      ensures Counted() && free == old(free) + {p} && managed == old(managed) + {p} && reserved == old(reserved)
    {
      if p !in managed {
        managed, totalCount := managed + {p}, totalCount + 1;
      }
      if p !in free {
        free, freeCount := free + {p}, freeCount + 1;
      }
    }

    method MarkReserved(p: nat)
      requires Counted() && p < MAX_PAGES
      modifies this
      ensures Counted() && free == old(free) - {p} && managed == old(managed) && reserved == old(reserved) + {p}
    {
      if p !in reserved {
        reserved, reservedCount := reserved + {p}, reservedCount + 1;
      }
      if p in free {
        free, freeCount := free - {p}, freeCount - 1;
      }
    }

    method MarkRange(base: u64, pages: u64, usable: bool)
      requires Counted()
      modifies this
      ensures Counted()
      ensures forall p :: p in free <==> if InRange(p, base, pages) then usable else p in old(free)
      ensures forall p :: p in managed <==> p in old(managed) || (usable && InRange(p, base, pages))
      ensures forall p :: p in reserved <==> p in old(reserved) || (!usable && InRange(p, base, pages))
    {
      if pages == 0 || base >= MAX_PHYS {
        return;
      }
      var first := CeilPage(base);
      RangeBounds(base);
      if first * PAGE >= MAX_PHYS {
        return;
      }
      var room := (MAX_PHYS - first * PAGE) / PAGE;
      var n := if pages > room then room else pages;
      for p := first to first + n
        invariant Counted()
        invariant forall q :: q in free <==> if first <= q < p then usable else q in old(free)
        invariant forall q :: q in managed <==> q in old(managed) || (usable && first <= q < p)
        invariant forall q :: q in reserved <==> q in old(reserved) || (!usable && first <= q < p)
      {
        if usable {
          MarkUsable(p);
        } else {
          MarkReserved(p);
        }
      }
    }

    method MarkBytes(base: u64, size: u64, usable: bool)
      requires Counted()
      modifies this
      ensures Counted()
      ensures forall p :: p in free <==> if Marked(p, base, size) then usable else p in old(free)
      ensures forall p :: p in managed <==> p in old(managed) || (usable && Marked(p, base, size))
      ensures forall p :: p in reserved <==> p in old(reserved) || (!usable && Marked(p, base, size))
    {
      if size == 0 || base > TWO64 - 1 - size {
        return;
      }
      var offset := base % PAGE;
      if size > TWO64 - 1 - offset - (PAGE - 1) {
        return;
      }
      MarkRange(base, BytePages(base, size), usable);
    }

    /** The allocator for a firmware map: usable regions, without the first megabyte,
        the kernel, the boot information and the map itself. */
    constructor (regions: seq<Region>, kernelBase: u64, kernelEnd: u64, bootInfo: u64, bootSize: u64, mapAt: u64, mapSize: u64)
      ensures Valid()
      ensures forall p :: p in managed <==> Reported(regions, |regions|, p)
      ensures forall p :: p in free <==> p in managed && p !in reserved
      ensures forall p :: p in reserved <==>
                || p < 0x100
                || (kernelEnd > kernelBase && Marked(p, kernelBase, kernelEnd - kernelBase))
                || Marked(p, bootInfo, bootSize) || Marked(p, mapAt, mapSize)
    {
      free, managed, reserved := {}, {}, {};
      freeCount, totalCount, reservedCount := 0, 0, 0;
      new;
      for i := 0 to |regions|
        invariant Counted() && reserved == {}
        invariant forall p :: p in managed <==> Reported(regions, i, p)
        invariant free == managed
      {
        MarkRegion(regions[i]);
      }
      MarkRange(0, 0x100, false);
      if kernelEnd > kernelBase {
        MarkBytes(kernelBase, kernelEnd - kernelBase, false);
      }
      MarkBytes(bootInfo, bootSize, false);
      MarkBytes(mapAt, mapSize, false);
    }

    method MarkRegion(r: Region)
      requires Counted()
      modifies this
      ensures Counted() && reserved == old(reserved)
      ensures forall p :: p in free <==> p in old(free) || (Usable(r.kind) && InRange(p, r.base, r.pages))
      ensures forall p :: p in managed <==> p in old(managed) || (Usable(r.kind) && InRange(p, r.base, r.pages))
    {
      if Usable(r.kind) && r.pages != 0 && r.base < MAX_PHYS {
        var most := (MAX_PHYS - r.base) / PAGE;
        forall p: nat ensures InRange(p, r.base, if r.pages > most then most else r.pages) <==> InRange(p, r.base, r.pages) {
          Clipped(r.base, r.pages, p);
        }
        MarkRange(r.base, if r.pages > most then most else r.pages, true);
      }
    }

    /** The lowest free page that starts below `most`, as an address, or 0. */
    method AllocBelow(most: u64) returns (at: nat)
      requires Valid()
      modifies this
      ensures Valid() && managed == old(managed) && reserved == old(reserved)
      ensures at == 0 ==> free == old(free) && forall p | p in free :: p * PAGE >= most
      ensures at != 0 ==> (var page := at / PAGE;
                           && at % PAGE == 0 && page in old(free) && at < most && free == old(free) - {page}
                           && forall p | p in old(free) :: p >= page)
    {
      var top := if most > MAX_PHYS then MAX_PHYS else most;
      if top < PAGE {
        BelowOnePage(free, most);
        return 0;
      }
      var limit := (top - 1) / PAGE;
      for p := 0 to MAX_PAGES
        invariant forall q | 0 <= q < p :: q !in free
      {
        if p > limit {
          break;
        }
        if p in managed && p in free {
          free, freeCount := free - {p}, freeCount - 1;
          Address(p);
          return p * PAGE;
        }
      }
      at := 0;
    }

    /** Mark one page in use; the counter is never 0 here. */
    method Claim(p: nat)
      requires Valid() && p in free
      modifies this`free, this`freeCount
      ensures Valid() && free == old(free) - {p}
    {
      free, freeCount := free - {p}, freeCount - 1;
    }

    method RunFree(start: nat, count: nat) returns (all: bool)
      ensures all <==> forall p | start <= p < start + count :: p in managed && p in free
    {
      for p := start to start + count
        invariant forall q | start <= q < p :: q in managed && q in free
      {
        if p !in managed || p !in free {
          return false;
        }
      }
      all := true;
    }

    /** The lowest run of `count` free pages, as an address, or 0. */
    method AllocPages(count: u64) returns (at: nat)
      requires Valid()
      modifies this
      ensures Valid() && managed == old(managed) && reserved == old(reserved)
      ensures at == 0 ==> free == old(free) && (count > 0 ==> forall s: nat :: !FreeRun(free, s, count))
      ensures at != 0 ==> (var s := at / PAGE;
                           && at % PAGE == 0 && FreeRun(old(free), s, count)
                           && (forall p :: p in free <==> p in old(free) && !(s <= p < s + count))
                           && forall t: nat | t < s :: !FreeRun(old(free), t, count))
    {
      if count == 0 {
        return 0;
      }
      if count > MAX_PAGES {
        NoRun(free, count, 0);
        return 0;
      }
      var start := 0;
      while start + count <= MAX_PAGES
        invariant unchanged(this)
        invariant forall t: nat | t < start :: !FreeRun(free, t, count)
      {
        var all := RunFree(start, count);
        if all {
          assert start in free;
          Address(start);
          ClaimRun(start, count);
          return start * PAGE;
        }
        start := start + 1;
      }
      NoRun(free, count, start);
      at := 0;
    }

    method ClaimRun(start: nat, count: nat)
      requires Valid() && FreeRun(free, start, count)
      modifies this`free, this`freeCount
      ensures Valid() && forall p :: p in free <==> p in old(free) && !(start <= p < start + count)
    {
      for n := 0 to count
        invariant Valid() && forall p :: p in free <==> p in old(free) && !(start <= p < start + n)
      {
        Claim(start + n);
      }
    }

    /** Keep a page out of the allocator for good. */
    method ReservePage(at: u64)
      requires Valid()
      modifies this
      ensures Valid() && managed == old(managed)
      ensures (var p := at / PAGE; var hit := at % PAGE == 0 && p in managed;
               && reserved == (if hit then old(reserved) + {p} else old(reserved))
               && free == (if hit then old(free) - {p} else old(free)))
    {
      var p := at / PAGE;
      if at % PAGE != 0 || p >= MAX_PAGES || p !in managed {
        return;
      }
      MarkReserved(p);
    }

    /** A page comes back exactly when it is managed, in use and not reserved. */
    method FreePage(at: nat)
      requires Valid()
      modifies this`free, this`freeCount
      ensures Valid()
      ensures (var p := at / PAGE;
               free == if at % PAGE == 0 && p in managed && p !in reserved then old(free) + {p} else old(free))
    {
      var p := at / PAGE;
      if at % PAGE != 0 || p >= MAX_PAGES {
        return;
      }
      if p !in managed || p in free || p in reserved {
        return;
      }
      free, freeCount := free + {p}, freeCount + 1;
    }

    /** The pages from `at` on, as many of them as are managed and not reserved. */
    method FreeRange(at: u64, count: u64)
      requires Valid()
      modifies this`free, this`freeCount
      ensures Valid()
      ensures at % PAGE != 0 || count == 0 ==> free == old(free)
      ensures at % PAGE == 0 && at + (count - 1) * PAGE < TWO64 ==>
                forall p :: p in free <==> p in old(free) || (Spans(at, count, p) && p in managed && p !in reserved)
    {
      if count == 0 || at % PAGE != 0 || count - 1 > (TWO64 - 1 - at) / PAGE {
        return;
      }
      var first := at / PAGE;
      for i := 0 to count
        invariant Valid()
        invariant forall p :: p in free <==> p in old(free) || (first <= p < first + i && p in managed && p !in reserved)
      {
        Address(first + i);
        FreePage((first + i) * PAGE);
      }
    }
  }
}
