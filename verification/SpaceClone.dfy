/** A copy of an address space for a new process: every user page on a frame of
    its own, with the same bytes and the same rights. */
module SpaceClone {
  import opened Common
  import opened Bytes
  import opened PageTables
  import opened UserPages
  import opened Vmm
  import opened AddressSpace

  /** The copy of page `p` of `a` in `b`. */
  ghost predicate PageCopied(a: Space, b: Space, before: map<nat, bytes>, now: map<nat, bytes>, own: map<nat, nat>, p: nat)
    requires a.Valid() && b.Valid() && UserAt(a, p)
  {
    && p in own && At(b, p) == Mapped(own[p] * PAGE, At(a, p).write, true, At(a, p).nx, true)
    && At(a, p).phys / PAGE in before && own[p] in now && now[own[p]] == before[At(a, p).phys / PAGE]
  }

  /** The user pages below `n` are copied, and nothing else is there. */
  ghost predicate Cloned(a: Space, b: Space, before: map<nat, bytes>, now: map<nat, bytes>, own: map<nat, nat>, n: nat) {
    && a.Valid() && b.Valid()
    && forall p: nat | p < USER_PAGES ::
         if p < n && UserAt(a, p) then PageCopied(a, b, before, now, own, p) else At(b, p) == Unmapped && p !in own
  }

  /** The pages to copy lie outside the frames to copy to. */
  ghost predicate Source(a: Space, memory: map<nat, bytes>, pool: set<nat>) {
    a.Valid() && forall p: nat | p < USER_PAGES && UserAt(a, p) :: At(a, p).phys / PAGE in memory && At(a, p).phys / PAGE !in pool
  }

  /** Memory outside `pool` is as it was. */
  ghost predicate Kept(before: map<nat, bytes>, now: map<nat, bytes>, pool: set<nat>) {
    forall f | f in before && f !in pool :: f in now && now[f] == before[f]
  }

  ghost function UserPagesOf(a: Space): set<nat>
    requires a.Valid()
  {
    set p: nat | p < USER_PAGES && UserAt(a, p)
  }

  /** No user entry maps more than a page. */
  ghost predicate SmallPages(a: Space) {
    forall t, i | t in a.mem && 0 <= i < ENTRIES && a.mem[t][i].present && a.mem[t][i].user :: !a.mem[t][i].ps
  }

  /** Each copied page took at most four frames: itself and three tables. */
  ghost predicate Budget(size: nat, free: set<nat>, own: map<nat, nat>) {
    size <= |free| + 4 * |own| + 1
  }

  /** Why a copy may fail. */
  ghost predicate Short(a: Space, size: nat)
    requires a.Valid()
  {
    SmallPages(a) ==> size <= 4 * |UserPagesOf(a)|
  }

  lemma SkipPages(a: Space, b: Space, before: map<nat, bytes>, now: map<nat, bytes>, own: map<nat, nat>, n: nat, n': nat)
    requires Cloned(a, b, before, now, own, n) && n <= n' && forall p: nat | n <= p < n' :: !UserAt(a, p)
    ensures Cloned(a, b, before, now, own, n')
  {
  }

  /** The entry a copied page gets. */
  function CopyEntry(frame: nat, e: Entry): Entry {
    UserLeaf(frame, Flags(true, e.write, true, false, false, e.nx, false), true)
  }

  /** One more page. */
  lemma PageAdded(a: Space, b: Space, c: Space, before: map<nat, bytes>, now: map<nat, bytes>, own: map<nat, nat>,
                  e: Entry, p: nat, page: nat, n': nat)
    requires Cloned(a, b, before, now, own, p) && p < USER_PAGES && n' == p + 1
    requires At(a, p) == LeafMapping(e, e.frame * PAGE, e.owned) && e.user && e.frame in before
    requires OnlyPageChanged(b, c, p * PAGE, CopyEntry(page, e)) && page !in own.Values
    ensures Cloned(a, c, before, now[page := before[e.frame]], own[p := page], n')
  {
    var now', own' := now[page := before[e.frame]], own[p := page];
    PageAddress(p);
    forall q: nat | q < USER_PAGES
      ensures if q < n' && UserAt(a, q) then PageCopied(a, c, before, now', own', q) else At(c, q) == Unmapped && q !in own'
    {
      ChangedAt(b, c, p * PAGE, CopyEntry(page, e), q);
      if q == p {
        FrameAddress(e.frame, e.frame * PAGE);
        FrameAddress(page, page * PAGE);
      } else if q < n' && UserAt(a, q) {
        assert PageCopied(a, b, before, now, own, q);
        assert own[q] in own.Values;
      }
    }
  }

  /** A failed page left at most three frames. */
  lemma PoolWasShort(a: Space, b: Space, before: map<nat, bytes>, now: map<nat, bytes>, own: map<nat, nat>,
                     p: nat, free: set<nat>, size: nat)
    requires Cloned(a, b, before, now, own, p) && p < USER_PAGES && UserAt(a, p) && Budget(size, free, own) && |free| < 4
    requires forall q | q in own :: q < USER_PAGES
    ensures Short(a, size)
  {
    assert own.Keys + {p} <= UserPagesOf(a);
    Subset(own.Keys + {p}, UserPagesOf(a));
    assert |own.Keys + {p}| == |own.Keys| + 1 && |own.Keys| == |own|;
  }

  lemma {:induction false} Subset(x: set<nat>, y: set<nat>)
    requires x <= y
    ensures |x| <= |y|
    decreases x
  {
    if k :| k in x {
      Subset(x - {k}, y - {k});
    }
  }

  /** Copy the page of entry `e` to page `p` of `dst`. */
  method CopyPage(dst: Space64, e: Entry, p: nat, memory: map<nat, bytes>) returns (page: nat, now: map<nat, bytes>)
    requires dst.Valid() && UserAddress(p * PAGE) && At(dst.tree.Tree(), p) == Unmapped && e.frame in memory && p < USER_PAGES
    requires p !in dst.own
    modifies dst`own, dst`pool, dst.tree
    ensures dst.Valid() && dst.pool == old(dst.pool) && Kept(memory, now, dst.pool)
    ensures page != 0 ==> page !in old(dst.own.Values) && dst.own == old(dst.own)[p := page] && now == memory[page := memory[e.frame]]
                          && OnlyPageChanged(old(dst.tree.Tree()), dst.tree.Tree(), p * PAGE, CopyEntry(page, e))
                          && |dst.tree.free| >= |old(dst.tree.free)| - 4
    ensures page == 0 ==> |old(dst.tree.free)| < 4
  {
    now := memory;
    page := dst.MapTaken(p, Flags(true, e.write, true, false, false, e.nx, false));
    if page != 0 {
      now := memory[page := memory[e.frame]];
    }
  }

  /** How far a copy has come. */
  ghost predicate Copying(a: Space, b: Space, before: map<nat, bytes>, now: map<nat, bytes>, own: map<nat, nat>,
                          free: set<nat>, pool: set<nat>, size: nat, n: nat) {
    Cloned(a, b, before, now, own, n) && Kept(before, now, pool) && Budget(size, free, own)
  }

  lemma OneMore(a: Space, b: Space, c: Space, before: map<nat, bytes>, memory: map<nat, bytes>, now: map<nat, bytes>,
                own: map<nat, nat>, free: set<nat>, free': set<nat>, pool: set<nat>, size: nat, e: Entry, p: nat, page: nat)
    requires Copying(a, b, before, memory, own, free, pool, size, p) && p < USER_PAGES && Source(a, before, pool)
    requires At(a, p) == LeafMapping(e, e.frame * PAGE, e.owned) && e.user && e.frame in memory && Kept(memory, now, pool)
    requires now == memory[page := memory[e.frame]] && page !in own.Values && |free'| >= |free| - 4
    requires OnlyPageChanged(b, c, p * PAGE, CopyEntry(page, e))
    ensures Copying(a, c, before, now, own[p := page], free', pool, size, p + 1)
  {
    FrameAddress(e.frame, e.frame * PAGE);
    assert e.frame in before && e.frame !in pool;
    PageAdded(a, b, c, before, memory, own, e, p, page, p + 1);
    assert p !in own;
    assert |own[p := page]| == |own| + 1;
  }

  /** Copy one page of the source. */
  method CloneLeaf(ghost a: Space, dst: Space64, e: Entry, p: nat, ghost before: map<nat, bytes>, memory: map<nat, bytes>, ghost size: nat)
    returns (ok: bool, now: map<nat, bytes>)
    requires dst.Valid() && UserAddress(p * PAGE) && p < USER_PAGES && Source(a, before, dst.pool)
    requires Copying(a, dst.tree.Tree(), before, memory, dst.own, dst.tree.free, dst.pool, size, p)
    requires At(a, p) == LeafMapping(e, e.frame * PAGE, e.owned) && e.user
    modifies dst`own, dst`pool, dst.tree
    ensures dst.Valid() && dst.pool == old(dst.pool) && Kept(before, now, dst.pool)
    ensures ok ==> Copying(a, dst.tree.Tree(), before, now, dst.own, dst.tree.free, dst.pool, size, p + 1)
    ensures !ok ==> Short(a, size)
  {
    ghost var b, own, free := dst.tree.Tree(), dst.own, dst.tree.free;
    FrameAddress(e.frame, e.frame * PAGE);
    assert e.frame in memory;
    var page;
    page, now := CopyPage(dst, e, p, memory);
    ok := page != 0;
    if ok {
      OneMore(a, b, dst.tree.Tree(), before, memory, now, own, free, dst.tree.free, dst.pool, size, e, p, page);
    } else {
      PoolWasShort(a, b, before, memory, own, p, free, size);
    }
  }

  /** The pages of a table below root slot `slot`. */
  ghost predicate InSlot(slot: nat, l: nat, first: nat) {
    1 <= l <= 3 && UserSlot(slot) && Start(4, 0, slot) <= first && first + 512 * PageSpan(l) <= Start(4, 0, slot + 1)
  }

  lemma SlotPage(slot: nat, first: nat, i: nat, p: nat)
    requires InSlot(slot, 1, first) && i < ENTRIES && p == Start(1, first, i)
    ensures UserAddress(p * PAGE) && p < USER_PAGES
  {
    IndexOfPage(4, 0, slot, p);
    PageAddress(p);
  }

  lemma InSlotChild(slot: nat, l: nat, first: nat, i: nat, start: nat)
    requires InSlot(slot, l, first) && l > 1 && i < ENTRIES && start == Start(l, first, i)
    ensures InSlot(slot, l - 1, start)
  {
    SlotRange(l, first, i);
  }

  lemma InSlotRoot(i: nat, start: nat)
    requires UserSlot(i) && start == Start(4, 0, i)
    ensures InSlot(i, 3, start)
  {
  }

  lemma SkipEntry(a: Space, t: nat, l: nat, first: nat, i: nat, b: Space, before: map<nat, bytes>, now: map<nat, bytes>,
                  own: map<nat, nat>, free: set<nat>, pool: set<nat>, size: nat)
    requires Covers(a, t, l, first) && i < ENTRIES && !(a.mem[t][i].present && a.mem[t][i].user)
    requires Copying(a, b, before, now, own, free, pool, size, Start(l, first, i))
    ensures Copying(a, b, before, now, own, free, pool, size, Start(l, first, i + 1))
  {
    SlotRange(l, first, i);
    forall p: nat | Start(l, first, i) <= p < Start(l, first, i + 1) ensures !UserAt(a, p) {
      NoUserPages(a, t, l, first, i, p);
    }
    SkipPages(a, b, before, now, own, Start(l, first, i), Start(l, first, i + 1));
  }

  lemma LargeEntry(a: Space, t: nat, i: nat, size: nat)
    requires a.Valid() && t in a.mem && i < ENTRIES && a.mem[t][i].present && a.mem[t][i].user && a.mem[t][i].ps
    ensures Short(a, size)
  {
  }

  /** Copy what entry `i` of table `t` maps. */
  method CloneEntry(src: PageTableTree, dst: Space64, t: nat, l: nat, first: nat, i: nat, ghost slot: nat,
                    ghost before: map<nat, bytes>, memory: map<nat, bytes>, ghost size: nat)
    returns (ok: bool, now: map<nat, bytes>)
    requires src.Valid() && src != dst.tree && dst.Valid() && Source(src.Tree(), before, dst.pool)
    requires Covers(src.Tree(), t, l, first) && InSlot(slot, l, first) && i < ENTRIES
    requires Copying(src.Tree(), dst.tree.Tree(), before, memory, dst.own, dst.tree.free, dst.pool, size, Start(l, first, i))
    modifies dst`own, dst`pool, dst.tree
    ensures dst.Valid() && dst.pool == old(dst.pool) && Kept(before, now, dst.pool)
    ensures ok ==> Copying(src.Tree(), dst.tree.Tree(), before, now, dst.own, dst.tree.free, dst.pool, size, Start(l, first, i + 1))
    ensures !ok ==> Short(src.Tree(), size)
    decreases l, 0
  {
    ghost var a := src.Tree();
    var e := src.mem[t][i];
    if !e.present || !e.user {
      SkipEntry(a, t, l, first, i, dst.tree.Tree(), before, memory, dst.own, dst.tree.free, dst.pool, size);
      return true, memory;
    }
    if e.ps {
      LargeEntry(a, t, i, size);
      return false, memory;
    }
    var start := Start(l, first, i);
    if l > 1 {
      CoversChild(a, t, l, first, i, start);
      InSlotChild(slot, l, first, i, start);
      SlotRange(l, first, i);
      ok, now := CloneTable(src, dst, e.frame, l - 1, start, slot, before, memory, size);
    } else {
      BottomPage(a, t, first, i);
      SlotPage(slot, first, i, start);
      ok, now := CloneLeaf(a, dst, e, start, before, memory, size);
    }
  }

  /** Copy all that table `t` maps. */
  method CloneTable(src: PageTableTree, dst: Space64, t: nat, l: nat, first: nat, ghost slot: nat,
                    ghost before: map<nat, bytes>, memory: map<nat, bytes>, ghost size: nat)
    returns (ok: bool, now: map<nat, bytes>)
    requires src.Valid() && src != dst.tree && dst.Valid() && Source(src.Tree(), before, dst.pool)
    requires Covers(src.Tree(), t, l, first) && InSlot(slot, l, first)
    requires Copying(src.Tree(), dst.tree.Tree(), before, memory, dst.own, dst.tree.free, dst.pool, size, first)
    modifies dst`own, dst`pool, dst.tree
    ensures dst.Valid() && dst.pool == old(dst.pool) && Kept(before, now, dst.pool)
    ensures ok ==> Copying(src.Tree(), dst.tree.Tree(), before, now, dst.own, dst.tree.free, dst.pool, size, first + 512 * PageSpan(l))
    ensures !ok ==> Short(src.Tree(), size)
    decreases l
  {
    now := memory;
    ghost var a := src.Tree();
    for i := 0 to ENTRIES
      invariant dst.Valid() && dst.pool == old(dst.pool) && src.Tree() == a && src.Valid()
      invariant Copying(a, dst.tree.Tree(), before, now, dst.own, dst.tree.free, dst.pool, size, Start(l, first, i))
    {
      ok, now := CloneEntry(src, dst, t, l, first, i, slot, before, now, size);
      if !ok {
        return;
      }
    }
    ok := true;
  }

  /** Copy what root slot `i` maps. */
  method CloneSlot(src: PageTableTree, dst: Space64, i: nat,
                   ghost before: map<nat, bytes>, memory: map<nat, bytes>, ghost size: nat)
    returns (ok: bool, now: map<nat, bytes>)
    requires src.Valid() && UserTree(src.Tree()) && src != dst.tree && dst.Valid() && Source(src.Tree(), before, dst.pool) && i < ENTRIES
    requires Copying(src.Tree(), dst.tree.Tree(), before, memory, dst.own, dst.tree.free, dst.pool, size, Start(4, 0, i))
    modifies dst`own, dst`pool, dst.tree
    ensures dst.Valid() && dst.pool == old(dst.pool) && Kept(before, now, dst.pool)
    ensures ok ==> Copying(src.Tree(), dst.tree.Tree(), before, now, dst.own, dst.tree.free, dst.pool, size, Start(4, 0, i + 1))
    ensures !ok ==> Short(src.Tree(), size)
  {
    ghost var a := src.Tree();
    CoversRoot(a);
    var e := src.mem[src.root][i];
    assert RootEntry(i, e);
    if !e.present || !e.user {
      SkipEntry(a, src.root, 4, 0, i, dst.tree.Tree(), before, memory, dst.own, dst.tree.free, dst.pool, size);
      return true, memory;
    }
    if e.ps {
      LargeEntry(a, src.root, i, size);
      return false, memory;
    }
    ghost var start := Start(4, 0, i);
    CoversChild(a, src.root, 4, 0, i, start);
    InSlotRoot(i, start);
    SlotRange(4, 0, i);
    ok, now := CloneTable(src, dst, e.frame, 3, i * 0x800_0000, i, before, memory, size);
  }

  /** Copy every user page of `src` into the empty space `dst`. */
  method CloneRoot(src: PageTableTree, dst: Space64, memory: map<nat, bytes>) returns (ok: bool, now: map<nat, bytes>)
    requires src.Valid() && UserTree(src.Tree()) && src != dst.tree && dst.Valid() && Source(src.Tree(), memory, dst.pool)
    requires dst.own == map[] && forall p: nat :: At(dst.tree.Tree(), p) == Unmapped
    modifies dst`own, dst`pool, dst.tree
    ensures dst.Valid() && dst.pool == old(dst.pool) && Kept(memory, now, dst.pool)
    ensures ok ==> Cloned(src.Tree(), dst.tree.Tree(), memory, now, dst.own, USER_PAGES)
    ensures !ok ==> Short(src.Tree(), |old(dst.tree.free)| + 1)
  {
    now := memory;
    ghost var a, size := src.Tree(), |dst.tree.free| + 1;
    for i := 0 to ENTRIES
      invariant dst.Valid() && dst.pool == old(dst.pool) && src.Tree() == a && src.Valid()
      invariant Copying(a, dst.tree.Tree(), memory, now, dst.own, dst.tree.free, dst.pool, size, Start(4, 0, i))
    {
      ok, now := CloneSlot(src, dst, i, memory, now, size);
      if !ok {
        return;
      }
    }
    ok := true;
  }

  /** A copy of an address space on frames from `free`, or null with all of `free`
      back. Without 2 MiB user mappings, four frames for each page and one more
      are always enough. */
  method Clone(src: Space64, free: set<nat>, kernel: map<nat, Entry>, others: map<nat, Table>, memory: map<nat, bytes>)
    returns (dst: Space64?, left: set<nat>, now: map<nat, bytes>)
    requires src.Valid() && InReach(free) && Source(src.tree.Tree(), memory, free)
    requires forall i | i in kernel :: kernel[i].present
    ensures dst != null ==> fresh(dst) && fresh(dst.tree) && dst.Valid() && dst.pool == free && left == dst.tree.free
                            && Cloned(src.tree.Tree(), dst.tree.Tree(), memory, now, dst.own, USER_PAGES)
    ensures dst == null ==> left == free
    ensures Kept(memory, now, free)
    ensures !BadKernel(kernel) && SmallPages(src.tree.Tree()) && |free| > 4 * |UserPagesOf(src.tree.Tree())| ==> dst != null
  {
    now, left := memory, free;
    var code;
    code, dst := Create(free, kernel);
    if code != 0 {
      return;
    }
    var ok;
    ok, now := CloneRoot(src.tree, dst, memory);
    if !ok {
      FreshIsCurrent(dst.borrowed, kernel);
      dst.Destroy(kernel, others);
      left, dst := dst.tree.free, null;
      return;
    }
    left := dst.tree.free;
  }
}
