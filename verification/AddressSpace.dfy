/** User address spaces: mapping and unmapping pages, copying a whole space for a
    new process, and giving everything back at the end. The kernel's slots of the
    root are borrowed and not part of the tree. */
module AddressSpace {
  import opened Common
  import opened PageTables
  import opened UserPages
  import opened Vmm

  /** Frames that physical addresses reach. */
  ghost predicate InReach(frames: set<nat>) {
    0 !in frames && forall f | f in frames :: f * PAGE < PHYS_LIMIT
  }

  predicate UserAddress(va: nat) {
    0x1000 <= va < TWO47 && va % PAGE == 0 && UserSlot(Index(va, 4))
  }

  /** The user addresses: the second 512 GiB, and everything from 2 TiB to 128 TiB. */
  lemma UserAddressExactlyWhen(va: nat)
    ensures UserAddress(va) <==>
              va % 0x1000 == 0 && (0x80_0000_0000 <= va < 0x100_0000_0000 || 0x200_0000_0000 <= va < 0x8000_0000_0000)
  {
    var slot := va / 0x80_0000_0000;
    if va < TWO47 {
      assert slot < 256 && Index(va, 4) == slot;
    }
  }

  lemma PageAddress(p: nat)
    requires p < USER_PAGES
    ensures Canonical(p * PAGE) && PageOf(p * PAGE) == p && p * PAGE < TWO47 && p * PAGE % PAGE == 0
  {
  }

  lemma FrameAddress(frame: nat, pa: nat)
    requires pa == frame * PAGE
    ensures pa / PAGE == frame && pa % PAGE == 0
  {
  }

  lemma AddressPage(va: nat)
    requires va < TWO47 && va % PAGE == 0
    ensures PageOf(va) < USER_PAGES && PageOf(va) * PAGE == va && Canonical(va)
  {
  }

  /** A change of one page, by page number. */
  lemma ChangedAt(a: Space, b: Space, va: nat, e: Entry, p: nat)
    requires OnlyPageChanged(a, b, va, e) && va < TWO47 && va % PAGE == 0 && p < USER_PAGES
    ensures At(b, p) == if p == PageOf(va) then LeafLookup(e, va) else At(a, p)
  {
    PageAddress(p);
    AddressPage(va);
  }

  lemma UserTreeKept(a: Space, b: Space, va: nat)
    requires UserTree(a) && b.Valid() && OtherSlots(a, b, va, true) && UserSlot(Index(va, 4))
    ensures UserTree(b)
  {
  }

  /** The owned pages after a page changed. */
  ghost function OwnAfter(own: map<nat, nat>, p: nat, e: Entry): map<nat, nat> {
    if e.present && e.owned then own[p := e.frame] else own - {p}
  }

  lemma OwnsAfter(a: Space, b: Space, own: map<nat, nat>, va: nat, e: Entry)
    requires Owns(a, own) && OnlyPageChanged(a, b, va, e) && va < TWO47 && va % PAGE == 0
    ensures Owns(b, OwnAfter(own, PageOf(va), e))
  {
    AddressPage(va);
    forall p: nat | p < USER_PAGES ensures At(b, p) == if p == PageOf(va) then LeafLookup(e, va) else At(a, p) {
      ChangedAt(a, b, va, e, p);
    }
  }

  lemma OwnsAgree(a: Space, b: Space, own: map<nat, nat>)
    requires Owns(a, own) && Agree(a, b)
    ensures Owns(b, own)
  {
  }

  /** `pool` is the free frames, the tables and the owned pages. Owned pages are
      all different, and none is free or a table. */
  ghost predicate Separate(pool: set<nat>, free: set<nat>, tables: set<nat>, own: map<nat, nat>) {
    && Injective(own) && InReach(pool)
    && (forall f: nat :: f in pool <==> f in free || f in tables || f in own.Values)
    && (forall f: nat | f in own.Values :: f !in free && f !in tables)
  }

  ghost predicate Holding(s: Space, free: set<nat>, own: map<nat, nat>, pool: set<nat>) {
    UserTree(s) && Owns(s, own) && Separate(pool, free, s.mem.Keys, own)
  }

  /** A whole tree with its owned pages, whatever is free. */
  ghost predicate Intact(s: Space, own: map<nat, nat>) {
    UserTree(s) && Rooted(s) && Owns(s, own) && Injective(own) && own.Values !! s.mem.Keys
  }

  /** The pool with the page the space takes over. */
  ghost function PoolAfter(pool: set<nat>, e: Entry): set<nat> {
    if e.present && e.owned then pool + {e.frame} else pool
  }

  lemma SeparateAfter(pool: set<nat>, free: set<nat>, tables: set<nat>, own: map<nat, nat>, p: nat, e: Entry)
    requires Separate(pool, free, tables, own) && p !in own
    requires e.present && e.owned ==> e.frame !in pool && InReach({e.frame})
    ensures Separate(PoolAfter(pool, e), free, tables, OwnAfter(own, p, e))
  {
    OwnMoves(own, p, e);
  }

  lemma SeparateMoved(pool: set<nat>, free: set<nat>, mem: map<nat, Table>, own: map<nat, nat>, free': set<nat>, mem': map<nat, Table>)
    requires Separate(pool, free, mem.Keys, own) && SameFrames(free, mem, free', mem')
    ensures Separate(pool, free', mem'.Keys, own)
  {
  }

  lemma HoldingAfter(s: Space, n: Space, free: set<nat>, free': set<nat>, own: map<nat, nat>, pool: set<nat>, va: nat, e: Entry)
    requires Holding(s, free, own, pool) && UserAddress(va) && OtherSlots(s, n, va, true) && OnlyPageChanged(s, n, va, e)
    requires SameFrames(free, s.mem, free', n.mem) && PageOf(va) !in own
    requires e.present && e.owned ==> e.frame !in pool && InReach({e.frame})
    ensures Holding(n, free', OwnAfter(own, PageOf(va), e), PoolAfter(pool, e))
  {
    UserTreeKept(s, n, va);
    OwnsAfter(s, n, own, va, e);
    SeparateMoved(pool, free, s.mem, own, free', n.mem);
    SeparateAfter(pool, free', n.mem.Keys, own, PageOf(va), e);
  }

  /** The same for a new mapping, on frame `frame`. */
  lemma HoldingMapped(s: Space, n: Space, free: set<nat>, free': set<nat>, own: map<nat, nat>, pool: set<nat>,
                      va: nat, e: Entry, frame: nat)
    requires Holding(s, free, own, pool) && UserAddress(va) && OtherSlots(s, n, va, true) && OnlyPageChanged(s, n, va, e)
    requires SameFrames(free, s.mem, free', n.mem) && !Lookup(s, va).Mapped?
    requires e.present && e.frame == frame && frame !in pool && InReach({frame})
    ensures Holding(n, free', OwnWith(own, PageOf(va), frame, e.owned), PoolWith(pool, frame, e.owned))
  {
    AddressPage(va);
    assert PageOf(va) !in own;
    HoldingAfter(s, n, free, free', own, pool, va, e);
    OwnMoves(own, PageOf(va), e);
  }

  ghost function OwnWith(own: map<nat, nat>, p: nat, frame: nat, owned: bool): map<nat, nat> {
    if owned then own[p := frame] else own
  }

  ghost function PoolWith(pool: set<nat>, frame: nat, owned: bool): set<nat> {
    if owned then pool + {frame} else pool
  }

  lemma HoldingAgree(s: Space, n: Space, free: set<nat>, free': set<nat>, own: map<nat, nat>, pool: set<nat>, va: nat)
    requires Holding(s, free, own, pool) && UserAddress(va) && OtherSlots(s, n, va, true) && Agree(s, n)
    requires SameFrames(free, s.mem, free', n.mem)
    ensures Holding(n, free', own, pool)
  {
    UserTreeKept(s, n, va);
    OwnsAgree(s, n, own);
    SeparateMoved(pool, free, s.mem, own, free', n.mem);
  }

  /** Root slots a new space borrows from the kernel. */
  predicate SharedSlot(i: nat) {
    i == 0 || i == 2 || i == 3 || 256 <= i < ENTRIES
  }

  /** Every slot of the root is the process's or the kernel's. */
  lemma SlotsPartition(i: nat)
    requires i < ENTRIES
    ensures SharedSlot(i) <==> !UserSlot(i)
  {
  }

  /** A kernel entry as a process borrows it. */
  function Borrowed(e: Entry): Entry {
    e.(user := false, owned := false)
  }

  /** The kernel keeps to its own slots and the two that are never shared: its own
      identity map reaches into slot 1. */
  ghost predicate KernelSlots(kernel: map<nat, Entry>) {
    forall i | i in kernel :: (SharedSlot(i) || i == 1 || i == 255) && kernel[i].present
  }

  /** Borrowed entries: in the kernel's slots and closed to user mode. */
  ghost predicate KernelSide(borrowed: map<nat, Entry>) {
    forall i | i in borrowed :: SharedSlot(i) && borrowed[i].present && !borrowed[i].user
  }

  function SlotOf(m: map<nat, Entry>, i: nat): Entry {
    if i in m then m[i] else Absent()
  }

  /** What a slot of a process should hold for the kernel's `kernel`. */
  function Wanted(kernel: map<nat, Entry>, i: nat): Entry {
    if i in kernel then Borrowed(kernel[i]) else Absent()
  }

  /** The image and stack slots and a kernel entry without a table are passed over. */
  function Synced(kernel: map<nat, Entry>, was: map<nat, Entry>, i: nat): Entry {
    if i == 1 || i == 255 || (i in kernel && kernel[i].frame == 0) then SlotOf(was, i) else Wanted(kernel, i)
  }

  /** One slot of the root, whose own entry is `e`: the process's own tables win. */
  method SyncSlot(kernel: map<nat, Entry>, borrowed: map<nat, Entry>, i: nat, e: Entry) returns (now: map<nat, Entry>)
    requires KernelSlots(kernel) && KernelSide(borrowed) && i < ENTRIES && RootEntry(i, e)
    ensures KernelSide(now) && SlotOf(now, i) == Synced(kernel, borrowed, i)
    ensures forall j | 0 <= j < ENTRIES && j != i :: SlotOf(now, j) == SlotOf(borrowed, j)
    ensures SlotOf(now, i) == SlotOf(borrowed, i) ==> now == borrowed
  {
    now := borrowed;
    if i == 1 || i == 255 {
      return;
    }
    var have := if i in borrowed then borrowed[i] else e;
    if have.user || (i in kernel && kernel[i].frame == 0) {
      return;
    }
    var want := Wanted(kernel, i);
    if have != want {
      now := if i in kernel then borrowed[i := want] else borrowed - {i};
    }
  }

  /** A kernel entry in a shared slot that names no table. */
  ghost predicate BadKernel(kernel: map<nat, Entry>) {
    exists i: nat :: i in kernel && SharedSlot(i) && kernel[i].frame == 0
  }

  /** The slots a new space starts with. */
  ghost predicate BorrowsAll(borrowed: map<nat, Entry>, kernel: map<nat, Entry>) {
    forall i: nat :: SlotOf(borrowed, i) == if SharedSlot(i) then Wanted(kernel, i) else Absent()
  }

  /** A new address space from the frames in `free`: -2 without a frame for its
      root, -4 for a kernel entry without a table. */
  method Create(free: set<nat>, kernel: map<nat, Entry>) returns (code: int, space: Space64?)
    requires InReach(free) && forall i | i in kernel :: kernel[i].present
    ensures code in {0, -2, -4} && (code == 0 <==> space != null)
    ensures code == -2 <==> free == {}
    ensures code == -4 <==> free != {} && BadKernel(kernel)
    ensures space != null ==> fresh(space) && fresh(space.tree) && space.Valid() && space.pool == free && space.own == map[]
                              && BorrowsAll(space.borrowed, kernel) && |space.tree.free| + 1 == |free|
                              && forall p: nat :: At(space.tree.Tree(), p) == Unmapped
  {
    if free == {} {
      return -2, null;
    }
    var root :| root in free;
    for i := 0 to ENTRIES
      invariant forall j: nat | j < i && j in kernel && SharedSlot(j) :: kernel[j].frame != 0
    {
      if i in kernel && SharedSlot(i) && kernel[i].frame == 0 {
        return -4, null;
      }
    }
    code := 0;
    space := new Space64(root, free - {root}, kernel);
    assert free - {root} + {root} == free;
  }

  // ------------------------------------------------------- tables of others

  /** The frames freed with a table that is not the space's own: the table, every
      table it leads to, and the pages marked as owned. */
  ghost function TornDown(mem: map<nat, Table>, f: nat, l: nat): set<nat>
    decreases l, 1, 0
  {
    if f in mem && l > 0 then {f} + TornBelow(mem, f, l, ENTRIES) else {f}
  }

  ghost function TornBelow(mem: map<nat, Table>, f: nat, l: nat, n: nat): set<nat>
    requires f in mem && l > 0 && n <= ENTRIES
    decreases l, 0, n
  {
    if n == 0 then {}
    else
      var e := mem[f][n - 1];
      TornBelow(mem, f, l, n - 1) +
      if !e.present then {}
      else if l == 1 then (if e.owned then {e.frame} else {})
      else if e.ps then {}
      else TornDown(mem, e.frame, l - 1)
  }

  method Foreign(mem: map<nat, Table>, f: nat, l: nat) returns (freed: set<nat>)
    ensures freed == TornDown(mem, f, l) && f in freed
    decreases l
  {
    freed := {f};
    if f !in mem || l == 0 {
      return;
    }
    var below: set<nat> := {};
    for i := 0 to ENTRIES
      invariant below == TornBelow(mem, f, l, i)
    {
      var e := mem[f][i];
      if e.present {
        if l == 1 {
          below := below + if e.owned then {e.frame} else {};
        } else if !e.ps {
          var more := Foreign(mem, e.frame, l - 1);
          below := below + more;
        }
      }
    }
    freed := freed + below;
  }

  /** All frames freed under the stale ones of the first `n` root slots. */
  ghost function StrayFrames(mem: map<nat, Table>, borrowed: map<nat, Entry>, kernel: map<nat, Entry>, n: nat): set<nat> {
    if n == 0 then {}
    else
      StrayFrames(mem, borrowed, kernel, n - 1) +
      if n - 1 in borrowed && borrowed[n - 1] != Wanted(kernel, n - 1) then TornDown(mem, borrowed[n - 1].frame, 3) else {}
  }

  /** Every borrowed entry is the kernel's as it is now. */
  ghost predicate NothingStale(borrowed: map<nat, Entry>, kernel: map<nat, Entry>) {
    forall i | i in borrowed :: borrowed[i] == Wanted(kernel, i)
  }

  lemma {:induction false} NoStrays(mem: map<nat, Table>, borrowed: map<nat, Entry>, kernel: map<nat, Entry>, n: nat)
    requires NothingStale(borrowed, kernel)
    ensures StrayFrames(mem, borrowed, kernel, n) == {}
  {
    if n > 0 {
      NoStrays(mem, borrowed, kernel, n - 1);
    }
  }

  lemma {:induction false} StrayIn(mem: map<nat, Table>, borrowed: map<nat, Entry>, kernel: map<nat, Entry>, n: nat, i: nat)
    requires i < n && i in borrowed && borrowed[i] != Wanted(kernel, i)
    ensures borrowed[i].frame in StrayFrames(mem, borrowed, kernel, n)
    decreases n
  {
    if i < n - 1 {
      StrayIn(mem, borrowed, kernel, n - 1, i);
    }
  }

  /** A frame from outside the pool is freed exactly when a borrowed slot is stale. */
  lemma StraysExactlyWhen(mem: map<nat, Table>, borrowed: map<nat, Entry>, kernel: map<nat, Entry>, pool: set<nat>)
    requires KernelSide(borrowed)
    ensures NothingStale(borrowed, kernel) ==> StrayFrames(mem, borrowed, kernel, ENTRIES) == {}
    ensures (forall i | i in borrowed :: borrowed[i].frame !in pool) && StrayFrames(mem, borrowed, kernel, ENTRIES) <= pool ==> NothingStale(borrowed, kernel)
  {
    if NothingStale(borrowed, kernel) {
      NoStrays(mem, borrowed, kernel, ENTRIES);
    }
    forall i | i in borrowed && borrowed[i] != Wanted(kernel, i) ensures borrowed[i].frame in StrayFrames(mem, borrowed, kernel, ENTRIES) {
      StrayIn(mem, borrowed, kernel, ENTRIES, i);
    }
  }

  /** Just created or just synchronised, nothing is stale. */
  lemma FreshIsCurrent(borrowed: map<nat, Entry>, kernel: map<nat, Entry>)
    requires KernelSide(borrowed) && BorrowsAll(borrowed, kernel)
    ensures NothingStale(borrowed, kernel)
  {
    forall i | i in borrowed ensures borrowed[i] == Wanted(kernel, i) {
      assert SlotOf(borrowed, i) == borrowed[i];
    }
  }

  lemma SyncedIsCurrent(borrowed: map<nat, Entry>, was: map<nat, Entry>, kernel: map<nat, Entry>)
    requires KernelSide(borrowed) && !BadKernel(kernel) && forall i | 0 <= i < ENTRIES :: SlotOf(borrowed, i) == Synced(kernel, was, i)
    ensures NothingStale(borrowed, kernel)
  {
    forall i | i in borrowed ensures borrowed[i] == Wanted(kernel, i) {
      assert SlotOf(borrowed, i) == borrowed[i] && SlotOf(borrowed, i) == Synced(kernel, was, i);
    }
  }

  class Space64 {
    const tree: PageTableTree
    /** The root's entries in the kernel's slots; the others are in `tree`. */
    var borrowed: map<nat, Entry>
    /** The pages the space owns, and every frame it has taken or may still take. */
    ghost var own: map<nat, nat>
    ghost var pool: set<nat>

    ghost predicate Valid()
      reads this, tree
    {
      tree.Valid() && Holding(tree.Tree(), tree.free, own, pool) && KernelSide(borrowed)
    }

    /** An empty space that borrows the kernel's slots. */
    constructor (root: nat, free: set<nat>, kernel: map<nat, Entry>)
      requires root !in free && InReach(free + {root}) && forall i | i in kernel :: kernel[i].present
      ensures Valid() && fresh(tree) && own == map[] && tree.free == free && pool == free + {root}
      ensures forall p: nat :: At(tree.Tree(), p) == Unmapped
      ensures BorrowsAll(borrowed, kernel)
    {
      tree := new PageTableTree(root, free, {});
      own, pool := map[], free + {root};
      borrowed := map i | i in kernel && SharedSlot(i) :: Borrowed(kernel[i]);
    }

    /** Take the kernel's slots over as they are now. */
    method SyncKernel(kernel: map<nat, Entry>) returns (changed: nat)
      requires Valid() && KernelSlots(kernel)
      modifies this`borrowed
      ensures Valid()
      ensures forall i | 0 <= i < ENTRIES :: SlotOf(borrowed, i) == Synced(kernel, old(borrowed), i)
      ensures changed == 0 ==> borrowed == old(borrowed)
    {
      changed := 0;
      for i := 0 to ENTRIES
        invariant KernelSide(borrowed)
        invariant forall j | 0 <= j < i :: SlotOf(borrowed, j) == Synced(kernel, old(borrowed), j)
        invariant forall j | i <= j < ENTRIES :: SlotOf(borrowed, j) == SlotOf(old(borrowed), j)
        invariant changed == 0 ==> borrowed == old(borrowed)
      {
        assert RootEntry(i, tree.mem[tree.root][i]);
        var now := SyncSlot(kernel, borrowed, i, tree.mem[tree.root][i]);
        changed := changed + if SlotOf(now, i) != SlotOf(borrowed, i) then 1 else 0;
        borrowed := now;
      }
    }

    /** Hand one frame back; it must be in use. */
    method FreeFrame(f: nat)
      requires f !in tree.free
      modifies tree`free
      ensures tree.free == old(tree.free) + {f}
    {
      tree.free := tree.free + {f};
    }

    /** Hand back table `t`, all tables below it and the pages owned there. */
    method FreeTable(t: nat, l: nat)
      requires Intact(tree.Tree(), own) && t in tree.mem && tree.level[t] == l && l < 4
      requires Below(tree.Tree(), t, ENTRIES) + {t} !! tree.free
      modifies tree`free
      ensures tree.free == old(tree.free) + (Below(tree.Tree(), t, ENTRIES) + {t})
      decreases l
    {
      ghost var s, before := tree.Tree(), tree.free;
      for i := 0 to ENTRIES
        invariant tree.free == before + Below(s, t, i)
      {
        FreeEntry(t, l, i, before);
      }
      NotInItself(s, own, t);
      FreeFrame(t);
    }

    method FreeEntry(t: nat, l: nat, i: nat, ghost before: set<nat>)
      requires Intact(tree.Tree(), own) && t in tree.mem && tree.level[t] == l && i < ENTRIES
      requires Below(tree.Tree(), t, ENTRIES) !! before && tree.free == before + Below(tree.Tree(), t, i)
      modifies tree`free
      ensures tree.free == before + Below(tree.Tree(), t, i + 1)
      decreases l, 0
    {
      ghost var s := tree.Tree();
      HeldOnce(s, own, t, i);
      HeldBelow(s, t, i, ENTRIES);
      assert s.EntryOk(t, i);
      var e := tree.mem[t][i];
      if !e.present {
        return;
      }
      if l == 1 {
        if e.owned {
          FreeFrame(e.frame);
        }
      } else if !e.ps {
        FreeTable(e.frame, l - 1);
      }
    }

    /** The end of the space: its own tables and pages go back, and with them the
        tables under every borrowed entry that is not the kernel's any more. `others`
        is the memory of the frames that are not the space's own. */
    method Destroy(kernel: map<nat, Entry>, others: map<nat, Table>)
      requires Valid()
      modifies tree`free
      ensures tree.free == pool + StrayFrames(others, borrowed, kernel, ENTRIES)
      ensures NothingStale(borrowed, kernel) ==> tree.free == pool
      ensures tree.free == pool && (forall i | i in borrowed :: borrowed[i].frame !in pool) ==> NothingStale(borrowed, kernel)
    {
      PoolIsAll(tree.Tree(), tree.free, own, pool);
      var torn := DestroySlots(kernel, others);
      StraysExactlyWhen(others, borrowed, kernel, pool);
      tree.free := tree.free + torn;
    }

    /** Slot after slot of the root; `torn` are the frames of stale slots. */
    method DestroySlots(kernel: map<nat, Entry>, others: map<nat, Table>) returns (torn: set<nat>)
      requires Intact(tree.Tree(), own) && AllFrames(tree.Tree()) !! tree.free
      modifies tree`free
      ensures tree.free == old(tree.free) + AllFrames(tree.Tree()) && torn == StrayFrames(others, borrowed, kernel, ENTRIES)
    {
      ghost var s, before, root := tree.Tree(), tree.free, tree.root;
      torn := {};
      for i := 0 to ENTRIES
        invariant tree.free == before + Below(s, root, i) && torn == StrayFrames(others, borrowed, kernel, i)
      {
        FreeEntry(tree.root, 4, i, before);
        var more := StaleTables(kernel, others, i);
        torn := torn + more;
      }
      NotInItself(s, own, root);
      FreeFrame(tree.root);
    }

    method StaleTables(kernel: map<nat, Entry>, others: map<nat, Table>, i: nat) returns (torn: set<nat>)
      ensures torn == if i in borrowed && borrowed[i] != Wanted(kernel, i) then TornDown(others, borrowed[i].frame, 3) else {}
    {
      torn := {};
      if i in borrowed && borrowed[i] != Wanted(kernel, i) {
        torn := Foreign(others, borrowed[i].frame, 3);
      }
    }

    /** The entry that maps `va`: the bottom one, or the 2 MiB one above it. */
    method WalkEntry(va: nat) returns (e: Entry)
      requires tree.Valid()
      ensures va < TWO47 ==> (e.present <==> Lookup(tree.Tree(), va).Mapped?)
      ensures va < TWO47 && e.present ==> (
        var m := Lookup(tree.Tree(), va);
        m.write == e.write && m.user == e.user && m.nx == e.nx && m.owned == e.owned && (e.owned ==> m.phys == e.frame * PAGE + va % PAGE)
      )
      ensures va >= TWO47 ==> !e.present
    {
      if va >= TWO47 {
        return Absent();
      }
      ghost var s := tree.Tree();
      var table, level := tree.root, 4;
      while level > 1
        invariant 1 <= level <= 4 && table in tree.mem && s.level[table] == level
        invariant Lookup(s, va) == LookupFrom(s, table, va)
      {
        var i := Index(va, level);
        assert s.EntryOk(table, i);
        e := tree.mem[table][i];
        if !e.present {
          return Absent();
        }
        if level <= 3 && e.ps {
          return;
        }
        table, level := e.frame, level - 1;
      }
      e := tree.mem[table][Index(va, 1)];
    }

    /** Map a page of the caller's at a free user address. With `owned` the space
        takes the page over. */
    method Map(va: nat, frame: nat, f: Flags, owned: bool) returns (ok: bool)
      requires Valid() && frame !in pool && InReach({frame})
      modifies this`own, this`pool, tree
      ensures Valid()
      ensures ok ==> UserAddress(va) && !old(Lookup(tree.Tree(), va)).Mapped?
                     && OnlyPageChanged(old(tree.Tree()), tree.Tree(), va, UserLeaf(frame, f, owned))
                     && own == OwnWith(old(own), PageOf(va), frame, owned) && pool == PoolWith(old(pool), frame, owned)
                     && |tree.free| >= |old(tree.free)| - 3
      ensures !ok ==> Agree(old(tree.Tree()), tree.Tree()) && own == old(own) && pool == old(pool)
      ensures UserAddress(va) && !old(Lookup(tree.Tree(), va)).Mapped? && |old(tree.free)| >= 3 ==> ok
    {
      if !UserAddress(va) {
        return false;
      }
      var e := WalkEntry(va);
      if e.present {
        return false;
      }
      var pa := frame * PAGE;
      FrameAddress(frame, pa);
      ok := MapFresh(va, pa, frame, f.(present := true, user := true, owned := owned));
    }

    method MapFresh(va: nat, pa: nat, ghost frame: nat, f: Flags) returns (ok: bool)
      requires Valid() && frame !in pool && InReach({frame}) && UserAddress(va) && f.present && f.user
      requires pa % PAGE == 0 && pa / PAGE == frame && pa < PHYS_LIMIT
      requires !Lookup(tree.Tree(), va).Mapped?
      modifies this`own, this`pool, tree
      ensures Valid()
      ensures ok ==> OnlyPageChanged(old(tree.Tree()), tree.Tree(), va, LeafEntry(pa, f))
                     && own == OwnWith(old(own), PageOf(va), frame, f.owned) && pool == PoolWith(old(pool), frame, f.owned)
                     && |tree.free| >= |old(tree.free)| - 3
      ensures !ok ==> Agree(old(tree.Tree()), tree.Tree()) && own == old(own) && pool == old(pool)
      ensures |old(tree.free)| >= 3 ==> ok
    {
      ghost var s, free, e := tree.Tree(), tree.free, LeafEntry(pa, f);
      AddressPage(va);
      var code := tree.MapPage(va, pa, f);
      ok := code == 0;
      ghost var n := tree.Tree();
      if ok {
        HoldingMapped(s, n, free, tree.free, own, pool, va, e, frame);
        Own(OwnWith(own, PageOf(va), frame, f.owned), PoolWith(pool, frame, f.owned));
      } else {
        HoldingAgree(s, n, free, tree.free, own, pool, va);
      }
    }

    ghost method Own(own: map<nat, nat>, pool: set<nat>)
      requires tree.Valid() && Holding(tree.Tree(), tree.free, own, pool) && KernelSide(borrowed)
      modifies this`own, this`pool
      ensures Valid() && this.own == own && this.pool == pool
    {
      this.own, this.pool := own, pool;
    }

    /** New rights for a page the space owns. */
    method UpdateFlags(va: nat, f: Flags) returns (ok: bool)
      requires Valid()
      modifies tree
      ensures Valid()
      ensures ok ==> UserAddress(va) && PageOf(va) in own
                     && OnlyPageChanged(old(tree.Tree()), tree.Tree(), va, UserLeaf(own[PageOf(va)], f, true))
      ensures !ok ==> Agree(old(tree.Tree()), tree.Tree())
      ensures ok ==> |tree.free| >= |old(tree.free)| - 3
      ensures !(UserAddress(va) && PageOf(va) in own && At(old(tree.Tree()), PageOf(va)).user) ==> !ok
      ensures UserAddress(va) && PageOf(va) in own && At(old(tree.Tree()), PageOf(va)).user && |old(tree.free)| >= 3 ==> ok
    {
      if !UserAddress(va) {
        return false;
      }
      AddressPage(va);
      var e := WalkEntry(va);
      if !e.present || !e.user || !e.owned {
        return false;
      }
      var pa := e.frame * PAGE;
      FrameAddress(e.frame, pa);
      OwnedFrame(tree.Tree(), own, va, e.frame);
      ok := Remap(va, pa, f.(present := true, user := true, owned := true));
    }

    /** The same, by page number. */
    method UpdatePage(p: nat, f: Flags) returns (ok: bool)
      requires Valid() && p in own
      modifies tree
      ensures Valid() && own == old(own) && pool == old(pool)
      ensures ok ==> OnlyPageChanged(old(tree.Tree()), tree.Tree(), p * PAGE, UserLeaf(own[p], f, true))
                     && |tree.free| >= |old(tree.free)| - 3
      ensures p < USER_PAGES && UserAddress(p * PAGE) && At(old(tree.Tree()), p).user && |old(tree.free)| >= 3 ==> ok
    {
      assert p < USER_PAGES;
      PageAddress(p);
      ok := UpdateFlags(p * PAGE, f);
    }

    method Remap(va: nat, pa: nat, f: Flags) returns (ok: bool)
      requires Valid() && UserAddress(va) && f.present && f.user && f.owned && PageOf(va) in own
      requires pa % PAGE == 0 && pa / PAGE == own[PageOf(va)]
      modifies tree
      ensures Valid()
      ensures ok ==> OnlyPageChanged(old(tree.Tree()), tree.Tree(), va, LeafEntry(pa, f)) && |tree.free| >= |old(tree.free)| - 3
      ensures !ok ==> Agree(old(tree.Tree()), tree.Tree()) && |old(tree.free)| < 3
    {
      ghost var s, free, e := tree.Tree(), tree.free, LeafEntry(pa, f);
      AddressPage(va);
      OwnedInReach(pool, free, tree.mem.Keys, own, PageOf(va), pa);
      var code := tree.MapPage(va, pa, f);
      ok := code == 0;
      ghost var n := tree.Tree();
      if ok {
        HoldingSame(s, n, free, tree.free, own, pool, va, e);
      } else {
        HoldingAgree(s, n, free, tree.free, own, pool, va);
      }
    }

    /** Take a frame from the allocator, or 0. */
    method Take() returns (f: nat)
      requires Valid()
      modifies this`pool, tree`free
      ensures Valid() && (f == 0 ==> |old(tree.free)| == 0 && pool == old(pool))
      ensures f != 0 ==> f in old(pool) && InReach({f}) && pool == old(pool) - {f} && |tree.free| == |old(tree.free)| - 1
    {
      ghost var free := tree.free;
      f := tree.TakeFrame();
      if f != 0 {
        FrameTaken(pool, free, tree.mem.Keys, own, f);
        pool := pool - {f};
      }
    }

    /** Give a frame back. */
    method Give(f: nat)
      requires Valid() && f !in pool && InReach({f})
      modifies this`pool, tree`free
      ensures Valid() && pool == old(pool) + {f}
    {
      FrameGiven(pool, tree.free, tree.mem.Keys, own, f);
      pool, tree.free := pool + {f}, tree.free + {f};
    }

    /** Map page `p` on a frame taken for it; 0 if there is no frame or no mapping. */
    method MapTaken(p: nat, f: Flags) returns (page: nat)
      requires Valid() && p < USER_PAGES && p !in own
      modifies this`own, this`pool, tree
      ensures Valid() && pool == old(pool)
      ensures page != 0 ==> page in pool && page !in old(own.Values) && own == old(own)[p := page]
                            && OnlyPageChanged(old(tree.Tree()), tree.Tree(), p * PAGE, UserLeaf(page, f, true))
                            && |tree.free| >= |old(tree.free)| - 4
      ensures page == 0 && UserAddress(p * PAGE) && At(old(tree.Tree()), p) == Unmapped ==> |old(tree.free)| < 4
    {
      PageAddress(p);
      page := Take();
      if page == 0 {
        return;
      }
      var ok := Map(p * PAGE, page, f, true);
      if !ok {
        Give(page);
        page := 0;
      }
    }

    /** Clear the bottom entry for `va`; an owned page becomes free. Tables stay. */
    method Unmap(va: nat) returns (ok: bool)
      requires Valid()
      modifies this`own, tree
      ensures Valid() && tree.mem.Keys == old(tree.mem.Keys)
      ensures ok ==> UserAddress(va) && old(Lookup(tree.Tree(), va)).Mapped?
                     && OnlyPageChanged(old(tree.Tree()), tree.Tree(), va, Absent())
                     && own == old(own) - {PageOf(va)}
      ensures !ok ==> tree.Tree() == old(tree.Tree()) && own == old(own)
      ensures UserAddress(va) && PageOf(va) in old(own) ==> ok
    {
      if !UserAddress(va) {
        return false;
      }
      AddressPage(va);
      var e := WalkEntry(va);
      if !e.present {
        return false;
      }
      var pd := tree.Descend(va);
      ghost var s := tree.Tree();
      assert s.EntryOk(pd, Index(va, 2));
      LookupAtVisited(s, s.root, pd, va);
      if tree.mem[pd][Index(va, 2)].ps {
        return false;
      }
      var pt := tree.mem[pd][Index(va, 2)].frame;
      VisitsChild(s, va, pd);
      LookupAtVisited(s, s.root, pt, va);
      Clear(va, pt);
      ok := true;
    }

    method Clear(va: nat, pt: nat)
      requires Valid() && UserAddress(va) && Reached(tree.Tree(), va, pt, 1, false) && tree.mem[pt][Index(va, 1)].present
      modifies this`own, tree
      ensures Valid() && tree.mem.Keys == old(tree.mem.Keys)
      ensures OnlyPageChanged(old(tree.Tree()), tree.Tree(), va, Absent()) && own == old(own) - {PageOf(va)}
    {
      var e := tree.mem[pt][Index(va, 1)];
      BottomOwned(tree.Tree(), own, va, pt);
      Erase(va, pt);
      GiveBack(PageOf(va), e);
    }

    method Erase(va: nat, pt: nat)
      requires Valid() && UserAddress(va) && Reached(tree.Tree(), va, pt, 1, false)
      modifies tree`mem, tree`level, tree`up
      ensures tree.Valid() && UserTree(tree.Tree()) && Owns(tree.Tree(), own - {PageOf(va)})
      ensures Separate(pool, tree.free, tree.mem.Keys, own) && tree.mem.Keys == old(tree.mem.Keys)
      ensures OnlyPageChanged(old(tree.Tree()), tree.Tree(), va, Absent())
    {
      ghost var s := tree.Tree();
      AddressPage(va);
      tree.SetLeaf(va, pt, Absent());
      UserTreeKept(s, tree.Tree(), va);
      OwnsAfter(s, tree.Tree(), own, va, Absent());
    }

    /** Free the page `p`, whose entry `e` is gone, if the space owned it. */
    method GiveBack(ghost p: nat, e: Entry)
      requires tree.Valid() && UserTree(tree.Tree()) && Owns(tree.Tree(), own - {p}) && KernelSide(borrowed)
      requires Separate(pool, tree.free, tree.mem.Keys, own) && (e.owned <==> p in own) && (p in own ==> own[p] == e.frame)
      modifies this`own, tree`free
      ensures Valid() && own == old(own) - {p}
    {
      if !e.owned {
        assert own - {p} == own;
        return;
      }
      PageGivenBack(pool, tree.free, tree.mem.Keys, own, p);
      tree.free := tree.free + {e.frame};
      own := own - {p};
    }
  }

  /** Creating a space and destroying it with the same kernel gives back what it
      took, no less and no more. */
  method CreateThenDestroy(free: set<nat>, kernel: map<nat, Entry>, others: map<nat, Table>) returns (left: set<nat>)
    requires InReach(free) && forall i | i in kernel :: kernel[i].present
    ensures left == free
  {
    var code, space := Create(free, kernel);
    if space == null {
      return free;
    }
    FreshIsCurrent(space.borrowed, kernel);
    space.Destroy(kernel, others);
    left := space.tree.free;
  }

  /** So does synchronising it just before, whatever it had borrowed earlier. */
  method SyncThenDestroy(space: Space64, kernel: map<nat, Entry>, others: map<nat, Table>)
    requires space.Valid() && KernelSlots(kernel) && !BadKernel(kernel)
    modifies space`borrowed, space.tree`free
    ensures space.tree.free == space.pool
  {
    ghost var was := space.borrowed;
    var _ := space.SyncKernel(kernel);
    SyncedIsCurrent(space.borrowed, was, kernel);
    space.Destroy(kernel, others);
  }

  /** A slot the kernel gave up after the space borrowed it is torn down with the
      space, although the table there was never its own. */
  method StaleSlot(root: nat, e: Entry) returns (freed: set<nat>)
    requires InReach({root}) && e.present && e.frame != root
    ensures root in freed && e.frame in freed
  {
    var kernel := map[0 := e];
    var space := new Space64(root, {}, kernel);
    assert SlotOf(space.borrowed, 0) == Borrowed(e) && 0 in space.borrowed;
    StrayIn(map[], space.borrowed, map[], ENTRIES, 0);
    space.Destroy(map[], map[]);
    freed := space.tree.free;
  }

  /** The bottom entry a user mapping gets. */
  function UserLeaf(frame: nat, f: Flags, owned: bool): Entry {
    LeafEntry(frame * PAGE, f.(present := true, user := true, owned := owned))
  }

  /** The pool is what is free and what the tree holds, and the two are apart. */
  lemma PoolIsAll(s: Space, free: set<nat>, own: map<nat, nat>, pool: set<nat>)
    requires Holding(s, free, own, pool) && Rooted(s) && free !! s.mem.Keys
    ensures Intact(s, own) && AllFrames(s) !! free && free + AllFrames(s) == pool
  {
    FramesOfOwner(s, own);
  }

  lemma OwnedFrame(s: Space, own: map<nat, nat>, va: nat, frame: nat)
    requires Owns(s, own) && va < TWO47 && va % PAGE == 0 && Lookup(s, va).Mapped? && Lookup(s, va).owned
    requires Lookup(s, va).phys == frame * PAGE + va % PAGE
    ensures PageOf(va) in own && own[PageOf(va)] == frame
  {
    AddressPage(va);
  }

  lemma OwnedInReach(pool: set<nat>, free: set<nat>, tables: set<nat>, own: map<nat, nat>, p: nat, pa: nat)
    requires Separate(pool, free, tables, own) && p in own && pa % PAGE == 0 && pa / PAGE == own[p]
    ensures pa < PHYS_LIMIT
  {
    assert own[p] in pool;
  }

  /** The rights of an owned page changed. */
  lemma HoldingSame(s: Space, n: Space, free: set<nat>, free': set<nat>, own: map<nat, nat>, pool: set<nat>, va: nat, e: Entry)
    requires Holding(s, free, own, pool) && UserAddress(va) && OtherSlots(s, n, va, true) && OnlyPageChanged(s, n, va, e)
    requires SameFrames(free, s.mem, free', n.mem)
    requires e.present && e.owned && PageOf(va) in own && e.frame == own[PageOf(va)]
    ensures Holding(n, free', own, pool)
  {
    UserTreeKept(s, n, va);
    OwnsAfter(s, n, own, va, e);
    assert own[PageOf(va) := e.frame] == own;
    SeparateMoved(pool, free, s.mem, own, free', n.mem);
  }

  lemma BottomOwned(s: Space, own: map<nat, nat>, va: nat, pt: nat)
    requires Owns(s, own) && UserAddress(va) && Reached(s, va, pt, 1, false) && s.mem[pt][Index(va, 1)].present
    ensures s.mem[pt][Index(va, 1)].owned <==> PageOf(va) in own
    ensures PageOf(va) in own ==> own[PageOf(va)] == s.mem[pt][Index(va, 1)].frame
  {
    AddressPage(va);
    LookupAtVisited(s, s.root, pt, va);
  }

  lemma FrameTaken(pool: set<nat>, free: set<nat>, tables: set<nat>, own: map<nat, nat>, f: nat)
    requires Separate(pool, free, tables, own) && f in free && free !! tables
    ensures Separate(pool - {f}, free - {f}, tables, own) && f in pool && InReach({f})
  {
  }

  lemma FrameGiven(pool: set<nat>, free: set<nat>, tables: set<nat>, own: map<nat, nat>, f: nat)
    requires Separate(pool, free, tables, own) && f !in pool && InReach({f})
    ensures Separate(pool + {f}, free + {f}, tables, own) && f !in tables
  {
  }

  lemma PageGivenBack(pool: set<nat>, free: set<nat>, tables: set<nat>, own: map<nat, nat>, p: nat)
    requires Separate(pool, free, tables, own) && p in own
    ensures Separate(pool, free + {own[p]}, tables, own - {p}) && own[p] !in tables && own[p] != 0
  {
    OwnMoves(own, p, Absent());
  }

  lemma OwnMoves(own: map<nat, nat>, p: nat, e: Entry)
    requires Injective(own) && (e.present && e.owned ==> e.frame !in own.Values)
    ensures Injective(OwnAfter(own, p, e))
    ensures OwnAfter(own, p, e).Values <= own.Values + if e.present && e.owned then {e.frame} else {}
    ensures p !in own && e.present && e.owned ==> OwnAfter(own, p, e).Values == own.Values + {e.frame}
    ensures p in own && !(e.present && e.owned) ==> OwnAfter(own, p, e).Values == own.Values - {own[p]}
    ensures p !in own && !(e.present && e.owned) ==> OwnAfter(own, p, e) == own
  {
    var own' := OwnAfter(own, p, e);
    if p !in own && e.present && e.owned {
      forall f | f in own.Values + {e.frame} ensures f in own'.Values {
        if f == e.frame {
          assert own'[p] == f;
        } else {
          var q :| q in own && own[q] == f;
          assert own'[q] == f;
        }
      }
    }
    if p in own && !(e.present && e.owned) {
      forall f | f in own.Values - {own[p]} ensures f in own'.Values {
        var q :| q in own && own[q] == f;
        assert own'[q] == f;
      }
    }
  }
}
