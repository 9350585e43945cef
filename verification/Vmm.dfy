/** The page-table code of the kernel, as it runs: entries written in place,
    tables taken from and given back to the page allocator. */
module Vmm {
  import opened Common
  import opened PageTables

  datatype Flags = Flags(present: bool, write: bool, user: bool, pwt: bool, pcd: bool, nx: bool, owned: bool)

  function LeafEntry(pa: nat, f: Flags): Entry {
    Entry(pa / PAGE, f.present, f.write, f.user, f.pwt, f.pcd, false, f.owned, f.nx)
  }

  /** Physical addresses have at most 52 bits. */
  const PHYS_LIMIT: nat := 0x10_0000_0000_0000

  /** Every address means the same in `a` and in `b`. */
  ghost predicate Agree(a: Space, b: Space) {
    a.Valid() && b.Valid() && forall va: nat :: Lookup(a, va) == Lookup(b, va)
  }

  /** Outside the slot of `va` the root is as it was; with `user`, a new entry in
      that slot is open to user mode. */
  ghost predicate OtherSlots(a: Space, b: Space, va: nat, user: bool) {
    && a.root == b.root && a.root in a.mem && a.root in b.mem
    && (forall i | 0 <= i < ENTRIES && i != Index(va, 4) :: b.mem[a.root][i] == a.mem[a.root][i])
    && (user ==> SlotOpen(a.mem[a.root][Index(va, 4)], b.mem[a.root][Index(va, 4)]))
  }

  predicate SlotOpen(was: Entry, now: Entry) {
    now == was || now == Absent() || (now.present && now.user)
  }

  lemma Compose(a: Space, b: Space, c: Space, d: Space, va: nat, e: Entry)
    requires Agree(a, b) && OnlyPageChanged(b, c, va, e) && Agree(c, d)
    ensures OnlyPageChanged(a, d, va, e)
  {
  }

  /** `b` differs from `a` at most in entry `i` of `t` and in new tables. */
  ghost predicate OnlyEntry(a: Space, b: Space, t: nat, i: nat) {
    && a.root == b.root
    && forall x | x in a.mem ::
         && x in b.mem && x in a.level && x in b.level && b.level[x] == a.level[x]
         && forall j | 0 <= j < ENTRIES && (x, j) != (t, i) :: b.mem[x][j] == a.mem[x][j]
  }

  /** A table entered through an entry open to user mode may hold user entries. */
  lemma UserBelow(s: Space, t: nat, i: nat)
    requires s.Valid() && t in s.mem && i < ENTRIES && s.Points(t, i) && s.mem[t][i].user
    ensures UserAbove(s, s.mem[t][i].frame)
  {
    assert s.EntryOk(t, i);
    forall x, j | x in s.mem && 0 <= j < ENTRIES && s.Points(x, j) && s.mem[x][j].frame == s.mem[t][i].frame
      ensures s.mem[x][j].user
    {
      assert s.EntryOk(x, j);
    }
  }

  lemma UserAboveRoot(s: Space)
    requires s.Valid()
    ensures UserAbove(s, s.root)
  {
    forall x, j | x in s.mem && 0 <= j < ENTRIES
      ensures s.Points(x, j) ==> s.mem[x][j].frame != s.root
    {
      assert s.EntryOk(x, j);
    }
  }

  lemma DropStep(s: Space, t: nat, i: nat)
    requires s.Valid() && t in s.mem && i < ENTRIES && s.Points(t, i)
    requires s.mem[t][i].frame in s.mem && IsEmpty(s.mem[s.mem[t][i].frame])
    ensures Agree(s, Drop(s, t, i)) && s.mem[t][i].frame != s.root && (Rooted(s) ==> Rooted(Drop(s, t, i)))
  {
    assert s.EntryOk(t, i);
    if Rooted(s) {
      DropRooted(s, t, i);
    }
    DropValid(s, t, i);
    forall va: nat ensures Lookup(Drop(s, t, i), va) == Lookup(s, va) {
      DropKeeps(s, t, i, s.root, va);
    }
  }

  lemma VisitsChild(s: Space, va: nat, t: nat)
    requires s.Valid() && t in s.mem && Visits(s, s.root, va, t)
    requires s.Points(t, Index(va, s.level[t]))
    ensures s.EntryOk(t, Index(va, s.level[t])) && Visits(s, s.root, va, s.mem[t][Index(va, s.level[t])].frame)
  {
    VisitsChildFrom(s, s.root, va, t);
  }

  lemma {:induction false} VisitsChildFrom(s: Space, x: nat, va: nat, t: nat)
    requires s.Valid() && x in s.mem && t in s.mem && Visits(s, x, va, t)
    requires s.Points(t, Index(va, s.level[t]))
    ensures s.EntryOk(t, Index(va, s.level[t])) && Visits(s, x, va, s.mem[t][Index(va, s.level[t])].frame)
    decreases s.level[x]
  {
    assert s.EntryOk(t, Index(va, s.level[t]));
    var j := Index(va, s.level[x]);
    assert s.EntryOk(x, j);
    if x != t {
      VisitsChildFrom(s, s.mem[x][j].frame, va, t);
    }
  }

  /** Table `t` at level `l` is on the walk of `va`, open to user mode if asked. */
  ghost predicate Reached(s: Space, va: nat, t: nat, l: nat, user: bool) {
    && s.Valid() && t in s.mem && s.level[t] == l && Visits(s, s.root, va, t)
    && (user ==> UserAbove(s, t))
  }

  /** The bottom entry of `va` caches as told. */
  ghost predicate CachedAs(s: Space, va: nat, pwt: bool, pcd: bool) {
    exists pt: nat :: Reached(s, va, pt, 1, false) && BottomBits(s.mem[pt][Index(va, 1)], pwt, pcd)
  }

  predicate BottomBits(e: Entry, pwt: bool, pcd: bool) {
    e.pwt == pwt && e.pcd == pcd
  }

  /** What the address `vb` of a page mapped to `pa` with flags `f` means. */
  function PageMapping(pa: nat, f: Flags, vb: nat): Mapping {
    if f.present then Mapped(pa + vb % 0x1000, f.write, f.user, f.nx, f.owned) else Unmapped
  }

  lemma LeafMeans(a: Space, b: Space, va: nat, pa: nat, f: Flags)
    requires OnlyPageChanged(a, b, va, LeafEntry(pa, f)) && pa % PAGE == 0
    ensures forall vb: nat | Canonical(vb) && PageOf(vb) == PageOf(va) :: Lookup(b, vb) == PageMapping(pa, f, vb)
  {
    assert pa / PAGE * PAGE == pa;
  }

  /** Changing the entry the walk takes at `t` leaves the walk down to `t`. */
  lemma {:induction false} VisitsKept(a: Space, b: Space, x: nat, va: nat, t: nat)
    requires a.Valid() && b.Valid() && x in a.mem && t in a.mem && Visits(a, x, va, t)
    requires OnlyEntry(a, b, t, Index(va, a.level[t]))
    ensures Visits(b, x, va, t)
    decreases a.level[x]
  {
    if x != t {
      var j := Index(va, a.level[x]);
      assert a.EntryOk(x, j) && b.EntryOk(x, j);
      assert b.mem[x][j] == a.mem[x][j];
      VisitsKept(a, b, a.mem[x][j].frame, va, t);
    }
  }

  /** One level further down. */
  lemma ReachedChild(a: Space, b: Space, va: nat, t: nat, l: nat, user: bool)
    requires Reached(a, va, t, l, user) && 1 < l <= 4 && b.Valid()
    requires OnlyEntry(a, b, t, Index(va, l))
    requires b.Points(t, Index(va, l)) && (user ==> b.mem[t][Index(va, l)].user)
    ensures Reached(b, va, b.mem[t][Index(va, l)].frame, l - 1, user)
  {
    VisitsKept(a, b, a.root, va, t);
    VisitsChild(b, va, t);
    if user {
      UserBelow(b, t, Index(va, l));
    }
  }

  /** The entry already points to a table. */
  lemma FollowStep(s: Space, va: nat, t: nat, l: nat, user: bool)
    requires Reached(s, va, t, l, user) && 1 < l <= 4 && s.Points(t, Index(va, l))
    ensures var n := if user then Widen(s, t, Index(va, l)) else s;
            Agree(s, n) && Reached(n, va, s.mem[t][Index(va, l)].frame, l - 1, user) && n.mem.Keys == s.mem.Keys
  {
    var i := Index(va, l);
    if user {
      WidenValid(s, t, i);
      forall vb: nat ensures Lookup(Widen(s, t, i), vb) == Lookup(s, vb) {
        WidenKeeps(s, t, i, s.root, vb);
      }
      ReachedChild(s, Widen(s, t, i), va, t, l, user);
    } else {
      ReachedChild(s, s, va, t, l, user);
    }
  }

  /** The entry gets a new table. */
  lemma InstallStep(s: Space, va: nat, t: nat, l: nat, f: nat, user: bool)
    requires Reached(s, va, t, l, user) && 1 < l <= 4 && !s.mem[t][Index(va, l)].present && f !in s.mem
    ensures var n := Install(s, t, Index(va, l), f, user);
            Agree(s, n) && Reached(n, va, f, l - 1, user)
  {
    var i := Index(va, l);
    InstallValid(s, t, i, f, user);
    forall vb: nat ensures Lookup(Install(s, t, i, f, user), vb) == Lookup(s, vb) {
      InstallKeeps(s, t, i, f, user, s.root, vb);
    }
    ReachedChild(s, Install(s, t, i, f, user), va, t, l, user);
  }

  /** The entry's 2 MiB mapping is cut into a new table. */
  lemma SplitStep(s: Space, va: nat, t: nat, f: nat, user: bool)
    requires Reached(s, va, t, 2, user) && s.Huge(t, Index(va, 2)) && f !in s.mem
    ensures var n := Split(s, t, Index(va, 2), f, user);
            Agree(s, n) && Reached(n, va, f, 1, user)
  {
    var i := Index(va, 2);
    SplitValid(s, t, i, f, user);
    forall vb: nat ensures Lookup(Split(s, t, i, f, user), vb) == Lookup(s, vb) {
      SplitKeeps(s, t, i, f, user, s.root, vb);
    }
    ReachedChild(s, Split(s, t, i, f, user), va, t, 2, user);
  }

  /** A change along the walk of `va` that nobody can see. */
  ghost predicate Quiet(a: Space, b: Space, va: nat, user: bool) {
    Agree(a, b) && OtherSlots(a, b, va, user) && Rooted(b)
  }

  lemma QuietTwice(a: Space, b: Space, c: Space, va: nat, user: bool)
    requires Quiet(a, b, va, user) && Quiet(b, c, va, user)
    ensures Quiet(a, c, va, user)
  {
  }

  lemma SlotsKept(s: Space, n: Space, t: nat, va: nat, user: bool)
    requires s.Valid() && t in s.mem && n.root == s.root && s.root in n.mem
    requires t == s.root && user ==> SlotOpen(s.mem[t][Index(va, 4)], n.mem[t][Index(va, 4)])
    requires t == s.root ==> forall j | 0 <= j < ENTRIES && j != Index(va, s.level[t]) :: n.mem[t][j] == s.mem[t][j]
    requires t != s.root ==> n.mem[s.root] == s.mem[s.root]
    ensures OtherSlots(s, n, va, user)
  {
  }

  lemma FollowQuiet(s: Space, va: nat, t: nat, l: nat, user: bool)
    requires Reached(s, va, t, l, user) && 1 < l <= 4 && s.Points(t, Index(va, l)) && Rooted(s)
    ensures var n := if user then Widen(s, t, Index(va, l)) else s;
            Quiet(s, n, va, user) && Reached(n, va, s.mem[t][Index(va, l)].frame, l - 1, user) && n.mem.Keys == s.mem.Keys
  {
    FollowStep(s, va, t, l, user);
    if user {
      WidenRooted(s, t, Index(va, l));
      SlotsKept(s, Widen(s, t, Index(va, l)), t, va, user);
    }
  }

  lemma InstallQuiet(s: Space, va: nat, t: nat, l: nat, f: nat, user: bool)
    requires Reached(s, va, t, l, user) && 1 < l <= 4 && !s.mem[t][Index(va, l)].present && f !in s.mem && Rooted(s)
    ensures var n := Install(s, t, Index(va, l), f, user);
            Quiet(s, n, va, user) && Reached(n, va, f, l - 1, user)
  {
    InstallStep(s, va, t, l, f, user);
    InstallRooted(s, t, Index(va, l), f, user);
    SlotsKept(s, Install(s, t, Index(va, l), f, user), t, va, user);
  }

  lemma CutQuiet(s: Space, va: nat, t: nat, f: nat, user: bool)
    requires Reached(s, va, t, 2, user) && s.Huge(t, Index(va, 2)) && f !in s.mem && Rooted(s)
    ensures var n := Split(s, t, Index(va, 2), f, user);
            Quiet(s, n, va, user) && Reached(n, va, f, 1, user)
  {
    SplitStep(s, va, t, f, user);
    SplitRooted(s, t, Index(va, 2), f, user);
    SlotsKept(s, Split(s, t, Index(va, 2), f, user), t, va, user);
  }

  lemma DropQuiet(s: Space, t: nat, i: nat, va: nat)
    requires s.Valid() && Rooted(s) && t in s.mem && i == Index(va, s.level[t]) && s.Points(t, i)
    requires s.mem[t][i].frame in s.mem && IsEmpty(s.mem[s.mem[t][i].frame])
    ensures Quiet(s, Drop(s, t, i), va, true)
  {
    DropStep(s, t, i);
    SlotsKept(s, Drop(s, t, i), t, va, true);
  }

  /** Below `t`, no table on the walk of `va` is empty, except reserved ones. */
  ghost predicate PrunedBelow(s: Space, t: nat, va: nat, reserved: set<nat>)
    requires s.Valid() && t in s.mem
    decreases s.level[t]
  {
    var i := Index(va, s.level[t]);
    assert s.EntryOk(t, i);
    s.Points(t, i) ==>
      var c := s.mem[t][i].frame;
      (!IsEmpty(s.mem[c]) || c in reserved) && PrunedBelow(s, c, va, reserved)
  }

  /** Frames are neither lost nor found: each is free or a table, as before. */
  ghost predicate SameFrames(free: set<nat>, mem: map<nat, Table>, free': set<nat>, mem': map<nat, Table>) {
    forall f: nat :: f in free' || f in mem' <==> f in free || f in mem
  }

  /** A walk that meets an absent entry finds nothing, for the whole page. */
  lemma UnmappedPage(s: Space, t: nat, va: nat)
    requires s.Valid() && t in s.mem && Visits(s, s.root, va, t) && !s.mem[t][Index(va, s.level[t])].present
    ensures OnlyPageChanged(s, s, va, Absent())
  {
    forall vb: nat | Canonical(vb) && PageOf(vb) == PageOf(va) ensures Lookup(s, vb) == Unmapped {
      VisitsSame(s, s.root, va, vb, t);
      SameIndices(va, vb, s.level[t]);
      LookupAtVisited(s, s.root, t, vb);
    }
  }

  /** The tables under one PML4 and the frames they can draw on. */
  class PageTableTree {
    const root: nat
    /** Frames the allocator refuses to take back. */
    const reserved: set<nat>
    var mem: map<nat, Table>
    var free: set<nat>
    ghost var level: map<nat, nat>
    ghost var up: map<nat, (nat, nat)>

    ghost function Tree(): Space
      reads this
    {
      Space(root, mem, level, up)
    }

    ghost predicate Valid()
      reads this
    {
      Tree().Valid() && Rooted(Tree()) && free !! mem.Keys && 0 !in free && 0 !in mem
    }

    constructor (root: nat, free: set<nat>, reserved: set<nat>)
      requires root != 0 && root !in free && 0 !in free
      ensures Valid() && this.root == root && this.free == free && mem == map[root := EmptyTable()]
      ensures forall va: nat :: Lookup(Tree(), va) == Unmapped
    {
      this.root, this.free, this.reserved := root, free, reserved;
      mem := map[root := EmptyTable()];
      level, up := map[root := 4], map[];
    }

    /** A frame from the allocator, or 0 when it has none. */
    method TakeFrame() returns (f: nat)
      requires 0 !in free
      modifies this`free
      ensures f == 0 <==> old(free) == {}
      ensures f == 0 ==> free == old(free)
      ensures f != 0 ==> f in old(free) && free == old(free) - {f} && |free| == |old(free)| - 1
    {
      if free == {} {
        return 0;
      }
      f :| f in free;
      free := free - {f};
    }

    /** A table for the entry `va` takes in `t`: the one it points to, or a new
        empty one. */
    method EnsureTable(t: nat, ghost l: nat, ghost va: nat, i: nat, user: bool) returns (child: nat)
      requires Valid() && 1 < l <= 4 && Reached(Tree(), va, t, l, user) && i == Index(va, l)
      requires l == 2 && mem[t][i].present ==> !mem[t][i].ps
      modifies this
      ensures Valid() && Quiet(old(Tree()), Tree(), va, user)
      ensures SameFrames(old(free), old(mem), free, mem) && |free| >= |old(free)| - 1
      ensures child == 0 ==> Tree() == old(Tree()) && free == old(free) == {}
      ensures child != 0 ==> Reached(Tree(), va, child, l - 1, user)
    {
      ghost var s := Tree();
      assert s.EntryOk(t, i);
      if mem[t][i].present {
        FollowQuiet(s, va, t, l, user);
        child := mem[t][i].frame;
        if user {
          Update(mem[t := mem[t][i := mem[t][i].(user := true)]], Widen(s, t, i));
        }
        return;
      }
      child := TakeFrame();
      if child != 0 {
        InstallQuiet(s, va, t, l, child, user);
        Link(t, i, Pointer(child, user), child, EmptyTable(), Install(s, t, i, child, user), old(free));
      }
    }

    /** Put the new table `f`, until now free, under entry `i` of `t`; `n` is the
        tree this forms. */
    method Link(t: nat, i: nat, e: Entry, f: nat, table: Table, ghost n: Space, ghost was: set<nat>)
      requires t in mem && i < ENTRIES && n.root == root && n.mem == GrownMem(mem, t, i, e, f, table)
      requires n.Valid() && Rooted(n) && f in was && free == was - {f} && was !! mem.Keys && 0 !in was && 0 !in mem
      modifies this`mem, this`level, this`up
      ensures Valid() && Tree() == n && SameFrames(was, old(mem), free, mem)
    {
      Update(GrownMem(mem, t, i, e, f, table), n);
    }

    /** Write tables; `n` is the tree they form. */
    method Update(tables: map<nat, Table>, ghost n: Space)
      requires n.root == root && n.mem == tables
      modifies this`mem, this`level, this`up
      ensures Tree() == n
    {
      mem, level, up := tables, n.level, n.up;
    }

    /** A bottom table for the entry `va` takes in the level-2 table `t`, cutting a
        2 MiB mapping into pages where there is one. */
    method SplitHugePage(t: nat, ghost va: nat, i: nat, user: bool) returns (child: nat)
      requires Valid() && t in mem && level[t] == 2 && i == Index(va, 2)
      requires Reached(Tree(), va, t, 2, user)
      modifies this
      ensures Valid() && Quiet(old(Tree()), Tree(), va, user)
      ensures SameFrames(old(free), old(mem), free, mem) && |free| >= |old(free)| - 1
      ensures child == 0 ==> Tree() == old(Tree()) && free == old(free) == {}
      ensures child != 0 ==> Reached(Tree(), va, child, 1, user)
    {
      if !mem[t][i].present || !mem[t][i].ps {
        child := EnsureTable(t, 2, va, i, user);
        return;
      }
      child := CutHugePage(t, va, i, user);
    }

    method CutHugePage(t: nat, ghost va: nat, i: nat, user: bool) returns (child: nat)
      requires Valid() && t in mem && level[t] == 2 && i == Index(va, 2) && Tree().Huge(t, i)
      requires Reached(Tree(), va, t, 2, user)
      modifies this
      ensures Valid() && Quiet(old(Tree()), Tree(), va, user)
      ensures SameFrames(old(free), old(mem), free, mem) && |free| >= |old(free)| - 1
      ensures child == 0 ==> Tree() == old(Tree()) && free == old(free) == {}
      ensures child != 0 ==> Reached(Tree(), va, child, 1, user)
    {
      ghost var s := Tree();
      child := TakeFrame();
      if child != 0 {
        CutQuiet(s, va, t, child, user);
        var e := mem[t][i];
        Link(t, i, Pointer(child, e.user || user), child, Pieces(e), Split(s, t, i, child, user), old(free));
      }
    }

    method TableIsEmpty(t: nat) returns (empty: bool)
      requires t in mem
      ensures empty <==> IsEmpty(mem[t])
    {
      for i := 0 to ENTRIES
        invariant forall j | 0 <= j < i :: !mem[t][j].present
      {
        if mem[t][i].present {
          return false;
        }
      }
      return true;
    }

    /** Give back the table entry `i` of `t` points to, if it is empty and the
        allocator would take it. */
    method Reclaim(t: nat, i: nat, ghost va: nat)
      requires Valid() && t in mem && i == Index(va, level[t]) && Tree().Points(t, i)
      requires Tree().EntryOk(t, i) && PrunedBelow(Tree(), mem[t][i].frame, va, reserved)
      modifies this
      ensures Valid() && Quiet(old(Tree()), Tree(), va, true)
      ensures SameFrames(old(free), old(mem), free, mem)
      ensures Tree() == old(Tree()) || Tree() == Drop(old(Tree()), t, i)
      ensures t in mem && PrunedBelow(Tree(), t, va, reserved)
    {
      ghost var s := Tree();
      var child := mem[t][i].frame;
      var empty := TableIsEmpty(child);
      if empty && child !in reserved {
        DropQuiet(s, t, i, va);
        Update(mem[t := mem[t][i := Absent()]] - {child}, Drop(s, t, i));
        free := free + {child};
      }
    }

    /** Empty tables along the path of `va`, bottom up. */
    method PruneEmptyPath(va: nat)
      requires Valid()
      modifies this
      ensures Valid() && Quiet(old(Tree()), Tree(), va, true)
      ensures SameFrames(old(free), old(mem), free, mem)
      ensures PrunedBelow(Tree(), root, va, reserved)
    {
      var i4, i3, i2 := Index(va, 4), Index(va, 3), Index(va, 2);
      assert Tree().EntryOk(root, i4);
      var e4 := mem[root][i4];
      if !e4.present {
        return;
      }
      var pdpt := e4.frame;
      assert Tree().EntryOk(pdpt, i3);
      var e3 := mem[pdpt][i3];
      if !e3.present {
        Reclaim(root, i4, va);
        return;
      }
      var pd := e3.frame;
      assert Tree().EntryOk(pd, i2);
      var e2 := mem[pd][i2];
      if e2.present && e2.ps {
        assert PrunedBelow(Tree(), pd, va, reserved) && PrunedBelow(Tree(), pdpt, va, reserved);
        return;
      }
      if e2.present {
        Reclaim(pd, i2, va);
      }
      assert Tree().EntryOk(pdpt, i3);
      Reclaim(pdpt, i3, va);
      assert Tree().EntryOk(root, i4);
      Reclaim(root, i4, va);
    }

    /** Map one page. */
    method MapPage(va: nat, pa: nat, f: Flags) returns (code: int)
      requires Valid()
      modifies this
      ensures Valid() && SameFrames(old(free), old(mem), free, mem) && OtherSlots(old(Tree()), Tree(), va, f.user)
      ensures code == 0 || code == -1
      ensures !Canonical(va) || va % PAGE != 0 || pa % PAGE != 0 || pa >= PHYS_LIMIT ==>
                code == -1 && Tree() == old(Tree())
      ensures code == 0 ==> forall vb: nat | Canonical(vb) && PageOf(vb) == PageOf(va) ::
                              Lookup(Tree(), vb) == PageMapping(pa, f, vb)
      ensures code == 0 ==> OnlyPageChanged(old(Tree()), Tree(), va, LeafEntry(pa, f))
      ensures code == 0 ==> CachedAs(Tree(), va, f.pwt, f.pcd)
      ensures code == -1 ==> Agree(old(Tree()), Tree())
      ensures code == 0 ==> |free| >= |old(free)| - 3
      ensures Canonical(va) && va % PAGE == 0 && pa % PAGE == 0 && pa < PHYS_LIMIT && |old(free)| >= 3 ==> code == 0
    {
      if !Canonical(va) || va % PAGE != 0 || pa % PAGE != 0 || pa >= PHYS_LIMIT {
        return -1;
      }
      var ok := MapChecked(va, LeafEntry(pa, f));
      if ok {
        LeafMeans(old(Tree()), Tree(), va, pa, f);
      }
      return if ok then 0 else -1;
    }

    method MapChecked(va: nat, e: Entry) returns (ok: bool)
      requires Valid() && Canonical(va)
      modifies this
      ensures Valid() && SameFrames(old(free), old(mem), free, mem) && OtherSlots(old(Tree()), Tree(), va, e.user)
      ensures ok ==> CachedAs(Tree(), va, e.pwt, e.pcd)
      ensures ok ==> OnlyPageChanged(old(Tree()), Tree(), va, e) && |free| >= |old(free)| - 3
      ensures !ok ==> Agree(old(Tree()), Tree()) && |old(free)| < 3
    {
      var pt := BottomTable(va, e.user);
      ok := pt != 0;
      if ok {
        WriteLeaf(va, pt, e, old(Tree()));
      } else {
        Undo(va, e.user, old(Tree()));
      }
    }

    /** Give back the tables a failed mapping left empty. */
    method Undo(va: nat, ghost user: bool, ghost was: Space)
      requires Valid() && Quiet(was, Tree(), va, user)
      modifies this
      ensures Valid() && SameFrames(old(free), old(mem), free, mem) && Agree(was, Tree()) && OtherSlots(was, Tree(), va, user)
    {
      ghost var s := Tree();
      PruneEmptyPath(va);
      QuietTwice(was, s, Tree(), va, user);
    }

    /** Write the bottom entry for `va`, seen from a tree `was` that meant the same. */
    method WriteLeaf(va: nat, pt: nat, e: Entry, ghost was: Space)
      requires Valid() && Canonical(va) && Reached(Tree(), va, pt, 1, e.present && e.user) && Quiet(was, Tree(), va, e.user)
      modifies this`mem, this`level, this`up
      ensures Valid() && mem.Keys == old(mem.Keys) && OtherSlots(was, Tree(), va, e.user)
      ensures OnlyPageChanged(was, Tree(), va, e) && CachedAs(Tree(), va, e.pwt, e.pcd)
    {
      ghost var s := Tree();
      SetLeaf(va, pt, e);
      Compose(was, s, Tree(), Tree(), va, e);
    }

    /** Write the bottom entry for `va`. */
    method SetLeaf(va: nat, pt: nat, e: Entry)
      requires Valid() && Canonical(va) && Reached(Tree(), va, pt, 1, e.present && e.user)
      modifies this`mem, this`level, this`up
      ensures Valid() && mem.Keys == old(mem.Keys) && OtherSlots(old(Tree()), Tree(), va, true)
      ensures OnlyPageChanged(old(Tree()), Tree(), va, e) && CachedAs(Tree(), va, e.pwt, e.pcd)
    {
      ghost var s := Tree();
      SetLeafStep(s, pt, e, va);
      SetLeafVisits(s, pt, Index(va, 1), e, root, va);
      assert Reached(WithEntry(s, pt, Index(va, 1), e), va, pt, 1, false);
      Update(mem[pt := mem[pt][Index(va, 1) := e]], WithEntry(s, pt, Index(va, 1), e));
    }

    /** The level-2 table for `va`, with whatever tables lead to it. */
    method MiddleTable(va: nat, user: bool) returns (pd: nat)
      requires Valid()
      modifies this
      ensures Valid() && Quiet(old(Tree()), Tree(), va, user)
      ensures SameFrames(old(free), old(mem), free, mem)
      ensures |free| >= |old(free)| - 2 && (pd == 0 ==> |old(free)| < 2)
      ensures pd != 0 ==> Reached(Tree(), va, pd, 2, user)
    {
      UserAboveRoot(Tree());
      var pdpt := EnsureTable(root, 4, va, Index(va, 4), user);
      if pdpt == 0 {
        return 0;
      }
      ghost var s := Tree();
      pd := EnsureTable(pdpt, 3, va, Index(va, 3), user);
      QuietTwice(old(Tree()), s, Tree(), va, user);
    }

    /** The bottom table for `va`, with whatever tables lead to it. */
    method BottomTable(va: nat, user: bool) returns (pt: nat)
      requires Valid()
      modifies this
      ensures Valid() && Quiet(old(Tree()), Tree(), va, user)
      ensures SameFrames(old(free), old(mem), free, mem)
      ensures |free| >= |old(free)| - 3 && (pt == 0 ==> |old(free)| < 3)
      ensures pt != 0 ==> Reached(Tree(), va, pt, 1, user)
    {
      var pd := MiddleTable(va, user);
      if pd == 0 {
        return 0;
      }
      ghost var s := Tree();
      pt := SplitHugePage(pd, va, Index(va, 2), user);
      QuietTwice(old(Tree()), s, Tree(), va, user);
    }

    /** Unmap one page. */
    method UnmapPage(va: nat) returns (code: int)
      requires Valid()
      modifies this
      ensures Valid() && SameFrames(old(free), old(mem), free, mem) && OtherSlots(old(Tree()), Tree(), va, false)
      ensures code == 0 || code == -1
      ensures !Canonical(va) || va % PAGE != 0 ==> code == -1 && Tree() == old(Tree())
      ensures code == 0 ==> OnlyPageChanged(old(Tree()), Tree(), va, Absent())
      ensures code == -1 ==> Agree(old(Tree()), Tree())
      ensures Canonical(va) && va % PAGE == 0 && old(free) != {} ==> code == 0
    {
      if !Canonical(va) || va % PAGE != 0 {
        return -1;
      }
      var pd := Descend(va);
      if pd == 0 || !mem[pd][Index(va, 2)].present {
        if pd != 0 {
          UnmappedPage(Tree(), pd, va);
        }
        return 0;
      }
      var pt := SplitHugePage(pd, va, Index(va, 2), false);
      if pt == 0 {
        return -1;
      }
      ghost var s := Tree();
      ClearLeaf(va, pt);
      Compose(old(Tree()), s, Tree(), Tree(), va, Absent());
      return 0;
    }

    /** Clear the bottom entry for `va` and give back the tables this empties. */
    method ClearLeaf(va: nat, pt: nat)
      requires Valid() && Canonical(va) && Reached(Tree(), va, pt, 1, false)
      modifies this
      ensures Valid() && SameFrames(old(free), old(mem), free, mem) && OtherSlots(old(Tree()), Tree(), va, true)
      ensures OnlyPageChanged(old(Tree()), Tree(), va, Absent())
      ensures PrunedBelow(Tree(), root, va, reserved)
    {
      SetLeaf(va, pt, Absent());
      ghost var n := Tree();
      PruneEmptyPath(va);
      Compose(old(Tree()), old(Tree()), n, Tree(), va, Absent());
    }

    /** The level-2 table on the walk of `va`, or 0 where the walk ends above it. */
    method Descend(va: nat) returns (pd: nat)
      requires Valid()
      ensures pd == 0 ==> OnlyPageChanged(Tree(), Tree(), va, Absent())
      ensures pd != 0 ==> Reached(Tree(), va, pd, 2, false)
    {
      ghost var s := Tree();
      assert s.EntryOk(root, Index(va, 4));
      if !mem[root][Index(va, 4)].present {
        UnmappedPage(s, root, va);
        return 0;
      }
      var pdpt := mem[root][Index(va, 4)].frame;
      VisitsChild(s, va, root);
      assert s.EntryOk(pdpt, Index(va, 3));
      if !mem[pdpt][Index(va, 3)].present {
        UnmappedPage(s, pdpt, va);
        return 0;
      }
      pd := mem[pdpt][Index(va, 3)].frame;
      VisitsChild(s, va, pdpt);
    }

    /** The physical address of `va`, or 0 where nothing is mapped. */
    method Translate(va: nat) returns (phys: nat)
      requires Valid()
      ensures phys == if Canonical(va) && Lookup(Tree(), va).Mapped? then Lookup(Tree(), va).phys else 0
    {
      if !Canonical(va) {
        return 0;
      }
      ghost var s := Tree();
      assert s.EntryOk(root, Index(va, 4));
      var e := mem[root][Index(va, 4)];
      if !e.present {
        return 0;
      }
      var pdpt := e.frame;
      assert Lookup(s, va) == LookupFrom(s, pdpt, va) && s.EntryOk(pdpt, Index(va, 3));
      e := mem[pdpt][Index(va, 3)];
      if !e.present {
        return 0;
      }
      var pd := e.frame;
      assert Lookup(s, va) == LookupFrom(s, pd, va) && s.EntryOk(pd, Index(va, 2));
      e := mem[pd][Index(va, 2)];
      if !e.present {
        return 0;
      }
      if e.ps {
        return e.frame * PAGE + va % Span(2);
      }
      var pt := e.frame;
      assert Lookup(s, va) == LookupFrom(s, pt, va);
      e := mem[pt][Index(va, 1)];
      if !e.present {
        return 0;
      }
      return e.frame * PAGE + va % PAGE;
    }
  }

  /** A page just mapped translates to the memory it was mapped to, and an address
      on no other page translates differently. */
  method MapThenTranslate(tree: PageTableTree, va: nat, pa: nat, f: Flags, vb: nat) returns (code: int, before: nat, phys: nat)
    requires tree.Valid() && Canonical(vb) && f.present
    modifies tree
    ensures tree.Valid()
    ensures code == 0 && vb / PAGE == va / PAGE ==> phys == pa + vb % 0x1000
    ensures code != 0 || vb / PAGE != va / PAGE ==> phys == before
    ensures va % PAGE == 0 && pa % PAGE == 0 && Canonical(va) && pa < 0x10_0000_0000_0000 && |old(tree.free)| >= 3 ==> code == 0
  {
    before := tree.Translate(vb);
    code := tree.MapPage(va, pa, f);
    phys := tree.Translate(vb);
  }

  /** A page just unmapped translates to nothing. */
  method UnmapThenTranslate(tree: PageTableTree, va: nat, vb: nat) returns (code: int, before: nat, phys: nat)
    requires tree.Valid() && Canonical(vb)
    modifies tree
    ensures tree.Valid()
    ensures phys == if code == 0 && vb / PAGE == va / PAGE then 0 else before
  {
    before := tree.Translate(vb);
    code := tree.UnmapPage(va);
    phys := tree.Translate(vb);
  }
}
