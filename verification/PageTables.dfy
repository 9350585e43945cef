/** Four-level page tables: a tree of 512-entry tables in physical frames, and
    the map from virtual pages to physical memory that a walk of it yields. */
module PageTables {
  import opened Common

  const ENTRIES: nat := 512

  /** One table entry, field by field; `frame` is a page frame number. */
  datatype Entry = Entry(frame: nat, present: bool, write: bool, user: bool, pwt: bool, pcd: bool,
                         ps: bool, owned: bool, nx: bool)

  type Table = t: seq<Entry> | |t| == ENTRIES witness seq(ENTRIES, _ => Absent())

  function Absent(): Entry {
    Entry(0, false, false, false, false, false, false, false, false)
  }

  function EmptyTable(): (t: Table)
    ensures forall i | 0 <= i < ENTRIES :: t[i] == Absent()
  {
    seq(ENTRIES, _ => Absent())
  }

  /** An entry that points to a next-level table. */
  function Pointer(frame: nat, user: bool): Entry {
    Entry(frame, true, true, user, false, false, false, false, false)
  }

  /** The tables under one root: `level` is 4 for the root down to 1, `up` names
      the one entry that points to a table. */
  datatype Space = Space(root: nat, mem: map<nat, Table>, level: map<nat, nat>, up: map<nat, (nat, nat)>) {

    /** A 2 MiB mapping in a level-2 table. */
    predicate Huge(t: nat, i: nat)
      requires t in mem && t in level && i < ENTRIES
    {
      level[t] == 2 && mem[t][i].present && mem[t][i].ps
    }

    /** Entry `i` of table `t` points to a table. */
    predicate Points(t: nat, i: nat)
      requires t in mem && t in level && i < ENTRIES
    {
      level[t] > 1 && mem[t][i].present && !Huge(t, i)
    }

    ghost predicate EntryOk(t: nat, i: nat)
      requires t in mem && t in level && i < ENTRIES
    {
      && (Huge(t, i) ==> !mem[t][i].owned)
      && (Points(t, i) ==>
            var e := mem[t][i];
            && e.frame in mem && e.frame in level && level[e.frame] == level[t] - 1
            && e.frame in up && up[e.frame] == (t, i)
            && e.write && !e.nx && !e.ps
            && forall j | 0 <= j < ENTRIES :: mem[e.frame][j].present && mem[e.frame][j].user ==> e.user)
    }

    /** A tree without sharing, no 1 GiB mappings, only single pages owned, and upper
        entries that leave the permissions of the mappings below them in force. */
    ghost predicate Valid() {
      && root in mem && root in level && level[root] == 4
      && level.Keys == mem.Keys
      && (forall t | t in mem :: 1 <= level[t] <= 4)
      && (forall t, i | t in mem && 0 <= i < ENTRIES :: EntryOk(t, i))
    }
  }

  /** A mapping as seen through the tables: the byte address `va` translates to,
      and the rights it has. */
  datatype Mapping = Unmapped | Mapped(phys: nat, write: bool, user: bool, nx: bool, owned: bool)

  function Span(level: nat): (n: nat)
    requires 1 <= level <= 4
    ensures n > 0
  {
    if level == 1 then 0x1000 else if level == 2 then 0x20_0000 else if level == 3 then 0x4000_0000 else 0x80_0000_0000
  }

  function Index(va: nat, level: nat): (i: nat)
    requires 1 <= level <= 4
    ensures i < ENTRIES
  {
    (va / Span(level)) % 512
  }

  function LeafMapping(e: Entry, phys: nat, owned: bool): Mapping {
    Mapped(phys, e.write, e.user, e.nx, owned)
  }

  /** What the kernel's own lookups find below table `t`: the address and the
      flags of the entry that maps `va`. */
  function LookupFrom(s: Space, t: nat, va: nat): Mapping
    requires s.Valid() && t in s.mem
    decreases s.level[t]
  {
    var l := s.level[t];
    var i := Index(va, l);
    var e := s.mem[t][i];
    assert s.EntryOk(t, i);
    if !e.present then Unmapped
    else if l == 1 then LeafMapping(e, e.frame * PAGE + va % PAGE, e.owned)
    else if s.Huge(t, i) then LeafMapping(e, e.frame * PAGE + va % Span(2), false)
    else LookupFrom(s, e.frame, va)
  }

  function Lookup(s: Space, va: nat): Mapping
    requires s.Valid()
  {
    LookupFrom(s, s.root, va)
  }

  // ---------------------------------------------------------------------
  // The processor's walk
  // ---------------------------------------------------------------------

  /** Rights accumulated from the entries above, as the processor does. */
  datatype Rights = Rights(write: bool, user: bool, nx: bool)

  const ALL_RIGHTS := Rights(true, true, false)

  function Through(r: Rights, e: Entry): Rights {
    Rights(r.write && e.write, r.user && e.user, r.nx || e.nx)
  }

  function Restrict(r: Rights, m: Mapping): Mapping {
    match m
    case Unmapped => Unmapped
    case Mapped(phys, write, user, nx, owned) => Mapped(phys, r.write && write, r.user && user, r.nx || nx, owned)
  }

  function WalkFrom(s: Space, t: nat, va: nat, r: Rights): Mapping
    requires s.Valid() && t in s.mem
    decreases s.level[t]
  {
    var l := s.level[t];
    var i := Index(va, l);
    var e := s.mem[t][i];
    assert s.EntryOk(t, i);
    if !e.present then Unmapped
    else if l == 1 then Restrict(r, LeafMapping(e, e.frame * PAGE + va % PAGE, e.owned))
    else if s.Huge(t, i) then Restrict(r, LeafMapping(e, e.frame * PAGE + va % Span(2), false))
    else WalkFrom(s, e.frame, va, Through(r, e))
  }

  /** What the processor makes of `va`. */
  function Walk(s: Space, va: nat): Mapping
    requires s.Valid()
  {
    WalkFrom(s, s.root, va, ALL_RIGHTS)
  }

  lemma {:induction false} WalkFromIsLookup(s: Space, t: nat, va: nat, r: Rights)
    requires s.Valid() && t in s.mem && r.write && !r.nx
    requires r.user || forall i | 0 <= i < ENTRIES && s.mem[t][i].present :: !s.mem[t][i].user
    ensures WalkFrom(s, t, va, r) == LookupFrom(s, t, va)
    decreases s.level[t]
  {
    var i := Index(va, s.level[t]);
    assert s.EntryOk(t, i);
    if s.Points(t, i) {
      WalkFromIsLookup(s, s.mem[t][i].frame, va, Through(r, s.mem[t][i]));
    }
  }

  /** The flags the kernel reads off the last entry are the rights the processor
      grants along the whole walk. */
  lemma WalkIsLookup(s: Space, va: nat)
    requires s.Valid()
    ensures Walk(s, va) == Lookup(s, va)
  {
    WalkFromIsLookup(s, s.root, va, ALL_RIGHTS);
  }

  // ---------------------------------------------------------------------
  // Elementary changes
  // ---------------------------------------------------------------------

  /** The entry `up` names for table `x` points to it. */
  ghost predicate HasParent(s: Space, x: nat)
    requires s.level.Keys == s.mem.Keys
  {
    && x in s.up && s.up[x].0 in s.mem && s.up[x].1 < ENTRIES
    && s.Points(s.up[x].0, s.up[x].1) && s.mem[s.up[x].0][s.up[x].1].frame == x
  }

  /** No table is lost: each but the root is pointed to. */
  ghost predicate Rooted(s: Space) {
    s.level.Keys == s.mem.Keys && forall x | x in s.mem && x != s.root :: HasParent(s, x)
  }

  /** Every entry that points to `t` lets user mode through. */
  ghost predicate UserAbove(s: Space, t: nat)
    requires s.level.Keys == s.mem.Keys
  {
    forall x, j | x in s.mem && 0 <= j < ENTRIES && s.Points(x, j) && s.mem[x][j].frame == t :: s.mem[x][j].user
  }

  /** `s` with entry `i` of table `t` replaced. */
  function WithEntry(s: Space, t: nat, i: nat, e: Entry): Space
    requires t in s.mem && i < ENTRIES
  {
    s.(mem := s.mem[t := s.mem[t][i := e]])
  }

  /** Memory with entry `i` of table `t` set to `e` and a new table `f`. */
  function GrownMem(mem: map<nat, Table>, t: nat, i: nat, e: Entry, f: nat, table: Table): (r: map<nat, Table>)
    requires t in mem && i < ENTRIES
    ensures r.Keys == mem.Keys + {f}
  {
    mem[t := mem[t][i := e]][f := table]
  }

  function Grown(s: Space, t: nat, i: nat, e: Entry, f: nat, table: Table): Space
    requires t in s.mem && t in s.level && s.level[t] > 1 && i < ENTRIES
  {
    Space(s.root, GrownMem(s.mem, t, i, e, f, table), s.level[f := s.level[t] - 1], s.up[f := (t, i)])
  }

  /** A new, empty table `f` under a free entry. */
  function Install(s: Space, t: nat, i: nat, f: nat, user: bool): Space
    requires t in s.mem && t in s.level && s.level[t] > 1 && i < ENTRIES
  {
    Grown(s, t, i, Pointer(f, user), f, EmptyTable())
  }

  lemma InstallValid(s: Space, t: nat, i: nat, f: nat, user: bool)
    requires s.Valid() && t in s.mem && s.level[t] > 1 && i < ENTRIES
    requires !s.mem[t][i].present && f !in s.mem && (user ==> UserAbove(s, t))
    ensures Install(s, t, i, f, user).Valid()
  {
    var n := Install(s, t, i, f, user);
    forall x, j | x in n.mem && 0 <= j < ENTRIES ensures n.EntryOk(x, j) {
      if x != f && (x, j) != (t, i) {
        assert s.EntryOk(x, j);
      }
    }
  }

  lemma InstallRooted(s: Space, t: nat, i: nat, f: nat, user: bool)
    requires s.Valid() && Rooted(s) && t in s.mem && s.level[t] > 1 && i < ENTRIES
    requires !s.mem[t][i].present && f !in s.mem
    ensures Rooted(Install(s, t, i, f, user))
  {
    var n := Install(s, t, i, f, user);
    forall x | x in n.mem && x != n.root ensures HasParent(n, x) {
      if x != f {
        assert HasParent(s, x);
      }
    }
  }

  lemma {:induction false} InstallKeeps(s: Space, t: nat, i: nat, f: nat, user: bool, x: nat, va: nat)
    requires s.Valid() && t in s.mem && s.level[t] > 1 && i < ENTRIES
    requires !s.mem[t][i].present && f !in s.mem && Install(s, t, i, f, user).Valid() && x in s.mem
    ensures LookupFrom(Install(s, t, i, f, user), x, va) == LookupFrom(s, x, va)
    decreases s.level[x]
  {
    var n := Install(s, t, i, f, user);
    var j := Index(va, s.level[x]);
    assert s.EntryOk(x, j) && n.EntryOk(x, j);
    if (x, j) == (t, i) {
      assert n.mem[f][Index(va, n.level[f])] == Absent();
    } else if s.Points(x, j) {
      InstallKeeps(s, t, i, f, user, s.mem[x][j].frame, va);
    }
  }

  /** The entry `i` of `t`, now letting user mode through. */
  function Widen(s: Space, t: nat, i: nat): Space
    requires t in s.mem && i < ENTRIES
  {
    WithEntry(s, t, i, s.mem[t][i].(user := true))
  }

  lemma WidenValid(s: Space, t: nat, i: nat)
    requires s.Valid() && t in s.mem && i < ENTRIES && s.Points(t, i) && UserAbove(s, t)
    ensures Widen(s, t, i).Valid()
  {
    var n := Widen(s, t, i);
    forall x, j | x in n.mem && 0 <= j < ENTRIES ensures n.EntryOk(x, j) {
      assert s.EntryOk(x, j);
    }
  }

  lemma WidenRooted(s: Space, t: nat, i: nat)
    requires s.Valid() && Rooted(s) && t in s.mem && i < ENTRIES && s.Points(t, i)
    ensures Rooted(Widen(s, t, i))
  {
    var n := Widen(s, t, i);
    forall x | x in n.mem && x != n.root ensures HasParent(n, x) {
      assert HasParent(s, x);
    }
  }

  lemma {:induction false} WidenKeeps(s: Space, t: nat, i: nat, x: nat, va: nat)
    requires s.Valid() && t in s.mem && i < ENTRIES && s.Points(t, i) && Widen(s, t, i).Valid() && x in s.mem
    ensures LookupFrom(Widen(s, t, i), x, va) == LookupFrom(s, x, va)
    decreases s.level[x]
  {
    var j := Index(va, s.level[x]);
    assert s.EntryOk(x, j) && Widen(s, t, i).EntryOk(x, j);
    if s.Points(x, j) {
      WidenKeeps(s, t, i, s.mem[x][j].frame, va);
    }
  }

  /** Entry `k` of the table that replaces the 2 MiB mapping `e`. */
  function Piece(e: Entry, k: nat): Entry {
    Entry(e.frame + k, true, e.write, e.user, false, false, false, false, e.nx)
  }

  function Pieces(e: Entry): (t: Table)
    ensures forall k | 0 <= k < ENTRIES :: t[k] == Piece(e, k)
  {
    seq(ENTRIES, k requires 0 <= k < ENTRIES => Piece(e, k))
  }

  /** The 2 MiB mapping in entry `i` of `t`, cut into pages in table `f`. */
  function Split(s: Space, t: nat, i: nat, f: nat, user: bool): Space
    requires t in s.mem && t in s.level && s.level[t] > 1 && i < ENTRIES
  {
    Grown(s, t, i, Pointer(f, s.mem[t][i].user || user), f, Pieces(s.mem[t][i]))
  }

  lemma SplitValid(s: Space, t: nat, i: nat, f: nat, user: bool)
    requires s.Valid() && t in s.mem && i < ENTRIES && s.Huge(t, i) && f !in s.mem
    requires user ==> UserAbove(s, t)
    ensures Split(s, t, i, f, user).Valid()
  {
    var n := Split(s, t, i, f, user);
    forall x, j | x in n.mem && 0 <= j < ENTRIES ensures n.EntryOk(x, j) {
      if x != f && (x, j) != (t, i) {
        assert s.EntryOk(x, j);
      }
    }
  }

  lemma SplitRooted(s: Space, t: nat, i: nat, f: nat, user: bool)
    requires s.Valid() && Rooted(s) && t in s.mem && i < ENTRIES && s.Huge(t, i) && f !in s.mem
    ensures Rooted(Split(s, t, i, f, user))
  {
    var n := Split(s, t, i, f, user);
    forall x | x in n.mem && x != n.root ensures HasParent(n, x) {
      if x != f {
        assert HasParent(s, x);
      }
    }
  }

  /** An offset within 2 MiB is a page index and an offset within the page. */
  lemma OffsetSplits(va: nat)
    ensures va % Span(2) == Index(va, 1) * PAGE + va % PAGE
  {
    assert va == PAGE * (va / PAGE) + va % PAGE;
    assert va / PAGE == 512 * (va / PAGE / 512) + (va / PAGE) % 512;
    assert va / PAGE / 512 == va / Span(2);
  }

  lemma {:induction false} SplitKeeps(s: Space, t: nat, i: nat, f: nat, user: bool, x: nat, va: nat)
    requires s.Valid() && t in s.mem && i < ENTRIES && s.Huge(t, i) && f !in s.mem
    requires Split(s, t, i, f, user).Valid() && x in s.mem
    ensures LookupFrom(Split(s, t, i, f, user), x, va) == LookupFrom(s, x, va)
    decreases s.level[x]
  {
    var n := Split(s, t, i, f, user);
    var j := Index(va, s.level[x]);
    assert s.EntryOk(x, j) && n.EntryOk(x, j);
    if (x, j) == (t, i) {
      OffsetSplits(va);
      assert n.mem[f][Index(va, 1)] == Piece(s.mem[t][i], Index(va, 1));
      assert LookupFrom(n, x, va) == LookupFrom(n, f, va);
    } else if s.Points(x, j) {
      SplitKeeps(s, t, i, f, user, s.mem[x][j].frame, va);
    }
  }

  /** An empty table `t[i]` points to, unlinked and given up. */
  function Drop(s: Space, t: nat, i: nat): Space
    requires t in s.mem && i < ENTRIES
  {
    var c := s.mem[t][i].frame;
    Space(s.root, s.mem[t := s.mem[t][i := Absent()]] - {c}, s.level - {c}, s.up - {c})
  }

  ghost predicate IsEmpty(t: Table) {
    forall i | 0 <= i < ENTRIES :: !t[i].present
  }

  lemma DropValid(s: Space, t: nat, i: nat)
    requires s.Valid() && t in s.mem && i < ENTRIES && s.Points(t, i)
    requires s.mem[t][i].frame in s.mem && IsEmpty(s.mem[s.mem[t][i].frame])
    ensures Drop(s, t, i).Valid()
  {
    var n := Drop(s, t, i);
    assert s.EntryOk(t, i);
    forall x, j | x in n.mem && 0 <= j < ENTRIES ensures n.EntryOk(x, j) {
      assert s.EntryOk(x, j);
    }
  }

  lemma DropRooted(s: Space, t: nat, i: nat)
    requires s.Valid() && Rooted(s) && t in s.mem && i < ENTRIES && s.Points(t, i)
    requires s.mem[t][i].frame in s.mem && IsEmpty(s.mem[s.mem[t][i].frame])
    ensures Rooted(Drop(s, t, i))
  {
    var n := Drop(s, t, i);
    assert s.EntryOk(t, i);
    forall x | x in n.mem && x != n.root ensures HasParent(n, x) {
      assert HasParent(s, x);
    }
  }

  lemma {:induction false} DropKeeps(s: Space, t: nat, i: nat, x: nat, va: nat)
    requires s.Valid() && t in s.mem && i < ENTRIES && s.Points(t, i)
    requires s.mem[t][i].frame in s.mem && IsEmpty(s.mem[s.mem[t][i].frame])
    requires Drop(s, t, i).Valid() && x in Drop(s, t, i).mem
    ensures LookupFrom(Drop(s, t, i), x, va) == LookupFrom(s, x, va)
    decreases s.level[x]
  {
    var n := Drop(s, t, i);
    var j := Index(va, s.level[x]);
    assert s.EntryOk(x, j) && n.EntryOk(x, j) && s.EntryOk(t, i);
    if s.Points(x, j) && (x, j) != (t, i) {
      DropKeeps(s, t, i, s.mem[x][j].frame, va);
    }
  }

  // ---------------------------------------------------------------------
  // The one change that matters: an entry of a bottom table
  // ---------------------------------------------------------------------

  /** The tables the walk of `va` visits, from table `x` down, include `t`. */
  ghost predicate Visits(s: Space, x: nat, va: nat, t: nat)
    requires s.Valid() && x in s.mem
    decreases s.level[x]
  {
    || x == t
    || (var j := Index(va, s.level[x]);
        assert s.EntryOk(x, j);
        s.Points(x, j) && Visits(s, s.mem[x][j].frame, va, t))
  }

  lemma SetLeafValid(s: Space, t: nat, i: nat, e: Entry)
    requires s.Valid() && t in s.mem && i < ENTRIES && s.level[t] == 1
    requires e.present && e.user ==> UserAbove(s, t)
    ensures WithEntry(s, t, i, e).Valid()
  {
    var n := WithEntry(s, t, i, e);
    forall x, j | x in n.mem && 0 <= j < ENTRIES ensures n.EntryOk(x, j) {
      assert s.EntryOk(x, j);
    }
  }

  lemma SetLeafRooted(s: Space, t: nat, i: nat, e: Entry)
    requires s.Valid() && Rooted(s) && t in s.mem && i < ENTRIES && s.level[t] == 1
    ensures Rooted(WithEntry(s, t, i, e))
  {
    var n := WithEntry(s, t, i, e);
    forall x | x in n.mem && x != n.root ensures HasParent(n, x) {
      assert HasParent(s, x);
    }
  }

  /** A change of a bottom entry shows only in walks that reach it. */
  lemma {:induction false} SetLeafKeeps(s: Space, t: nat, i: nat, e: Entry, x: nat, va: nat)
    requires s.Valid() && t in s.mem && i < ENTRIES && s.level[t] == 1
    requires WithEntry(s, t, i, e).Valid() && x in s.mem
    requires Visits(s, x, va, t) ==> Index(va, 1) != i
    ensures LookupFrom(WithEntry(s, t, i, e), x, va) == LookupFrom(s, x, va)
    decreases s.level[x]
  {
    var n := WithEntry(s, t, i, e);
    var j := Index(va, s.level[x]);
    assert s.EntryOk(x, j) && n.EntryOk(x, j);
    if s.Points(x, j) {
      SetLeafKeeps(s, t, i, e, s.mem[x][j].frame, va);
    }
  }

  /** A visited table is pointed to by the entry the walk took one level up. */
  lemma {:induction false} VisitsParent(s: Space, x: nat, va: nat, t: nat)
    requires s.Valid() && x in s.mem && Visits(s, x, va, t) && x != t
    ensures t in s.mem && t in s.up
    ensures var (p, i) := s.up[t];
            && p in s.mem && s.level[p] == s.level[t] + 1
            && i == Index(va, s.level[p]) && s.Points(p, i) && s.mem[p][i].frame == t
            && Visits(s, x, va, p)
    decreases s.level[x]
  {
    var j := Index(va, s.level[x]);
    assert s.EntryOk(x, j);
    var c := s.mem[x][j].frame;
    if c != t {
      VisitsParent(s, c, va, t);
    }
  }

  /** Two walks from the root that visit the same table took the same entries. */
  lemma {:induction false} SameEntriesAbove(s: Space, va: nat, vb: nat, t: nat)
    requires s.Valid() && t in s.mem && Visits(s, s.root, va, t) && Visits(s, s.root, vb, t)
    ensures forall l | s.level[t] < l <= 4 :: Index(va, l) == Index(vb, l)
    decreases 4 - s.level[t]
  {
    if t != s.root {
      VisitsParent(s, s.root, va, t);
      VisitsParent(s, s.root, vb, t);
      SameEntriesAbove(s, va, vb, s.up[t].0);
    }
  }

  const TWO47: nat := 0x8000_0000_0000

  /** The addresses a 48-bit walk accepts: bits 47 to 63 all equal. */
  predicate Canonical(va: nat) {
    va < TWO47 || TWO64 - TWO47 <= va < TWO64
  }

  function PageOf(va: nat): nat {
    va / PAGE
  }

  /** A page number is its four indices, and the high half for a canonical one. */
  lemma PageFromIndices(va: nat)
    requires Canonical(va)
    ensures PageOf(va) == Index(va, 1) + 512 * (Index(va, 2) + 512 * (Index(va, 3) + 512 * (va / Span(4))))
    ensures va / Span(4) == if Index(va, 4) < 256 then Index(va, 4) else 0x200_0000 - 512 + Index(va, 4)
  {
    assert va / Span(2) == va / PAGE / 512;
    assert va / Span(3) == va / Span(2) / 512;
    assert va / Span(4) == va / Span(3) / 512;
  }

  /** Canonical addresses with the same four indices lie on the same page. */
  lemma SamePage(va: nat, vb: nat)
    requires Canonical(va) && Canonical(vb)
    requires forall l | 1 <= l <= 4 :: Index(va, l) == Index(vb, l)
    ensures PageOf(va) == PageOf(vb)
  {
    PageFromIndices(va);
    PageFromIndices(vb);
    assert Index(va, 1) == Index(vb, 1) && Index(va, 2) == Index(vb, 2);
    assert Index(va, 3) == Index(vb, 3) && Index(va, 4) == Index(vb, 4);
  }

  /** Changing the bottom entry for `va` changes the mapping of no other page. */
  lemma SetLeafLocal(s: Space, t: nat, e: Entry, va: nat, vb: nat)
    requires s.Valid() && t in s.mem && s.level[t] == 1 && Visits(s, s.root, va, t)
    requires WithEntry(s, t, Index(va, 1), e).Valid()
    requires Canonical(va) && Canonical(vb) && PageOf(va) != PageOf(vb)
    ensures Lookup(WithEntry(s, t, Index(va, 1), e), vb) == Lookup(s, vb)
  {
    if Visits(s, s.root, vb, t) && Index(vb, 1) == Index(va, 1) {
      SameEntriesAbove(s, va, vb, t);
      assert forall l | 1 <= l <= 4 :: Index(va, l) == Index(vb, l);
      SamePage(va, vb);
      assert false;
    }
    SetLeafKeeps(s, t, Index(va, 1), e, s.root, vb);
  }

  /** A lookup that visits a table is the lookup from there. */
  lemma {:induction false} LookupAtVisited(s: Space, x: nat, t: nat, va: nat)
    requires s.Valid() && x in s.mem && t in s.mem && Visits(s, x, va, t)
    ensures LookupFrom(s, x, va) == LookupFrom(s, t, va)
    decreases s.level[x]
  {
    if x != t {
      var j := Index(va, s.level[x]);
      assert s.EntryOk(x, j);
      LookupAtVisited(s, s.mem[x][j].frame, t, va);
    }
  }

  /** Addresses on one page have the same indices. */
  lemma SameIndices(va: nat, vb: nat, l: nat)
    requires PageOf(va) == PageOf(vb) && 1 <= l <= 4
    ensures Index(va, l) == Index(vb, l)
  {
    assert va / Span(2) == PageOf(va) / 512 && vb / Span(2) == PageOf(vb) / 512;
    assert va / Span(3) == va / Span(2) / 512 && vb / Span(3) == vb / Span(2) / 512;
    assert va / Span(4) == va / Span(3) / 512 && vb / Span(4) == vb / Span(3) / 512;
  }

  lemma {:induction false} VisitsSame(s: Space, x: nat, va: nat, vb: nat, t: nat)
    requires s.Valid() && x in s.mem && PageOf(va) == PageOf(vb) && Visits(s, x, va, t)
    ensures Visits(s, x, vb, t)
    decreases s.level[x]
  {
    if x != t {
      SameIndices(va, vb, s.level[x]);
      var j := Index(va, s.level[x]);
      assert s.EntryOk(x, j);
      VisitsSame(s, s.mem[x][j].frame, va, vb, t);
    }
  }

  /** What the bottom entry `e` makes of an address. */
  function LeafLookup(e: Entry, va: nat): Mapping {
    if e.present then LeafMapping(e, e.frame * PAGE + va % PAGE, e.owned) else Unmapped
  }

  /** Visiting does not depend on bottom entries. */
  lemma {:induction false} SetLeafVisits(s: Space, t: nat, i: nat, e: Entry, x: nat, va: nat)
    requires s.Valid() && t in s.mem && i < ENTRIES && s.level[t] == 1 && WithEntry(s, t, i, e).Valid()
    requires x in s.mem && Visits(s, x, va, t)
    ensures Visits(WithEntry(s, t, i, e), x, va, t)
    decreases s.level[x]
  {
    if x != t {
      var j := Index(va, s.level[x]);
      assert s.EntryOk(x, j) && WithEntry(s, t, i, e).EntryOk(x, j);
      SetLeafVisits(s, t, i, e, s.mem[x][j].frame, va);
    }
  }

  /** In `b` the page of `va` is mapped as `e` says; every other canonical address
      means what it meant in `a`. */
  ghost predicate OnlyPageChanged(a: Space, b: Space, va: nat, e: Entry) {
    && a.Valid() && b.Valid()
    && (forall vb: nat | Canonical(vb) && PageOf(vb) == PageOf(va) :: Lookup(b, vb) == LeafLookup(e, vb))
    && (forall vb: nat | Canonical(vb) && PageOf(vb) != PageOf(va) :: Lookup(b, vb) == Lookup(a, vb))
  }

  /** Setting the bottom entry for `va` gives every address of its page the new
      mapping and every other canonical address the old one. */
  lemma SetLeafStep(s: Space, t: nat, e: Entry, va: nat)
    requires s.Valid() && t in s.mem && s.level[t] == 1 && Visits(s, s.root, va, t) && Canonical(va)
    requires e.present && e.user ==> UserAbove(s, t)
    ensures WithEntry(s, t, Index(va, 1), e).Valid()
    ensures OnlyPageChanged(s, WithEntry(s, t, Index(va, 1), e), va, e)
    ensures Rooted(s) ==> Rooted(WithEntry(s, t, Index(va, 1), e))
  {
    SetLeafValid(s, t, Index(va, 1), e);
    if Rooted(s) {
      SetLeafRooted(s, t, Index(va, 1), e);
    }
    var n := WithEntry(s, t, Index(va, 1), e);
    forall vb: nat | Canonical(vb)
      ensures Lookup(n, vb) == if PageOf(vb) == PageOf(va) then LeafLookup(e, vb) else Lookup(s, vb)
    {
      if PageOf(vb) == PageOf(va) {
        SameIndices(va, vb, 1);
        VisitsSame(s, s.root, va, vb, t);
        SetLeafVisits(s, t, Index(va, 1), e, s.root, vb);
        LookupAtVisited(n, n.root, t, vb);
      } else {
        SetLeafLocal(s, t, e, va, vb);
      }
    }
  }
}
