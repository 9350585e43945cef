/** The user half of an address space, page by page: which table covers which
    pages, and which frames a tree of tables holds. */
module UserPages {
  import opened Common
  import opened PageTables

  /** Pages below 2^47. */
  const USER_PAGES: nat := 0x8_0000_0000

  /** Pages one entry of a table at this level covers. */
  function PageSpan(level: nat): (n: nat)
    requires 1 <= level <= 4
    ensures n > 0 && n * PAGE == Span(level)
  {
    if level == 1 then 1 else if level == 2 then 512 else if level == 3 then 0x4_0000 else 0x800_0000
  }

  /** PML4 slots that belong to the process: the image and 4 to 255. All others
      are borrowed from the kernel. */
  predicate UserSlot(i: nat) {
    i == 1 || 4 <= i < 256
  }

  function At(s: Space, p: nat): Mapping
    requires s.Valid()
  {
    Lookup(s, p * PAGE)
  }

  predicate UserAt(s: Space, p: nat)
    requires s.Valid()
  {
    At(s, p).Mapped? && At(s, p).user
  }

  /** The process's own part of the root: nothing outside the user slots, and all
      of it open to user mode. */
  ghost predicate UserTree(s: Space) {
    s.Valid() && forall i :: 0 <= i < ENTRIES ==> RootEntry(i, s.mem[s.root][i])
  }

  predicate RootEntry(i: nat, e: Entry) {
    e == Absent() || (UserSlot(i) && e.present && e.user)
  }

  lemma Index1(first: nat, i: nat, p: nat)
    requires i < 512 && first % 512 == 0 && p == first + i
    ensures Index(p * PAGE, 1) == i
  {
    assert p * PAGE / 0x1000 == p;
  }

  lemma Index2(first: nat, i: nat, p: nat)
    requires i < 512 && first % 0x4_0000 == 0 && first + i * 512 <= p < first + i * 512 + 512
    ensures Index(p * PAGE, 2) == i
  {
    assert p * PAGE / 0x20_0000 == p / 512;
    assert p / 512 == 512 * (first / 0x4_0000) + i;
  }

  lemma Index3(first: nat, i: nat, p: nat)
    requires i < 512 && first % 0x800_0000 == 0 && first + i * 0x4_0000 <= p < first + i * 0x4_0000 + 0x4_0000
    ensures Index(p * PAGE, 3) == i
  {
    assert p * PAGE / 0x4000_0000 == p / 0x4_0000;
    assert p / 0x4_0000 == 512 * (first / 0x800_0000) + i;
  }

  lemma Index4(first: nat, i: nat, p: nat)
    requires i < 512 && first % 0x10_0000_0000 == 0 && first + i * 0x800_0000 <= p < first + i * 0x800_0000 + 0x800_0000
    ensures Index(p * PAGE, 4) == i
  {
    assert p * PAGE / 0x80_0000_0000 == p / 0x800_0000;
    assert p / 0x800_0000 == 512 * (first / 0x10_0000_0000) + i;
  }

  /** `first` can be the first page of a table at this level. */
  predicate AlignedTo(l: nat, first: nat)
    requires 1 <= l <= 4
  {
    if l == 1 then first % 512 == 0
    else if l == 2 then first % 0x4_0000 == 0
    else if l == 3 then first % 0x800_0000 == 0
    else first % 0x10_0000_0000 == 0
  }

  /** Where the pages of entry `i` begin. */
  function Start(l: nat, first: nat, i: nat): nat
    requires 1 <= l <= 4
  {
    if l == 1 then first + i
    else if l == 2 then first + i * 512
    else if l == 3 then first + i * 0x4_0000
    else first + i * 0x800_0000
  }

  /** Index of a page in the table that covers it. */
  lemma IndexOfPage(l: nat, first: nat, i: nat, p: nat)
    requires 1 <= l <= 4 && i < ENTRIES && AlignedTo(l, first)
    requires Start(l, first, i) <= p < Start(l, first, i) + PageSpan(l)
    ensures Index(p * PAGE, l) == i
  {
    if l == 1 {
      Index1(first, i, p);
    } else if l == 2 {
      Index2(first, i, p);
    } else if l == 3 {
      Index3(first, i, p);
    } else {
      Index4(first, i, p);
    }
  }

  /** Table `t` decides the pages from `first` on. */
  ghost predicate Covers(s: Space, t: nat, l: nat, first: nat) {
    && s.Valid() && t in s.mem && s.level[t] == l && 1 <= l <= 4 && AlignedTo(l, first)
    && forall p | first <= p < first + 512 * PageSpan(l) :: At(s, p) == LookupFrom(s, t, p * PAGE)
  }

  lemma CoversRoot(s: Space)
    requires s.Valid()
    ensures Covers(s, s.root, 4, 0)
  {
  }

  lemma SlotRange(l: nat, first: nat, i: nat)
    requires 1 <= l <= 4 && i < ENTRIES
    ensures l > 1 ==> 512 * PageSpan(l - 1) == PageSpan(l)
    ensures Start(l, first, i + 1) == Start(l, first, i) + PageSpan(l)
    ensures first <= Start(l, first, i) && Start(l, first, i) + PageSpan(l) <= first + 512 * PageSpan(l)
  {
  }

  lemma Aligned2(first: nat, i: nat)
    requires first % 0x4_0000 == 0
    ensures (first + i * 512) % 512 == 0
  {
    var y := 512 * (first / 0x4_0000) + i;
    assert first + i * 512 == 512 * y;
  }

  lemma Aligned3(first: nat, i: nat)
    requires first % 0x800_0000 == 0
    ensures (first + i * 0x4_0000) % 0x4_0000 == 0
  {
    var y := 512 * (first / 0x800_0000) + i;
    assert first + i * 0x4_0000 == 0x4_0000 * y;
  }

  lemma Aligned4(first: nat, i: nat)
    requires first % 0x10_0000_0000 == 0
    ensures (first + i * 0x800_0000) % 0x800_0000 == 0
  {
    var y := 512 * (first / 0x10_0000_0000) + i;
    assert first + i * 0x800_0000 == 0x800_0000 * y;
  }

  lemma SlotAligned(l: nat, first: nat, i: nat)
    requires 1 <= l <= 4 && AlignedTo(l, first)
    ensures l > 1 ==> AlignedTo(l - 1, Start(l, first, i))
  {
    if l == 2 {
      Aligned2(first, i);
    } else if l == 3 {
      Aligned3(first, i);
    } else if l == 4 {
      Aligned4(first, i);
    }
  }

  lemma CoversChild(s: Space, t: nat, l: nat, first: nat, i: nat, start: nat)
    requires Covers(s, t, l, first) && l > 1 && i < ENTRIES && s.Points(t, i) && start == Start(l, first, i)
    ensures Covers(s, s.mem[t][i].frame, l - 1, start)
  {
    assert s.EntryOk(t, i);
    SlotRange(l, first, i);
    SlotAligned(l, first, i);
    forall p | start <= p < start + 512 * PageSpan(l - 1)
      ensures At(s, p) == LookupFrom(s, s.mem[t][i].frame, p * PAGE)
    {
      IndexOfPage(l, first, i, p);
    }
  }

  lemma {:induction false} NonUserBelow(s: Space, t: nat, va: nat)
    requires s.Valid() && t in s.mem && !s.mem[t][Index(va, s.level[t])].user
    ensures LookupFrom(s, t, va).Mapped? ==> !LookupFrom(s, t, va).user
    decreases s.level[t]
  {
    var i := Index(va, s.level[t]);
    assert s.EntryOk(t, i);
    if s.Points(t, i) {
      var c := s.mem[t][i].frame;
      if s.mem[c][Index(va, s.level[c])].present {
        NonUserBelow(s, c, va);
      }
    }
  }

  /** An entry that is absent or closed to user mode covers no user page. */
  lemma NoUserPages(s: Space, t: nat, l: nat, first: nat, i: nat, p: nat)
    requires Covers(s, t, l, first) && i < ENTRIES && !(s.mem[t][i].present && s.mem[t][i].user)
    requires Start(l, first, i) <= p < Start(l, first, i) + PageSpan(l)
    ensures !UserAt(s, p)
  {
    SlotRange(l, first, i);
    IndexOfPage(l, first, i, p);
    assert At(s, p) == LookupFrom(s, t, p * PAGE);
    if s.mem[t][i].present {
      NonUserBelow(s, t, p * PAGE);
    }
  }

  /** A bottom entry is its page. */
  lemma BottomPage(s: Space, t: nat, first: nat, i: nat)
    requires Covers(s, t, 1, first) && i < ENTRIES && s.mem[t][i].present
    ensures At(s, first + i) == LeafMapping(s.mem[t][i], s.mem[t][i].frame * PAGE, s.mem[t][i].owned)
  {
    IndexOfPage(1, first, i, first + i);
  }

  // ------------------------------------------------------- pages of a table

  /** The first page a table covers, from the entries above it. */
  ghost function FirstPage(s: Space, t: nat): nat
    requires s.Valid() && Rooted(s) && t in s.mem
    decreases 4 - s.level[t]
  {
    if t == s.root then 0
    else
      assert HasParent(s, t);
      var (x, i) := s.up[t];
      assert s.EntryOk(x, i);
      Start(s.level[x], FirstPage(s, x), i)
  }

  lemma {:induction false} CoversOwn(s: Space, t: nat)
    requires s.Valid() && Rooted(s) && t in s.mem
    ensures Covers(s, t, s.level[t], FirstPage(s, t))
    decreases 4 - s.level[t]
  {
    if t == s.root {
      CoversRoot(s);
    } else {
      assert HasParent(s, t);
      var (x, i) := s.up[t];
      assert s.EntryOk(x, i);
      CoversOwn(s, x);
      CoversChild(s, x, s.level[x], FirstPage(s, x), i, FirstPage(s, t));
    }
  }

  /** In a user tree all of them are user pages. */
  lemma {:induction false} FirstPageBelow(s: Space, t: nat)
    requires UserTree(s) && Rooted(s) && t in s.mem && t != s.root
    ensures FirstPage(s, t) + 512 * PageSpan(s.level[t]) <= USER_PAGES
    decreases 4 - s.level[t]
  {
    assert HasParent(s, t);
    var (x, i) := s.up[t];
    assert s.EntryOk(x, i);
    CoversOwn(s, x);
    SlotRange(s.level[x], FirstPage(s, x), i);
    if x == s.root {
      assert RootEntry(i, s.mem[x][i]);
    } else {
      FirstPageBelow(s, x);
    }
  }

  // ------------------------------------------------------- frames of a tree

  /** What entry `i` of `t` holds: an owned page, or a table with all below it. */
  ghost function Held(s: Space, t: nat, i: nat): set<nat>
    requires s.Valid() && t in s.mem && i < ENTRIES
    decreases s.level[t], 0
  {
    var e := s.mem[t][i];
    assert s.EntryOk(t, i);
    if !e.present then {}
    else if s.level[t] == 1 then (if e.owned then {e.frame} else {})
    else if s.Huge(t, i) then {}
    else Below(s, e.frame, ENTRIES) + {e.frame}
  }

  /** What the first `k` entries of `t` hold. */
  ghost function Below(s: Space, t: nat, k: nat): set<nat>
    requires s.Valid() && t in s.mem && k <= ENTRIES
    decreases s.level[t], k + 1
  {
    if k == 0 then {} else Below(s, t, k - 1) + Held(s, t, k - 1)
  }

  /** All frames of a tree: its tables and the pages it owns. */
  ghost function AllFrames(s: Space): set<nat>
    requires s.Valid()
  {
    Below(s, s.root, ENTRIES) + {s.root}
  }

  ghost predicate OwnedEntry(s: Space, t: nat, i: nat) {
    t in s.mem && t in s.level && i < ENTRIES && s.level[t] == 1 && s.mem[t][i].present && s.mem[t][i].owned
  }

  lemma {:induction false} HeldBelow(s: Space, t: nat, i: nat, k: nat)
    requires s.Valid() && t in s.mem && i < k <= ENTRIES
    ensures Held(s, t, i) <= Below(s, t, k)
    decreases k
  {
    if i < k - 1 {
      HeldBelow(s, t, i, k - 1);
    }
  }

  lemma {:induction false} TableInAll(s: Space, t: nat)
    requires s.Valid() && Rooted(s) && t in s.mem
    ensures Below(s, t, ENTRIES) + {t} <= AllFrames(s)
    decreases 4 - s.level[t]
  {
    if t != s.root {
      assert HasParent(s, t);
      var (x, i) := s.up[t];
      assert s.EntryOk(x, i);
      TableInAll(s, x);
      HeldBelow(s, x, i, ENTRIES);
    }
  }

  lemma {:induction false} BelowOnly(s: Space, t: nat, k: nat, f: nat)
    requires s.Valid() && t in s.mem && k <= ENTRIES && f in Below(s, t, k)
    ensures f in s.mem || exists x: nat, i: nat :: OwnedEntry(s, x, i) && s.mem[x][i].frame == f
    decreases s.level[t], k
  {
    if f !in Below(s, t, k - 1) {
      var e := s.mem[t][k - 1];
      assert s.EntryOk(t, k - 1);
      if s.level[t] == 1 {
        assert OwnedEntry(s, t, k - 1);
      } else if f != e.frame {
        BelowOnly(s, e.frame, ENTRIES, f);
      }
    } else {
      BelowOnly(s, t, k - 1, f);
    }
  }

  /** The frames of a tree are its tables and the frames of its owned entries, no
      more and no less. */
  lemma AllFramesAre(s: Space, f: nat)
    requires s.Valid() && Rooted(s)
    ensures f in AllFrames(s) <==> f in s.mem || exists x: nat, i: nat :: OwnedEntry(s, x, i) && s.mem[x][i].frame == f
  {
    if f in AllFrames(s) && f != s.root {
      BelowOnly(s, s.root, ENTRIES, f);
    }
    if f in s.mem {
      TableInAll(s, f);
    }
    if x: nat, i: nat :| OwnedEntry(s, x, i) && s.mem[x][i].frame == f {
      HeldBelow(s, x, i, ENTRIES);
      TableInAll(s, x);
    }
  }

  ghost predicate Injective(m: map<nat, nat>) {
    forall p, q | p in m && q in m && p != q :: m[p] != m[q]
  }

  /** The pages a space owns, by page number. */
  ghost predicate Owns(s: Space, own: map<nat, nat>) {
    && s.Valid()
    && (forall p | p in own :: p < USER_PAGES && At(s, p).Mapped? && At(s, p).owned && At(s, p).phys == own[p] * PAGE)
    && (forall p: nat | p < USER_PAGES && At(s, p).Mapped? && At(s, p).owned :: p in own)
  }

  lemma {:induction false} OwnedLeaf(s: Space, t: nat, va: nat) returns (x: nat, i: nat)
    requires s.Valid() && t in s.mem && LookupFrom(s, t, va).Mapped? && LookupFrom(s, t, va).owned && va % PAGE == 0
    ensures OwnedEntry(s, x, i) && s.mem[x][i].frame * PAGE == LookupFrom(s, t, va).phys
    decreases s.level[t]
  {
    var j := Index(va, s.level[t]);
    assert s.EntryOk(t, j);
    if s.Points(t, j) {
      x, i := OwnedLeaf(s, s.mem[t][j].frame, va);
    } else {
      x, i := t, j;
    }
  }

  lemma PageOwned(s: Space, own: map<nat, nat>, p: nat, e: Entry)
    requires Owns(s, own) && p < USER_PAGES && At(s, p) == LeafMapping(e, e.frame * PAGE, e.owned) && e.owned
    ensures p in own && own[p] == e.frame
  {
  }

  lemma OwnedAt(s: Space, own: map<nat, nat>, x: nat, i: nat, first: nat, p: nat)
    requires Owns(s, own) && OwnedEntry(s, x, i) && Covers(s, x, 1, first) && first + 512 <= USER_PAGES && p == first + i
    ensures p in own && own[p] == s.mem[x][i].frame
  {
    BottomPage(s, x, first, i);
    PageOwned(s, own, p, s.mem[x][i]);
  }

  lemma OwnedEntryIsPage(s: Space, own: map<nat, nat>, x: nat, i: nat, p: nat)
    requires UserTree(s) && Rooted(s) && Owns(s, own) && OwnedEntry(s, x, i) && p == FirstPage(s, x) + i
    ensures p in own && own[p] == s.mem[x][i].frame
  {
    CoversOwn(s, x);
    FirstPageBelow(s, x);
    OwnedAt(s, own, x, i, FirstPage(s, x), p);
  }

  lemma PageIsOwnedEntry(s: Space, own: map<nat, nat>, p: nat) returns (x: nat, i: nat)
    requires Owns(s, own) && p in own
    ensures OwnedEntry(s, x, i) && s.mem[x][i].frame == own[p]
  {
    x, i := OwnedLeaf(s, s.root, p * PAGE);
  }

  /** So the frames of a user tree are its tables and the pages it owns. */
  lemma FramesOfOwner(s: Space, own: map<nat, nat>)
    requires UserTree(s) && Rooted(s) && Owns(s, own)
    ensures AllFrames(s) == s.mem.Keys + own.Values
  {
    forall f ensures f in AllFrames(s) <==> f in s.mem.Keys + own.Values {
      AllFramesAre(s, f);
      if x: nat, i: nat :| OwnedEntry(s, x, i) && s.mem[x][i].frame == f {
        OwnedEntryIsPage(s, own, x, i, FirstPage(s, x) + i);
      }
      if p :| p in own && own[p] == f {
        var x, i := PageIsOwnedEntry(s, own, p);
      }
    }
  }

  // ------------------------------------------------- every frame in one place

  /** Where frame `f` sits: a table below level `l`, or an owned page, between
      pages `lo` and `hi`. */
  ghost predicate Home(s: Space, own: map<nat, nat>, f: nat, l: nat, lo: nat, hi: nat)
    requires s.Valid() && Rooted(s)
  {
    || (f in s.mem && s.level[f] < l && lo <= FirstPage(s, f) < hi)
    || exists p :: lo <= p < hi && p in own && own[p] == f
  }

  lemma WiderHome(s: Space, own: map<nat, nat>, f: nat, k: nat, l: nat, lo: nat, hi: nat, lo': nat, hi': nat)
    requires s.Valid() && Rooted(s) && Home(s, own, f, k, lo, hi) && k <= l && lo' <= lo && hi <= hi'
    ensures Home(s, own, f, l, lo', hi')
  {
  }

  lemma {:induction false} HeldHome(s: Space, own: map<nat, nat>, t: nat, i: nat, f: nat, lo: nat, hi: nat)
    requires UserTree(s) && Rooted(s) && Owns(s, own) && t in s.mem && i < ENTRIES && f in Held(s, t, i)
    requires lo == Start(s.level[t], FirstPage(s, t), i) && hi == Start(s.level[t], FirstPage(s, t), i + 1)
    ensures Home(s, own, f, s.level[t], lo, hi)
    decreases s.level[t], 0
  {
    var e, l, first := s.mem[t][i], s.level[t], FirstPage(s, t);
    assert s.EntryOk(t, i);
    SlotRange(l, first, i);
    if l == 1 {
      OwnedEntryIsPage(s, own, t, i, lo);
    } else if f != e.frame {
      BelowHome(s, own, e.frame, ENTRIES, f, lo, hi);
      WiderHome(s, own, f, l - 1, l, lo, hi, lo, hi);
    }
  }

  lemma {:induction false} BelowHome(s: Space, own: map<nat, nat>, t: nat, k: nat, f: nat, first: nat, hi: nat)
    requires UserTree(s) && Rooted(s) && Owns(s, own) && t in s.mem && k <= ENTRIES && f in Below(s, t, k)
    requires first == FirstPage(s, t) && hi == Start(s.level[t], first, k)
    ensures Home(s, own, f, s.level[t], first, hi)
    decreases s.level[t], k + 1
  {
    var l := s.level[t];
    var here := Start(l, first, k - 1);
    SlotRange(l, first, k - 1);
    if f in Below(s, t, k - 1) {
      BelowHome(s, own, t, k - 1, f, first, here);
      WiderHome(s, own, f, l, l, first, here, first, hi);
    } else {
      HeldHome(s, own, t, k - 1, f, here, hi);
      WiderHome(s, own, f, l, l, here, hi, first, hi);
    }
  }

  /** Two frames in places apart are different. */
  lemma HomesApart(s: Space, own: map<nat, nat>, f: nat, l: nat, lo: nat, mid: nat, hi: nat)
    requires s.Valid() && Rooted(s) && own.Values !! s.mem.Keys
    requires Injective(own)
    ensures !(Home(s, own, f, l, lo, mid) && Home(s, own, f, l, mid, hi))
  {
    if p :| p in own && own[p] == f {
      assert f in own.Values;
    }
  }

  /** What one entry holds, no entry before it holds, and no table holds itself. */
  lemma HeldOnce(s: Space, own: map<nat, nat>, t: nat, i: nat)
    requires UserTree(s) && Rooted(s) && Owns(s, own) && t in s.mem && i < ENTRIES && own.Values !! s.mem.Keys
    requires Injective(own)
    ensures Below(s, t, i) !! Held(s, t, i)
  {
    var l, first := s.level[t], FirstPage(s, t);
    var lo, hi := Start(l, first, i), Start(l, first, i + 1);
    forall f | f in Below(s, t, i) ensures f !in Held(s, t, i) {
      BelowHome(s, own, t, i, f, first, lo);
      HomesApart(s, own, f, l, first, lo, hi);
      if f in Held(s, t, i) {
        HeldHome(s, own, t, i, f, lo, hi);
      }
    }
  }

  lemma NotInItself(s: Space, own: map<nat, nat>, t: nat)
    requires UserTree(s) && Rooted(s) && Owns(s, own) && t in s.mem && own.Values !! s.mem.Keys
    ensures t !in Below(s, t, ENTRIES)
  {
    if t in Below(s, t, ENTRIES) {
      BelowHome(s, own, t, ENTRIES, t, FirstPage(s, t), Start(s.level[t], FirstPage(s, t), ENTRIES));
    }
  }
}
