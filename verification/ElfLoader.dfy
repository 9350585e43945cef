/** The ELF loader: segments of a file into the pages of an address space. */
module ElfLoader {
  import opened Common
  import opened Bytes
  import PT = PageTables
  import opened UserPages
  import opened Vmm
  import opened AddressSpace
  import opened ElfImage
  import opened ElfFormat

  /** The pages the space owns hold the image: its bytes and its rights. */
  ghost predicate Shows(s: PT.Space, own: map<nat, nat>, memory: map<nat, bytes>, img: Image) {
    && s.Valid() && (forall p | p in img :: p < USER_PAGES)
    && forall p: nat | p < USER_PAGES :: if p in img then ShowsPage(s, own, memory, p, img[p]) else p !in own
  }

  ghost predicate ShowsPage(s: PT.Space, own: map<nat, nat>, memory: map<nat, bytes>, p: nat, i: PageImage)
    requires s.Valid()
  {
    && p in own && At(s, p) == PT.Mapped(own[p] * PAGE, i.write, true, i.nx, true)
    && own[p] in memory && memory[own[p]] == i.data
  }

  /** The loader may fill page `p`: its address is the process's, and the page is free
      or the space's own. */
  ghost predicate Open(s: PT.Space, own: map<nat, nat>, p: nat) {
    s.Valid() && p < USER_PAGES && UserAddress(p * PAGE) && (p in own || At(s, p) == PT.Unmapped)
  }

  /** No page got closed to the loader. */
  ghost predicate StillOpen(a: PT.Space, own: map<nat, nat>, b: PT.Space, own': map<nat, nat>) {
    forall p | Open(a, own, p) :: Open(b, own', p)
  }

  lemma OpenAfter(a: PT.Space, b: PT.Space, own: map<nat, nat>, own': map<nat, nat>, p: nat, e: PT.Entry)
    requires PT.OnlyPageChanged(a, b, p * PAGE, e) && p < USER_PAGES && p in own' && forall q | q in own :: q in own'
    ensures StillOpen(a, own, b, own')
  {
    PageAddress(p);
    forall q | Open(a, own, q) ensures Open(b, own', q) {
      ChangedAt(a, b, p * PAGE, e, q);
    }
  }

  /** Copy the part of segment `s` that falls on the page at `va`. */
  method CopySegment(file: bytes, s: Segment, va: nat, data: bytes) returns (r: bytes)
    requires s.Fits(file) && |data| == PAGE
    ensures r == Filled(file, s, va, data)
  {
    r := data;
    var start := if s.vaddr > va then s.vaddr else va;
    var end := if s.End() < va + PAGE then s.End() else va + PAGE;
    if end > start {
      var offset := start - s.vaddr;
      if offset < s.filesz {
        var n := if s.filesz - offset > end - start then end - start else s.filesz - offset;
        for k := 0 to n
          invariant |r| == PAGE
          invariant forall j | 0 <= j < PAGE :: r[j] == if start <= va + j < start + k then file[s.offset + (va + j - s.vaddr)] else data[j]
        {
          r := r[start - va + k := file[s.offset + offset + k]];
        }
      }
    }
  }

  function SegmentFlags(s: Segment): Flags {
    Flags(true, s.write, true, false, false, !s.exec, false)
  }

  /** One page of the image written or rewritten. */
  lemma PageShown(a: PT.Space, b: PT.Space, own: map<nat, nat>, own': map<nat, nat>, memory: map<nat, bytes>, img: Image,
                  p: nat, frame: nat, s: Segment, data: bytes)
    requires Shows(a, own, memory, img) && p < USER_PAGES && PT.OnlyPageChanged(a, b, p * PAGE, UserLeaf(frame, SegmentFlags(s), true))
    requires own' == own[p := frame] && forall q | q in own && q != p :: own[q] != frame
    ensures Shows(b, own', memory[frame := data], img[p := PageImage(data, s.write, !s.exec)])
  {
    var img', memory' := img[p := PageImage(data, s.write, !s.exec)], memory[frame := data];
    PageAddress(p);
    forall q: nat | q < USER_PAGES
      ensures if q in img' then ShowsPage(b, own', memory', q, img'[q]) else q !in own'
    {
      ChangedAt(a, b, p * PAGE, UserLeaf(frame, SegmentFlags(s), true), q);
      FrameAddress(frame, frame * PAGE);
      if q != p && q in img {
        assert ShowsPage(a, own, memory, q, img[q]);
      }
    }
  }

  /** The image after page `p` of segment `s`. */
  ghost predicate NextImage(file: bytes, s: Segment, img: Image, p: nat, img': Image) {
    s.Fits(file) && ImageOk(img) && img' == img[p := ElfImage.PageOf(file, s, img, p)]
  }

  lemma RewriteShown(a: PT.Space, b: PT.Space, own: map<nat, nat>, memory: map<nat, bytes>, file: bytes, s: Segment,
                     p: nat, img: Image, img': Image, data: bytes)
    requires Shows(a, own, memory, img) && p < USER_PAGES && p in own && Injective(own) && NextImage(file, s, img, p, img')
    requires PT.OnlyPageChanged(a, b, p * PAGE, UserLeaf(own[p], SegmentFlags(s), true))
    requires own[p] in memory && |memory[own[p]]| == PAGE && data == Filled(file, s, p * PAGE, memory[own[p]])
    ensures Shows(b, own, memory[own[p] := data], img')
  {
    assert ShowsPage(a, own, memory, p, img[p]);
    assert own[p := own[p]] == own;
    PageShown(a, b, own, own, memory, img, p, own[p], s, data);
  }

  lemma NewShown(a: PT.Space, b: PT.Space, own: map<nat, nat>, memory: map<nat, bytes>, file: bytes, s: Segment,
                 p: nat, img: Image, img': Image, frame: nat, data: bytes)
    requires Shows(a, own, memory, img) && p < USER_PAGES && p !in own && frame !in own.Values && NextImage(file, s, img, p, img')
    requires PT.OnlyPageChanged(a, b, p * PAGE, UserLeaf(frame, SegmentFlags(s), true))
    requires data == Filled(file, s, p * PAGE, Zeros(PAGE))
    ensures Shows(b, own[p := frame], memory[frame := data], img')
  {
    PageShown(a, b, own, own[p := frame], memory, img, p, frame, s, data);
  }

  lemma OpenHere(a: PT.Space, own: map<nat, nat>, memory: map<nat, bytes>, img: Image, p: nat)
    requires Shows(a, own, memory, img) && Open(a, own, p) && At(a, p).Mapped?
    ensures At(a, p).user && At(a, p).owned
  {
    assert ShowsPage(a, own, memory, p, img[p]);
  }

  lemma ShownData(a: PT.Space, own: map<nat, nat>, memory: map<nat, bytes>, img: Image, p: nat)
    requires Shows(a, own, memory, img) && ImageOk(img) && p < USER_PAGES && p in own
    ensures own[p] in memory && |memory[own[p]]| == PAGE
  {
    assert ShowsPage(a, own, memory, p, img[p]);
  }

  /** Since the state with tables `a`, owned pages `own` and `free` frames at hand, no
      page got closed and at most `cost` frames were used. */
  ghost predicate Filling(a: PT.Space, own: map<nat, nat>, free: nat, space: Space64, cost: nat)
    reads space, space.tree
  {
    space.tree.Valid() && StillOpen(a, own, space.tree.Tree(), space.own) && |space.tree.free| + cost >= free
  }

  /** A page the space already owns: new rights, bytes copied over the old ones. */
  method Rewrite(space: Space64, file: bytes, s: Segment, p: nat, frame: nat, ghost img: Image, ghost img': Image, memory: map<nat, bytes>)
    returns (ok: bool, now: map<nat, bytes>)
    requires space.Valid() && Shows(space.tree.Tree(), space.own, memory, img) && NextImage(file, s, img, p, img') && p < USER_PAGES
    requires p in space.own && space.own[p] == frame
    modifies space.tree
    ensures space.Valid() && space.pool == old(space.pool)
    ensures ok ==> Shows(space.tree.Tree(), space.own, now, img') && Filling(old(space.tree.Tree()), old(space.own), |old(space.tree.free)|, space, 4)
    ensures Open(old(space.tree.Tree()), old(space.own), p) && |old(space.tree.free)| >= 4 ==> ok
  {
    now := memory;
    ghost var a := space.tree.Tree();
    ShownData(a, space.own, memory, img, p);
    assert ShowsPage(a, space.own, memory, p, img[p]);
    ok := space.UpdatePage(p, SegmentFlags(s));
    if ok {
      var data := CopySegment(file, s, p * PAGE, memory[frame]);
      now := memory[frame := data];
      RewriteShown(a, space.tree.Tree(), space.own, memory, file, s, p, img, img', data);
      OpenAfter(a, space.tree.Tree(), space.own, space.own, p, UserLeaf(frame, SegmentFlags(s), true));
    }
  }

  /** A new page: zeroed, mapped, and its part of the segment copied in. */
  method MapNew(space: Space64, file: bytes, s: Segment, p: nat, ghost img: Image, ghost img': Image, memory: map<nat, bytes>)
    returns (ok: bool, now: map<nat, bytes>)
    requires space.Valid() && Shows(space.tree.Tree(), space.own, memory, img) && NextImage(file, s, img, p, img') && p < USER_PAGES
    requires p !in space.own
    modifies space`own, space`pool, space.tree
    ensures space.Valid() && space.pool == old(space.pool)
    ensures ok ==> Shows(space.tree.Tree(), space.own, now, img') && Filling(old(space.tree.Tree()), old(space.own), |old(space.tree.free)|, space, 4)
    ensures Open(old(space.tree.Tree()), old(space.own), p) && |old(space.tree.free)| >= 4 ==> ok
  {
    now := memory;
    ghost var a, own := space.tree.Tree(), space.own;
    var frame := space.MapTaken(p, SegmentFlags(s));
    ok := frame != 0;
    if ok {
      var data := CopySegment(file, s, p * PAGE, Zeros(PAGE));
      now := memory[frame := data];
      NewShown(a, space.tree.Tree(), own, memory, file, s, p, img, img', frame, data);
      OpenAfter(a, space.tree.Tree(), own, space.own, p, UserLeaf(frame, SegmentFlags(s), true));
    }
  }

  datatype Finding = Vacant | Ours(frame: nat) | Taken

  /** What is at page `p` already. */
  method Examine(space: Space64, p: nat, ghost img: Image, ghost memory: map<nat, bytes>) returns (f: Finding)
    requires space.Valid() && Shows(space.tree.Tree(), space.own, memory, img) && p < USER_PAGES
    ensures f == Vacant ==> p !in space.own
    ensures f.Ours? ==> p in space.own && space.own[p] == f.frame
    ensures f == Taken ==> !Open(space.tree.Tree(), space.own, p)
  {
    PageAddress(p);
    ghost var a := space.tree.Tree();
    var e := space.WalkEntry(p * PAGE);
    if !e.present {
      f := Vacant;
    } else if e.user && e.owned {
      OwnedFrame(a, space.own, p * PAGE, e.frame);
      f := Ours(e.frame);
    } else {
      f := Taken;
      if Open(a, space.own, p) {
        OpenHere(a, space.own, memory, img, p);
      }
    }
  }

  /** One page of a segment. */
  method LoadPage(space: Space64, file: bytes, s: Segment, p: nat, ghost img: Image, ghost img': Image, memory: map<nat, bytes>)
    returns (ok: bool, now: map<nat, bytes>)
    requires space.Valid() && Shows(space.tree.Tree(), space.own, memory, img) && NextImage(file, s, img, p, img') && p < USER_PAGES
    modifies space`own, space`pool, space.tree
    ensures space.Valid() && space.pool == old(space.pool)
    ensures ok ==> Shows(space.tree.Tree(), space.own, now, img') && Filling(old(space.tree.Tree()), old(space.own), |old(space.tree.free)|, space, 4)
    ensures Open(old(space.tree.Tree()), old(space.own), p) && |old(space.tree.free)| >= 4 ==> ok
  {
    var f := Examine(space, p, img, memory);
    match f
    case Vacant =>
      ok, now := MapNew(space, file, s, p, img, img', memory);
    case Ours(frame) =>
      ok, now := Rewrite(space, file, s, p, frame, img, img', memory);
    case Taken =>
      ok, now := false, memory;
  }

  /** The pages from `first` up to `last`; `imgs` are the images on the way. */
  method LoadPages(space: Space64, file: bytes, s: Segment, first: nat, last: nat, ghost imgs: nat -> Image, memory: map<nat, bytes>)
    returns (ok: bool, now: map<nat, bytes>)
    requires space.Valid() && first <= last <= USER_PAGES && Shows(space.tree.Tree(), space.own, memory, imgs(first))
    requires forall p | first <= p < last :: NextImage(file, s, imgs(p), p, imgs(p + 1))
    modifies space`own, space`pool, space.tree
    ensures space.Valid() && space.pool == old(space.pool)
    ensures ok ==> Shows(space.tree.Tree(), space.own, now, imgs(last))
                   && Filling(old(space.tree.Tree()), old(space.own), |old(space.tree.free)|, space, 4 * (last - first))
    ensures (forall p | first <= p < last :: Open(old(space.tree.Tree()), old(space.own), p)) && |old(space.tree.free)| >= 4 * (last - first) ==> ok
  {
    now := memory;
    for p := first to last
      invariant space.Valid() && space.pool == old(space.pool) && Shows(space.tree.Tree(), space.own, now, imgs(p))
      invariant Filling(old(space.tree.Tree()), old(space.own), |old(space.tree.free)|, space, 4 * (p - first))
    {
      ok, now := LoadPage(space, file, s, p, imgs(p), imgs(p + 1), now);
      if !ok {
        return;
      }
    }
    ok := true;
  }

  /** The image when the pages of `s` before page `p` are done. */
  ghost function Before(file: bytes, s: Segment, img: Image, p: nat): Image {
    if s.Fits(file) && ImageOk(img) && s.FirstPage() <= p then WithPages(file, s, img, p - s.FirstPage()) else img
  }

  lemma PagesNext(file: bytes, s: Segment, img: Image, p: nat)
    requires s.Fits(file) && ImageOk(img) && s.FirstPage() <= p
    ensures NextImage(file, s, Before(file, s, img, p), p, Before(file, s, img, p + 1))
  {
    assert s.FirstPage() + (p + 1 - s.FirstPage()) - 1 == p;
  }

  /** The images on the way through a segment. */
  lemma SegmentImages(file: bytes, s: Segment, img: Image, img': Image) returns (imgs: nat -> Image)
    requires NextSegment(file, s, img, img') && SegmentOk(file, s)
    ensures s.FirstPage() <= s.LastPage() <= USER_PAGES && imgs(s.FirstPage()) == img && imgs(s.LastPage()) == img'
    ensures forall p | s.FirstPage() <= p < s.LastPage() :: NextImage(file, s, imgs(p), p, imgs(p + 1))
  {
    PagesInUser(s);
    imgs := (p: nat) => Before(file, s, img, p);
    forall p | s.FirstPage() <= p < s.LastPage() ensures NextImage(file, s, imgs(p), p, imgs(p + 1)) {
      PagesNext(file, s, img, p);
    }
  }

  /** Frames that are enough for a segment: four for each page. */
  ghost function Cost(s: Segment): nat {
    if s.LastPage() < s.FirstPage() then 0 else 4 * (s.LastPage() - s.FirstPage())
  }

  ghost function CostUpTo(segs: seq<Segment>, k: nat): nat
    requires k <= |segs|
  {
    if k == 0 then 0 else CostUpTo(segs, k - 1) + Cost(segs[k - 1])
  }

  lemma {:induction false} CostGrows(segs: seq<Segment>, k: nat, n: nat)
    requires k <= n <= |segs|
    ensures CostUpTo(segs, k) <= CostUpTo(segs, n)
  {
    if k < n {
      CostGrows(segs, k, n - 1);
    }
  }

  /** Every page the segment touches is open. */
  ghost predicate AllOpen(a: PT.Space, own: map<nat, nat>, s: Segment) {
    forall p: nat | s.Touches(p) :: Open(a, own, p)
  }

  lemma AllStillOpen(a: PT.Space, own: map<nat, nat>, b: PT.Space, own': map<nat, nat>, s: Segment)
    requires AllOpen(a, own, s) && StillOpen(a, own, b, own')
    ensures AllOpen(b, own', s)
  {
  }

  /** Enough frames, and nothing in the way of any segment. */
  ghost predicate Room(a: PT.Space, own: map<nat, nat>, free: nat, segs: seq<Segment>) {
    (forall k: nat | k < |segs| :: AllOpen(a, own, segs[k])) && free >= CostUpTo(segs, |segs|)
  }

  /** All pages of a segment. */
  method LoadSegment(space: Space64, file: bytes, s: Segment, ghost img: Image, ghost img': Image, memory: map<nat, bytes>)
    returns (ok: bool, now: map<nat, bytes>)
    requires space.Valid() && Shows(space.tree.Tree(), space.own, memory, img) && NextSegment(file, s, img, img') && SegmentOk(file, s)
    modifies space`own, space`pool, space.tree
    ensures space.Valid() && space.pool == old(space.pool)
    ensures ok ==> Shows(space.tree.Tree(), space.own, now, img')
                   && Filling(old(space.tree.Tree()), old(space.own), |old(space.tree.free)|, space, Cost(s))
    ensures AllOpen(old(space.tree.Tree()), old(space.own), s) && |old(space.tree.free)| >= Cost(s) ==> ok
  {
    ghost var imgs := SegmentImages(file, s, img, img');
    ok, now := LoadPages(space, file, s, s.FirstPage(), s.LastPage(), imgs, memory);
  }

  lemma PagesInUser(s: Segment)
    requires 0 < s.memsz && s.End() <= USER_VA_MAX
    ensures s.FirstPage() < s.LastPage() <= USER_PAGES
  {
  }

  /** Load an executable: every segment in turn, or nothing if the file is not in
      order. A failure half-way leaves what was loaded; no frame is lost. Four frames for
      each page are enough if no page in the way is someone else's. */
  method LoadImage(space: Space64, file: bytes, ghost img: Image, memory: map<nat, bytes>)
    returns (ok: bool, entry: nat, lo: nat, hi: nat, now: map<nat, bytes>)
    requires space.Valid() && Shows(space.tree.Tree(), space.own, memory, img) && ImageOk(img) && |file| < TWO64
    modifies space`own, space`pool, space.tree
    ensures space.Valid() && space.pool == old(space.pool)
    ensures !Accepted(file) ==> !ok && now == memory && space.own == old(space.own) && space.tree.Tree() == old(space.tree.Tree())
    ensures ok ==> Loaded(file, space.tree.Tree(), space.own, now, img, entry, lo, hi)
    ensures Accepted(file) && Room(old(space.tree.Tree()), old(space.own), |old(space.tree.free)|, Loads(Programs(file))) ==> ok
  {
    now, entry := memory, 0;
    ok, lo, hi := Plan(file);
    if !ok {
      return;
    }
    entry := ReadHeader(file).entry;
    var ps := ReadPrograms(file);
    LoadsOk(file, ps);
    ok, now := LoadAll(space, file, ps, img, memory);
  }

  /** The image of an accepted file is in the space. */
  ghost predicate Loaded(file: bytes, s: PT.Space, own: map<nat, nat>, memory: map<nat, bytes>, img: Image, entry: nat, lo: nat, hi: nat)
    requires ImageOk(img)
  {
    && Accepted(file) && entry == ReadHeader(file).entry && Spans(Loads(Programs(file)), lo, hi)
    && AllFit(file, Loads(Programs(file)))
    && Shows(s, own, memory, WithSegments(file, Loads(Programs(file)), img, |Loads(Programs(file))|))
  }

  /** `rank[i]` load segments come before header `i`. */
  ghost predicate Ranked(ps: seq<Program>, segs: seq<Segment>, rank: seq<nat>) {
    && |rank| == |ps| + 1 && rank[0] == 0 && rank[|ps|] == |segs|
    && (forall i | 0 <= i < |ps| :: rank[i + 1] == rank[i] + if ps[i].kind == PT_LOAD then 1 else 0)
    && (forall i | 0 <= i < |ps| && ps[i].kind == PT_LOAD :: rank[i] < |segs| && segs[rank[i]] == SegmentOf(ps[i]))
  }

  lemma RankOf(ps: seq<Program>) returns (rank: seq<nat>)
    requires forall i | 0 <= i < |ps| && ps[i].kind == PT_LOAD :: ps[i].memsz > 0
    ensures Ranked(ps, Loads(ps), rank)
  {
    rank := seq(|ps| + 1, i requires 0 <= i <= |ps| => |Loads(ps[..i])|);
    assert ps[..|ps|] == ps;
    forall i | 0 <= i < |ps|
      ensures rank[i + 1] == rank[i] + if ps[i].kind == PT_LOAD then 1 else 0
      ensures ps[i].kind == PT_LOAD ==> rank[i] < |Loads(ps)| && Loads(ps)[rank[i]] == SegmentOf(ps[i])
    {
      LoadsNext(ps, i);
      LoadsPrefix(ps, i + 1);
    }
  }

  /** Load segment after segment; `imgs` are the images on the way. */
  method LoadEach(space: Space64, file: bytes, ps: seq<Program>, ghost segs: seq<Segment>, ghost rank: seq<nat>,
                  ghost imgs: nat -> Image, memory: map<nat, bytes>)
    returns (ok: bool, now: map<nat, bytes>)
    requires space.Valid() && Shows(space.tree.Tree(), space.own, memory, imgs(0)) && Ranked(ps, segs, rank)
    requires forall k: nat | k < |segs| :: SegmentOk(file, segs[k]) && NextSegment(file, segs[k], imgs(k), imgs(k + 1))
    modifies space`own, space`pool, space.tree
    ensures space.Valid() && space.pool == old(space.pool)
    ensures ok ==> Shows(space.tree.Tree(), space.own, now, imgs(|segs|))
    ensures Room(old(space.tree.Tree()), old(space.own), |old(space.tree.free)|, segs) ==> ok
  {
    now := memory;
    ghost var a, own, free := space.tree.Tree(), space.own, |space.tree.free|;
    for i := 0 to |ps|
      invariant space.Valid() && space.pool == old(space.pool) && Shows(space.tree.Tree(), space.own, now, imgs(rank[i]))
      invariant rank[i] <= |segs| && Filling(a, own, free, space, CostUpTo(segs, rank[i]))
    {
      if ps[i].kind == PT_LOAD {
        ghost var s := segs[rank[i]];
        assert s == SegmentOf(ps[i]);
        CostGrows(segs, rank[i + 1], |segs|);
        if Room(a, own, free, segs) {
          AllStillOpen(a, own, space.tree.Tree(), space.own, s);
        }
        ok, now := LoadSegment(space, file, SegmentOf(ps[i]), imgs(rank[i]), imgs(rank[i + 1]), now);
        if !ok {
          return;
        }
      }
    }
    ok := true;
  }

  ghost predicate NextSegment(file: bytes, s: Segment, img: Image, img': Image) {
    s.Fits(file) && ImageOk(img) && img' == WithSegment(file, s, img)
  }

  /** The image after `k` segments. */
  ghost function AfterSegments(file: bytes, segs: seq<Segment>, img: Image, k: nat): Image {
    if AllFit(file, segs) && ImageOk(img) && k <= |segs| then WithSegments(file, segs, img, k) else img
  }

  /** The segments of checked program headers, in file order. */
  method LoadAll(space: Space64, file: bytes, ps: seq<Program>, ghost img: Image, memory: map<nat, bytes>)
    returns (ok: bool, now: map<nat, bytes>)
    requires space.Valid() && Shows(space.tree.Tree(), space.own, memory, img) && ImageOk(img)
    requires forall i | 0 <= i < |ps| && ps[i].kind == PT_LOAD :: ps[i].memsz > 0
    requires forall i | 0 <= i < |Loads(ps)| :: SegmentOk(file, Loads(ps)[i])
    modifies space`own, space`pool, space.tree
    ensures space.Valid() && space.pool == old(space.pool)
    ensures AllFit(file, Loads(ps))
    ensures ok ==> Shows(space.tree.Tree(), space.own, now, WithSegments(file, Loads(ps), img, |Loads(ps)|))
    ensures Room(old(space.tree.Tree()), old(space.own), |old(space.tree.free)|, Loads(ps)) ==> ok
  {
    ghost var segs := Loads(ps);
    ghost var imgs := (k: nat) => AfterSegments(file, segs, img, k);
    ghost var rank := RankOf(ps);
    ok, now := LoadEach(space, file, ps, segs, rank, imgs, memory);
  }

  lemma {:induction false} LoadsPrefix(ps: seq<Program>, i: nat)
    requires i <= |ps|
    ensures Loads(ps[..i]) <= Loads(ps)
    decreases |ps| - i
  {
    if i < |ps| {
      LoadsNext(ps, i);
      LoadsPrefix(ps, i + 1);
    } else {
      assert ps[..i] == ps;
    }
  }

  /** A byte of a loaded segment, as a process finds it: the file's byte, or past the
      file's part what was there before and 0 on a new page; its page is mapped for
      user mode, and not both writable and executable. */
  ghost predicate ByteLoaded(file: bytes, s: PT.Space, memory: map<nat, bytes>, seg: Segment, img: Image, x: nat)
    requires s.Valid() && ImageOk(img) && seg.Fits(file) && seg.vaddr <= x < seg.End()
  {
    var m := At(s, x / PAGE);
    && m.Mapped? && m.user && !(m.write && !m.nx)
    && m.phys / PAGE in memory && |memory[m.phys / PAGE]| == PAGE
    && memory[m.phys / PAGE][x % PAGE] == if x - seg.vaddr < seg.filesz then file[seg.offset + (x - seg.vaddr)] else ByteAt(img, x)
  }

  /** After a load this holds of every byte of every segment. */
  lemma LoadedByte(file: bytes, s: PT.Space, own: map<nat, nat>, memory: map<nat, bytes>, img: Image,
                   entry: nat, lo: nat, hi: nat, segs: seq<Segment>, i: nat, x: nat)
    requires ImageOk(img) && Loaded(file, s, own, memory, img, entry, lo, hi) && segs == Loads(Programs(file))
    requires forall p | p in img :: !(img[p].write && !img[p].nx)
    requires i < |segs| && segs[i].vaddr <= x < segs[i].End()
    ensures segs[i].Fits(file) && ByteLoaded(file, s, memory, segs[i], img, x) && lo <= x < hi
  {
    LoadedSegments(file, s, own, memory, img, entry, lo, hi, segs);
    ByteShown(file, s, own, memory, segs, img, i, x);
  }

  lemma LoadedSegments(file: bytes, s: PT.Space, own: map<nat, nat>, memory: map<nat, bytes>, img: Image,
                       entry: nat, lo: nat, hi: nat, segs: seq<Segment>)
    requires ImageOk(img) && Loaded(file, s, own, memory, img, entry, lo, hi) && segs == Loads(Programs(file))
    ensures AllFit(file, segs) && Disjoint(segs) && Spans(segs, lo, hi) && Shows(s, own, memory, WithSegments(file, segs, img, |segs|))
    ensures forall i | 0 <= i < |segs| :: !(segs[i].write && segs[i].exec)
  {
    LoadsOk(file, Programs(file));
  }

  lemma ByteShown(file: bytes, s: PT.Space, own: map<nat, nat>, memory: map<nat, bytes>, segs: seq<Segment>, img: Image, i: nat, x: nat)
    requires ImageOk(img) && AllFit(file, segs) && Disjoint(segs) && Shows(s, own, memory, WithSegments(file, segs, img, |segs|))
    requires i < |segs| && segs[i].vaddr <= x < segs[i].End()
    requires forall k | 0 <= k < |segs| :: !(segs[k].write && segs[k].exec)
    requires forall p | p in img :: !(img[p].write && !img[p].nx)
    ensures ByteLoaded(file, s, memory, segs[i], img, x)
  {
    var p, r := x / PAGE, WithSegments(file, segs, img, |segs|);
    LoadedBytes(file, segs, img, i, x);
    NeverBoth(file, segs, img, |segs|, p);
    assert ShowsPage(s, own, memory, p, r[p]);
    FrameAddress(own[p], own[p] * PAGE);
  }
}
