/** What loading an executable makes of memory: page by page, segment after
    segment. */
module ElfImage {
  import opened Common
  import opened Bytes

  /** A load segment of a file. */
  datatype Segment = Segment(offset: nat, vaddr: nat, filesz: nat, memsz: nat, write: bool, exec: bool) {
    function End(): nat {
      vaddr + memsz
    }

    function FirstPage(): nat {
      vaddr / PAGE
    }

    function LastPage(): nat {
      (End() + PAGE - 1) / PAGE
    }

    /** The pages loading maps or remaps. */
    predicate Touches(p: nat) {
      FirstPage() <= p < LastPage()
    }

    /** `x` is one of the bytes the file provides. */
    predicate Provides(x: nat) {
      vaddr <= x < vaddr + filesz
    }

    predicate Fits(file: bytes) {
      0 < memsz && filesz <= memsz && offset + filesz <= |file|
    }
  }

  /** A page of the image: its bytes and its rights. */
  datatype PageImage = PageImage(data: bytes, write: bool, nx: bool)

  type Image = map<nat, PageImage>

  /** Pages have the size of a page. */
  ghost predicate ImageOk(img: Image) {
    forall p | p in img :: |img[p].data| == PAGE
  }

  /** The bytes of a page at address `va` after segment `s` was copied over `data`. */
  function Filled(file: bytes, s: Segment, va: nat, data: bytes): (r: bytes)
    requires s.Fits(file) && |data| == PAGE
    ensures |r| == PAGE
    ensures forall j | 0 <= j < PAGE :: r[j] == if s.Provides(va + j) then file[s.offset + (va + j - s.vaddr)] else data[j]
  {
    seq(PAGE, j requires 0 <= j < PAGE => if s.Provides(va + j) then file[s.offset + (va + j - s.vaddr)] else data[j])
  }

  function DataAt(img: Image, p: nat): (r: bytes)
    requires ImageOk(img)
    ensures |r| == PAGE
  {
    if p in img then img[p].data else Zeros(PAGE)
  }

  function PageOf(file: bytes, s: Segment, img: Image, p: nat): (r: PageImage)
    requires s.Fits(file) && ImageOk(img)
    ensures |r.data| == PAGE
  {
    PageImage(Filled(file, s, p * PAGE, DataAt(img, p)), s.write, !s.exec)
  }

  /** `img` after the first `n` pages of `s`. */
  ghost function WithPages(file: bytes, s: Segment, img: Image, n: nat): (r: Image)
    requires s.Fits(file) && ImageOk(img)
    ensures ImageOk(r)
    decreases n
  {
    if n == 0 then img
    else
      var before := WithPages(file, s, img, n - 1);
      before[s.FirstPage() + n - 1 := PageOf(file, s, before, s.FirstPage() + n - 1)]
  }

  /** `img` after the whole segment. */
  ghost function WithSegment(file: bytes, s: Segment, img: Image): (r: Image)
    requires s.Fits(file) && ImageOk(img)
    ensures ImageOk(r)
  {
    WithPages(file, s, img, if s.LastPage() < s.FirstPage() then 0 else s.LastPage() - s.FirstPage())
  }

  ghost predicate AllFit(file: bytes, segs: seq<Segment>) {
    forall i | 0 <= i < |segs| :: segs[i].Fits(file)
  }

  /** `img` after the first `k` segments. */
  ghost function WithSegments(file: bytes, segs: seq<Segment>, img: Image, k: nat): (r: Image)
    requires AllFit(file, segs) && k <= |segs| && ImageOk(img)
    ensures ImageOk(r)
    decreases k
  {
    if k == 0 then img else WithSegment(file, segs[k - 1], WithSegments(file, segs, img, k - 1))
  }

  lemma {:induction false} PagesAt(file: bytes, s: Segment, img: Image, n: nat, p: nat)
    requires s.Fits(file) && ImageOk(img)
    ensures (var r := WithPages(file, s, img, n); var hit := s.FirstPage() <= p < s.FirstPage() + n;
             && (p in r <==> p in img || hit) && (p in r ==> r[p] == if hit then PageOf(file, s, img, p) else img[p]))
    decreases n
  {
    if n > 0 {
      PagesAt(file, s, img, n - 1, p);
    }
  }

  lemma SegmentAt(file: bytes, s: Segment, img: Image, p: nat)
    requires s.Fits(file) && ImageOk(img)
    ensures (var r := WithSegment(file, s, img);
             && (p in r <==> p in img || s.Touches(p)) && (p in r ==> r[p] == if s.Touches(p) then PageOf(file, s, img, p) else img[p]))
  {
    PagesAt(file, s, img, if s.LastPage() < s.FirstPage() then 0 else s.LastPage() - s.FirstPage(), p);
  }

  /** Segments share no byte of memory. */
  ghost predicate Disjoint(segs: seq<Segment>) {
    forall i, j | 0 <= i < j < |segs| :: segs[i].End() <= segs[j].vaddr || segs[j].End() <= segs[i].vaddr
  }

  /** The byte that address `x` of an image holds; 0 where there is no page. */
  ghost function ByteAt(img: Image, x: nat): byte
    requires ImageOk(img)
  {
    DataAt(img, x / PAGE)[x % PAGE]
  }

  lemma InPage(s: Segment, x: nat)
    requires s.vaddr <= x < s.End()
    ensures s.Touches(x / PAGE)
  {
  }

  lemma SegmentByte(file: bytes, s: Segment, img: Image, x: nat)
    requires s.Fits(file) && ImageOk(img)
    ensures ByteAt(WithSegment(file, s, img), x) == if s.Provides(x) then file[s.offset + (x - s.vaddr)] else ByteAt(img, x)
  {
    var p, j := x / PAGE, x % PAGE;
    assert x == p * PAGE + j;
    SegmentAt(file, s, img, p);
    if s.Provides(x) {
      InPage(s, x);
    }
  }

  /** A byte no segment provides keeps its old value. */
  lemma {:induction false} OtherByte(file: bytes, segs: seq<Segment>, img: Image, k: nat, x: nat)
    requires AllFit(file, segs) && k <= |segs| && ImageOk(img) && forall i | 0 <= i < k :: !segs[i].Provides(x)
    ensures ByteAt(WithSegments(file, segs, img, k), x) == ByteAt(img, x)
    decreases k
  {
    if k > 0 {
      OtherByte(file, segs, img, k - 1, x);
      SegmentByte(file, segs[k - 1], WithSegments(file, segs, img, k - 1), x);
    }
  }

  /** A byte a segment provides is in memory, whatever is loaded after it. */
  lemma {:induction false} FileByte(file: bytes, segs: seq<Segment>, img: Image, k: nat, i: nat, x: nat)
    requires AllFit(file, segs) && Disjoint(segs) && i < k <= |segs| && ImageOk(img) && segs[i].Provides(x)
    ensures ByteAt(WithSegments(file, segs, img, k), x) == file[segs[i].offset + (x - segs[i].vaddr)]
    decreases k
  {
    SegmentByte(file, segs[k - 1], WithSegments(file, segs, img, k - 1), x);
    if i < k - 1 {
      FileByte(file, segs, img, k - 1, i, x);
    }
  }

  /** Every byte of every segment is the file's, or past the file's part what was
      there before: 0 on a new page. Segments may share pages. */
  lemma LoadedBytes(file: bytes, segs: seq<Segment>, img: Image, i: nat, x: nat)
    requires AllFit(file, segs) && Disjoint(segs) && i < |segs| && ImageOk(img) && segs[i].vaddr <= x < segs[i].End()
    ensures (var r := WithSegments(file, segs, img, |segs|); var s := segs[i];
             && x / PAGE in r
             && ByteAt(r, x) == if x - s.vaddr < s.filesz then file[s.offset + (x - s.vaddr)] else ByteAt(img, x))
  {
    InPage(segs[i], x);
    PageStays(file, segs, img, |segs|, i, x / PAGE);
    if segs[i].Provides(x) {
      FileByte(file, segs, img, |segs|, i, x);
    } else {
      OtherByte(file, segs, img, |segs|, x);
    }
  }

  lemma {:induction false} PageStays(file: bytes, segs: seq<Segment>, img: Image, k: nat, i: nat, p: nat)
    requires AllFit(file, segs) && i < k <= |segs| && ImageOk(img) && segs[i].Touches(p)
    ensures p in WithSegments(file, segs, img, k)
    decreases k
  {
    SegmentAt(file, segs[k - 1], WithSegments(file, segs, img, k - 1), p);
    if i < k - 1 {
      PageStays(file, segs, img, k - 1, i, p);
    }
  }

  /** A page has the rights of the last segment that touches it. */
  lemma {:induction false} LastRights(file: bytes, segs: seq<Segment>, img: Image, k: nat, i: nat, p: nat)
    requires AllFit(file, segs) && i < k <= |segs| && ImageOk(img) && segs[i].Touches(p)
    requires forall j | i < j < k :: !segs[j].Touches(p)
    ensures (var r := WithSegments(file, segs, img, k);
             p in r && r[p].write == segs[i].write && r[p].nx == !segs[i].exec)
    decreases k
  {
    SegmentAt(file, segs[k - 1], WithSegments(file, segs, img, k - 1), p);
    if i < k - 1 {
      LastRights(file, segs, img, k - 1, i, p);
    }
  }

  ghost predicate SameRights(a: Segment, b: Segment) {
    a.write == b.write && a.exec == b.exec
  }

  /** The last of the first `k` segments that touches page `p`. */
  ghost function LastTouch(segs: seq<Segment>, k: nat, p: nat): (i: nat)
    requires k <= |segs| && exists j :: 0 <= j < k && segs[j].Touches(p)
    ensures i < k && segs[i].Touches(p) && forall j | i < j < k :: !segs[j].Touches(p)
    decreases k
  {
    if segs[k - 1].Touches(p) then k - 1 else LastTouch(segs, k - 1, p)
  }

  /** A page of segment `i` ends up with that segment's rights exactly when the last
      segment on the page asks for the same. */
  lemma RightsExactlyWhen(file: bytes, segs: seq<Segment>, img: Image, i: nat, p: nat)
    requires AllFit(file, segs) && i < |segs| && ImageOk(img) && segs[i].Touches(p)
    ensures (var r := WithSegments(file, segs, img, |segs|);
             p in r && (r[p].write == segs[i].write && r[p].nx == !segs[i].exec
                        <==> SameRights(segs[i], segs[LastTouch(segs, |segs|, p)])))
  {
    LastRights(file, segs, img, |segs|, LastTouch(segs, |segs|, p), p);
  }

  /** No page is both writable and executable if no segment is. */
  lemma {:induction false} NeverBoth(file: bytes, segs: seq<Segment>, img: Image, k: nat, p: nat)
    requires AllFit(file, segs) && k <= |segs| && ImageOk(img) && forall i | 0 <= i < |segs| :: !(segs[i].write && segs[i].exec)
    requires p in img ==> !(img[p].write && !img[p].nx)
    ensures (var r := WithSegments(file, segs, img, k); p in r ==> !(r[p].write && !r[p].nx))
    decreases k
  {
    if k > 0 {
      NeverBoth(file, segs, img, k - 1, p);
      SegmentAt(file, segs[k - 1], WithSegments(file, segs, img, k - 1), p);
    }
  }
}
