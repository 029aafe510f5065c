/** The output page canvas: a fixed-height buffer with a write cursor and a
    page counter, to which vertical slices of frames are appended and which
    is flushed to a numbered page when it fills or a page break is found. */
module PageCanvas {
  import opened Pixels

  function Min(a: int, b: int): int
  {
    if a <= b then a else b
  }

  /** A finished page: the index that names its output file, and its rows. */
  datatype Page = Page(index: int, rows: seq<Row>)

  /** The canvas state. `rows` is the whole buffer (rows at and below `curloc`
      hold whatever was left there before); `curloc` counts the rows filled
      since the last flush; `curindex` is the index the next page gets;
      `pages` is every page emitted so far, oldest first. */
  datatype Canvas = Canvas(height: int, width: int, rows: seq<Row>, curloc: int,
                           curindex: int, pages: seq<Page>)
  {
    /** Height of the buffer and of every emitted page, cursor in range,
        and the emitted pages numbered consecutively up to `curindex`. */
    predicate Valid()
    {
      && height >= 1 && width >= 0
      && |rows| == height
      && 0 <= curloc <= height
      && forall i :: 0 <= i < |pages| ==>
           pages[i].index == curindex - |pages| + i && |pages[i].rows| == height
    }

    /** The index the first emitted page had (or will have). */
    function FirstIndex(): int
    {
      curindex - |pages|
    }

    /** Rows written since the last flush. */
    function Written(): seq<Row>
      requires 0 <= curloc <= |rows|
    {
      rows[..curloc]
    }

    /** Rows still free on the current page. */
    function Room(): int
    {
      height - curloc
    }
  }

  /** A fresh canvas: nothing written, nothing emitted, the next page numbered
      `firstindex`. The buffer's initial contents are left open. */
  function NewCanvas(height: int, width: int, initial: seq<Row>, firstindex: int): (c: Canvas)
    requires height >= 1 && width >= 0
    requires |initial| == height
    ensures c.Valid()
    ensures c.height == height && c.width == width && c.rows == initial
    ensures c.Written() == [] && c.Room() == height
    ensures c.pages == [] && c.FirstIndex() == firstindex
  {
    Canvas(height, width, initial, 0, firstindex, [])
  }

  /** Emit the current page: the written rows padded with white to the full
      height, numbered with the current index; then start a new page. */
  function ClearPage(c: Canvas): (r: Canvas)
    requires c.Valid()
    ensures r.Valid()
    ensures r.height == c.height && r.width == c.width && r.FirstIndex() == c.FirstIndex()
    ensures r.curloc == 0 && r.curindex == c.curindex + 1
    ensures |r.pages| == |c.pages| + 1 && r.pages[..|c.pages|] == c.pages
    ensures r.pages[|c.pages|].index == c.curindex
    ensures r.pages[|c.pages|].rows[..c.curloc] == c.Written()
    ensures AllWhite(r.pages[|c.pages|].rows[c.curloc..])
    ensures HasWidth(r.pages[|c.pages|].rows[c.curloc..], c.width)
    ensures r.rows == r.pages[|c.pages|].rows
  {
    var page := c.Written() + Blank(c.height - c.curloc, c.width);
    assert page[..c.curloc] == c.Written();
    assert page[c.curloc..] == Blank(c.height - c.curloc, c.width);
    c.(rows := page, curloc := 0, curindex := c.curindex + 1,
       pages := c.pages + [Page(c.curindex, page)])
  }

  /** Copy `n` rows of `f`, starting at `begin`, to the canvas at the cursor
      and advance the cursor past them. */
  function Paste(c: Canvas, f: Frame, begin: int, n: int): (r: Canvas)
    requires c.Valid()
    requires 0 <= begin && 0 <= n && begin + n <= |f| && n <= c.Room()
    ensures r.Valid()
    ensures r.height == c.height && r.width == c.width
    ensures r.pages == c.pages && r.curindex == c.curindex
    ensures r.curloc == c.curloc + n
    ensures r.Written() == c.Written() + f[begin..begin + n]
    ensures r.rows[r.curloc..] == c.rows[r.curloc..]
  {
    var rows := c.rows[..c.curloc] + f[begin..begin + n] + c.rows[c.curloc + n..];
    assert rows[..c.curloc + n] == c.rows[..c.curloc] + f[begin..begin + n];
    assert rows[c.curloc + n..] == c.rows[c.curloc + n..];
    c.(rows := rows, curloc := c.curloc + n)
  }

  /** Append rows `begin..end-1` of `f`. When they do not fit in the room
      left, the page is flushed first and only the prefix that fits on the
      fresh page is written; the rest of the slice is dropped. */
  function PutImage(c: Canvas, f: Frame, begin: int, end: int): (r: Canvas)
    requires c.Valid()
    requires 0 <= begin <= end <= |f|
    ensures r.Valid()
    ensures r.height == c.height && r.width == c.width && r.FirstIndex() == c.FirstIndex()
    ensures begin == end ==> r == c
    ensures end - begin <= c.Room() ==>
      && r.pages == c.pages && r.curindex == c.curindex
      && r.curloc == c.curloc + (end - begin)
      && r.Written() == c.Written() + f[begin..end]
      && r.rows[r.curloc..] == c.rows[r.curloc..]
    ensures end - begin > c.Room() ==>
      var flushed := ClearPage(c);
      && r.pages == flushed.pages && r.curindex == flushed.curindex
      && r.curloc == Min(end - begin, c.height)
      && r.Written() == f[begin..begin + r.curloc]
      && r.rows[r.curloc..] == flushed.rows[r.curloc..]
  {
    if begin == end then c
    else if end - begin > c.Room() then
      var d := ClearPage(c);
      assert d.Written() == [];
      Paste(d, f, begin, Min(end - begin, d.Room()))
    else
      Paste(c, f, begin, end - begin)
  }

  /** On a page with nothing written yet, an append writes the longest
      prefix of the slice that fits and keeps every page already emitted;
      only a slice taller than the page flushes, and the page it emits is
      blank. */
  lemma PutImageOnEmptyPage(c: Canvas, f: Frame, begin: int, end: int)
    requires c.Valid() && c.curloc == 0
    requires 0 <= begin <= end <= |f|
    ensures var r := PutImage(c, f, begin, end);
      && r.curloc == Min(end - begin, c.height)
      && r.Written() == f[begin..begin + r.curloc]
      && |r.pages| >= |c.pages| && r.pages[..|c.pages|] == c.pages
      && (end - begin <= c.height ==> r.pages == c.pages)
      && (end - begin > c.height ==>
            |r.pages| == |c.pages| + 1 && AllWhite(r.pages[|c.pages|].rows))
  {
    var r := PutImage(c, f, begin, end);
    assert c.Written() == [];
    if end - begin > c.Room() {
      var d := ClearPage(c);
      assert r.pages[..|c.pages|] == d.pages[..|c.pages|];
      EmptyFlushIsBlank(c);
    } else {
      assert r.Written() == f[begin..end];
    }
  }

  /** Flushing a canvas whose written rows are all page-wide emits a page
      whose every row is page-wide: the full `pageheight` by `pagewidth`
      image. */
  lemma FlushIsFullWidth(c: Canvas)
    requires c.Valid() && HasWidth(c.Written(), c.width)
    ensures HasWidth(ClearPage(c).pages[|c.pages|].rows, c.width)
  {
    var p := ClearPage(c).pages[|c.pages|].rows;
    forall i | 0 <= i < |p|
      ensures |p[i]| == c.width
    {
      if i < c.curloc {
        assert p[i] == p[..c.curloc][i];
      } else {
        assert p[i] == p[c.curloc..][i - c.curloc];
      }
    }
  }

  /** Appending rows of a frame as wide as the page keeps every written row
      page-wide, whether the slice fits or is cut after a flush. */
  lemma PutImageKeepsWidth(c: Canvas, f: Frame, begin: int, end: int)
    requires c.Valid() && HasWidth(c.Written(), c.width)
    requires 0 <= begin <= end <= |f| && HasWidth(f, c.width)
    ensures HasWidth(PutImage(c, f, begin, end).Written(), c.width)
  {
    var w := PutImage(c, f, begin, end).Written();
    forall i | 0 <= i < |w|
      ensures |w[i]| == c.width
    {
      if end - begin <= c.Room() && i < c.curloc {
        assert w[i] == c.Written()[i];
      } else if end - begin <= c.Room() {
        assert w[i] == f[begin + i - c.curloc];
      } else {
        assert w[i] == f[begin + i];
      }
    }
  }

  /** Every row of every page in `pages[from..]` is `width` wide. */
  predicate PagesFullWidth(pages: seq<Page>, from: int, width: int)
  {
    forall i :: 0 <= from <= i < |pages| ==> HasWidth(pages[i].rows, width)
  }

  /** Page-wide pages from `from` on in `a`, followed in `r` by page-wide
      pages from `|a|` on, make `r` page-wide from `from` on. */
  lemma PagesFullWidthJoin(a: seq<Page>, r: seq<Page>, from: int, width: int)
    requires |a| <= |r| && r[..|a|] == a
    requires PagesFullWidth(a, from, width) && PagesFullWidth(r, |a|, width)
    ensures PagesFullWidth(r, from, width)
  {
    forall i | 0 <= from <= i < |r|
      ensures HasWidth(r[i].rows, width)
    {
      if i < |a| {
        assert r[i] == r[..|a|][i];
      }
    }
  }

  /** Appending rows of a page-wide frame emits only page-wide pages. */
  lemma PutImagePagesFullWidth(c: Canvas, f: Frame, begin: int, end: int)
    requires c.Valid() && HasWidth(c.Written(), c.width)
    requires 0 <= begin <= end <= |f| && HasWidth(f, c.width)
    ensures PagesFullWidth(PutImage(c, f, begin, end).pages, |c.pages|, c.width)
  {
    if end - begin > c.Room() {
      FlushIsFullWidth(c);
    }
  }

  /** A vertical slice `begin..end-1` of a frame. */
  datatype Slice = Slice(frame: Frame, begin: int, end: int)
  {
    predicate Fits()
    {
      0 <= begin <= end <= |frame|
    }
  }

  predicate AllFit(ss: seq<Slice>)
  {
    forall k :: 0 <= k < |ss| ==> ss[k].Fits()
  }

  /** Total height of a list of slices. */
  function TotalHeight(ss: seq<Slice>): nat
    requires AllFit(ss)
  {
    if |ss| == 0 then 0 else ss[0].end - ss[0].begin + TotalHeight(ss[1..])
  }

  /** The rows of a list of slices, stacked in order. */
  function Stacked(ss: seq<Slice>): seq<Row>
    requires AllFit(ss)
  {
    if |ss| == 0 then [] else ss[0].frame[ss[0].begin..ss[0].end] + Stacked(ss[1..])
  }

  /** Append each slice in turn. */
  function AppendAll(c: Canvas, ss: seq<Slice>): (r: Canvas)
    requires c.Valid() && AllFit(ss)
    ensures r.Valid() && r.height == c.height && r.width == c.width
    ensures r.FirstIndex() == c.FirstIndex()
    decreases |ss|
  {
    if |ss| == 0 then c
    else AppendAll(PutImage(c, ss[0].frame, ss[0].begin, ss[0].end), ss[1..])
  }

  /** Slices whose total height fits in the room left are stacked on the
      canvas verbatim and in order, with no flush. */
  lemma {:induction false} AppendAllFits(c: Canvas, ss: seq<Slice>)
    requires c.Valid() && AllFit(ss)
    requires TotalHeight(ss) <= c.Room()
    decreases |ss|
    ensures AppendAll(c, ss).pages == c.pages
    ensures AppendAll(c, ss).Written() == c.Written() + Stacked(ss)
  {
    if |ss| > 0 {
      var s := ss[0];
      assert s.Fits();
      var piece := s.frame[s.begin..s.end];
      var c' := PutImage(c, s.frame, s.begin, s.end);
      assert c'.Written() == c.Written() + piece;
      assert AllFit(ss[1..]);
      AppendAllFits(c', ss[1..]);
      assert AppendAll(c, ss) == AppendAll(c', ss[1..]);
      assert Stacked(ss) == piece + Stacked(ss[1..]);
      ConcatAssoc(c.Written(), piece, Stacked(ss[1..]));
    }
  }

  lemma ConcatAssoc<T>(a: seq<T>, b: seq<T>, c: seq<T>)
    ensures a + (b + c) == (a + b) + c
  {
  }

  /** Starting from an empty page, slices that fit are flushed as one page
      holding exactly their rows in order followed by white padding, numbered
      with the index the canvas had. */
  lemma FittingSlicesMakeOnePage(c: Canvas, ss: seq<Slice>)
    requires c.Valid() && c.curloc == 0 && AllFit(ss)
    requires TotalHeight(ss) <= c.height
    ensures var r := ClearPage(AppendAll(c, ss));
      && |r.pages| == |c.pages| + 1
      && r.pages[|c.pages|].index == c.curindex
      && r.pages[|c.pages|].rows[..TotalHeight(ss)] == Stacked(ss)
      && AllWhite(r.pages[|c.pages|].rows[TotalHeight(ss)..])
      && HasWidth(r.pages[|c.pages|].rows[TotalHeight(ss)..], c.width)
  {
    AppendAllFits(c, ss);
    var a := AppendAll(c, ss);
    assert a.Written() == Stacked(ss);
    assert |a.Written()| == a.curloc;
    StackedHeight(ss);
  }

  lemma {:induction false} StackedHeight(ss: seq<Slice>)
    requires AllFit(ss)
    ensures |Stacked(ss)| == TotalHeight(ss)
  {
    if |ss| > 0 {
      assert ss[0].Fits();
      StackedHeight(ss[1..]);
    }
  }

  /** Flushing a canvas on which nothing was written emits an all-white page. */
  lemma EmptyFlushIsBlank(c: Canvas)
    requires c.Valid() && c.curloc == 0
    ensures AllWhite(ClearPage(c).pages[|c.pages|].rows)
    ensures HasWidth(ClearPage(c).pages[|c.pages|].rows, c.width)
  {
    var p := ClearPage(c).pages[|c.pages|].rows;
    assert p == p[0..];
  }
}
