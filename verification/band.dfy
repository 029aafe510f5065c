/** The band detector: a brute-force, top-to-bottom search of a vertical span
    of a frame for a horizontal strip of background-coloured rows, which marks
    a page break in the scrolled document. */
module BandDetector {
  import opened Pixels

  /** Band settings: the strip thickness `bgwidth`, the background colour as
      red, green, blue, the per-channel tolerance `bgcolorerror`, and the
      number of columns `edgeignore` skipped on each side. */
  datatype Background = Background(bgwidth: int, r: int, g: int, b: int,
                                   bgcolorerror: int, edgeignore: int)
  {
    predicate Valid()
    {
      bgwidth >= 1 && edgeignore >= 0
    }
  }

  function Abs(x: int): nat
  {
    if x < 0 then -x else x
  }

  /** A pixel matches the background when every channel is within tolerance;
      the native channel order puts blue first and red last. */
  predicate Matches(bg: Background, p: Pixel)
  {
    && Abs(p.c0 - bg.b) <= bg.bgcolorerror
    && Abs(p.c1 - bg.g) <= bg.bgcolorerror
    && Abs(p.c2 - bg.r) <= bg.bgcolorerror
  }

  /** Rows `h..h+bgwidth-1` of a frame `cols` wide match the background at
      every column outside the ignored edges. (The frames are rectangular,
      so `w < |f[y]|` only keeps the indexing in bounds.) */
  predicate BandAt(bg: Background, f: Frame, cols: int, h: int)
    requires bg.Valid()
    requires 0 <= h && h + bg.bgwidth <= |f|
  {
    forall y, w :: h <= y < h + bg.bgwidth && bg.edgeignore <= w < cols - bg.edgeignore && w < |f[y]| ==>
      Matches(bg, f[y][w])
  }

  /** The top-most band row in `h..end-bgwidth`, or -1 when there is none. */
  function FirstBand(bg: Background, f: Frame, cols: int, h: int, end: int): (r: int)
    requires bg.Valid()
    requires 0 <= h && end <= |f|
    ensures r == -1 || h <= r <= end - bg.bgwidth
    decreases end - bg.bgwidth + 1 - h
  {
    if h > end - bg.bgwidth then -1
    else if BandAt(bg, f, cols, h) then h
    else FirstBand(bg, f, cols, h + 1, end)
  }

  /** `FirstBand` finds the smallest band row in range, and reports -1
      exactly when no row in range starts a band. */
  lemma {:induction false} FirstBandIsTopmost(bg: Background, f: Frame, cols: int, h: int, end: int)
    requires bg.Valid()
    requires 0 <= h && end <= |f|
    ensures var r := FirstBand(bg, f, cols, h, end);
      && (r != -1 ==> BandAt(bg, f, cols, r))
      && (r != -1 ==> forall k :: h <= k < r ==> !BandAt(bg, f, cols, k))
      && (r == -1 <==> forall k :: h <= k <= end - bg.bgwidth ==> !BandAt(bg, f, cols, k))
    decreases end - bg.bgwidth + 1 - h
  {
    if h <= end - bg.bgwidth && !BandAt(bg, f, cols, h) {
      FirstBandIsTopmost(bg, f, cols, h + 1, end);
    }
  }

  /** The scan as capprint performs it: candidate rows top to bottom, each
      checked row by row and column by column until a pixel fails. */
  method DetectNewPage(bg: Background, f: Frame, cols: int, begin: int, end: int) returns (r: int)
    requires bg.Valid() && HasWidth(f, cols)
    requires 0 <= begin && end <= |f|
    ensures r == FirstBand(bg, f, cols, begin, end)
  {
    var looph := end - bg.bgwidth;
    var loopw := cols - bg.edgeignore;
    var h := begin;
    while h <= looph
      invariant begin <= h && (h == begin || h <= looph + 1)
      invariant FirstBand(bg, f, cols, h, end) == FirstBand(bg, f, cols, begin, end)
    {
      var fail := false;
      var dh := 0;
      while dh < bg.bgwidth && !fail
        invariant 0 <= dh <= bg.bgwidth
        invariant !fail ==> forall y, w :: h <= y < h + dh && bg.edgeignore <= w < loopw ==>
          Matches(bg, f[y][w])
        invariant fail ==> !BandAt(bg, f, cols, h)
      {
        var y := h + dh;
        var w := bg.edgeignore;
        while w < loopw && !fail
          invariant bg.edgeignore <= w && (w == bg.edgeignore || w <= loopw)
          invariant !fail ==> forall x :: bg.edgeignore <= x < w ==> Matches(bg, f[y][x])
          invariant fail ==> bg.edgeignore < w <= loopw && !Matches(bg, f[y][w - 1])
        {
          var p := f[y][w];
          if Abs(p.c0 - bg.b) > bg.bgcolorerror {
            fail := true;
          }
          if Abs(p.c1 - bg.g) > bg.bgcolorerror {
            fail := true;
          }
          if Abs(p.c2 - bg.r) > bg.bgcolorerror {
            fail := true;
          }
          w := w + 1;
        }
        dh := dh + 1;
      }
      if !fail {
        return h;
      }
      h := h + 1;
    }
    return -1;
  }
}
