/** The frame loop: the per-frame state machine that accumulates the rounded
    scroll estimate, hands each newly revealed span of rows to `Process`
    (which splits it around a page-break band), and flushes a last page at
    end of stream. */
module FrameLoop {
  import opened Pixels
  import opened PageCanvas
  import opened BandDetector

  /** Loop settings: the band settings and the smallest accumulated shift
      that triggers processing. */
  datatype Settings = Settings(band: Background, smallestdelta: int)
  {
    predicate Valid()
    {
      band.Valid()
    }
  }

  function Max(a: int, b: int): int
  {
    if a <= b then b else a
  }

  // ---------------------------------------------------------------------
  // Rounding the shift estimate

  /** C's conversion of a floating-point value to `int`: truncation toward zero. */
  function Trunc(x: real): int
  {
    if x >= 0.0 then x.Floor else -((-x).Floor)
  }

  /** The shift estimate rounded to the nearest integer, halves away from
      zero: `moved + 0.5` truncated when non-negative, `moved - 0.5`
      truncated otherwise. */
  function Round(moved: real): (r: int)
    ensures 0.0 <= moved ==> moved - 0.5 < r as real <= moved + 0.5
    ensures moved < 0.0 ==> moved - 0.5 <= r as real < moved + 0.5
  {
    if moved >= 0.0 then Trunc(moved + 0.5) else Trunc(moved - 0.5)
  }

  /** Rounding is symmetric about zero, so negative halves go to the more
      negative integer. */
  lemma RoundIsOdd(moved: real)
    ensures Round(-moved) == -Round(moved)
  {
    if moved > 0.0 {
      assert -moved < 0.0;
    }
  }

  /** Halves round away from zero, not to even. */
  lemma RoundHalvesAwayFromZero()
    ensures Round(4.5) == 5 && Round(-4.5) == -5
    ensures Round(2.5) == 3 && Round(-2.5) == -3
  {
  }

  // ---------------------------------------------------------------------
  // Splitting a span around a band

  /** A prefix of a prefix of `r` is a prefix of `r`, and `r` agrees with
      the longer one just past the shorter one. */
  lemma PrefixOfPrefix<T>(a: seq<T>, b: seq<T>, r: seq<T>)
    requires |a| < |b| <= |r| && b[..|a|] == a && r[..|b|] == b
    ensures r[..|a|] == a && r[|a|] == b[|a|]
  {
    assert r[..|a|] == r[..|b|][..|a|];
  }

  /** The band case of `Process`: append rows `begin..h-1`, flush, and
      append rows `resume..end-1`. The canvas is left holding exactly the
      rows from `resume` on, as many as fit on a page; the pages emitted on
      the way are described by `BreakPagePages`. */
  function BreakPage(c: Canvas, f: Frame, begin: int, h: int, resume: int, end: int): (r: Canvas)
    requires c.Valid()
    requires 0 <= begin <= h <= resume <= end <= |f|
    ensures r.Valid() && r.height == c.height && r.width == c.width
    ensures r.FirstIndex() == c.FirstIndex()
    ensures r.curloc == Min(end - resume, c.height)
    ensures r.Written() == f[resume..resume + r.curloc]
  {
    var broken := ClearPage(PutImage(c, f, begin, h));
    PutImageOnEmptyPage(broken, f, resume, end);
    PutImage(broken, f, resume, end)
  }

  /** The page log `r` a band break at `h` leaves when rows `begin..h-1` of
      `f` are appended to `c`, giving `above`, and `below` rows follow the
      band: every page of `above` is kept, the next page holds exactly the
      rows written on `above` padded with white rows of the page width under
      `above`'s index, and only when the rows below the band are taller than
      a page does one more, blank, page follow. */
  predicate BreakEmits(c: Canvas, f: Frame, begin: int, h: int, r: Canvas, below: int)
    requires c.Valid() && 0 <= begin <= h <= |f|
  {
    var above := PutImage(c, f, begin, h);
    var n := |above.pages|;
    && |r.pages| >= n + 1
    && r.pages[..n] == above.pages
    && r.pages[n].index == above.curindex
    && |r.pages[n].rows| == above.height
    && r.pages[n].rows[..above.curloc] == above.Written()
    && AllWhite(r.pages[n].rows[above.curloc..])
    && HasWidth(r.pages[n].rows[above.curloc..], above.width)
    && (below <= above.height ==> |r.pages| == n + 1)
    && (below > above.height ==> |r.pages| == n + 2 && AllWhite(r.pages[n + 1].rows))
  }

  /** The canvas `r` a band break leaves: the pages `BreakEmits` describes,
      and exactly the rows from `resume` on written, as many as fit. */
  predicate BandBreak(c: Canvas, f: Frame, begin: int, h: int, resume: int, end: int, r: Canvas)
    requires c.Valid() && 0 <= begin <= h <= resume <= end <= |f|
  {
    && BreakEmits(c, f, begin, h, r, end - resume)
    && r.curloc == Min(end - resume, c.height)
    && 0 <= r.curloc <= |r.rows|
    && r.Written() == f[resume..resume + r.curloc]
  }

  /** A band break leaves the canvas `BandBreak` describes. */
  lemma BreakPagePages(c: Canvas, f: Frame, begin: int, h: int, resume: int, end: int)
    requires c.Valid()
    requires 0 <= begin <= h <= resume <= end <= |f|
    ensures BandBreak(c, f, begin, h, resume, end, BreakPage(c, f, begin, h, resume, end))
  {
    var above := PutImage(c, f, begin, h);
    var broken := ClearPage(above);
    PutImageOnEmptyPage(broken, f, resume, end);
    var r := PutImage(broken, f, resume, end);
    assert BreakPage(c, f, begin, h, resume, end) == r;
    PrefixOfPrefix(above.pages, broken.pages, r.pages);
  }

  /** Process rows `begin..end-1` of `f`: look for a band; without one
      append the span; with one at `h` append the rows above it, flush, and
      append the rows below it. The band rows themselves are never written. */
  function Process(s: Settings, c: Canvas, f: Frame, begin: int, end: int): (r: Canvas)
    requires s.Valid() && c.Valid()
    requires 0 <= begin <= end <= |f|
    ensures r.Valid() && r.height == c.height && r.width == c.width
    ensures r.FirstIndex() == c.FirstIndex()
  {
    var newpage := FirstBand(s.band, f, c.width, begin, end);
    if newpage == -1 then
      PutImage(c, f, begin, end)
    else
      BreakPage(c, f, begin, newpage, newpage + s.band.bgwidth, end)
  }

  /** Without a band the span is one append: when it fits, no page is
      emitted and the canvas gains exactly the span's rows; when it does not,
      exactly the flush of the current page is emitted and the canvas holds
      the prefix of the span that fits. */
  lemma ProcessWithoutBand(s: Settings, c: Canvas, f: Frame, begin: int, end: int)
    requires s.Valid() && c.Valid()
    requires 0 <= begin <= end <= |f|
    requires FirstBand(s.band, f, c.width, begin, end) == -1
    ensures var r := Process(s, c, f, begin, end);
      && (end - begin <= c.Room() ==>
            r.pages == c.pages && r.Written() == c.Written() + f[begin..end])
      && (end - begin > c.Room() ==>
            && r.pages == ClearPage(c).pages
            && r.curloc == Min(end - begin, c.height)
            && r.Written() == f[begin..begin + r.curloc])
  {
  }

  /** With a band at `h`, the first row `FirstBand` finds, the span is the
      break of `BreakPage`: every page emitted while appending the rows above
      the band is kept, the next page is the flush of the canvas holding
      them, and the canvas is left with the rows below the band that fit;
      when those overflow a page, one more all-white page follows the break.
      (`h` is a parameter so that the statement mentions the search once.) */
  lemma ProcessWithBand(s: Settings, c: Canvas, f: Frame, begin: int, end: int, h: int)
    requires s.Valid() && c.Valid()
    requires 0 <= begin <= end <= |f|
    requires h == FirstBand(s.band, f, c.width, begin, end) && h != -1
    ensures BandBreak(c, f, begin, h, h + s.band.bgwidth, end, Process(s, c, f, begin, end))
  {
    BreakPagePages(c, f, begin, h, h + s.band.bgwidth, end);
  }

  /** A band break over a frame as wide as the page keeps every written
      row page-wide, and every page it emits is the full page width. */
  lemma BreakPageKeepsWidth(c: Canvas, f: Frame, begin: int, h: int, resume: int, end: int)
    requires c.Valid()
    requires 0 <= begin <= h <= resume <= end <= |f|
    requires HasWidth(c.Written(), c.width) && HasWidth(f, c.width)
    ensures var r := BreakPage(c, f, begin, h, resume, end);
      && HasWidth(r.Written(), c.width)
      && PagesFullWidth(r.pages, |c.pages|, c.width)
  {
    var above := PutImage(c, f, begin, h);
    PutImageKeepsWidth(c, f, begin, h);
    PutImagePagesFullWidth(c, f, begin, h);
    var broken := ClearPage(above);
    FlushIsFullWidth(above);
    PagesFullWidthJoin(above.pages, broken.pages, |c.pages|, c.width);
    PutImageOnEmptyPage(broken, f, resume, end);
    PutImageKeepsWidth(broken, f, resume, end);
    PutImagePagesFullWidth(broken, f, resume, end);
    var r := PutImage(broken, f, resume, end);
    PagesFullWidthJoin(broken.pages, r.pages, |c.pages|, c.width);
    assert BreakPage(c, f, begin, h, resume, end) == r;
  }

  /** A span of a frame as wide as the page keeps every written row
      page-wide, and every page it emits is the full page width. */
  lemma ProcessKeepsWidth(s: Settings, c: Canvas, f: Frame, begin: int, end: int)
    requires s.Valid() && c.Valid()
    requires 0 <= begin <= end <= |f|
    requires HasWidth(c.Written(), c.width) && HasWidth(f, c.width)
    ensures var r := Process(s, c, f, begin, end);
      && HasWidth(r.Written(), c.width)
      && PagesFullWidth(r.pages, |c.pages|, c.width)
  {
    var h := FirstBand(s.band, f, c.width, begin, end);
    if h == -1 {
      PutImageKeepsWidth(c, f, begin, end);
      PutImagePagesFullWidth(c, f, begin, end);
    } else {
      ProcessAtBandKeepsWidth(s, c, f, begin, end, h);
    }
  }

  /** The band case of `ProcessKeepsWidth`, with `h` the band `FirstBand`
      finds. */
  lemma ProcessAtBandKeepsWidth(s: Settings, c: Canvas, f: Frame, begin: int, end: int, h: int)
    requires s.Valid() && c.Valid()
    requires 0 <= begin <= end <= |f|
    requires HasWidth(c.Written(), c.width) && HasWidth(f, c.width)
    requires h == FirstBand(s.band, f, c.width, begin, end) && h != -1
    ensures var r := Process(s, c, f, begin, end);
      && HasWidth(r.Written(), c.width)
      && PagesFullWidth(r.pages, |c.pages|, c.width)
  {
    BreakPageKeepsWidth(c, f, begin, h, h + s.band.bgwidth, end);
  }

  /** A span without a band emits at most one page (an overflow); one with
      a band emits the break page and at most two overflow pages. */
  lemma ProcessPageCount(s: Settings, c: Canvas, f: Frame, begin: int, end: int)
    requires s.Valid() && c.Valid()
    requires 0 <= begin <= end <= |f|
    ensures var h := FirstBand(s.band, f, c.width, begin, end);
      var n := |Process(s, c, f, begin, end).pages| - |c.pages|;
      (if h == -1 then 0 else 1) <= n <= (if h == -1 then 1 else 3)
  {
  }

  // ---------------------------------------------------------------------
  // The frame tracker: which span to process, decided without the canvas

  /** What the frame source delivers: a cropped frame with the vertical shift
      the correlation estimated against the previous frame, or end of stream. */
  datatype Capture = Got(frame: Frame, moved: real) | EndOfStream

  /** A call `process(frame, begin, end)`, followed by a page flush when
      `flush` is set. */
  datatype Command = Command(frame: Frame, begin: int, end: int, flush: bool)
  {
    /** The span lies inside its frame. */
    predicate Fits()
    {
      Slice(frame, begin, end).Fits()
    }
  }

  datatype Option<T> = None | Some(value: T)

  /** The part of the loader state the step's decisions depend on: whether
      no frame was read yet, the accumulated shift not yet processed, and the
      last frame read. */
  datatype Tracker = Tracker(firstimage: bool, totalmove: int, lastframe: Frame)

  /** The tracker before the first frame. */
  const Fresh: Tracker := Tracker(true, 0, [])

  /** One decision: the tracker afterwards, the command to carry out if
      any, and whether the loop goes on. */
  datatype Decision = Decision(tracker: Tracker, cmd: Option<Command>, more: bool)

  /** The decisions over a run of captures: the tracker afterwards, the
      commands in order, and whether the loop goes on. */
  datatype Plan = Plan(tracker: Tracker, cmds: seq<Command>, more: bool)

  /** The commands an optional command stands for. */
  function Commands(o: Option<Command>): (cmds: seq<Command>)
    ensures |cmds| <= 1
    ensures o.Some? <==> |cmds| == 1
    ensures o.Some? ==> cmds[0] == o.value
  {
    if o.Some? then [o.value] else []
  }

  /** Total number of rows handed to `process` by `cmds`. */
  function Fed(cmds: seq<Command>): int
  {
    if |cmds| == 0 then 0 else cmds[0].end - cmds[0].begin + Fed(cmds[1..])
  }

  /** How far a capture scrolls the document: a whole first frame counts as
      new rows, a later frame its rounded shift, end of stream nothing. */
  function Shift(firstimage: bool, cap: Capture): int
  {
    match cap
    case Got(f, moved) => if firstimage then |f| else Round(moved)
    case EndOfStream => 0
  }

  /** The conditions under which capprint's step stays in bounds: the span
      it processes starts inside the frame. */
  predicate CanStep(s: Settings, t: Tracker, cap: Capture)
  {
    match cap
    case Got(f, moved) =>
      !t.firstimage ==>
        var m := t.totalmove + Round(moved);
        m > s.smallestdelta ==> 0 <= m <= |f|
    case EndOfStream => 0 <= t.totalmove <= |t.lastframe|
  }

  /** The decision for frame `f` with estimated shift `moved`: the first
      frame is processed whole; a later one adds its rounded shift to the
      pending total and, once that exceeds `smallestdelta`, has the newly
      revealed bottom rows processed and resets the total. */
  function TrackFrame(s: Settings, t: Tracker, f: Frame, moved: real): (r: Decision)
    requires CanStep(s, t, Got(f, moved))
    ensures r.more && !r.tracker.firstimage && r.tracker.lastframe == f
    ensures r.cmd.Some? ==>
      r.cmd.value.Fits() && r.cmd.value.frame == f && r.cmd.value.end == |f| && !r.cmd.value.flush
    // every row scrolled into view is either processed or still pending
    ensures Fed(Commands(r.cmd)) + r.tracker.totalmove == t.totalmove + Shift(t.firstimage, Got(f, moved))
    ensures t.firstimage ==> r.cmd == Some(Command(f, 0, |f|, false)) && r.tracker.totalmove == t.totalmove
    ensures !t.firstimage ==>
      var m := t.totalmove + Round(moved);
      && (r.cmd.Some? <==> m > s.smallestdelta)
      && (r.cmd.None? ==> r.tracker.totalmove == m)
      && (r.cmd.Some? ==> r.tracker.totalmove == 0)
      && r.tracker.totalmove <= Max(s.smallestdelta, 0)
  {
    if t.firstimage then
      Decision(t.(firstimage := false, lastframe := f), Some(Command(f, 0, |f|, false)), true)
    else
      var m := t.totalmove + Round(moved);
      if m > s.smallestdelta then
        Decision(t.(totalmove := 0, lastframe := f), Some(Command(f, |f| - m, |f|, false)), true)
      else
        Decision(t.(totalmove := m, lastframe := f), None, true)
  }

  /** The decision at end of stream: the pending rows at the bottom of the
      last frame are processed, then the page is flushed once more. */
  function TrackEnd(s: Settings, t: Tracker): (r: Command)
    requires CanStep(s, t, EndOfStream)
    ensures r.Fits() && r.flush && r.frame == t.lastframe && r.end == |t.lastframe|
    ensures Fed([r]) == t.totalmove
  {
    var cmd := Command(t.lastframe, |t.lastframe| - t.totalmove, |t.lastframe|, true);
    assert Fed([cmd]) == cmd.end - cmd.begin + Fed([cmd][1..]);
    cmd
  }

  /** One decision; the flag is false exactly at end of stream, whose
      command is the only one that flushes. */
  function Track(s: Settings, t: Tracker, cap: Capture): (r: Decision)
    requires CanStep(s, t, cap)
    ensures r.cmd.Some? ==> r.cmd.value.Fits()
    ensures r.more <==> cap.Got?
    ensures r.more ==> r.cmd.None? || !r.cmd.value.flush
    ensures !r.more ==> r.cmd.Some? && r.cmd.value.flush
  {
    match cap
    case Got(f, moved) => TrackFrame(s, t, f, moved)
    case EndOfStream => Decision(t, Some(TrackEnd(s, t)), false)
  }

  /** The tracker's conditions hold at every step until end of stream. */
  predicate CanRun(s: Settings, t: Tracker, caps: seq<Capture>)
    decreases |caps|
  {
    |caps| == 0 ||
    (CanStep(s, t, caps[0]) &&
     var d := Track(s, t, caps[0]);
     d.more ==> CanRun(s, d.tracker, caps[1..]))
  }

  predicate AllCommandsFit(cmds: seq<Command>)
  {
    forall k :: 0 <= k < |cmds| ==> cmds[k].Fits()
  }

  lemma AppendFits(a: seq<Command>, b: seq<Command>)
    requires AllCommandsFit(a) && AllCommandsFit(b)
    ensures AllCommandsFit(a + b)
    ensures |b| > 0 ==> (a + b)[|a + b| - 1] == b[|b| - 1]
  {
  }

  /** No capture in `caps` is an end of stream. */
  predicate AllFrames(caps: seq<Capture>)
  {
    forall k :: 0 <= k < |caps| ==> caps[k].Got?
  }

  lemma AllFramesCons(caps: seq<Capture>)
    requires |caps| > 0
    ensures AllFrames(caps) <==> caps[0].Got? && AllFrames(caps[1..])
  {
    assert forall k :: 0 < k < |caps| ==> caps[k] == caps[1..][k - 1];
  }

  /** The decisions over `caps`, up to and including the first end of
      stream; the flag says whether the loop would still go on. */
  function TrackAll(s: Settings, t: Tracker, caps: seq<Capture>): (r: Plan)
    requires CanRun(s, t, caps)
    ensures AllCommandsFit(r.cmds)
    ensures r.more <==> AllFrames(caps)
    ensures !r.more ==> |r.cmds| > 0 && r.cmds[|r.cmds| - 1].flush
    decreases |caps|
  {
    if |caps| == 0 then Plan(t, [], true)
    else
      AllFramesCons(caps);
      var d := Track(s, t, caps[0]);
      if d.more then
        var rest := TrackAll(s, d.tracker, caps[1..]);
        AppendFits(Commands(d.cmd), rest.cmds);
        Plan(rest.tracker, Commands(d.cmd) + rest.cmds, rest.more)
      else
        Plan(d.tracker, Commands(d.cmd), false)
  }

  /** Rows scrolled into view by the captures up to the first end of stream,
      the first frame of a fresh tracker counting whole. */
  function Scrolled(firstimage: bool, caps: seq<Capture>): int
    decreases |caps|
  {
    if |caps| == 0 then 0
    else match caps[0]
      case Got(f, moved) => Shift(firstimage, caps[0]) + Scrolled(false, caps[1..])
      case EndOfStream => 0
  }

  lemma {:induction false} FedAppend(a: seq<Command>, b: seq<Command>)
    ensures Fed(a + b) == Fed(a) + Fed(b)
    decreases |a|
  {
    if |a| == 0 {
      assert a + b == b;
    } else {
      assert (a + b)[0] == a[0];
      assert (a + b)[1..] == a[1..] + b;
      FedAppend(a[1..], b);
    }
  }

  /** No scrolled row is processed twice or lost: the rows handed to
      `process` plus those still pending equal the rows scrolled into view
      (plus what was pending at the start); once the loop has stopped,
      nothing is pending. */
  lemma {:induction false} TrackAllProcessesEveryScrolledRow(s: Settings, t: Tracker, caps: seq<Capture>)
    requires CanRun(s, t, caps)
    ensures var p := TrackAll(s, t, caps);
      Fed(p.cmds) + (if p.more then p.tracker.totalmove else 0) == t.totalmove + Scrolled(t.firstimage, caps)
    decreases |caps|
  {
    if |caps| > 0 {
      var d := Track(s, t, caps[0]);
      if d.more {
        TrackAllProcessesEveryScrolledRow(s, d.tracker, caps[1..]);
        FedAppend(Commands(d.cmd), TrackAll(s, d.tracker, caps[1..]).cmds);
      }
    }
  }

  /** Nothing after end of stream is read: captures following it change no
      decision. */
  lemma {:induction false} TrackAllStopsAtEndOfStream(s: Settings, t: Tracker, caps: seq<Capture>, rest: seq<Capture>)
    requires CanRun(s, t, caps)
    requires !TrackAll(s, t, caps).more
    ensures CanRun(s, t, caps + rest)
    ensures TrackAll(s, t, caps + rest) == TrackAll(s, t, caps)
    decreases |caps|
  {
    var all := caps + rest;
    assert all[0] == caps[0];
    var d := Track(s, t, caps[0]);
    if d.more {
      assert all[1..] == caps[1..] + rest;
      TrackAllStopsAtEndOfStream(s, d.tracker, caps[1..], rest);
    }
  }

  // ---------------------------------------------------------------------
  // Carrying out the commands on the canvas

  /** `process` the command's span, then flush if it says so. */
  function Perform(s: Settings, c: Canvas, cmd: Command): (r: Canvas)
    requires s.Valid() && c.Valid() && cmd.Fits()
    ensures r.Valid() && r.height == c.height && r.width == c.width
    ensures r.FirstIndex() == c.FirstIndex()
    ensures cmd.flush ==> r.curloc == 0 && |r.pages| > |c.pages|
  {
    var p := Process(s, c, cmd.frame, cmd.begin, cmd.end);
    if cmd.flush then ClearPage(p) else p
  }

  /** Carry out the commands in order. */
  function PerformAll(s: Settings, c: Canvas, cmds: seq<Command>): (r: Canvas)
    requires s.Valid() && c.Valid() && AllCommandsFit(cmds)
    ensures r.Valid() && r.height == c.height && r.width == c.width
    ensures r.FirstIndex() == c.FirstIndex()
    ensures |cmds| > 0 && cmds[|cmds| - 1].flush ==> r.curloc == 0
    decreases |cmds|
  {
    if |cmds| == 0 then c
    else PerformAll(s, Perform(s, c, cmds[0]), cmds[1..])
  }

  // ---------------------------------------------------------------------
  // The loader: tracker and canvas together

  /** The loader state: the tracker and the output canvas. */
  datatype Loader = Loader(tracker: Tracker, out: Canvas)
  {
    predicate Valid()
    {
      out.Valid()
    }
  }

  /** The loader after a step or a run, and whether the loop goes on. */
  datatype Outcome = Outcome(loader: Loader, more: bool)

  /** A loader before the first frame. */
  function Start(out: Canvas): (l: Loader)
    requires out.Valid()
    ensures l.Valid() && l.tracker.firstimage && l.tracker.totalmove == 0
    ensures l.tracker.lastframe == []
    ensures l.out == out
  {
    Loader(Fresh, out)
  }

  /** One iteration of the loop: decide, then carry out the decision. */
  function Step(s: Settings, l: Loader, cap: Capture): (r: Outcome)
    requires s.Valid() && l.Valid() && CanStep(s, l.tracker, cap)
    ensures r.loader.Valid() && r.loader.out.FirstIndex() == l.out.FirstIndex()
    ensures r.loader.out.height == l.out.height && r.loader.out.width == l.out.width
    ensures r.more <==> cap.Got?
    ensures !r.more ==> r.loader.out.curloc == 0
  {
    var d := Track(s, l.tracker, cap);
    Outcome(Loader(d.tracker, if d.cmd.Some? then Perform(s, l.out, d.cmd.value) else l.out), d.more)
  }

  /** What reading a frame does to the canvas: the first frame is processed
      whole; a later frame has its revealed bottom rows processed once the
      pending shift exceeds `smallestdelta`, and otherwise leaves the canvas
      and the page index alone. */
  lemma StepOnFrame(s: Settings, l: Loader, f: Frame, moved: real)
    requires s.Valid() && l.Valid() && CanStep(s, l.tracker, Got(f, moved))
    ensures var r := Step(s, l, Got(f, moved));
      var t := l.tracker;
      var m := t.totalmove + Round(moved);
      && r.more
      && (t.firstimage ==> r.loader.out == Process(s, l.out, f, 0, |f|))
      && (!t.firstimage && m > s.smallestdelta ==> r.loader.out == Process(s, l.out, f, |f| - m, |f|))
      && (!t.firstimage && m <= s.smallestdelta ==> r.loader.out == l.out)
  {
    var d := TrackFrame(s, l.tracker, f, moved);
    assert Step(s, l, Got(f, moved)).loader.out ==
      if d.cmd.Some? then Perform(s, l.out, d.cmd.value) else l.out;
  }

  /** What end of stream does to the canvas: the pending tail of the last
      frame is processed and the page is flushed once more. */
  lemma StepAtEnd(s: Settings, l: Loader)
    requires s.Valid() && l.Valid() && CanStep(s, l.tracker, EndOfStream)
    ensures var r := Step(s, l, EndOfStream);
      var t := l.tracker;
      && !r.more
      && r.loader.out == ClearPage(Process(s, l.out, t.lastframe, |t.lastframe| - t.totalmove, |t.lastframe|))
  {
    var cmd := TrackEnd(s, l.tracker);
    assert Step(s, l, EndOfStream).loader.out == Perform(s, l.out, cmd);
  }

  /** The loop over `caps`: every decision is made, then every command is
      carried out in order. */
  function Run(s: Settings, l: Loader, caps: seq<Capture>): (r: Outcome)
    requires s.Valid() && l.Valid() && CanRun(s, l.tracker, caps)
    ensures r.loader.Valid() && r.loader.out.FirstIndex() == l.out.FirstIndex()
    ensures r.loader.out.height == l.out.height && r.loader.out.width == l.out.width
    ensures r.more <==> AllFrames(caps)
    ensures !r.more ==> r.loader.out.curloc == 0
  {
    var p := TrackAll(s, l.tracker, caps);
    Outcome(Loader(p.tracker, PerformAll(s, l.out, p.cmds)), p.more)
  }

  /** `Run` is capprint's loop: one step, then, unless it reported end of
      stream, the loop over the remaining captures. */
  lemma RunIsIteratedStep(s: Settings, l: Loader, cap: Capture, tail: seq<Capture>)
    requires s.Valid() && l.Valid() && CanRun(s, l.tracker, [cap] + tail)
    ensures CanStep(s, l.tracker, cap)
    ensures var st := Step(s, l, cap);
      && (st.more ==> CanRun(s, st.loader.tracker, tail))
      && Run(s, l, [cap] + tail) == if st.more then Run(s, st.loader, tail) else Outcome(st.loader, false)
  {
    var all := [cap] + tail;
    assert all[0] == cap && all[1..] == tail;
    var d := Track(s, l.tracker, cap);
    var o := d.cmd;
    if d.more {
      var cmds := TrackAll(s, d.tracker, tail).cmds;
      if o.Some? {
        assert (Commands(o) + cmds)[0] == o.value;
        assert (Commands(o) + cmds)[1..] == cmds;
      } else {
        assert Commands(o) + cmds == cmds;
      }
    } else {
      var p := Perform(s, l.out, o.value);
      assert Commands(o)[1..] == [];
      assert PerformAll(s, l.out, Commands(o)) == PerformAll(s, p, []);
    }
  }

  /** Nothing after end of stream is read: captures following it change
      nothing. */
  lemma RunStopsAtEndOfStream(s: Settings, l: Loader, caps: seq<Capture>, rest: seq<Capture>)
    requires s.Valid() && l.Valid() && CanRun(s, l.tracker, caps)
    requires !Run(s, l, caps).more
    ensures CanRun(s, l.tracker, caps + rest)
    ensures Run(s, l, caps + rest) == Run(s, l, caps)
  {
    TrackAllStopsAtEndOfStream(s, l.tracker, caps, rest);
  }

  /** Pages come out numbered consecutively from the canvas's first index,
      so their file names follow the order in which they were emitted. */
  lemma PagesNumberedInOrder(s: Settings, l: Loader, caps: seq<Capture>)
    requires s.Valid() && l.Valid() && CanRun(s, l.tracker, caps)
    ensures var pages := Run(s, l, caps).loader.out.pages;
      forall i :: 0 <= i < |pages| ==> pages[i].index == l.out.FirstIndex() + i
  {
  }
}
