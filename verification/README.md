# capprint page segmentation, modelled in Dafny

capprint turns a screen recording of a document being scrolled into numbered
page images. This project models its core, the integer and pixel logic
between "a cropped frame arrived" and "a page image was written":

- **The page canvas** (`ImageOutputer`, module `PageCanvas` in `canvas.dfy`).
  It is a buffer `pageheight` rows tall with a write cursor `curloc` and a page
  counter `curindex`.
  - `PutImage` appends a vertical slice of a frame. When the slice does not fit,
    it flushes first and then keeps only the prefix that fits (the "cut").
  - `ClearPage` pads the unwritten rows with white, emits the page under the
    current index, advances the index and resets the cursor.
  - Emitted pages are kept as a log of `(index, rows)` in place of the image
    files.
- **The band detector** (`detectnewpage`, module `BandDetector` in `band.dfy`).
  It searches brute force for the top-most row at which a `bgwidth`-tall strip
  matches the background colour within `bgcolorerror` on every channel,
  ignoring `edgeignore` columns on each side.
  - `FirstBand` is the recursive specification.
  - `DetectNewPage` is capprint's triple loop, proved to compute it.
- **The frame step** (`processoenframe` and `process`, module `FrameLoop` in
  `loop.dfy`).
  - `Process` splits a span around the first band found: the rows above it,
    a flush, then the rows below it.
  - The step's decisions depend only on `firstimgae`, `totalmove` and the last
    frame, never on the canvas. So the model separates:
    - a *tracker*, which turns each capture into at most one command
      "process this span, and flush if it is the end";
    - `Perform`, which carries a command out on the canvas.
  - `Step` is one iteration of `processoenframe`: decide, then perform.
  - `Run` is every decision over a list of captures, followed by every command
    in order. `RunIsIteratedStep` proves that this equals capprint's
    `while (processoenframe())` loop.

`pixels.dfy` (module `Pixels`) holds the shared raster types. A pixel keeps
OpenCV's native channel order: `c0` is blue, `c1` green, `c2` red. The
background colour is configured as red, green and blue and compared against
channels 2, 1 and 0.

Arithmetic is over unbounded integers and exact reals. The correlation's
shift estimate is an input (`moved`). It is rounded as capprint does: add or
subtract one half, then convert with C's truncation toward zero.

The cases capprint does not guard are preconditions. These are a slice with
`begin > end` or `begin < 0`, and an accumulated shift that reaches past the
frame. No behaviour is invented for them.
- `CanStep` says when a step stays in bounds.
- `CanRun` says when every step up to end of stream does.

## Model

| member | source | states |
|---|---|---|
| Pixels.Blank | capprint.cpp:54-57 | the padding is exactly `n` rows, each `width` pixels wide, and every pixel is white (255,255,255) |
| PageCanvas.NewCanvas | capprint.cpp:21-29 | a fresh canvas is `height` rows tall and `width` wide, with `initial` as its buffer. It has nothing written, the whole page free and no page emitted, and its next page index is `firstindex` |
| PageCanvas.ClearPage | capprint.cpp:52-66 | the emitted page starts with the rows written since the last flush and is white below them, each padding row `width` pixels wide. It is full height and tagged with the old `curindex`. Afterwards `curindex` is one larger, `curloc` is 0, earlier pages are untouched, and the buffer holds the emitted page |
| PageCanvas.Paste | capprint.cpp:42-49 | copying `n` rows puts exactly those frame rows after the written ones, advances `curloc` by `n` and leaves every other row and the page log alone |
| PageCanvas.PutImage | capprint.cpp:31-50 | an empty slice changes nothing. A slice that fits is appended verbatim with no flush, `curloc` grows by its height and the rows below are unchanged. A slice that does not fit causes exactly one flush, after which `curloc == min(end-begin, pageheight)` and only that prefix of the slice is on the canvas. The cursor always stays within the page |
| PageCanvas.PutImageOnEmptyPage | capprint.cpp:36-49 | on a page with nothing written, an append writes the longest prefix of the slice that fits, `min(end-begin, pageheight)` rows, and keeps every page already emitted. Only a slice taller than the page flushes, and the page that flush emits is all white |
| PageCanvas.FlushIsFullWidth | capprint.cpp:54-62 | when every written row is the page width, the page a flush emits is the full `pageheight` by `pagewidth` image |
| PageCanvas.PutImageKeepsWidth | capprint.cpp:42-48 | appending rows of a frame as wide as the page keeps every written row the page width, whether the slice fits or is cut after a flush |
| PageCanvas.PutImagePagesFullWidth | capprint.cpp:31-50 | appending rows of a page-wide frame emits only pages whose rows are all the page width |
| PageCanvas.AppendAllFits | capprint.cpp:31-50 | a run of appends whose total height fits in the room left emits no page and leaves the canvas holding the slices stacked in order |
| PageCanvas.FittingSlicesMakeOnePage | capprint.cpp:31-66 | from an empty page, slices that fit followed by a flush emit one page under the canvas's index: the slices in order, then white rows of the page width |
| PageCanvas.EmptyFlushIsBlank | capprint.cpp:52-66 | flushing a canvas with nothing written emits an all-white page whose rows are the page width |
| BandDetector.FirstBand | capprint.cpp:184-213 | the search answers -1 or a row `h` with `begin <= h <= end - bgwidth` |
| BandDetector.FirstBandIsTopmost | capprint.cpp:184-213 | a row found is a band and no earlier row in range is one. The answer is -1 exactly when no row in `begin..end-bgwidth` starts a band |
| BandDetector.DetectNewPage | capprint.cpp:184-213 | the nested scan with early exit on the first mismatching channel returns exactly the top-most band row, or -1 |
| FrameLoop.Round | capprint.cpp:144 | the result is within one half of the estimate, and ties go away from zero on both sides |
| FrameLoop.RoundIsOdd | capprint.cpp:144 | rounding `-x` gives minus the rounding of `x` |
| FrameLoop.RoundHalvesAwayFromZero | capprint.cpp:144 | 4.5 rounds to 5, -4.5 to -5, 2.5 to 3 and -2.5 to -3 |
| FrameLoop.Process | capprint.cpp:167-182 | processing keeps the canvas well formed, with the same geometry and first page index |
| FrameLoop.ProcessWithoutBand | capprint.cpp:171-175 | without a band the span is one append. When it fits, no page is emitted and the canvas gains exactly the span's rows. When it does not, exactly the flush of the current page is emitted and the canvas holds the prefix of the span that fits |
| FrameLoop.BreakPage | capprint.cpp:176-181 | with a band at `h`, the canvas is left holding exactly the rows from `h + bgwidth` on, as many as fit on a page, so no band row is written. That `begin <= h` and `h + bgwidth <= end` is `FirstBand`'s contract |
| FrameLoop.BreakPagePages | capprint.cpp:176-181 | the pages emitted while appending the rows above the band are kept. The next page holds exactly the rows written since the last flush, padded with white rows of the page width, under the next index. When the rows below the band are taller than a page, one more page follows and it is blank. Otherwise nothing follows |
| FrameLoop.ProcessWithBand | capprint.cpp:167-182 | with a band at `h`, the first row `FirstBand` finds, processing keeps every page the rows above it emitted, emits their break page, and adds a blank page only when the rows below the band overflow a page. The canvas then holds the rows below the band that fit |
| FrameLoop.BreakPageKeepsWidth | capprint.cpp:176-181 | a band break over a page-wide frame keeps every written row the page width and emits only full-width pages |
| FrameLoop.ProcessKeepsWidth | capprint.cpp:167-182 | processing a span of a frame as wide as the page keeps every written row the page width, and every page it emits is the full page width |
| FrameLoop.ProcessAtBandKeepsWidth | capprint.cpp:176-181 | the band case of `ProcessKeepsWidth`: with a band at the row `FirstBand` finds, processing a page-wide frame keeps every written row the page width and emits only full-width pages |
| FrameLoop.ProcessPageCount | capprint.cpp:167-182 | a span emits at most one page without a band, and between one and three with a band |
| FrameLoop.TrackFrame | capprint.cpp:136-155 | The first frame is processed as `[0, rows)`. A later frame adds its rounded shift to `totalmove`, and only when that exceeds `smallestdelta` is `[rows - totalmove, rows)` processed and the total reset to 0. Every row scrolled into view is either in the processed span or still pending |
| FrameLoop.TrackEnd | capprint.cpp:157-160 | end of stream processes `[lastrows - totalmove, lastrows)` of the last frame, exactly the pending rows, then flushes |
| FrameLoop.Track | capprint.cpp:128-164 | the step reports true exactly when a frame was read. Only the end-of-stream step flushes, and it always does |
| FrameLoop.TrackAll | capprint.cpp:238 | every processed span lies inside its frame. The loop goes on exactly when no end of stream was met, and when it stops the last command flushes |
| FrameLoop.TrackAllProcessesEveryScrolledRow | capprint.cpp:136-160 | over any run, the rows handed to `process` plus those still pending equal the rows scrolled into view. After end of stream nothing is pending |
| FrameLoop.TrackAllStopsAtEndOfStream | capprint.cpp:157-164 | captures after the first end of stream change no decision |
| FrameLoop.Perform | capprint.cpp:159-160 | a flushing command leaves the cursor at 0 and emits at least one page |
| FrameLoop.PerformAll | capprint.cpp:238 | a list of commands ending with a flush leaves the canvas empty, with the geometry and first page index kept |
| FrameLoop.Start | capprint.cpp:96-117 | the loader starts expecting its first frame with nothing accumulated, and its last frame is empty, so an end of stream before any frame processes the empty span `[0, 0)` |
| FrameLoop.Step | capprint.cpp:122-165 | the step returns true exactly when a frame was read, and after end of stream the canvas is empty |
| FrameLoop.StepOnFrame | capprint.cpp:136-151 | the first frame is processed whole. A later frame processes its revealed bottom rows once the total exceeds `smallestdelta`, and otherwise leaves the canvas and the page index untouched |
| FrameLoop.StepAtEnd | capprint.cpp:157-162 | end of stream processes the pending tail of the last frame, then performs exactly one more flush, and reports false |
| FrameLoop.Run | capprint.cpp:238 | the loop goes on exactly while every capture is a frame, and once it has stopped the canvas is empty. The canvas keeps its height, width and first page index |
| FrameLoop.RunIsIteratedStep | capprint.cpp:238 | running over `[cap] + tail` is one step followed, unless it reported end of stream, by the run over `tail` |
| FrameLoop.RunStopsAtEndOfStream | capprint.cpp:162 | captures after end of stream change neither the pages nor the state |
| FrameLoop.PagesNumberedInOrder | capprint.cpp:60-64 | pages come out numbered consecutively from the first index, in the order emitted |

## Left out

- Video input and conversion (`cap.read`, the ROI crop, `cvtColor`, `convertTo`, capprint.cpp:128-134): a capture is an already-cropped pixel grid.
- `cv::phaseCorrelate` (capprint.cpp:143): floating-point correlation in an external library. Its estimate is the `moved` parameter.
- `imwrite`, the `sprintf` file name and every `printf` (capprint.cpp:39, 60-63, 126, 169): I/O. A flush appends `(curindex, page)` to the canvas's page log. The `process` calls are recorded as the tracker's commands.
- The `curframe` counter (capprint.cpp:126): it only feeds a log line.
- Settings parsing and `main` (capprint.cpp:21-29, 73-99, 217-243): geometry and thresholds are parameters. The model requires `pageheight >= 1`, `bgwidth >= 1` and `edgeignore >= 0`. The page width is the canvas's `width`, and frames are not required to match it (see "Frames of another width" below).
- The uninitialised buffer a fresh `cv::Mat` holds: `NewCanvas` takes its initial contents as a parameter. No lemma depends on them.
- The `getchar()` pause (capprint.cpp:240): interaction only.
- Floating-point rounding of `moved + 0.5` (capprint.cpp:144): the program adds one half in `double`, and that sum is rounded before the truncating cast. For example, `0.49999999999999994 + 0.5` is `1.0`, so the program gives 1 where `Round` gives 0. `Round` works over exact reals.
- 32-bit `int` overflow of `totalmove`, `curindex` and the slice arithmetic, and the undefined behaviour of converting an out-of-range `double` to `int`: integers are unbounded.
- The frame's column count: `DetectNewPage` takes `cols` as a parameter. The loop passes the page width, which the settings make equal to the frame width.
- Ragged frames: a `Frame` is a sequence of rows that the type does not force to equal width. `BandAt` compares only pixels that exist, which for a rectangular frame is every column outside the edges. `DetectNewPage` requires every row to be `cols` wide, as `img.at` assumes.
- FrameLoop.Process: its own contract states only well-formedness. The split around a band is stated by `ProcessWithoutBand`, `ProcessWithBand` and `ProcessPageCount`, and the page width of its output by `ProcessKeepsWidth`.
- Frames of another width: capprint copies exactly `pagewidth` columns of each frame row (capprint.cpp:45), and its settings make the frame width equal to the page width (capprint.cpp:24, 86-93). The model's `Paste` copies whole frame rows and no precondition ties a frame's width to the page's. A frame of another width is accepted and its rows are written at their own width, where capprint would copy `pagewidth` columns or fail OpenCV's bounds check. For page-wide frames, `ProcessKeepsWidth` proves that every written row and every emitted page is the page width.
- Narrow frames: as written, a frame with `2 * edgeignore >= cols` has no column to compare, so every candidate row counts as a band. The model keeps this.
