/** Rasters as the page-segmentation core sees them: 3-channel 8-bit pixels
    in the raster's native channel order, rows of pixels, frames of rows. */
module Pixels {

  /** One 8-bit colour channel. */
  type Byte = x: int | 0 <= x < 256

  /** A pixel in native order: `c0` is blue, `c1` green, `c2` red. */
  datatype Pixel = Pixel(c0: Byte, c1: Byte, c2: Byte)

  type Row = seq<Pixel>

  /** An already-cropped frame, top row first. */
  type Frame = seq<Row>

  /** The padding colour a page flush writes. */
  const White: Pixel := Pixel(255, 255, 255)

  /** Every row of `rows` is exactly `width` pixels wide. */
  predicate HasWidth(rows: seq<Row>, width: int)
  {
    forall i :: 0 <= i < |rows| ==> |rows[i]| == width
  }

  /** Every pixel of `rows` is white. */
  predicate AllWhite(rows: seq<Row>)
  {
    forall i, j :: 0 <= i < |rows| && 0 <= j < |rows[i]| ==> rows[i][j] == White
  }

  /** A white row of `width` pixels. */
  function WhiteRow(width: nat): (row: Row)
    ensures |row| == width
    ensures forall j :: 0 <= j < width ==> row[j] == White
  {
    if width == 0 then [] else WhiteRow(width - 1) + [White]
  }

  /** `n` white rows of `width` pixels. */
  function Blank(n: nat, width: nat): (rows: seq<Row>)
    ensures |rows| == n
    ensures HasWidth(rows, width) && AllWhite(rows)
  {
    if n == 0 then [] else Blank(n - 1, width) + [WhiteRow(width)]
  }
}
