/**
  Decoded video frames and the square crop applied to each of them.

  A frame is a 3-channel raster in the decoder's blue-green-red order, held
  as a sequence of rows of pixels: `f[i][j]` is row i, column j, and every
  row has the same length, as in the decoder's rows x columns x 3 arrays.
 */
module Frames {

  /** One 8-bit colour channel. */
  newtype byte = x: int | 0 <= x < 256

  datatype Pixel = Bgr(blue: byte, green: byte, red: byte)

  /** Rows of pixels, not necessarily of one length (a stacked image). */
  type Raster = seq<seq<Pixel>>

  /** f has exactly `rows` rows, each of exactly `cols` pixels. */
  predicate IsGrid(f: Raster, rows: int, cols: int)
  {
    |f| == rows && forall i :: 0 <= i < |f| ==> |f[i]| == cols
  }

  /** The number of columns (0 for a frame without rows). */
  function Cols(f: Raster): nat
  {
    if f == [] then 0 else |f[0]|
  }

  /** A frame: a rectangular raster. */
  type Frame = f: Raster | IsGrid(f, |f|, Cols(f))

  function Min(a: nat, b: nat): nat
  {
    if a <= b then a else b
  }

  /** The side x side window of f whose top-left pixel is f[top][left]. */
  function Window(f: Raster, top: nat, left: nat, side: nat): (w: Raster)
    requires top + side <= |f|
    requires forall r :: top <= r < top + side ==> left + side <= |f[r]|
    ensures IsGrid(w, side, side)
    ensures forall i, j :: 0 <= i < side && 0 <= j < side ==> w[i][j] == f[top + i][left + j]
  {
    seq(side, i requires 0 <= i < side => f[top + i][left .. left + side])
  }

  /**
    crop_rectangle_as_square: keep the centred square whose side is the
    smaller dimension, dropping (d - side) / 2 rows or columns (rounded
    down) before it on each axis.
   */
  function CropRectangleAsSquare(f: Frame): (c: Frame)
    ensures IsGrid(c, Min(|f|, Cols(f)), Min(|f|, Cols(f)))
    ensures forall i, j :: 0 <= i < |c| && 0 <= j < |c| ==>
              c[i][j] == f[(|f| - |c|) / 2 + i][(Cols(f) - |c|) / 2 + j]
  {
    var side := Min(|f|, Cols(f));
    Window(f, (|f| - side) / 2, (Cols(f) - side) / 2, side)
  }

  /** A frame that is already square is returned unchanged. */
  lemma CropSquareIsIdentity(f: Frame)
    requires |f| == Cols(f)
    ensures CropRectangleAsSquare(f) == f
  {
    var c := CropRectangleAsSquare(f);
    forall i | 0 <= i < |f|
      ensures c[i] == f[i]
    {
      assert |c[i]| == |f[i]|;
    }
  }

  /** Cropping twice is cropping once. */
  lemma CropIsIdempotent(f: Frame)
    ensures CropRectangleAsSquare(CropRectangleAsSquare(f)) == CropRectangleAsSquare(f)
  {
    CropSquareIsIdentity(CropRectangleAsSquare(f));
  }

  /**
    resize_frame: an interpolating resize whose only contract here is the
    shape of its result, s x s.
   */
  type Resizer = r: (Frame, nat) -> Frame | forall f: Frame, s: nat :: IsGrid(r(f, s), s, s)
    witness (f: Frame, s: nat) => seq(s, _ => seq(s, _ => Bgr(0, 0, 0)))
}
