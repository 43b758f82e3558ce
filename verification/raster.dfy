/** The off-screen canvas `convertWebp` uses to turn a loaded image into the
    pixel buffer handed to the encoder: a canvas sized to the image,
    `drawImage(img, 0, 0)`, then `getImageData(0, 0, width, height)`.
    Images, canvases and pixel buffers are grids of rows. */
module Raster {
  import opened Wrappers
  import opened Bytes

  datatype Rgba = Rgba(r: byte, g: byte, b: byte, a: byte)

  /** The colour of a fresh canvas and of pixels read from outside it. */
  const TransparentBlack := Rgba(0, 0, 0, 0)

  /** A pixel grid: an image's natural size and pixels, a canvas's backing
      store, or the buffer `getImageData` returns. */
  datatype Bitmap = Bitmap(width: nat, height: nat, rows: seq<seq<Rgba>>)

  predicate Valid(b: Bitmap) {
    |b.rows| == b.height && forall y :: 0 <= y < |b.rows| ==> |b.rows[y]| == b.width
  }

  /** An image whose `onload` has fired: PNG and JPEG images always have a
      positive natural size. */
  type LoadedImage = b: Bitmap | Valid(b) && b.width > 0 && b.height > 0
    witness Bitmap(1, 1, [[TransparentBlack]])

  /** The pixel at column `x`, row `y`; transparent black outside the grid. */
  function PixelAt(b: Bitmap, x: int, y: int): Rgba {
    if 0 <= x < b.width && 0 <= y < b.height && y < |b.rows| && x < |b.rows[y]|
    then b.rows[y][x] else TransparentBlack
  }

  /** A grid of the given size whose pixel (x, y) is `f(x, y)`. */
  function Tabulate(width: nat, height: nat, f: (int, int) -> Rgba): (b: Bitmap)
    ensures Valid(b) && b.width == width && b.height == height
    ensures forall x, y :: 0 <= x < width && 0 <= y < height ==> PixelAt(b, x, y) == f(x, y)
  {
    Bitmap(width, height, seq(height, y => seq(width, x => f(x, y))))
  }

  /** `document.createElement("canvas")` with its width and height set. */
  function NewCanvas(width: nat, height: nat): (c: Bitmap)
    ensures Valid(c) && c.width == width && c.height == height
    ensures forall x, y :: PixelAt(c, x, y) == TransparentBlack
  {
    Tabulate(width, height, (x, y) => TransparentBlack)
  }

  /** `ctx.drawImage(img, dx, dy)` onto a transparent canvas. Default
      source-over compositing of an image over transparent black leaves the
      image's own pixel, so each covered canvas pixel becomes the image's
      pixel; the rest of the canvas stays transparent. Over non-transparent
      pixels source-over would blend, which this function does not model. */
  function DrawImage(canvas: Bitmap, img: Bitmap, dx: int, dy: int): (c: Bitmap)
    requires Valid(canvas) && Valid(img)
    requires forall x, y :: PixelAt(canvas, x, y) == TransparentBlack
    ensures Valid(c) && c.width == canvas.width && c.height == canvas.height
    ensures forall x, y :: 0 <= x < c.width && 0 <= y < c.height ==>
              PixelAt(c, x, y) ==
                (if 0 <= x - dx < img.width && 0 <= y - dy < img.height
                 then PixelAt(img, x - dx, y - dy) else PixelAt(canvas, x, y))
  {
    Tabulate(canvas.width, canvas.height,
             (x, y) => if 0 <= x - dx < img.width && 0 <= y - dy < img.height
                       then PixelAt(img, x - dx, y - dy) else PixelAt(canvas, x, y))
  }

  function Abs(n: int): nat {
    if n < 0 then -n else n
  }

  /** `ctx.getImageData(sx, sy, sw, sh)`: the `|sw|` by `|sh|` rectangle with
      a corner at (`sx`, `sy`), extending left of or above it when `sw` or
      `sh` is negative; pixels outside the canvas read as transparent black.
      A zero width or height throws, modelled as None. */
  function GetImageData(canvas: Bitmap, sx: int, sy: int, sw: int, sh: int): (r: Option<Bitmap>)
    requires Valid(canvas)
    ensures r.None? <==> sw == 0 || sh == 0
    ensures r.Some? ==> Valid(r.value) && r.value.width == Abs(sw) && r.value.height == Abs(sh)
    ensures r.Some? ==>
              forall x, y :: 0 <= x < Abs(sw) && 0 <= y < Abs(sh) ==>
                PixelAt(r.value, x, y) ==
                  PixelAt(canvas, (if sw < 0 then sx + sw else sx) + x,
                                  (if sh < 0 then sy + sh else sy) + y)
  {
    if sw == 0 || sh == 0 then None
    else
      var left := if sw < 0 then sx + sw else sx;
      var top := if sh < 0 then sy + sh else sy;
      Some(Tabulate(Abs(sw), Abs(sh), (x, y) => PixelAt(canvas, left + x, top + y)))
  }

  /** The rasterisation steps of `convertWebp`: a fresh canvas of the
      image's size, the image drawn at the origin, and the rectangle from
      the origin of the image's size read back. */
  function Rasterize(img: LoadedImage): Option<Bitmap> {
    var canvas := DrawImage(NewCanvas(img.width, img.height), img, 0, 0);
    GetImageData(canvas, 0, 0, img.width, img.height)
  }

  /** The encoder is handed the whole image, unchanged: same width, same
      height, and every pixel in place. */
  lemma RasterizeIsWholeImage(img: LoadedImage)
    ensures Rasterize(img) == Some(img)
  {
    var canvas := DrawImage(NewCanvas(img.width, img.height), img, 0, 0);
    var r := GetImageData(canvas, 0, 0, img.width, img.height).value;
    forall y | 0 <= y < img.height
      ensures r.rows[y] == img.rows[y]
    {
      forall x | 0 <= x < img.width
        ensures r.rows[y][x] == img.rows[y][x]
      {
        assert PixelAt(r, x, y) == PixelAt(canvas, x, y);
      }
    }
    assert r.rows == img.rows;
  }
}
