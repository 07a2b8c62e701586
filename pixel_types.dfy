/**
 * Shared data model of the pixel-art converter: the decoded RGBA raster the
 * pipeline reads, the sprite (`PixelData`) it produces, and the row-major index
 * arithmetic both of them use.
 */
module PixelTypes {

  /** One channel of an RGBA buffer (a Uint8ClampedArray element). */
  type Byte = b: int | 0 <= b < 256

  /** The RGB part of one raster pixel, as read by the grid estimator. */
  datatype Rgb = Rgb(r: Byte, g: Byte, b: Byte)

  /**
   * A decoded raster: width and height in pixels and a flat, row-major,
   * top-left-origin buffer holding four bytes (R, G, B, A) per pixel.
   */
  datatype Raster = Raster(width: int, height: int, data: seq<Byte>) {
    predicate Valid() {
      width > 0 && height > 0 && |data| == 4 * (width * height)
    }
  }

  /** One sprite cell: an opaque colour, or the `transparent` sentinel. */
  datatype Cell = Opaque(r: Byte, g: Byte, b: Byte) | Transparent

  /**
   * A sprite: width and height in cells and the cells in row-major order.
   * The sampler may report a width or height <= 0, with no cells.
   */
  datatype PixelData = PixelData(width: int, height: int, pixels: seq<Cell>)

  /** The sprite that stands for "no content". */
  const Empty := PixelData(0, 0, [])

  /** Number of cells of a `w` x `h` grid; a grid with a side <= 0 has none. */
  function Area(w: int, h: int): (n: nat)
    ensures n > 0 <==> w > 0 && h > 0
    ensures w > 0 && h > 0 ==> n == w * h
  {
    if w > 0 && h > 0 then
      assert w * h >= w by { MulMonotone(1, h, w); }
      w * h
    else 0
  }

  /** A sprite whose cell list has exactly one entry per grid position. */
  predicate WellFormed(s: PixelData) {
    |s.pixels| == Area(s.width, s.height)
  }

  lemma MulMonotone(a: int, b: int, w: int)
    requires a <= b && w >= 0
    ensures a * w <= b * w
  {
    assert b * w - a * w == (b - a) * w;
  }

  /** Row-major position `y * w + x` decomposes back into its row and column. */
  lemma RowMajor(x: int, y: int, w: int)
    requires 0 <= x < w && 0 <= y
    ensures (y * w + x) / w == y && (y * w + x) % w == x
  {
    var i := y * w + x;
    var q, r := i / w, i % w;
    assert i == q * w + r;
    if q < y {
      assert (q + 1) * w == q * w + w;
      MulMonotone(q + 1, y, w);
      assert false;
    } else if q > y {
      assert (y + 1) * w == y * w + w;
      MulMonotone(y + 1, q, w);
      assert false;
    }
  }

  /** Row-major position of a cell inside a `w` x `h` grid is a valid index. */
  lemma RowMajorBound(x: int, y: int, w: int, h: int)
    requires 0 <= x < w && 0 <= y < h
    ensures 0 <= y * w + x < w * h
  {
    MulMonotone(0, y, w);
    MulMonotone(y + 1, h, w);
    assert (y + 1) * w == y * w + w;
  }

  /** Row-major index `i` of a grid of width `w` lies at column `i % w`, row `i / w`, inside the grid. */
  lemma IndexToCell(i: int, w: int, h: int)
    requires w > 0 && h > 0 && 0 <= i < w * h
    ensures 0 <= i % w < w && 0 <= i / w < h && (i / w) * w + i % w == i
  {
    if i / w >= h {
      MulMonotone(h, i / w, w);
      assert false;
    }
  }

  /** Index of the first (red) byte of pixel (x, y): `(y * width + x) * 4`. */
  function PixelOffset(img: Raster, x: int, y: int): (idx: int)
    requires img.Valid() && 0 <= x < img.width && 0 <= y < img.height
    ensures 0 <= idx && idx + 3 < |img.data|
    ensures idx % 4 == 0 && idx / 4 == y * img.width + x
  {
    RowMajorBound(x, y, img.width, img.height);
    (y * img.width + x) * 4
  }

  /** The RGB triple of pixel (x, y) (the source's `getPixel`). */
  function GetPixel(img: Raster, x: int, y: int): Rgb
    requires img.Valid() && 0 <= x < img.width && 0 <= y < img.height
  {
    var idx := PixelOffset(img, x, y);
    Rgb(img.data[idx], img.data[idx + 1], img.data[idx + 2])
  }

  /** The alpha byte of pixel (x, y). */
  function Alpha(img: Raster, x: int, y: int): Byte
    requires img.Valid() && 0 <= x < img.width && 0 <= y < img.height
  {
    img.data[PixelOffset(img, x, y) + 3]
  }
}
