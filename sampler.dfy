/**
 * The cell sampler (`extractPixelArt`): lay a grid of `g` x `g` blocks over the
 * raster, shifted by an integer offset, and read one pixel at the centre of
 * every whole block.
 */
module Sampler {
  import opened PixelTypes

  /** Whole blocks along one axis: `floor((extent - offset) / g)`; may be <= 0. */
  function BlockCount(extent: int, offset: int, g: int): int
    requires g >= 1
  {
    (extent - offset) / g
  }

  /** Coordinate of the centre of block `c` along one axis: `floor(offset + c * g + g / 2)`. */
  function SampleCoord(offset: int, c: int, g: int): int
    requires g >= 1
  {
    offset + c * g + g / 2
  }

  /** The cell for an RGBA pixel (the source's `toHex`): alpha 0 is transparent, otherwise alpha is dropped. */
  function ToCell(p: Rgb, a: Byte): (c: Cell)
    ensures c == Transparent <==> a == 0
    ensures c != Transparent ==> c == Opaque(p.r, p.g, p.b)
  {
    if a == 0 then Transparent else Opaque(p.r, p.g, p.b)
  }

  /** The cell sampled for block (`cx`, `cy`). */
  function SampleCell(img: Raster, g: int, ox: int, oy: int, cx: int, cy: int): Cell
    requires img.Valid() && g >= 1
  {
    var sx := SampleCoord(ox, cx, g);
    var sy := SampleCoord(oy, cy, g);
    if sx < 0 || sx >= img.width || sy < 0 || sy >= img.height then Transparent
    else ToCell(GetPixel(img, sx, sy), Alpha(img, sx, sy))
  }

  /** The sprite `extractPixelArt` returns. */
  function Extracted(img: Raster, g: int, ox: int, oy: int): PixelData
    requires img.Valid() && g >= 1
  {
    var cols := BlockCount(img.width, ox, g);
    var rows := BlockCount(img.height, oy, g);
    PixelData(cols, rows, seq(Area(cols, rows), i requires 0 <= i < Area(cols, rows) =>
      SampleCell(img, g, ox, oy, i % cols, i / cols)))
  }

  /** `extractPixelArt`: push one sampled cell per block, row by row. */
  method ExtractPixelArt(img: Raster, g: int, ox: int, oy: int) returns (pd: PixelData)
    requires img.Valid() && g >= 1
    ensures pd == Extracted(img, g, ox, oy)
  {
    var cols := BlockCount(img.width, ox, g);
    var rows := BlockCount(img.height, oy, g);
    var pixels: seq<Cell> := [];
    var y := 0;
    while y < rows
      invariant 0 <= y && (rows <= 0 ==> y == 0) && (rows > 0 ==> y <= rows)
      invariant |pixels| == Area(cols, y)
      invariant forall i :: 0 <= i < |pixels| ==> pixels[i] == SampleCell(img, g, ox, oy, i % cols, i / cols)
    {
      var x := 0;
      while x < cols
        invariant 0 <= x && (cols <= 0 ==> x == 0) && (cols > 0 ==> x <= cols)
        invariant |pixels| == Area(cols, y) + x
        invariant forall i :: 0 <= i < |pixels| ==> pixels[i] == SampleCell(img, g, ox, oy, i % cols, i / cols)
      {
        RowMajor(x, y, cols);
        pixels := pixels + [SampleCell(img, g, ox, oy, x, y)];
        x := x + 1;
      }
      assert Area(cols, y + 1) == Area(cols, y) + x by {
        if cols > 0 {
          assert cols * (y + 1) == cols * y + cols;
        }
      }
      y := y + 1;
    }
    pd := PixelData(cols, rows, pixels);
  }

  // ---------------------------------------------------------------------------
  // Properties

  /**
   * The sprite is `floor((W - ox) / g)` by `floor((H - oy) / g)` cells, holds
   * one cell per position, and cell (x, y) sits at row-major index
   * `y * cols + x` and comes from the centre of block (x, y): transparent when
   * that point is off the raster or has alpha 0, its RGB otherwise.
   */
  lemma ExtractedCell(img: Raster, g: int, ox: int, oy: int, cx: int, cy: int)
    requires img.Valid() && g >= 1
    requires 0 <= cx < (img.width - ox) / g && 0 <= cy < (img.height - oy) / g
    ensures var s := Extracted(img, g, ox, oy);
      && s.width == (img.width - ox) / g && s.height == (img.height - oy) / g
      && WellFormed(s)
      && 0 <= cy * s.width + cx < |s.pixels|
      && var sx, sy := ox + cx * g + g / 2, oy + cy * g + g / 2;
      && (s.pixels[cy * s.width + cx] == Transparent <==>
            sx < 0 || sx >= img.width || sy < 0 || sy >= img.height || Alpha(img, sx, sy) == 0)
      && (s.pixels[cy * s.width + cx] != Transparent ==>
            var p := GetPixel(img, sx, sy); s.pixels[cy * s.width + cx] == Opaque(p.r, p.g, p.b))
  {
    var s := Extracted(img, g, ox, oy);
    RowMajorBound(cx, cy, s.width, s.height);
    RowMajor(cx, cy, s.width);
  }

  /**
   * For every raster, grid size and offset the sprite is `floor((W - ox) / g)`
   * by `floor((H - oy) / g)` cells and well formed; when either count is not
   * positive it holds no cells at all.
   */
  lemma ExtractedShape(img: Raster, g: int, ox: int, oy: int)
    requires img.Valid() && g >= 1
    ensures var s := Extracted(img, g, ox, oy);
      && s.width == (img.width - ox) / g && s.height == (img.height - oy) / g
      && WellFormed(s)
      && (s.width <= 0 || s.height <= 0 ==> s.pixels == [])
      && (s.width > 0 && s.height > 0 ==> |s.pixels| == s.width * s.height)
  {
  }

  /** The centre of a whole block, counted from 0, lies inside the extent. */
  lemma CentreInside(extent: int, g: int, c: int)
    requires g >= 1 && extent > 0 && 0 <= c < extent / g
    ensures 0 <= c * g + g / 2 < extent
  {
    var q := extent / g;
    assert extent == q * g + extent % g;
    MulMonotone(0, c, g);
    MulMonotone(c + 1, q, g);
    assert (c + 1) * g == c * g + g;
  }

  /** With offset (0, 0) every sample point is on the raster, so a cell is transparent exactly when its alpha is 0. */
  lemma ZeroOffsetInBounds(img: Raster, g: int, cx: int, cy: int)
    requires img.Valid() && g >= 1
    requires 0 <= cx < img.width / g && 0 <= cy < img.height / g
    ensures 0 <= SampleCoord(0, cx, g) < img.width && 0 <= SampleCoord(0, cy, g) < img.height
    ensures SampleCell(img, g, 0, 0, cx, cy) == Transparent <==>
      Alpha(img, SampleCoord(0, cx, g), SampleCoord(0, cy, g)) == 0
  {
    CentreInside(img.width, g, cx);
    CentreInside(img.height, g, cy);
  }

  // ---------------------------------------------------------------------------
  // Round trip with a block rendering of a sprite

  /** Channel `c` of a cell drawn as an RGBA pixel: opaque cells get alpha 255, transparent ones are all zero. */
  function CellChannel(cell: Cell, c: int): Byte
  {
    match cell
    case Transparent => 0
    case Opaque(r, gr, b) => if c == 0 then r else if c == 1 then gr else if c == 2 then b else 255
  }

  /** Index of the cell of `s` that covers pixel `p` when every cell is drawn as a `g` x `g` block. */
  function CoveringCell(s: PixelData, g: int, p: int): (k: int)
    requires WellFormed(s) && s.width > 0 && s.height > 0 && g >= 1
    requires 0 <= p < (s.width * g) * (s.height * g)
    ensures 0 <= k < |s.pixels|
  {
    var w, h := s.width * g, s.height * g;
    IndexToCell(p, w, h);
    var px, py := p % w, p / w;
    CellOfBlock(px, s.width, g);
    CellOfBlock(py, s.height, g);
    RowMajorBound(px / g, py / g, s.width, s.height);
    (py / g) * s.width + px / g
  }

  lemma CellOfBlock(p: int, n: int, g: int)
    requires g >= 1 && n > 0 && 0 <= p < n * g
    ensures 0 <= p / g < n
  {
  }

  /**
   * The raster obtained by drawing every cell of `s` as a `g` x `g` block, as
   * the converter's preview places its blocks. Unlike the preview, which uses
   * the scale `max(1, floor(500 / max(w, h)))` and shows a checkerboard under
   * transparent cells, the scale here is `g` and a transparent cell is written
   * as RGBA (0, 0, 0, 0); the round trip below relies on that zero alpha.
   */
  function Upscale(s: PixelData, g: int): (img: Raster)
    requires WellFormed(s) && s.width > 0 && s.height > 0 && g >= 1
    ensures img.Valid() && img.width == s.width * g && img.height == s.height * g
  {
    var w, h := s.width * g, s.height * g;
    MulMonotone(1, g, s.width);
    MulMonotone(1, g, s.height);
    Raster(w, h, seq(4 * (w * h), i requires 0 <= i < 4 * (w * h) =>
      CellChannel(s.pixels[CoveringCell(s, g, i / 4)], i % 4)))
  }

  lemma DivExact(a: int, g: int)
    requires a >= 0 && g >= 1
    ensures (a * g) / g == a
  {
    RowMajor(0, a, g);
  }

  /** Sampling the centre of block (cx, cy) of an upscaled sprite reads back cell (cx, cy). */
  lemma UpscaleSample(s: PixelData, g: int, cx: int, cy: int)
    requires WellFormed(s) && s.width > 0 && s.height > 0 && g >= 1
    requires 0 <= cx < s.width && 0 <= cy < s.height
    ensures 0 <= cy * s.width + cx < |s.pixels|
    ensures SampleCell(Upscale(s, g), g, 0, 0, cx, cy) == s.pixels[cy * s.width + cx]
  {
    var img := Upscale(s, g);
    var w := img.width;
    RowMajorBound(cx, cy, s.width, s.height);
    DivExact(s.width, g);
    DivExact(s.height, g);
    ZeroOffsetInBounds(img, g, cx, cy);
    var sx, sy := SampleCoord(0, cx, g), SampleCoord(0, cy, g);
    var p := sy * w + sx;
    var idx := PixelOffset(img, sx, sy);
    RowMajor(sx, sy, w);
    RowMajor(g / 2, cx, g);
    RowMajor(g / 2, cy, g);
    assert CoveringCell(s, g, p) == cy * s.width + cx;
    RowMajor(0, p, 4);
    RowMajor(1, p, 4);
    RowMajor(2, p, 4);
    RowMajor(3, p, 4);
  }

  /**
   * A sprite drawn as `g` x `g` blocks and sampled again with block size `g`
   * and offset (0, 0) comes back unchanged: centre sampling reproduces a
   * raster of uniform blocks exactly.
   */
  lemma UpscaleRoundTrip(s: PixelData, g: int)
    requires WellFormed(s) && s.width > 0 && s.height > 0 && g >= 1
    ensures Extracted(Upscale(s, g), g, 0, 0) == s
  {
    var e := Extracted(Upscale(s, g), g, 0, 0);
    DivExact(s.width, g);
    DivExact(s.height, g);
    assert e.width == s.width && e.height == s.height;
    forall i | 0 <= i < |s.pixels|
      ensures e.pixels[i] == s.pixels[i]
    {
      IndexToCell(i, s.width, s.height);
      UpscaleSample(s, g, i % s.width, i / s.width);
    }
  }
}
