/**
 * The content cropper (`trimToContent`): find the bounding box of the
 * non-transparent cells with one row-major scan, then copy that rectangle out.
 */
module Cropper {
  import opened PixelTypes

  /** Cell (x, y) of a well-formed sprite: `pixels[y * width + x]`. */
  function CellAt(s: PixelData, x: int, y: int): Cell
    requires WellFormed(s) && 0 <= x < s.width && 0 <= y < s.height
  {
    RowMajorBound(x, y, s.width, s.height);
    s.pixels[y * s.width + x]
  }

  /** Some cell of the sprite is not transparent. */
  predicate HasContent(s: PixelData)
  {
    exists i :: 0 <= i < |s.pixels| && s.pixels[i] != Transparent
  }

  /** The scan's running state: `minX`, `minY`, `maxX`, `maxY` and `hasContent`. */
  datatype Box = Box(minX: int, minY: int, maxX: int, maxY: int, hasContent: bool)

  /** The scan's update on meeting a non-transparent cell at (x, y). */
  function Include(b: Box, x: int, y: int): Box
  {
    Box(if x < b.minX then x else b.minX, if y < b.minY then y else b.minY,
        if x > b.maxX then x else b.maxX, if y > b.maxY then y else b.maxY, true)
  }

  /** The scan's state once it has visited the first `n` cells in row-major order. */
  function BoxAfter(s: PixelData, n: nat): Box
    requires WellFormed(s) && n <= |s.pixels|
  {
    if n == 0 then Box(s.width, s.height, 0, 0, false)
    else
      var b := BoxAfter(s, n - 1);
      if s.pixels[n - 1] != Transparent then Include(b, (n - 1) % s.width, (n - 1) / s.width) else b
  }

  /** The box at the end of the scan. */
  function ContentBox(s: PixelData): Box
    requires WellFormed(s)
  {
    BoxAfter(s, |s.pixels|)
  }

  /** `trimToContent`'s result: the empty sprite, or the cells inside the box, row-major. */
  function Trim(s: PixelData): (t: PixelData)
    requires WellFormed(s)
    ensures WellFormed(t)
  {
    var b := ContentBox(s);
    if !b.hasContent then Empty
    else
      BoxAfterSound(s, |s.pixels|);
      var nw, nh := b.maxX - b.minX + 1, b.maxY - b.minY + 1;
      PixelData(nw, nh, seq(nw * nh, i requires 0 <= i < nw * nh => BoxCell(s, b, i)))
  }

  /** Cell `i` (row-major) of the rectangle `b` cut out of `s`. */
  function BoxCell(s: PixelData, b: Box, i: int): Cell
    requires WellFormed(s) && 0 <= b.minX <= b.maxX < s.width && 0 <= b.minY <= b.maxY < s.height
    requires 0 <= i < (b.maxX - b.minX + 1) * (b.maxY - b.minY + 1)
  {
    var nw, nh := b.maxX - b.minX + 1, b.maxY - b.minY + 1;
    IndexToCell(i, nw, nh);
    CellAt(s, b.minX + i % nw, b.minY + i / nw)
  }

  // ---------------------------------------------------------------------------
  // Implementation

  /** The first loop of `trimToContent`: visit every cell row by row and grow the box around the non-transparent ones. */
  method FindBox(s: PixelData) returns (b: Box)
    requires WellFormed(s)
    ensures b == ContentBox(s)
  {
    var width, height := s.width, s.height;
    var minX, minY, maxX, maxY := width, height, 0, 0;
    var hasContent := false;
    var y := 0;
    while y < height
      invariant 0 <= y && (height <= 0 ==> y == 0) && (height > 0 ==> y <= height)
      invariant Area(width, y) <= |s.pixels|
      invariant Box(minX, minY, maxX, maxY, hasContent) == BoxAfter(s, Area(width, y))
    {
      var x := 0;
      while x < width
        invariant 0 <= x && (width <= 0 ==> x == 0) && (width > 0 ==> x <= width)
        invariant Area(width, y) + x <= |s.pixels|
        invariant Box(minX, minY, maxX, maxY, hasContent) == BoxAfter(s, Area(width, y) + x)
      {
        var idx := y * width + x;
        RowMajor(x, y, width);
        RowMajorBound(x, y, width, height);
        assert Area(width, y) + x == idx;
        if s.pixels[idx] != Transparent {
          hasContent := true;
          if x < minX { minX := x; }
          if x > maxX { maxX := x; }
          if y < minY { minY := y; }
          if y > maxY { maxY := y; }
        }
        x := x + 1;
      }
      assert Area(width, y + 1) == Area(width, y) + x by {
        if width > 0 {
          assert width * (y + 1) == width * y + width;
        }
      }
      y := y + 1;
    }
    assert Area(width, y) == |s.pixels|;
    b := Box(minX, minY, maxX, maxY, hasContent);
  }

  /** Input cell (x, y) inside box `b` is cell `(y - minY) * newWidth + (x - minX)` of the rectangle. */
  lemma BoxCellAt(s: PixelData, b: Box, x: int, y: int)
    requires WellFormed(s) && 0 <= b.minX <= b.maxX < s.width && 0 <= b.minY <= b.maxY < s.height
    requires b.minX <= x <= b.maxX && b.minY <= y <= b.maxY
    ensures var nw, nh := b.maxX - b.minX + 1, b.maxY - b.minY + 1;
      var k := (y - b.minY) * nw + (x - b.minX);
      && 0 <= k < nw * nh && 0 <= y * s.width + x < |s.pixels|
      && BoxCell(s, b, k) == s.pixels[y * s.width + x]
  {
    var nw, nh := b.maxX - b.minX + 1, b.maxY - b.minY + 1;
    var k := (y - b.minY) * nw + (x - b.minX);
    RowMajor(x - b.minX, y - b.minY, nw);
    RowMajorBound(x - b.minX, y - b.minY, nw, nh);
    RowMajorBound(x, y, s.width, s.height);
    assert k % nw == x - b.minX && k / nw == y - b.minY;
    assert BoxCell(s, b, k) == CellAt(s, x, y);
  }

  /** The second loop of `trimToContent`: copy the cells inside box `b`, row by row. */
  method CopyBox(s: PixelData, b: Box) returns (cells: seq<Cell>)
    requires WellFormed(s) && 0 <= b.minX <= b.maxX < s.width && 0 <= b.minY <= b.maxY < s.height
    ensures |cells| == (b.maxX - b.minX + 1) * (b.maxY - b.minY + 1)
    ensures forall i :: 0 <= i < |cells| ==> cells[i] == BoxCell(s, b, i)
  {
    var newWidth := b.maxX - b.minX + 1;
    var newHeight := b.maxY - b.minY + 1;
    var total := newWidth * newHeight;
    cells := [];
    var y := b.minY;
    while y <= b.maxY
      invariant b.minY <= y <= b.maxY + 1
      invariant |cells| == (y - b.minY) * newWidth <= total
      invariant forall i :: 0 <= i < |cells| ==> cells[i] == BoxCell(s, b, i)
    {
      var rowStart := (y - b.minY) * newWidth;
      assert (y - b.minY + 1) * newWidth == rowStart + newWidth;
      MulMonotone(y - b.minY + 1, newHeight, newWidth);
      var x := b.minX;
      while x <= b.maxX
        invariant b.minX <= x <= b.maxX + 1
        invariant |cells| == rowStart + (x - b.minX) <= total
        invariant forall i :: 0 <= i < |cells| ==> cells[i] == BoxCell(s, b, i)
      {
        BoxCellAt(s, b, x, y);
        cells := cells + [s.pixels[y * s.width + x]];
        x := x + 1;
      }
      y := y + 1;
    }
  }

  /** `trimToContent`: the empty sprite when nothing is visible, otherwise the cells of the bounding box. */
  method TrimToContent(s: PixelData) returns (t: PixelData)
    requires WellFormed(s)
    ensures t == Trim(s)
  {
    var b := FindBox(s);
    if !b.hasContent {
      return Empty;
    }
    BoxAfterSound(s, |s.pixels|);
    var cells := CopyBox(s, b);
    t := PixelData(b.maxX - b.minX + 1, b.maxY - b.minY + 1, cells);
    assert t.pixels == Trim(s).pixels;
  }

  // ---------------------------------------------------------------------------
  // The scan computes the tight bounding box

  /** Flat index `i` is cell (i % width, i / width). */
  lemma CellAtIndex(s: PixelData, i: int)
    requires WellFormed(s) && 0 <= i < |s.pixels|
    ensures s.width > 0 && s.height > 0
    ensures 0 <= i % s.width < s.width && 0 <= i / s.width < s.height
    ensures (i / s.width) * s.width + i % s.width == i
    ensures CellAt(s, i % s.width, i / s.width) == s.pixels[i]
  {
    IndexToCell(i, s.width, s.height);
  }

  /**
   * After `n` cells: the box has content exactly when one of them is not
   * transparent, then lies inside the grid and contains every such cell.
   */
  lemma {:induction false} BoxAfterSound(s: PixelData, n: nat)
    requires WellFormed(s) && n <= |s.pixels|
    ensures BoxAfter(s, n).hasContent <==> exists i :: 0 <= i < n && s.pixels[i] != Transparent
    ensures !BoxAfter(s, n).hasContent ==> BoxAfter(s, n) == Box(s.width, s.height, 0, 0, false)
    ensures BoxAfter(s, n).hasContent ==>
      0 <= BoxAfter(s, n).minX <= BoxAfter(s, n).maxX < s.width &&
      0 <= BoxAfter(s, n).minY <= BoxAfter(s, n).maxY < s.height
    ensures forall i :: 0 <= i < n && s.pixels[i] != Transparent ==>
      BoxAfter(s, n).minX <= i % s.width <= BoxAfter(s, n).maxX &&
      BoxAfter(s, n).minY <= i / s.width <= BoxAfter(s, n).maxY
  {
    if n > 0 {
      BoxAfterSound(s, n - 1);
      CellAtIndex(s, n - 1);
    }
  }

  /** After `n` cells with content, each side of the box touches one of the non-transparent cells seen. */
  lemma {:induction false} BoxAfterTight(s: PixelData, n: nat)
    requires WellFormed(s) && n <= |s.pixels| && BoxAfter(s, n).hasContent
    ensures exists i :: 0 <= i < n && s.pixels[i] != Transparent && i % s.width == BoxAfter(s, n).minX
    ensures exists i :: 0 <= i < n && s.pixels[i] != Transparent && i % s.width == BoxAfter(s, n).maxX
    ensures exists i :: 0 <= i < n && s.pixels[i] != Transparent && i / s.width == BoxAfter(s, n).minY
    ensures exists i :: 0 <= i < n && s.pixels[i] != Transparent && i / s.width == BoxAfter(s, n).maxY
  {
    var k := n - 1;
    var b := BoxAfter(s, k);
    CellAtIndex(s, k);
    BoxAfterSound(s, k);
    if s.pixels[k] == Transparent {
      BoxAfterTight(s, k);
    } else if !b.hasContent {
      assert b == Box(s.width, s.height, 0, 0, false);
      assert BoxAfter(s, n) == Box(k % s.width, k / s.width, k % s.width, k / s.width, true);
    } else {
      BoxAfterTight(s, k);
    }
  }

  /**
   * The final box is the tight bounding box of the non-transparent cells: it
   * exists exactly when there is one, contains all of them, and each of its
   * four sides holds one of them.
   */
  lemma ContentBoxIsTight(s: PixelData)
    requires WellFormed(s)
    ensures ContentBox(s).hasContent <==> HasContent(s)
    ensures ContentBox(s).hasContent ==>
      0 <= ContentBox(s).minX <= ContentBox(s).maxX < s.width &&
      0 <= ContentBox(s).minY <= ContentBox(s).maxY < s.height
    ensures forall x, y :: 0 <= x < s.width && 0 <= y < s.height && CellAt(s, x, y) != Transparent ==>
      ContentBox(s).minX <= x <= ContentBox(s).maxX && ContentBox(s).minY <= y <= ContentBox(s).maxY
    ensures ContentBox(s).hasContent ==>
      (exists y :: 0 <= y < s.height && CellAt(s, ContentBox(s).minX, y) != Transparent) &&
      (exists y :: 0 <= y < s.height && CellAt(s, ContentBox(s).maxX, y) != Transparent) &&
      (exists x :: 0 <= x < s.width && CellAt(s, x, ContentBox(s).minY) != Transparent) &&
      (exists x :: 0 <= x < s.width && CellAt(s, x, ContentBox(s).maxY) != Transparent)
  {
    var n := |s.pixels|;
    var b := ContentBox(s);
    BoxAfterSound(s, n);
    forall x, y | 0 <= x < s.width && 0 <= y < s.height && CellAt(s, x, y) != Transparent
      ensures b.minX <= x <= b.maxX && b.minY <= y <= b.maxY
    {
      RowMajorBound(x, y, s.width, s.height);
      RowMajor(x, y, s.width);
      var i := y * s.width + x;
      assert s.pixels[i] != Transparent;
    }
    if b.hasContent {
      BoxAfterTight(s, n);
      var i0 :| 0 <= i0 < n && s.pixels[i0] != Transparent && i0 % s.width == b.minX;
      var i1 :| 0 <= i1 < n && s.pixels[i1] != Transparent && i1 % s.width == b.maxX;
      var i2 :| 0 <= i2 < n && s.pixels[i2] != Transparent && i2 / s.width == b.minY;
      var i3 :| 0 <= i3 < n && s.pixels[i3] != Transparent && i3 / s.width == b.maxY;
      CellAtIndex(s, i0);
      CellAtIndex(s, i1);
      CellAtIndex(s, i2);
      CellAtIndex(s, i3);
    }
  }

  // ---------------------------------------------------------------------------
  // Properties of the cropped sprite

  /** A sprite with no non-transparent cell, of any size, crops to exactly `{0, 0, []}`, and only such a sprite does. */
  lemma TrimEmpty(s: PixelData)
    requires WellFormed(s)
    ensures !HasContent(s) <==> Trim(s) == Empty
    ensures !HasContent(s) <==> Trim(s).width == 0
  {
    ContentBoxIsTight(s);
  }

  /**
   * A sprite with content crops to the box `maxX - minX + 1` by
   * `maxY - minY + 1`, and result cell (x, y) is input cell (minX + x, minY + y).
   */
  lemma TrimCells(s: PixelData)
    requires WellFormed(s) && HasContent(s)
    ensures ContentBox(s).hasContent
    ensures Trim(s).width == ContentBox(s).maxX - ContentBox(s).minX + 1 >= 1
    ensures Trim(s).height == ContentBox(s).maxY - ContentBox(s).minY + 1 >= 1
    ensures forall x, y :: 0 <= x < Trim(s).width && 0 <= y < Trim(s).height ==>
      0 <= ContentBox(s).minX + x < s.width && 0 <= ContentBox(s).minY + y < s.height &&
      CellAt(Trim(s), x, y) == CellAt(s, ContentBox(s).minX + x, ContentBox(s).minY + y)
  {
    ContentBoxIsTight(s);
    var t, b := Trim(s), ContentBox(s);
    forall x, y | 0 <= x < t.width && 0 <= y < t.height
      ensures CellAt(t, x, y) == CellAt(s, b.minX + x, b.minY + y)
    {
      RowMajor(x, y, t.width);
      RowMajorBound(x, y, t.width, t.height);
    }
  }

  /** Row `y` holds a non-transparent cell. */
  predicate RowHasContent(s: PixelData, y: int)
    requires WellFormed(s) && 0 <= y < s.height
  {
    exists x :: 0 <= x < s.width && CellAt(s, x, y) != Transparent
  }

  /** Column `x` holds a non-transparent cell. */
  predicate ColumnHasContent(s: PixelData, x: int)
    requires WellFormed(s) && 0 <= x < s.width
  {
    exists y :: 0 <= y < s.height && CellAt(s, x, y) != Transparent
  }

  /** A non-transparent input cell inside the content box is a non-transparent cell of the crop. */
  lemma CellInCrop(s: PixelData, x: int, y: int)
    requires WellFormed(s) && HasContent(s)
    requires ContentBox(s).minX <= x <= ContentBox(s).maxX && ContentBox(s).minY <= y <= ContentBox(s).maxY
    requires 0 <= x < s.width && 0 <= y < s.height && CellAt(s, x, y) != Transparent
    ensures 0 <= x - ContentBox(s).minX < Trim(s).width && 0 <= y - ContentBox(s).minY < Trim(s).height
    ensures CellAt(Trim(s), x - ContentBox(s).minX, y - ContentBox(s).minY) != Transparent
  {
    TrimCells(s);
  }

  /** The cropped box is tight: its first and last row and its first and last column each hold a non-transparent cell. */
  lemma TrimTight(s: PixelData)
    requires WellFormed(s) && HasContent(s)
    ensures Trim(s).width >= 1 && Trim(s).height >= 1
    ensures RowHasContent(Trim(s), 0) && RowHasContent(Trim(s), Trim(s).height - 1)
    ensures ColumnHasContent(Trim(s), 0) && ColumnHasContent(Trim(s), Trim(s).width - 1)
  {
    ContentBoxIsTight(s);
    TrimCells(s);
    var t, b := Trim(s), ContentBox(s);
    var y0 :| 0 <= y0 < s.height && CellAt(s, b.minX, y0) != Transparent;
    var y1 :| 0 <= y1 < s.height && CellAt(s, b.maxX, y1) != Transparent;
    var x0 :| 0 <= x0 < s.width && CellAt(s, x0, b.minY) != Transparent;
    var x1 :| 0 <= x1 < s.width && CellAt(s, x1, b.maxY) != Transparent;
    CellInCrop(s, x0, b.minY);
    CellInCrop(s, x1, b.maxY);
    CellInCrop(s, b.minX, y0);
    CellInCrop(s, b.maxX, y1);
  }

  /** A non-transparent cell makes a sprite have content. */
  lemma ContentFromCell(s: PixelData, x: int, y: int)
    requires WellFormed(s) && 0 <= x < s.width && 0 <= y < s.height && CellAt(s, x, y) != Transparent
    ensures HasContent(s)
  {
    RowMajorBound(x, y, s.width, s.height);
    assert s.pixels[y * s.width + x] != Transparent;
  }

  /** Cropping an already cropped sprite changes nothing. */
  lemma TrimIdempotent(s: PixelData)
    requires WellFormed(s)
    ensures Trim(Trim(s)) == Trim(s)
  {
    var t := Trim(s);
    if !HasContent(s) {
      TrimEmpty(s);
      assert BoxAfter(t, 0) == Box(0, 0, 0, 0, false);
    } else {
      TrimTight(s);
      ContentBoxIsTight(t);
      var b := ContentBox(t);
      var y0 :| 0 <= y0 < t.height && CellAt(t, 0, y0) != Transparent;
      var y1 :| 0 <= y1 < t.height && CellAt(t, t.width - 1, y1) != Transparent;
      var x0 :| 0 <= x0 < t.width && CellAt(t, x0, 0) != Transparent;
      var x1 :| 0 <= x1 < t.width && CellAt(t, x1, t.height - 1) != Transparent;
      ContentFromCell(t, 0, y0);
      assert b.hasContent;
      assert b.minX == 0 && b.maxX == t.width - 1 && b.minY == 0 && b.maxY == t.height - 1;
      var tt := Trim(t);
      forall i | 0 <= i < |t.pixels|
        ensures tt.pixels[i] == t.pixels[i]
      {
        CellAtIndex(t, i);
      }
    }
  }

  // ---------------------------------------------------------------------------
  // Cropping keeps every non-transparent cell

  /** Positions of the non-transparent cells. */
  function ContentIndices(cells: seq<Cell>): set<int>
  {
    set i | 0 <= i < |cells| && cells[i] != Transparent
  }

  /** Number of non-transparent cells. */
  function ContentCount(s: PixelData): nat
  {
    |ContentIndices(s.pixels)|
  }

  /** Position in `s` of cell `i` of its crop. */
  function SourceIndex(s: PixelData, i: int): int
    requires WellFormed(s)
  {
    var b := ContentBox(s);
    var nw := b.maxX - b.minX + 1;
    if nw <= 0 then 0 else (b.minY + i / nw) * s.width + b.minX + i % nw
  }

  /** Cell `i` of the crop is the cell at `SourceIndex(s, i)` of the input, in the box's column and row. */
  lemma SourceIndexOfCrop(s: PixelData, i: int)
    requires WellFormed(s) && HasContent(s) && 0 <= i < |Trim(s).pixels|
    ensures 0 <= SourceIndex(s, i) < |s.pixels|
    ensures SourceIndex(s, i) % s.width == ContentBox(s).minX + i % Trim(s).width
    ensures SourceIndex(s, i) / s.width == ContentBox(s).minY + i / Trim(s).width
    ensures (i / Trim(s).width) * Trim(s).width + i % Trim(s).width == i
    ensures s.pixels[SourceIndex(s, i)] == Trim(s).pixels[i]
  {
    TrimCells(s);
    var t, b := Trim(s), ContentBox(s);
    CellAtIndex(t, i);
    var x, y := b.minX + i % t.width, b.minY + i / t.width;
    RowMajorBound(x, y, s.width, s.height);
    RowMajor(x, y, s.width);
  }

  lemma PickElement(a: set<int>) returns (k: int)
    requires a != {}
    ensures k in a
  {
    if forall x :: x !in a {
      assert false;
    }
    k :| k in a;
  }

  lemma {:induction false} CropImageSize(s: PixelData, a: set<int>)
    requires WellFormed(s)
    requires forall i, j :: i in a && j in a && SourceIndex(s, i) == SourceIndex(s, j) ==> i == j
    ensures |set i | i in a :: SourceIndex(s, i)| == |a|
    decreases |a|
  {
    if a != {} {
      var k := PickElement(a);
      var rest := a - {k};
      CropImageSize(s, rest);
      assert (set i | i in a :: SourceIndex(s, i)) == (set i | i in rest :: SourceIndex(s, i)) + {SourceIndex(s, k)};
      assert SourceIndex(s, k) !in (set i | i in rest :: SourceIndex(s, i));
    }
  }

  /** Distinct cells of the crop come from distinct cells of the input. */
  lemma CropInjective(s: PixelData)
    requires WellFormed(s) && HasContent(s)
    ensures forall i, j ::
      (i in ContentIndices(Trim(s).pixels) && j in ContentIndices(Trim(s).pixels) && SourceIndex(s, i) == SourceIndex(s, j))
      ==> i == j
  {
    var a := ContentIndices(Trim(s).pixels);
    forall i, j | i in a && j in a && SourceIndex(s, i) == SourceIndex(s, j)
      ensures i == j
    {
      SourceIndexOfCrop(s, i);
      SourceIndexOfCrop(s, j);
    }
  }

  /** Every visible input cell is the source of a visible crop cell. */
  lemma CropPreimage(s: PixelData, k: int) returns (i: int)
    requires WellFormed(s) && HasContent(s) && k in ContentIndices(s.pixels)
    ensures i in ContentIndices(Trim(s).pixels) && SourceIndex(s, i) == k
  {
    TrimCells(s);
    ContentBoxIsTight(s);
    var t, b := Trim(s), ContentBox(s);
    CellAtIndex(s, k);
    var x, y := k % s.width, k / s.width;
    assert b.minX <= x <= b.maxX && b.minY <= y <= b.maxY;
    i := (y - b.minY) * t.width + (x - b.minX);
    RowMajor(x - b.minX, y - b.minY, t.width);
    RowMajorBound(x - b.minX, y - b.minY, t.width, t.height);
    SourceIndexOfCrop(s, i);
  }

  /** Cropping keeps the number of non-transparent cells. */
  lemma TrimKeepsContentCount(s: PixelData)
    requires WellFormed(s)
    ensures ContentCount(Trim(s)) == ContentCount(s)
  {
    var t := Trim(s);
    if !HasContent(s) {
      TrimEmpty(s);
      assert ContentIndices(t.pixels) == {};
      assert ContentIndices(s.pixels) == {};
    } else {
      var a := ContentIndices(t.pixels);
      CropInjective(s);
      CropImageSize(s, a);
      var image := set i | i in a :: SourceIndex(s, i);
      forall i | i in a
        ensures SourceIndex(s, i) in ContentIndices(s.pixels)
      {
        SourceIndexOfCrop(s, i);
      }
      forall k | k in ContentIndices(s.pixels)
        ensures k in image
      {
        var i := CropPreimage(s, k);
      }
      assert image == ContentIndices(s.pixels);
    }
  }

  /** A sprite with exactly one non-transparent cell crops to a 1 x 1 sprite holding that cell. */
  lemma TrimSingle(s: PixelData, k: int)
    requires WellFormed(s) && 0 <= k < |s.pixels| && s.pixels[k] != Transparent
    requires forall i :: 0 <= i < |s.pixels| && i != k ==> s.pixels[i] == Transparent
    ensures Trim(s) == PixelData(1, 1, [s.pixels[k]])
  {
    ContentBoxIsTight(s);
    CellAtIndex(s, k);
    var b := ContentBox(s);
    var x, y := k % s.width, k / s.width;
    forall x', y' | 0 <= x' < s.width && 0 <= y' < s.height && CellAt(s, x', y') != Transparent
      ensures x' == x && y' == y
    {
      RowMajorBound(x', y', s.width, s.height);
      RowMajor(x', y', s.width);
    }
    assert b.minX == x && b.maxX == x && b.minY == y && b.maxY == y;
  }
}
