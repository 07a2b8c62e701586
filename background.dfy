/**
 * The background classifier (`removeBackground`): a per-cell white threshold,
 * with no notion of connectivity.
 */
module Background {
  import opened PixelTypes

  /** Threshold used when the caller gives none. */
  const DefaultThreshold := 250

  /** An opaque cell whose three channels all lie strictly above the threshold. */
  predicate IsBackground(c: Cell, threshold: int)
  {
    c.Opaque? && c.r > threshold && c.g > threshold && c.b > threshold
  }

  /** The classifier applied to one cell. */
  function ClassifyCell(c: Cell, threshold: int): Cell
  {
    if IsBackground(c, threshold) then Transparent else c
  }

  /**
   * The `map` over the cell list: a cell becomes transparent exactly when it
   * was transparent or background, and every cell that stays opaque is unchanged.
   */
  function ClassifyAll(cells: seq<Cell>, threshold: int): (r: seq<Cell>)
    ensures |r| == |cells|
    ensures forall i :: 0 <= i < |cells| ==>
      (r[i] == Transparent <==> cells[i] == Transparent || IsBackground(cells[i], threshold))
    ensures forall i :: 0 <= i < |cells| && r[i] != Transparent ==> r[i] == cells[i]
  {
    if cells == [] then []
    else [ClassifyCell(cells[0], threshold)] + ClassifyAll(cells[1..], threshold)
  }

  /** `removeBackground`: the same sprite with its background cells made transparent. */
  function RemoveBackground(pd: PixelData, threshold: int): (r: PixelData)
    ensures r.width == pd.width && r.height == pd.height && |r.pixels| == |pd.pixels|
    ensures forall i :: 0 <= i < |pd.pixels| && pd.pixels[i] == Transparent ==> r.pixels[i] == Transparent
    ensures forall i :: 0 <= i < |pd.pixels| && pd.pixels[i] != Transparent ==>
      (r.pixels[i] == Transparent <==> IsBackground(pd.pixels[i], threshold))
    ensures forall i :: 0 <= i < |pd.pixels| && !IsBackground(pd.pixels[i], threshold) ==> r.pixels[i] == pd.pixels[i]
    ensures forall i :: 0 <= i < |r.pixels| ==> !IsBackground(r.pixels[i], threshold)
  {
    pd.(pixels := ClassifyAll(pd.pixels, threshold))
  }

  /** Removing the background twice is the same as removing it once. */
  lemma RemoveBackgroundIdempotent(pd: PixelData, threshold: int)
    ensures RemoveBackground(RemoveBackground(pd, threshold), threshold) == RemoveBackground(pd, threshold)
  {
    var once := RemoveBackground(pd, threshold);
    var twice := RemoveBackground(once, threshold);
    assert twice.pixels == once.pixels;
  }

  /** Removing the background leaves a sprite unchanged exactly when it has no background cell. */
  lemma RemoveBackgroundFixedPoint(pd: PixelData, threshold: int)
    ensures RemoveBackground(pd, threshold) == pd <==>
      forall i :: 0 <= i < |pd.pixels| ==> !IsBackground(pd.pixels[i], threshold)
  {
    if forall i :: 0 <= i < |pd.pixels| ==> !IsBackground(pd.pixels[i], threshold) {
      assert RemoveBackground(pd, threshold).pixels == pd.pixels;
    }
  }
}
