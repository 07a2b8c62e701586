/**
 * The converter's processing step: optionally detect the grid size, sample
 * the sprite with the chosen size and the user's grid offset, clear the
 * white background with the default threshold, and crop to the content.
 */
module Pipeline {
  import opened PixelTypes
  import opened GridDetection
  import opened Sampler
  import opened Background
  import opened Cropper

  /** The grid size used: the detected one when auto-detecting, the user's otherwise. */
  function ChosenSize(img: Raster, autoDetect: bool, gridSize: int): int
    requires img.Valid()
  {
    if autoDetect then Estimate(img).size else gridSize
  }

  /** The sprite the converter shows for grid size `g` and offset (`ox`, `oy`). */
  function Processed(img: Raster, g: int, ox: int, oy: int): PixelData
    requires img.Valid() && g >= 1
  {
    Trim(RemoveBackground(Extracted(img, g, ox, oy), DefaultThreshold))
  }

  /**
   * `processImage`: the stages in the converter's order. Auto-detection only
   * replaces the grid size; the offset is always the user's.
   */
  method Convert(img: Raster, autoDetect: bool, gridSize: int, ox: int, oy: int) returns (s: PixelData, g: int)
    requires img.Valid() && (autoDetect || gridSize >= 1)
    ensures g == ChosenSize(img, autoDetect, gridSize) && g >= 1
    ensures autoDetect ==> g == 1 || (g >= 4 && g % 2 == 0)
    ensures s == Processed(img, g, ox, oy)
  {
    g := gridSize;
    if autoDetect {
      var detection := DetectGrid(img);
      g := detection.size;
    }
    var sampled := ExtractPixelArt(img, g, ox, oy);
    var cleared := RemoveBackground(sampled, DefaultThreshold);
    s := TrimToContent(cleared);
  }

  // ---------------------------------------------------------------------------
  // Properties

  /**
   * The result is well formed, none of its cells is background, and each of
   * its cells is either transparent or one of the cells sampled from the raster.
   */
  lemma ProcessedCells(img: Raster, g: int, ox: int, oy: int)
    requires img.Valid() && g >= 1
    ensures WellFormed(Processed(img, g, ox, oy))
    ensures forall i :: 0 <= i < |Processed(img, g, ox, oy).pixels| ==>
      !IsBackground(Processed(img, g, ox, oy).pixels[i], DefaultThreshold) &&
      Processed(img, g, ox, oy).pixels[i] in Extracted(img, g, ox, oy).pixels + [Transparent]
  {
    var e := Extracted(img, g, ox, oy);
    var c := RemoveBackground(e, DefaultThreshold);
    var s := Processed(img, g, ox, oy);
    if HasContent(c) {
      forall i | 0 <= i < |s.pixels|
        ensures !IsBackground(s.pixels[i], DefaultThreshold) && s.pixels[i] in e.pixels + [Transparent]
      {
        SourceIndexOfCrop(c, i);
        var j := SourceIndex(c, i);
        if c.pixels[j] != Transparent {
          assert c.pixels[j] == e.pixels[j];
        }
      }
    } else {
      TrimEmpty(c);
    }
  }

  /** A raster position whose pixel is fully transparent or near-white. */
  predicate Blank(img: Raster, x: int, y: int)
    requires img.Valid() && 0 <= x < img.width && 0 <= y < img.height
  {
    Alpha(img, x, y) == 0 ||
    (GetPixel(img, x, y).r > DefaultThreshold && GetPixel(img, x, y).g > DefaultThreshold && GetPixel(img, x, y).b > DefaultThreshold)
  }

  /** A raster that is blank everywhere converts to the empty sprite, whatever the grid. */
  lemma BlankRasterGivesEmpty(img: Raster, g: int, ox: int, oy: int)
    requires img.Valid() && g >= 1
    requires forall x, y :: 0 <= x < img.width && 0 <= y < img.height ==> Blank(img, x, y)
    ensures Processed(img, g, ox, oy) == Empty
  {
    var e := Extracted(img, g, ox, oy);
    var c := RemoveBackground(e, DefaultThreshold);
    forall i | 0 <= i < |c.pixels|
      ensures c.pixels[i] == Transparent
    {
      var cx, cy := i % e.width, i / e.width;
      var sx, sy := SampleCoord(ox, cx, g), SampleCoord(oy, cy, g);
      if 0 <= sx < img.width && 0 <= sy < img.height {
        assert Blank(img, sx, sy);
      }
    }
    assert !HasContent(c);
    TrimEmpty(c);
  }

  /**
   * The crop keeps every cell that survived background removal: the result
   * holds as many non-transparent cells as the cleared sampled sprite.
   */
  lemma ProcessedKeepsContent(img: Raster, g: int, ox: int, oy: int)
    requires img.Valid() && g >= 1
    ensures ContentCount(Processed(img, g, ox, oy)) ==
      ContentCount(RemoveBackground(Extracted(img, g, ox, oy), DefaultThreshold))
  {
    TrimKeepsContentCount(RemoveBackground(Extracted(img, g, ox, oy), DefaultThreshold));
  }

  /** Clearing and cropping the converter's own output again changes nothing. */
  lemma ReprocessingChangesNothing(img: Raster, g: int, ox: int, oy: int)
    requires img.Valid() && g >= 1
    ensures var s := Processed(img, g, ox, oy);
      WellFormed(s) && Trim(RemoveBackground(s, DefaultThreshold)) == s
  {
    var s := Processed(img, g, ox, oy);
    ProcessedCells(img, g, ox, oy);
    RemoveBackgroundFixedPoint(s, DefaultThreshold);
    TrimIdempotent(RemoveBackground(Extracted(img, g, ox, oy), DefaultThreshold));
  }
}
