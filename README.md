# pixel-perfect: the PixelProcessor core in Dafny

This project models the image-reduction core of *pixel-perfect*. The core turns a
screenshot of upscaled pixel art back into a small sprite. The model covers the
static methods of `PixelProcessor` and the order in which the converter calls them:

- **GridDetection**: `detectGrid` estimates the block size. It scans up to ten rows
  (every 5th row of a 50-row band from the vertical middle) and records run lengths
  longer than 2 that end at a colour change of more than 30 (Manhattan distance over
  RGB). It takes the mode of the lengths after rounding each to an even bucket, and
  clamps results below 2 to 1. The offset is always (0, 0).
- **Sampler**: `extractPixelArt` reads the centre pixel of every whole block. An
  alpha of 0, or a point off the raster, gives a transparent cell.
- **Background**: `removeBackground` makes a cell transparent when all three of its
  channels exceed the threshold (default 250).
- **HexColor**: the string form the source stores. This is `toHex`, plus the
  `slice` / `parseInt(_, 16)` reading inside `removeBackground`. It is proved to
  agree with the cell-level model.
- **Cropper**: `trimToContent` finds the bounding box of the non-transparent cells
  in one row-major scan, then copies that rectangle out.
- **Pipeline**: `processImage` in the converter chains the stages: optional grid
  detection, sampling with the user's offset, background removal, cropping.

Each loop of the source is a `method`: `ModeOf`, `ScanRow`, `DetectGrid`,
`ExtractPixelArt`, `FindBox` and `CopyBox`. `TrimToContent` calls `FindBox` and
`CopyBox`, and the converter's `processImage`, which has no loop of its own, is the
method `Convert`, calling the stage methods in the converter's order. The methods
are proved equal to specification functions: `ModeOf` to `Mode`, `ScanRow` to
`RowCandidates`, `DetectGrid` to `Estimate`, `ExtractPixelArt` to `Extracted`,
`FindBox` to `ContentBox`, `TrimToContent` to `Trim` and `Convert` to `Processed`;
`CopyBox` yields `BoxCell(s, b, i)` at each index `i`. Lemmas state the properties
of those functions.

RGBA rasters are `Raster` values holding bytes 0..255. Cells are
`Opaque(r, g, b) | Transparent`. `Math.round(v / 2) * 2` is written
`((v + 1) / 2) * 2`, which is equal for every integer `v` because JavaScript rounds
halves upwards.

Behaviour of the source worth knowing:

- The estimator's own comments describe it as finding "the most common run length
  of similar colors" (`PixelProcessor.ts:17`) and grouping "9, 10, 11 -> 10"
  (`:52`). The length it records, however, is one less than the number of pixels
  in the run: the counter starts at 0 on the run's first pixel.
- The last run of each scanned row is never recorded.
- As a consequence, stripes `n` pixels wide give runs of `n - 1`. Bucketing turns
  these back into `n` only when `n` is even; an odd width `n` is estimated as
  `n - 1`, for vertical stripes and for `n` x `n` checkerboards alike
  (`GridDetection.BlockEstimate`, `GridDetection.CheckerboardEstimate`).
- The grid offset may be negative. The converter wraps it with JavaScript's `%`,
  which keeps the sign. The sampler accepts it, and sample points left of or above
  the raster read as transparent.

## Model

| member | source | states |
|---|---|---|
| PixelTypes.GetPixel | src/lib/PixelProcessor.ts:19-22 | the RGB triple at (x, y): the bytes at offsets `idx`, `idx + 1`, `idx + 2` of `(y * width + x) * 4` |
| PixelTypes.Alpha | src/lib/PixelProcessor.ts:102 | the alpha byte at (x, y): the byte at offset `idx + 3` |
| PixelTypes.PixelOffset | src/lib/PixelProcessor.ts:19-22 | the RGBA offset `(y * width + x) * 4` of an in-raster pixel is a multiple of 4 whose four bytes lie inside the buffer |
| GridDetection.ColorDiff | src/lib/PixelProcessor.ts:24-26 | the Manhattan RGB distance is 0 exactly for equal colours and at most 765 |
| GridDetection.ScanFrom | src/lib/PixelProcessor.ts:33-42 | the run lengths the inner loop pushes from column `x` on, given the run's first colour and the current count: a change above 30 pushes the count if it exceeds 2 and restarts at 0 with the new colour, otherwise the count grows |
| GridDetection.RowCandidates | src/lib/PixelProcessor.ts:31-42 | the run lengths pushed for row `y`: the scan from column 1 with pixel (0, y) as first colour and count 0 |
| GridDetection.RowsFrom | src/lib/PixelProcessor.ts:30 | the rows the band loop visits from row `y` on: `y, y + 5, ...` while below `h/2 + 50` and `h` |
| GridDetection.ScannedRows | src/lib/PixelProcessor.ts:30 | the rows the band loop visits, starting at `floor(h / 2)` |
| GridDetection.CandidatesOf | src/lib/PixelProcessor.ts:30-43 | the run lengths of the given rows, concatenated in scan order |
| GridDetection.Candidates | src/lib/PixelProcessor.ts:29-43 | the whole `transitionsX` list: the run lengths of the scanned rows, in scan order |
| GridDetection.Bucket | src/lib/PixelProcessor.ts:53 | `Math.round(val / 2) * 2` is even and within 1 of `val`; an odd `val` rounds up to `val + 1` |
| GridDetection.BucketCount | src/lib/PixelProcessor.ts:54 | the value `counts[key]` holds after a prefix: how many of its values fall into bucket `key` |
| GridDetection.TallyOf | src/lib/PixelProcessor.ts:49-59 | `maxCount` and `maxVal` after the loop has consumed a prefix; starts at (0, 1) and changes only on a strictly larger count |
| GridDetection.Mode | src/lib/PixelProcessor.ts:46-61 | `mode`: at least 1, and 1 for an empty list; otherwise the tally's `maxVal` when positive |
| GridDetection.Estimate | src/lib/PixelProcessor.ts:63-69 | the mode of the candidates, clamped to 1 below 2, with offset (0, 0) |
| GridDetection.ScanRow | src/lib/PixelProcessor.ts:31-42 | the inner scan loop records exactly the run lengths of the row's specification `RowCandidates` |
| GridDetection.ModeOf | src/lib/PixelProcessor.ts:46-61 | the counting loop over a `counts` map returns the bucket elected by the tally specification `Mode` |
| GridDetection.DetectGrid | src/lib/PixelProcessor.ts:12-70 | the estimate equals `Estimate(img)`; the offset is (0, 0); the size is 1 or an even number of at least 4 |
| GridDetection.ScannedRowsAre | src/lib/PixelProcessor.ts:30 | the scanned rows are `h/2 + 5i`, all inside the image, at most ten of them, and the band stops only at ten rows or the bottom edge |
| GridDetection.RowsFromInImage | src/lib/PixelProcessor.ts:30 | every row the band loop visits lies inside the image |
| GridDetection.CandidatesAboveNoise | src/lib/PixelProcessor.ts:36 | every recorded run length exceeds 2 |
| GridDetection.NoChangeNoRun | src/lib/PixelProcessor.ts:33-42 | a row remainder with no colour change beyond 30 records nothing: the trailing run is never pushed |
| GridDetection.NoColourChangeGivesOne | src/lib/PixelProcessor.ts:30-47 | when no scanned row (`h/2 + 5k`) has a pixel more than 30 from its first pixel, whatever the other rows hold, nothing is recorded and the estimate is (1, 0, 0) |
| GridDetection.TallyWinnerOccurs | src/lib/PixelProcessor.ts:51-58 | the winning bucket is the bucket of some candidate, and it was counted at least once |
| GridDetection.TallyIsMaximal | src/lib/PixelProcessor.ts:53-58 | the winning bucket's count equals `maxCount`, and no bucket has a larger count |
| GridDetection.ModeBreaksTiesByArrival | src/lib/PixelProcessor.ts:55-58 | on a tie the bucket that first reached the top count wins: at that moment every other bucket is strictly behind |
| GridDetection.EstimateRange | src/lib/PixelProcessor.ts:60-69 | size 1 happens exactly when nothing was recorded; otherwise the size is even and at least 4; the offset is (0, 0) |
| GridDetection.RowRuns | src/lib/PixelProcessor.ts:31-42 | along a row of `n`-pixel stripes (`n >= 4`, narrower than the image) of two colours more than 30 apart, in either phase, at least one run is recorded and every run is `n - 1` |
| GridDetection.BlockEstimate | src/lib/PixelProcessor.ts:28-67 | on a raster whose every row is such a stripe row in either phase, the candidates are non-empty, all `n - 1`, and the estimate is `n` for even `n`, `n - 1` for odd `n` |
| GridDetection.CheckerboardRows | src/lib/PixelProcessor.ts:30-42 | every row of an `n` x `n` checkerboard is a stripe row in one of the two phases |
| GridDetection.CheckerboardEstimate | src/lib/PixelProcessor.ts:12-70 | an `n` x `n` checkerboard of two colours more than 30 apart, `n >= 4` and narrower than the image, is estimated as `n` for even `n` and `n - 1` for odd `n`, with offset (0, 0) |
| GridDetection.TallyOfUniform | src/lib/PixelProcessor.ts:51-58 | candidates that are all equal elect their own bucket |
| Sampler.BlockCount | src/lib/PixelProcessor.ts:77-78 | the number of whole blocks along an axis, `floor((extent - offset) / g)`; may be zero or negative |
| Sampler.SampleCoord | src/lib/PixelProcessor.ts:89-90 | the sample coordinate `floor(offset + c * g + g / 2)` for integer offsets |
| Sampler.SampleCell | src/lib/PixelProcessor.ts:89-104 | the cell for block (cx, cy): transparent when the centre is off the raster, otherwise `toHex` of its RGBA |
| Sampler.Extracted | src/lib/PixelProcessor.ts:75-109 | the returned sprite: `cols` by `rows`, with cell `i` the sample of block (`i % cols`, `i / cols`) |
| Sampler.ExtractedShape | src/lib/PixelProcessor.ts:77-108 | for every input the sprite is `floor((W-ox)/g)` by `floor((H-oy)/g)` and well formed; with a non-positive count it has no cells |
| Sampler.ToCell | src/lib/PixelProcessor.ts:81-84 | alpha 0 gives the transparent cell; any other alpha gives the RGB colour with alpha dropped |
| Sampler.ExtractPixelArt | src/lib/PixelProcessor.ts:75-109 | the nested loops build exactly the sprite `Extracted(img, g, ox, oy)` |
| Sampler.ExtractedCell | src/lib/PixelProcessor.ts:77-108 | the sprite is `floor((W-ox)/g)` by `floor((H-oy)/g)` and well formed; cell (x, y) at index `y*cols+x` is transparent exactly when the block centre is off the raster or has alpha 0, otherwise its RGB |
| Sampler.CentreInside | src/lib/PixelProcessor.ts:89-90 | the centre of a whole block counted from 0 lies inside the extent |
| Sampler.ZeroOffsetInBounds | src/lib/PixelProcessor.ts:89-96 | with offset (0, 0) no sample point is off the raster, so a cell is transparent exactly when its alpha is 0 |
| Sampler.CoveringCell | src/components/ConverterUI.tsx:163-169 | the cell drawn over a pixel of the block rendering is a valid cell index |
| Sampler.Upscale | src/components/ConverterUI.tsx:163-169 | drawing a sprite as `g` x `g` blocks gives a valid raster of `width*g` by `height*g` pixels; it places blocks as the preview does, but at scale `g` rather than `max(1, floor(500 / max(w, h)))`, and with RGBA (0, 0, 0, 0) under a transparent cell where the preview shows a checkerboard |
| Sampler.UpscaleSample | src/lib/PixelProcessor.ts:89-104 | centre-sampling block (x, y) of a block rendering reads back cell (x, y) |
| Sampler.UpscaleRoundTrip | src/lib/PixelProcessor.ts:75-109 | sampling a block rendering of a sprite with the same size and offset (0, 0) returns the sprite unchanged |
| Background.IsBackground | src/lib/PixelProcessor.ts:122 | an opaque cell whose three channels are all strictly above the threshold |
| Background.ClassifyCell | src/lib/PixelProcessor.ts:116-125 | the `map` callback on one cell: background becomes transparent, anything else is returned as is |
| Background.ClassifyAll | src/lib/PixelProcessor.ts:115-126 | the mapped list has the same length; a cell becomes transparent exactly when it was transparent or background; a cell that stays opaque is unchanged |
| Background.RemoveBackground | src/lib/PixelProcessor.ts:114-128 | same dimensions; transparent stays transparent; an opaque cell turns transparent exactly when all channels exceed the threshold; other cells are unchanged; no background cell remains |
| Background.RemoveBackgroundIdempotent | src/lib/PixelProcessor.ts:114-128 | removing the background twice gives the same sprite as removing it once |
| Background.RemoveBackgroundFixedPoint | src/lib/PixelProcessor.ts:114-128 | removal leaves a sprite unchanged exactly when none of its cells is background |
| HexColor.ByteHex | src/lib/PixelProcessor.ts:83 | a padded byte is two characters |
| HexColor.ToHex | src/lib/PixelProcessor.ts:81-84 | a cell is transparent exactly when its string is `transparent`; an opaque cell is 7 characters beginning with `#` |
| HexColor.DigitValue | src/lib/PixelProcessor.ts:118 | the value of one base-16 digit of either case, below 16, or none for any other character |
| HexColor.HexPrefixValue | src/lib/PixelProcessor.ts:118 | the value of a hex number continued with the leading digits of a string, stopping at the first non-digit |
| HexColor.ParseHex | src/lib/PixelProcessor.ts:118-120 | `parseInt(_, 16)`: the value of the leading hex digits, or none (`NaN`) when the string does not start with one |
| HexColor.Slice | src/lib/PixelProcessor.ts:118-120 | `slice(a, b)` with both ends clamped to the string's length; at most `b - a` characters |
| HexColor.Above | src/lib/PixelProcessor.ts:122 | the comparison `v > threshold`, false for `NaN` |
| HexColor.ClassifyHex | src/lib/PixelProcessor.ts:115-126 | the `map` callback on a colour string: `transparent` stays; a string whose three parsed channels all exceed the threshold becomes `transparent`; any other string is kept |
| HexColor.ByteHexRoundTrip | src/lib/PixelProcessor.ts:118-120 | `parseInt` in base 16 of the two padded hex digits of a byte gives the byte back |
| HexColor.ToHexChannels | src/lib/PixelProcessor.ts:118-120 | slicing `#rrggbb` at 1-3, 3-5 and 5-7 and parsing each slice gives the red, green and blue channels |
| HexColor.ToHexInjective | src/lib/PixelProcessor.ts:81-84 | distinct cells have distinct strings, so the `!== 'transparent'` string tests are tests on cells |
| HexColor.ClassifyHexAgrees | src/lib/PixelProcessor.ts:115-126 | the string callback applied to the string of a cell gives the string of the classified cell |
| HexColor.ToHexAll | src/lib/PixelProcessor.ts:104 | the string list has one entry per cell, each the cell's string |
| HexColor.ClassifyHexAll | src/lib/PixelProcessor.ts:115 | the `map` gives one classified string per input string |
| HexColor.RemoveBackgroundHexAgrees | src/lib/PixelProcessor.ts:114-128 | `removeBackground` on the stored strings equals the strings of the cell-level `RemoveBackground` |
| Cropper.CellAt | src/lib/PixelProcessor.ts:139-140 | the cell at (x, y), `pixels[y * width + x]` |
| Cropper.HasContent | src/lib/PixelProcessor.ts:140 | some cell is not `transparent` |
| Cropper.Include | src/lib/PixelProcessor.ts:141-145 | the update on a visible cell at (x, y): `hasContent` set, `minX`/`minY` lowered and `maxX`/`maxY` raised to take it in |
| Cropper.BoxAfter | src/lib/PixelProcessor.ts:134-148 | the scan state `(minX, minY, maxX, maxY, hasContent)` after the first `n` cells in row-major order, starting from `(width, height, 0, 0, false)` |
| Cropper.ContentBox | src/lib/PixelProcessor.ts:134-148 | the scan state once every cell has been visited |
| Cropper.BoxCell | src/lib/PixelProcessor.ts:158-162 | cell `i` of the copied rectangle: input cell (`minX + i % newWidth`, `minY + i / newWidth`) |
| Cropper.FindBox | src/lib/PixelProcessor.ts:134-148 | the first scan produces exactly the box `ContentBox(s)` |
| Cropper.CopyBox | src/lib/PixelProcessor.ts:154-163 | the copy loop yields `newWidth * newHeight` cells, cell `i` being the box cell in row-major order |
| Cropper.BoxCellAt | src/lib/PixelProcessor.ts:158-162 | input cell (x, y) inside the box, at flat index `y * width + x`, is cell `(y - minY) * newWidth + (x - minX)` of the rectangle |
| Cropper.TrimToContent | src/lib/PixelProcessor.ts:132-166 | the method returns exactly `Trim(s)` |
| Cropper.Trim | src/lib/PixelProcessor.ts:132-166 | the cropped sprite is well formed: its cell count equals `width * height` |
| Cropper.CellAtIndex | src/lib/PixelProcessor.ts:139 | flat index `i` is cell (`i % width`, `i / width`) of the grid |
| Cropper.BoxAfterSound | src/lib/PixelProcessor.ts:137-148 | after any prefix of the scan, `hasContent` holds exactly when a visible cell was seen; the box then lies in the grid and contains every visible cell seen; otherwise it is still the initial box |
| Cropper.BoxAfterTight | src/lib/PixelProcessor.ts:140-146 | each side of the box passes through a visible cell seen so far |
| Cropper.ContentBoxIsTight | src/lib/PixelProcessor.ts:134-148 | the final box exists exactly when a visible cell exists, contains every visible cell, and each of its four sides holds one |
| Cropper.TrimEmpty | src/lib/PixelProcessor.ts:150-152 | a sprite crops to `{0, 0, []}` exactly when it has no visible cell, whatever its size |
| Cropper.TrimCells | src/lib/PixelProcessor.ts:154-165 | the crop is `maxX-minX+1` by `maxY-minY+1`, and its cell (x, y) is input cell (minX+x, minY+y) |
| Cropper.CellInCrop | src/lib/PixelProcessor.ts:158-162 | a visible input cell inside the box is a visible cell of the crop at the shifted position |
| Cropper.TrimTight | src/lib/PixelProcessor.ts:132-166 | the first and last row and the first and last column of a non-empty crop each hold a visible cell |
| Cropper.ContentFromCell | src/lib/PixelProcessor.ts:140 | one visible cell is enough for `hasContent` |
| Cropper.TrimIdempotent | src/lib/PixelProcessor.ts:132-166 | cropping a cropped sprite changes nothing |
| Cropper.SourceIndexOfCrop | src/lib/PixelProcessor.ts:158-162 | crop cell `i` is the input cell at row `minY + i / newWidth` and column `minX + i % newWidth` |
| Cropper.CropImageSize | src/lib/PixelProcessor.ts:158-162 | on a set of crop indices where `SourceIndex` is injective, the set of source indices has the same size |
| Cropper.CropInjective | src/lib/PixelProcessor.ts:158-162 | distinct visible cells of the crop come from distinct input cells |
| Cropper.CropPreimage | src/lib/PixelProcessor.ts:154-163 | every visible input cell is copied into some visible cell of the crop |
| Cropper.TrimKeepsContentCount | src/lib/PixelProcessor.ts:154-163 | the crop has exactly as many visible cells as the input |
| Cropper.TrimSingle | src/lib/PixelProcessor.ts:132-166 | a sprite with a single visible cell crops to the 1 x 1 sprite holding that cell |
| Pipeline.ChosenSize | src/components/ConverterUI.tsx:96-101 | the grid size used: the detected size when auto-detecting, the user's otherwise |
| Pipeline.Processed | src/components/ConverterUI.tsx:103-105 | the sprite shown: the sample with the chosen size and the user's offset, cleared with threshold 250, then cropped |
| Pipeline.Convert | src/components/ConverterUI.tsx:95-108 | the size used is the detected one when auto-detecting (then 1 or even and at least 4), else the user's; the result is `Processed(img, size, ox, oy)` |
| Pipeline.ProcessedCells | src/components/ConverterUI.tsx:103-105 | the converter's sprite is well formed; no cell of it is background; each cell is transparent or a sampled cell |
| Pipeline.BlankRasterGivesEmpty | src/components/ConverterUI.tsx:103-105 | a raster whose pixels all have alpha 0 or channels above 250 converts to `{0, 0, []}` for any grid |
| Pipeline.ProcessedKeepsContent | src/components/ConverterUI.tsx:103-105 | the crop keeps every cell that survived background removal: the visible-cell counts agree |
| Pipeline.ReprocessingChangesNothing | src/components/ConverterUI.tsx:103-105 | running background removal and cropping again on the converter's output changes nothing |

## Left out

- Decoding the image into RGBA (`canvas`, `drawImage`, `getImageData`) is left out. The raster is a parameter.
- The React state, the grid overlay, the preview drawing and the PNG download (`toDataURL`) are left out. The preview's block placement appears only in the `Upscale` raster of the round-trip lemma. That raster differs from the preview: its scale is the grid size, not `max(1, floor(500 / max(w, h)))`; and transparent cells are RGBA (0, 0, 0, 0), not the checkerboard the preview paints under them (`ConverterUI.tsx:155-161`). The round trip depends on that zero alpha.
- The asynchronous `setTimeout`, and the `setGridSize` and `setProcessedData` updates, are left out. `Convert` returns the size it used and the sprite.
- Image generation through the remote service in `src/app/actions.ts` is left out: it is network I/O.
- Fractional grid offsets are left out. The converter's drag handler can produce them; the model takes integer offsets, for which the `Math.floor` of the sample point only rounds `g / 2` down.
- Sampler.ExtractPixelArt: requires a grid size of at least 1. With 0 the source divides by zero, and `rows` is `Infinity` whenever `H - oy > 0`. The row loop then never ends; when `W - ox > 0` as well, the inner loop pushes cells forever. The source returns only when `H - oy <= 0`, and then with `Infinity`, `NaN` or `-Infinity` dimensions. The model represents none of this.
- HexColor.ParseHex: models `parseInt(_, 16)` only on leading hex digits. Leading white space, signs and the `0x` prefix are left out because `toHex` never produces them.
- Cell colours are exact 8-bit integers. Floating-point arithmetic in JavaScript is not modelled beyond the floor divisions written out.
