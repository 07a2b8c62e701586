/**
 * The grid-size estimator (`detectGrid`): scan up to ten rows of a band around
 * mid-height, measure runs of similar colour along each row, bucket the run
 * lengths to even numbers and return the most frequent bucket.
 */
module GridDetection {
  import opened PixelTypes

  /** A colour change is a Manhattan RGB distance strictly above this. */
  const ChangeThreshold := 30
  /** Runs of at most this length are noise and are not recorded. */
  const NoiseRun := 2
  /** Height of the scanned band, starting at the middle row. */
  const BandRows := 50
  /** Distance between two scanned rows. */
  const RowStep := 5

  /** Result of the estimator: block size and grid offset. */
  datatype GridEstimate = GridEstimate(size: int, offsetX: int, offsetY: int)

  function Abs(v: int): (a: nat)
    ensures a == v || a == -v
  {
    if v < 0 then -v else v
  }

  /** Manhattan distance over the RGB channels (the source's `colorDiff`). */
  function ColorDiff(c1: Rgb, c2: Rgb): (d: nat)
    ensures d == 0 <==> c1 == c2
    ensures d <= 3 * 255
  {
    Abs(c1.r - c2.r) + Abs(c1.g - c2.g) + Abs(c1.b - c2.b)
  }

  // ---------------------------------------------------------------------------
  // Specification of the row scan

  /**
   * The run lengths the scan of row `y` records from column `x` to the end of
   * the row, when the current run started with colour `last` and has counted
   * `run` pixels after its first one.
   */
  function ScanFrom(img: Raster, y: int, x: int, last: Rgb, run: nat): seq<int>
    requires img.Valid() && 0 <= y < img.height && 1 <= x <= img.width
    decreases img.width - x
  {
    if x == img.width then []
    else
      var p := GetPixel(img, x, y);
      if ColorDiff(p, last) > ChangeThreshold then
        (if run > NoiseRun then [run] else []) + ScanFrom(img, y, x + 1, p, 0)
      else
        ScanFrom(img, y, x + 1, last, run + 1)
  }

  /** The run lengths recorded along row `y`. */
  function RowCandidates(img: Raster, y: int): seq<int>
    requires img.Valid() && 0 <= y < img.height
  {
    ScanFrom(img, y, 1, GetPixel(img, 0, y), 0)
  }

  /** The rows scanned from row `y` on, for an image of height `h`. */
  function RowsFrom(h: int, y: int): seq<int>
    requires 0 <= y
    decreases h - y
  {
    if y < h / 2 + BandRows && y < h then [y] + RowsFrom(h, y + RowStep) else []
  }

  /** The rows the estimator scans, top to bottom. */
  function ScannedRows(h: int): seq<int>
    requires h > 0
  {
    RowsFrom(h, h / 2)
  }

  /** The run lengths recorded along `rows`, in scan order. */
  function CandidatesOf(img: Raster, rows: seq<int>): seq<int>
    requires img.Valid() && forall i :: 0 <= i < |rows| ==> 0 <= rows[i] < img.height
  {
    if rows == [] then [] else RowCandidates(img, rows[0]) + CandidatesOf(img, rows[1..])
  }

  /** Every row `RowsFrom` yields is inside the image. */
  lemma {:induction false} RowsFromInImage(h: int, y: int)
    requires 0 <= y
    ensures forall i :: 0 <= i < |RowsFrom(h, y)| ==> y <= RowsFrom(h, y)[i] < h
    decreases h - y
  {
    if y < h / 2 + BandRows && y < h {
      RowsFromInImage(h, y + RowStep);
    }
  }

  /** All run lengths the estimator collects (the source's `transitionsX`). */
  function Candidates(img: Raster): seq<int>
    requires img.Valid()
  {
    RowsFromInImage(img.height, img.height / 2);
    CandidatesOf(img, ScannedRows(img.height))
  }

  // ---------------------------------------------------------------------------
  // Specification of the mode

  /** Bucket key of a run length: `Math.round(val / 2) * 2`, the nearest even number, halves rounded up. */
  function Bucket(val: int): (key: int)
    ensures key % 2 == 0 && val - 1 <= key <= val + 1
    ensures val % 2 != 0 ==> key == val + 1
  {
    ((val + 1) / 2) * 2
  }

  /** How many elements of `s` fall into bucket `key`. */
  function BucketCount(s: seq<int>, key: int): nat
  {
    if s == [] then 0
    else BucketCount(s[..|s| - 1], key) + (if Bucket(s[|s| - 1]) == key then 1 else 0)
  }

  /** The mode loop's running maximum: the largest count seen and its bucket. */
  datatype Tally = Tally(maxCount: nat, maxVal: int)

  /** State of the mode loop after it has consumed `s`. */
  function TallyOf(s: seq<int>): Tally
  {
    if s == [] then Tally(0, 1)
    else
      var t := TallyOf(s[..|s| - 1]);
      var key := Bucket(s[|s| - 1]);
      var c := BucketCount(s, key);
      if c > t.maxCount then Tally(c, key) else t
  }

  /** The source's `mode`: 1 for no values, otherwise the winning bucket if positive, else 1. */
  function Mode(s: seq<int>): (m: int)
    ensures m >= 1
    ensures s == [] ==> m == 1
  {
    if |s| == 0 then 1
    else
      var v := TallyOf(s).maxVal;
      if v > 0 then v else 1
  }

  /** The estimate `detectGrid` returns. */
  function Estimate(img: Raster): GridEstimate
    requires img.Valid()
  {
    var e := Mode(Candidates(img));
    GridEstimate(if e < 2 then 1 else e, 0, 0)
  }

  // ---------------------------------------------------------------------------
  // Implementation

  /** The mode loop over a `counts` record, `maxCount` and `maxVal`. */
  method ModeOf(arr: seq<int>) returns (m: int)
    ensures m == Mode(arr)
  {
    if |arr| == 0 {
      return 1;
    }
    var counts: map<int, nat> := map[];
    var maxCount: nat := 0;
    var maxVal := 1;
    for i := 0 to |arr|
      invariant forall k :: k in counts ==> counts[k] == BucketCount(arr[..i], k)
      invariant forall k :: k !in counts ==> BucketCount(arr[..i], k) == 0
      invariant TallyOf(arr[..i]) == Tally(maxCount, maxVal)
    {
      var key := Bucket(arr[i]);
      assert arr[..i + 1][..i] == arr[..i];
      counts := counts[key := (if key in counts then counts[key] else 0) + 1];
      if counts[key] > maxCount {
        maxCount := counts[key];
        maxVal := key;
      }
    }
    assert arr[..|arr|] == arr;
    m := if maxVal > 0 then maxVal else 1;
  }

  /** The inner loop of `detectGrid`: walk row `y` and return the run lengths it records. */
  method ScanRow(img: Raster, y: int) returns (runs: seq<int>)
    requires img.Valid() && 0 <= y < img.height
    ensures runs == RowCandidates(img, y)
  {
    runs := [];
    var lastPixel := GetPixel(img, 0, y);
    var runLength: nat := 0;
    for x := 1 to img.width
      invariant runs + ScanFrom(img, y, x, lastPixel, runLength) == RowCandidates(img, y)
    {
      var pixel := GetPixel(img, x, y);
      if ColorDiff(pixel, lastPixel) > ChangeThreshold {
        if runLength > NoiseRun {
          runs := runs + [runLength];
        }
        runLength := 0;
        lastPixel := pixel;
      } else {
        runLength := runLength + 1;
      }
    }
  }

  /** `detectGrid`: scan the band of rows, then take the mode of the recorded runs. */
  method DetectGrid(img: Raster) returns (est: GridEstimate)
    requires img.Valid()
    ensures est == Estimate(img)
    ensures est.offsetX == 0 && est.offsetY == 0
    ensures est.size == 1 || (est.size >= 4 && est.size % 2 == 0)
  {
    var transitions: seq<int> := [];
    var y := img.height / 2;
    RowsFromInImage(img.height, y);
    while y < img.height / 2 + BandRows && y < img.height
      invariant img.height / 2 <= y
      invariant forall i :: 0 <= i < |RowsFrom(img.height, y)| ==> 0 <= RowsFrom(img.height, y)[i] < img.height
      invariant transitions + CandidatesOf(img, RowsFrom(img.height, y)) == Candidates(img)
      decreases img.height - y
    {
      var runs := ScanRow(img, y);
      transitions := transitions + runs;
      RowsFromInImage(img.height, y + RowStep);
      y := y + RowStep;
    }
    assert RowsFrom(img.height, y) == [];
    assert transitions == Candidates(img);
    var m := ModeOf(transitions);
    est := GridEstimate(if m < 2 then 1 else m, 0, 0);
    EstimateRange(img);
  }

  // ---------------------------------------------------------------------------
  // Properties

  /** Only rows `h/2 + 5k` with `k < 10` and inside the image are scanned, and no such row is skipped. */
  lemma {:induction false} ScannedRowsAre(h: int)
    requires h > 0
    ensures |ScannedRows(h)| <= BandRows / RowStep
    ensures forall i :: 0 <= i < |ScannedRows(h)| ==>
      ScannedRows(h)[i] == h / 2 + RowStep * i && ScannedRows(h)[i] < h
    ensures |ScannedRows(h)| == BandRows / RowStep || h / 2 + RowStep * |ScannedRows(h)| >= h
  {
    RowsFromShape(h, 0);
  }

  lemma {:induction false} RowsFromShape(h: int, k: nat)
    requires h > 0 && k <= BandRows / RowStep
    ensures var rows := RowsFrom(h, h / 2 + RowStep * k);
      && |rows| <= BandRows / RowStep - k
      && (forall i :: 0 <= i < |rows| ==> rows[i] == h / 2 + RowStep * (k + i) && rows[i] < h)
      && (k + |rows| == BandRows / RowStep || h / 2 + RowStep * (k + |rows|) >= h)
    decreases BandRows / RowStep - k
  {
    var y := h / 2 + RowStep * k;
    if y < h / 2 + BandRows && y < h {
      RowsFromShape(h, k + 1);
      assert y + RowStep == h / 2 + RowStep * (k + 1);
    }
  }

  /** Every run the row scan records is longer than the noise bound. */
  lemma {:induction false} ScanFromAboveNoise(img: Raster, y: int, x: int, last: Rgb, run: nat)
    requires img.Valid() && 0 <= y < img.height && 1 <= x <= img.width
    ensures forall i :: 0 <= i < |ScanFrom(img, y, x, last, run)| ==> ScanFrom(img, y, x, last, run)[i] > NoiseRun
    decreases img.width - x
  {
    if x < img.width {
      var p := GetPixel(img, x, y);
      if ColorDiff(p, last) > ChangeThreshold {
        ScanFromAboveNoise(img, y, x + 1, p, 0);
      } else {
        ScanFromAboveNoise(img, y, x + 1, last, run + 1);
      }
    }
  }

  lemma {:induction false} CandidatesOfAboveNoise(img: Raster, rows: seq<int>)
    requires img.Valid() && forall i :: 0 <= i < |rows| ==> 0 <= rows[i] < img.height
    ensures forall i :: 0 <= i < |CandidatesOf(img, rows)| ==> CandidatesOf(img, rows)[i] > NoiseRun
  {
    if rows != [] {
      ScanFromAboveNoise(img, rows[0], 1, GetPixel(img, 0, rows[0]), 0);
      CandidatesOfAboveNoise(img, rows[1..]);
    }
  }

  /** Every recorded candidate is a run longer than 2 pixels. */
  lemma CandidatesAboveNoise(img: Raster)
    requires img.Valid()
    ensures forall i :: 0 <= i < |Candidates(img)| ==> Candidates(img)[i] > NoiseRun
  {
    RowsFromInImage(img.height, img.height / 2);
    CandidatesOfAboveNoise(img, ScannedRows(img.height));
  }

  /**
   * A run that meets no colour change before the end of the row is never
   * recorded; in particular the trailing run of every row is dropped.
   */
  lemma {:induction false} NoChangeNoRun(img: Raster, y: int, x: int, last: Rgb, run: nat)
    requires img.Valid() && 0 <= y < img.height && 1 <= x <= img.width
    requires forall x' :: x <= x' < img.width ==> ColorDiff(GetPixel(img, x', y), last) <= ChangeThreshold
    ensures ScanFrom(img, y, x, last, run) == []
    decreases img.width - x
  {
    if x < img.width {
      NoChangeNoRun(img, y, x + 1, last, run + 1);
    }
  }

  /** The winning bucket of a non-empty list is the bucket of one of its elements. */
  lemma {:induction false} TallyWinnerOccurs(s: seq<int>)
    requires s != []
    ensures exists i :: 0 <= i < |s| && TallyOf(s).maxVal == Bucket(s[i])
    ensures TallyOf(s).maxCount >= 1
  {
    var p := s[..|s| - 1];
    var t := TallyOf(p);
    var c := BucketCount(s, Bucket(s[|s| - 1]));
    assert s[..|s| - 1] == p;
    if p == [] {
      assert BucketCount(p, Bucket(s[0])) == 0;
      assert c == 1;
    } else {
      TallyWinnerOccurs(p);
      var i :| 0 <= i < |p| && t.maxVal == Bucket(p[i]);
      assert s[i] == p[i];
    }
  }

  /** A run length above 2 falls into an even bucket of at least 4. */
  lemma BucketOfRun(v: int)
    requires v > NoiseRun
    ensures Bucket(v) >= 4 && Bucket(v) % 2 == 0
  {
  }

  /**
   * The estimate's offset is always (0, 0); its size is 1 exactly when no run
   * was recorded, and otherwise an even number of at least 4.
   */
  lemma EstimateRange(img: Raster)
    requires img.Valid()
    ensures Estimate(img).offsetX == 0 && Estimate(img).offsetY == 0
    ensures Estimate(img).size == 1 <==> Candidates(img) == []
    ensures Estimate(img).size == 1 || (Estimate(img).size >= 4 && Estimate(img).size % 2 == 0)
  {
    var c := Candidates(img);
    if c != [] {
      TallyWinnerOccurs(c);
      CandidatesAboveNoise(img);
      var i :| 0 <= i < |c| && TallyOf(c).maxVal == Bucket(c[i]);
      BucketOfRun(c[i]);
    }
  }

  /**
   * When no scanned row has a pixel more than 30 away from the row's first
   * pixel, nothing is recorded and the estimate is 1 (no downscaling).
   */
  lemma NoColourChangeGivesOne(img: Raster)
    requires img.Valid()
    requires forall y, x :: y in ScannedRows(img.height) && 0 <= y < img.height && 0 <= x < img.width ==>
      ColorDiff(GetPixel(img, x, y), GetPixel(img, 0, y)) <= ChangeThreshold
    ensures Candidates(img) == []
    ensures Estimate(img) == GridEstimate(1, 0, 0)
  {
    var rows := ScannedRows(img.height);
    RowsFromInImage(img.height, img.height / 2);
    forall i, x | 0 <= i < |rows| && 0 <= x < img.width
      ensures ColorDiff(GetPixel(img, x, rows[i]), GetPixel(img, 0, rows[i])) <= ChangeThreshold
    {
      assert rows[i] in rows;
    }
    NoChangeCandidatesOf(img, rows);
    EstimateRange(img);
  }

  lemma {:induction false} NoChangeCandidatesOf(img: Raster, rows: seq<int>)
    requires img.Valid() && forall i :: 0 <= i < |rows| ==> 0 <= rows[i] < img.height
    requires forall i, x :: 0 <= i < |rows| && 0 <= x < img.width ==>
      ColorDiff(GetPixel(img, x, rows[i]), GetPixel(img, 0, rows[i])) <= ChangeThreshold
    ensures CandidatesOf(img, rows) == []
  {
    if rows != [] {
      assert forall x :: 0 <= x < img.width ==> ColorDiff(GetPixel(img, x, rows[0]), GetPixel(img, 0, rows[0])) <= ChangeThreshold;
      NoChangeNoRun(img, rows[0], 1, GetPixel(img, 0, rows[0]), 0);
      NoChangeCandidatesOf(img, rows[1..]);
    }
  }

  /** The tally's count is the count of its bucket, and no bucket has a larger count. */
  lemma {:induction false} TallyIsMaximal(s: seq<int>)
    ensures s != [] ==> BucketCount(s, TallyOf(s).maxVal) == TallyOf(s).maxCount
    ensures forall k :: BucketCount(s, k) <= TallyOf(s).maxCount
  {
    if s != [] {
      var p := s[..|s| - 1];
      assert s[..|s| - 1] == p;
      TallyIsMaximal(p);
      var t := TallyOf(p);
      var key := Bucket(s[|s| - 1]);
      if BucketCount(s, key) <= t.maxCount && p != [] {
        assert BucketCount(s, t.maxVal) >= BucketCount(p, t.maxVal);
      }
    }
  }

  /** Prefix length at which the mode loop last replaced its winner. */
  function RaisedAt(s: seq<int>): (n: nat)
    ensures n <= |s|
  {
    if s == [] then 0
    else
      var t := TallyOf(s[..|s| - 1]);
      if BucketCount(s, Bucket(s[|s| - 1])) > t.maxCount then |s| else RaisedAt(s[..|s| - 1])
  }

  lemma PrefixOfPrefix(s: seq<int>, n: nat)
    requires n <= |s| - 1
    ensures s[..|s| - 1][..n] == s[..n]
  {
  }

  /**
   * Ties go to the bucket that reached the winning count first: when the
   * winner was last replaced, it had reached its final count and every other
   * bucket was strictly below it.
   */
  lemma {:induction false} ModeBreaksTiesByArrival(s: seq<int>)
    requires s != []
    ensures BucketCount(s[..RaisedAt(s)], TallyOf(s).maxVal) == TallyOf(s).maxCount
    ensures forall k :: k != TallyOf(s).maxVal ==> BucketCount(s[..RaisedAt(s)], k) < TallyOf(s).maxCount
  {
    var p := s[..|s| - 1];
    assert s[..|s| - 1] == p;
    var t := TallyOf(p);
    var key := Bucket(s[|s| - 1]);
    if BucketCount(s, key) > t.maxCount {
      assert s[..|s|] == s;
      TallyIsMaximal(p);
      forall k | k != key
        ensures BucketCount(s, k) < BucketCount(s, key)
      {
        assert BucketCount(s, k) == BucketCount(p, k);
      }
    } else {
      ModeBreaksTiesByArrival(p);
      PrefixOfPrefix(s, RaisedAt(p));
    }
  }

  // ---------------------------------------------------------------------------
  // Synthetic rasters of n x n blocks in two colours

  /** The colour of column `x` in stripes of width `n`, alternating `c0`, `c1` from the left edge. */
  function StripeColour(n: int, c0: Rgb, c1: Rgb, x: int): Rgb
    requires n > 0 && x >= 0
  {
    if (x / n) % 2 == 0 then c0 else c1
  }

  /** Every pixel of row `y` has the colour of its column's stripe, starting with `c0`. */
  predicate IsStripeRow(img: Raster, n: int, c0: Rgb, c1: Rgb, y: int)
    requires img.Valid() && n > 0 && 0 <= y < img.height
  {
    forall x :: 0 <= x < img.width ==> GetPixel(img, x, y) == StripeColour(n, c0, c1, x)
  }

  /**
   * Every row is a stripe row of width `n` in one of the two phases: vertical
   * stripes, a checkerboard, or any other stacking of the two row patterns.
   */
  predicate IsBlockRaster(img: Raster, n: int, c0: Rgb, c1: Rgb)
    requires img.Valid() && n > 0
  {
    forall y :: 0 <= y < img.height ==> IsStripeRow(img, n, c0, c1, y) || IsStripeRow(img, n, c1, c0, y)
  }

  /** The colour of pixel (x, y) of an `n` x `n` checkerboard whose top-left block is `c0`. */
  function CheckerColour(n: int, c0: Rgb, c1: Rgb, x: int, y: int): Rgb
    requires n > 0 && x >= 0 && y >= 0
  {
    if (x / n + y / n) % 2 == 0 then c0 else c1
  }

  /** Every pixel of `img` has its checkerboard colour. */
  predicate IsCheckerboard(img: Raster, n: int, c0: Rgb, c1: Rgb)
    requires img.Valid() && n > 0
  {
    forall x, y :: 0 <= x < img.width && 0 <= y < img.height ==> GetPixel(img, x, y) == CheckerColour(n, c0, c1, x, y)
  }

  /** A checkerboard colour is the stripe colour of its column, in the phase of its block row. */
  lemma CheckerIsStripe(n: int, c0: Rgb, c1: Rgb, x: int, y: int)
    requires n > 0 && x >= 0 && y >= 0
    ensures (y / n) % 2 == 0 ==> CheckerColour(n, c0, c1, x, y) == StripeColour(n, c0, c1, x)
    ensures (y / n) % 2 != 0 ==> CheckerColour(n, c0, c1, x, y) == StripeColour(n, c1, c0, x)
  {
    var a, b := x / n, y / n;
    assert a >= 0 && b >= 0;
    assert a == 2 * (a / 2) + a % 2 && b == 2 * (b / 2) + b % 2;
    assert a + b == 2 * (a / 2 + b / 2) + a % 2 + b % 2;
    if a % 2 + b % 2 == 2 {
      assert a + b == 2 * (a / 2 + b / 2 + 1);
    }
  }

  /** A checkerboard row is a stripe row, in phase `c0, c1` on even block rows and `c1, c0` on odd ones. */
  lemma CheckerboardRows(img: Raster, n: int, c0: Rgb, c1: Rgb)
    requires img.Valid() && n > 0 && IsCheckerboard(img, n, c0, c1)
    ensures IsBlockRaster(img, n, c0, c1)
  {
    forall y | 0 <= y < img.height
      ensures IsStripeRow(img, n, c0, c1, y) || IsStripeRow(img, n, c1, c0, y)
    {
      forall x | 0 <= x < img.width
        ensures (y / n) % 2 == 0 ==> GetPixel(img, x, y) == StripeColour(n, c0, c1, x)
        ensures (y / n) % 2 != 0 ==> GetPixel(img, x, y) == StripeColour(n, c1, c0, x)
      {
        CheckerIsStripe(n, c0, c1, x, y);
      }
    }
  }

  /** Stepping one column right either stays in the stripe or starts the next one. */
  lemma ColumnStep(n: int, x: int)
    requires n > 0 && x >= 1
    ensures x % n == 0 ==> (x - 1) % n == n - 1 && (x - 1) / n == x / n - 1
    ensures x % n != 0 ==> (x - 1) % n == x % n - 1 && (x - 1) / n == x / n
  {
    var q, r := x / n, x % n;
    assert x == q * n + r;
    assert q >= 0;
    if r == 0 {
      assert q >= 1;
      assert x - 1 == (q - 1) * n + (n - 1);
      RowMajor(n - 1, q - 1, n);
    } else {
      assert x - 1 == q * n + (r - 1);
      RowMajor(r - 1, q, n);
    }
  }

  /** Stepping one column right keeps the stripe colour, except at a stripe boundary, where it changes. */
  lemma StripeColourStep(n: int, c0: Rgb, c1: Rgb, x: int)
    requires n > 0 && x >= 1 && c0 != c1
    ensures x % n == 0 ==> StripeColour(n, c0, c1, x) != StripeColour(n, c0, c1, x - 1) && (x - 1) % n == n - 1
    ensures x % n != 0 ==> StripeColour(n, c0, c1, x) == StripeColour(n, c0, c1, x - 1) && (x - 1) % n + 1 == x % n
  {
    ColumnStep(n, x);
  }

  lemma ColorDiffSymmetric(c1: Rgb, c2: Rgb)
    ensures ColorDiff(c1, c2) == ColorDiff(c2, c1)
  {
  }

  /** Along a stripe row, every recorded run is `n - 1`: the count excludes the run's first pixel. */
  lemma {:induction false} StripeRuns(img: Raster, n: int, c0: Rgb, c1: Rgb, y: int, x: int, last: Rgb, run: nat)
    requires img.Valid() && n >= 4 && 0 <= y < img.height && 1 <= x <= img.width
    requires ColorDiff(c0, c1) > ChangeThreshold
    requires IsStripeRow(img, n, c0, c1, y)
    requires last == StripeColour(n, c0, c1, x - 1) && run == (x - 1) % n
    ensures forall i :: 0 <= i < |ScanFrom(img, y, x, last, run)| ==> ScanFrom(img, y, x, last, run)[i] == n - 1
    ensures x <= n < img.width ==> ScanFrom(img, y, x, last, run) != []
    decreases img.width - x
  {
    if x < img.width {
      StripeColourStep(n, c0, c1, x);
      ColorDiffSymmetric(c0, c1);
      var p := GetPixel(img, x, y);
      assert p == StripeColour(n, c0, c1, x);
      if x % n == 0 {
        assert ColorDiff(p, last) > ChangeThreshold;
        assert run == n - 1;
        StripeRuns(img, n, c0, c1, y, x + 1, p, 0);
        assert ScanFrom(img, y, x, last, run) == [run] + ScanFrom(img, y, x + 1, p, 0);
      } else {
        assert ColorDiff(p, last) == 0;
        assert n % n == 0;
        assert x != n;
        StripeRuns(img, n, c0, c1, y, x + 1, last, run + 1);
        assert ScanFrom(img, y, x, last, run) == ScanFrom(img, y, x + 1, last, run + 1);
      }
    }
  }

  /** Along a stripe row in either phase, every recorded run is `n - 1`, and at least one is recorded. */
  lemma RowRuns(img: Raster, n: int, c0: Rgb, c1: Rgb, y: int)
    requires img.Valid() && n >= 4 && n < img.width && 0 <= y < img.height
    requires ColorDiff(c0, c1) > ChangeThreshold
    requires IsStripeRow(img, n, c0, c1, y) || IsStripeRow(img, n, c1, c0, y)
    ensures forall i :: 0 <= i < |RowCandidates(img, y)| ==> RowCandidates(img, y)[i] == n - 1
    ensures RowCandidates(img, y) != []
  {
    assert 0 % n == 0;
    if IsStripeRow(img, n, c0, c1, y) {
      assert GetPixel(img, 0, y) == StripeColour(n, c0, c1, 0);
      StripeRuns(img, n, c0, c1, y, 1, GetPixel(img, 0, y), 0);
    } else {
      ColorDiffSymmetric(c0, c1);
      assert GetPixel(img, 0, y) == StripeColour(n, c1, c0, 0);
      StripeRuns(img, n, c1, c0, y, 1, GetPixel(img, 0, y), 0);
    }
  }

  lemma {:induction false} BlockCandidatesOf(img: Raster, n: int, c0: Rgb, c1: Rgb, rows: seq<int>)
    requires img.Valid() && n >= 4 && n < img.width
    requires forall i :: 0 <= i < |rows| ==> 0 <= rows[i] < img.height
    requires ColorDiff(c0, c1) > ChangeThreshold
    requires IsBlockRaster(img, n, c0, c1)
    ensures forall i :: 0 <= i < |CandidatesOf(img, rows)| ==> CandidatesOf(img, rows)[i] == n - 1
    ensures rows != [] ==> CandidatesOf(img, rows) != []
  {
    if rows != [] {
      RowRuns(img, n, c0, c1, rows[0]);
      BlockCandidatesOf(img, n, c0, c1, rows[1..]);
    }
  }

  /** A tally over values that all share one bucket elects that bucket. */
  lemma {:induction false} TallyOfUniform(s: seq<int>, v: int)
    requires s != [] && forall i :: 0 <= i < |s| ==> s[i] == v
    ensures TallyOf(s).maxVal == Bucket(v)
  {
    var p := s[..|s| - 1];
    assert s[..|s| - 1] == p;
    if p == [] {
      assert BucketCount(s, Bucket(v)) == 1;
    } else {
      TallyOfUniform(p, v);
    }
  }

  /**
   * On a raster whose rows are `n`-pixel stripes of two colours more than 30
   * apart, each row in either phase, with `n >= 4` and the image wider than
   * `n`, every recorded run is `n - 1`; rounding to an even bucket turns that
   * back into `n` when `n` is even, but an odd width `n` is estimated as `n - 1`.
   */
  lemma BlockEstimate(img: Raster, n: int, c0: Rgb, c1: Rgb)
    requires img.Valid() && n >= 4 && n < img.width
    requires ColorDiff(c0, c1) > ChangeThreshold
    requires IsBlockRaster(img, n, c0, c1)
    ensures Candidates(img) != []
    ensures forall i :: 0 <= i < |Candidates(img)| ==> Candidates(img)[i] == n - 1
    ensures Estimate(img) == GridEstimate(if n % 2 == 0 then n else n - 1, 0, 0)
  {
    RowsFromInImage(img.height, img.height / 2);
    var rows := ScannedRows(img.height);
    assert rows != [];
    BlockCandidatesOf(img, n, c0, c1, rows);
    TallyOfUniform(Candidates(img), n - 1);
    assert Bucket(n - 1) == (n / 2) * 2;
  }

  /** An `n` x `n` checkerboard of two colours more than 30 apart, wider than `n`, is estimated as `n` for even `n` and `n - 1` for odd `n`. */
  lemma CheckerboardEstimate(img: Raster, n: int, c0: Rgb, c1: Rgb)
    requires img.Valid() && n >= 4 && n < img.width
    requires ColorDiff(c0, c1) > ChangeThreshold
    requires IsCheckerboard(img, n, c0, c1)
    ensures Estimate(img) == GridEstimate(if n % 2 == 0 then n else n - 1, 0, 0)
  {
    CheckerboardRows(img, n, c0, c1);
    BlockEstimate(img, n, c0, c1);
  }
}
