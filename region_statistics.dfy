/** The three block statistics of AutomaticRegionProcessor and the first-match
    rule table that turns them into a filter choice. The statistics are doubles
    in the source; here the integer sums are exact and the divisions are exact
    rationals, and a division by a zero count gives NaN as it does in IEEE
    arithmetic. */
module RegionStatistics {
  import opened Numeric
  import opened Image
  import opened RegionRule
  import opened FloatFilters

  /** A double the statistics can produce: a number, or NaN from 0.0 / 0. */
  datatype Ratio = Finite(value: real) | NaN

  /** `r < c` on doubles: false when r is NaN. */
  predicate Below(r: Ratio, c: real) {
    r.Finite? && r.value < c
  }

  /** `r > c` on doubles: false when r is NaN. */
  predicate Above(r: Ratio, c: real) {
    r.Finite? && r.value > c
  }

  /** `total / count` with a double total and an int count. */
  function Divide(total: real, count: int): (q: Ratio)
    ensures q.NaN? <==> count == 0
  {
    if count == 0 then NaN else Finite(total / count as real)
  }

  /** What an accumulator adds per pixel: `sum += pixel`, `sumSquares += pixel * pixel`,
      `if (pixel > 128) edgePixels++`. */
  datatype Measure = Brightness | SquaredBrightness | BrightPixel

  function Weigh(m: Measure, p: int): int {
    match m
    case Brightness => p
    case SquaredBrightness => p * p
    case BrightPixel => if p > 128 then 1 else 0
  }

  /** The region lies inside a valid image. */
  predicate Inside(img: GrayscaleImage, r: Rectangle) {
    img.Valid() && r.Within(img.width, img.height)
  }

  /** The measure summed over the first n pixels of row y of the region. */
  function RowTally(img: GrayscaleImage, r: Rectangle, m: Measure, y: int, n: nat): int
    requires Inside(img, r) && r.y <= y < r.Bottom() && n <= r.width
  {
    if n == 0 then 0 else RowTally(img, r, m, y, n - 1) + Weigh(m, img.At(r.x + n - 1, y))
  }

  /** The measure summed over the first rows rows of the region, row by row. */
  function Tally(img: GrayscaleImage, r: Rectangle, m: Measure, rows: nat): int
    requires Inside(img, r) && rows <= r.height
  {
    if rows == 0 then 0 else Tally(img, r, m, rows - 1) + RowTally(img, r, m, r.y + rows - 1, r.width)
  }

  /** `CalculateVariance`: `sumSquares / count - mean * mean` with `mean = sum / count`. */
  function Variance(img: GrayscaleImage, r: Rectangle): (v: Ratio)
    requires Inside(img, r)
    ensures v.NaN? <==> r.width * r.height == 0
  {
    var count := r.width * r.height;
    if count == 0 then NaN
    else
      var mean := Tally(img, r, Brightness, r.height) as real / count as real;
      Finite(Tally(img, r, SquaredBrightness, r.height) as real / count as real - mean * mean)
  }

  /** `CalculateEdgeDensity`: the share of pixels brighter than 128. */
  function EdgeDensity(img: GrayscaleImage, r: Rectangle): (d: Ratio)
    requires Inside(img, r)
    ensures d.NaN? <==> r.width * r.height == 0
  {
    Divide(Tally(img, r, BrightPixel, r.height) as real, r.width * r.height)
  }

  /** The inner loop of `CalculateVariance` over row y of the region, adding into
      the running sums and count. */
  method AddBrightnessRow(img: GrayscaleImage, r: Rectangle, y: int, sum0: int, sumSquares0: int, count0: int)
    returns (sum: int, sumSquares: int, count: int)
    requires Inside(img, r) && r.y <= y < r.Bottom()
    ensures sum == sum0 + RowTally(img, r, Brightness, y, r.width)
    ensures sumSquares == sumSquares0 + RowTally(img, r, SquaredBrightness, y, r.width)
    ensures count == count0 + r.width
  {
    sum, sumSquares, count := sum0, sumSquares0, count0;
    var x := r.x;
    while x < r.Right()
      invariant r.x <= x <= r.Right()
      invariant sum == sum0 + RowTally(img, r, Brightness, y, x - r.x)
      invariant sumSquares == sumSquares0 + RowTally(img, r, SquaredBrightness, y, x - r.x)
      invariant count == count0 + (x - r.x)
    {
      var pixel: int := img.At(x, y);
      sum := sum + pixel;
      sumSquares := sumSquares + pixel * pixel;
      count := count + 1;
      x := x + 1;
    }
  }

  /** The two loops of `CalculateVariance`: the sums over the whole region. */
  method SumBrightness(img: GrayscaleImage, r: Rectangle) returns (sum: int, sumSquares: int, count: int)
    requires Inside(img, r)
    ensures sum == Tally(img, r, Brightness, r.height)
    ensures sumSquares == Tally(img, r, SquaredBrightness, r.height)
    ensures count == r.width * r.height
  {
    sum, sumSquares, count := 0, 0, 0;
    var y := r.y;
    ghost var rows := 0;
    while y < r.Bottom()
      invariant 0 <= rows <= r.height && y == r.y + rows
      invariant sum == Tally(img, r, Brightness, rows)
      invariant sumSquares == Tally(img, r, SquaredBrightness, rows)
      invariant count == r.width * rows
    {
      sum, sumSquares, count := AddBrightnessRow(img, r, y, sum, sumSquares, count);
      Distribute(rows, 1, r.width);
      y := y + 1;
      rows := rows + 1;
    }
    assert rows == r.height;
  }

  method CalculateVariance(img: GrayscaleImage, r: Rectangle) returns (variance: Ratio)
    requires Inside(img, r)
    ensures variance == Variance(img, r)
  {
    var sum, sumSquares, count := SumBrightness(img, r);
    if count == 0 {
      return NaN;
    }
    var mean := sum as real / count as real;
    variance := Finite(sumSquares as real / count as real - mean * mean);
  }

  /** The counting loops of `CalculateEdgeDensity`. */
  method CalculateEdgeDensity(img: GrayscaleImage, r: Rectangle) returns (density: Ratio)
    requires Inside(img, r)
    ensures density == EdgeDensity(img, r)
  {
    var count: int, edgePixels: int := 0, 0;
    var y := r.y;
    ghost var rows := 0;
    while y < r.Bottom()
      invariant 0 <= rows <= r.height && y == r.y + rows
      invariant edgePixels == Tally(img, r, BrightPixel, rows)
      invariant count == r.width * rows
    {
      var x := r.x;
      while x < r.Right()
        invariant r.x <= x <= r.Right()
        invariant edgePixels == Tally(img, r, BrightPixel, rows) + RowTally(img, r, BrightPixel, y, x - r.x)
        invariant count == r.width * rows + (x - r.x)
      {
        assert RowTally(img, r, BrightPixel, y, x + 1 - r.x) == RowTally(img, r, BrightPixel, y, x - r.x) + Weigh(BrightPixel, img.At(x, y));
        if img.At(x, y) > 128 {
          edgePixels := edgePixels + 1;
        }
        count := count + 1;
        x := x + 1;
      }
      Distribute(rows, 1, r.width);
      y := y + 1;
      rows := rows + 1;
    }
    assert rows == r.height;
    density := Divide(edgePixels as real, count);
  }

  /** The inset window of `CalculateAverageGradient`: columns Left + 1 .. Right - 2
      and rows Top + 1 .. Bottom - 2, empty when a side is 2 or less. */
  function InsetCols(r: Rectangle): nat {
    if r.width > 2 then r.width - 2 else 0
  }

  function InsetRows(r: Rectangle): nat {
    if r.height > 2 then r.height - 2 else 0
  }

  /** `Math.Sqrt(gx * gx + gy * gy)` with the central differences
      `gx = P[x + 1, y] - P[x - 1, y]` and `gy = P[x, y + 1] - P[x, y - 1]`. */
  function GradientSample(ff: Filters, img: GrayscaleImage, x: int, y: int): (s: real)
    requires img.Valid() && 1 <= x < img.width - 1 && 1 <= y < img.height - 1
    ensures ff.Valid() ==> s >= 0.0
  {
    var gx: int := img.At(x + 1, y) as int - img.At(x - 1, y) as int;
    var gy: int := img.At(x, y + 1) as int - img.At(x, y - 1) as int;
    ff.sqrt(gx * gx + gy * gy)
  }

  /** The samples at the first n inset columns of row y. */
  function GradientRow(ff: Filters, img: GrayscaleImage, r: Rectangle, y: int, n: nat): real
    requires Inside(img, r) && r.y + 1 <= y < r.Bottom() - 1 && n <= InsetCols(r)
  {
    if n == 0 then 0.0 else GradientRow(ff, img, r, y, n - 1) + GradientSample(ff, img, r.x + n, y)
  }

  /** The samples of the first rows inset rows. */
  function GradientTotal(ff: Filters, img: GrayscaleImage, r: Rectangle, rows: nat): real
    requires Inside(img, r) && rows <= InsetRows(r)
  {
    if rows == 0 then 0.0 else GradientTotal(ff, img, r, rows - 1) + GradientRow(ff, img, r, r.y + rows, InsetCols(r))
  }

  /** `CalculateAverageGradient`: NaN when the inset window is empty. */
  function AverageGradient(ff: Filters, img: GrayscaleImage, r: Rectangle): (g: Ratio)
    requires Inside(img, r)
    ensures g.NaN? <==> r.width <= 2 || r.height <= 2
  {
    if r.width > 2 && r.height > 2 then
      MulLe(1, InsetCols(r), InsetRows(r));
      Divide(GradientTotal(ff, img, r, InsetRows(r)), InsetCols(r) * InsetRows(r))
    else
      NaN
  }

  /** The body of `CalculateAverageGradient`'s inner loop, reading the four
      neighbours at their flat buffer offsets. */
  method Sample(ff: Filters, img: GrayscaleImage, x: int, y: int) returns (magnitude: real)
    requires img.Valid() && 1 <= x < img.width - 1 && 1 <= y < img.height - 1
    ensures magnitude == GradientSample(ff, img, x, y)
  {
    IndexInRange(img.width, img.height, x + 1, y);
    IndexInRange(img.width, img.height, x - 1, y);
    IndexInRange(img.width, img.height, x, y + 1);
    IndexInRange(img.width, img.height, x, y - 1);
    var gx := img.pixels[y * img.width + x + 1] as int - img.pixels[y * img.width + x - 1] as int;
    var gy := img.pixels[(y + 1) * img.width + x] as int - img.pixels[(y - 1) * img.width + x] as int;
    assert gx == img.At(x + 1, y) - img.At(x - 1, y) && gy == img.At(x, y + 1) - img.At(x, y - 1);
    magnitude := ff.sqrt(gx * gx + gy * gy);
  }

  /** The inner loop of `CalculateAverageGradient` over the inset columns of row y,
      adding into the running total and count. */
  method AddGradientRow(ff: Filters, img: GrayscaleImage, r: Rectangle, y: int, total0: real, count0: int)
    returns (totalGradient: real, count: int)
    requires Inside(img, r) && r.y + 1 <= y < r.Bottom() - 1
    ensures totalGradient == total0 + GradientRow(ff, img, r, y, InsetCols(r))
    ensures count == count0 + InsetCols(r)
  {
    totalGradient, count := total0, count0;
    var x := r.x + 1;
    while x < r.Right() - 1
      invariant r.x + 1 <= x <= r.x + 1 + InsetCols(r)
      invariant totalGradient == total0 + GradientRow(ff, img, r, y, x - r.x - 1)
      invariant count == count0 + (x - r.x - 1)
    {
      var magnitude := Sample(ff, img, x, y);
      assert GradientRow(ff, img, r, y, x - r.x) == GradientRow(ff, img, r, y, x - r.x - 1) + magnitude;
      totalGradient := totalGradient + magnitude;
      count := count + 1;
      x := x + 1;
    }
  }

  /** The accumulator loops of `CalculateAverageGradient`. */
  method CalculateAverageGradient(ff: Filters, img: GrayscaleImage, r: Rectangle) returns (gradient: Ratio)
    requires Inside(img, r)
    ensures gradient == AverageGradient(ff, img, r)
  {
    var totalGradient: real := 0.0;
    var count: int := 0;
    var y := r.y + 1;
    ghost var rows := 0;
    while y < r.Bottom() - 1
      invariant 0 <= rows <= InsetRows(r) && y == r.y + 1 + rows
      invariant totalGradient == GradientTotal(ff, img, r, rows)
      invariant count == InsetCols(r) * rows
    {
      totalGradient, count := AddGradientRow(ff, img, r, y, totalGradient, count);
      Distribute(rows, 1, InsetCols(r));
      y := y + 1;
      rows := rows + 1;
    }
    assert rows == InsetRows(r);
    gradient := Divide(totalGradient, count);
  }

  /** The first-match rule table of `GenerateProcessingRules`. A smooth block
      (variance below 50, density below 0.05) can meet neither the second rule
      (variance above 400) nor the third (density above 0.1), so every choice but
      the last is decided by its own rule alone, except that high detail takes
      precedence over flowing edges. */
  function Classify(variance: Ratio, edgeDensity: Ratio, gradient: Ratio): (c: Choice)
    ensures c == BlurOnly <==> Below(variance, 50.0) && Below(edgeDensity, 0.05) && Below(gradient, 10.0)
    ensures c == SobelDoG <==> Above(gradient, 50.0) && Above(variance, 400.0)
    ensures c == EdgeFlowPhase <==> Above(edgeDensity, 0.1) && !(Above(gradient, 50.0) && Above(variance, 400.0))
    ensures c == PhaseOnly <==>
      && !(Below(variance, 50.0) && Below(edgeDensity, 0.05) && Below(gradient, 10.0))
      && !(Above(gradient, 50.0) && Above(variance, 400.0))
      && !Above(edgeDensity, 0.1)
  {
    if Below(variance, 50.0) && Below(edgeDensity, 0.05) && Below(gradient, 10.0) then BlurOnly
    else if Above(gradient, 50.0) && Above(variance, 400.0) then SobelDoG
    else if Above(edgeDensity, 0.1) then EdgeFlowPhase
    else PhaseOnly
  }

  /** The filter the table picks for a region of the image. Smooth background
      and high detail both need a number for the average gradient, so a block at
      most two pixels wide or high never gets either. */
  function ChoiceFor(ff: Filters, img: GrayscaleImage, r: Rectangle): (c: Choice)
    requires Inside(img, r)
    ensures c == BlurOnly || c == SobelDoG ==> r.width > 2 && r.height > 2
  {
    Classify(Variance(img, r), EdgeDensity(img, r), AverageGradient(ff, img, r))
  }

  /** Every pixel of the region equals v. */
  ghost predicate UniformIn(img: GrayscaleImage, r: Rectangle, v: int)
    requires Inside(img, r)
  {
    forall x, y :: r.Covers(x, y) ==> img.At(x, y) == v
  }

  /** The two images agree on every pixel of the region. */
  ghost predicate AgreeOn(img1: GrayscaleImage, img2: GrayscaleImage, r: Rectangle)
    requires Inside(img1, r) && Inside(img2, r)
  {
    forall x, y :: r.Covers(x, y) ==> img1.At(x, y) == img2.At(x, y)
  }

  lemma {:induction false} UniformRowTally(img: GrayscaleImage, r: Rectangle, m: Measure, v: int, y: int, n: nat)
    requires Inside(img, r) && UniformIn(img, r, v) && r.y <= y < r.Bottom() && n <= r.width
    ensures RowTally(img, r, m, y, n) == n * Weigh(m, v)
  {
    if n > 0 {
      UniformRowTally(img, r, m, v, y, n - 1);
      assert r.Covers(r.x + n - 1, y);
      Distribute(n - 1, 1, Weigh(m, v));
    }
  }

  /** On a uniform region each accumulator is the area times the per-pixel amount. */
  lemma {:induction false} UniformTally(img: GrayscaleImage, r: Rectangle, m: Measure, v: int, rows: nat)
    requires Inside(img, r) && UniformIn(img, r, v) && rows <= r.height
    ensures Tally(img, r, m, rows) == r.width * rows * Weigh(m, v)
  {
    if rows > 0 {
      UniformTally(img, r, m, v, rows - 1);
      UniformRowTally(img, r, m, v, r.y + rows - 1, r.width);
      Distribute(rows - 1, 1, r.width);
      Distribute(r.width * (rows - 1), r.width, Weigh(m, v));
    }
  }

  /** (n * a) / n == a for a positive count n. */
  lemma CancelCount(n: int, a: int)
    requires n > 0
    ensures (n * a) as real / n as real == a as real
  {
    assert (n * a) as real == n as real * a as real;
  }

  /** n equal values v have mean v and mean square v * v, so no spread. */
  lemma ConstantVariance(n: int, v: int)
    requires n > 0
    ensures var mean := (n * v) as real / n as real;
      (n * (v * v)) as real / n as real - mean * mean == 0.0
  {
    CancelCount(n, v);
    CancelCount(n, v * v);
    assert (v * v) as real == v as real * v as real;
  }

  /** The variance of a uniform region is 0. */
  lemma UniformVariance(img: GrayscaleImage, r: Rectangle, v: int)
    requires Inside(img, r) && UniformIn(img, r, v) && r.width * r.height > 0
    ensures Variance(img, r) == Finite(0.0)
  {
    UniformTally(img, r, Brightness, v, r.height);
    UniformTally(img, r, SquaredBrightness, v, r.height);
    ConstantVariance(r.width * r.height, v);
  }

  /** The edge density of a uniform region is 1 when it is brighter than 128 and
      0 otherwise (a pixel of exactly 128 is not counted). */
  lemma UniformDensity(img: GrayscaleImage, r: Rectangle, v: int)
    requires Inside(img, r) && UniformIn(img, r, v) && r.width * r.height > 0
    ensures EdgeDensity(img, r) == Finite(if v > 128 then 1.0 else 0.0)
  {
    UniformTally(img, r, BrightPixel, v, r.height);
    CancelCount(r.width * r.height, Weigh(BrightPixel, v));
  }

  lemma {:induction false} BrightRowBounds(img: GrayscaleImage, r: Rectangle, y: int, n: nat)
    requires Inside(img, r) && r.y <= y < r.Bottom() && n <= r.width
    ensures 0 <= RowTally(img, r, BrightPixel, y, n) <= n
  {
    if n > 0 {
      BrightRowBounds(img, r, y, n - 1);
    }
  }

  lemma {:induction false} BrightBounds(img: GrayscaleImage, r: Rectangle, rows: nat)
    requires Inside(img, r) && rows <= r.height
    ensures 0 <= Tally(img, r, BrightPixel, rows) <= r.width * rows
  {
    if rows > 0 {
      BrightBounds(img, r, rows - 1);
      BrightRowBounds(img, r, r.y + rows - 1, r.width);
      Distribute(rows - 1, 1, r.width);
    }
  }

  /** A count t out of n is a share between 0 and 1. */
  lemma ShareBounds(t: int, n: int)
    requires 0 <= t <= n && n > 0
    ensures 0.0 <= t as real / n as real <= 1.0
  {
    assert t as real <= n as real;
  }

  /** The edge density of a non-empty region is a share: between 0 and 1. */
  lemma DensityIsShare(img: GrayscaleImage, r: Rectangle)
    requires Inside(img, r) && r.width * r.height > 0
    ensures EdgeDensity(img, r).Finite?
    ensures 0.0 <= EdgeDensity(img, r).value <= 1.0
  {
    BrightBounds(img, r, r.height);
    ShareBounds(Tally(img, r, BrightPixel, r.height), r.width * r.height);
  }

  /** Equal neighbours give a gradient sample of 0. */
  lemma FlatSample(ff: Filters, img: GrayscaleImage, x: int, y: int)
    requires ff.Valid() && img.Valid() && 1 <= x < img.width - 1 && 1 <= y < img.height - 1
    requires img.At(x + 1, y) == img.At(x - 1, y) && img.At(x, y + 1) == img.At(x, y - 1)
    ensures GradientSample(ff, img, x, y) == 0.0
  {
    var gx: int := img.At(x + 1, y) as int - img.At(x - 1, y) as int;
    var gy: int := img.At(x, y + 1) as int - img.At(x, y - 1) as int;
    assert gx * gx + gy * gy == 0;
  }

  lemma {:induction false} UniformGradientRow(ff: Filters, img: GrayscaleImage, r: Rectangle, v: int, y: int, n: nat)
    requires ff.Valid() && Inside(img, r) && UniformIn(img, r, v) && r.y + 1 <= y < r.Bottom() - 1 && n <= InsetCols(r)
    ensures GradientRow(ff, img, r, y, n) == 0.0
  {
    if n > 0 {
      UniformGradientRow(ff, img, r, v, y, n - 1);
      var x := r.x + n;
      assert r.Covers(x + 1, y) && r.Covers(x - 1, y) && r.Covers(x, y + 1) && r.Covers(x, y - 1);
      FlatSample(ff, img, x, y);
    }
  }

  lemma {:induction false} UniformGradientTotal(ff: Filters, img: GrayscaleImage, r: Rectangle, v: int, rows: nat)
    requires ff.Valid() && Inside(img, r) && UniformIn(img, r, v) && rows <= InsetRows(r)
    ensures GradientTotal(ff, img, r, rows) == 0.0
  {
    if rows > 0 {
      UniformGradientTotal(ff, img, r, v, rows - 1);
      UniformGradientRow(ff, img, r, v, r.y + rows, InsetCols(r));
    }
  }

  /** A uniform region with a non-empty inset window has average gradient 0. */
  lemma UniformGradient(ff: Filters, img: GrayscaleImage, r: Rectangle, v: int)
    requires ff.Valid() && Inside(img, r) && UniformIn(img, r, v) && r.width > 2 && r.height > 2
    ensures AverageGradient(ff, img, r) == Finite(0.0)
  {
    UniformGradientTotal(ff, img, r, v, InsetRows(r));
  }

  lemma {:induction false} GradientRowNonNegative(ff: Filters, img: GrayscaleImage, r: Rectangle, y: int, n: nat)
    requires ff.Valid() && Inside(img, r) && r.y + 1 <= y < r.Bottom() - 1 && n <= InsetCols(r)
    ensures GradientRow(ff, img, r, y, n) >= 0.0
  {
    if n > 0 {
      GradientRowNonNegative(ff, img, r, y, n - 1);
    }
  }

  lemma {:induction false} GradientTotalNonNegative(ff: Filters, img: GrayscaleImage, r: Rectangle, rows: nat)
    requires ff.Valid() && Inside(img, r) && rows <= InsetRows(r)
    ensures GradientTotal(ff, img, r, rows) >= 0.0
  {
    if rows > 0 {
      GradientTotalNonNegative(ff, img, r, rows - 1);
      GradientRowNonNegative(ff, img, r, r.y + rows, InsetCols(r));
    }
  }

  /** The average gradient is NaN exactly when the region is at most two pixels
      wide or high, and otherwise a non-negative number. */
  lemma GradientDefinedIffInsetNonEmpty(ff: Filters, img: GrayscaleImage, r: Rectangle)
    requires ff.Valid() && Inside(img, r)
    ensures AverageGradient(ff, img, r).NaN? <==> r.width <= 2 || r.height <= 2
    ensures AverageGradient(ff, img, r).Finite? ==> AverageGradient(ff, img, r).value >= 0.0
  {
    GradientTotalNonNegative(ff, img, r, InsetRows(r));
  }

  /** Since NaN compares false, a block at most two pixels wide or high is never
      treated as smooth background nor as high detail. */
  lemma ThinRegionChoice(ff: Filters, img: GrayscaleImage, r: Rectangle)
    requires ff.Valid() && Inside(img, r) && (r.width <= 2 || r.height <= 2)
    ensures ChoiceFor(ff, img, r) == (if Above(EdgeDensity(img, r), 0.1) then EdgeFlowPhase else PhaseOnly)
  {
    GradientDefinedIffInsetNonEmpty(ff, img, r);
  }

  /** A flat region no brighter than 128, at least 3 x 3, is smooth background. */
  lemma UniformDarkIsBlurred(ff: Filters, img: GrayscaleImage, r: Rectangle, v: int)
    requires ff.Valid() && Inside(img, r) && UniformIn(img, r, v) && v <= 128 && r.width > 2 && r.height > 2
    ensures ChoiceFor(ff, img, r) == BlurOnly
  {
    MulLe(1, r.width, r.height);
    UniformVariance(img, r, v);
    UniformDensity(img, r, v);
    UniformGradient(ff, img, r, v);
  }

  /** A flat region brighter than 128 has edge density 1 and variance 0, so the
      third rule picks EdgeFlow with phase congruency. */
  lemma UniformBrightIsEdgeFlow(ff: Filters, img: GrayscaleImage, r: Rectangle, v: int)
    requires ff.Valid() && Inside(img, r) && UniformIn(img, r, v) && v > 128 && r.width > 0 && r.height > 0
    ensures ChoiceFor(ff, img, r) == EdgeFlowPhase
  {
    MulLe(1, r.width, r.height);
    UniformVariance(img, r, v);
    UniformDensity(img, r, v);
  }

  lemma {:induction false} AgreeRowTally(img1: GrayscaleImage, img2: GrayscaleImage, r: Rectangle, m: Measure, y: int, n: nat)
    requires Inside(img1, r) && Inside(img2, r) && AgreeOn(img1, img2, r) && r.y <= y < r.Bottom() && n <= r.width
    ensures RowTally(img1, r, m, y, n) == RowTally(img2, r, m, y, n)
  {
    if n > 0 {
      AgreeRowTally(img1, img2, r, m, y, n - 1);
      assert r.Covers(r.x + n - 1, y);
    }
  }

  lemma {:induction false} AgreeTally(img1: GrayscaleImage, img2: GrayscaleImage, r: Rectangle, m: Measure, rows: nat)
    requires Inside(img1, r) && Inside(img2, r) && AgreeOn(img1, img2, r) && rows <= r.height
    ensures Tally(img1, r, m, rows) == Tally(img2, r, m, rows)
  {
    if rows > 0 {
      AgreeTally(img1, img2, r, m, rows - 1);
      AgreeRowTally(img1, img2, r, m, r.y + rows - 1, r.width);
    }
  }

  lemma {:induction false} AgreeGradientRow(ff: Filters, img1: GrayscaleImage, img2: GrayscaleImage, r: Rectangle, y: int, n: nat)
    requires Inside(img1, r) && Inside(img2, r) && AgreeOn(img1, img2, r) && r.y + 1 <= y < r.Bottom() - 1 && n <= InsetCols(r)
    ensures GradientRow(ff, img1, r, y, n) == GradientRow(ff, img2, r, y, n)
  {
    if n > 0 {
      AgreeGradientRow(ff, img1, img2, r, y, n - 1);
      AgreeSample(ff, img1, img2, r, r.x + n, y);
    }
  }

  /** A sample inside the inset region reads only pixels of the region. */
  lemma AgreeSample(ff: Filters, img1: GrayscaleImage, img2: GrayscaleImage, r: Rectangle, x: int, y: int)
    requires Inside(img1, r) && Inside(img2, r) && AgreeOn(img1, img2, r)
    requires r.x + 1 <= x < r.Right() - 1 && r.y + 1 <= y < r.Bottom() - 1
    ensures GradientSample(ff, img1, x, y) == GradientSample(ff, img2, x, y)
  {
    assert r.Covers(x + 1, y) && r.Covers(x - 1, y) && r.Covers(x, y + 1) && r.Covers(x, y - 1);
    assert img1.At(x + 1, y) == img2.At(x + 1, y) && img1.At(x - 1, y) == img2.At(x - 1, y);
    assert img1.At(x, y + 1) == img2.At(x, y + 1) && img1.At(x, y - 1) == img2.At(x, y - 1);
  }

  lemma {:induction false} AgreeGradientTotal(ff: Filters, img1: GrayscaleImage, img2: GrayscaleImage, r: Rectangle, rows: nat)
    requires Inside(img1, r) && Inside(img2, r) && AgreeOn(img1, img2, r) && rows <= InsetRows(r)
    ensures GradientTotal(ff, img1, r, rows) == GradientTotal(ff, img2, r, rows)
  {
    if rows > 0 {
      AgreeGradientTotal(ff, img1, img2, r, rows - 1);
      AgreeGradientRow(ff, img1, img2, r, r.y + rows, InsetCols(r));
    }
  }

  /** The statistics read only the region's own pixels (the gradient's neighbours
      included), so images that agree on a region get the same filter for it. */
  lemma ChoiceIsLocal(ff: Filters, img1: GrayscaleImage, img2: GrayscaleImage, r: Rectangle)
    requires Inside(img1, r) && Inside(img2, r) && AgreeOn(img1, img2, r)
    ensures ChoiceFor(ff, img1, r) == ChoiceFor(ff, img2, r)
  {
    AgreeTally(img1, img2, r, Brightness, r.height);
    AgreeTally(img1, img2, r, SquaredBrightness, r.height);
    assert Variance(img1, r) == Variance(img2, r);
    AgreeTally(img1, img2, r, BrightPixel, r.height);
    assert EdgeDensity(img1, r) == EdgeDensity(img2, r);
    AgreeGradientTotal(ff, img1, img2, r, InsetRows(r));
    assert AverageGradient(ff, img1, r) == AverageGradient(ff, img2, r);
  }
}
