/** LindebergScaleSpaceProcessor: at each of `scales` scales the image is blurred
    with sigma = initialSigma * scaleStep^s, the clamped absolute response of the
    3x3 Laplacian is taken, and the output keeps, pixel by pixel, the strongest
    response over all scales. */
module Lindeberg {
  import opened Numeric
  import opened Image
  import opened Convolution
  import opened FloatFilters

  /** The 4-neighbour Laplacian of `ApplyLaplacian`. */
  const LaplacianKernel: Kernel := [
    [0, 1, 0],
    [1, -4, 1],
    [0, 1, 0]
  ]

  /** Pixel (x, y) lies off the one-pixel border. */
  predicate Interior(img: GrayscaleImage, x: int, y: int) {
    1 <= x < img.width - 1 && 1 <= y < img.height - 1
  }

  function LaplacianPixel(img: GrayscaleImage, x: int, y: int): byte
    requires img.Valid()
  {
    if Interior(img, x, y) then ClampByte(Abs(Response(img, LaplacianKernel, 1, x, y))) else 0
  }

  /** `ApplyLaplacian(image)` as a value. */
  function Laplacian(img: GrayscaleImage): (r: GrayscaleImage)
    requires img.Valid()
    ensures r.Valid() && SameShape(r, img)
  {
    var w, h := img.width, img.height;
    GrayscaleImage(w, h, seq(w * h, k requires 0 <= k < w * h => LaplacianPixel(img, Col(w, h, k), Row(w, h, k))))
  }

  lemma LaplacianAt(img: GrayscaleImage, x: int, y: int)
    requires img.Valid() && img.Contains(x, y)
    ensures Laplacian(img).At(x, y) == LaplacianPixel(img, x, y)
  {
    CoordsOfIndex(img.width, img.height, x, y);
  }

  /** `ApplyLaplacian`: the y/x loops over the interior and the j/i loops of the
      3x3 correlation, each sum stored as `Math.Clamp(Math.Abs(sum), 0, 255)`. */
  method ApplyLaplacian(img: GrayscaleImage) returns (r: GrayscaleImage)
    requires img.Valid()
    ensures r == Laplacian(img)
  {
    var w, h := img.width, img.height;
    ghost var s := Laplacian(img).pixels;
    assert BlackOutside(s, w, h, 1, 1);
    var result := new byte[w * h](_ => 0);
    FillStart(result[..], s, w, h, 1, 1);
    var y := 1;
    while y < h - 1
      invariant 1 <= y
      invariant FilledUpTo(result[..], s, w, h, 0, y)
    {
      FillRowStart(result[..], s, w, h, 1, 1, y);
      var x := 1;
      while x < w - 1
        invariant 1 <= x
        invariant FilledUpTo(result[..], s, w, h, x, y)
      {
        var sum := Correlate(img, LaplacianKernel, 1, x, y);
        CoordsOfIndex(w, h, x, y);
        ghost var before := result[..];
        result[y * w + x] := ClampByte(Abs(sum));
        FillStep(before, s, w, h, x, y);
        assert result[..] == before[y * w + x := s[y * w + x]];
        x := x + 1;
      }
      FillRowEnd(result[..], s, w, h, 1, 1, x, y);
      y := y + 1;
    }
    FillEnd(result[..], s, w, h, 1, 1, y);
    r := GrayscaleImage(w, h, result[..]);
  }

  /** The Laplacian's weights sum to zero. */
  lemma LaplacianBalanced()
    ensures IsKernel(LaplacianKernel, 1) && KernelTotal(LaplacianKernel) == 0
    ensures forall i, j {:trigger LaplacianKernel[i][j]} :: 0 <= i < 3 && 0 <= j < 3 ==>
      LaplacianKernel[i][j] == LaplacianKernel[j][i] && LaplacianKernel[i][j] == LaplacianKernel[2 - i][j]
  {
    KernelTotal3x3(LaplacianKernel);
  }

  /** The one-pixel border of a Laplacian is black. */
  lemma LaplacianBorderIsBlack(img: GrayscaleImage, x: int, y: int)
    requires img.Valid() && img.Contains(x, y) && !Interior(img, x, y)
    ensures Laplacian(img).At(x, y) == 0
  {
    LaplacianAt(img, x, y);
  }

  /** A flat image has no curvature. */
  lemma LaplacianUniformIsBlack(img: GrayscaleImage, v: int)
    requires img.Valid() && Uniform(img, v)
    ensures Black(Laplacian(img).pixels)
  {
    LaplacianBalanced();
    var w, h := img.width, img.height;
    var s := Laplacian(img).pixels;
    forall k | 0 <= k < w * h
      ensures s[k] == 0
    {
      var x, y := Col(w, h, k), Row(w, h, k);
      if Interior(img, x, y) {
        UniformResponse(img, LaplacianKernel, 1, x, y, v);
      }
    }
  }

  /** With the absolute value taken, the negative of an image has the same Laplacian. */
  lemma LaplacianInvertedIsSame(img: GrayscaleImage)
    requires img.Valid()
    ensures Laplacian(Inverted(img)) == Laplacian(img)
  {
    LaplacianBalanced();
    var w, h := img.width, img.height;
    var a, b := Laplacian(Inverted(img)).pixels, Laplacian(img).pixels;
    forall k | 0 <= k < w * h
      ensures a[k] == b[k]
    {
      var x, y := Col(w, h, k), Row(w, h, k);
      if Interior(img, x, y) {
        InvertedResponse(img, LaplacianKernel, 1, x, y);
      }
    }
    assert a == b;
  }

  /** On a black-to-white vertical step at column c the Laplacian is 255 on the
      interior columns c - 1 and c (the two sides of the step, of opposite sign
      before the absolute value) and 0 everywhere else. */
  lemma LaplacianStepEdge(img: GrayscaleImage, c: int, x: int, y: int)
    requires img.Valid() && VerticalStep(img, c) && img.Contains(x, y)
    ensures Laplacian(img).At(x, y) == if Interior(img, x, y) && (x == c - 1 || x == c) then 255 else 0
  {
    LaplacianAt(img, x, y);
    if Interior(img, x, y) {
      var k := LaplacianKernel;
      assert ColumnTotal(k, 0) == 1 && ColumnTotal(k, 1) == -2 && ColumnTotal(k, 2) == 1;
      StepResponse(img, k, x, y, c);
      if x + 1 < c {
        assert StepValue(x - 1, c) == 0 && StepValue(x, c) == 0 && StepValue(x + 1, c) == 0;
      } else if x == c - 1 {
        assert StepValue(x - 1, c) == 0 && StepValue(x, c) == 0 && StepValue(x + 1, c) == 255;
      } else if x == c {
        assert StepValue(x - 1, c) == 0 && StepValue(x, c) == 255 && StepValue(x + 1, c) == 255;
      } else {
        assert StepValue(x - 1, c) == 255 && StepValue(x, c) == 255 && StepValue(x + 1, c) == 255;
      }
    }
  }

  /** The sigma of scale s: initialSigma multiplied by scaleStep s times. */
  function Sigma(initialSigma: real, scaleStep: real, s: nat): (sigma: real)
    ensures initialSigma > 0.0 && scaleStep > 0.0 ==> sigma > 0.0
  {
    if s == 0 then initialSigma
    else
      var p := Sigma(initialSigma, scaleStep, s - 1);
      assert p > 0.0 && scaleStep > 0.0 ==> p * scaleStep > 0.0;
      p * scaleStep
  }

  /** With a positive start and a positive step every sigma is positive. */
  lemma {:induction false} SigmaPositive(initialSigma: real, scaleStep: real, s: nat)
    requires initialSigma > 0.0 && scaleStep > 0.0
    ensures Sigma(initialSigma, scaleStep, s) > 0.0
  {
    if s > 0 {
      SigmaPositive(initialSigma, scaleStep, s - 1);
      var p := Sigma(initialSigma, scaleStep, s - 1);
      assert p * scaleStep > 0.0;
    }
  }

  /** Scaling a non-negative number by at least 1 does not shrink it. */
  lemma MulAtLeastOne(p: real, q: real)
    requires p >= 0.0 && q >= 1.0
    ensures p <= p * q
  {
    assert p * q - p == p * (q - 1.0);
  }

  /** With a positive start and a step of at least 1 the scales only grow. */
  lemma {:induction false} SigmaGrows(initialSigma: real, scaleStep: real, s: nat, t: nat)
    requires initialSigma > 0.0 && scaleStep >= 1.0 && s <= t
    ensures 0.0 < Sigma(initialSigma, scaleStep, s) <= Sigma(initialSigma, scaleStep, t)
  {
    SigmaPositive(initialSigma, scaleStep, s);
    if s < t {
      SigmaGrows(initialSigma, scaleStep, s, t - 1);
      var p := Sigma(initialSigma, scaleStep, t - 1);
      assert Sigma(initialSigma, scaleStep, s) <= p;
      MulAtLeastOne(p, scaleStep);
      assert Sigma(initialSigma, scaleStep, t) == p * scaleStep;
    }
  }

  /** The Laplacian of the blur at scale s. */
  function ScaleResponse(ff: Filters, img: GrayscaleImage, initialSigma: real, scaleStep: real, s: nat): (r: GrayscaleImage)
    requires ff.Valid() && img.Valid()
    ensures r.Valid() && SameShape(r, img)
  {
    Laplacian(ff.blur(img, Sigma(initialSigma, scaleStep, s)))
  }

  /** Buffer entry k after the first n scales: the running `Math.Max`, from 0. */
  function Strongest(ff: Filters, img: GrayscaleImage, initialSigma: real, scaleStep: real, n: nat, k: int): (v: byte)
    requires ff.Valid() && img.Valid() && 0 <= k < |img.pixels|
  {
    if n == 0 then 0
    else Max(Strongest(ff, img, initialSigma, scaleStep, n - 1, k), ScaleResponse(ff, img, initialSigma, scaleStep, n - 1).pixels[k])
  }

  /** The number of scales the loop runs: none when `scales` is not positive. */
  function ScaleCount(scales: int): nat {
    if scales > 0 then scales else 0
  }

  /** `Apply(image, initialSigma, scales, scaleStep)` as a value. */
  function Filtered(ff: Filters, img: GrayscaleImage, initialSigma: real, scales: int, scaleStep: real): (r: GrayscaleImage)
    requires ff.Valid() && img.Valid()
    ensures r.Valid() && SameShape(r, img)
  {
    var w, h := img.width, img.height;
    GrayscaleImage(w, h, seq(w * h, k requires 0 <= k < w * h => Strongest(ff, img, initialSigma, scaleStep, ScaleCount(scales), k)))
  }

  /** `Apply(image, initialSigma, scales, scaleStep)`: the scale loop with
      `sigma *= scaleStep`, and the inner loop keeping the larger of the buffer
      and the new Laplacian. */
  method Apply(ff: Filters, img: GrayscaleImage, initialSigma: real, scales: int, scaleStep: real) returns (r: GrayscaleImage)
    requires ff.Valid() && img.Valid()
    ensures r == Filtered(ff, img, initialSigma, scales, scaleStep)
  {
    var w, h := img.width, img.height;
    var result := new byte[w * h](_ => 0);
    assert result.Length == |img.pixels|;
    var sigma := initialSigma;
    var s := 0;
    while s < scales
      invariant 0 <= s <= ScaleCount(scales)
      invariant sigma == Sigma(initialSigma, scaleStep, s)
      invariant forall k :: 0 <= k < result.Length ==> result[k] == Strongest(ff, img, initialSigma, scaleStep, s, k)
    {
      var blurred := ff.blur(img, sigma);
      var laplacian := ApplyLaplacian(blurred);
      assert laplacian == ScaleResponse(ff, img, initialSigma, scaleStep, s);
      KeepStronger(result, laplacian.pixels);
      sigma := sigma * scaleStep;
      s := s + 1;
    }
    r := GrayscaleImage(w, h, result[..]);
    assert r.pixels == Filtered(ff, img, initialSigma, scales, scaleStep).pixels;
  }

  /** The inner loop of `Apply`: `result[i] = Math.Max(result[i], laplacian.Pixels[i])`. */
  method KeepStronger(result: array<byte>, laplacian: seq<byte>)
    requires |laplacian| == result.Length
    modifies result
    ensures forall k :: 0 <= k < result.Length ==> result[k] == Max(old(result[k]), laplacian[k])
  {
    var i := 0;
    while i < result.Length
      invariant 0 <= i <= result.Length
      invariant forall k :: 0 <= k < i ==> result[k] == Max(old(result[k]), laplacian[k])
      invariant forall k :: i <= k < result.Length ==> result[k] == old(result[k])
    {
      result[i] := Max(result[i], laplacian[i]);
      i := i + 1;
    }
  }

  /** `Apply(image)`: sigma 1.0, five scales, step 1.5. */
  method ApplyDefault(ff: Filters, img: GrayscaleImage) returns (r: GrayscaleImage)
    requires ff.Valid() && img.Valid()
    ensures r == Filtered(ff, img, 1.0, 5, 1.5)
  {
    r := Apply(ff, img, 1.0, 5, 1.5);
  }

  /** The running maximum is at least every scale's response seen so far, and is
      either the seed 0 or one of those responses. */
  lemma {:induction false} StrongestIsMax(ff: Filters, img: GrayscaleImage, initialSigma: real, scaleStep: real, n: nat, k: int)
    requires ff.Valid() && img.Valid() && 0 <= k < |img.pixels|
    ensures forall s :: 0 <= s < n ==> ScaleResponse(ff, img, initialSigma, scaleStep, s).pixels[k] <= Strongest(ff, img, initialSigma, scaleStep, n, k)
    ensures Strongest(ff, img, initialSigma, scaleStep, n, k) == 0
         || exists s :: 0 <= s < n && Strongest(ff, img, initialSigma, scaleStep, n, k) == ScaleResponse(ff, img, initialSigma, scaleStep, s).pixels[k]
  {
    forall s | 0 <= s < n
      ensures ScaleResponse(ff, img, initialSigma, scaleStep, s).pixels[k] <= Strongest(ff, img, initialSigma, scaleStep, n, k)
    {
      StrongestBounds(ff, img, initialSigma, scaleStep, n, s, k);
    }
    if n > 0 {
      StrongestIsMax(ff, img, initialSigma, scaleStep, n - 1, k);
    }
  }

  /** The running maximum over the first n scales is at least scale s's response, s < n. */
  lemma {:induction false} StrongestBounds(ff: Filters, img: GrayscaleImage, initialSigma: real, scaleStep: real, n: nat, s: nat, k: int)
    requires ff.Valid() && img.Valid() && 0 <= k < |img.pixels| && s < n
    ensures ScaleResponse(ff, img, initialSigma, scaleStep, s).pixels[k] <= Strongest(ff, img, initialSigma, scaleStep, n, k)
  {
    if s < n - 1 {
      StrongestBounds(ff, img, initialSigma, scaleStep, n - 1, s, k);
    }
  }

  /** Every output pixel is the strongest response over the scales: no scale's
      Laplacian exceeds it, and it is 0 or attained at some scale. */
  lemma StrongestScale(ff: Filters, img: GrayscaleImage, initialSigma: real, scales: int, scaleStep: real, k: int)
    requires ff.Valid() && img.Valid() && 0 <= k < |img.pixels|
    ensures forall s :: 0 <= s < scales ==>
      ScaleResponse(ff, img, initialSigma, scaleStep, s).pixels[k] <= Filtered(ff, img, initialSigma, scales, scaleStep).pixels[k]
    ensures Filtered(ff, img, initialSigma, scales, scaleStep).pixels[k] == 0
         || exists s :: 0 <= s < scales && Filtered(ff, img, initialSigma, scales, scaleStep).pixels[k] == ScaleResponse(ff, img, initialSigma, scaleStep, s).pixels[k]
  {
    StrongestIsMax(ff, img, initialSigma, scaleStep, ScaleCount(scales), k);
  }

  /** More scales never darken a pixel. */
  lemma {:induction false} StrongestMonotone(ff: Filters, img: GrayscaleImage, initialSigma: real, scaleStep: real, n: nat, m: nat, k: int)
    requires ff.Valid() && img.Valid() && 0 <= k < |img.pixels| && n <= m
    ensures Strongest(ff, img, initialSigma, scaleStep, n, k) <= Strongest(ff, img, initialSigma, scaleStep, m, k)
  {
    if n < m {
      StrongestMonotone(ff, img, initialSigma, scaleStep, n, m - 1, k);
      assert Strongest(ff, img, initialSigma, scaleStep, m - 1, k) <= Strongest(ff, img, initialSigma, scaleStep, m, k);
    }
  }

  /** Running more scales never darkens an output pixel. */
  lemma MoreScalesBrighter(ff: Filters, img: GrayscaleImage, initialSigma: real, scales: int, more: int, scaleStep: real, k: int)
    requires ff.Valid() && img.Valid() && 0 <= k < |img.pixels| && scales <= more
    ensures Filtered(ff, img, initialSigma, scales, scaleStep).pixels[k] <= Filtered(ff, img, initialSigma, more, scaleStep).pixels[k]
  {
    StrongestMonotone(ff, img, initialSigma, scaleStep, ScaleCount(scales), ScaleCount(more), k);
  }

  /** With no scales the loop never runs and the output is black. */
  lemma NoScalesIsBlack(ff: Filters, img: GrayscaleImage, initialSigma: real, scales: int, scaleStep: real)
    requires ff.Valid() && img.Valid() && scales <= 0
    ensures Black(Filtered(ff, img, initialSigma, scales, scaleStep).pixels)
  {
  }

  /** With one scale the output is the Laplacian of the blur at initialSigma. */
  lemma OneScale(ff: Filters, img: GrayscaleImage, initialSigma: real, scaleStep: real)
    requires ff.Valid() && img.Valid()
    ensures Filtered(ff, img, initialSigma, 1, scaleStep) == Laplacian(ff.blur(img, initialSigma))
  {
    var a, b := Filtered(ff, img, initialSigma, 1, scaleStep).pixels, Laplacian(ff.blur(img, initialSigma)).pixels;
    forall k | 0 <= k < |a|
      ensures a[k] == b[k]
    {
      assert a[k] == Strongest(ff, img, initialSigma, scaleStep, 1, k);
    }
    assert a == b;
  }

  /** Every scale's Laplacian has a black border, so the output does too. */
  lemma BorderIsBlack(ff: Filters, img: GrayscaleImage, initialSigma: real, scales: int, scaleStep: real, x: int, y: int)
    requires ff.Valid() && img.Valid() && img.Contains(x, y) && !Interior(img, x, y)
    ensures Filtered(ff, img, initialSigma, scales, scaleStep).At(x, y) == 0
  {
    CoordsOfIndex(img.width, img.height, x, y);
    var k := y * img.width + x;
    StrongestIsMax(ff, img, initialSigma, scaleStep, ScaleCount(scales), k);
    forall s | 0 <= s < ScaleCount(scales)
      ensures ScaleResponse(ff, img, initialSigma, scaleStep, s).pixels[k] == 0
    {
      var blurred := ff.blur(img, Sigma(initialSigma, scaleStep, s));
      LaplacianBorderIsBlack(blurred, x, y);
    }
  }
}
