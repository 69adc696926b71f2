/** The private ApplyConvolution that SobelProcessor, PrewittProcessor and
    ScharrProcessor each carry, identical but for the two 3x3 kernels: for every
    interior pixel, correlate with both kernels, take `(int)Math.Sqrt(gx*gx + gy*gy)`
    and clamp it into a byte; the one-pixel border stays 0. */
module GradientOperator {
  import opened Numeric
  import opened Image
  import opened Convolution

  /** Pixel (x, y) lies off the one-pixel border. */
  predicate Interior(img: GrayscaleImage, x: int, y: int) {
    1 <= x < img.width - 1 && 1 <= y < img.height - 1
  }

  /** The value the operator gives pixel (x, y). */
  function Pixel(img: GrayscaleImage, kx: Kernel, ky: Kernel, x: int, y: int): byte
    requires img.Valid() && IsKernel(kx, 1) && IsKernel(ky, 1)
  {
    if Interior(img, x, y) then Magnitude(Response(img, kx, 1, x, y), Response(img, ky, 1, x, y)) else 0
  }

  /** The operator's output image, pixel by pixel. */
  function Filtered(img: GrayscaleImage, kx: Kernel, ky: Kernel): (r: GrayscaleImage)
    requires img.Valid() && IsKernel(kx, 1) && IsKernel(ky, 1)
    ensures r.Valid() && SameShape(r, img)
  {
    var w, h := img.width, img.height;
    GrayscaleImage(w, h, seq(w * h, k requires 0 <= k < w * h => Pixel(img, kx, ky, Col(w, h, k), Row(w, h, k))))
  }

  /** Output pixel (x, y) is Pixel(x, y). */
  lemma FilteredAt(img: GrayscaleImage, kx: Kernel, ky: Kernel, x: int, y: int)
    requires img.Valid() && IsKernel(kx, 1) && IsKernel(ky, 1) && img.Contains(x, y)
    ensures Filtered(img, kx, ky).At(x, y) == Pixel(img, kx, ky, x, y)
  {
    CoordsOfIndex(img.width, img.height, x, y);
  }

  /** The source's j/i loops, accumulating both responses at once. */
  method Gradients(img: GrayscaleImage, kx: Kernel, ky: Kernel, x: int, y: int) returns (gx: int, gy: int)
    requires IsKernel(kx, 1) && IsKernel(ky, 1) && Centred(img, 1, x, y)
    ensures gx == Response(img, kx, 1, x, y) && gy == Response(img, ky, 1, x, y)
  {
    gx, gy := 0, 0;
    var j := -1;
    while j <= 1
      invariant -1 <= j <= 2
      invariant gx == WindowSum(img, kx, 1, x, y, j + 1)
      invariant gy == WindowSum(img, ky, 1, x, y, j + 1)
    {
      var i := -1;
      while i <= 1
        invariant -1 <= i <= 2
        invariant gx == WindowSum(img, kx, 1, x, y, j + 1) + RowSum(img, kx, 1, x, y, j + 1, i + 1)
        invariant gy == WindowSum(img, ky, 1, x, y, j + 1) + RowSum(img, ky, 1, x, y, j + 1, i + 1)
      {
        var pixel := img.At(x + i, y + j);
        gx := gx + pixel * kx[j + 1][i + 1];
        gy := gy + pixel * ky[j + 1][i + 1];
        i := i + 1;
      }
      j := j + 1;
    }
  }

  /** The source's y/x loops over a zero-initialised buffer. */
  method ApplyConvolution(img: GrayscaleImage, kx: Kernel, ky: Kernel) returns (r: GrayscaleImage)
    requires img.Valid() && IsKernel(kx, 1) && IsKernel(ky, 1)
    ensures r == Filtered(img, kx, ky)
  {
    var w, h := img.width, img.height;
    ghost var s := Filtered(img, kx, ky).pixels;
    assert BlackOutside(s, w, h, 1, 1);
    var result := new byte[w * h](_ => 0);
    FillStart(result[..], s, w, h, 1, 1);
    var y := 1;
    while y < h - 1
      invariant 1 <= y
      invariant FilledUpTo(result[..], s, w, h, 0, y)
    {
      FillRowStart(result[..], s, w, h, 1, 1, y);
      var x := 1;
      while x < w - 1
        invariant 1 <= x
        invariant FilledUpTo(result[..], s, w, h, x, y)
      {
        var gx, gy := Gradients(img, kx, ky, x, y);
        var magnitude := Isqrt(gx * gx + gy * gy);
        CoordsOfIndex(w, h, x, y);
        ghost var before := result[..];
        result[y * w + x] := ClampByte(magnitude);
        FillStep(before, s, w, h, x, y);
        assert result[..] == before[y * w + x := s[y * w + x]];
        x := x + 1;
      }
      FillRowEnd(result[..], s, w, h, 1, 1, x, y);
      y := y + 1;
    }
    FillEnd(result[..], s, w, h, 1, 1, y);
    r := GrayscaleImage(w, h, result[..]);
  }

  /** The one-pixel border of the output is black. */
  lemma BorderIsBlack(img: GrayscaleImage, kx: Kernel, ky: Kernel, x: int, y: int)
    requires img.Valid() && IsKernel(kx, 1) && IsKernel(ky, 1) && img.Contains(x, y) && !Interior(img, x, y)
    ensures Filtered(img, kx, ky).At(x, y) == 0
  {
    FilteredAt(img, kx, ky, x, y);
  }

  /** An image narrower or lower than three pixels has no interior and comes out black. */
  lemma SmallIsBlack(img: GrayscaleImage, kx: Kernel, ky: Kernel)
    requires img.Valid() && IsKernel(kx, 1) && IsKernel(ky, 1) && (img.width < 3 || img.height < 3)
    ensures Black(Filtered(img, kx, ky).pixels)
  {
  }

  /** Kernels whose weights sum to zero map a uniform image to black. */
  lemma UniformIsBlack(img: GrayscaleImage, kx: Kernel, ky: Kernel, v: int)
    requires img.Valid() && IsKernel(kx, 1) && IsKernel(ky, 1) && Uniform(img, v)
    requires KernelTotal(kx) == 0 && KernelTotal(ky) == 0
    ensures Black(Filtered(img, kx, ky).pixels)
  {
    var w, h := img.width, img.height;
    var s := Filtered(img, kx, ky).pixels;
    forall k | 0 <= k < w * h
      ensures s[k] == 0
    {
      var x, y := Col(w, h, k), Row(w, h, k);
      if Interior(img, x, y) {
        UniformResponse(img, kx, 1, x, y, v);
        UniformResponse(img, ky, 1, x, y, v);
      }
    }
  }

  /** A kernel pair that sees a vertical edge: kx's columns weigh -a, 0, a and
      every column of ky sums to zero. */
  predicate VerticalDetector(kx: Kernel, ky: Kernel, a: int)
    requires IsKernel(kx, 1) && IsKernel(ky, 1)
  {
    && ColumnTotal(kx, 0) == -a && ColumnTotal(kx, 1) == 0 && ColumnTotal(kx, 2) == a
    && ColumnTotal(ky, 0) == 0 && ColumnTotal(ky, 1) == 0 && ColumnTotal(ky, 2) == 0
  }

  /** The two responses on a vertical step at column c. */
  lemma StepGradients(img: GrayscaleImage, kx: Kernel, ky: Kernel, a: int, c: int, x: int, y: int)
    requires IsKernel(kx, 1) && IsKernel(ky, 1) && Centred(img, 1, x, y) && VerticalStep(img, c)
    requires VerticalDetector(kx, ky, a)
    ensures Response(img, kx, 1, x, y) == if x == c - 1 || x == c then 255 * a else 0
    ensures Response(img, ky, 1, x, y) == 0
  {
    StepResponse(img, kx, x, y, c);
    StepResponse(img, ky, x, y, c);
    if x + 1 < c {
      assert StepValue(x - 1, c) == 0 && StepValue(x, c) == 0 && StepValue(x + 1, c) == 0;
    } else if x == c - 1 {
      assert StepValue(x - 1, c) == 0 && StepValue(x, c) == 0 && StepValue(x + 1, c) == 255;
    } else if x == c {
      assert StepValue(x - 1, c) == 0 && StepValue(x, c) == 255 && StepValue(x + 1, c) == 255;
    } else {
      assert StepValue(x - 1, c) == 255 && StepValue(x, c) == 255 && StepValue(x + 1, c) == 255;
    }
  }

  /** A horizontal gradient of 255 or more saturates the magnitude. */
  lemma SaturatedMagnitude(gx: int)
    requires gx >= 255 || gx <= -255
    ensures Magnitude(gx, 0) == 255
  {
    SquareLe(255, Abs(gx));
    assert Abs(gx) * Abs(gx) == gx * gx;
    MagnitudeSaturates(gx, 0);
  }

  /** On a black-to-white vertical step at column c the output is 255 on the two
      interior columns c - 1 and c, and 0 everywhere else. */
  lemma VerticalStepEdge(img: GrayscaleImage, kx: Kernel, ky: Kernel, a: int, c: int, x: int, y: int)
    requires img.Valid() && IsKernel(kx, 1) && IsKernel(ky, 1) && VerticalStep(img, c)
    requires VerticalDetector(kx, ky, a) && (a >= 1 || a <= -1) && img.Contains(x, y)
    ensures Filtered(img, kx, ky).At(x, y) == if Interior(img, x, y) && (x == c - 1 || x == c) then 255 else 0
  {
    FilteredAt(img, kx, ky, x, y);
    if Interior(img, x, y) {
      StepGradients(img, kx, ky, a, c, x, y);
      if x == c - 1 || x == c {
        if a >= 1 { MulLe(1, a, 255); } else { MulLe(a, -1, 255); }
        SaturatedMagnitude(255 * a);
      }
    }
  }

  /** Only the magnitude reaches the output: negating both kernels changes nothing. */
  lemma NegationInvariant(img: GrayscaleImage, kx: Kernel, ky: Kernel)
    requires img.Valid() && IsKernel(kx, 1) && IsKernel(ky, 1)
    ensures IsKernel(Negate(kx), 1) && IsKernel(Negate(ky), 1)
    ensures Filtered(img, Negate(kx), Negate(ky)) == Filtered(img, kx, ky)
  {
    var w, h := img.width, img.height;
    var a, b := Filtered(img, Negate(kx), Negate(ky)).pixels, Filtered(img, kx, ky).pixels;
    forall k | 0 <= k < w * h
      ensures a[k] == b[k]
    {
      var x, y := Col(w, h, k), Row(w, h, k);
      if Interior(img, x, y) {
        NegatedResponse(img, kx, 1, x, y);
        NegatedResponse(img, ky, 1, x, y);
        MagnitudeOfNegated(Response(img, kx, 1, x, y), Response(img, ky, 1, x, y));
      }
    }
    assert a == b;
  }

  /** With zero-sum kernels, the negative of an image has the same edges: both
      responses change sign and the magnitude does not. */
  lemma InvertedIsSame(img: GrayscaleImage, kx: Kernel, ky: Kernel)
    requires img.Valid() && IsKernel(kx, 1) && IsKernel(ky, 1)
    requires KernelTotal(kx) == 0 && KernelTotal(ky) == 0
    ensures Filtered(Inverted(img), kx, ky) == Filtered(img, kx, ky)
  {
    var w, h := img.width, img.height;
    var a, b := Filtered(Inverted(img), kx, ky).pixels, Filtered(img, kx, ky).pixels;
    forall k | 0 <= k < w * h
      ensures a[k] == b[k]
    {
      InvertedPixel(img, kx, ky, Col(w, h, k), Row(w, h, k));
    }
    assert a == b;
  }

  lemma InvertedPixel(img: GrayscaleImage, kx: Kernel, ky: Kernel, x: int, y: int)
    requires img.Valid() && IsKernel(kx, 1) && IsKernel(ky, 1)
    requires KernelTotal(kx) == 0 && KernelTotal(ky) == 0
    ensures Inverted(img).Valid() && Pixel(Inverted(img), kx, ky, x, y) == Pixel(img, kx, ky, x, y)
  {
    if Interior(img, x, y) {
      InvertedResponse(img, kx, 1, x, y);
      InvertedResponse(img, ky, 1, x, y);
      var gx, gy := Response(img, kx, 1, x, y), Response(img, ky, 1, x, y);
      assert Response(Inverted(img), kx, 1, x, y) == -gx && Response(Inverted(img), ky, 1, x, y) == -gy;
      MagnitudeOfNegated(gx, gy);
    }
  }
}
