/** EdgeFlowProcessor: Sobel-like gradients stored in two width x height arrays,
    then non-maximum suppression along the gradient's (sign-only) direction.
    The gradient arrays hold doubles in the source, but every value is a sum of
    small integer products and so an exact integer; they are `int` here. The
    source compares square roots of gx² + gy²; the square root is monotone and
    distinct integers below 2^52 have distinct roots, so the model compares the
    squares themselves. */
module EdgeFlow {
  import opened Numeric
  import opened Image
  import opened Convolution
  import Sobel
  import GradientOperator

  predicate Interior(img: GrayscaleImage, x: int, y: int) {
    1 <= x < img.width - 1 && 1 <= y < img.height - 1
  }

  /** `gradientX[x, y]` once the first loop nest is done: the six taps the source
      writes out at an interior pixel, 0 on the border. The taps weigh 4 in total
      on each side, so the value lies within 4 * 255 of 0. */
  function GradX(img: GrayscaleImage, x: int, y: int): (g: int)
    requires img.Valid()
    ensures !Interior(img, x, y) ==> g == 0
    ensures -4 * 255 <= g <= 4 * 255
  {
    if Interior(img, x, y) then
      -1 * img.At(x - 1, y - 1) + 1 * img.At(x + 1, y - 1) +
      -2 * img.At(x - 1, y) + 2 * img.At(x + 1, y) +
      -1 * img.At(x - 1, y + 1) + 1 * img.At(x + 1, y + 1)
    else 0
  }

  /** `gradientY[x, y]` once the first loop nest is done: 0 on the border and
      within 4 * 255 of 0. */
  function GradY(img: GrayscaleImage, x: int, y: int): (g: int)
    requires img.Valid()
    ensures !Interior(img, x, y) ==> g == 0
    ensures -4 * 255 <= g <= 4 * 255
  {
    if Interior(img, x, y) then
      -1 * img.At(x - 1, y - 1) + -2 * img.At(x, y - 1) + -1 * img.At(x + 1, y - 1) +
      1 * img.At(x - 1, y + 1) + 2 * img.At(x, y + 1) + 1 * img.At(x + 1, y + 1)
    else 0
  }

  /** The six taps are the Sobel responses: the three zero weights of each kernel
      are the ones left out. */
  lemma SixTapsAreSobel(img: GrayscaleImage, x: int, y: int)
    requires img.Valid() && Interior(img, x, y)
    ensures IsKernel(Sobel.KernelX, 1) && IsKernel(Sobel.KernelY, 1)
    ensures GradX(img, x, y) == Response(img, Sobel.KernelX, 1, x, y)
    ensures GradY(img, x, y) == Response(img, Sobel.KernelY, 1, x, y)
  {
    var kx, ky := Sobel.KernelX, Sobel.KernelY;
    assert kx[0] == [-1, 0, 1] && kx[1] == [-2, 0, 2] && kx[2] == [-1, 0, 1];
    assert ky[0] == [-1, -2, -1] && ky[1] == [0, 0, 0] && ky[2] == [1, 2, 1];
    Response3x3(img, kx, x, y);
    Response3x3(img, ky, x, y);
  }

  /** The square of `gradientMagnitude(x, y)`: 0 outside the image. */
  function SquaredStrength(img: GrayscaleImage, x: int, y: int): (m: int)
    requires img.Valid()
    ensures m >= 0
    ensures !img.Contains(x, y) ==> m == 0
  {
    if img.Contains(x, y) then
      SquareNonNegative(GradX(img, x, y));
      SquareNonNegative(GradY(img, x, y));
      GradX(img, x, y) * GradX(img, x, y) + GradY(img, x, y) * GradY(img, x, y)
    else 0
  }

  /** `gx > 0 ? 1 : -1`: a zero component steps backwards, not 0. */
  function Step(g: int): (o: int)
    ensures o == 1 || o == -1
    ensures o == 1 <==> g > 0
  {
    if g > 0 then 1 else -1
  }

  /** The pixel is at least as strong as both neighbours along its direction. */
  predicate Kept(img: GrayscaleImage, x: int, y: int)
    requires img.Valid()
  {
    var ox, oy := Step(GradX(img, x, y)), Step(GradY(img, x, y));
    var m := SquaredStrength(img, x, y);
    m >= SquaredStrength(img, x + ox, y + oy) && m >= SquaredStrength(img, x - ox, y - oy)
  }

  function Pixel(img: GrayscaleImage, x: int, y: int): byte
    requires img.Valid()
  {
    if Interior(img, x, y) && Kept(img, x, y) then Magnitude(GradX(img, x, y), GradY(img, x, y)) else 0
  }

  function Filtered(img: GrayscaleImage): (r: GrayscaleImage)
    requires img.Valid()
    ensures r.Valid() && SameShape(r, img)
  {
    var w, h := img.width, img.height;
    GrayscaleImage(w, h, seq(w * h, k requires 0 <= k < w * h => Pixel(img, Col(w, h, k), Row(w, h, k))))
  }

  lemma FilteredAt(img: GrayscaleImage, x: int, y: int)
    requires img.Valid() && img.Contains(x, y)
    ensures Filtered(img).At(x, y) == Pixel(img, x, y)
  {
    CoordsOfIndex(img.width, img.height, x, y);
  }

  /** The private `gradientMagnitude`, squared: 0 outside the arrays' range. */
  function GradientMagnitude(gradientX: array2<int>, gradientY: array2<int>, x: int, y: int, width: int, height: int): (m: int)
    reads gradientX, gradientY
    requires gradientX.Length0 == gradientY.Length0 == width && gradientX.Length1 == gradientY.Length1 == height
    ensures m >= 0
    ensures !(0 <= x < width && 0 <= y < height) ==> m == 0
  {
    if x < 0 || x >= width || y < 0 || y >= height then 0
    else
      SquareNonNegative(gradientX[x, y]);
      SquareNonNegative(gradientY[x, y]);
      gradientX[x, y] * gradientX[x, y] + gradientY[x, y] * gradientY[x, y]
  }

  /** The arrays hold the finished gradients of img. */
  ghost predicate HoldsGradients(img: GrayscaleImage, gradientX: array2<int>, gradientY: array2<int>)
    reads gradientX, gradientY
    requires img.Valid()
  {
    && gradientX.Length0 == gradientY.Length0 == img.width
    && gradientX.Length1 == gradientY.Length1 == img.height
    && (forall a, b :: 0 <= a < img.width && 0 <= b < img.height ==> gradientX[a, b] == GradX(img, a, b))
    && (forall a, b :: 0 <= a < img.width && 0 <= b < img.height ==> gradientY[a, b] == GradY(img, a, b))
  }

  /** The first loop nest: zero-initialised arrays, interior entries written. */
  method ComputeGradients(img: GrayscaleImage) returns (gradientX: array2<int>, gradientY: array2<int>)
    requires img.Valid()
    ensures fresh(gradientX) && fresh(gradientY)
    ensures HoldsGradients(img, gradientX, gradientY)
  {
    var w, h := img.width, img.height;
    gradientX := new int[w, h]((_, _) => 0);
    gradientY := new int[w, h]((_, _) => 0);
    var y := 1;
    while y < h - 1
      invariant 1 <= y
      invariant forall a, b :: 0 <= a < w && 0 <= b < h ==> gradientX[a, b] == if b < y then GradX(img, a, b) else 0
      invariant forall a, b :: 0 <= a < w && 0 <= b < h ==> gradientY[a, b] == if b < y then GradY(img, a, b) else 0
    {
      var x := 1;
      while x < w - 1
        invariant 1 <= x
        invariant forall a, b :: 0 <= a < w && 0 <= b < h ==>
          gradientX[a, b] == if b < y || (b == y && a < x) then GradX(img, a, b) else 0
        invariant forall a, b :: 0 <= a < w && 0 <= b < h ==>
          gradientY[a, b] == if b < y || (b == y && a < x) then GradY(img, a, b) else 0
      {
        var gx :=
          -1 * img.At(x - 1, y - 1) + 1 * img.At(x + 1, y - 1) +
          -2 * img.At(x - 1, y) + 2 * img.At(x + 1, y) +
          -1 * img.At(x - 1, y + 1) + 1 * img.At(x + 1, y + 1);
        var gy :=
          -1 * img.At(x - 1, y - 1) + -2 * img.At(x, y - 1) + -1 * img.At(x + 1, y - 1) +
          1 * img.At(x - 1, y + 1) + 2 * img.At(x, y + 1) + 1 * img.At(x + 1, y + 1);
        gradientX[x, y] := gx;
        gradientY[x, y] := gy;
        x := x + 1;
      }
      y := y + 1;
    }
  }

  /** The second loop nest: keep the magnitude where it is a local maximum. */
  method Suppress(img: GrayscaleImage, gradientX: array2<int>, gradientY: array2<int>) returns (r: GrayscaleImage)
    requires img.Valid() && HoldsGradients(img, gradientX, gradientY)
    ensures r == Filtered(img)
  {
    var w, h := img.width, img.height;
    ghost var s := Filtered(img).pixels;
    assert BlackOutside(s, w, h, 1, 1);
    var result := new byte[w * h](_ => 0);
    FillStart(result[..], s, w, h, 1, 1);
    var y := 1;
    while y < h - 1
      invariant 1 <= y
      invariant FilledUpTo(result[..], s, w, h, 0, y)
    {
      FillRowStart(result[..], s, w, h, 1, 1, y);
      var x := 1;
      while x < w - 1
        invariant 1 <= x
        invariant FilledUpTo(result[..], s, w, h, x, y)
      {
        var value := SuppressAt(img, gradientX, gradientY, x, y);
        CoordsOfIndex(w, h, x, y);
        ghost var before := result[..];
        result[y * w + x] := value;
        FillStep(before, s, w, h, x, y);
        assert result[..] == before[y * w + x := s[y * w + x]];
        x := x + 1;
      }
      FillRowEnd(result[..], s, w, h, 1, 1, x, y);
      y := y + 1;
    }
    FillEnd(result[..], s, w, h, 1, 1, y);
    r := GrayscaleImage(w, h, result[..]);
  }

  /** The body of the second loop nest at one interior pixel. */
  method SuppressAt(img: GrayscaleImage, gradientX: array2<int>, gradientY: array2<int>, x: int, y: int) returns (value: byte)
    requires img.Valid() && HoldsGradients(img, gradientX, gradientY) && Interior(img, x, y)
    ensures value == Pixel(img, x, y)
  {
    var w, h := img.width, img.height;
    var gx, gy := gradientX[x, y], gradientY[x, y];
    var magnitude := gx * gx + gy * gy;
    var offsetX := if gx > 0 then 1 else -1;
    var offsetY := if gy > 0 then 1 else -1;
    var neighbor1 := GradientMagnitude(gradientX, gradientY, x + offsetX, y + offsetY, w, h);
    var neighbor2 := GradientMagnitude(gradientX, gradientY, x - offsetX, y - offsetY, w, h);
    if magnitude >= neighbor1 && magnitude >= neighbor2 {
      value := ClampByte(Isqrt(magnitude));
    } else {
      value := 0;
    }
    assert value == Pixel(img, x, y) by {
      assert gx == GradX(img, x, y) && gy == GradY(img, x, y);
      assert offsetX == Step(gx) && offsetY == Step(gy);
      StrengthFromArrays(img, gradientX, gradientY, x, y);
      StrengthFromArrays(img, gradientX, gradientY, x + offsetX, y + offsetY);
      StrengthFromArrays(img, gradientX, gradientY, x - offsetX, y - offsetY);
      SuppressionRule(img, x, y, magnitude, offsetX, offsetY, neighbor1, neighbor2);
    }
  }

  /** The source's test on the computed values decides Kept. */
  lemma SuppressionRule(img: GrayscaleImage, x: int, y: int, m: int, offsetX: int, offsetY: int, neighbor1: int, neighbor2: int)
    requires img.Valid() && Interior(img, x, y) && m == SquaredStrength(img, x, y)
    requires offsetX == Step(GradX(img, x, y)) && offsetY == Step(GradY(img, x, y))
    requires neighbor1 == SquaredStrength(img, x + offsetX, y + offsetY)
    requires neighbor2 == SquaredStrength(img, x - offsetX, y - offsetY)
    ensures Pixel(img, x, y) == if m >= neighbor1 && m >= neighbor2 then ClampByte(Isqrt(m)) else 0
  {
    assert Magnitude(GradX(img, x, y), GradY(img, x, y)) == ClampByte(Isqrt(m));
  }

  /** `gradientMagnitude` on the finished arrays is the strength of img. */
  lemma StrengthFromArrays(img: GrayscaleImage, gradientX: array2<int>, gradientY: array2<int>, x: int, y: int)
    requires img.Valid() && HoldsGradients(img, gradientX, gradientY)
    ensures GradientMagnitude(gradientX, gradientY, x, y, img.width, img.height) == SquaredStrength(img, x, y)
  {
  }

  /** `Apply`: both loop nests. */
  method Apply(img: GrayscaleImage) returns (r: GrayscaleImage)
    requires img.Valid()
    ensures r == Filtered(img)
  {
    var gradientX, gradientY := ComputeGradients(img);
    r := Suppress(img, gradientX, gradientY);
  }

  /** Suppression only removes: each output pixel is either 0 or the Sobel output there. */
  lemma ThinnedSobel(img: GrayscaleImage, x: int, y: int)
    requires img.Valid() && img.Contains(x, y)
    ensures IsKernel(Sobel.KernelX, 1) && IsKernel(Sobel.KernelY, 1)
    ensures Filtered(img).At(x, y) == 0 || Filtered(img).At(x, y) == GradientOperator.Filtered(img, Sobel.KernelX, Sobel.KernelY).At(x, y)
    ensures Filtered(img).At(x, y) <= GradientOperator.Filtered(img, Sobel.KernelX, Sobel.KernelY).At(x, y)
  {
    FilteredAt(img, x, y);
    GradientOperator.FilteredAt(img, Sobel.KernelX, Sobel.KernelY, x, y);
    if Interior(img, x, y) {
      SixTapsAreSobel(img, x, y);
    }
  }

  /** From an interior pixel both neighbours lie inside the image, so the
      out-of-range branch of `gradientMagnitude` is only reached, if ever, from
      nowhere the loops visit. */
  lemma NeighboursInside(img: GrayscaleImage, x: int, y: int)
    requires img.Valid() && Interior(img, x, y)
    ensures img.Contains(x + Step(GradX(img, x, y)), y + Step(GradY(img, x, y)))
    ensures img.Contains(x - Step(GradX(img, x, y)), y - Step(GradY(img, x, y)))
  {
  }

  /** The one-pixel border of the output is black. */
  lemma BorderIsBlack(img: GrayscaleImage, x: int, y: int)
    requires img.Valid() && img.Contains(x, y) && !Interior(img, x, y)
    ensures Filtered(img).At(x, y) == 0
  {
    FilteredAt(img, x, y);
  }

  /** A flat image has no edges. */
  lemma UniformIsBlack(img: GrayscaleImage, v: int)
    requires img.Valid() && Uniform(img, v)
    ensures Black(Filtered(img).pixels)
  {
    var w, h := img.width, img.height;
    var s := Filtered(img).pixels;
    forall k | 0 <= k < w * h
      ensures s[k] == 0
    {
      UniformPixel(img, v, Col(w, h, k), Row(w, h, k));
    }
  }

  lemma UniformPixel(img: GrayscaleImage, v: int, x: int, y: int)
    requires img.Valid() && Uniform(img, v)
    ensures Pixel(img, x, y) == 0
  {
    if Interior(img, x, y) {
      UniformAt(img, v, x - 1, y - 1);
      UniformAt(img, v, x, y - 1);
      UniformAt(img, v, x + 1, y - 1);
      UniformAt(img, v, x - 1, y);
      UniformAt(img, v, x + 1, y);
      UniformAt(img, v, x - 1, y + 1);
      UniformAt(img, v, x, y + 1);
      UniformAt(img, v, x + 1, y + 1);
      assert GradX(img, x, y) == 0 && GradY(img, x, y) == 0;
      assert Magnitude(0, 0) == 0;
    }
  }

  lemma UniformAt(img: GrayscaleImage, v: int, x: int, y: int)
    requires img.Valid() && Uniform(img, v) && img.Contains(x, y)
    ensures img.At(x, y) == v
  {
    IndexInRange(img.width, img.height, x, y);
  }

  /** A pixel strictly stronger than both neighbours along its direction survives
      with its full magnitude. */
  lemma LocalMaximumKept(img: GrayscaleImage, x: int, y: int)
    requires img.Valid() && Interior(img, x, y)
    requires SquaredStrength(img, x, y) > SquaredStrength(img, x + Step(GradX(img, x, y)), y + Step(GradY(img, x, y)))
    requires SquaredStrength(img, x, y) > SquaredStrength(img, x - Step(GradX(img, x, y)), y - Step(GradY(img, x, y)))
    ensures Filtered(img).At(x, y) == Magnitude(GradX(img, x, y), GradY(img, x, y))
  {
    FilteredAt(img, x, y);
  }
}
