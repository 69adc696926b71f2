/** KirschProcessor: eight compass kernels, each a flat row-major list of nine
    weights read with a running index k; the output is the largest absolute
    response, seeded at 0 and clamped to 255. The one-pixel border stays 0. */
module Kirsch {
  import opened Numeric
  import opened Image
  import opened Convolution

  /** The eight compass kernels, one direction every 45 degrees. */
  const Kernels: seq<seq<int>> := [
    [5, 5, 5, -3, 0, -3, -3, -3, -3],
    [-3, 5, 5, -3, 0, 5, -3, -3, -3],
    [-3, -3, 5, -3, 0, 5, -3, -3, 5],
    [-3, -3, -3, -3, 0, 5, -3, 5, 5],
    [-3, -3, -3, -3, 0, -3, 5, 5, 5],
    [-3, -3, -3, 5, 0, -3, 5, 5, -3],
    [5, -3, -3, 5, 0, -3, 5, -3, -3],
    [5, 5, -3, 5, 0, -3, -3, -3, -3]
  ]

  /** A flat list of nine weights as the 3x3 kernel it stands for: weight k
      meets offset (k % 3 - 1, k / 3 - 1). */
  function Grid(flat: seq<int>): (g: Kernel)
    requires |flat| == 9
    ensures IsKernel(g, 1)
    ensures forall j, i :: 0 <= j < 3 && 0 <= i < 3 ==> g[j][i] == flat[3 * j + i]
  {
    [flat[0..3], flat[3..6], flat[6..9]]
  }

  /** The response of compass kernel n at an interior pixel. */
  function CompassResponse(img: GrayscaleImage, n: nat, x: int, y: int): int
    requires Centred(img, 1, x, y) && n < 8
  {
    Response(img, Grid(Kernels[n]), 1, x, y)
  }

  /** `Math.Max` over the absolute responses of the first n kernels, starting from 0. */
  function MaxResponse(img: GrayscaleImage, x: int, y: int, n: nat): (m: int)
    requires Centred(img, 1, x, y) && n <= 8
    ensures m >= 0
    ensures forall i :: 0 <= i < n ==> Abs(CompassResponse(img, i, x, y)) <= m
  {
    if n == 0 then 0 else Max(MaxResponse(img, x, y, n - 1), Abs(CompassResponse(img, n - 1, x, y)))
  }

  predicate Interior(img: GrayscaleImage, x: int, y: int) {
    1 <= x < img.width - 1 && 1 <= y < img.height - 1
  }

  function Pixel(img: GrayscaleImage, x: int, y: int): byte
    requires img.Valid()
  {
    if Interior(img, x, y) then ClampByte(MaxResponse(img, x, y, 8)) else 0
  }

  function Filtered(img: GrayscaleImage): (r: GrayscaleImage)
    requires img.Valid()
    ensures r.Valid() && SameShape(r, img)
  {
    var w, h := img.width, img.height;
    GrayscaleImage(w, h, seq(w * h, k requires 0 <= k < w * h => Pixel(img, Col(w, h, k), Row(w, h, k))))
  }

  lemma FilteredAt(img: GrayscaleImage, x: int, y: int)
    requires img.Valid() && img.Contains(x, y)
    ensures Filtered(img).At(x, y) == Pixel(img, x, y)
  {
    CoordsOfIndex(img.width, img.height, x, y);
  }

  /** The j/i loops with the running weight index `k++`. */
  method Correlate(img: GrayscaleImage, kernel: seq<int>, x: int, y: int) returns (response: int)
    requires |kernel| == 9 && Centred(img, 1, x, y)
    ensures response == Response(img, Grid(kernel), 1, x, y)
  {
    ghost var g := Grid(kernel);
    response := 0;
    var k := 0;
    var j := -1;
    while j <= 1
      invariant -1 <= j <= 2 && k == 3 * (j + 1)
      invariant response == WindowSum(img, g, 1, x, y, j + 1)
    {
      var i := -1;
      while i <= 1
        invariant -1 <= i <= 2 && k == 3 * (j + 1) + (i + 1)
        invariant response == WindowSum(img, g, 1, x, y, j + 1) + RowSum(img, g, 1, x, y, j + 1, i + 1)
      {
        response := response + img.At(x + i, y + j) * kernel[k];
        k := k + 1;
        i := i + 1;
      }
      j := j + 1;
    }
  }

  /** The foreach over the kernels, keeping `Math.Max(maxResponse, Math.Abs(response))`. */
  method Strongest(img: GrayscaleImage, x: int, y: int) returns (maxResponse: int)
    requires Centred(img, 1, x, y)
    ensures maxResponse == MaxResponse(img, x, y, 8)
  {
    maxResponse := 0;
    var n := 0;
    while n < |Kernels|
      invariant 0 <= n <= 8
      invariant maxResponse == MaxResponse(img, x, y, n)
    {
      var response := Correlate(img, Kernels[n], x, y);
      maxResponse := Max(maxResponse, Abs(response));
      n := n + 1;
    }
  }

  /** `Apply`: the y/x loops, the foreach over the kernels and the final clamp. */
  method Apply(img: GrayscaleImage) returns (r: GrayscaleImage)
    requires img.Valid()
    ensures r == Filtered(img)
  {
    var w, h := img.width, img.height;
    ghost var s := Filtered(img).pixels;
    assert BlackOutside(s, w, h, 1, 1);
    var result := new byte[w * h](_ => 0);
    FillStart(result[..], s, w, h, 1, 1);
    var y := 1;
    while y < h - 1
      invariant 1 <= y
      invariant FilledUpTo(result[..], s, w, h, 0, y)
    {
      FillRowStart(result[..], s, w, h, 1, 1, y);
      var x := 1;
      while x < w - 1
        invariant 1 <= x
        invariant FilledUpTo(result[..], s, w, h, x, y)
      {
        var maxResponse := Strongest(img, x, y);
        CoordsOfIndex(w, h, x, y);
        ghost var before := result[..];
        result[y * w + x] := ClampByte(maxResponse);
        FillStep(before, s, w, h, x, y);
        assert result[..] == before[y * w + x := s[y * w + x]];
        x := x + 1;
      }
      FillRowEnd(result[..], s, w, h, 1, 1, x, y);
      y := y + 1;
    }
    FillEnd(result[..], s, w, h, 1, 1, y);
    r := GrayscaleImage(w, h, result[..]);
  }

  /** The running maximum is the largest absolute response seen, or the seed 0. */
  lemma {:induction false} MaxResponseIsMax(img: GrayscaleImage, x: int, y: int, n: nat)
    requires Centred(img, 1, x, y) && n <= 8
    ensures forall m :: 0 <= m < n ==> Abs(CompassResponse(img, m, x, y)) <= MaxResponse(img, x, y, n)
    ensures MaxResponse(img, x, y, n) == 0 || exists m :: 0 <= m < n && MaxResponse(img, x, y, n) == Abs(CompassResponse(img, m, x, y))
  {
    forall m | 0 <= m < n
      ensures Abs(CompassResponse(img, m, x, y)) <= MaxResponse(img, x, y, n)
    {
      MaxResponseBounds(img, x, y, n, m);
    }
    if n > 0 {
      MaxResponseIsMax(img, x, y, n - 1);
    }
  }

  /** The running maximum of the first n kernels is at least kernel m's, m < n. */
  lemma {:induction false} MaxResponseBounds(img: GrayscaleImage, x: int, y: int, n: nat, m: nat)
    requires Centred(img, 1, x, y) && m < n <= 8
    ensures Abs(CompassResponse(img, m, x, y)) <= MaxResponse(img, x, y, n)
  {
    if m < n - 1 {
      MaxResponseBounds(img, x, y, n - 1, m);
    }
  }

  /** Each interior output is the strongest compass response, capped at 255:
      no direction's response exceeds it, and it is attained by one direction. */
  lemma StrongestDirection(img: GrayscaleImage, x: int, y: int)
    requires img.Valid() && img.Contains(x, y) && Interior(img, x, y)
    ensures forall m :: 0 <= m < 8 ==> Filtered(img).At(x, y) >= ClampByte(Abs(CompassResponse(img, m, x, y)))
    ensures exists m :: 0 <= m < 8 && Filtered(img).At(x, y) == ClampByte(Abs(CompassResponse(img, m, x, y)))
  {
    FilteredAt(img, x, y);
    MaxResponseIsMax(img, x, y, 8);
    if MaxResponse(img, x, y, 8) == 0 {
      assert Abs(CompassResponse(img, 0, x, y)) == 0;
    }
  }

  /** The weights of every compass kernel sum to zero ... */
  lemma KernelsBalanced(n: nat)
    requires n < 8
    ensures KernelTotal(Grid(Kernels[n])) == 0
  {
    KernelTotal3x3(Grid(Kernels[n]));
  }

  /** ... so a flat image gives no response in any direction. */
  lemma UniformIsBlack(img: GrayscaleImage, v: int)
    requires img.Valid() && Uniform(img, v)
    ensures Black(Filtered(img).pixels)
  {
    var w, h := img.width, img.height;
    var s := Filtered(img).pixels;
    forall k | 0 <= k < w * h
      ensures s[k] == 0
    {
      var x, y := Col(w, h, k), Row(w, h, k);
      if Interior(img, x, y) {
        UniformMaxResponse(img, x, y, v, 8);
      }
    }
  }

  lemma {:induction false} UniformMaxResponse(img: GrayscaleImage, x: int, y: int, v: int, n: nat)
    requires Centred(img, 1, x, y) && Uniform(img, v) && n <= 8
    ensures MaxResponse(img, x, y, n) == 0
  {
    if n > 0 {
      UniformMaxResponse(img, x, y, v, n - 1);
      KernelsBalanced(n - 1);
      UniformResponse(img, Grid(Kernels[n - 1]), 1, x, y, v);
    }
  }

  /** The one-pixel border of the output is black. */
  lemma BorderIsBlack(img: GrayscaleImage, x: int, y: int)
    requires img.Valid() && img.Contains(x, y) && !Interior(img, x, y)
    ensures Filtered(img).At(x, y) == 0
  {
    FilteredAt(img, x, y);
  }

  /** An image narrower or lower than three pixels has no interior and comes out black. */
  lemma SmallIsBlack(img: GrayscaleImage)
    requires img.Valid() && (img.width < 3 || img.height < 3)
    ensures Black(Filtered(img).pixels)
  {
  }

  /** Compass kernel n + 1 is kernel n turned by 45 degrees: its eight outer
      weights, read clockwise from the top-left corner, are kernel n's shifted one
      place, and the centre weight is 0 in all of them. */
  lemma KernelsRotate(n: nat)
    requires n < 8
    ensures Kernels[n][4] == 0
    ensures forall p :: 0 <= p < 8 ==> Kernels[(n + 1) % 8][Ring(p + 1)] == Kernels[n][Ring(p)]
  {
  }

  /** The outer positions of a flat 3x3 kernel, clockwise from the top-left corner
      (position 8 wraps to 0). */
  function Ring(p: nat): (k: nat)
    requires p <= 8
    ensures k < 9 && k != 4
  {
    [0, 1, 2, 5, 8, 7, 6, 3, 0][p]
  }
}
