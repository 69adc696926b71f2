/** LoGProcessor: correlation with a fixed 5x5 Laplacian-of-Gaussian kernel; the
    sum is clamped into a byte with no absolute value taken, so negative
    responses come out 0. The two-pixel border stays 0. */
module LaplacianOfGaussian {
  import opened Numeric
  import opened Image
  import opened Convolution

  const LoGKernel: Kernel := [
    [0, 0, -1, 0, 0],
    [0, -1, -2, -1, 0],
    [-1, -2, 16, -2, -1],
    [0, -1, -2, -1, 0],
    [0, 0, -1, 0, 0]
  ]

  /** Pixel (x, y) lies off the two-pixel border. */
  predicate Interior(img: GrayscaleImage, x: int, y: int) {
    2 <= x < img.width - 2 && 2 <= y < img.height - 2
  }

  function Pixel(img: GrayscaleImage, kernel: Kernel, x: int, y: int): byte
    requires img.Valid() && IsKernel(kernel, 2)
  {
    if Interior(img, x, y) then ClampByte(Response(img, kernel, 2, x, y)) else 0
  }

  function Filtered(img: GrayscaleImage, kernel: Kernel): (r: GrayscaleImage)
    requires img.Valid() && IsKernel(kernel, 2)
    ensures r.Valid() && SameShape(r, img)
  {
    var w, h := img.width, img.height;
    GrayscaleImage(w, h, seq(w * h, k requires 0 <= k < w * h => Pixel(img, kernel, Col(w, h, k), Row(w, h, k))))
  }

  lemma FilteredAt(img: GrayscaleImage, kernel: Kernel, x: int, y: int)
    requires img.Valid() && IsKernel(kernel, 2) && img.Contains(x, y)
    ensures Filtered(img, kernel).At(x, y) == Pixel(img, kernel, x, y)
  {
    CoordsOfIndex(img.width, img.height, x, y);
  }

  /** `Apply(image) => Convolve(image, kernel)` with the fixed kernel. */
  method Apply(img: GrayscaleImage) returns (r: GrayscaleImage)
    requires img.Valid()
    ensures IsKernel(LoGKernel, 2)
    ensures r == Filtered(img, LoGKernel)
  {
    r := Convolve(img, LoGKernel);
  }

  /** `Convolve`: the y/x loops from 2 to size - 3, each pixel the clamped
      5x5 correlation. */
  method Convolve(img: GrayscaleImage, kernel: Kernel) returns (r: GrayscaleImage)
    requires img.Valid() && IsKernel(kernel, 2)
    ensures r == Filtered(img, kernel)
  {
    var w, h := img.width, img.height;
    ghost var s := Filtered(img, kernel).pixels;
    assert BlackOutside(s, w, h, 2, 2);
    var result := new byte[w * h](_ => 0);
    FillStart(result[..], s, w, h, 2, 2);
    var y := 2;
    while y < h - 2
      invariant 2 <= y
      invariant FilledUpTo(result[..], s, w, h, 0, y)
    {
      FillRowStart(result[..], s, w, h, 2, 2, y);
      var x := 2;
      while x < w - 2
        invariant 2 <= x
        invariant FilledUpTo(result[..], s, w, h, x, y)
      {
        var sum := Correlate(img, kernel, 2, x, y);
        CoordsOfIndex(w, h, x, y);
        ghost var before := result[..];
        result[y * w + x] := ClampByte(sum);
        FillStep(before, s, w, h, x, y);
        assert result[..] == before[y * w + x := s[y * w + x]];
        x := x + 1;
      }
      FillRowEnd(result[..], s, w, h, 2, 2, x, y);
      y := y + 1;
    }
    FillEnd(result[..], s, w, h, 2, 2, y);
    r := GrayscaleImage(w, h, result[..]);
  }

  lemma RowTotal5(row: seq<int>)
    requires |row| == 5
    ensures RowTotal(row, 5) == row[0] + row[1] + row[2] + row[3] + row[4]
  {
    assert RowTotal(row, 1) == row[0];
    assert RowTotal(row, 2) == row[0] + row[1];
    assert RowTotal(row, 3) == row[0] + row[1] + row[2];
    assert RowTotal(row, 4) == row[0] + row[1] + row[2] + row[3];
  }

  /** The kernel's weights sum to zero. */
  lemma KernelBalanced()
    ensures IsKernel(LoGKernel, 2) && KernelTotal(LoGKernel) == 0
    ensures forall i, j {:trigger LoGKernel[i][j]} :: 0 <= i < 5 && 0 <= j < 5 ==>
      LoGKernel[i][j] == LoGKernel[j][i] && LoGKernel[i][j] == LoGKernel[4 - i][j]
  {
    var k := LoGKernel;
    RowTotal5(k[0]);
    RowTotal5(k[1]);
    RowTotal5(k[2]);
    RowTotal5(k[3]);
    RowTotal5(k[4]);
    assert GridTotal(k, 1) == -1;
    assert GridTotal(k, 2) == -5;
    assert GridTotal(k, 3) == 5;
    assert GridTotal(k, 4) == 1;
  }

  /** A flat image has no edges. */
  lemma UniformIsBlack(img: GrayscaleImage, v: int)
    requires img.Valid() && Uniform(img, v)
    ensures IsKernel(LoGKernel, 2)
    ensures Black(Filtered(img, LoGKernel).pixels)
  {
    KernelBalanced();
    var w, h := img.width, img.height;
    var s := Filtered(img, LoGKernel).pixels;
    forall k | 0 <= k < w * h
      ensures s[k] == 0
    {
      var x, y := Col(w, h, k), Row(w, h, k);
      if Interior(img, x, y) {
        UniformResponse(img, LoGKernel, 2, x, y, v);
      }
    }
  }

  /** The two-pixel border of the output is black. */
  lemma BorderIsBlack(img: GrayscaleImage, kernel: Kernel, x: int, y: int)
    requires img.Valid() && IsKernel(kernel, 2) && img.Contains(x, y) && !Interior(img, x, y)
    ensures Filtered(img, kernel).At(x, y) == 0
  {
    FilteredAt(img, kernel, x, y);
  }

  /** An image narrower or lower than five pixels has no interior and comes out black. */
  lemma SmallIsBlack(img: GrayscaleImage, kernel: Kernel)
    requires img.Valid() && IsKernel(kernel, 2) && (img.width < 5 || img.height < 5)
    ensures Black(Filtered(img, kernel).pixels)
  {
  }

  /** An interior pixel is lit exactly when the response there is positive. */
  lemma LitIffPositive(img: GrayscaleImage, x: int, y: int)
    requires img.Valid() && img.Contains(x, y) && Interior(img, x, y)
    ensures IsKernel(LoGKernel, 2)
    ensures Filtered(img, LoGKernel).At(x, y) > 0 <==> Response(img, LoGKernel, 2, x, y) > 0
  {
    KernelBalanced();
    FilteredAt(img, LoGKernel, x, y);
  }

  /** Without an absolute value the filter is one-sided: at each interior pixel
      at most one of an image and its negative is lit, and together they give
      the clamped absolute response. */
  lemma OneSided(img: GrayscaleImage, x: int, y: int)
    requires img.Valid() && img.Contains(x, y) && Interior(img, x, y)
    ensures IsKernel(LoGKernel, 2)
    ensures Filtered(img, LoGKernel).At(x, y) == 0 || Filtered(Inverted(img), LoGKernel).At(x, y) == 0
    ensures Filtered(img, LoGKernel).At(x, y) + Filtered(Inverted(img), LoGKernel).At(x, y)
         == ClampByte(Abs(Response(img, LoGKernel, 2, x, y)))
  {
    KernelBalanced();
    FilteredAt(img, LoGKernel, x, y);
    FilteredAt(Inverted(img), LoGKernel, x, y);
    InvertedResponse(img, LoGKernel, 2, x, y);
  }
}
