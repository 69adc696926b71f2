/** Direct correlation with a small integer kernel, as every fixed-kernel filter
    writes it: for j, i in -r..r, `sum += Pixels[(y + j) * width + (x + i)] * kernel[j + r, i + r]`. */
module Convolution {
  import opened Numeric
  import opened Image

  /** A C# `int[,]` kernel as its rows. */
  type Kernel = seq<seq<int>>

  function Side(r: nat): nat {
    2 * r + 1
  }

  /** A (2r+1) x (2r+1) kernel. */
  predicate IsKernel(k: Kernel, r: nat) {
    |k| == Side(r) && forall j :: 0 <= j < |k| ==> |k[j]| == Side(r)
  }

  /** The (2r+1)-square window around (x, y) lies inside a valid image. */
  predicate Centred(img: GrayscaleImage, r: nat, x: int, y: int) {
    img.Valid() && r <= x < img.width - r && r <= y < img.height - r
  }

  /** The first n taps of kernel row j: weight k[j][i] meets the pixel at offset (i - r, j - r). */
  function RowSum(img: GrayscaleImage, k: Kernel, r: nat, x: int, y: int, j: nat, n: nat): int
    requires IsKernel(k, r) && Centred(img, r, x, y) && j < Side(r) && n <= Side(r)
    decreases n
  {
    if n == 0 then 0
    else RowSum(img, k, r, x, y, j, n - 1) + img.At(x + (n - 1) - r, y + j - r) * k[j][n - 1]
  }

  /** The first m kernel rows. */
  function WindowSum(img: GrayscaleImage, k: Kernel, r: nat, x: int, y: int, m: nat): int
    requires IsKernel(k, r) && Centred(img, r, x, y) && m <= Side(r)
    decreases m
  {
    if m == 0 then 0
    else WindowSum(img, k, r, x, y, m - 1) + RowSum(img, k, r, x, y, m - 1, Side(r))
  }

  /** The kernel's response at (x, y). */
  function Response(img: GrayscaleImage, k: Kernel, r: nat, x: int, y: int): int
    requires IsKernel(k, r) && Centred(img, r, x, y)
  {
    WindowSum(img, k, r, x, y, Side(r))
  }

  /** The source's j/i accumulation loops. */
  method Correlate(img: GrayscaleImage, k: Kernel, r: nat, x: int, y: int) returns (sum: int)
    requires IsKernel(k, r) && Centred(img, r, x, y)
    ensures sum == Response(img, k, r, x, y)
  {
    sum := 0;
    var j: int := -(r as int);
    while j <= r
      invariant -(r as int) <= j <= r + 1
      invariant sum == WindowSum(img, k, r, x, y, j + r)
    {
      var i: int := -(r as int);
      while i <= r
        invariant -(r as int) <= i <= r + 1
        invariant sum == WindowSum(img, k, r, x, y, j + r) + RowSum(img, k, r, x, y, j + r, i + r)
      {
        sum := sum + img.At(x + i, y + j) * k[j + r][i + r];
        i := i + 1;
      }
      j := j + 1;
    }
  }

  /** A 3x3 response written out tap by tap. */
  lemma Response3x3(img: GrayscaleImage, k: Kernel, x: int, y: int)
    requires IsKernel(k, 1) && Centred(img, 1, x, y)
    ensures Response(img, k, 1, x, y) ==
      img.At(x - 1, y - 1) * k[0][0] + img.At(x, y - 1) * k[0][1] + img.At(x + 1, y - 1) * k[0][2] +
      img.At(x - 1, y) * k[1][0] + img.At(x, y) * k[1][1] + img.At(x + 1, y) * k[1][2] +
      img.At(x - 1, y + 1) * k[2][0] + img.At(x, y + 1) * k[2][1] + img.At(x + 1, y + 1) * k[2][2]
  {
    assert RowSum(img, k, 1, x, y, 0, 3) ==
      img.At(x - 1, y - 1) * k[0][0] + img.At(x, y - 1) * k[0][1] + img.At(x + 1, y - 1) * k[0][2];
    assert RowSum(img, k, 1, x, y, 1, 3) ==
      img.At(x - 1, y) * k[1][0] + img.At(x, y) * k[1][1] + img.At(x + 1, y) * k[1][2];
    assert RowSum(img, k, 1, x, y, 2, 3) ==
      img.At(x - 1, y + 1) * k[2][0] + img.At(x, y + 1) * k[2][1] + img.At(x + 1, y + 1) * k[2][2];
  }

  /** The sum of column i of a 3x3 kernel. */
  function ColumnTotal(k: Kernel, i: nat): int
    requires IsKernel(k, 1) && i < 3
  {
    k[0][i] + k[1][i] + k[2][i]
  }

  /** Left columns 0, the rest 255, the step just before column c. */
  ghost predicate VerticalStep(img: GrayscaleImage, c: int)
    requires img.Valid()
  {
    forall x, y :: img.Contains(x, y) ==> img.At(x, y) == if x < c then 0 else 255
  }

  function StepValue(u: int, c: int): int {
    if u < c then 0 else 255
  }

  /** On a vertical step only the column totals of a 3x3 kernel matter. */
  lemma StepResponse(img: GrayscaleImage, k: Kernel, x: int, y: int, c: int)
    requires IsKernel(k, 1) && Centred(img, 1, x, y) && VerticalStep(img, c)
    ensures Response(img, k, 1, x, y) ==
      StepValue(x - 1, c) * ColumnTotal(k, 0) + StepValue(x, c) * ColumnTotal(k, 1) + StepValue(x + 1, c) * ColumnTotal(k, 2)
  {
    Response3x3(img, k, x, y);
    assert img.At(x - 1, y - 1) == img.At(x - 1, y) == img.At(x - 1, y + 1) == StepValue(x - 1, c);
    assert img.At(x, y - 1) == img.At(x, y) == img.At(x, y + 1) == StepValue(x, c);
    assert img.At(x + 1, y - 1) == img.At(x + 1, y) == img.At(x + 1, y + 1) == StepValue(x + 1, c);
  }

  function RowTotal(row: seq<int>, n: nat): int
    requires n <= |row|
  {
    if n == 0 then 0 else RowTotal(row, n - 1) + row[n - 1]
  }

  function GridTotal(k: Kernel, m: nat): int
    requires m <= |k|
  {
    if m == 0 then 0 else GridTotal(k, m - 1) + RowTotal(k[m - 1], |k[m - 1]|)
  }

  /** The sum of all weights. */
  function KernelTotal(k: Kernel): int {
    GridTotal(k, |k|)
  }

  /** The weight total of a 3x3 kernel, written out. */
  lemma KernelTotal3x3(k: Kernel)
    requires IsKernel(k, 1)
    ensures KernelTotal(k) == ColumnTotal(k, 0) + ColumnTotal(k, 1) + ColumnTotal(k, 2)
  {
    assert |k| == 3 && |k[0]| == 3 && |k[1]| == 3 && |k[2]| == 3;
    RowTotal3(k[0]);
    RowTotal3(k[1]);
    RowTotal3(k[2]);
    assert GridTotal(k, 1) == RowTotal(k[0], 3);
    assert GridTotal(k, 2) == GridTotal(k, 1) + RowTotal(k[1], 3);
  }

  lemma RowTotal3(row: seq<int>)
    requires |row| == 3
    ensures RowTotal(row, 3) == row[0] + row[1] + row[2]
  {
    assert RowTotal(row, 1) == row[0];
    assert RowTotal(row, 2) == row[0] + row[1];
  }

  /** On a window of equal pixels the response is that value times the weight total. */
  lemma UniformResponse(img: GrayscaleImage, k: Kernel, r: nat, x: int, y: int, v: int)
    requires IsKernel(k, r) && Centred(img, r, x, y) && Uniform(img, v)
    ensures Response(img, k, r, x, y) == v * KernelTotal(k)
  {
    UniformWindow(img, k, r, x, y, v, Side(r));
  }

  lemma {:induction false} UniformWindow(img: GrayscaleImage, k: Kernel, r: nat, x: int, y: int, v: int, m: nat)
    requires IsKernel(k, r) && Centred(img, r, x, y) && Uniform(img, v) && m <= Side(r)
    ensures WindowSum(img, k, r, x, y, m) == v * GridTotal(k, m)
  {
    if m > 0 {
      UniformWindow(img, k, r, x, y, v, m - 1);
      UniformRow(img, k, r, x, y, v, m - 1, Side(r));
      Distribute(GridTotal(k, m - 1), RowTotal(k[m - 1], Side(r)), v);
    }
  }

  lemma {:induction false} UniformRow(img: GrayscaleImage, k: Kernel, r: nat, x: int, y: int, v: int, j: nat, n: nat)
    requires IsKernel(k, r) && Centred(img, r, x, y) && Uniform(img, v) && j < Side(r) && n <= Side(r)
    ensures RowSum(img, k, r, x, y, j, n) == v * RowTotal(k[j], n)
  {
    if n > 0 {
      UniformRow(img, k, r, x, y, v, j, n - 1);
      IndexInRange(img.width, img.height, x + (n - 1) - r, y + j - r);
      assert img.At(x + (n - 1) - r, y + j - r) == v;
      Distribute(RowTotal(k[j], n - 1), k[j][n - 1], v);
    }
  }

  /** On the negative of an image the response is 255 times the weight total
      minus the original response. */
  lemma InvertedResponse(img: GrayscaleImage, k: Kernel, r: nat, x: int, y: int)
    requires IsKernel(k, r) && Centred(img, r, x, y)
    ensures Centred(Inverted(img), r, x, y)
    ensures Response(Inverted(img), k, r, x, y) == 255 * KernelTotal(k) - Response(img, k, r, x, y)
  {
    InvertedWindow(img, k, r, x, y, Side(r));
  }

  lemma {:induction false} InvertedWindow(img: GrayscaleImage, k: Kernel, r: nat, x: int, y: int, m: nat)
    requires IsKernel(k, r) && Centred(img, r, x, y) && m <= Side(r)
    ensures Centred(Inverted(img), r, x, y)
    ensures WindowSum(Inverted(img), k, r, x, y, m) == 255 * GridTotal(k, m) - WindowSum(img, k, r, x, y, m)
  {
    if m > 0 {
      InvertedWindow(img, k, r, x, y, m - 1);
      InvertedRow(img, k, r, x, y, m - 1, Side(r));
      Distribute(GridTotal(k, m - 1), RowTotal(k[m - 1], Side(r)), 255);
    }
  }

  lemma {:induction false} InvertedRow(img: GrayscaleImage, k: Kernel, r: nat, x: int, y: int, j: nat, n: nat)
    requires IsKernel(k, r) && Centred(img, r, x, y) && j < Side(r) && n <= Side(r)
    ensures Centred(Inverted(img), r, x, y)
    ensures RowSum(Inverted(img), k, r, x, y, j, n) == 255 * RowTotal(k[j], n) - RowSum(img, k, r, x, y, j, n)
  {
    if n > 0 {
      InvertedRow(img, k, r, x, y, j, n - 1);
      var u, v := x + (n - 1) - r, y + j - r;
      InvertedAt(img, u, v);
      var p, q, wt := img.At(u, v) as int, Inverted(img).At(u, v) as int, k[j][n - 1];
      ComplementProduct(p, q, wt);
      Distribute(RowTotal(k[j], n - 1), wt, 255);
    }
  }

  lemma ComplementProduct(p: int, q: int, wt: int)
    requires q == 255 - p
    ensures q * wt == 255 * wt - p * wt
  {
  }

  /** The kernel with every weight negated. */
  function Negate(k: Kernel): (n: Kernel)
    ensures |n| == |k| && forall j :: 0 <= j < |k| ==> |n[j]| == |k[j]|
  {
    seq(|k|, j requires 0 <= j < |k| => seq(|k[j]|, i requires 0 <= i < |k[j]| => -k[j][i]))
  }

  /** Negating the kernel negates the response. */
  lemma NegatedResponse(img: GrayscaleImage, k: Kernel, r: nat, x: int, y: int)
    requires IsKernel(k, r) && Centred(img, r, x, y)
    ensures IsKernel(Negate(k), r)
    ensures Response(img, Negate(k), r, x, y) == -Response(img, k, r, x, y)
  {
    NegatedWindow(img, k, r, x, y, Side(r));
  }

  lemma {:induction false} NegatedWindow(img: GrayscaleImage, k: Kernel, r: nat, x: int, y: int, m: nat)
    requires IsKernel(k, r) && Centred(img, r, x, y) && m <= Side(r)
    ensures IsKernel(Negate(k), r)
    ensures WindowSum(img, Negate(k), r, x, y, m) == -WindowSum(img, k, r, x, y, m)
  {
    if m > 0 {
      NegatedWindow(img, k, r, x, y, m - 1);
      NegatedRow(img, k, r, x, y, m - 1, Side(r));
    }
  }

  lemma {:induction false} NegatedRow(img: GrayscaleImage, k: Kernel, r: nat, x: int, y: int, j: nat, n: nat)
    requires IsKernel(k, r) && Centred(img, r, x, y) && j < Side(r) && n <= Side(r)
    ensures IsKernel(Negate(k), r)
    ensures RowSum(img, Negate(k), r, x, y, j, n) == -RowSum(img, k, r, x, y, j, n)
  {
    if n > 0 {
      NegatedRow(img, k, r, x, y, j, n - 1);
    }
  }
}
