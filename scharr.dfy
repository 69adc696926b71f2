/** ScharrProcessor: the shared gradient operator with the Scharr kernels, whose signs are the reverse of the usual ones. */
module Scharr {
  import opened Image
  import opened Convolution
  import opened GradientOperator

  const KernelX: Kernel := [[3, 0, -3], [10, 0, -10], [3, 0, -3]]
  const KernelY: Kernel := [[3, 10, 3], [0, 0, 0], [-3, -10, -3]]

  /** The Scharr kernels: two 3 x 3 kernels summing to 0, KernelY is KernelX
      transposed, and KernelX is zero in its middle column, opposite in its outer
      columns and the same in its top and bottom rows. */
  lemma KernelShape()
    ensures IsKernel(KernelX, 1) && IsKernel(KernelY, 1)
    ensures KernelTotal(KernelX) == 0 && KernelTotal(KernelY) == 0
    ensures forall i, j :: 0 <= i < 3 && 0 <= j < 3 ==> KernelY[i][j] == KernelX[j][i]
    ensures forall j :: 0 <= j < 3 ==> KernelX[j][1] == 0 && KernelX[j][2] == -KernelX[j][0]
    ensures KernelX[0] == KernelX[2]
  {
    KernelTotal3x3(KernelX);
    KernelTotal3x3(KernelY);
  }

  /** `Apply(image) => ApplyConvolution(image, ScharrX, ScharrY)`. */
  method Apply(img: GrayscaleImage) returns (r: GrayscaleImage)
    requires img.Valid()
    ensures IsKernel(KernelX, 1) && IsKernel(KernelY, 1)
    ensures r == Filtered(img, KernelX, KernelY)
  {
    r := ApplyConvolution(img, KernelX, KernelY);
  }

  /** A flat image has no edges. */
  lemma UniformIsBlack(img: GrayscaleImage, v: int)
    requires img.Valid() && Uniform(img, v)
    ensures IsKernel(KernelX, 1) && IsKernel(KernelY, 1)
    ensures Black(Filtered(img, KernelX, KernelY).pixels)
  {
    KernelTotal3x3(KernelX);
    KernelTotal3x3(KernelY);
    GradientOperator.UniformIsBlack(img, KernelX, KernelY, v);
  }

  /** The negative of an image has the same edges. */
  lemma InvertedIsSame(img: GrayscaleImage)
    requires img.Valid()
    ensures IsKernel(KernelX, 1) && IsKernel(KernelY, 1)
    ensures Filtered(Inverted(img), KernelX, KernelY) == Filtered(img, KernelX, KernelY)
  {
    KernelTotal3x3(KernelX);
    KernelTotal3x3(KernelY);
    GradientOperator.InvertedIsSame(img, KernelX, KernelY);
  }

  /** A black-to-white vertical step gives a two-pixel-wide white line (the
      step's gradient is -16 * 255 = -4080) and black everywhere else. */
  lemma VerticalStepEdge(img: GrayscaleImage, c: int, x: int, y: int)
    requires img.Valid() && VerticalStep(img, c) && img.Contains(x, y)
    ensures IsKernel(KernelX, 1) && IsKernel(KernelY, 1)
    ensures Filtered(img, KernelX, KernelY).At(x, y) == if Interior(img, x, y) && (x == c - 1 || x == c) then 255 else 0
  {
    assert VerticalDetector(KernelX, KernelY, -16);
    GradientOperator.VerticalStepEdge(img, KernelX, KernelY, -16, c, x, y);
  }

  /** The textbook Scharr kernels: the source's with every sign reversed. */
  const TextbookX: Kernel := [[-3, 0, 3], [-10, 0, 10], [-3, 0, 3]]
  const TextbookY: Kernel := [[-3, -10, -3], [0, 0, 0], [3, 10, 3]]

  /** The reversed signs do not change a single output pixel. */
  lemma SameAsTextbook(img: GrayscaleImage)
    requires img.Valid()
    ensures IsKernel(KernelX, 1) && IsKernel(KernelY, 1) && IsKernel(TextbookX, 1) && IsKernel(TextbookY, 1)
    ensures Filtered(img, KernelX, KernelY) == Filtered(img, TextbookX, TextbookY)
  {
    NegationInvariant(img, TextbookX, TextbookY);
    assert Negate(TextbookX) == KernelX by {
      assert Negate(TextbookX)[0] == KernelX[0];
      assert Negate(TextbookX)[1] == KernelX[1];
      assert Negate(TextbookX)[2] == KernelX[2];
    }
    assert Negate(TextbookY) == KernelY by {
      assert Negate(TextbookY)[0] == KernelY[0];
      assert Negate(TextbookY)[1] == KernelY[1];
      assert Negate(TextbookY)[2] == KernelY[2];
    }
  }
}
