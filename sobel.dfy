/** SobelProcessor: the shared gradient operator with the Sobel kernels. */
module Sobel {
  import opened Image
  import opened Convolution
  import opened GradientOperator

  const KernelX: Kernel := [[-1, 0, 1], [-2, 0, 2], [-1, 0, 1]]
  const KernelY: Kernel := [[-1, -2, -1], [0, 0, 0], [1, 2, 1]]

  /** The Sobel kernels: two 3 x 3 kernels summing to 0, KernelY is KernelX
      transposed, and KernelX is zero in its middle column, opposite in its outer
      columns and the same in its top and bottom rows. */
  lemma KernelShape()
    ensures IsKernel(KernelX, 1) && IsKernel(KernelY, 1)
    ensures KernelTotal(KernelX) == 0 && KernelTotal(KernelY) == 0
    ensures forall i, j :: 0 <= i < 3 && 0 <= j < 3 ==> KernelY[i][j] == KernelX[j][i]
    ensures forall j :: 0 <= j < 3 ==> KernelX[j][1] == 0 && KernelX[j][2] == -KernelX[j][0]
    ensures KernelX[0] == KernelX[2]
  {
    KernelTotal3x3(KernelX);
    KernelTotal3x3(KernelY);
  }

  /** `Apply(image) => ApplyConvolution(image, SobelX, SobelY)`. */
  method Apply(img: GrayscaleImage) returns (r: GrayscaleImage)
    requires img.Valid()
    ensures IsKernel(KernelX, 1) && IsKernel(KernelY, 1)
    ensures r == Filtered(img, KernelX, KernelY)
  {
    r := ApplyConvolution(img, KernelX, KernelY);
  }

  /** A flat image has no edges. */
  lemma UniformIsBlack(img: GrayscaleImage, v: int)
    requires img.Valid() && Uniform(img, v)
    ensures IsKernel(KernelX, 1) && IsKernel(KernelY, 1)
    ensures Black(Filtered(img, KernelX, KernelY).pixels)
  {
    KernelTotal3x3(KernelX);
    KernelTotal3x3(KernelY);
    GradientOperator.UniformIsBlack(img, KernelX, KernelY, v);
  }

  /** The negative of an image has the same edges. */
  lemma InvertedIsSame(img: GrayscaleImage)
    requires img.Valid()
    ensures IsKernel(KernelX, 1) && IsKernel(KernelY, 1)
    ensures Filtered(Inverted(img), KernelX, KernelY) == Filtered(img, KernelX, KernelY)
  {
    KernelTotal3x3(KernelX);
    KernelTotal3x3(KernelY);
    GradientOperator.InvertedIsSame(img, KernelX, KernelY);
  }

  /** A black-to-white vertical step gives a two-pixel-wide white line (the step's
      gradient is 4 * 255 = 1020) and black everywhere else. */
  lemma VerticalStepEdge(img: GrayscaleImage, c: int, x: int, y: int)
    requires img.Valid() && VerticalStep(img, c) && img.Contains(x, y)
    ensures IsKernel(KernelX, 1) && IsKernel(KernelY, 1)
    ensures Filtered(img, KernelX, KernelY).At(x, y) == if Interior(img, x, y) && (x == c - 1 || x == c) then 255 else 0
  {
    assert VerticalDetector(KernelX, KernelY, 4);
    GradientOperator.VerticalStepEdge(img, KernelX, KernelY, 4, c, x, y);
  }
}
