# PhotoToSketch edge-detection core in Dafny

This project models the integer part of the PhotoToSketch edge-detection library
and the region-adaptive pipeline built on top of it:

- the `GrayscaleImage` raster (width, height, row-major byte buffer);
- the fixed-kernel filters Sobel, Prewitt, Scharr, Kirsch, Roberts and LoG;
- EdgeFlow's non-maximum suppression;
- the Laplacian and per-pixel maximum of the Lindeberg scale space;
- the difference step of DoG;
- the averaging combiner (`CombineEdges`, `CombineTwo/Three/Four`) and the
  left fold of `CombinedProcess`;
- inversion and the sketch finaliser;
- `AutomaticRegionProcessor`, which cuts the image into 32 x 32 blocks, scores
  each block (variance, edge density, average gradient), picks a filter with a
  first-match rule table, runs it on the cut-out block and pastes the result
  into a shared output buffer.

Every filter is a specification function that gives the output image pixel by
pixel. Beside it is an imperative method with the source's own loops, whose
`ensures` ties its result to that function. The properties are then proved as
lemmas about the function. Pixels have the subset type `byte` (0..255), so
"every output value is in [0, 255]" holds by typing. `GrayscaleImage.Valid()`
(`|pixels| == width * height`, non-negative sides) is a separate predicate,
because the constructor checks only for a null buffer. The filters require it
of their input. The source does not check it, and what it does without it
depends on the filter and the case (see "## Left out").

`(int)Math.Sqrt(n)` on the small non-negative sums of squares is modelled as
the floor square root `Isqrt`. EdgeFlow compares square roots of `gx² + gy²`;
the model compares the squares, which is equivalent because the root is
monotone and injective on these integers. Gaussian blur, phase congruency and
the `Math.Sqrt` in the average-gradient statistic run on doubles. They are
parameters (`FloatFilters.Filters`), and all that is assumed of them is that the
filters return a valid image of the input's dimensions and that the root is
non-negative and 0 at 0.

Modules: `Numeric`, `Image`, `Convolution`, `GradientOperator` (the
`ApplyConvolution` shared by Sobel, Prewitt and Scharr), `Sobel`, `Prewitt`,
`Scharr`, `Kirsch`, `Roberts`, `LaplacianOfGaussian`, `EdgeFlow`, `Lindeberg`,
`DifferenceOfGaussians`, `EdgeCombination`, `Invert`, `ImageSketch`,
`RegionRule`, `Tiling`, `RegionStatistics`, `AutomaticRegion`, `FloatFilters`.

The model follows the code as written, including these details a reader might not expect:

- LoG takes no absolute value, so negative responses become 0.
- EdgeFlow steps by `gx > 0 ? 1 : -1`, so a zero component steps backwards.
- Phase congruency has no guard against a zero maximum (it is abstract here in
  any case).
- `CombineEdges` does not check that the second image has the first one's
  dimensions. The model requires only that both buffers are long enough.

## Model

| member | source | states |
|---|---|---|
| Image.Create | EdgeDetectionLib/Core/GrayscaleImage.cs:10-15 | a null buffer gives ArgumentNull; otherwise width, height and buffer are stored exactly as passed |
| Image.CreateChecksOnlyNull | EdgeDetectionLib/Core/GrayscaleImage.cs:10-15 | every non-null buffer is accepted, whatever its length and the dimensions; the image is well formed exactly when the sides are not negative and the buffer holds width * height pixels |
| Image.Inverted | PhotoToSketchApp/ImageSketchProcessor.cs:124-132 | same dimensions; every output pixel plus the input pixel is 255 |
| Image.InvertedAt | PhotoToSketchApp/ImageSketchProcessor.cs:127-130 | pixel (x, y) of the negative is 255 minus pixel (x, y) |
| Image.InvertedTwice | PhotoToSketchApp/ImageSketchProcessor.cs:124-132 | inverting twice gives back the original image |
| Image.CoordsOfIndex | EdgeDetectionLib/Algorithms/SobelProcessor.cs:45 | index y * width + x lies in the buffer and has column x and row y |
| Image.FillEnd | EdgeDetectionLib/Algorithms/SobelProcessor.cs:28-47 | a zeroed buffer filled on the interior by row-major loops equals the target, whose border is 0 |
| Invert.InvertImage | PhotoToSketchApp/AutomaticRegionProcessor.cs:160-168 | the loop writes 255 - p at every index, which is the negative of the image |
| Numeric.ClampByte | EdgeDetectionLib/Algorithms/SobelProcessor.cs:45 | `(byte)Math.Clamp(v, 0, 255)`: 0 below, 255 above, v in between |
| Numeric.Isqrt | EdgeDetectionLib/Algorithms/SobelProcessor.cs:44 | `(int)Math.Sqrt(n)` is the floor square root: r*r <= n < (r+1)*(r+1) |
| Numeric.IsqrtUnique | EdgeDetectionLib/Algorithms/SobelProcessor.cs:44 | the floor square root is the only natural with that property |
| Numeric.Magnitude | EdgeDetectionLib/Algorithms/SobelProcessor.cs:44-45 | `(byte)Math.Clamp((int)Math.Sqrt(gx*gx + gy*gy), 0, 255)`: below 255 it is the floor root of gx² + gy², and 255 only when gx² + gy² >= 255² |
| Numeric.MagnitudeSaturates | EdgeDetectionLib/Algorithms/SobelProcessor.cs:44-45 | the clamped magnitude is 255 exactly when gx² + gy² >= 255² |
| Numeric.MagnitudeZero | EdgeDetectionLib/Algorithms/SobelProcessor.cs:44-45 | the magnitude is 0 exactly when gx and gy are both 0 |
| Numeric.MagnitudeOfNegated | EdgeDetectionLib/Algorithms/ScharrProcessor.cs:44 | negating both components leaves the magnitude unchanged |
| Convolution.Correlate | EdgeDetectionLib/Algorithms/LoGProcessor.cs:29-37 | the j/i accumulation loops compute the kernel's response at (x, y) |
| Convolution.UniformResponse | EdgeDetectionLib/Algorithms/LoGProcessor.cs:29-37 | on a uniform image the response is the value times the sum of the weights |
| Convolution.InvertedResponse | EdgeDetectionLib/Algorithms/LoGProcessor.cs:29-37 | on the negative image the response is 255 times the weight total minus the original response |
| Convolution.NegatedResponse | EdgeDetectionLib/Algorithms/ScharrProcessor.cs:36-42 | negating every weight negates the response |
| Convolution.StepResponse | EdgeDetectionLib/Algorithms/SobelProcessor.cs:36-42 | on a vertical 0/255 step only the kernel's column totals matter |
| Convolution.Response3x3 | EdgeDetectionLib/Algorithms/SobelProcessor.cs:36-42 | a 3x3 response is the nine taps, row-major, weight [j+1][i+1] at offset (i, j) |
| Convolution.KernelTotal3x3 | EdgeDetectionLib/Algorithms/SobelProcessor.cs:7-19 | the weight total of a 3x3 kernel is the sum of its column totals |
| GradientOperator.Filtered | EdgeDetectionLib/Algorithms/SobelProcessor.cs:24-50 | the output is a valid image with the input's width and height |
| GradientOperator.FilteredAt | EdgeDetectionLib/Algorithms/SobelProcessor.cs:30-45 | output pixel (x, y) is min(isqrt(gx²+gy²), 255) in the interior and 0 on the border |
| GradientOperator.Gradients | EdgeDetectionLib/Algorithms/SobelProcessor.cs:34-42 | the accumulation loops give gx and gy, the two kernels' responses |
| GradientOperator.ApplyConvolution | EdgeDetectionLib/Algorithms/SobelProcessor.cs:24-50 | the y/x loops over a zeroed buffer produce exactly the specified image |
| GradientOperator.BorderIsBlack | EdgeDetectionLib/Algorithms/SobelProcessor.cs:28-32 | rows 0 and h-1 and columns 0 and w-1 of the output are 0 |
| GradientOperator.SmallIsBlack | EdgeDetectionLib/Algorithms/SobelProcessor.cs:30-32 | an image with width or height below 3 gives an all-zero output |
| GradientOperator.UniformIsBlack | EdgeDetectionLib/Algorithms/SobelProcessor.cs:34-45 | zero-sum kernels map a uniform image to all zeros |
| GradientOperator.StepGradients | EdgeDetectionLib/Algorithms/SobelProcessor.cs:36-42 | on a vertical step gx is 255a on columns c-1 and c and 0 elsewhere; gy is 0 |
| GradientOperator.VerticalStepEdge | EdgeDetectionLib/Algorithms/SobelProcessor.cs:34-45 | on a vertical step the output is 255 on interior columns c-1 and c and 0 elsewhere |
| GradientOperator.SaturatedMagnitude | EdgeDetectionLib/Algorithms/SobelProcessor.cs:44-45 | a horizontal gradient of magnitude at least 255 clamps to 255 |
| GradientOperator.NegationInvariant | EdgeDetectionLib/Algorithms/ScharrProcessor.cs:7-19 | negating both kernels changes no output pixel |
| GradientOperator.InvertedIsSame | EdgeDetectionLib/Algorithms/SobelProcessor.cs:34-45 | with zero-sum kernels the negative image has the same edge map |
| GradientOperator.InvertedPixel | EdgeDetectionLib/Algorithms/SobelProcessor.cs:34-45 | each pixel of the edge map of the negative equals the original's |
| Sobel.Apply | EdgeDetectionLib/Algorithms/SobelProcessor.cs:21-22 | Apply is the gradient operator with the SobelX and SobelY kernels |
| Sobel.KernelShape | EdgeDetectionLib/Algorithms/SobelProcessor.cs:7-19 | both kernels are 3 x 3 and sum to 0; SobelY is SobelX transposed; SobelX is 0 in its middle column, opposite in its outer columns, equal in its top and bottom rows |
| Sobel.UniformIsBlack | EdgeDetectionLib/Algorithms/SobelProcessor.cs:7-19 | Sobel maps a constant image to all zeros |
| Sobel.InvertedIsSame | EdgeDetectionLib/Algorithms/SobelProcessor.cs:7-45 | Sobel gives the same output for an image and its negative |
| Sobel.VerticalStepEdge | EdgeDetectionLib/Algorithms/SobelProcessor.cs:34-45 | on a 0/255 vertical step only interior columns c-1 and c are nonzero, and they are 255 (gx = 1020) |
| Prewitt.Apply | EdgeDetectionLib/Algorithms/PrewittProcessor.cs:21-22 | Apply is the gradient operator with the PrewittX and PrewittY kernels |
| Prewitt.KernelShape | EdgeDetectionLib/Algorithms/PrewittProcessor.cs:7-19 | both kernels are 3 x 3 and sum to 0; PrewittY is PrewittX transposed; PrewittX is 0 in its middle column, opposite in its outer columns, equal in its top and bottom rows |
| Prewitt.UniformIsBlack | EdgeDetectionLib/Algorithms/PrewittProcessor.cs:7-19 | Prewitt maps a constant image to all zeros |
| Prewitt.InvertedIsSame | EdgeDetectionLib/Algorithms/PrewittProcessor.cs:7-45 | Prewitt gives the same output for an image and its negative |
| Prewitt.VerticalStepEdge | EdgeDetectionLib/Algorithms/PrewittProcessor.cs:34-45 | on a vertical step only interior columns c-1 and c are nonzero, and they are 255 (gx = 765) |
| Scharr.Apply | EdgeDetectionLib/Algorithms/ScharrProcessor.cs:21-22 | Apply is the gradient operator with the ScharrX and ScharrY kernels |
| Scharr.KernelShape | EdgeDetectionLib/Algorithms/ScharrProcessor.cs:7-19 | both kernels are 3 x 3 and sum to 0; ScharrY is ScharrX transposed; ScharrX is 0 in its middle column, opposite in its outer columns, equal in its top and bottom rows |
| Scharr.UniformIsBlack | EdgeDetectionLib/Algorithms/ScharrProcessor.cs:7-19 | Scharr maps a constant image to all zeros |
| Scharr.InvertedIsSame | EdgeDetectionLib/Algorithms/ScharrProcessor.cs:7-45 | Scharr gives the same output for an image and its negative |
| Scharr.VerticalStepEdge | EdgeDetectionLib/Algorithms/ScharrProcessor.cs:34-45 | on a vertical step only interior columns c-1 and c are nonzero, and they are 255 (gx = -4080) |
| Scharr.SameAsTextbook | EdgeDetectionLib/Algorithms/ScharrProcessor.cs:7-19 | the reversed-sign kernels give the same output as the usual Scharr kernels |
| Kirsch.Grid | EdgeDetectionLib/Algorithms/KirschProcessor.cs:31-34 | flat weight k pairs with offset (k % 3 - 1, k / 3 - 1), row-major |
| Kirsch.Filtered | EdgeDetectionLib/Algorithms/KirschProcessor.cs:19-40 | the output is a valid image of the input's dimensions |
| Kirsch.FilteredAt | EdgeDetectionLib/Algorithms/KirschProcessor.cs:24-37 | output pixel (x, y) is the clamped strongest response in the interior and 0 on the border |
| Kirsch.Correlate | EdgeDetectionLib/Algorithms/KirschProcessor.cs:30-34 | the j/i loops with the running index k++ compute the kernel's response |
| Kirsch.Strongest | EdgeDetectionLib/Algorithms/KirschProcessor.cs:27-36 | the foreach loop computes the running Max of |response|, seeded at 0 |
| Kirsch.MaxResponse | EdgeDetectionLib/Algorithms/KirschProcessor.cs:27-36 | the running `Math.Max` seeded at 0 is non-negative and at least |response| of every kernel seen so far |
| Kirsch.Apply | EdgeDetectionLib/Algorithms/KirschProcessor.cs:19-40 | the y/x loops produce exactly the specified image |
| Kirsch.MaxResponseIsMax | EdgeDetectionLib/Algorithms/KirschProcessor.cs:27-36 | the running max bounds every |response| seen and is 0 or one of them |
| Kirsch.MaxResponseBounds | EdgeDetectionLib/Algorithms/KirschProcessor.cs:35 | the running max over the first n kernels is at least kernel m's, for m < n |
| Kirsch.StrongestDirection | EdgeDetectionLib/Algorithms/KirschProcessor.cs:27-37 | for every kernel k the output is >= min(|response_k|, 255), and one kernel attains it |
| Kirsch.KernelsBalanced | EdgeDetectionLib/Algorithms/KirschProcessor.cs:9-16 | the weights of every compass kernel sum to 0 |
| Kirsch.UniformIsBlack | EdgeDetectionLib/Algorithms/KirschProcessor.cs:9-37 | a constant image gives all zeros |
| Kirsch.UniformMaxResponse | EdgeDetectionLib/Algorithms/KirschProcessor.cs:27-36 | on a constant image the running max stays 0 |
| Kirsch.BorderIsBlack | EdgeDetectionLib/Algorithms/KirschProcessor.cs:22-25 | the one-pixel border of the output is 0 |
| Kirsch.SmallIsBlack | EdgeDetectionLib/Algorithms/KirschProcessor.cs:24-25 | an image with width or height below 3 gives all zeros |
| Kirsch.KernelsRotate | EdgeDetectionLib/Algorithms/KirschProcessor.cs:9-16 | each kernel is the previous one turned by 45 degrees, with centre weight 0 |
| Roberts.Filtered | EdgeDetectionLib/Algorithms/RobertsProcessor.cs:7-23 | the output is a valid image of the input's dimensions |
| Roberts.FilteredAt | EdgeDetectionLib/Algorithms/RobertsProcessor.cs:12-19 | pixel (x, y) is min(isqrt(gx²+gy²), 255) with the two diagonal differences when it opens a 2x2 square, else 0 |
| Roberts.DiagonalX | EdgeDetectionLib/Algorithms/RobertsProcessor.cs:15-16 | `gx` lies within ±255 and is 0 exactly when the pixel equals its lower-right neighbour |
| Roberts.DiagonalY | EdgeDetectionLib/Algorithms/RobertsProcessor.cs:15-17 | `gy` lies within ±255 and is 0 exactly when the right and lower neighbours are equal |
| Roberts.Neighbours | EdgeDetectionLib/Algorithms/RobertsProcessor.cs:15-17 | index+1, index+w and index+w+1 are the square's other three corners, all in bounds |
| Roberts.Apply | EdgeDetectionLib/Algorithms/RobertsProcessor.cs:7-23 | the loops reading flat offsets produce exactly the specified image |
| Roberts.EdgeIsBlack | EdgeDetectionLib/Algorithms/RobertsProcessor.cs:10-13 | the last row and the last column are 0 |
| Roberts.ThinIsBlack | EdgeDetectionLib/Algorithms/RobertsProcessor.cs:12-13 | width 1 or height 1 gives all zeros |
| Roberts.UniformIsBlack | EdgeDetectionLib/Algorithms/RobertsProcessor.cs:16-19 | a constant image gives all zeros |
| Roberts.InvertedIsSame | EdgeDetectionLib/Algorithms/RobertsProcessor.cs:16-19 | an image and its negative give the same output |
| Roberts.InvertedPixel | EdgeDetectionLib/Algorithms/RobertsProcessor.cs:16-19 | each output pixel of the negative equals the original's |
| LaplacianOfGaussian.Filtered | EdgeDetectionLib/Algorithms/LoGProcessor.cs:20-43 | the output is a valid image of the input's dimensions |
| LaplacianOfGaussian.FilteredAt | EdgeDetectionLib/Algorithms/LoGProcessor.cs:25-38 | pixel (x, y) is clamp(sum, 0, 255) of the 5x5 response, with no absolute value, inside the 2-pixel border, and 0 on it |
| LaplacianOfGaussian.Apply | EdgeDetectionLib/Algorithms/LoGProcessor.cs:7-18 | Apply is Convolve with the fixed 5x5 kernel |
| LaplacianOfGaussian.Convolve | EdgeDetectionLib/Algorithms/LoGProcessor.cs:20-43 | the loops from 2 to size-3 produce exactly the specified image |
| LaplacianOfGaussian.KernelBalanced | EdgeDetectionLib/Algorithms/LoGProcessor.cs:9-15 | the 5x5 kernel's weights sum to 0, and it is symmetric under transposition and under a top-to-bottom flip |
| LaplacianOfGaussian.UniformIsBlack | EdgeDetectionLib/Algorithms/LoGProcessor.cs:9-38 | a constant image gives all zeros |
| LaplacianOfGaussian.BorderIsBlack | EdgeDetectionLib/Algorithms/LoGProcessor.cs:23-27 | the 2-pixel border is 0 |
| LaplacianOfGaussian.SmallIsBlack | EdgeDetectionLib/Algorithms/LoGProcessor.cs:25-27 | width or height below 5 gives all zeros |
| LaplacianOfGaussian.LitIffPositive | EdgeDetectionLib/Algorithms/LoGProcessor.cs:38 | an interior pixel is nonzero exactly when the response is positive |
| LaplacianOfGaussian.OneSided | EdgeDetectionLib/Algorithms/LoGProcessor.cs:31-38 | at most one of an image and its negative lights a pixel; together they give the clamped absolute response |
| EdgeFlow.GradX | EdgeDetectionLib/Algorithms/EdgeFlowProcessor.cs:22-29 | `gradientX[x, y]`: 0 on the border and always within ±1020 (4 * 255) |
| EdgeFlow.GradY | EdgeDetectionLib/Algorithms/EdgeFlowProcessor.cs:31-38 | `gradientY[x, y]`: 0 on the border and always within ±1020 (4 * 255) |
| EdgeFlow.SixTapsAreSobel | EdgeDetectionLib/Algorithms/EdgeFlowProcessor.cs:19-38 | the written-out six-tap gx and gy are the Sobel responses |
| EdgeFlow.Step | EdgeDetectionLib/Algorithms/EdgeFlowProcessor.cs:55-56 | the offset is always 1 or -1, and 1 exactly when the component is positive (0 steps backwards) |
| EdgeFlow.SquaredStrength | EdgeDetectionLib/Algorithms/EdgeFlowProcessor.cs:76-82 | the squared gradient magnitude is non-negative, and 0 outside the image |
| EdgeFlow.Filtered | EdgeDetectionLib/Algorithms/EdgeFlowProcessor.cs:8-74 | the output is a valid image of the input's dimensions |
| EdgeFlow.FilteredAt | EdgeDetectionLib/Algorithms/EdgeFlowProcessor.cs:46-69 | output pixel (x, y) is the clamped magnitude if interior and kept by suppression, else 0 |
| EdgeFlow.GradientMagnitude | EdgeDetectionLib/Algorithms/EdgeFlowProcessor.cs:76-82 | `gradientMagnitude` (squared) is non-negative and 0 for out-of-range coordinates |
| EdgeFlow.ComputeGradients | EdgeDetectionLib/Algorithms/EdgeFlowProcessor.cs:15-43 | the first loop nest fills gradientX/gradientY on the interior and leaves the border 0 |
| EdgeFlow.SuppressAt | EdgeDetectionLib/Algorithms/EdgeFlowProcessor.cs:50-69 | offset gx > 0 ? 1 : -1; keep the magnitude only if >= both neighbours along the offset, else 0 |
| EdgeFlow.Suppress | EdgeDetectionLib/Algorithms/EdgeFlowProcessor.cs:46-70 | the second loop nest produces exactly the specified image |
| EdgeFlow.SuppressionRule | EdgeDetectionLib/Algorithms/EdgeFlowProcessor.cs:62-69 | the comparison of squared magnitudes decides the output the same way as the source's comparison of roots |
| EdgeFlow.StrengthFromArrays | EdgeDetectionLib/Algorithms/EdgeFlowProcessor.cs:76-82 | `gradientMagnitude` on the finished arrays is the image's squared gradient strength |
| EdgeFlow.Apply | EdgeDetectionLib/Algorithms/EdgeFlowProcessor.cs:8-74 | both loop nests together produce exactly the specified image |
| EdgeFlow.ThinnedSobel | EdgeDetectionLib/Algorithms/EdgeFlowProcessor.cs:46-69 | each output pixel is 0 or the Sobel output there, and never more than it |
| EdgeFlow.NeighboursInside | EdgeDetectionLib/Algorithms/EdgeFlowProcessor.cs:55-59 | from an interior pixel both neighbours lie inside the image |
| EdgeFlow.BorderIsBlack | EdgeDetectionLib/Algorithms/EdgeFlowProcessor.cs:12 | border output pixels are 0 |
| EdgeFlow.UniformIsBlack | EdgeDetectionLib/Algorithms/EdgeFlowProcessor.cs:19-69 | a constant image gives all zeros |
| EdgeFlow.UniformPixel | EdgeDetectionLib/Algorithms/EdgeFlowProcessor.cs:19-69 | on a constant image every output pixel is 0 |
| EdgeFlow.UniformAt | EdgeDetectionLib/Algorithms/EdgeFlowProcessor.cs:19-35 | every pixel of a uniform image has the common value |
| EdgeFlow.LocalMaximumKept | EdgeDetectionLib/Algorithms/EdgeFlowProcessor.cs:62-64 | a pixel stronger than both neighbours keeps its clamped magnitude |
| Lindeberg.Laplacian | EdgeDetectionLib/Algorithms/LindebergScaleSpaceProcessor.cs:37-66 | the Laplacian output is a valid image of the input's dimensions |
| Lindeberg.LaplacianAt | EdgeDetectionLib/Algorithms/LindebergScaleSpaceProcessor.cs:48-61 | interior pixel is min(abs(sum), 255) with kernel [[0,1,0],[1,-4,1],[0,1,0]], border 0 |
| Lindeberg.ApplyLaplacian | EdgeDetectionLib/Algorithms/LindebergScaleSpaceProcessor.cs:37-66 | the loops produce exactly the specified Laplacian |
| Lindeberg.LaplacianBalanced | EdgeDetectionLib/Algorithms/LindebergScaleSpaceProcessor.cs:42-46 | the Laplacian kernel's weights sum to 0, and it is symmetric under transposition and under a top-to-bottom flip |
| Lindeberg.LaplacianBorderIsBlack | EdgeDetectionLib/Algorithms/LindebergScaleSpaceProcessor.cs:48-50 | the Laplacian's border is 0 |
| Lindeberg.LaplacianUniformIsBlack | EdgeDetectionLib/Algorithms/LindebergScaleSpaceProcessor.cs:42-61 | the Laplacian of a constant image is all zeros |
| Lindeberg.LaplacianInvertedIsSame | EdgeDetectionLib/Algorithms/LindebergScaleSpaceProcessor.cs:57-61 | the absolute value makes the Laplacian of the negative the same |
| Lindeberg.LaplacianStepEdge | EdgeDetectionLib/Algorithms/LindebergScaleSpaceProcessor.cs:48-61 | on a vertical step the Laplacian is 255 on interior columns c-1 and c, 0 elsewhere |
| Lindeberg.SigmaPositive | EdgeDetectionLib/Algorithms/LindebergScaleSpaceProcessor.cs:19-31 | `sigma *= scaleStep` keeps a positive sigma positive |
| Lindeberg.SigmaGrows | EdgeDetectionLib/Algorithms/LindebergScaleSpaceProcessor.cs:19-31 | with a step of at least 1 the sigmas never decrease |
| Lindeberg.Sigma | EdgeDetectionLib/Algorithms/LindebergScaleSpaceProcessor.cs:19-31 | the sigma of scale s (initialSigma, then `sigma *= scaleStep`) is positive whenever the start and the step are |
| Lindeberg.ScaleResponse | EdgeDetectionLib/Algorithms/LindebergScaleSpaceProcessor.cs:23-24 | the Laplacian of the blur at scale s is a valid image of the input's dimensions |
| Lindeberg.Filtered | EdgeDetectionLib/Algorithms/LindebergScaleSpaceProcessor.cs:13-35 | the output is a valid image of the input's dimensions |
| Lindeberg.Apply | EdgeDetectionLib/Algorithms/LindebergScaleSpaceProcessor.cs:13-35 | the scale loop produces exactly the pixelwise running max over the scales |
| Lindeberg.KeepStronger | EdgeDetectionLib/Algorithms/LindebergScaleSpaceProcessor.cs:26-29 | each entry becomes max(old entry, laplacian entry); the buffer never decreases |
| Lindeberg.ApplyDefault | EdgeDetectionLib/Algorithms/LindebergScaleSpaceProcessor.cs:8-11 | the default overload uses sigma 1.0, 5 scales, step 1.5 |
| Lindeberg.StrongestIsMax | EdgeDetectionLib/Algorithms/LindebergScaleSpaceProcessor.cs:21-32 | after n scales each entry is >= every scale's Laplacian and is 0 or one of them |
| Lindeberg.StrongestBounds | EdgeDetectionLib/Algorithms/LindebergScaleSpaceProcessor.cs:26-29 | after n scales each entry is >= scale s's Laplacian, for s < n |
| Lindeberg.StrongestScale | EdgeDetectionLib/Algorithms/LindebergScaleSpaceProcessor.cs:21-32 | each output pixel is the max over the scales' Laplacians, seeded at 0 |
| Lindeberg.StrongestMonotone | EdgeDetectionLib/Algorithms/LindebergScaleSpaceProcessor.cs:26-29 | more scales never decrease an entry |
| Lindeberg.MoreScalesBrighter | EdgeDetectionLib/Algorithms/LindebergScaleSpaceProcessor.cs:21-32 | the output with more scales is pointwise >= the output with fewer |
| Lindeberg.NoScalesIsBlack | EdgeDetectionLib/Algorithms/LindebergScaleSpaceProcessor.cs:17-21 | scales <= 0 gives an all-zero image |
| Lindeberg.OneScale | EdgeDetectionLib/Algorithms/LindebergScaleSpaceProcessor.cs:21-29 | one scale gives the Laplacian of the blur at initialSigma |
| Lindeberg.BorderIsBlack | EdgeDetectionLib/Algorithms/LindebergScaleSpaceProcessor.cs:26-29 | the output's border is 0 at every scale count |
| DifferenceOfGaussians.Difference | EdgeDetectionLib/Algorithms/DoGProcessor.cs:32-40 | the output is valid with the given width and height |
| DifferenceOfGaussians.Filtered | EdgeDetectionLib/Algorithms/DoGProcessor.cs:27-41 | the output has width*height pixels and the input's dimensions |
| DifferenceOfGaussians.Apply | EdgeDetectionLib/Algorithms/DoGProcessor.cs:27-41 | the loop gives clamp(b1[i] - b2[i] + 128, 0, 255) at every i |
| DifferenceOfGaussians.ApplyDefault | EdgeDetectionLib/Algorithms/DoGProcessor.cs:15-18 | the default overload uses sigma1 = 1.0 and sigma2 = 2.0 |
| DifferenceOfGaussians.Sign | EdgeDetectionLib/Algorithms/DoGProcessor.cs:36-37 | a pixel is 128 exactly when the blurs agree there and above 128 exactly when the first is brighter |
| DifferenceOfGaussians.EqualBlursAreGrey | EdgeDetectionLib/Algorithms/DoGProcessor.cs:36-37 | pixelwise equal blurs give an all-128 image |
| DifferenceOfGaussians.SwappedMirrors | EdgeDetectionLib/Algorithms/DoGProcessor.cs:36-37 | swapping the sigmas mirrors an unclamped pixel about 128 |
| EdgeCombination.Average | PhotoToSketchApp/EdgeCombinationProcessor.cs:37-45 | the output takes img1's dimensions and is valid |
| EdgeCombination.CombineEdges | PhotoToSketchApp/EdgeCombinationProcessor.cs:37-45 | the loop writes (a[i] + b[i]) / 2 at every index |
| EdgeCombination.Between | PhotoToSketchApp/EdgeCombinationProcessor.cs:42 | each output is the floor of the mean and lies between the two inputs, so the clamp never changes it |
| EdgeCombination.SelfIsIdentity | PhotoToSketchApp/EdgeCombinationProcessor.cs:42 | combining an image with itself returns it |
| EdgeCombination.Commutative | PhotoToSketchApp/EdgeCombinationProcessor.cs:42 | for equal dimensions the order of the two inputs does not matter |
| EdgeCombination.WithBlackHalves | PhotoToSketchApp/EdgeCombinationProcessor.cs:42 | combining with an all-zero map halves every pixel, rounding down |
| EdgeCombination.CombineTwo | PhotoToSketchApp/EdgeCombinationProcessor.cs:7-14 | both filters run on the same image; the output has the first map's dimensions |
| EdgeCombination.CombineThree | PhotoToSketchApp/EdgeCombinationProcessor.cs:16-24 | the third filter also runs on the original image, and its map is averaged into CombineTwo |
| EdgeCombination.CombineFour | PhotoToSketchApp/EdgeCombinationProcessor.cs:26-35 | one more step of the same left fold with the fourth filter |
| EdgeCombination.CombineThreeSwapsFirstTwo | PhotoToSketchApp/EdgeCombinationProcessor.cs:21-23 | the first two filters of CombineThree can be swapped |
| ImageSketch.Finalized | PhotoToSketchApp/ImageSketchProcessor.cs:107-112 | the sketch is a valid image with the edge map's dimensions |
| ImageSketch.FinalizeSketch | PhotoToSketchApp/ImageSketchProcessor.cs:107-112 | FinalizeSketch is invert(blur(edges, 1.0)) |
| ImageSketch.FinalizeUndone | PhotoToSketchApp/ImageSketchProcessor.cs:107-112 | inverting the sketch gives back the blur; sketch pixel plus blurred pixel is 255 |
| ImageSketch.Single | PhotoToSketchApp/ImageSketchProcessor.cs:85-90 | ProcessSingle's result has the filter output's dimensions |
| ImageSketch.ProcessSingle | PhotoToSketchApp/ImageSketchProcessor.cs:85-90 | ProcessSingle is finalize(processor(gray)) |
| ImageSketch.FoldEdges | PhotoToSketchApp/ImageSketchProcessor.cs:96-102 | the left fold of the first n maps has the first map's dimensions |
| ImageSketch.Combined | PhotoToSketchApp/ImageSketchProcessor.cs:92-105 | an empty filter list fails at processors[0]; otherwise the result has the first map's dimensions |
| ImageSketch.CombinedProcess | PhotoToSketchApp/ImageSketchProcessor.cs:92-105 | the loop computes combined = CombineEdges(combined, p_i(g)) in order, then finalises |
| ImageSketch.OneFilterIsSingle | PhotoToSketchApp/ImageSketchProcessor.cs:96-104 | with one filter, CombinedProcess is ProcessSingle |
| ImageSketch.FoldTwo | PhotoToSketchApp/ImageSketchProcessor.cs:96-102 | the fold of two filters is CombineTwo |
| ImageSketch.FoldThree | PhotoToSketchApp/ImageSketchProcessor.cs:96-102 | the fold of three filters is CombineThree |
| ImageSketch.FoldFour | PhotoToSketchApp/ImageSketchProcessor.cs:96-102 | the fold of four filters is CombineFour |
| ImageSketch.FoldWithinRange | PhotoToSketchApp/ImageSketchProcessor.cs:96-102 | if every map is <= m (>= m) at a pixel, so is the combined map |
| ImageSketch.FoldOfEqualMaps | PhotoToSketchApp/ImageSketchProcessor.cs:96-102 | filters that agree on the image combine to their common map |
| ImageSketch.ProcessImage | PhotoToSketchApp/ImageSketchProcessor.cs:13-20 | ProcessImage delegates to the automatic-region pipeline |
| Tiling.StepsBelow | PhotoToSketchApp/AutomaticRegionProcessor.cs:37-39 | the loop `v += 32` is at step t exactly when t is below the block count |
| Tiling.Min | PhotoToSketchApp/AutomaticRegionProcessor.cs:41 | `Math.Min`: no larger than either argument and equal to one of them |
| Tiling.Cols | PhotoToSketchApp/AutomaticRegionProcessor.cs:39 | the number of x values `x += 32` visits: the fewest 32-wide columns that cover the width |
| Tiling.Rows | PhotoToSketchApp/AutomaticRegionProcessor.cs:37 | the number of y values `y += 32` visits: the fewest 32-high rows that cover the height |
| Tiling.BlockCount | PhotoToSketchApp/AutomaticRegionProcessor.cs:37-41 | the number of blocks is 0 exactly when the image has a zero side |
| Tiling.Block | PhotoToSketchApp/AutomaticRegionProcessor.cs:41 | each block rectangle lies inside the image |
| Tiling.BlockAt | PhotoToSketchApp/AutomaticRegionProcessor.cs:37-41 | the block visited at x = 32j, y = 32t is (32j, 32t, min(32, W-32j), min(32, H-32t)) |
| Tiling.BlockOf | PhotoToSketchApp/AutomaticRegionProcessor.cs:37-41 | every pixel's block index is a valid block |
| Tiling.BlockInside | PhotoToSketchApp/AutomaticRegionProcessor.cs:41 | every block is non-empty and at most 32 x 32 |
| Tiling.BlockCovers | PhotoToSketchApp/AutomaticRegionProcessor.cs:37-41 | a pixel lies in block i exactly when i is its block |
| Tiling.BlocksDisjoint | PhotoToSketchApp/AutomaticRegionProcessor.cs:37-41 | two different blocks share no pixel |
| Tiling.BlocksCover | PhotoToSketchApp/AutomaticRegionProcessor.cs:37-41 | every pixel lies in some block |
| Tiling.RowMajor | PhotoToSketchApp/AutomaticRegionProcessor.cs:37-39 | blocks are emitted row-major: y outer, x inner |
| RegionStatistics.Divide | PhotoToSketchApp/AutomaticRegionProcessor.cs:111 | division by a zero count gives NaN and by any other count a number |
| RegionStatistics.AddBrightnessRow | PhotoToSketchApp/AutomaticRegionProcessor.cs:84-90 | the inner loop adds one row's sum, sum of squares and count |
| RegionStatistics.SumBrightness | PhotoToSketchApp/AutomaticRegionProcessor.cs:82-91 | the loops give the region's sum, sum of squares and pixel count |
| RegionStatistics.Variance | PhotoToSketchApp/AutomaticRegionProcessor.cs:77-95 | the variance is NaN exactly when the region is empty |
| RegionStatistics.EdgeDensity | PhotoToSketchApp/AutomaticRegionProcessor.cs:97-112 | the edge density is NaN exactly when the region is empty |
| RegionStatistics.CalculateVariance | PhotoToSketchApp/AutomaticRegionProcessor.cs:77-95 | the result is sumSquares/count - mean² |
| RegionStatistics.CalculateEdgeDensity | PhotoToSketchApp/AutomaticRegionProcessor.cs:97-112 | the result is #(pixel > 128) / count |
| RegionStatistics.GradientSample | PhotoToSketchApp/AutomaticRegionProcessor.cs:123-125 | each gradient sample `Math.Sqrt(gx * gx + gy * gy)` is non-negative |
| RegionStatistics.AverageGradient | PhotoToSketchApp/AutomaticRegionProcessor.cs:114-133 | the average gradient is NaN exactly when the region is at most 2 wide or high |
| RegionStatistics.Sample | PhotoToSketchApp/AutomaticRegionProcessor.cs:123-125 | reads the four neighbours at their flat offsets and takes sqrt(gx² + gy²) |
| RegionStatistics.AddGradientRow | PhotoToSketchApp/AutomaticRegionProcessor.cs:121-129 | the inner loop adds one inset row's samples and count |
| RegionStatistics.CalculateAverageGradient | PhotoToSketchApp/AutomaticRegionProcessor.cs:114-133 | the loops over the 1-pixel-inset window give total / count |
| RegionStatistics.Classify | PhotoToSketchApp/AutomaticRegionProcessor.cs:49-67 | first match: blur, else Sobel+DoG, else EdgeFlow+phase congruency, else phase congruency; each choice characterised exactly |
| RegionStatistics.ChoiceFor | PhotoToSketchApp/AutomaticRegionProcessor.cs:42-67 | smooth background and high detail are chosen only for blocks at least 3 x 3 |
| RegionStatistics.UniformTally | PhotoToSketchApp/AutomaticRegionProcessor.cs:82-91 | on a uniform region each accumulator is the area times the per-pixel amount |
| RegionStatistics.ConstantVariance | PhotoToSketchApp/AutomaticRegionProcessor.cs:93-94 | n equal values have variance 0 |
| RegionStatistics.UniformVariance | PhotoToSketchApp/AutomaticRegionProcessor.cs:77-95 | the variance of a uniform non-empty region is 0 |
| RegionStatistics.UniformDensity | PhotoToSketchApp/AutomaticRegionProcessor.cs:97-112 | a uniform region has density 1 if brighter than 128, else 0 (128 itself is not counted) |
| RegionStatistics.BrightBounds | PhotoToSketchApp/AutomaticRegionProcessor.cs:101-109 | the count of bright pixels is between 0 and the pixel count |
| RegionStatistics.ShareBounds | PhotoToSketchApp/AutomaticRegionProcessor.cs:111 | a count out of a larger positive total is a share in [0, 1] |
| RegionStatistics.DensityIsShare | PhotoToSketchApp/AutomaticRegionProcessor.cs:97-112 | the edge density of a non-empty region lies in [0, 1] |
| RegionStatistics.FlatSample | PhotoToSketchApp/AutomaticRegionProcessor.cs:123-125 | equal opposite neighbours give a gradient sample of 0 |
| RegionStatistics.UniformGradient | PhotoToSketchApp/AutomaticRegionProcessor.cs:114-133 | a uniform region at least 3 x 3 has average gradient 0 |
| RegionStatistics.GradientDefinedIffInsetNonEmpty | PhotoToSketchApp/AutomaticRegionProcessor.cs:114-133 | the average gradient is NaN exactly when width or height is <= 2, otherwise non-negative |
| RegionStatistics.ThinRegionChoice | PhotoToSketchApp/AutomaticRegionProcessor.cs:49-67 | a block at most 2 wide or high (gradient NaN) skips the first two rules: EdgeFlow + phase congruency if density > 0.1, else phase congruency |
| RegionStatistics.UniformDarkIsBlurred | PhotoToSketchApp/AutomaticRegionProcessor.cs:49-52 | a flat region no brighter than 128, at least 3 x 3, takes the blur-only branch |
| RegionStatistics.UniformBrightIsEdgeFlow | PhotoToSketchApp/AutomaticRegionProcessor.cs:59-62 | a flat region brighter than 128 takes the EdgeFlow + phase congruency branch |
| RegionStatistics.ChoiceIsLocal | PhotoToSketchApp/AutomaticRegionProcessor.cs:42-67 | the choice depends only on the pixels inside the region |
| AutomaticRegion.ApplyChoice | PhotoToSketchApp/AutomaticRegionProcessor.cs:49-67 | each of the four filter choices returns a valid image of the block's dimensions |
| AutomaticRegion.RunProcessor | PhotoToSketchApp/AutomaticRegionProcessor.cs:51-66 | running the chosen lambda with the filters' own methods gives the specified map |
| AutomaticRegion.Rules | PhotoToSketchApp/AutomaticRegionProcessor.cs:33-75 | there is one rule per block |
| AutomaticRegion.RuleIndex | PhotoToSketchApp/AutomaticRegionProcessor.cs:37-41 | the rule at x = 32j, y = 32t is the rule of block t*cols + j with that rectangle |
| AutomaticRegion.RuleAt | PhotoToSketchApp/AutomaticRegionProcessor.cs:41-70 | one loop body builds the clipped rectangle and classifies it by its statistics |
| AutomaticRegion.PrefixGrows | PhotoToSketchApp/AutomaticRegionProcessor.cs:70 | appending the next rule extends the emitted prefix by one |
| AutomaticRegion.GenerateProcessingRules | PhotoToSketchApp/AutomaticRegionProcessor.cs:33-75 | the block loops emit exactly the rules, one per block, in row-major order |
| AutomaticRegion.RulesTile | PhotoToSketchApp/AutomaticRegionProcessor.cs:37-41 | every rule's region is inside the image, and each pixel is in exactly one rule's region |
| AutomaticRegion.UniformInBlock | PhotoToSketchApp/AutomaticRegionProcessor.cs:41 | a uniform image is uniform on every block |
| AutomaticRegion.FlatDarkImageIsBlurred | PhotoToSketchApp/AutomaticRegionProcessor.cs:49-52 | on a flat image no brighter than 128, every block at least 3 x 3 gets the blur |
| AutomaticRegion.FlatDarkBlockEdges | PhotoToSketchApp/AutomaticRegionProcessor.cs:22-23 | such a block's edge map is the blur of the block cut out on its own |
| AutomaticRegion.FlatBrightImageFlows | PhotoToSketchApp/AutomaticRegionProcessor.cs:59-62 | on a flat image brighter than 128 every block gets EdgeFlow + phase congruency |
| AutomaticRegion.Extract | PhotoToSketchApp/AutomaticRegionProcessor.cs:135-146 | the cut-out is a valid image with the region's width and height |
| AutomaticRegion.ExtractAt | PhotoToSketchApp/AutomaticRegionProcessor.cs:142 | sub[y*rw + x] = img[(y+ry)*W + (x+rx)] |
| AutomaticRegion.ExtractWhole | PhotoToSketchApp/AutomaticRegionProcessor.cs:135-146 | cutting out the whole image gives the image back |
| AutomaticRegion.ExtractIsLocal | PhotoToSketchApp/AutomaticRegionProcessor.cs:135-146 | the cut-out depends only on pixels inside the region |
| AutomaticRegion.ExtractRegion | PhotoToSketchApp/AutomaticRegionProcessor.cs:135-146 | the loops produce exactly the cut-out |
| AutomaticRegion.Local | PhotoToSketchApp/AutomaticRegionProcessor.cs:154-155 | a full-image index inside the region maps to an index inside the region's buffer |
| AutomaticRegion.LocalAt | PhotoToSketchApp/AutomaticRegionProcessor.cs:154-155 | full pixel (x, y) in the region is region pixel (x - rx, y - ry) |
| AutomaticRegion.Paste | PhotoToSketchApp/AutomaticRegionProcessor.cs:148-158 | pasting keeps the buffer's length |
| AutomaticRegion.PasteExtract | PhotoToSketchApp/AutomaticRegionProcessor.cs:135-158 | pasting at a region what was cut out of it changes nothing |
| AutomaticRegion.ExtractPaste | PhotoToSketchApp/AutomaticRegionProcessor.cs:135-158 | cutting out a region after pasting a map there gives the map back |
| AutomaticRegion.PasteStep | PhotoToSketchApp/AutomaticRegionProcessor.cs:154-155 | one write advances the pasted prefix by one pixel |
| AutomaticRegion.PasteEnd | PhotoToSketchApp/AutomaticRegionProcessor.cs:150-157 | when the loops finish the buffer is the pasted buffer |
| AutomaticRegion.ApplyRegion | PhotoToSketchApp/AutomaticRegionProcessor.cs:148-158 | writes exactly the region's full-image indices from the map and leaves every other entry unchanged |
| AutomaticRegion.BlockEdges | PhotoToSketchApp/AutomaticRegionProcessor.cs:22-23 | a block's processed map has the block's dimensions |
| AutomaticRegion.BlockOfIndex | PhotoToSketchApp/AutomaticRegionProcessor.cs:37-41 | every buffer index lies in its block |
| AutomaticRegion.Assembled | PhotoToSketchApp/AutomaticRegionProcessor.cs:18-27 | the assembled map has the image's dimensions |
| AutomaticRegion.Processed | PhotoToSketchApp/AutomaticRegionProcessor.cs:13-30 | the pipeline output has the image's dimensions |
| AutomaticRegion.AssembleStep | PhotoToSketchApp/AutomaticRegionProcessor.cs:20-25 | applying rule i pastes exactly block i and nothing else |
| AutomaticRegion.Process | PhotoToSketchApp/AutomaticRegionProcessor.cs:13-30 | rules in list order, each block extracted, processed and pasted, then blurred and inverted |
| AutomaticRegion.AssembledAt | PhotoToSketchApp/AutomaticRegionProcessor.cs:18-25 | each assembled pixel is its own block's processed pixel at the same place in the block |
| AutomaticRegion.BlocksAreIndependent | PhotoToSketchApp/AutomaticRegionProcessor.cs:20-25 | a block's output depends only on that block's input pixels |
| AutomaticRegion.ProcessedIsNegative | PhotoToSketchApp/AutomaticRegionProcessor.cs:28-29 | the output is the negative of the blurred assembled map |

## Left out

- Gaussian blur, Gabor and phase congruency run on doubles with `Math.Exp`, `Cos` and `Atan2`. They are parameters whose only property is that they keep the image valid and its dimensions; nothing is claimed about their values (not even that a flat image blurs to itself).
- The `Math.Sqrt` in the average-gradient statistic is a parameter that is non-negative and 0 at 0; nothing is claimed about its rounding.
- The variance and the densities are computed as exact rationals, not doubles; double rounding in `sumSquares / count - mean * mean` and the double accumulation of the gradient total (`totalGradient += magnitude`) are not modelled. Division by a zero count gives `NaN`, and every comparison with `NaN` is false.
- Gabor filtering is not part of this model except through the filter lists passed to `CombinedProcess`, where any `GrayscaleImage -> GrayscaleImage` function can be used.
- The Bitmap entry points (`ProcessWith*`, the Bitmap-level `Process`), the conversion to and from `Bitmap` (`ImageConversionHelper.cs`), the WinForms UI (`MainForm.cs`, `MainForm.Designer.cs`) and image files are not part of this model; the model starts and ends at a `GrayscaleImage`.
- RegionProcessingRule's `Func` is represented by the tag of the branch that created it (`RegionRule.Choice`), and `AutomaticRegion.ApplyChoice` gives the lambda's meaning. Dafny functions have no equality, so a rule list of closures could not be compared.
- ImageSketchProcessor and AutomaticRegionProcessor each carry a private copy of `CombineEdges` and `InvertImage`; both copies are modelled by the one `EdgeCombination.CombineEdges` and `Invert.InvertImage`, since their code is the same.
- The buffer is stored by reference and not copied in the source. The model's pixels are an immutable sequence, so aliasing between a `GrayscaleImage` and the array it was built from is not modelled (no modelled code writes to a buffer after wrapping it).
- The filters require `Valid()` (buffer length width * height, non-negative sides) of their input, and so the model leaves out what the source does on an image that breaks it. A short buffer throws an index exception only when the filter has an interior to read (width and height at least 3 for the 3 x 3 filters, 5 for LoG, 2 for Roberts); otherwise nothing is read and nothing is thrown. One negative side makes `new byte[width * height]` throw an OverflowException. With both sides negative the product is positive and every loop bound is already false, so Sobel, Prewitt, Scharr, Kirsch, Roberts, LoG and the Lindeberg Laplacian return an all-zero image of those dimensions; EdgeFlow alone throws an OverflowException at `new double[width, height]`. Every caller in the pipeline builds its image from a bitmap with a width * height buffer.
- The abstract blur is assumed to return a valid image of the input's dimensions for every sigma. The source sizes its kernel from sigma and throws for a sigma below about -1/3 (a negative array size); that exception is not modelled, and every fixed sigma the pipeline passes is positive.
- The Lindeberg sigma sequence (`sigma *= scaleStep`) is real multiplication, not double multiplication; it only selects the abstract blur.
- Lindeberg: nothing is claimed about the scale-space output of a negative image. Only the Laplacian step is unchanged by inversion (`LaplacianInvertedIsSame`); the Gaussian blur before it truncates to bytes, and a truncating blur need not commute with inversion (two neighbours 127 and 128 average to 127, while their negatives 128 and 127 also average to 127, not 255 - 127 = 128).
- There is no concurrency in the code and none in the model.
