/** EdgeCombinationProcessor: two edge maps are merged by averaging them pixel by
    pixel with integer division; CombineTwo, CombineThree and CombineFour run
    every filter on the same original image and fold the averages from the left. */
module EdgeCombination {
  import opened Numeric
  import opened Image

  /** A filter as `Func<GrayscaleImage, GrayscaleImage>`. */
  type Processor = GrayscaleImage -> GrayscaleImage

  /** What `CombineEdges(img1, img2)` reads without failing: img1's dimensions
      give the output buffer, and both input buffers must be at least that long
      (there is no check that img2 has img1's dimensions). */
  predicate Fits(img1: GrayscaleImage, img2: GrayscaleImage) {
    && 0 <= img1.width && 0 <= img1.height
    && |img1.pixels| >= img1.width * img1.height
    && |img2.pixels| >= img1.width * img1.height
  }

  /** `CombineEdges(img1, img2)` as a value. */
  function Average(img1: GrayscaleImage, img2: GrayscaleImage): (r: GrayscaleImage)
    requires Fits(img1, img2)
    ensures r.Valid() && r.width == img1.width && r.height == img1.height
  {
    var n := img1.width * img1.height;
    GrayscaleImage(img1.width, img1.height, seq(n, i requires 0 <= i < n =>
      ClampByte((img1.pixels[i] as int + img2.pixels[i] as int) / 2)))
  }

  /** `CombineEdges`: a fresh buffer of img1.Width * img1.Height entries, each the
      clamped integer mean of the two inputs. */
  method CombineEdges(img1: GrayscaleImage, img2: GrayscaleImage) returns (r: GrayscaleImage)
    requires Fits(img1, img2)
    ensures r == Average(img1, img2)
  {
    var combinedPixels := new byte[img1.width * img1.height](_ => 0);
    var i := 0;
    while i < combinedPixels.Length
      invariant 0 <= i <= combinedPixels.Length
      invariant forall k :: 0 <= k < i ==> combinedPixels[k] == Average(img1, img2).pixels[k]
    {
      combinedPixels[i] := ClampByte((img1.pixels[i] as int + img2.pixels[i] as int) / 2);
      i := i + 1;
    }
    r := GrayscaleImage(img1.width, img1.height, combinedPixels[..]);
  }

  /** Each output pixel is the floor of the mean and lies between the two inputs,
      so the clamp never changes it. */
  lemma Between(img1: GrayscaleImage, img2: GrayscaleImage, i: int)
    requires Fits(img1, img2) && 0 <= i < img1.width * img1.height
    ensures var a, b, c := img1.pixels[i] as int, img2.pixels[i] as int, Average(img1, img2).pixels[i] as int;
      && 2 * c <= a + b < 2 * c + 2
      && (a <= c <= b || b <= c <= a)
  {
  }

  /** Combining an edge map with itself returns it unchanged. */
  lemma SelfIsIdentity(img: GrayscaleImage)
    requires img.Valid()
    ensures Average(img, img) == img
  {
    var r := Average(img, img);
    forall i | 0 <= i < |img.pixels|
      ensures r.pixels[i] == img.pixels[i]
    {
      Between(img, img, i);
    }
  }

  /** For images of the same dimensions the order of the two maps does not matter. */
  lemma Commutative(img1: GrayscaleImage, img2: GrayscaleImage)
    requires img1.Valid() && img2.Valid() && SameShape(img1, img2)
    ensures Average(img1, img2) == Average(img2, img1)
  {
    var a, b := Average(img1, img2), Average(img2, img1);
    forall i | 0 <= i < |a.pixels|
      ensures a.pixels[i] == b.pixels[i]
    {
      assert img1.pixels[i] as int + img2.pixels[i] as int == img2.pixels[i] as int + img1.pixels[i] as int;
    }
  }

  /** Combining with a black map halves every edge, rounding down. */
  lemma WithBlackHalves(img1: GrayscaleImage, img2: GrayscaleImage, i: int)
    requires Fits(img1, img2) && 0 <= i < img1.width * img1.height && Black(img2.pixels)
    ensures Average(img1, img2).pixels[i] == img1.pixels[i] / 2
  {
  }

  /** `CombineTwo(image, first, second)`: both filters see the original image. */
  function CombineTwo(image: GrayscaleImage, first: Processor, second: Processor): (r: GrayscaleImage)
    requires Fits(first(image), second(image))
    ensures r.Valid() && r.width == first(image).width && r.height == first(image).height
  {
    Average(first(image), second(image))
  }

  /** `CombineThree`: the third filter also sees the original image, and its map is
      averaged into the first two. */
  function CombineThree(image: GrayscaleImage, first: Processor, second: Processor, third: Processor): (r: GrayscaleImage)
    requires Fits(first(image), second(image)) && Fits(first(image), third(image))
    ensures r.Valid() && r.width == first(image).width && r.height == first(image).height
  {
    Average(CombineTwo(image, first, second), third(image))
  }

  /** `CombineFour`: one more step of the same left fold. */
  function CombineFour(image: GrayscaleImage, first: Processor, second: Processor, third: Processor, fourth: Processor): (r: GrayscaleImage)
    requires Fits(first(image), second(image)) && Fits(first(image), third(image)) && Fits(first(image), fourth(image))
    ensures r.Valid() && r.width == first(image).width && r.height == first(image).height
  {
    Average(CombineThree(image, first, second, third), fourth(image))
  }

  /** The first two filters of a three-way combination are averaged together
      first, so for maps of equal dimensions they can be swapped. */
  lemma CombineThreeSwapsFirstTwo(image: GrayscaleImage, first: Processor, second: Processor, third: Processor)
    requires first(image).Valid() && second(image).Valid() && SameShape(first(image), second(image))
    requires Fits(first(image), third(image)) && Fits(second(image), third(image))
    ensures CombineThree(image, first, second, third) == CombineThree(image, second, first, third)
  {
    Commutative(first(image), second(image));
  }
}
