/** DoGProcessor: the difference of two Gaussian blurs of the same image, offset by 128
    so that "no difference" is mid-grey, clamped into a byte. */
module DifferenceOfGaussians {
  import opened Numeric
  import opened Image
  import opened FloatFilters

  /** The output for blurs b1 and b2 of an image of the given dimensions. */
  function Difference(b1: GrayscaleImage, b2: GrayscaleImage, width: int, height: int): (r: GrayscaleImage)
    requires 0 <= width && 0 <= height
    requires |b1.pixels| >= width * height && |b2.pixels| >= width * height
    ensures r.Valid() && r.width == width && r.height == height
  {
    GrayscaleImage(width, height, seq(width * height, i requires 0 <= i < width * height =>
      ClampByte(b1.pixels[i] as int - b2.pixels[i] as int + 128)))
  }

  /** `Apply(image, sigma1, sigma2)` as a value. */
  function Filtered(ff: Filters, img: GrayscaleImage, sigma1: real, sigma2: real): (r: GrayscaleImage)
    requires ff.Valid() && img.Valid()
    ensures r.Valid() && SameShape(r, img)
  {
    Difference(ff.blur(img, sigma1), ff.blur(img, sigma2), img.width, img.height)
  }

  /** `Apply(image, sigma1, sigma2)`. */
  method Apply(ff: Filters, img: GrayscaleImage, sigma1: real, sigma2: real) returns (r: GrayscaleImage)
    requires ff.Valid() && img.Valid()
    ensures r == Filtered(ff, img, sigma1, sigma2)
  {
    var blurred1 := ff.blur(img, sigma1);
    var blurred2 := ff.blur(img, sigma2);
    var result := new byte[img.width * img.height](_ => 0);
    var i := 0;
    while i < result.Length
      invariant 0 <= i <= result.Length
      invariant forall k :: 0 <= k < i ==> result[k] == Filtered(ff, img, sigma1, sigma2).pixels[k]
    {
      var difference := blurred1.pixels[i] as int - blurred2.pixels[i] as int + 128;
      result[i] := ClampByte(difference);
      i := i + 1;
    }
    r := GrayscaleImage(img.width, img.height, result[..]);
  }

  /** `Apply(image)`: sigma1 = 1.0 and sigma2 = 2.0. */
  method ApplyDefault(ff: Filters, img: GrayscaleImage) returns (r: GrayscaleImage)
    requires ff.Valid() && img.Valid()
    ensures r == Filtered(ff, img, 1.0, 2.0)
  {
    r := Apply(ff, img, 1.0, 2.0);
  }

  /** Mid-grey exactly where the two blurs agree, lighter where the finer blur is
      brighter, darker where it is darker. */
  lemma Sign(ff: Filters, img: GrayscaleImage, sigma1: real, sigma2: real, i: int)
    requires ff.Valid() && img.Valid() && 0 <= i < |img.pixels|
    ensures var out, b1, b2 := Filtered(ff, img, sigma1, sigma2).pixels[i], ff.blur(img, sigma1).pixels[i], ff.blur(img, sigma2).pixels[i];
      && (out == 128 <==> b1 == b2)
      && (out > 128 <==> b1 > b2)
  {
  }

  /** Equal blurs, in particular equal sigmas, give a uniformly mid-grey image. */
  lemma EqualBlursAreGrey(ff: Filters, img: GrayscaleImage, sigma1: real, sigma2: real)
    requires ff.Valid() && img.Valid() && ff.blur(img, sigma1) == ff.blur(img, sigma2)
    ensures Uniform(Filtered(ff, img, sigma1, sigma2), 128)
  {
    var b := ff.blur(img, sigma1);
    var out := Filtered(ff, img, sigma1, sigma2);
    forall k | 0 <= k < |out.pixels|
      ensures out.pixels[k] == 128
    {
      assert out.pixels[k] == ClampByte(b.pixels[k] as int - b.pixels[k] as int + 128);
    }
  }

  /** Swapping the sigmas mirrors the output about 128, wherever neither side clamps. */
  lemma SwappedMirrors(ff: Filters, img: GrayscaleImage, sigma1: real, sigma2: real, i: int)
    requires ff.Valid() && img.Valid() && 0 <= i < |img.pixels|
    requires -127 <= ff.blur(img, sigma1).pixels[i] as int - ff.blur(img, sigma2).pixels[i] as int <= 127
    ensures Filtered(ff, img, sigma1, sigma2).pixels[i] as int + Filtered(ff, img, sigma2, sigma1).pixels[i] as int == 256
  {
    var b1, b2 := ff.blur(img, sigma1), ff.blur(img, sigma2);
    var d := b1.pixels[i] as int - b2.pixels[i] as int;
    assert Filtered(ff, img, sigma1, sigma2).pixels[i] == ClampByte(d + 128);
    assert Filtered(ff, img, sigma2, sigma1).pixels[i] == ClampByte(-d + 128);
  }
}
