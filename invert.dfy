/** `InvertImage`, written out identically as a private method of ImageSketchProcessor
    and of AutomaticRegionProcessor: every pixel p becomes 255 - p. */
module Invert {
  import opened Numeric
  import opened Image

  method InvertImage(img: GrayscaleImage) returns (r: GrayscaleImage)
    requires img.Valid()
    ensures r == Inverted(img)
  {
    var invertedPixels := new byte[img.width * img.height](_ => 0);
    var i := 0;
    while i < invertedPixels.Length
      invariant 0 <= i <= invertedPixels.Length
      invariant forall k :: 0 <= k < i ==> invertedPixels[k] as int == 255 - img.pixels[k]
    {
      invertedPixels[i] := (255 - img.pixels[i] as int) as byte;
      i := i + 1;
    }
    r := GrayscaleImage(img.width, img.height, invertedPixels[..]);
    assert r.pixels == Inverted(img).pixels;
  }
}
