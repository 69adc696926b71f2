/** RobertsProcessor: the 2x2 Roberts cross. Pixel (x, y) takes the magnitude of
    the two diagonal differences of the square it opens; the last column and the
    last row stay 0. */
module Roberts {
  import opened Numeric
  import opened Image

  /** Pixel (x, y) opens a 2x2 square inside the image. */
  predicate Opens(img: GrayscaleImage, x: int, y: int) {
    0 <= x < img.width - 1 && 0 <= y < img.height - 1
  }

  /** `Pixels[index] - Pixels[index + width + 1]`: the main diagonal. */
  function DiagonalX(img: GrayscaleImage, x: int, y: int): (g: int)
    requires img.Valid() && Opens(img, x, y)
    ensures -255 <= g <= 255
    ensures g == 0 <==> img.At(x, y) == img.At(x + 1, y + 1)
  {
    img.At(x, y) - img.At(x + 1, y + 1)
  }

  /** `Pixels[index + 1] - Pixels[index + width]`: the anti-diagonal. */
  function DiagonalY(img: GrayscaleImage, x: int, y: int): (g: int)
    requires img.Valid() && Opens(img, x, y)
    ensures -255 <= g <= 255
    ensures g == 0 <==> img.At(x + 1, y) == img.At(x, y + 1)
  {
    img.At(x + 1, y) - img.At(x, y + 1)
  }

  function Pixel(img: GrayscaleImage, x: int, y: int): byte
    requires img.Valid()
  {
    if Opens(img, x, y) then Magnitude(DiagonalX(img, x, y), DiagonalY(img, x, y)) else 0
  }

  function Filtered(img: GrayscaleImage): (r: GrayscaleImage)
    requires img.Valid()
    ensures r.Valid() && SameShape(r, img)
  {
    var w, h := img.width, img.height;
    GrayscaleImage(w, h, seq(w * h, k requires 0 <= k < w * h => Pixel(img, Col(w, h, k), Row(w, h, k))))
  }

  lemma FilteredAt(img: GrayscaleImage, x: int, y: int)
    requires img.Valid() && img.Contains(x, y)
    ensures Filtered(img).At(x, y) == Pixel(img, x, y)
  {
    CoordsOfIndex(img.width, img.height, x, y);
  }

  /** The buffer offsets the source reads are the square's other three corners. */
  lemma Neighbours(w: int, h: int, x: int, y: int)
    requires 0 <= x < w - 1 && 0 <= y < h - 1
    ensures y * w + x + 1 == y * w + (x + 1)
    ensures y * w + x + w == (y + 1) * w + x
    ensures y * w + x + w + 1 == (y + 1) * w + (x + 1)
  {
  }

  /** `Apply`: for y < height - 1, x < width - 1, the two differences read at
      flat offsets from `index = y * width + x`. */
  method Apply(img: GrayscaleImage) returns (r: GrayscaleImage)
    requires img.Valid()
    ensures r == Filtered(img)
  {
    var w, h := img.width, img.height;
    ghost var s := Filtered(img).pixels;
    assert BlackOutside(s, w, h, 0, 1);
    var result := new byte[w * h](_ => 0);
    FillStart(result[..], s, w, h, 0, 1);
    var y := 0;
    while y < h - 1
      invariant 0 <= y
      invariant FilledUpTo(result[..], s, w, h, 0, y)
    {
      var x := 0;
      while x < w - 1
        invariant 0 <= x
        invariant FilledUpTo(result[..], s, w, h, x, y)
      {
        Neighbours(w, h, x, y);
        IndexInRange(w, h, x + 1, y + 1);
        var index := y * w + x;
        var gx := img.pixels[index] as int - img.pixels[index + w + 1] as int;
        var gy := img.pixels[index + 1] as int - img.pixels[index + w] as int;
        assert gx == DiagonalX(img, x, y) && gy == DiagonalY(img, x, y);
        var magnitude := Isqrt(gx * gx + gy * gy);
        CoordsOfIndex(w, h, x, y);
        ghost var before := result[..];
        result[index] := ClampByte(magnitude);
        FillStep(before, s, w, h, x, y);
        assert result[..] == before[y * w + x := s[y * w + x]];
        x := x + 1;
      }
      FillRowEnd(result[..], s, w, h, 0, 1, x, y);
      y := y + 1;
    }
    FillEnd(result[..], s, w, h, 0, 1, y);
    r := GrayscaleImage(w, h, result[..]);
  }

  /** The last column and the last row of the output are black. */
  lemma EdgeIsBlack(img: GrayscaleImage, x: int, y: int)
    requires img.Valid() && img.Contains(x, y) && (x == img.width - 1 || y == img.height - 1)
    ensures Filtered(img).At(x, y) == 0
  {
    FilteredAt(img, x, y);
  }

  /** An image one pixel wide or high opens no square and comes out black. */
  lemma ThinIsBlack(img: GrayscaleImage)
    requires img.Valid() && (img.width <= 1 || img.height <= 1)
    ensures Black(Filtered(img).pixels)
  {
  }

  /** A flat image has no edges. */
  lemma UniformIsBlack(img: GrayscaleImage, v: int)
    requires img.Valid() && Uniform(img, v)
    ensures Black(Filtered(img).pixels)
  {
    var w, h := img.width, img.height;
    var s := Filtered(img).pixels;
    forall k | 0 <= k < w * h
      ensures s[k] == 0
    {
      var x, y := Col(w, h, k), Row(w, h, k);
      if Opens(img, x, y) {
        IndexInRange(w, h, x, y);
        IndexInRange(w, h, x + 1, y + 1);
        IndexInRange(w, h, x + 1, y);
        IndexInRange(w, h, x, y + 1);
        assert DiagonalX(img, x, y) == 0 && DiagonalY(img, x, y) == 0;
      }
    }
  }

  /** Inverting the input changes the sign of both differences and so nothing
      in the output: a dark line on light paper and a light line on dark paper
      give the same edges. */
  lemma InvertedIsSame(img: GrayscaleImage)
    requires img.Valid()
    ensures Filtered(Inverted(img)) == Filtered(img)
  {
    var w, h := img.width, img.height;
    var inv := Inverted(img);
    var a, b := Filtered(inv).pixels, Filtered(img).pixels;
    forall k | 0 <= k < w * h
      ensures a[k] == b[k]
    {
      InvertedPixel(img, Col(w, h, k), Row(w, h, k));
    }
    assert a == b;
  }

  lemma InvertedPixel(img: GrayscaleImage, x: int, y: int)
    requires img.Valid()
    ensures Inverted(img).Valid() && Pixel(Inverted(img), x, y) == Pixel(img, x, y)
  {
    if Opens(img, x, y) {
      var inv := Inverted(img);
      InvertedAt(img, x, y);
      InvertedAt(img, x + 1, y + 1);
      InvertedAt(img, x + 1, y);
      InvertedAt(img, x, y + 1);
      var gx, gy := DiagonalX(img, x, y), DiagonalY(img, x, y);
      assert DiagonalX(inv, x, y) == -gx && DiagonalY(inv, x, y) == -gy;
      MagnitudeOfNegated(gx, gy);
    }
  }
}
