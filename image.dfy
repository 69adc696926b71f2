/** The raster of EdgeDetectionLib.Core.GrayscaleImage: a width, a height and a
    row-major byte buffer, pixel (x, y) at index y * width + x, plus the index
    arithmetic that every filter's loops rely on. */
module Image {
  import opened Numeric

  datatype Option<T> = None | Some(value: T)

  /** The exceptions the modelled code can raise. */
  datatype Error = ArgumentNull | IndexOutOfRange

  datatype Result<T> = Ok(value: T) | Err(error: Error)

  /** Width, Height and Pixels are get-only: a value of this type never changes. */
  datatype GrayscaleImage = GrayscaleImage(width: int, height: int, pixels: seq<byte>)
  {
    /** What every filter relies on and the constructor never checks. */
    predicate Valid() {
      0 <= width && 0 <= height && |pixels| == width * height
    }

    predicate Contains(x: int, y: int) {
      0 <= x < width && 0 <= y < height
    }

    /** `Pixels[y * Width + x]`. */
    function At(x: int, y: int): byte
      requires Valid() && Contains(x, y)
    {
      IndexInRange(width, height, x, y);
      pixels[y * width + x]
    }
  }

  /** The constructor: a null buffer raises ArgumentNullException; anything else,
      including a buffer of the wrong length or negative dimensions, is stored as given. */
  function Create(width: int, height: int, pixels: Option<seq<byte>>): (r: Result<GrayscaleImage>)
    ensures pixels.None? <==> r.Err?
    ensures r.Err? ==> r.error == ArgumentNull
    ensures r.Ok? ==> r.value.width == width && r.value.height == height && r.value.pixels == pixels.value
  {
    match pixels
    case None => Err(ArgumentNull)
    case Some(p) => Ok(GrayscaleImage(width, height, p))
  }

  /** Nothing in the constructor ties the buffer to the dimensions: every
      non-null buffer is accepted, and the image is well formed exactly when the
      dimensions are not negative and the buffer holds width * height pixels. */
  lemma CreateChecksOnlyNull(width: int, height: int, p: seq<byte>)
    ensures Create(width, height, Some(p)).Ok?
    ensures Create(width, height, Some(p)).value.Valid() <==> 0 <= width && 0 <= height && |p| == width * height
  {
  }

  predicate SameShape(a: GrayscaleImage, b: GrayscaleImage) {
    a.width == b.width && a.height == b.height
  }

  /** Every pixel of the image equals v. */
  predicate Uniform(img: GrayscaleImage, v: int) {
    forall k :: 0 <= k < |img.pixels| ==> img.pixels[k] == v
  }

  /** Every pixel is zero. */
  predicate Black(pixels: seq<byte>) {
    forall k :: 0 <= k < |pixels| ==> pixels[k] == 0
  }

  /** The photographic negative: every pixel p becomes 255 - p. */
  function Inverted(img: GrayscaleImage): (r: GrayscaleImage)
    ensures SameShape(r, img) && |r.pixels| == |img.pixels|
    ensures forall k :: 0 <= k < |img.pixels| ==> r.pixels[k] as int + img.pixels[k] as int == 255
  {
    GrayscaleImage(img.width, img.height, seq(|img.pixels|, k requires 0 <= k < |img.pixels| => (255 - img.pixels[k] as int) as byte))
  }

  /** Pixel (x, y) of the negative. */
  lemma InvertedAt(img: GrayscaleImage, x: int, y: int)
    requires img.Valid() && img.Contains(x, y)
    ensures Inverted(img).Valid() && Inverted(img).At(x, y) == 255 - img.At(x, y)
  {
    IndexInRange(img.width, img.height, x, y);
  }

  /** Inverting twice gives the image back. */
  lemma InvertedTwice(img: GrayscaleImage)
    ensures Inverted(Inverted(img)) == img
  {
    assert Inverted(Inverted(img)).pixels == img.pixels;
  }

  /** Column of buffer index k in a w x h raster. */
  function Col(w: int, h: int, k: int): (x: int)
    requires 0 <= w && 0 <= h && 0 <= k < w * h
    ensures 0 <= x < w
  {
    k % w
  }

  /** Row of buffer index k in a w x h raster; k is Row * w + Col. */
  function Row(w: int, h: int, k: int): (y: int)
    requires 0 <= w && 0 <= h && 0 <= k < w * h
    ensures 0 <= y < h && k == y * w + Col(w, h, k)
  {
    k / w
  }

  /** Pixel (x, y) of a w x h raster has an index inside the buffer. */
  lemma IndexInRange(w: int, h: int, x: int, y: int)
    requires 0 <= x < w && 0 <= y < h
    ensures 0 <= y * w + x < w * h
  {
    MulLe(y, h - 1, w);
    MulLe(0, y, w);
  }

  /** Index y * w + x has column x and row y. */
  lemma CoordsOfIndex(w: int, h: int, x: int, y: int)
    requires 0 <= x < w && 0 <= y < h
    ensures 0 <= y * w + x < w * h
    ensures Col(w, h, y * w + x) == x && Row(w, h, y * w + x) == y
  {
    IndexInRange(w, h, x, y);
    var k := y * w + x;
    var q, r := k / w, k % w;
    if q > y {
      MulLe(1, q - y, w);
      assert false;
    } else if q < y {
      MulLe(1, y - q, w);
      assert false;
    }
  }

  /** A buffer index lies before pixel (x, y) in the order of the source's
      `for y { for x { ... } }` loops. */
  predicate Before(w: int, h: int, k: int, x: int, y: int)
    requires 0 <= w && 0 <= h && 0 <= k < w * h
  {
    Row(w, h, k) < y || (Row(w, h, k) == y && Col(w, h, k) < x)
  }

  /** The state of a zero-initialised output buffer that row-major loops have
      filled up to, not including, pixel (x, y): earlier entries hold the target S,
      the others are still zero. */
  ghost predicate FilledUpTo(a: seq<byte>, s: seq<byte>, w: int, h: int, x: int, y: int) {
    && 0 <= w && 0 <= h && |a| == w * h && |s| == w * h
    && forall k :: 0 <= k < w * h ==> a[k] == if Before(w, h, k, x, y) then s[k] else 0
  }

  /** Every entry of s outside the window [lo, w - hi) x [lo, h - hi) is zero:
      the border a filter's loops never write. */
  ghost predicate BlackOutside(s: seq<byte>, w: int, h: int, lo: int, hi: int) {
    && 0 <= w && 0 <= h && |s| == w * h
    && forall k :: 0 <= k < w * h && !(lo <= Col(w, h, k) < w - hi && lo <= Row(w, h, k) < h - hi) ==> s[k] == 0
  }

  /** Writing s's value at pixel (x, y) advances the filled prefix by one pixel. */
  lemma FillStep(a: seq<byte>, s: seq<byte>, w: int, h: int, x: int, y: int)
    requires FilledUpTo(a, s, w, h, x, y) && 0 <= x < w && 0 <= y < h
    ensures 0 <= y * w + x < w * h
    ensures FilledUpTo(a[y * w + x := s[y * w + x]], s, w, h, x + 1, y)
  {
    CoordsOfIndex(w, h, x, y);
  }

  /** Before the loops start, every row above the first one written is border. */
  lemma FillStart(a: seq<byte>, s: seq<byte>, w: int, h: int, lo: int, hi: int)
    requires Black(a) && |a| == w * h && BlackOutside(s, w, h, lo, hi)
    ensures FilledUpTo(a, s, w, h, 0, lo)
  {
  }

  /** Skipping the first lo pixels of a row skips border only. */
  lemma FillRowStart(a: seq<byte>, s: seq<byte>, w: int, h: int, lo: int, hi: int, y: int)
    requires FilledUpTo(a, s, w, h, 0, y) && BlackOutside(s, w, h, lo, hi)
    ensures FilledUpTo(a, s, w, h, lo, y)
  {
  }

  /** Skipping the last pixels of a row, from x on, skips border only. */
  lemma FillRowEnd(a: seq<byte>, s: seq<byte>, w: int, h: int, lo: int, hi: int, x: int, y: int)
    requires FilledUpTo(a, s, w, h, x, y) && BlackOutside(s, w, h, lo, hi) && x >= w - hi
    ensures FilledUpTo(a, s, w, h, 0, y + 1)
  {
  }

  /** Once the rows below y are all border, the buffer is finished. */
  lemma FillEnd(a: seq<byte>, s: seq<byte>, w: int, h: int, lo: int, hi: int, y: int)
    requires FilledUpTo(a, s, w, h, 0, y) && BlackOutside(s, w, h, lo, hi) && y >= h - hi
    ensures a == s
  {
    forall k | 0 <= k < w * h
      ensures a[k] == s[k]
    {
    }
  }
}
