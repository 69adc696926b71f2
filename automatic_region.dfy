/** AutomaticRegionProcessor on grayscale images: the image is cut into 32 x 32
    blocks, each block gets a filter from its own statistics, the filter runs on
    the block cut out as an image of its own, its edge map is pasted back at the
    block's place, and the assembled map is blurred with sigma 1.0 and inverted. */
module AutomaticRegion {
  import opened Numeric
  import opened Image
  import opened FloatFilters
  import opened RegionRule
  import opened Tiling
  import opened RegionStatistics
  import opened EdgeCombination
  import opened Invert
  import GradientOperator
  import Sobel
  import DoG = DifferenceOfGaussians
  import EdgeFlow

  /** What each of the four filter lambdas of `GenerateProcessingRules` computes:
      a blur with sigma 1.0, the average of Sobel and DoG (sigmas 1.0 and 2.0), the
      average of EdgeFlow and phase congruency, or phase congruency alone. */
  function ApplyChoice(ff: Filters, choice: Choice, img: GrayscaleImage): (r: GrayscaleImage)
    requires ff.Valid() && img.Valid()
    ensures r.Valid() && SameShape(r, img)
  {
    match choice
    case BlurOnly => ff.blur(img, 1.0)
    case SobelDoG => Average(GradientOperator.Filtered(img, Sobel.KernelX, Sobel.KernelY), DoG.Filtered(ff, img, 1.0, 2.0))
    case EdgeFlowPhase => Average(EdgeFlow.Filtered(img), ff.phaseCongruency(img))
    case PhaseOnly => ff.phaseCongruency(img)
  }

  /** `rule.Processor(regionImage)`: the chosen lambda, calling the filters'
      own `Apply` methods and `CombineTwo`'s `CombineEdges`. */
  method RunProcessor(ff: Filters, choice: Choice, img: GrayscaleImage) returns (r: GrayscaleImage)
    requires ff.Valid() && img.Valid()
    ensures r == ApplyChoice(ff, choice, img)
  {
    match choice
    case BlurOnly =>
      r := ff.blur(img, 1.0);
    case SobelDoG =>
      var sobel := Sobel.Apply(img);
      var dog := DoG.ApplyDefault(ff, img);
      r := CombineEdges(sobel, dog);
    case EdgeFlowPhase =>
      var flow := EdgeFlow.Apply(img);
      var phase := ff.phaseCongruency(img);
      r := CombineEdges(flow, phase);
    case PhaseOnly =>
      r := ff.phaseCongruency(img);
  }

  /** The list `GenerateProcessingRules` returns: one rule per block, in the order
      the y/x loops visit the blocks. */
  function Rules(ff: Filters, img: GrayscaleImage): (rules: seq<RegionProcessingRule>)
    requires img.Valid()
    ensures |rules| == BlockCount(img.width, img.height)
  {
    var n := BlockCount(img.width, img.height);
    seq(n, i requires 0 <= i < n =>
      var region := Block(img.width, img.height, i);
      RegionProcessingRule(region, ChoiceFor(ff, img, region)))
  }

  /** The rule at x = 32 * j, y = 32 * t is the rule of block t * Cols + j. */
  lemma RuleIndex(ff: Filters, img: GrayscaleImage, j: int, t: int)
    requires img.Valid() && 0 <= j < Cols(img.width) && 0 <= t < Rows(img.height)
    ensures 0 <= t * Cols(img.width) + j < |Rules(ff, img)|
    ensures var region := Rectangle(BlockSize * j, BlockSize * t,
                                    Min(BlockSize, img.width - BlockSize * j), Min(BlockSize, img.height - BlockSize * t));
      Inside(img, region) && Rules(ff, img)[t * Cols(img.width) + j] == RegionProcessingRule(region, ChoiceFor(ff, img, region))
  {
    BlockAt(img.width, img.height, j, t);
  }

  /** The body of the x loop: the region, its three statistics and the table. */
  method RuleAt(ff: Filters, image: GrayscaleImage, x: int, y: int) returns (rule: RegionProcessingRule)
    requires image.Valid() && image.Contains(x, y)
    ensures var region := Rectangle(x, y, Min(BlockSize, image.width - x), Min(BlockSize, image.height - y));
      Inside(image, region) && rule == RegionProcessingRule(region, ChoiceFor(ff, image, region))
  {
    var region := Rectangle(x, y, Min(BlockSize, image.width - x), Min(BlockSize, image.height - y));
    var variance := CalculateVariance(image, region);
    var edgeDensity := CalculateEdgeDensity(image, region);
    var gradient := CalculateAverageGradient(ff, image, region);
    var selectedProcessor := Classify(variance, edgeDensity, gradient);
    rule := RegionProcessingRule(region, selectedProcessor);
  }

  /** One more element of a prefix. */
  lemma PrefixGrows(all: seq<RegionProcessingRule>, done: int, rule: RegionProcessingRule)
    requires 0 <= done < |all| && all[done] == rule
    ensures all[..done + 1] == all[..done] + [rule]
  {
  }

  /** `GenerateProcessingRules`: the block loops, stepping x and y by BLOCK_SIZE,
      adding one rule per block. */
  method GenerateProcessingRules(ff: Filters, image: GrayscaleImage) returns (rules: seq<RegionProcessingRule>)
    requires image.Valid()
    ensures rules == Rules(ff, image)
  {
    var w, h := image.width, image.height;
    ghost var all := Rules(ff, image);
    rules := [];
    ghost var done := 0;
    var y := 0;
    ghost var t := 0;
    while y < h
      invariant 0 <= t <= Rows(h) && y == BlockSize * t
      invariant done == t * Cols(w) && done <= |all|
      invariant rules == all[..done]
    {
      StepsBelow(h, t);
      var x := 0;
      ghost var j := 0;
      while x < w
        invariant 0 <= j <= Cols(w) && x == BlockSize * j
        invariant done == t * Cols(w) + j && done <= |all|
        invariant rules == all[..done]
      {
        StepsBelow(w, j);
        RuleIndex(ff, image, j, t);
        var rule := RuleAt(ff, image, x, y);
        PrefixGrows(all, done, rule);
        rules := rules + [rule];
        done := done + 1;
        x := x + BlockSize;
        j := j + 1;
      }
      StepsBelow(w, j);
      Distribute(t, 1, Cols(w));
      MulLe(t + 1, Rows(h), Cols(w));
      y := y + BlockSize;
      t := t + 1;
    }
    StepsBelow(h, t);
    assert done == |all|;
  }

  /** Every rule's region lies inside the image, and every pixel lies in the
      region of exactly one rule: the one of its block. */
  lemma RulesTile(ff: Filters, img: GrayscaleImage, px: int, py: int)
    requires img.Valid() && img.Contains(px, py)
    ensures forall i :: 0 <= i < |Rules(ff, img)| ==> Rules(ff, img)[i].region.Within(img.width, img.height)
    ensures forall i :: 0 <= i < |Rules(ff, img)| ==>
      (Rules(ff, img)[i].region.Covers(px, py) <==> i == BlockOf(img.width, img.height, px, py))
  {
    forall i | 0 <= i < |Rules(ff, img)|
      ensures Rules(ff, img)[i].region.Covers(px, py) <==> i == BlockOf(img.width, img.height, px, py)
    {
      BlockCovers(img.width, img.height, i, px, py);
    }
  }

  lemma UniformInBlock(img: GrayscaleImage, v: int, i: int)
    requires img.Valid() && Uniform(img, v) && 0 <= i < BlockCount(img.width, img.height)
    ensures UniformIn(img, Block(img.width, img.height, i), v)
  {
    var r := Block(img.width, img.height, i);
    forall x, y | r.Covers(x, y)
      ensures img.At(x, y) == v
    {
      IndexInRange(img.width, img.height, x, y);
    }
  }

  /** On a flat image no brighter than 128, every block at least 3 x 3 is left to
      the blur. */
  lemma FlatDarkImageIsBlurred(ff: Filters, img: GrayscaleImage, v: int, i: int)
    requires ff.Valid() && img.Valid() && Uniform(img, v) && v <= 128
    requires 0 <= i < BlockCount(img.width, img.height)
    requires Block(img.width, img.height, i).width > 2 && Block(img.width, img.height, i).height > 2
    ensures Rules(ff, img)[i].processor == BlurOnly
  {
    UniformInBlock(img, v, i);
    UniformDarkIsBlurred(ff, img, Block(img.width, img.height, i), v);
  }

  /** Such a block's edge map is the blur of the block cut out as an image of its
      own: the blur clamps at the block's edges, not the image's. */
  lemma FlatDarkBlockEdges(ff: Filters, img: GrayscaleImage, v: int, i: int)
    requires ff.Valid() && img.Valid() && Uniform(img, v) && v <= 128
    requires 0 <= i < BlockCount(img.width, img.height)
    requires Block(img.width, img.height, i).width > 2 && Block(img.width, img.height, i).height > 2
    ensures BlockEdges(ff, img, i) == ff.blur(Extract(img, Block(img.width, img.height, i)), 1.0)
  {
    FlatDarkImageIsBlurred(ff, img, v, i);
  }

  /** On a flat image brighter than 128, every block goes to EdgeFlow with phase
      congruency, whatever its size. */
  lemma FlatBrightImageFlows(ff: Filters, img: GrayscaleImage, v: int, i: int)
    requires ff.Valid() && img.Valid() && Uniform(img, v) && v > 128
    requires 0 <= i < BlockCount(img.width, img.height)
    ensures Rules(ff, img)[i].processor == EdgeFlowPhase
  {
    UniformInBlock(img, v, i);
    BlockInside(img.width, img.height, i);
    UniformBrightIsEdgeFlow(ff, img, Block(img.width, img.height, i), v);
  }

  /** `ExtractRegion(image, region)`: the region cut out as an image of its own,
      its pixel (x, y) the image's pixel (region.X + x, region.Y + y). */
  function Extract(img: GrayscaleImage, region: Rectangle): (r: GrayscaleImage)
    requires Inside(img, region)
    ensures r.Valid() && r.width == region.width && r.height == region.height
  {
    var n := region.width * region.height;
    GrayscaleImage(region.width, region.height, seq(n, k requires 0 <= k < n => RegionPixel(img, region, k)))
  }

  /** Pixel k of the cut-out, in the cut-out's own row-major order. */
  function RegionPixel(img: GrayscaleImage, region: Rectangle, k: int): byte
    requires Inside(img, region) && 0 <= k < region.width * region.height
  {
    var x, y := Col(region.width, region.height, k), Row(region.width, region.height, k);
    assert img.Contains(region.x + x, region.y + y);
    img.At(region.x + x, region.y + y)
  }

  lemma ExtractAt(img: GrayscaleImage, region: Rectangle, x: int, y: int)
    requires Inside(img, region) && 0 <= x < region.width && 0 <= y < region.height
    ensures Extract(img, region).At(x, y) == img.At(region.x + x, region.y + y)
  {
    CoordsOfIndex(region.width, region.height, x, y);
  }

  /** Cutting out the whole image gives the image back. */
  lemma ExtractWhole(img: GrayscaleImage)
    requires img.Valid()
    ensures Inside(img, Rectangle(0, 0, img.width, img.height))
    ensures Extract(img, Rectangle(0, 0, img.width, img.height)) == img
  {
    var e := Extract(img, Rectangle(0, 0, img.width, img.height));
    forall k | 0 <= k < |img.pixels|
      ensures e.pixels[k] == img.pixels[k]
    {
      var x, y := Col(img.width, img.height, k), Row(img.width, img.height, k);
      IndexInRange(img.width, img.height, x, y);
    }
  }

  /** The cut-out depends only on the pixels inside the region. */
  lemma ExtractIsLocal(img1: GrayscaleImage, img2: GrayscaleImage, region: Rectangle)
    requires Inside(img1, region) && Inside(img2, region) && AgreeOn(img1, img2, region)
    ensures Extract(img1, region) == Extract(img2, region)
  {
    var e1, e2 := Extract(img1, region), Extract(img2, region);
    forall k | 0 <= k < |e1.pixels|
      ensures e1.pixels[k] == e2.pixels[k]
    {
      var x, y := Col(region.width, region.height, k), Row(region.width, region.height, k);
      assert region.Covers(region.x + x, region.y + y);
    }
  }

  /** `ExtractRegion`: the y/x loops over the region writing a fresh buffer. */
  method ExtractRegion(image: GrayscaleImage, region: Rectangle) returns (r: GrayscaleImage)
    requires Inside(image, region)
    ensures r == Extract(image, region)
  {
    var w, h := region.width, region.height;
    ghost var s := Extract(image, region).pixels;
    assert BlackOutside(s, w, h, 0, 0);
    var regionPixels := new byte[w * h](_ => 0);
    FillStart(regionPixels[..], s, w, h, 0, 0);
    var y := 0;
    while y < h
      invariant 0 <= y
      invariant FilledUpTo(regionPixels[..], s, w, h, 0, y)
    {
      var x := 0;
      while x < w
        invariant 0 <= x
        invariant FilledUpTo(regionPixels[..], s, w, h, x, y)
      {
        IndexInRange(image.width, image.height, x + region.x, y + region.y);
        CoordsOfIndex(w, h, x, y);
        ghost var before := regionPixels[..];
        regionPixels[y * w + x] := image.pixels[(y + region.y) * image.width + (x + region.x)];
        FillStep(before, s, w, h, x, y);
        assert regionPixels[..] == before[y * w + x := s[y * w + x]];
        x := x + 1;
      }
      FillRowEnd(regionPixels[..], s, w, h, 0, 0, x, y);
      y := y + 1;
    }
    FillEnd(regionPixels[..], s, w, h, 0, 0, y);
    r := GrayscaleImage(w, h, regionPixels[..]);
  }

  /** Buffer index k of a fullWidth x fullHeight raster lies in the region. */
  predicate InRegion(fullWidth: int, fullHeight: int, k: int, region: Rectangle)
    requires 0 <= fullWidth && 0 <= fullHeight && 0 <= k < fullWidth * fullHeight
  {
    region.Covers(Col(fullWidth, fullHeight, k), Row(fullWidth, fullHeight, k))
  }

  /** The index in the region's own buffer of full-image index k. */
  function Local(fullWidth: int, fullHeight: int, k: int, region: Rectangle): (l: int)
    requires 0 <= fullWidth && 0 <= fullHeight && 0 <= k < fullWidth * fullHeight
    requires region.Within(fullWidth, fullHeight) && InRegion(fullWidth, fullHeight, k, region)
    ensures 0 <= l < region.width * region.height
  {
    var x, y := Col(fullWidth, fullHeight, k) - region.x, Row(fullWidth, fullHeight, k) - region.y;
    IndexInRange(region.width, region.height, x, y);
    y * region.width + x
  }

  /** Full-image pixel (x, y) inside the region is pixel (x - region.x, y - region.y)
      of the region's buffer. */
  lemma LocalAt(fullWidth: int, fullHeight: int, region: Rectangle, x: int, y: int)
    requires 0 <= x < fullWidth && 0 <= y < fullHeight
    requires region.Within(fullWidth, fullHeight) && region.Covers(x, y)
    ensures 0 <= y * fullWidth + x < fullWidth * fullHeight && InRegion(fullWidth, fullHeight, y * fullWidth + x, region)
    ensures Local(fullWidth, fullHeight, y * fullWidth + x, region) == (y - region.y) * region.width + (x - region.x)
  {
    CoordsOfIndex(fullWidth, fullHeight, x, y);
  }

  /** The buffer after `ApplyRegion`: the region's entries taken from the edge
      map, every other entry as it was. */
  function Paste(base: seq<byte>, edges: GrayscaleImage, fullWidth: int, fullHeight: int, region: Rectangle): (r: seq<byte>)
    requires |base| == fullWidth * fullHeight && region.Within(fullWidth, fullHeight)
    requires |edges.pixels| >= region.width * region.height
    ensures |r| == |base|
  {
    seq(|base|, k requires 0 <= k < |base| =>
      if InRegion(fullWidth, fullHeight, k, region) then edges.pixels[Local(fullWidth, fullHeight, k, region)] else base[k])
  }

  /** Pasting at a region what was cut out of it changes nothing. */
  lemma PasteExtract(img: GrayscaleImage, region: Rectangle)
    requires Inside(img, region)
    ensures Paste(img.pixels, Extract(img, region), img.width, img.height, region) == img.pixels
  {
    var p := Paste(img.pixels, Extract(img, region), img.width, img.height, region);
    forall k | 0 <= k < |img.pixels|
      ensures p[k] == img.pixels[k]
    {
      if InRegion(img.width, img.height, k, region) {
        var x, y := Col(img.width, img.height, k), Row(img.width, img.height, k);
        ExtractAt(img, region, x - region.x, y - region.y);
        IndexInRange(region.width, region.height, x - region.x, y - region.y);
      }
    }
  }

  /** Cutting out the region where an edge map was pasted gives the edge map back. */
  lemma ExtractPaste(base: seq<byte>, edges: GrayscaleImage, fullWidth: int, fullHeight: int, region: Rectangle)
    requires |base| == fullWidth * fullHeight && region.Within(fullWidth, fullHeight)
    requires edges.Valid() && edges.width == region.width && edges.height == region.height
    ensures Inside(GrayscaleImage(fullWidth, fullHeight, Paste(base, edges, fullWidth, fullHeight, region)), region)
    ensures Extract(GrayscaleImage(fullWidth, fullHeight, Paste(base, edges, fullWidth, fullHeight, region)), region) == edges
  {
    var full := GrayscaleImage(fullWidth, fullHeight, Paste(base, edges, fullWidth, fullHeight, region));
    var e := Extract(full, region);
    forall k | 0 <= k < |edges.pixels|
      ensures e.pixels[k] == edges.pixels[k]
    {
      var x, y := Col(region.width, region.height, k), Row(region.width, region.height, k);
      CoordsOfIndex(fullWidth, fullHeight, region.x + x, region.y + y);
    }
  }

  /** Entries of the region in region-local row-major order before (x, y). */
  predicate LocalBefore(fullWidth: int, fullHeight: int, k: int, region: Rectangle, x: int, y: int)
    requires 0 <= fullWidth && 0 <= fullHeight && 0 <= k < fullWidth * fullHeight
  {
    var ly := Row(fullWidth, fullHeight, k) - region.y;
    ly < y || (ly == y && Col(fullWidth, fullHeight, k) - region.x < x)
  }

  /** The buffer while `ApplyRegion`'s loops are at (x, y). */
  ghost predicate PastedUpTo(a: seq<byte>, base: seq<byte>, edges: GrayscaleImage, fullWidth: int, fullHeight: int, region: Rectangle, x: int, y: int)
    requires |base| == fullWidth * fullHeight && region.Within(fullWidth, fullHeight)
    requires |edges.pixels| >= region.width * region.height
  {
    && |a| == |base|
    && forall k :: 0 <= k < |base| ==>
      a[k] == if InRegion(fullWidth, fullHeight, k, region) && LocalBefore(fullWidth, fullHeight, k, region, x, y)
              then edges.pixels[Local(fullWidth, fullHeight, k, region)] else base[k]
  }

  /** One write of `ApplyRegion` advances the pasted prefix by one pixel. */
  lemma PasteStep(a: seq<byte>, base: seq<byte>, edges: GrayscaleImage, fullWidth: int, fullHeight: int, region: Rectangle, x: int, y: int)
    requires |base| == fullWidth * fullHeight && region.Within(fullWidth, fullHeight)
    requires |edges.pixels| >= region.width * region.height
    requires PastedUpTo(a, base, edges, fullWidth, fullHeight, region, x, y)
    requires 0 <= x < region.width && 0 <= y < region.height
    ensures 0 <= (y + region.y) * fullWidth + (x + region.x) < |a|
    ensures 0 <= y * region.width + x < region.width * region.height
    ensures PastedUpTo(a[(y + region.y) * fullWidth + (x + region.x) := edges.pixels[y * region.width + x]],
                       base, edges, fullWidth, fullHeight, region, x + 1, y)
  {
    CoordsOfIndex(fullWidth, fullHeight, x + region.x, y + region.y);
    IndexInRange(region.width, region.height, x, y);
  }

  lemma PasteRowEnd(a: seq<byte>, base: seq<byte>, edges: GrayscaleImage, fullWidth: int, fullHeight: int, region: Rectangle, y: int)
    requires |base| == fullWidth * fullHeight && region.Within(fullWidth, fullHeight)
    requires |edges.pixels| >= region.width * region.height
    requires PastedUpTo(a, base, edges, fullWidth, fullHeight, region, region.width, y)
    ensures PastedUpTo(a, base, edges, fullWidth, fullHeight, region, 0, y + 1)
  {
  }

  lemma PasteEnd(a: seq<byte>, base: seq<byte>, edges: GrayscaleImage, fullWidth: int, fullHeight: int, region: Rectangle)
    requires |base| == fullWidth * fullHeight && region.Within(fullWidth, fullHeight)
    requires |edges.pixels| >= region.width * region.height
    requires PastedUpTo(a, base, edges, fullWidth, fullHeight, region, 0, region.height)
    ensures a == Paste(base, edges, fullWidth, fullHeight, region)
  {
    assert forall k :: 0 <= k < |a| ==> a[k] == Paste(base, edges, fullWidth, fullHeight, region)[k];
  }

  /** `ApplyRegion`: the y/x loops copying the region's edge map into the full buffer. */
  method ApplyRegion(finalPixels: array<byte>, regionEdges: GrayscaleImage, fullWidth: int, fullHeight: int, region: Rectangle)
    requires finalPixels.Length == fullWidth * fullHeight && region.Within(fullWidth, fullHeight)
    requires |regionEdges.pixels| >= region.width * region.height
    modifies finalPixels
    ensures finalPixels[..] == Paste(old(finalPixels[..]), regionEdges, fullWidth, fullHeight, region)
  {
    ghost var base := finalPixels[..];
    var y := 0;
    while y < region.height
      invariant 0 <= y <= region.height
      invariant PastedUpTo(finalPixels[..], base, regionEdges, fullWidth, fullHeight, region, 0, y)
    {
      var x := 0;
      while x < region.width
        invariant 0 <= x <= region.width
        invariant PastedUpTo(finalPixels[..], base, regionEdges, fullWidth, fullHeight, region, x, y)
      {
        ghost var before := finalPixels[..];
        PasteStep(before, base, regionEdges, fullWidth, fullHeight, region, x, y);
        var fullIndex := (y + region.y) * fullWidth + (x + region.x);
        finalPixels[fullIndex] := regionEdges.pixels[y * region.width + x];
        assert finalPixels[..] == before[fullIndex := regionEdges.pixels[y * region.width + x]];
        x := x + 1;
      }
      PasteRowEnd(finalPixels[..], base, regionEdges, fullWidth, fullHeight, region, y);
      y := y + 1;
    }
    PasteEnd(finalPixels[..], base, regionEdges, fullWidth, fullHeight, region);
  }

  /** The edge map the i-th rule produces: its filter run on its block alone. */
  function BlockEdges(ff: Filters, img: GrayscaleImage, i: int): (r: GrayscaleImage)
    requires ff.Valid() && img.Valid() && 0 <= i < BlockCount(img.width, img.height)
    ensures r.Valid() && r.width == Block(img.width, img.height, i).width && r.height == Block(img.width, img.height, i).height
  {
    var region := Block(img.width, img.height, i);
    ApplyChoice(ff, ChoiceFor(ff, img, region), Extract(img, region))
  }

  /** The block of buffer index k. */
  function BlockOfIndex(width: int, height: int, k: int): (i: int)
    requires 0 <= width && 0 <= height && 0 <= k < width * height
    ensures 0 <= i < BlockCount(width, height)
    ensures InRegion(width, height, k, Block(width, height, i))
  {
    var i := BlockOf(width, height, Col(width, height, k), Row(width, height, k));
    BlockCovers(width, height, i, Col(width, height, k), Row(width, height, k));
    i
  }

  /** Entry k of the assembled map: its block's edge map at its place in the block. */
  function BlockPixel(ff: Filters, img: GrayscaleImage, k: int): byte
    requires ff.Valid() && img.Valid() && 0 <= k < img.width * img.height
  {
    var i := BlockOfIndex(img.width, img.height, k);
    BlockEdges(ff, img, i).pixels[Local(img.width, img.height, k, Block(img.width, img.height, i))]
  }

  /** `combinedImage` in `Process`: every block's edge map at its place. */
  function Assembled(ff: Filters, img: GrayscaleImage): (r: GrayscaleImage)
    requires ff.Valid() && img.Valid()
    ensures r.Valid() && SameShape(r, img)
  {
    var n := img.width * img.height;
    GrayscaleImage(img.width, img.height, seq(n, k requires 0 <= k < n => BlockPixel(ff, img, k)))
  }

  /** `Process(original)` from the grayscale image to the inverted blur. */
  function Processed(ff: Filters, img: GrayscaleImage): (r: GrayscaleImage)
    requires ff.Valid() && img.Valid()
    ensures r.Valid() && SameShape(r, img)
  {
    Inverted(ff.blur(Assembled(ff, img), 1.0))
  }

  /** The buffer once the rules before i have been applied: the blocks before i
      hold their edge maps, the rest is still zero. */
  ghost predicate AssembledBelow(ff: Filters, img: GrayscaleImage, a: seq<byte>, i: int)
    requires ff.Valid() && img.Valid()
  {
    && |a| == img.width * img.height
    && forall k :: 0 <= k < |a| ==>
      a[k] == if BlockOfIndex(img.width, img.height, k) < i then BlockPixel(ff, img, k) else 0
  }

  /** Applying rule i pastes exactly block i, since every index lies in its own
      block and in no other. */
  lemma AssembleStep(ff: Filters, img: GrayscaleImage, a: seq<byte>, i: int)
    requires ff.Valid() && img.Valid() && 0 <= i < BlockCount(img.width, img.height)
    requires AssembledBelow(ff, img, a, i)
    ensures AssembledBelow(ff, img, Paste(a, BlockEdges(ff, img, i), img.width, img.height, Block(img.width, img.height, i)), i + 1)
  {
    var w, h := img.width, img.height;
    var p := Paste(a, BlockEdges(ff, img, i), w, h, Block(w, h, i));
    forall k | 0 <= k < |a|
      ensures p[k] == if BlockOfIndex(w, h, k) < i + 1 then BlockPixel(ff, img, k) else 0
    {
      BlockCovers(w, h, i, Col(w, h, k), Row(w, h, k));
    }
  }

  /** `Process`: the rules, the loop over them into a zeroed buffer, then the
      blur with sigma 1.0 and `InvertImage`. */
  method Process(ff: Filters, grayscale: GrayscaleImage) returns (r: GrayscaleImage)
    requires ff.Valid() && grayscale.Valid()
    ensures r == Processed(ff, grayscale)
  {
    var rules := GenerateProcessingRules(ff, grayscale);
    var finalPixels := new byte[|grayscale.pixels|](_ => 0);
    var i := 0;
    while i < |rules|
      invariant 0 <= i <= |rules|
      invariant AssembledBelow(ff, grayscale, finalPixels[..], i)
    {
      var rule := rules[i];
      var regionImage := ExtractRegion(grayscale, rule.region);
      var edges := RunProcessor(ff, rule.processor, regionImage);
      ghost var before := finalPixels[..];
      ApplyRegion(finalPixels, edges, grayscale.width, grayscale.height, rule.region);
      AssembleStep(ff, grayscale, before, i);
      i := i + 1;
    }
    var combinedImage := GrayscaleImage(grayscale.width, grayscale.height, finalPixels[..]);
    assert combinedImage == Assembled(ff, grayscale);
    var blurred := ff.blur(combinedImage, 1.0);
    r := InvertImage(blurred);
  }

  /** Each pixel of the assembled map is the pixel at the same place within its
      block of that block's edge map. */
  lemma AssembledAt(ff: Filters, img: GrayscaleImage, x: int, y: int)
    requires ff.Valid() && img.Valid() && img.Contains(x, y)
    ensures var i := BlockOf(img.width, img.height, x, y);
      var b := Block(img.width, img.height, i);
      b.Covers(x, y) && Assembled(ff, img).At(x, y) == BlockEdges(ff, img, i).At(x - b.x, y - b.y)
  {
    var w, h := img.width, img.height;
    var i := BlockOf(w, h, x, y);
    BlockCovers(w, h, i, x, y);
    CoordsOfIndex(w, h, x, y);
    var k := y * w + x;
    var b := Block(w, h, i);
    LocalAt(w, h, b, x, y);
    assert BlockOfIndex(w, h, k) == i;
  }

  /** Blocks are filtered independently: the edge map of a block, and so the
      assembled map on it, depend only on the block's own pixels. */
  lemma BlocksAreIndependent(ff: Filters, img1: GrayscaleImage, img2: GrayscaleImage, i: int, x: int, y: int)
    requires ff.Valid() && img1.Valid() && img2.Valid() && SameShape(img1, img2)
    requires 0 <= i < BlockCount(img1.width, img1.height)
    requires AgreeOn(img1, img2, Block(img1.width, img1.height, i))
    requires Block(img1.width, img1.height, i).Covers(x, y)
    ensures BlockEdges(ff, img1, i) == BlockEdges(ff, img2, i)
    ensures Assembled(ff, img1).At(x, y) == Assembled(ff, img2).At(x, y)
  {
    var region := Block(img1.width, img1.height, i);
    ChoiceIsLocal(ff, img1, img2, region);
    ExtractIsLocal(img1, img2, region);
    BlockCovers(img1.width, img1.height, i, x, y);
    AssembledAt(ff, img1, x, y);
    AssembledAt(ff, img2, x, y);
  }

  /** The output is the negative of the blurred assembled map: inverting it gives
      the blur back, and each output pixel plus the blurred pixel is 255. */
  lemma ProcessedIsNegative(ff: Filters, img: GrayscaleImage)
    requires ff.Valid() && img.Valid()
    ensures Inverted(Processed(ff, img)) == ff.blur(Assembled(ff, img), 1.0)
    ensures forall k :: 0 <= k < |img.pixels| ==>
      Processed(ff, img).pixels[k] as int + ff.blur(Assembled(ff, img), 1.0).pixels[k] as int == 255
  {
    InvertedTwice(ff.blur(Assembled(ff, img), 1.0));
  }
}
