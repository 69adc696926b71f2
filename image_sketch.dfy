/** ImageSketchProcessor on grayscale images: a single filter or a list of filters
    is run on the image, the edge maps are averaged from the left, and the result
    is finalised into a sketch by a Gaussian blur with sigma 1.0 and an inversion. */
module ImageSketch {
  import opened Numeric
  import opened Image
  import opened FloatFilters
  import opened EdgeCombination
  import opened Invert
  import AutomaticRegion

  /** `FinalizeSketch(edges)` before the conversion to a bitmap. */
  function Finalized(ff: Filters, edges: GrayscaleImage): (r: GrayscaleImage)
    requires ff.Valid() && edges.Valid()
    ensures r.Valid() && SameShape(r, edges)
  {
    Inverted(ff.blur(edges, 1.0))
  }

  /** `FinalizeSketch`: blur with sigma 1.0, then `InvertImage`. */
  method FinalizeSketch(ff: Filters, edges: GrayscaleImage) returns (r: GrayscaleImage)
    requires ff.Valid() && edges.Valid()
    ensures r == Finalized(ff, edges)
  {
    var blurred := ff.blur(edges, 1.0);
    r := InvertImage(blurred);
  }

  /** The sketch is the photographic negative of the blurred edges: inverting it
      again gives back the blur, and every sketch pixel plus the blurred edge
      pixel is 255 (dark lines on white paper). */
  lemma FinalizeUndone(ff: Filters, edges: GrayscaleImage)
    requires ff.Valid() && edges.Valid()
    ensures Inverted(Finalized(ff, edges)) == ff.blur(edges, 1.0)
    ensures forall k :: 0 <= k < |edges.pixels| ==>
      Finalized(ff, edges).pixels[k] as int + ff.blur(edges, 1.0).pixels[k] as int == 255
  {
    InvertedTwice(ff.blur(edges, 1.0));
  }

  /** `ProcessSingle(original, processor)` from the grayscale image on. */
  function Single(ff: Filters, grayscale: GrayscaleImage, processor: Processor): (r: GrayscaleImage)
    requires ff.Valid() && processor(grayscale).Valid()
    ensures r.Valid() && SameShape(r, processor(grayscale))
  {
    Finalized(ff, processor(grayscale))
  }

  method ProcessSingle(ff: Filters, grayscale: GrayscaleImage, processor: Processor) returns (r: GrayscaleImage)
    requires ff.Valid() && processor(grayscale).Valid()
    ensures r == Single(ff, grayscale, processor)
  {
    var edges := processor(grayscale);
    r := FinalizeSketch(ff, edges);
  }

  /** What `CombinedProcess` needs of its filters on this image: the first map is
      a valid image (it is blurred when it is the only one), and every map's
      buffer is long enough for `CombineEdges` with the first map's dimensions. */
  predicate Compatible(processors: seq<Processor>, grayscale: GrayscaleImage) {
    |processors| > 0 ==>
      && processors[0](grayscale).Valid()
      && forall i :: 0 <= i < |processors| ==> Fits(processors[0](grayscale), processors[i](grayscale))
  }

  /** The combined edge map of the first n filters: `combined = processors[0](g)`,
      then `combined = CombineEdges(combined, processors[i](g))` for i = 1 .. n - 1. */
  function FoldEdges(processors: seq<Processor>, grayscale: GrayscaleImage, n: nat): (r: GrayscaleImage)
    requires 1 <= n <= |processors| && Compatible(processors, grayscale)
    ensures r.Valid() && SameShape(r, processors[0](grayscale))
  {
    if n == 1 then processors[0](grayscale)
    else Average(FoldEdges(processors, grayscale, n - 1), processors[n - 1](grayscale))
  }

  /** `CombinedProcess(original, processors)` from the grayscale image on: an empty
      list fails at `processors[0]`. */
  function Combined(ff: Filters, grayscale: GrayscaleImage, processors: seq<Processor>): (r: Result<GrayscaleImage>)
    requires ff.Valid() && Compatible(processors, grayscale)
    ensures r.Err? <==> |processors| == 0
    ensures r.Err? ==> r.error == IndexOutOfRange
    ensures r.Ok? ==> r.value.Valid() && SameShape(r.value, processors[0](grayscale))
  {
    if |processors| == 0 then Err(IndexOutOfRange)
    else Ok(Finalized(ff, FoldEdges(processors, grayscale, |processors|)))
  }

  /** `CombinedProcess`: the loop that folds the edge maps, then `FinalizeSketch`. */
  method CombinedProcess(ff: Filters, grayscale: GrayscaleImage, processors: seq<Processor>) returns (r: Result<GrayscaleImage>)
    requires ff.Valid() && Compatible(processors, grayscale)
    ensures r == Combined(ff, grayscale, processors)
  {
    if |processors| == 0 {
      return Err(IndexOutOfRange);
    }
    var combined := processors[0](grayscale);
    var i := 1;
    while i < |processors|
      invariant 1 <= i <= |processors|
      invariant combined == FoldEdges(processors, grayscale, i)
    {
      var nextEdges := processors[i](grayscale);
      combined := CombineEdges(combined, nextEdges);
      i := i + 1;
    }
    var sketch := FinalizeSketch(ff, combined);
    r := Ok(sketch);
  }

  /** With one filter the fold is that filter's map, so `CombinedProcess` with one
      filter is `ProcessSingle`. */
  lemma OneFilterIsSingle(ff: Filters, grayscale: GrayscaleImage, processor: Processor)
    requires ff.Valid() && processor(grayscale).Valid()
    ensures Compatible([processor], grayscale)
    ensures Combined(ff, grayscale, [processor]) == Ok(Single(ff, grayscale, processor))
  {
    assert Fits(processor(grayscale), processor(grayscale));
  }

  /** The fold of two, three and four filters is EdgeCombinationProcessor's
      CombineTwo, CombineThree and CombineFour. */
  lemma FoldTwo(grayscale: GrayscaleImage, first: Processor, second: Processor)
    requires Compatible([first, second], grayscale)
    ensures Fits(first(grayscale), second(grayscale))
    ensures FoldEdges([first, second], grayscale, 2) == CombineTwo(grayscale, first, second)
  {
    var ps := [first, second];
    assert ps[1] == second;
  }

  lemma FoldThree(grayscale: GrayscaleImage, first: Processor, second: Processor, third: Processor)
    requires Compatible([first, second, third], grayscale)
    ensures Fits(first(grayscale), second(grayscale)) && Fits(first(grayscale), third(grayscale))
    ensures FoldEdges([first, second, third], grayscale, 3) == CombineThree(grayscale, first, second, third)
  {
    var ps := [first, second, third];
    assert ps[1] == second && ps[2] == third;
    assert FoldEdges(ps, grayscale, 2) == CombineTwo(grayscale, first, second);
  }

  lemma FoldFour(grayscale: GrayscaleImage, first: Processor, second: Processor, third: Processor, fourth: Processor)
    requires Compatible([first, second, third, fourth], grayscale)
    ensures Fits(first(grayscale), second(grayscale)) && Fits(first(grayscale), third(grayscale)) && Fits(first(grayscale), fourth(grayscale))
    ensures FoldEdges([first, second, third, fourth], grayscale, 4) == CombineFour(grayscale, first, second, third, fourth)
  {
    var ps := [first, second, third, fourth];
    assert ps[1] == second && ps[2] == third && ps[3] == fourth;
    assert FoldEdges(ps, grayscale, 2) == CombineTwo(grayscale, first, second);
    assert FoldEdges(ps, grayscale, 3) == CombineThree(grayscale, first, second, third);
  }

  /** Averaging never leaves the range of the maps averaged: if every filter's map
      is at most (at least) m at pixel k, so is the combined map. */
  lemma {:induction false} FoldWithinRange(processors: seq<Processor>, grayscale: GrayscaleImage, n: nat, k: int, m: int)
    requires 1 <= n <= |processors| && Compatible(processors, grayscale)
    requires 0 <= k < |processors[0](grayscale).pixels|
    ensures (forall i :: 0 <= i < n ==> processors[i](grayscale).pixels[k] <= m) ==> FoldEdges(processors, grayscale, n).pixels[k] <= m
    ensures (forall i :: 0 <= i < n ==> processors[i](grayscale).pixels[k] >= m) ==> FoldEdges(processors, grayscale, n).pixels[k] >= m
  {
    if n > 1 {
      FoldWithinRange(processors, grayscale, n - 1, k, m);
      Between(FoldEdges(processors, grayscale, n - 1), processors[n - 1](grayscale), k);
    }
  }

  /** Filters that agree on this image combine to their common map. */
  lemma {:induction false} FoldOfEqualMaps(processors: seq<Processor>, grayscale: GrayscaleImage, n: nat)
    requires 1 <= n <= |processors| && Compatible(processors, grayscale)
    requires forall i :: 0 <= i < |processors| ==> processors[i](grayscale) == processors[0](grayscale)
    ensures FoldEdges(processors, grayscale, n) == processors[0](grayscale)
  {
    if n > 1 {
      FoldOfEqualMaps(processors, grayscale, n - 1);
      SelfIsIdentity(processors[0](grayscale));
    }
  }

  /** `ProcessImage(original)` is `ProcessWithAutomaticRegions(original)`, which is
      `AutomaticRegionProcessor.Process`. */
  method ProcessImage(ff: Filters, grayscale: GrayscaleImage) returns (r: GrayscaleImage)
    requires ff.Valid() && grayscale.Valid()
    ensures r == AutomaticRegion.Processed(ff, grayscale)
  {
    r := AutomaticRegion.Process(ff, grayscale);
  }
}
