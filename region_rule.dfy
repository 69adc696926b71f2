/** RegionProcessingRule: a rectangle of the image paired with the filter to run
    on it. Both are get-only, and the constructor checks neither. */
module RegionRule {

  /** `System.Drawing.Rectangle`: Left = x, Top = y, Right = x + width,
      Bottom = y + height. */
  datatype Rectangle = Rectangle(x: int, y: int, width: int, height: int)
  {
    function Right(): int {
      x + width
    }

    function Bottom(): int {
      y + height
    }

    /** The rectangle lies inside a fullWidth x fullHeight image. */
    predicate Within(fullWidth: int, fullHeight: int) {
      0 <= x && 0 <= y && 0 <= width && 0 <= height && Right() <= fullWidth && Bottom() <= fullHeight
    }

    /** Pixel (px, py) lies in the rectangle. */
    predicate Covers(px: int, py: int) {
      x <= px < Right() && y <= py < Bottom()
    }
  }

  /** The four filters `GenerateProcessingRules` chooses from, one per branch:
      `GaussianBlurProcessor.Apply(img, 1.0)`, `CombineTwo(img, Sobel, DoG)`,
      `CombineTwo(img, EdgeFlow, PhaseCongruency)` and `PhaseCongruencyProcessor.Apply`. */
  datatype Choice = BlurOnly | SobelDoG | EdgeFlowPhase | PhaseOnly

  datatype RegionProcessingRule = RegionProcessingRule(region: Rectangle, processor: Choice)
}
