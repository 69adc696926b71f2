/** The filters built on floating point (GaussianBlurProcessor, PhaseCongruencyProcessor)
    and the `Math.Sqrt` of the average-gradient statistic are not modelled; every
    operation that uses them takes them as parameters, and all that is assumed of
    them is what `Valid` states. */
module FloatFilters {
  import opened Image

  datatype Filters = Filters(
    /** `GaussianBlurProcessor.Apply(image, sigma)`. */
    blur: (GrayscaleImage, real) -> GrayscaleImage,
    /** `PhaseCongruencyProcessor.Apply(image)`. */
    phaseCongruency: GrayscaleImage -> GrayscaleImage,
    /** `Math.Sqrt` on the integer squared gradients. */
    sqrt: int -> real)
  {
    /** Both filters return a valid image of the input's dimensions, and the root
        is non-negative, exact at 0. */
    ghost predicate Valid() {
      && (forall img: GrayscaleImage, sigma: real {:trigger blur(img, sigma)} :: img.Valid() ==> blur(img, sigma).Valid() && SameShape(blur(img, sigma), img))
      && (forall img: GrayscaleImage {:trigger phaseCongruency(img)} :: img.Valid() ==> phaseCongruency(img).Valid() && SameShape(phaseCongruency(img), img))
      && (forall n: int :: sqrt(n) >= 0.0)
      && sqrt(0) == 0.0
    }
  }
}
