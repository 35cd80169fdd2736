/**
 The plain geometric values the layout passes exchange with the host. Lengths
 are exact reals; the host's floating-point rounding (double arithmetic,
 single-precision storage), infinities and NaN are not part of this model.
 */
module Geometry {

  datatype Size = Size(width: real, height: real)

  datatype Rect = Rect(x: real, y: real, width: real, height: real)

  /** A size the host may hand to a layout pass. */
  predicate NonNegative(s: Size)
  {
    s.width >= 0.0 && s.height >= 0.0
  }
}
