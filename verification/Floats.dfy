/** Floating-point values as far as the loaders look at them: exact finite values, the two
    infinities and NaN, with their comparisons. Rounding is not modelled here. */
module Floats {

  datatype Float = Finite(value: real) | Infinite(positive: bool) | NaN {

    predicate IsFinite() {
      Finite?
    }

    /** `self < 0.0`; false for NaN. */
    predicate IsNegative() {
      match this
      case Finite(v) => v < 0.0
      case Infinite(positive) => !positive
      case NaN => false
    }
  }
}
