/**
 The JavaScript number values the data layer can produce when it converts a
 CSV cell with unary `+`. Negative zero is `Finite(0.0)`; the conversion itself
 (the string-to-number grammar) is not modelled and is passed around as a
 parameter `toNumber: string -> Num`.
 */
module JsNumber {

  datatype Num = NaN | Finite(value: real) | PosInfinity | NegInfinity

  /** The global `isNaN` applied to a number value. */
  predicate IsNaN(n: Num) {
    n.NaN?
  }

  /** The comparison `n > 0`: false whenever NaN takes part, true for +Infinity. */
  predicate IsPositive(n: Num) {
    match n
    case Finite(v) => v > 0.0
    case PosInfinity => true
    case _ => false
  }
}
