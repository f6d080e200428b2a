/** JavaScript division of two non-negative counts, kept exact. The screens
    compare `done / total` with the constants 0, 0.25, 0.5, 0.75 and 1; for
    the counts a habit list can hold, the double-precision quotient falls on
    the same side of each constant as the exact fraction, so comparisons are
    done by cross-multiplication. */
module JsNumber {

  /** `a / b`: a fraction when `b > 0`, `Infinity` when only `b` is 0, `NaN` for 0 / 0. */
  datatype Quotient = Fraction(num: nat, den: nat) | PositiveInfinity | NaN

  function Divide(a: nat, b: nat): (q: Quotient)
    ensures q.Fraction? <==> b > 0
    ensures q.Fraction? ==> q.num == a && q.den == b
    ensures q.NaN? <==> a == 0 && b == 0
  {
    if b > 0 then Fraction(a, b) else if a > 0 then PositiveInfinity else NaN
  }

  /** `q <= p / d`; every comparison with NaN is false. */
  predicate AtMost(q: Quotient, p: nat, d: nat)
  {
    match q
    case Fraction(n, m) => n * d <= p * m
    case PositiveInfinity => false
    case NaN => false
  }

  /** `q < p / d`. */
  predicate Below(q: Quotient, p: nat, d: nat)
  {
    match q
    case Fraction(n, m) => n * d < p * m
    case PositiveInfinity => false
    case NaN => false
  }

  /** `q > p / d`. */
  predicate Above(q: Quotient, p: nat, d: nat)
  {
    match q
    case Fraction(n, m) => n * d > p * m
    case PositiveInfinity => true
    case NaN => false
  }
}
