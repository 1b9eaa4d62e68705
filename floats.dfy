/** IEEE-754 double values as the numpy code sees them: exact reals for the
    finite values (rounding is not modelled) plus the special values that
    divisions by zero and 0/0 produce. The operations follow the IEEE rules
    for NaN and infinities; a zero is always +0. */
module Floats {

  datatype Float = Fin(v: real) | Inf(neg: bool) | NaN

  /** Largest finite double, 2^1024 - 2^971: what numpy.nan_to_num puts in
      place of +inf. */
  const MaxDouble: real := 179769313486231570814527423731704356798070567525844996598917476803157260780028538760589558632766878171540458953514382464234321326889464182768467546703537516986049910576551282076245490090389328944075868508455133942304583236903222948165808559332123348274797826204144723168738177180919299881250404026184124858368.0

  function Neg(a: Float): Float
  {
    match a
    case Fin(x) => Fin(-x)
    case Inf(n) => Inf(!n)
    case NaN => NaN
  }

  function Add(a: Float, b: Float): (r: Float)
    ensures a.NaN? || b.NaN? ==> r.NaN?
  {
    match (a, b)
    case (NaN, _) => NaN
    case (_, NaN) => NaN
    case (Fin(x), Fin(y)) => Fin(x + y)
    case (Inf(n), Fin(_)) => a
    case (Fin(_), Inf(n)) => b
    case (Inf(n1), Inf(n2)) => if n1 == n2 then a else NaN
  }

  function Sub(a: Float, b: Float): Float
  {
    Add(a, Neg(b))
  }

  function Mul(a: Float, b: Float): (r: Float)
    ensures a.NaN? || b.NaN? ==> r.NaN?
  {
    match (a, b)
    case (NaN, _) => NaN
    case (_, NaN) => NaN
    case (Fin(x), Fin(y)) => Fin(x * y)
    case (Inf(n), Fin(y)) => if y == 0.0 then NaN else Inf(n != (y < 0.0))
    case (Fin(x), Inf(n)) => if x == 0.0 then NaN else Inf(n != (x < 0.0))
    case (Inf(n1), Inf(n2)) => Inf(n1 != n2)
  }

  /** Division; a finite value divided by (+)0 gives a signed infinity and
      0/0 gives NaN, as numpy does (with a warning, not an exception). */
  function Div(a: Float, b: Float): (r: Float)
    ensures a.NaN? || b.NaN? ==> r.NaN?
  {
    match (a, b)
    case (NaN, _) => NaN
    case (_, NaN) => NaN
    case (Fin(x), Fin(y)) =>
      if y != 0.0 then Fin(x / y)
      else if x == 0.0 then NaN
      else Inf(x < 0.0)
    case (Fin(x), Inf(_)) => Fin(0.0)
    case (Inf(n), Fin(y)) => Inf(n != (y < 0.0))
    case (Inf(_), Inf(_)) => NaN
  }

  /** `a < c` for a constant c; every comparison with NaN is false. */
  predicate Less(a: Float, c: real)
  {
    match a
    case Fin(x) => x < c
    case Inf(n) => n
    case NaN => false
  }

  /** `a > c` for a constant c; every comparison with NaN is false. */
  predicate Greater(a: Float, c: real)
  {
    match a
    case Fin(x) => x > c
    case Inf(n) => !n
    case NaN => false
  }

  /** numpy.nan_to_num with its defaults: NaN becomes 0 and the infinities
      become the largest finite doubles of the same sign. */
  function NanToNum(a: Float): (r: Float)
    ensures r.Fin?
    ensures a.Fin? ==> r == a
    ensures a.NaN? ==> r == Fin(0.0)
    ensures a.Inf? ==> r.v == (if a.neg then -MaxDouble else MaxDouble)
  {
    match a
    case Fin(x) => a
    case Inf(n) => Fin(if n then -MaxDouble else MaxDouble)
    case NaN => Fin(0.0)
  }
}
