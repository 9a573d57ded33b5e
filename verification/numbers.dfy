/**
  JavaScript numbers as they reach the workout store.

  The form converts each input with unary `+`, which can give NaN or an
  infinity as well as a finite value; the store divides finite values to get
  pace and speed, and the sort comparator subtracts them. Signed zero,
  rounding and overflow to infinity are not modelled.
 */
module JsNumbers {

  datatype Num = Fin(value: real) | NaN | Inf(negative: bool)

  /** `Number.isFinite(n)` */
  predicate IsFinite(n: Num) {
    n.Fin?
  }

  /** The comparison `n > 0`: false for NaN, true for positive infinity. */
  predicate IsPositive(n: Num) {
    match n
    case Fin(v) => v > 0.0
    case NaN => false
    case Inf(negative) => !negative
  }

  /** JavaScript truthiness of a number: every number except 0 and NaN. */
  predicate Truthy(n: Num) {
    match n
    case Fin(v) => v != 0.0
    case NaN => false
    case Inf(_) => true
  }

  /** The quotient `a / b` of two finite numbers. */
  function Div(a: real, b: real): (q: Num)
    ensures b != 0.0 ==> q.Fin? && q.value * b == a
    ensures b == 0.0 ==> !q.Fin?
    ensures q.NaN? <==> a == 0.0 && b == 0.0
    ensures q.Inf? ==> (q.negative <==> a < 0.0)
  {
    if b != 0.0 then Fin(a / b)
    else if a > 0.0 then Inf(false)
    else if a < 0.0 then Inf(true)
    else NaN
  }

  /**
    The sign of `x - y` as `Array.prototype.sort` reads a comparator's
    result: a NaN difference counts as 0.
   */
  function SignOfDifference(x: Num, y: Num): (c: int)
    ensures -1 <= c <= 1
    ensures x.Fin? && y.Fin? ==> (c < 0 <==> x.value < y.value) && (c > 0 <==> x.value > y.value)
    ensures x.NaN? || y.NaN? ==> c == 0
  {
    match (x, y)
    case (NaN, _) => 0
    case (_, NaN) => 0
    case (Fin(a), Fin(b)) => if a < b then -1 else if a > b then 1 else 0
    case (Inf(n1), Inf(n2)) => if n1 == n2 then 0 else if n1 then -1 else 1
    case (Inf(n), Fin(_)) => if n then -1 else 1
    case (Fin(_), Inf(n)) => if n then 1 else -1
  }
}
