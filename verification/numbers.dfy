/** JavaScript numbers as the change calculations see them: a real value,
    a signed infinity, or NaN, with the arithmetic operators that index.js
    applies to them. Rounding is not modelled (a finite result is the exact
    real result) and there is a single zero, which behaves as +0. */
module Numbers {

  datatype Number = Finite(r: real) | Infinity(negative: bool) | NaN

  /** `-a` */
  function Negate(a: Number): (c: Number)
    ensures a.Finite? ==> c == Finite(-a.r)
    ensures c.NaN? == a.NaN? && c.Infinity? == a.Infinity?
    ensures a.Infinity? ==> c.negative == !a.negative
  {
    match a
    case Finite(x) => Finite(-x)
    case Infinity(neg) => Infinity(!neg)
    case NaN => NaN
  }

  /** `a + b` */
  function Add(a: Number, b: Number): (c: Number)
    ensures a.Finite? && b.Finite? ==> c == Finite(a.r + b.r)
    ensures c.NaN? <==> a.NaN? || b.NaN? || (a.Infinity? && b.Infinity? && a.negative != b.negative)
    ensures c.Infinity? <==> !c.NaN? && (a.Infinity? || b.Infinity?)
    ensures c.Infinity? ==> c == (if a.Infinity? then a else b)
  {
    match (a, b)
    case (NaN, _) => NaN
    case (_, NaN) => NaN
    case (Infinity(x), Infinity(y)) => if x == y then a else NaN
    case (Infinity(_), Finite(_)) => a
    case (Finite(_), Infinity(_)) => b
    case (Finite(x), Finite(y)) => Finite(x + y)
  }

  /** `a - b` */
  function Sub(a: Number, b: Number): (c: Number)
    ensures a.Finite? && b.Finite? ==> c == Finite(a.r - b.r)
    ensures a.NaN? || b.NaN? ==> c.NaN?
    ensures a.Infinity? && b.Finite? ==> c == a
    ensures a.Finite? && b.Infinity? ==> c == Infinity(!b.negative)
    ensures a.Infinity? && b.Infinity? ==> c == (if a.negative == b.negative then NaN else a)
  {
    Add(a, Negate(b))
  }

  /** `a * b` */
  function Mul(a: Number, b: Number): (c: Number)
    ensures a.Finite? && b.Finite? ==> c == Finite(a.r * b.r)
    ensures c.NaN? <==> a.NaN? || b.NaN? || (a.Infinity? && b == Finite(0.0)) || (a == Finite(0.0) && b.Infinity?)
    ensures a.Infinity? && b.Infinity? ==> c == Infinity(a.negative != b.negative)
    ensures a.Infinity? && b.Finite? && b.r != 0.0 ==> c == Infinity(a.negative != (b.r < 0.0))
    ensures a.Finite? && a.r != 0.0 && b.Infinity? ==> c == Infinity(b.negative != (a.r < 0.0))
  {
    match (a, b)
    case (NaN, _) => NaN
    case (_, NaN) => NaN
    case (Infinity(x), Infinity(y)) => Infinity(x != y)
    case (Infinity(x), Finite(y)) => if y == 0.0 then NaN else Infinity(x != (y < 0.0))
    case (Finite(x), Infinity(y)) => if x == 0.0 then NaN else Infinity(y != (x < 0.0))
    case (Finite(_), Finite(_)) => Finite(a.r * b.r)
  }

  /** `a / b`; dividing a nonzero value by zero gives an infinity, 0 / 0 and
      an infinity divided by an infinity give NaN. */
  function Div(a: Number, b: Number): (c: Number)
    ensures a.Finite? && b.Finite? && b.r != 0.0 ==> c == Finite(a.r / b.r)
    ensures a.Finite? && a.r != 0.0 && b == Finite(0.0) ==> c == Infinity(a.r < 0.0)
    ensures c.NaN? <==> a.NaN? || b.NaN? || (a.Infinity? && b.Infinity?) || (a == Finite(0.0) && b == Finite(0.0))
    ensures a.Infinity? && b.Finite? ==> c == Infinity(a.negative != (b.r < 0.0))
    ensures a.Finite? && b.Infinity? ==> c == Finite(0.0)
  {
    match (a, b)
    case (NaN, _) => NaN
    case (_, NaN) => NaN
    case (Infinity(_), Infinity(_)) => NaN
    case (Infinity(x), Finite(y)) => Infinity(x != (y < 0.0))
    case (Finite(_), Infinity(_)) => Finite(0.0)
    case (Finite(x), Finite(y)) =>
      if y != 0.0 then Finite(x / y)
      else if x == 0.0 then NaN
      else Infinity(x < 0.0)
  }
}
