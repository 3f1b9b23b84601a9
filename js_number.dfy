/**
 * JavaScript numbers, as far as the panel's pointer arithmetic needs them.
 *
 * Finite values are exact reals (rounding is not modelled). The three IEEE
 * specials are kept because the hit-test divisions produce them when a control's
 * active area has zero width or height, and the source's branches react to them.
 */
module JsNumber {

  datatype Number = Finite(r: real) | PosInf | NegInf | NaN

  /** A slider position: what `Math.max(0, Math.min(v, 1))` can return. */
  type Unit = n: Number | n.NaN? || (n.Finite? && 0.0 <= n.r <= 1.0) witness NaN

  predicate IsInteger(r: real)
  {
    r.Floor as real == r
  }

  /**
   * `a / b` on two finite operands. A zero divisor is a positive zero here: it is
   * always a difference of two equal coordinates.
   */
  function Div(a: real, b: real): (q: Number)
    ensures q.Finite? <==> b != 0.0
    ensures q.Finite? ==> q.r == a / b
    ensures q == PosInf <==> b == 0.0 && a > 0.0
    ensures q == NegInf <==> b == 0.0 && a < 0.0
    ensures q.NaN? <==> a == 0.0 && b == 0.0
  {
    if b != 0.0 then Finite(a / b)
    else if a > 0.0 then PosInf
    else if a < 0.0 then NegInf
    else NaN
  }

  /** A quotient of a part by a positive whole lies in [0, 1]. */
  lemma QuotientInUnit(a: real, b: real)
    ensures 0.0 <= a <= b && b > 0.0 ==> 0.0 <= a / b <= 1.0
  {
    if 0.0 <= a <= b && b > 0.0 {
      assert a / b * b == a;
    }
  }

  /** `k * x` for a positive finite `k`: the sign of an infinity is kept, NaN stays NaN. */
  function Scale(k: real, x: Number): (y: Number)
    requires k > 0.0
    ensures y.Finite? <==> x.Finite?
    ensures !x.Finite? ==> y == x
  {
    match x
    case Finite(r) => Finite(k * r)
    case _ => x
  }

  /** `Math.floor(x)`: the greatest integer not above a finite `x`; specials are returned as they are. */
  function Floor(x: Number): (y: Number)
    ensures x.Finite? ==> y.Finite? && IsInteger(y.r) && y.r <= x.r < y.r + 1.0
    ensures !x.Finite? ==> y == x
  {
    match x
    case Finite(r) => Finite(r.Floor as real)
    case _ => x
  }

  /** JavaScript's `a < b`: false whenever either side is NaN. */
  predicate Below(a: Number, b: Number)
  {
    match (a, b)
    case (NaN, _) => false
    case (_, NaN) => false
    case (NegInf, NegInf) => false
    case (NegInf, _) => true
    case (PosInf, _) => false
    case (Finite(x), Finite(y)) => x < y
    case (Finite(_), PosInf) => true
    case (Finite(_), NegInf) => false
  }

  /** JavaScript's `a >= b`: false whenever either side is NaN. */
  predicate AtLeast(a: Number, b: Number)
  {
    !a.NaN? && !b.NaN? && !Below(a, b)
  }

  /** `Math.min(a, b)`. */
  function Min(a: Number, b: Number): Number
  {
    if a.NaN? || b.NaN? then NaN else if Below(b, a) then b else a
  }

  /** `Math.max(a, b)`. */
  function Max(a: Number, b: Number): Number
  {
    if a.NaN? || b.NaN? then NaN else if Below(a, b) then b else a
  }

  /**
   * `Math.max(0, Math.min(v, 1))`, the normalisation every slider drag applies.
   * A finite ratio is clamped to [0, 1], an infinite one goes to the end it
   * points at, and NaN passes through.
   */
  function Clamp01(v: Number): (t: Unit)
    ensures t.NaN? <==> v.NaN?
    ensures v.Finite? ==> t == Finite(if v.r < 0.0 then 0.0 else if v.r > 1.0 then 1.0 else v.r)
    ensures v == PosInf ==> t == Finite(1.0)
    ensures v == NegInf ==> t == Finite(0.0)
  {
    Max(Finite(0.0), Min(v, Finite(1.0)))
  }

  /** `x` is an integer-valued number that indexes a list of length `n`. */
  predicate IsIndex(x: Number, n: int)
  {
    x.Finite? && IsInteger(x.r) && 0.0 <= x.r < n as real
  }

  /**
   * The range test `if (i < 0) ...; if (i >= n) ...;` on a floored number: what
   * passes both tests is either a valid index or NaN.
   */
  lemma FlooredIndexCases(x: Number, n: nat)
    ensures !Below(Floor(x), Finite(0.0)) && !AtLeast(Floor(x), Finite(n as real))
            <==> IsIndex(Floor(x), n) || x.NaN?
  {
  }
}
