/**
 * Integer division as the period code does it: `MathTrunc(a / b)` rounds the
 * quotient toward zero, and JavaScript's `a % b` gives a remainder carrying the
 * sign of the dividend. Dafny's own `/` and `%` are Euclidean, so both are
 * written out here for a positive divisor.
 */
module Arith {

  /** `MathTrunc(a / b)`: the quotient rounded toward zero. */
  function Quot(a: int, b: int): (q: int)
    requires b > 0
    ensures 0 <= a ==> 0 <= q && b * q <= a
    ensures a <= 0 ==> q <= 0 && a <= b * q
  {
    if a >= 0 then a / b else -((-a) / b)
  }

  /** `a % b` in JavaScript: what is left after the truncated quotient. */
  function Rem(a: int, b: int): (r: int)
    requires b > 0
    ensures a == b * Quot(a, b) + r
    ensures -b < r < b
    ensures 0 <= a ==> 0 <= r
    ensures a <= 0 ==> r <= 0
  {
    a - b * Quot(a, b)
  }

  function Max(a: int, b: int): (m: int)
    ensures m >= a && m >= b && (m == a || m == b)
  {
    if a < b then b else a
  }

  /** The sign of an integer: -1, 0 or 1. */
  function Sgn(x: int): (s: int)
    ensures s == -1 <==> x < 0
    ensures s == 1 <==> x > 0
  {
    if x < 0 then -1 else if x > 0 then 1 else 0
  }

  lemma MulAtLeast(b: int, k: int)
    requires b > 0 && k >= 1
    ensures b * k >= b
  {
  }

  /** Euclidean division is determined by its defining equation. */
  lemma DivUnique(a: int, b: int, q: int, r: int)
    requires b > 0 && 0 <= r < b && a == b * q + r
    ensures a / b == q && a % b == r
  {
    var q', r' := a / b, a % b;
    assert b * (q - q') == r' - r;
    if q - q' >= 1 {
      MulAtLeast(b, q - q');
    } else if q' - q >= 1 {
      MulAtLeast(b, q' - q);
    }
  }

  /**
   * Truncating division is determined by its defining equation, a remainder
   * smaller than the divisor in magnitude, and a remainder that does not
   * oppose the dividend's sign.
   */
  lemma {:induction false} QuotRemUnique(a: int, b: int, q: int, r: int)
    requires b > 0 && a == b * q + r && -b < r < b
    requires 0 <= a ==> 0 <= r
    requires a <= 0 ==> r <= 0
    ensures Quot(a, b) == q && Rem(a, b) == r
  {
    if a >= 0 {
      DivUnique(a, b, q, r);
    } else {
      DivUnique(-a, b, -q, -r);
    }
  }

  /** Truncating division commutes with negation (it is odd). */
  lemma QuotRemNeg(a: int, b: int)
    requires b > 0
    ensures Quot(-a, b) == -Quot(a, b) && Rem(-a, b) == -Rem(a, b)
  {
  }
}
