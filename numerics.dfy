/**
  The two host math functions the valuation rules call, in exact real arithmetic:
  `Math.pow` with an integer exponent, and `Math.sqrt`, which is not defined here
  but passed in and characterised by what a square root is.
 */
module Numerics {

  /** `Math.pow(b, n)` for a natural exponent. */
  function Pow(b: real, n: nat): (r: real)
    ensures b != 0.0 ==> r != 0.0
    ensures b > 0.0 ==> r > 0.0
  {
    if n == 0 then 1.0
    else
      var p := Pow(b, n - 1);
      assert b > 0.0 ==> b * p > 0.0 by {
        if b > 0.0 { PositiveProduct(b, p); }
      }
      b * p
  }

  /** `Math.pow(b, n)` for any integer exponent; a negative exponent divides. */
  function IntPow(b: real, n: int): (r: real)
    requires n < 0 ==> b != 0.0
    ensures b != 0.0 ==> r != 0.0
    ensures b > 0.0 ==> r > 0.0
    ensures n >= 0 ==> r == Pow(b, n)
    ensures n < 0 ==> r * Pow(b, -n) == 1.0
  {
    if n >= 0 then Pow(b, n) else 1.0 / Pow(b, -n)
  }

  lemma PositiveProduct(x: real, y: real)
    requires x > 0.0 && y > 0.0
    ensures x * y > 0.0
  {}

  /** Raising a quotient to a power is the quotient of the powers. */
  lemma {:induction false} PowQuotient(a: real, b: real, n: nat)
    requires b != 0.0
    ensures Pow(a, n) / Pow(b, n) == Pow(a / b, n)
  {
    if n > 0 {
      PowQuotient(a, b, n - 1);
      var pa, pb := Pow(a, n - 1), Pow(b, n - 1);
      assert pa / pb == Pow(a / b, n - 1);
      assert Pow(a, n) == a * pa && Pow(b, n) == b * pb;
      calc {
        Pow(a, n) / Pow(b, n);
        { QuotientOfProducts(a, b, pa, pb); }
        (a / b) * (pa / pb);
        (a / b) * Pow(a / b, n - 1);
        Pow(a / b, n);
      }
    }
  }

  lemma QuotientOfProducts(a: real, b: real, c: real, d: real)
    requires b != 0.0 && d != 0.0
    ensures (a * c) / (b * d) == (a / b) * (c / d)
  {
    var x, y := a / b, c / d;
    assert a == x * b && c == y * d;
    assert a * c == (x * y) * (b * d);
  }

  /** A power of 1 is 1. */
  lemma {:induction false} PowOne(n: nat)
    ensures Pow(1.0, n) == 1.0
  {
    if n > 0 { PowOne(n - 1); }
  }

  /** `s` is the non-negative square root of `x`. */
  predicate IsSquareRoot(s: real, x: real)
  {
    s >= 0.0 && s * s == x
  }

  /**
    What the valuation rules rely on of `Math.sqrt` at the point `x` where they call it:
    for a positive argument it returns the non-negative square root.
   */
  predicate SqrtAt(sqrt: real -> real, x: real)
  {
    x > 0.0 ==> IsSquareRoot(sqrt(x), x)
  }

  /** The non-negative square root is unique, so any `sqrt` meeting `SqrtAt` agrees there. */
  lemma SquareRootUnique(s: real, t: real, x: real)
    requires IsSquareRoot(s, x) && IsSquareRoot(t, x)
    ensures s == t
  {
    assert (s - t) * (s + t) == s * s - t * t == 0.0;
    ProductIsZero(s - t, s + t);
  }

  lemma ProductIsZero(x: real, y: real)
    requires x * y == 0.0
    ensures x == 0.0 || y == 0.0
  {}
}
