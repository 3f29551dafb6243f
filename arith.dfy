/**
 * Small facts about real multiplication that the solver does not find on
 * its own; every module that multiplies two unknowns uses them.
 */
module Arith {

  function Abs(x: real): (r: real)
    ensures r >= 0.0
    ensures r == x || r == -x
  {
    if x < 0.0 then -x else x
  }

  lemma Square(x: real)
    ensures x * x >= 0.0
  {
    if x < 0.0 {
      assert x * x == (-x) * (-x);
    }
  }

  lemma PositiveProduct(x: real, y: real)
    requires x > 0.0 && y > 0.0
    ensures x * y > 0.0
  {
  }

  lemma NonNegativeProduct(x: real, y: real)
    requires x >= 0.0 && y >= 0.0
    ensures x * y >= 0.0
  {
    if x > 0.0 && y > 0.0 {
      PositiveProduct(x, y);
    }
  }

  /** A factor s > 0 can be cancelled from both sides of an equation. */
  lemma CancelPositive(r: real, c: real, s: real)
    requires s > 0.0 && r * s == c * s
    ensures r == c
  {
    if r != c {
      assert false;
    }
  }

  /** Multiplying by s > 0 keeps an inequality. */
  lemma MultiplyPositive(r: real, c: real, s: real)
    requires s > 0.0 && r <= c
    ensures r * s <= c * s
  {
    if r < c {
      assert (c - r) * s == c * s - r * s;
      PositiveProduct(c - r, s);
    }
  }

  /** Multiplying by s > 0 keeps a strict inequality. */
  lemma MultiplyPositiveStrict(r: real, c: real, s: real)
    requires s > 0.0 && r < c
    ensures r * s < c * s
  {
    assert (c - r) * s == c * s - r * s;
    PositiveProduct(c - r, s);
  }

  /** A product with a positive factor is non-negative only if the other factor is. */
  lemma NonNegativeFactor(x: real, y: real)
    requires y > 0.0 && x * y >= 0.0
    ensures x >= 0.0
  {
    if x < 0.0 {
      PositiveProduct(-x, y);
      assert false;
    }
  }

  lemma NonNegativeQuotient(s: real, n: real)
    requires n > 0.0 && s >= 0.0
    ensures s / n >= 0.0
  {
    var q := s / n;
    assert q * n == s;
    NonNegativeFactor(q, n);
  }

  /** A count out of n, as a fraction, lies in [0, 1]. */
  lemma FractionBounds(s: real, n: real)
    requires n > 0.0 && 0.0 <= s <= n
    ensures 0.0 <= s / n <= 1.0
  {
    var q := s / n;
    assert (1.0 - q) * n == n - s;
    NonNegativeFactor(1.0 - q, n);
    NonNegativeQuotient(s, n);
  }

  /** Division by a positive number keeps order. */
  lemma DivideMonotone(a: real, b: real, n: real)
    requires n > 0.0 && a <= b
    ensures a / n <= b / n
  {
    var qa, qb := a / n, b / n;
    assert (qb - qa) * n == b - a;
    NonNegativeFactor(qb - qa, n);
  }

  /** (s + n c) / n == s / n + c. */
  lemma QuotientShift(s: real, n: real, c: real)
    requires n > 0.0
    ensures (s + n * c) / n == s / n + c
  {
    var q := s / n;
    assert q * n == s;
    assert ((s + n * c) / n) * n == s + n * c;
    assert (q + c) * n == s + n * c;
    CancelPositive((s + n * c) / n, q + c, n);
  }

  /** The reciprocal is strictly decreasing on positive numbers. */
  lemma ReciprocalDecreasing(a: real, b: real)
    requires 0.0 < a < b
    ensures 1.0 / b < 1.0 / a
  {
    var x, y := 1.0 / a, 1.0 / b;
    assert x * a == 1.0 && y * b == 1.0;
    PositiveProduct(x, b - a);
    assert x * (b - a) == x * b - x * a;
    if y >= x {
      MultiplyPositive(x, y, b);
      assert false;
    }
  }
}
