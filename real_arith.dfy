/** Facts about division and multiplication of reals that the solver does
    not find unaided. */
module RealArith {

  lemma PositiveProduct(x: real, y: real)
    requires 0.0 < x && 0.0 < y
    ensures 0.0 < x * y
  {
  }

  /** For a positive `t`, `p * t <= q * t` gives `p <= q`. */
  lemma ProductOrder(p: real, q: real, t: real)
    requires 0.0 < t && p * t <= q * t
    ensures p <= q
  {
    if p > q {
      PositiveProduct(p - q, t);
    }
  }

  /** A quotient `q = x / t` multiplied back by `t` gives `x`. */
  lemma QuotientTimes(q: real, x: real, t: real)
    requires t != 0.0 && q == x / t
    ensures q * t == x
  {
  }

  /** Dividing by a positive `t` keeps the order. */
  lemma QuotientOrder(x: real, y: real, t: real)
    requires 0.0 < t && x <= y
    ensures x / t <= y / t
  {
    var p, q := x / t, y / t;
    assert p * t == x && q * t == y;
    ProductOrder(p, q, t);
  }

  lemma QuotientAtMostOne(x: real, y: real)
    requires 0.0 <= x <= y && 0.0 < y
    ensures 0.0 <= x / y <= 1.0
  {
    QuotientOrder(0.0, x, y);
    QuotientOrder(x, y, y);
  }

  lemma QuotientIsOne(x: real, y: real)
    requires 0.0 < y
    ensures x / y == 1.0 <==> x == y
  {
    if x / y == 1.0 {
      assert x == (x / y) * y;
    }
  }

  lemma QuotientIsZero(x: real, y: real)
    requires y != 0.0
    ensures x / y == 0.0 <==> x == 0.0
  {
    if x / y == 0.0 {
      assert x == (x / y) * y;
    }
  }

  /** Multiplying by a positive `t` keeps the order. */
  lemma ProductMonotone(p: real, q: real, t: real)
    requires 0.0 < t && p <= q
    ensures p * t <= q * t
  {
    if p < q {
      PositiveProduct(q - p, t);
    }
  }
}
