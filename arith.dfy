/** Integer facts the templates' answers rest on: products of growing factors, and roots of factored quadratics. */
module Arith {

  /** Larger positive factors give a larger product. */
  lemma ProductGrows(a: int, b: int, c: int, d: int)
    requires 0 < c < a && 0 < d < b
    ensures c * d < a * b
  {
    assert a * b - c * d == a * (b - d) + d * (a - c);
    assert a * (b - d) > 0 && d * (a - c) > 0;
  }

  /** Two factors that both grow with t take a given product at exactly one t where both stay positive. */
  lemma ProductRootUnique(p: int, q: int, x: int, t: int)
    requires p + x > 0 && q + x > 0 && p + t > 0 && q + t > 0
    ensures (p + t) * (q + t) == (p + x) * (q + x) <==> t == x
  {
    if t < x {
      ProductGrows(p + x, q + x, p + t, q + t);
    } else if t > x {
      ProductGrows(p + t, q + t, p + x, q + x);
    }
  }

  /** A product is zero exactly when a factor is. */
  lemma ZeroProduct(u: int, v: int)
    ensures u * v == 0 <==> u == 0 || v == 0
  {
    if u != 0 && v != 0 {
      var au, av := if u > 0 then u else -u, if v > 0 then v else -v;
      assert u * v == au * av || u * v == -(au * av);
      assert au * av > 0;
    }
  }

  /** Both numbers, and only they, are roots of x² − Sx + P = 0. */
  lemma SumProductRoots(a: int, b: int, t: int)
    ensures t * t - (a + b) * t + a * b == 0 <==> t == a || t == b
  {
    assert t * t - (a + b) * t + a * b == (t - a) * (t - b);
    ZeroProduct(t - a, t - b);
  }

  /** x² = a² holds exactly at x = a and x = −a. */
  lemma SquareRoots(a: int, t: int)
    ensures t * t == a * a <==> t == a || t == -a
  {
    assert t * t - a * a == (t - a) * (t + a);
    ZeroProduct(t - a, t + a);
  }

  /** Multiplication distributes over a sum on the right. */
  lemma Distrib(x: int, y: int, z: int)
    ensures x * (y + z) == x * y + x * z
  {
  }

  /** A factor of at least k, times a non-negative y, is at least k·y. */
  lemma MulLowerBound(x: int, k: int, y: int)
    requires x >= k && y >= 0
    ensures x * y >= k * y
  {
    assert x * y - k * y == (x - k) * y;
  }

  /** A multiple k·p of a positive p strictly between −p and 2p has k = 0 or k = 1. */
  lemma MultipleBetween(p: int, k: int)
    requires p > 0 && -p < p * k < 2 * p
    ensures 0 <= k <= 1
  {
    if k >= 2 {
      MulLowerBound(k, 2, p);
    } else if k <= -1 {
      MulLowerBound(-k, 1, p);
    }
  }
}
