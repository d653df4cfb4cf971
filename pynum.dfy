/** Python's numeric built-ins that the generators apply to exact values: `round`, `int`, `**`, `//`. */
module PyNum {
  import Fractions
  import Arith

  /** Python's `round(x)` to an integer: to the nearest integer, ties to the even one. */
  function RoundHalfEven(x: real): (r: int)
    ensures -(1.0 / 2.0) <= r as real - x <= 1.0 / 2.0
    ensures r as real - x == 1.0 / 2.0 || x - r as real == 1.0 / 2.0 ==> r % 2 == 0
  {
    var f := x.Floor;
    var frac := x - f as real;
    if frac < 1.0 / 2.0 then f
    else if frac > 1.0 / 2.0 then f + 1
    else if f % 2 == 0 then f
    else f + 1
  }

  /** Rounding an exact integer gives it back. */
  lemma RoundOfInt(n: int)
    ensures RoundHalfEven(n as real) == n
  {
  }

  /** Any integer nearer than one half to x is the rounded value. */
  lemma RoundNearest(x: real, n: int)
    requires -(1.0 / 2.0) < n as real - x < 1.0 / 2.0
    ensures RoundHalfEven(x) == n
  {
    var r := RoundHalfEven(x);
    assert -(1.0) < (r - n) as real < 1.0;
  }

  /** A float more than one half inside (lo, hi) rounds to an integer strictly inside. */
  lemma RoundBetween(x: real, lo: int, hi: int)
    requires lo as real + 1.0 / 2.0 < x < hi as real - 1.0 / 2.0
    ensures lo < RoundHalfEven(x) < hi
  {
  }

  /**
    * Python's `round(n / d)` where the float quotient is exact (every quotient the templates
    * round is a small dyadic fraction): the nearest integer, ties to the even one, on integers.
    */
  function RoundDiv(n: int, d: int): int
    requires d > 0
  {
    var q, m := n / d, n % d;
    if 2 * m < d then q else if 2 * m > d then q + 1 else if q % 2 == 0 then q else q + 1
  }

  /** It is `round` applied to the exact quotient n / d. */
  lemma RoundDivIsRound(n: int, d: int)
    requires d > 0
    ensures RoundDiv(n, d) == RoundHalfEven(n as real / d as real)
  {
    var q, m := n / d, n % d;
    var x := n as real / d as real;
    assert (d * q) as real == d as real * q as real;
    assert x == q as real + m as real / d as real;
    assert 0.0 <= m as real / d as real < 1.0;
    assert x.Floor == q;
    assert 1.0 / 2.0 == (d as real / 2.0) / d as real;
    DivMonotone(m as real, d as real / 2.0, d as real);
    DivMonotone(d as real / 2.0, m as real, d as real);
  }

  /** Dividing by a positive number keeps the order. */
  lemma DivMonotone(x: real, y: real, d: real)
    requires d > 0.0
    ensures x / d < y / d <==> x < y
  {
    assert x / d - y / d == (x - y) / d;
  }

  /** An exact quotient rounds to itself. */
  lemma RoundDivExact(n: int, d: int, k: int)
    requires d > 0 && n == d * k
    ensures RoundDiv(n, d) == k
  {
    Fractions.DivModUnique(n, d, k, 0);
  }

  /** The rounded quotient r is within one half of n / d: |n − d·r| ≤ d / 2. */
  lemma RoundDivBounds(n: int, d: int)
    requires d > 0
    ensures 2 * (n - d * RoundDiv(n, d)) <= d && 2 * (d * RoundDiv(n, d) - n) <= d
  {
    var q, m := n / d, n % d;
    assert n == d * q + m;
    assert d * (q + 1) == d * q + d;
  }

  /** A quotient less than one half away from q rounds to q. */
  lemma RoundDivNear(n: int, d: int, q: int)
    requires d > 0 && -d < 2 * (n - d * q) < d
    ensures RoundDiv(n, d) == q
  {
    var r := RoundDiv(n, d);
    RoundDivBounds(n, d);
    assert d * (r - q) == (n - d * q) - (n - d * r);
    Arith.MultipleBetween(d, r - q);
  }

  /** A quotient within one below q rounds to q − 1 or q. */
  lemma RoundDivBelow(n: int, d: int, q: int)
    requires d > 0 && -d < n - d * q <= 0
    ensures q - 1 <= RoundDiv(n, d) <= q
  {
    var r := RoundDiv(n, d);
    RoundDivBounds(n, d);
    assert d * (q - r) == (n - d * r) - (n - d * q);
    Arith.MultipleBetween(d, q - r);
  }

  /** Python's `int(x)` on a float: truncation toward zero. */
  function Trunc(x: real): (r: int)
    ensures 0.0 <= x ==> r as real <= x < r as real + 1.0
    ensures x < 0.0 ==> r as real - 1.0 < x <= r as real
  {
    if x >= 0.0 then x.Floor else -((-x).Floor)
  }

  /** Python's `b ** e` on ints with a non-negative exponent. */
  function Pow(b: int, e: nat): int
    decreases e
  {
    if e == 0 then 1 else b * Pow(b, e - 1)
  }

  /** A positive base keeps every power positive. */
  lemma {:induction false} PowPositive(b: int, e: nat)
    requires b > 0
    ensures Pow(b, e) > 0
    decreases e
  {
    if e > 0 {
      PowPositive(b, e - 1);
    }
  }

  /** Powers of a base of at least 2 grow with the exponent. */
  lemma {:induction false} PowGrows(b: int, e: nat)
    requires b >= 2
    ensures Pow(b, e + 1) >= 2 * Pow(b, e) && Pow(b, e) >= e + 1
    decreases e
  {
    PowPositive(b, e);
    if e > 0 {
      PowGrows(b, e - 1);
    }
  }
}
