/**
  * Python's `fractions.Fraction` on non-negative values: every fraction is kept in lowest terms
  * with a positive denominator, so two fractions print alike exactly when they are equal.
  */
module Fractions {
  import opened Text

  /** The greatest common divisor `math.gcd` returns, found by repeated subtraction. */
  function Gcd(a: nat, b: nat): nat
    decreases a + b
  {
    if a == 0 then b
    else if b == 0 then a
    else if a >= b then Gcd(a - b, b)
    else Gcd(a, b - a)
  }

  /** The divisor found is positive unless both arguments are zero, and divides both. */
  lemma {:induction false} GcdDivides(a: nat, b: nat)
    ensures Gcd(a, b) > 0 <==> a > 0 || b > 0
    ensures Gcd(a, b) > 0 ==> a % Gcd(a, b) == 0 && b % Gcd(a, b) == 0
    decreases a + b
  {
    if a == 0 {
      if b > 0 {
        DivisorOf(0, b, 0);
        DivisorOf(b, b, 1);
      }
    } else if b == 0 {
      DivisorOf(0, a, 0);
      DivisorOf(a, a, 1);
    } else if a >= b {
      GcdDivides(a - b, b);
      SumMultiple(a - b, b, Gcd(a - b, b));
    } else {
      GcdDivides(a, b - a);
      SumMultiple(a, b - a, Gcd(a, b - a));
    }
  }

  /** A common divisor of x and y divides x + y. */
  lemma SumMultiple(x: int, y: int, g: int)
    requires g > 0 && x % g == 0 && y % g == 0
    ensures (x + y) % g == 0
  {
    var u, v := x / g, y / g;
    assert x == g * u && y == g * v;
    assert x + y == g * (u + v);
    DivisorOf(x + y, g, u + v);
  }

  /** a == g * m with g positive makes g a divisor of a. */
  lemma DivisorOf(a: int, g: int, m: int)
    requires g > 0 && a == g * m
    ensures a % g == 0 && a / g == m
  {
    DivModUnique(a, g, m, 0);
  }

  /** Euclidean division has exactly one quotient and remainder. */
  lemma DivModUnique(a: int, b: int, q: int, r: int)
    requires b > 0 && a == b * q + r && 0 <= r < b
    ensures a / b == q && a % b == r
  {
    var q', r' := a / b, a % b;
    assert a == b * q' + r';
    MulSub(b, q, q');
    SmallMultipleIsZero(b, q - q');
  }

  lemma MulSub(b: int, x: int, y: int)
    ensures b * x - b * y == b * (x - y)
  {
  }

  /** A multiple of b strictly between -b and b is zero. */
  lemma SmallMultipleIsZero(b: int, t: int)
    requires b > 0 && -b < b * t < b
    ensures t == 0
  {
    MulAtLeast(b, t);
    MulAtLeast(b, -t);
  }

  lemma MulAtLeast(b: int, t: int)
    ensures b > 0 && t > 0 ==> b * t >= b
  {
    if b > 0 && t > 0 {
      assert b * t == b * (t - 1) + b;
      MulAtLeast(b, t - 1);
    }
  }

  lemma PositiveProduct(x: int, y: int)
    requires x > 0 && y > 0
    ensures x * y > 0
  {
    MulAtLeast(x, y);
  }

  /** A positive common factor cancels. */
  lemma CancelFactor(x: int, y: int, k: int)
    requires k > 0 && x * k == y * k
    ensures x == y
  {
    MulSub(k, x, y);
    SmallMultipleIsZero(k, x - y);
  }

  /** Equal arguments give equal divisors. */
  lemma GcdArgs(a: nat, b: nat, a': nat, b': nat)
    requires a == a' && b == b'
    ensures Gcd(a, b) == Gcd(a', b')
  {
  }

  /** Scaling both arguments scales the divisor: gcd(k*x, k*y) == k*gcd(x, y). */
  lemma {:induction false} GcdScale(k: nat, x: nat, y: nat)
    ensures Gcd(k * x, k * y) == k * Gcd(x, y)
    decreases x + y
  {
    if k == 0 {
      assert k * x == 0 && k * y == 0;
    } else if x == 0 {
      assert k * x == 0;
    } else if y == 0 {
      assert k * y == 0;
    } else if x >= y {
      ScaleDiff(k, x, y);
      GcdScale(k, x - y, y);
      GcdArgs(k * x - k * y, k * y, k * (x - y), k * y);
    } else {
      ScaleDiff(k, y, x);
      GcdScale(k, x, y - x);
      GcdArgs(k * x, k * y - k * x, k * x, k * (y - x));
    }
  }

  /** For k, y > 0 and x ≥ y: k·x ≥ k·y > 0 and k·x − k·y = k·(x − y). */
  lemma ScaleDiff(k: nat, x: nat, y: nat)
    requires k > 0 && x >= y > 0
    ensures k * x >= k * y > 0 && k * x - k * y == k * (x - y)
  {
    PositiveProduct(k, y);
    MulSub(k, x, y);
  }

  /** `GcdScale` stated on products already multiplied out. */
  lemma GcdScaleAt(k: nat, x: nat, y: nat, kx: nat, ky: nat)
    requires kx == k * x && ky == k * y
    ensures Gcd(kx, ky) == k * Gcd(x, y)
  {
    GcdScale(k, x, y);
  }

  /** A fraction in lowest terms. */
  datatype Frac = Frac(num: nat, den: nat)

  predicate Normalized(f: Frac) {
    f.den > 0 && Gcd(f.num, f.den) == 1
  }

  /** `x * y` on naturals; a product of positive numbers is positive. */
  function Times(x: nat, y: nat): (r: nat)
    ensures x > 0 && y > 0 ==> r > 0
  {
    x * y
  }

  /** `n // g` on naturals, by repeated subtraction. */
  function Quot(n: nat, g: nat): nat
    requires g > 0
    decreases n
  {
    if n < g then 0 else 1 + Quot(n - g, g)
  }

  /** Repeated subtraction finds Euclidean division's quotient. */
  lemma {:induction false} QuotIsDiv(n: nat, g: nat)
    requires g > 0
    ensures Quot(n, g) == n / g
    decreases n
  {
    if n < g {
      DivModUnique(n, g, 0, n);
    } else {
      QuotIsDiv(n - g, g);
      var q, r := (n - g) / g, (n - g) % g;
      assert n - g == g * q + r;
      assert n == g * (q + 1) + r;
      DivModUnique(n, g, q + 1, r);
    }
  }

  /** `Fraction(n, d)` for n >= 0 and d > 0: both divided by their greatest common divisor. */
  function MakeFrac(n: nat, d: nat): Frac
    requires d > 0
  {
    GcdDivides(n, d);
    Frac(Quot(n, Gcd(n, d)), Quot(d, Gcd(n, d)))
  }

  /** The constructed fraction is in lowest terms and has the value n/d. */
  lemma MakeFracFacts(n: nat, d: nat)
    requires d > 0
    ensures Normalized(MakeFrac(n, d))
    ensures n * MakeFrac(n, d).den == MakeFrac(n, d).num * d
  {
    var g := Gcd(n, d);
    GcdDivides(n, d);
    QuotIsDiv(n, g);
    QuotIsDiv(d, g);
    ReduceFacts(n, d, g);
  }

  /** Dividing n and d by g = gcd(n, d) leaves a pair in lowest terms with the same value. */
  lemma ReduceFacts(n: nat, d: nat, g: nat)
    requires d > 0 && g == Gcd(n, d)
    ensures g > 0 && d / g > 0
    ensures Gcd(n / g, d / g) == 1
    ensures n * (d / g) == (n / g) * d
  {
    GcdDivides(n, d);
    var x, y := n / g, d / g;
    QuotientParts(n, d, g);
    GcdScaleAt(g, x, y, n, d);
    CancelFactor(Gcd(x, y), 1, g);
    Regroup(g, x, y);
  }

  /** Dividing exactly by a positive g: n = g·(n/g), d = g·(d/g), and d/g stays positive. */
  lemma QuotientParts(n: nat, d: nat, g: nat)
    requires g > 0 && d > 0 && n % g == 0 && d % g == 0
    ensures n == g * (n / g) && d == g * (d / g) && d / g > 0
  {
  }

  /** (g·x)·y == x·(g·y). */
  lemma Regroup(g: int, x: int, y: int)
    ensures (g * x) * y == x * (g * y)
  {
  }

  /** Two fractions in lowest terms with equal cross products are the same pair. */
  lemma NormalizedUnique(f1: Frac, f2: Frac)
    requires Normalized(f1) && Normalized(f2)
    requires f1.num * f2.den == f2.num * f1.den
    ensures f1 == f2
  {
    var a, b, c, d := f1.num, f1.den, f2.num, f2.den;
    var p, q := d * a, d * b;
    assert p == b * c && q == b * d;
    GcdScaleAt(d, a, b, p, q);
    GcdScaleAt(b, c, d, p, q);
    CancelFactor(a, c, d);
  }

  /** Multiplying equals by the same factor gives equals. */
  lemma MulEq(x: int, x': int, y: int)
    requires x == x'
    ensures x * y == x' * y
  {
  }

  /** (a·b)·(c·d) regrouped in the two other ways. */
  lemma Regroup4(a: int, b: int, c: int, d: int)
    ensures (a * b) * (c * d) == (a * c) * (b * d)
    ensures (a * b) * (c * d) == (a * d) * (b * c)
  {
  }

  /** Reduced forms of fractions with equal cross products have equal cross products, times d1 * d2. */
  lemma CrossReduced(n1: int, d1: int, p1: int, q1: int, n2: int, d2: int, p2: int, q2: int)
    requires n1 * q1 == p1 * d1 && n2 * q2 == p2 * d2 && n1 * d2 == n2 * d1
    ensures (p1 * q2) * (d1 * d2) == (p2 * q1) * (d1 * d2)
  {
    calc {
      (p1 * q2) * (d1 * d2);
      == { Regroup4(p1, q2, d1, d2); }
      (p1 * d1) * (q2 * d2);
      == { MulEq(p1 * d1, n1 * q1, q2 * d2); }
      (n1 * q1) * (q2 * d2);
      == { Regroup4(n1, q1, q2, d2); }
      (n1 * d2) * (q1 * q2);
      == { MulEq(n1 * d2, n2 * d1, q1 * q2); }
      (n2 * d1) * (q1 * q2);
      == { Regroup4(n2, d1, q1, q2); }
      (n2 * q2) * (d1 * q1);
      == { MulEq(n2 * q2, p2 * d2, d1 * q1); }
      (p2 * d2) * (d1 * q1);
      == { Regroup4(p2, d2, d1, q1); }
      (p2 * q1) * (d2 * d1);
    }
  }

  /** Equal reduced forms come from fractions whose cross products agree, times q. */
  lemma CrossOriginal(n1: int, d1: int, n2: int, d2: int, p: int, q: int)
    requires n1 * q == p * d1 && n2 * q == p * d2
    ensures (n1 * d2) * q == (n2 * d1) * q
  {
    calc {
      (n1 * d2) * q;
      == { Regroup(n1, d2, q); }
      d2 * (n1 * q);
      == { MulEq(n1 * q, p * d1, d2); }
      d2 * (p * d1);
      == { Regroup(p, d1, d2); }
      d1 * (p * d2);
      == { MulEq(p * d2, n2 * q, d1); }
      d1 * (n2 * q);
      == { Regroup(n2, d1, q); }
      (n2 * d1) * q;
    }
  }

  /** `Fraction(n1, d1) == Fraction(n2, d2)` exactly when the cross products agree. */
  lemma MakeFracEq(n1: nat, d1: nat, n2: nat, d2: nat)
    requires d1 > 0 && d2 > 0
    ensures MakeFrac(n1, d1) == MakeFrac(n2, d2) <==> n1 * d2 == n2 * d1
  {
    var f1, f2 := MakeFrac(n1, d1), MakeFrac(n2, d2);
    MakeFracFacts(n1, d1);
    MakeFracFacts(n2, d2);
    if n1 * d2 == n2 * d1 {
      CrossReduced(n1, d1, f1.num, f1.den, n2, d2, f2.num, f2.den);
      PositiveProduct(d1, d2);
      CancelFactor(f1.num * f2.den, f2.num * f1.den, d1 * d2);
      NormalizedUnique(f1, f2);
    }
    if f1 == f2 {
      CrossOriginal(n1, d1, n2, d2, f1.num, f1.den);
      CancelFactor(n1 * d2, n2 * d1, f1.den);
    }
  }

  /** `x * y` on fractions: the product of the parts, reduced. */
  function Mul(x: Frac, y: Frac): Frac
    requires x.den > 0 && y.den > 0
  {
    PositiveProduct(x.den, y.den);
    MakeFrac(x.num * y.num, x.den * y.den)
  }

  /** Multiplying two constructed fractions is the fraction of the products. */
  lemma MulMakeFrac(a: nat, b: nat, c: nat, d: nat)
    requires b > 0 && d > 0
    ensures b * d > 0 && MakeFrac(a, b).den > 0 && MakeFrac(c, d).den > 0
    ensures Mul(MakeFrac(a, b), MakeFrac(c, d)) == MakeFrac(a * c, b * d)
  {
    var x, y := MakeFrac(a, b), MakeFrac(c, d);
    MakeFracFacts(a, b);
    MakeFracFacts(c, d);
    PositiveProduct(x.den, y.den);
    PositiveProduct(b, d);
    MakeFracEq(x.num * y.num, x.den * y.den, a * c, b * d);
    CrossProduct(x.num, x.den, a, b, y.num, y.den, c, d);
  }

  /** Cross-multiplied equalities for two fractions multiply into one for their product. */
  lemma CrossProduct(xn: int, xd: int, a: int, b: int, yn: int, yd: int, c: int, d: int)
    requires a * xd == xn * b && c * yd == yn * d
    ensures (xn * yn) * (b * d) == (a * c) * (xd * yd)
  {
    calc {
      (xn * yn) * (b * d);
      == { Regroup4(xn, yn, b, d); }
      (xn * b) * (yn * d);
      == { MulEq(xn * b, a * xd, yn * d); }
      (a * xd) * (yn * d);
      == { MulEq(yn * d, c * yd, a * xd); }
      (a * xd) * (c * yd);
      == { Regroup4(a, xd, c, yd); }
      (a * c) * (xd * yd);
    }
  }

  /** `f"{x.numerator}/{x.denominator}"`. */
  function FracStr(f: Frac): string {
    IntStr(f.num) + "/" + IntStr(f.den)
  }

  /** Printing loses nothing: two pairs print alike exactly when they are the same pair. */
  lemma FracStrInjective(f: Frac, g: Frac)
    ensures FracStr(f) == FracStr(g) <==> f == g
  {
    assert FracStr(f) == Fmt2("", f.num, "/", f.den, "");
    assert FracStr(g) == Fmt2("", g.num, "/", g.den, "");
    Fmt2Injective("", f.num, "/", f.den, "", g.num, g.den);
  }

  /** Two fractions print alike exactly when their values are equal. */
  lemma FracStrEq(n1: nat, d1: nat, n2: nat, d2: nat)
    requires d1 > 0 && d2 > 0
    ensures FracStr(MakeFrac(n1, d1)) == FracStr(MakeFrac(n2, d2)) <==> n1 * d2 == n2 * d1
  {
    FracStrInjective(MakeFrac(n1, d1), MakeFrac(n2, d2));
    MakeFracEq(n1, d1, n2, d2);
  }
}
