/**
  * The sequence-and-series templates: the nth term and the sum of the first n terms of an
  * arithmetic and of a geometric progression. Every option is a number printed with
  * `str(fmt(x))`, where `fmt(x)` is `int(round(x))`; sums are keyed C and nth terms B.
  */
module SequenceSeries {
  import opened Text
  import opened Mcq
  import opened PyNum
  import opened Arith
  import Fractions

  const Chapter_ := Chapter(
    "sequence_series",
    "You are an NEB Grade 10 Mathematics question generator. Output MUST be STRICT JSON only. No extra text.",
    "You are an NEB Grade 10 Mathematics tutor. Output MUST be STRICT JSON only. No extra text.",
    "Sequence and Series",
    "- Create ONE NEB-style word problem.\n- Provide 4 options (A,B,C,D).\n- Exactly ONE option is correct.\n"
    + "- The 3 wrong options must be based on common student mistakes.\n- Include a short answer_explanation.\n"
    + "- Include distractor_rationales for wrong options with mistake tag and why.\n"
    + "Return JSON only with keys: question, options, correct_option, answer_explanation, distractor_rationales, meta.",
    "Solve with full steps:\n",
    "Required value")

  // ---------------------------------------------------------------------------
  // Reference definitions: the progressions term by term
  // ---------------------------------------------------------------------------

  /** The nth term (n ≥ 1) of the arithmetic sequence a, a + d, a + 2d, … */
  function ArithmeticTerm(a: int, d: int, n: nat): int
    requires n >= 1
  {
    if n == 1 then a else ArithmeticTerm(a, d, n - 1) + d
  }

  /** The sum of the first n terms of the arithmetic sequence. */
  function ArithmeticSeries(a: int, d: int, n: nat): int {
    if n == 0 then 0 else ArithmeticSeries(a, d, n - 1) + ArithmeticTerm(a, d, n)
  }

  /** The nth term (n ≥ 1) of the geometric sequence a, ar, ar², … */
  function GeometricTerm(a: int, r: int, n: nat): int
    requires n >= 1
  {
    if n == 1 then a else GeometricTerm(a, r, n - 1) * r
  }

  /** The sum of the first n terms of the geometric sequence. */
  function GeometricSeries(a: int, r: int, n: nat): int {
    if n == 0 then 0 else GeometricSeries(a, r, n - 1) + GeometricTerm(a, r, n)
  }

  /** tn = a + (n − 1)d. */
  lemma {:induction false} ArithmeticTermClosed(a: int, d: int, n: nat)
    requires n >= 1
    ensures ArithmeticTerm(a, d, n) == a + (n - 1) * d
    decreases n
  {
    if n > 1 {
      ArithmeticTermClosed(a, d, n - 1);
    }
  }

  /** Twice the sum of the first n terms is n(a + tn): Sn = n/2 (a + tn). */
  lemma {:induction false} ArithmeticSeriesClosed(a: int, d: int, n: nat)
    ensures 2 * ArithmeticSeries(a, d, n) == n * (2 * a + (n - 1) * d)
    decreases n
  {
    if n > 0 {
      ArithmeticSeriesClosed(a, d, n - 1);
      ArithmeticTermClosed(a, d, n);
      assert (n - 1) * (2 * a + (n - 2) * d) + 2 * (a + (n - 1) * d) == n * (2 * a + (n - 1) * d);
    }
  }

  /** tn = a·r^(n−1). */
  lemma {:induction false} GeometricTermClosed(a: int, r: int, n: nat)
    requires n >= 1
    ensures GeometricTerm(a, r, n) == a * Pow(r, n - 1)
    decreases n
  {
    if n > 1 {
      GeometricTermClosed(a, r, n - 1);
      assert a * Pow(r, n - 2) * r == a * (r * Pow(r, n - 2));
    }
  }

  /** The step of the geometric closed form: from (r − 1)·g = a(p − 1) to (r − 1)(g + ap) = a(rp − 1). */
  lemma GeometricStep(a: int, r: int, g: int, p: int)
    requires (r - 1) * g == a * (p - 1)
    ensures (r - 1) * (g + a * p) == a * (r * p - 1)
  {
    Distrib(r - 1, g, a * p);
    assert (r - 1) * (a * p) == a * (r * p) - a * p by {
      Distrib(a * p, r, -1);
      assert (a * p) * r == a * (r * p);
    }
    Distrib(a, p, -1);
    Distrib(a, r * p, -1);
  }

  /** (r − 1)·Sn = a(rⁿ − 1). */
  lemma {:induction false} GeometricSeriesClosed(a: int, r: int, n: nat)
    ensures (r - 1) * GeometricSeries(a, r, n) == a * (Pow(r, n) - 1)
    decreases n
  {
    if n > 0 {
      GeometricSeriesClosed(a, r, n - 1);
      GeometricTermClosed(a, r, n);
      GeometricStep(a, r, GeometricSeries(a, r, n - 1), Pow(r, n - 1));
    }
  }

  /** `int` to `float` commutes with products of exact values. */
  lemma CastMul(x: int, y: int)
    ensures (x * y) as real == (x as real) * (y as real)
  {
  }

  /** `n / 2 * m` in floats is the exact quotient (n·m) / 2. */
  lemma HalfProduct(n: int, m: int)
    ensures (n as real / 2.0) * (m as real) == (n * m) as real / 2.0
  {
    CastMul(n, m);
  }

  // ---------------------------------------------------------------------------
  // gen_arithmetic_sum
  // ---------------------------------------------------------------------------

  /**
    * The four numbers A–D of `gen_arithmetic_sum` (forgot /2, used n for n − 1, Sn, Sn + d). The
    * source computes Sn = n/2 × (a + tn) in floats; each float it rounds is an exact half, written
    * here as the rounded quotient of an integer by 2 (HalfRound and HalfRoundPlus state the match).
    */
  function ArithmeticSumAnswers(a: int, d: int, n: int): (int, int, int, int) {
    var tn := a + (n - 1) * d;
    (n * (a + tn), RoundDiv(n * (2 * a + n * d), 2), RoundDiv(n * (a + tn), 2), RoundDiv(n * (a + tn) + 2 * d, 2))
  }

  /** `round(n / 2 * m)` on floats is the rounded exact quotient (n·m) / 2. */
  lemma HalfRound(n: int, m: int)
    ensures RoundDiv(n * m, 2) == RoundHalfEven((n as real / 2.0) * (m as real))
  {
    HalfProduct(n, m);
    RoundDivIsRound(n * m, 2);
  }

  /** `round(n / 2 * m + e)` on floats is the rounded exact quotient (n·m + 2e) / 2. */
  lemma HalfRoundPlus(n: int, m: int, e: int)
    ensures RoundDiv(n * m + 2 * e, 2) == RoundHalfEven((n as real / 2.0) * (m as real) + e as real)
  {
    HalfProduct(n, m);
    RoundDivIsRound(n * m + 2 * e, 2);
    assert (n * m + 2 * e) as real / 2.0 == (n * m) as real / 2.0 + e as real;
  }

  /** n(a + tn) is twice the sum of the first n terms, so Sn = n/2 (a + tn) is an integer and `fmt` loses nothing. */
  lemma ArithmeticSumExact(a: int, d: int, n: nat)
    ensures n * (a + (a + (n - 1) * d)) == 2 * ArithmeticSeries(a, d, n)
    ensures ArithmeticSumAnswers(a, d, n).2 == ArithmeticSeries(a, d, n)
  {
    ArithmeticSeriesClosed(a, d, n);
    var m := a + (a + (n - 1) * d);
    assert m == 2 * a + (n - 1) * d;
    RoundDivExact(n * m, 2, ArithmeticSeries(a, d, n));
  }

  /** The integer facts behind "used n for n − 1": n(2a + nd) = 2·Sn + nd, with nd > 2d + 1 and nd + 1 < 2·Sn. */
  lemma ArithmeticSumInts(a: int, d: int, n: nat)
    requires a >= 1 && d >= 2 && n >= 5
    ensures var s := ArithmeticSeries(a, d, n);
      && n * (2 * a + n * d) == 2 * s + n * d
      && 2 * d + 1 < n * d && n * d + 1 < 2 * s
  {
    ArithmeticSeriesClosed(a, d, n);
    var m := 2 * a + (n - 1) * d;
    Distrib(d, n - 1, 1);
    Distrib(n, m, d);
    Distrib(n, m - d, d);
    MulLowerBound(n, 5, d);
    MulLowerBound(n - 1, 1, d);
    MulLowerBound(n, 1, m - d);
  }

  /**
    * For positive a, d and n ≥ 5: A is twice the sum, C the sum, D the sum + d, and B lies strictly
    * between D and A.
    */
  lemma ArithmeticSumValues(a: int, d: int, n: nat)
    requires a >= 1 && d >= 2 && n >= 5
    ensures var t := ArithmeticSumAnswers(a, d, n);
      var s := ArithmeticSeries(a, d, n);
      && t.2 == s && t.0 == 2 * s && t.3 == s + d && s + d < t.1 < 2 * s
  {
    ArithmeticSumExact(a, d, n);
    var s := ArithmeticSeries(a, d, n);
    RoundDivExact(2 * s + 2 * d, 2, s + d);
    ArithmeticSumInts(a, d, n);
    RoundDivBounds(n * (2 * a + n * d), 2);
  }

  /** The question of `gen_arithmetic_sum`. */
  function ArithmeticSumQuestion(a: int, d: int, n: int): string {
    "Find the sum of first " + IntStr(n) + " terms of an arithmetic series with first term " + IntStr(a)
    + " and common difference " + IntStr(d) + "."
  }

  /** The values `gen_arithmetic_sum` draws: a ∈ {2, 3, 5, 10}, d ∈ {2, 3, 4, 5}, n ∈ {5, 8, 10, 12}. */
  predicate ArithmeticSumDraw(a: int, d: int, n: int) {
    a in {2, 3, 5, 10} && d in {2, 3, 4, 5} && n in {5, 8, 10, 12}
  }

  /** Over the drawn values the four numbers of `gen_arithmetic_sum` differ. */
  lemma ArithmeticSumDistinct(a: int, d: int, n: int)
    requires ArithmeticSumDraw(a, d, n)
    ensures var t := ArithmeticSumAnswers(a, d, n);
      Distinct4(t.0, t.1, t.2, t.3)
  {
    ArithmeticSumValues(a, d, n);
  }

  /** A is twice the sum and D the sum plus d, for every a, d and n. */
  lemma ArithmeticSumWrong(a: int, d: int, n: nat)
    ensures var t := ArithmeticSumAnswers(a, d, n);
      t.0 == 2 * ArithmeticSeries(a, d, n) && t.3 == ArithmeticSeries(a, d, n) + d
  {
    ArithmeticSumExact(a, d, n);
    var s := ArithmeticSeries(a, d, n);
    RoundDivExact(2 * s + 2 * d, 2, s + d);
  }

  /**
    * `gen_arithmetic_sum`, with a ∈ {2, 3, 5, 10}, d ∈ {2, 3, 4, 5} and n ∈ {5, 8, 10, 12} drawn:
    * C, the key, prints the sum Sn of the first n terms, A prints 2·Sn ("forgot /2"), B the sum
    * with n for n − 1 and D prints Sn + d; the four options differ, so exactly one is correct, and
    * the solve record answers "Sn = " and the sum.
    */
  function ArithmeticSum(a: int, d: int, n: int, difficulty: int): (rows: seq<Row>)
    requires ArithmeticSumDraw(a, d, n)
    ensures Answers(rows, C, IntStr(ArithmeticSeries(a, d, n)), "Sn = " + IntStr(ArithmeticSeries(a, d, n)))
    ensures Unambiguous(rows)
    ensures Shows(rows, A, IntStr(2 * ArithmeticSeries(a, d, n))) && Shows(rows, D, IntStr(ArithmeticSeries(a, d, n) + d))
  {
    var t := ArithmeticSumAnswers(a, d, n);
    ArithmeticSumExact(a, d, n);
    ArithmeticSumWrong(a, d, n);
    ArithmeticSumDistinct(a, d, n);
    IntRows(Chapter_, ArithmeticSumQuestion(a, d, n), t.0, t.1, t.2, t.3, C, "formula_miss_half", "wrong_n_minus_1",
            "arithmetic_error", "a=" + IntStr(a) + ", d=" + IntStr(d) + ", n=" + IntStr(n), "Sn = " + IntStr(t.2),
            difficulty)
  }

  // ---------------------------------------------------------------------------
  // gen_arithmetic_tn
  // ---------------------------------------------------------------------------

  /** The four numbers A–D of `gen_arithmetic_tn`: a + nd, tn, a·n, tn − d. */
  function ArithmeticTnAnswers(a: int, d: int, n: int): (int, int, int, int) {
    var tn := a + (n - 1) * d;
    (a + n * d, tn, a * n, tn - d)
  }

  /** B is the nth term; "used n for n − 1" (A) is one difference more and "off by one" (D) one less. */
  lemma ArithmeticTnValues(a: int, d: int, n: nat)
    requires n >= 1
    ensures var t := ArithmeticTnAnswers(a, d, n);
      && t.1 == ArithmeticTerm(a, d, n) && t.0 == t.1 + d && t.3 == t.1 - d && t.2 == a * n
  {
    ArithmeticTermClosed(a, d, n);
    Distrib(d, n - 1, 1);
  }

  /** For n > 1, the "multiplied instead of adding" answer a·n equals tn exactly when a = d. */
  lemma MultipliedMatches(a: int, d: int, n: int)
    requires n > 1
    ensures a * n == a + (n - 1) * d <==> a == d
  {
    Distrib(n - 1, a, -d);
    assert a * n - (a + (n - 1) * d) == (n - 1) * (a - d);
    if (n - 1) * (a - d) == 0 {
      ZeroProduct(n - 1, a - d);
    }
  }

  /** The values `gen_arithmetic_tn` draws: a ∈ {1, 3, 5, 7}, d ∈ {2, 4, 6}, n ∈ {6, 9, 12}. */
  predicate ArithmeticTnDraw(a: int, d: int, n: int) {
    a in {1, 3, 5, 7} && d in {2, 4, 6} && n in {6, 9, 12}
  }

  /** a is drawn odd and d even, so a·n misses tn, and the four numbers of every draw differ. */
  lemma ArithmeticTnDistinct(a: int, d: int, n: int)
    requires ArithmeticTnDraw(a, d, n)
    ensures var t := ArithmeticTnAnswers(a, d, n);
      Distinct4(t.0, t.1, t.2, t.3)
  {
    MultipliedMatches(a, d, n);
    if n == 6 {
      assert a * n == 6 * a && n * d == 6 * d && (n - 1) * d == 5 * d;
    } else if n == 9 {
      assert a * n == 9 * a && n * d == 9 * d && (n - 1) * d == 8 * d;
    } else {
      assert a * n == 12 * a && n * d == 12 * d && (n - 1) * d == 11 * d;
    }
  }

  /** The question of `gen_arithmetic_tn`. */
  function ArithmeticTnQuestion(a: int, d: int, n: int): string {
    "Find the " + IntStr(n) + "th term of an arithmetic sequence whose first term is " + IntStr(a)
    + " and common difference is " + IntStr(d) + "."
  }

  /**
    * What an nth-term record promises: B, the key, prints tn and the solve record answers "tn = "
    * with it; A prints tn + d ("used n for n − 1"), C prints m and D prints tn − d ("off by one");
    * exactly one option is correct and the four differ.
    */
  predicate TermSpec(rows: seq<Row>, tn: int, d: int, m: int) {
    && Answers(rows, B, IntStr(tn), "tn = " + IntStr(tn)) && Unambiguous(rows)
    && Shows(rows, A, IntStr(tn + d)) && Shows(rows, C, IntStr(m)) && Shows(rows, D, IntStr(tn - d))
  }

  /** The records of `gen_arithmetic_tn` once its numbers tn + d, tn, m and tn − d are known and differ. */
  function TermRows(question: string, tn: int, d: int, m: int, given: string): (rows: seq<Row>)
    requires Distinct4(tn + d, tn, m, tn - d)
    ensures TermSpec(rows, tn, d, m)
  {
    IntRows(Chapter_, question, tn + d, tn, m, tn - d, B, "used_n_instead_n_minus_1", "multiplication_error", "off_by_one",
            given, "tn = " + IntStr(tn), 2)
  }

  /** The four numbers of every draw of `gen_arithmetic_tn` differ. */
  lemma ArithmeticTnNumbers(a: int, d: int, n: int)
    requires ArithmeticTnDraw(a, d, n)
    ensures var tn := ArithmeticTerm(a, d, n);
      Distinct4(tn + d, tn, a * n, tn - d)
  {
    ArithmeticTnValues(a, d, n);
    ArithmeticTnDistinct(a, d, n);
  }

  /**
    * `gen_arithmetic_tn`, with a ∈ {1, 3, 5, 7}, d ∈ {2, 4, 6} and n ∈ {6, 9, 12} drawn: B prints the
    * nth term of the sequence, A one difference more, C the product a·n and D one difference less;
    * exactly one option is correct and the four differ.
    */
  function ArithmeticTn(a: int, d: int, n: int): (rows: seq<Row>)
    requires ArithmeticTnDraw(a, d, n)
    ensures TermSpec(rows, ArithmeticTerm(a, d, n), d, a * n)
  {
    ArithmeticTnNumbers(a, d, n);
    TermRows(ArithmeticTnQuestion(a, d, n), ArithmeticTerm(a, d, n), d, a * n,
             "a=" + IntStr(a) + ", d=" + IntStr(d) + ", n=" + IntStr(n))
  }

  // ---------------------------------------------------------------------------
  // gen_geometric_sum
  // ---------------------------------------------------------------------------

  /** The drawn common ratio: the ints 2 and 3 or the float 0.5. */
  datatype Ratio = Two | Three | Half

  /** `f"{r}"`. */
  function RatioStr(r: Ratio): string {
    match r
    case Two => "2"
    case Three => "3"
    case Half => "0.5"
  }

  /** The integer ratio of Two and Three. */
  function RatioInt(r: Ratio): int
    requires r != Half
  {
    if r == Two then 2 else 3
  }

  /** The values `gen_geometric_sum` draws besides the ratio: a ∈ {2, 3, 5}, n ∈ {4, 5, 6}. */
  predicate GeometricSumDraw(a: int, n: int) {
    a in {2, 3, 5} && n in {4, 5, 6}
  }

  /**
    * The four numbers A–D of `gen_geometric_sum` (a·rⁿ, a(rⁿ − 1), Sn, Sn + a), each the rounded
    * exact value of the source's expression: with an integer r, a·rⁿ and a(rⁿ − 1) are ints and
    * Sn = a(rⁿ − 1)/(r − 1); with r = 0.5 every value is a fraction over P = 2ⁿ, and
    * Sn = a(1 − 1/P)/(1 − 0.5) = 2a(P − 1)/P. With a ≤ 5 and P ≤ 64 every one of these is a binary
    * fraction that a float holds exactly, so rounding the exact quotient is what the source rounds.
    */
  function GeometricSumAnswers(a: int, r: Ratio, n: nat): (int, int, int, int) {
    if r == Half then
      var p := Pow(2, n);
      PowPositive(2, n);
      (RoundDiv(a, p), RoundDiv(a * (1 - p), p), RoundDiv(2 * a * (p - 1), p), RoundDiv(2 * a * (p - 1) + a * p, p))
    else
      var ri, p := RatioInt(r), Pow(RatioInt(r), n);
      (a * p, a * (p - 1), RoundDiv(a * (p - 1), ri - 1), RoundDiv(a * (p - 1) + a * (ri - 1), ri - 1))
  }

  /**
    * With an integer ratio r ≥ 2, a(rⁿ − 1)/(r − 1) is exactly the sum of the first n terms, so
    * `fmt` loses nothing; A, B and D are a·rⁿ, a(rⁿ − 1) and Sn + a.
    */
  lemma GeometricSumExact(a: int, r: Ratio, n: nat)
    requires r != Half
    ensures var ri := RatioInt(r);
      var s := GeometricSeries(a, ri, n);
      GeometricSumAnswers(a, r, n) == (a * Pow(ri, n), a * (Pow(ri, n) - 1), s, s + a)
  {
    var ri := RatioInt(r);
    GeometricSeriesClosed(a, ri, n);
    ExactQuotients(a, ri - 1, a * (Pow(ri, n) - 1), GeometricSeries(a, ri, n));
  }

  /** With (r − 1)·s = m, rounding m / (r − 1) gives s and rounding m / (r − 1) + a gives s + a. */
  lemma ExactQuotients(a: int, k: int, m: int, s: int)
    requires k > 0 && k * s == m
    ensures RoundDiv(m, k) == s && RoundDiv(m + a * k, k) == s + a
  {
    RoundDivExact(m, k, s);
    Distrib(k, s, a);
    RoundDivExact(m + a * k, k, s + a);
  }

  /** The question of `gen_geometric_sum`. */
  function GeometricSumQuestion(a: int, r: Ratio, n: int): string {
    "Find the sum of first " + IntStr(n) + " terms of a geometric series with first term " + IntStr(a)
    + " and common ratio " + RatioStr(r) + "."
  }

  /** With r = 2 the denominator r − 1 is 1: B = a(rⁿ − 1) is the sum itself and D = Sn + a is a·rⁿ = A. */
  lemma DoublingCollides(a: int, n: nat)
    ensures var t := GeometricSumAnswers(a, Two, n);
      t.1 == t.2 && t.0 == t.3
  {
    GeometricSumExact(a, Two, n);
    GeometricSeriesClosed(a, 2, n);
  }

  /** With r = 3 and n ≥ 2 the four numbers are a·3ⁿ > a(3ⁿ − 1) > Sn + a > Sn. */
  lemma TriplingDistinct(a: int, n: nat)
    requires a >= 1 && n >= 2
    ensures var t := GeometricSumAnswers(a, Three, n);
      t.0 > t.1 > t.3 > t.2
  {
    GeometricSumExact(a, Three, n);
    var s := GeometricSeries(a, 3, n);
    GeometricSeriesClosed(a, 3, n);
    var p := Pow(3, n);
    PowGrows(3, n - 1);
    assert p >= 2 * n >= 4;
    Distrib(a, p, -1);
    MulLowerBound(p - 1, 3, a);
  }

  /**
    * Over a denominator P > 2a: a/P rounds to 0, a(1 − P)/P to −a, 2a(P − 1)/P to 2a − 1 or 2a and
    * (2a(P − 1) + aP)/P to 3a − 1 or 3a.
    */
  lemma HalvingRounds(a: int, p: int)
    requires 1 <= a && 2 * a < p
    ensures RoundDiv(a, p) == 0 && RoundDiv(a * (1 - p), p) == -a
    ensures 2 * a - 1 <= RoundDiv(2 * a * (p - 1), p) <= 2 * a
    ensures 3 * a - 1 <= RoundDiv(2 * a * (p - 1) + a * p, p) <= 3 * a
  {
    RoundDivNear(a, p, 0);
    Distrib(a, 1, -p);
    RoundDivNear(a * (1 - p), p, -a);
    Distrib(2 * a, p, -1);
    RoundDivBelow(2 * a * (p - 1), p, 2 * a);
    Distrib(p, 2 * a, a);
    RoundDivBelow(2 * a * (p - 1) + a * p, p, 3 * a);
  }

  /**
    * With r = 0.5 and n ∈ {4, 5, 6}: A rounds a/2ⁿ to 0, B rounds a(1/2ⁿ − 1) to −a, and Sn ≈ 2a and
    * Sn + a ≈ 3a round to within one of them.
    */
  lemma HalvingValues(a: int, n: nat)
    requires GeometricSumDraw(a, n)
    ensures var t := GeometricSumAnswers(a, Half, n);
      && t.0 == 0 && t.1 == -a && 2 * a - 1 <= t.2 <= 2 * a && 3 * a - 1 <= t.3 <= 3 * a
  {
    PowGrows(2, n - 1);
    PowGrows(2, n - 2);
    HalvingRounds(a, Pow(2, n));
  }

  /** The nth term (n ≥ 1) of the halving sequence a, a/2, a/4, … over the reals. */
  function HalvingTerm(a: int, n: nat): real
    requires n >= 1
  {
    if n == 1 then a as real else HalvingTerm(a, n - 1) / 2.0
  }

  /** The sum of the first n terms of the halving sequence: the geometric series with ratio 0.5. */
  function HalvingSeries(a: int, n: nat): real {
    if n == 0 then 0.0 else HalvingSeries(a, n - 1) + HalvingTerm(a, n)
  }

  /** The nth term of the halving sequence is a/2ⁿ⁻¹. */
  lemma {:induction false} HalvingTermClosed(a: int, n: nat)
    requires n >= 1
    ensures HalvingTerm(a, n) * Pow(2, n - 1) as real == a as real
    decreases n
  {
    if n > 1 {
      HalvingTermClosed(a, n - 1);
      var q := Pow(2, n - 2) as real;
      assert Pow(2, n - 1) as real == 2.0 * q;
      assert HalvingTerm(a, n) * (2.0 * q) == HalvingTerm(a, n - 1) * q;
    }
  }

  /** 2ⁿ times the sum of the first n terms of the halving sequence is 2a(2ⁿ − 1). */
  lemma {:induction false} HalvingSeriesClosed(a: int, n: nat)
    ensures HalvingSeries(a, n) * Pow(2, n) as real == (2 * a * (Pow(2, n) - 1)) as real
    decreases n
  {
    if n > 0 {
      HalvingSeriesClosed(a, n - 1);
      HalvingTermClosed(a, n);
      var q := Pow(2, n - 1);
      assert Pow(2, n) == 2 * q;
      var s, t := HalvingSeries(a, n - 1), HalvingTerm(a, n);
      assert s * q as real == (2 * a * (q - 1)) as real;
      assert t * q as real == a as real;
      calc {
        HalvingSeries(a, n) * Pow(2, n) as real;
        (s + t) * (2.0 * q as real);
        2.0 * (s * q as real) + 2.0 * (t * q as real);
        (2 * (2 * a * (q - 1)) + 2 * a) as real;
        (2 * a * (2 * q - 1)) as real;
      }
    }
  }

  /**
    * With r = 0.5, `fmt(Sn)` and `fmt(Sn + a)` are the sum of the first n terms of a, a/2, a/4, …,
    * and that sum plus a, rounded as Python's `round` does.
    */
  lemma HalvingSum(a: int, n: nat)
    ensures var t := GeometricSumAnswers(a, Half, n);
      t.2 == RoundHalfEven(HalvingSeries(a, n)) && t.3 == RoundHalfEven(HalvingSeries(a, n) + a as real)
  {
    HalvingQuotient(a, n, 0);
    HalvingQuotient(a, n, a);
  }

  /** 2a(2ⁿ − 1)/2ⁿ, plus e, rounds as the halving sum plus e. */
  lemma HalvingQuotient(a: int, n: nat, e: int)
    ensures Pow(2, n) > 0
    ensures RoundDiv(2 * a * (Pow(2, n) - 1) + e * Pow(2, n), Pow(2, n)) == RoundHalfEven(HalvingSeries(a, n) + e as real)
  {
    var s, p := HalvingSeries(a, n), Pow(2, n);
    assert p > 0 && s * p as real == (2 * a * (p - 1)) as real by {
      HalvingSeriesClosed(a, n);
      PowPositive(2, n);
    }
    RoundedQuotient(s, e, 2 * a * (p - 1), p);
  }

  /** When s·p = m, rounding (m + e·p)/p is rounding s + e. */
  lemma RoundedQuotient(s: real, e: int, m: int, p: int)
    requires p > 0 && s * p as real == m as real
    ensures RoundDiv(m + e * p, p) == RoundHalfEven(s + e as real)
  {
    assert (m + e * p) as real == (s + e as real) * p as real;
    assert (m + e * p) as real / p as real == s + e as real;
    RoundDivIsRound(m + e * p, p);
  }

  /** What the drawn values decide about the four numbers of `gen_geometric_sum`. */
  lemma GeometricSumCases(a: int, r: Ratio, n: nat)
    requires GeometricSumDraw(a, n)
    ensures var t := GeometricSumAnswers(a, r, n);
      && (r != Half ==> t.2 == GeometricSeries(a, RatioInt(r), n))
      && (r == Two ==> t.1 == t.2 && t.0 == t.3)
      && (r != Two ==> Distinct4(t.0, t.1, t.2, t.3))
      && (r == Half ==> t.0 == 0 && t.1 == -a)
      && (r == Half ==> t.2 == RoundHalfEven(HalvingSeries(a, n)) && t.3 == RoundHalfEven(HalvingSeries(a, n) + a as real))
  {
    if r == Two {
      GeometricSumExact(a, r, n);
      DoublingCollides(a, n);
    } else if r == Three {
      GeometricSumExact(a, r, n);
      TriplingDistinct(a, n);
    } else {
      HalvingValues(a, n);
      HalvingSum(a, n);
    }
  }

  /**
    * `gen_geometric_sum`, with a ∈ {2, 3, 5}, r ∈ {2, 3, 0.5} and n ∈ {4, 5, 6} drawn: with an
    * integer ratio C prints the sum of the first n terms. With r = 2, "forgot the denominator" (B)
    * prints that same sum and Sn + a (D) prints a·rⁿ (A), so no record of that ratio has exactly
    * one correct option; with r = 3 or 0.5 the four options differ. With r = 0.5, C prints the
    * rounded sum of a, a/2, a/4, … to n terms, D that sum plus a, A prints 0 and B prints −a.
    */
  function GeometricSum(a: int, r: Ratio, n: nat): (rows: seq<Row>)
    requires GeometricSumDraw(a, n)
    ensures |rows| == 2 && WellFormedMcq(rows[0]) && rows[0].response.correctOption == C
    ensures r != Half ==> CorrectText(rows[0]) == IntStr(GeometricSeries(a, RatioInt(r), n))
    ensures r == Two ==> rows[0].response.options[B] == CorrectText(rows[0])
    ensures r == Two ==> rows[0].response.options[A] == rows[0].response.options[D]
    ensures r == Two <==> !ExactlyOneCorrect(rows[0])
    ensures r == Two <==> !AllOptionsDistinct(rows[0])
    ensures r == Half ==> CorrectText(rows[0]) == IntStr(RoundHalfEven(HalvingSeries(a, n)))
    ensures r == Half ==> rows[0].response.options[D] == IntStr(RoundHalfEven(HalvingSeries(a, n) + a as real))
    ensures r == Half ==> rows[0].response.options[A] == "0" && rows[0].response.options[B] == IntStr(-a)
    ensures rows[1].response.SolveResponse? && rows[1].response.finalAnswer == "Sn = " + CorrectText(rows[0])
  {
    var t := GeometricSumAnswers(a, r, n);
    var w1, w2, sn, w3 := t.0, t.1, t.2, t.3;
    GeometricSumCases(a, r, n);
    IntRows(Chapter_, GeometricSumQuestion(a, r, n), w1, w2, sn, w3, C, "found_tn", "missed_denominator", "arithmetic_error",
            "a=" + IntStr(a) + ", r=" + RatioStr(r) + ", n=" + IntStr(n), "Sn = " + IntStr(sn), 3)
  }

  // ---------------------------------------------------------------------------
  // gen_geometric_tn
  // ---------------------------------------------------------------------------

  /** The values `gen_geometric_tn` draws: a ∈ {2, 3, 5}, r ∈ {2, 3}, n ∈ {4, 6, 8}. */
  predicate GeometricTnDraw(a: int, r: int, n: int) {
    a in {2, 3, 5} && r in {2, 3} && n in {4, 6, 8}
  }

  /** The four numbers A–D of `gen_geometric_tn`: a·rⁿ, tn, a + (n − 1)r, tn // r. */
  function GeometricTnAnswers(a: int, r: int, n: nat): (int, int, int, int)
    requires r > 0 && n >= 1
  {
    var tn := a * Pow(r, n - 1);
    (a * Pow(r, n), tn, a + (n - 1) * r, tn / r)
  }

  /** tn·r is the (n+1)th term, and with n ≥ 2 the floor division tn // r is exactly the (n−1)th. */
  lemma GeometricTnValues(a: int, r: int, n: nat)
    requires a >= 1 && r >= 2 && n >= 2
    ensures var t := GeometricTnAnswers(a, r, n);
      && t.1 == GeometricTerm(a, r, n) && t.0 == t.1 * r && t.3 == GeometricTerm(a, r, n - 1) && t.3 * r == t.1
  {
    GeometricTermClosed(a, r, n);
    GeometricTermClosed(a, r, n - 1);
    var q := Pow(r, n - 2);
    assert Pow(r, n - 1) == r * q;
    assert Pow(r, n) == r * Pow(r, n - 1);
    Fractions.DivModUnique(a * (r * q), r, a * q, 0);
  }

  /** The question of `gen_geometric_tn`. */
  function GeometricTnQuestion(a: int, r: int, n: int): string {
    "Find the " + IntStr(n) + "th term of a geometric sequence with first term " + IntStr(a)
    + " and common ratio " + IntStr(r) + "."
  }

  /** Over the drawn values, tn differs from the other three, and only (2, 2, 4) makes C and D equal. */
  lemma GeometricTnDistinct(a: int, r: int, n: nat)
    requires GeometricTnDraw(a, r, n)
    ensures var t := GeometricTnAnswers(a, r, n);
      && t.1 != t.0 && t.1 != t.2 && t.1 != t.3
      && (Distinct4(t.0, t.1, t.2, t.3) <==> !(a == 2 && r == 2 && n == 4))
  {
    if r == 2 {
      if n == 4 {
        assert GeometricTnAnswers(a, 2, 4) == (16 * a, 8 * a, a + 6, 4 * a);
      } else if n == 6 {
        assert GeometricTnAnswers(a, 2, 6) == (64 * a, 32 * a, a + 10, 16 * a);
      } else {
        assert GeometricTnAnswers(a, 2, 8) == (256 * a, 128 * a, a + 14, 64 * a);
      }
    } else {
      if n == 4 {
        assert GeometricTnAnswers(a, 3, 4) == (81 * a, 27 * a, a + 9, 9 * a);
      } else if n == 6 {
        assert GeometricTnAnswers(a, 3, 6) == (729 * a, 243 * a, a + 15, 81 * a);
      } else {
        assert GeometricTnAnswers(a, 3, 8) == (6561 * a, 2187 * a, a + 21, 729 * a);
      }
    }
  }

  /**
    * `gen_geometric_tn`, with a ∈ {2, 3, 5}, r ∈ {2, 3} and n ∈ {4, 6, 8} drawn: B prints the nth
    * term, A the (n+1)th and D the (n−1)th; exactly one option is correct, and the options all
    * differ except for a = 2, r = 2, n = 4, where a + (n − 1)r (C) and tn // r (D) both print 8.
    */
  function GeometricTn(a: int, r: int, n: nat): (rows: seq<Row>)
    requires GeometricTnDraw(a, r, n)
    ensures |rows| == 2 && WellFormedMcq(rows[0]) && rows[0].response.correctOption == B
    ensures CorrectText(rows[0]) == IntStr(GeometricTerm(a, r, n))
    ensures rows[0].response.options[A] == IntStr(GeometricTerm(a, r, n) * r)
    ensures rows[0].response.options[D] == IntStr(GeometricTerm(a, r, n - 1))
    ensures ExactlyOneCorrect(rows[0])
    ensures AllOptionsDistinct(rows[0]) <==> !(a == 2 && r == 2 && n == 4)
    ensures rows[1].response.SolveResponse? && rows[1].response.finalAnswer == "tn = " + CorrectText(rows[0])
  {
    var t := GeometricTnAnswers(a, r, n);
    var w1, tn, w2, w3 := t.0, t.1, t.2, t.3;
    GeometricTnValues(a, r, n);
    GeometricTnDistinct(a, r, n);
    IntRows(Chapter_, GeometricTnQuestion(a, r, n), w1, tn, w2, w3, B, "power_error", "used_arithmetic_formula", "off_by_one",
            "a=" + IntStr(a) + ", r=" + IntStr(r) + ", n=" + IntStr(n), "tn = " + IntStr(tn), 2)
  }
}
