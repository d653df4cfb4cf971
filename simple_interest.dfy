/**
  * The simple-interest template of the arithmetic chapter. P, R and T are drawn, I = P·R·T / 100
  * is computed, and one of I, P, R, T is asked for. The options are the printed ints 2c,
  * max(1, int(c / 2)), c and c + k, where c is the answer and k ∈ {5, 10, 20}; C is the correct key.
  */
module SimpleInterest {
  import opened Text
  import opened Mcq
  import opened PyNum
  import opened Arith
  import Fractions

  const Chapter_ := Chapter(
    "arithmetic",
    "You are an NEB Grade 10 Mathematics question generator. Output MUST be STRICT JSON only. No extra text.",
    "You are an NEB Grade 10 Mathematics tutor. Output MUST be STRICT JSON only. No extra text.",
    "Arithmetic",
    "- Create ONE NEB-style arithmetic word problem.\n- Provide 4 options (A,B,C,D).\n- Exactly ONE option is correct.\n"
    + "- The 3 wrong options must be based on common student mistakes.\n- Include a short answer_explanation.\n"
    + "- Include distractor_rationales for wrong options with mistake tag and why.\n"
    + "Return JSON only with keys: question, options, correct_option, answer_explanation, distractor_rationales, meta.",
    "Solve with full steps:\n",
    "Required value")

  /** The quantity the question asks for: the drawn `find`. */
  datatype Unknown = FindI | FindP | FindR | FindT

  /**
    * The values the template draws: the difficulty from {1, 2}, P ∈ {1000, 2000, 2500, 3000, 5000},
    * R ∈ {4, 5, 6, 8, 10}, T ∈ {1, 2, 3} and the offset k ∈ {5, 10, 20} of option D.
    */
  predicate Draw(difficulty: int, p: int, r: int, t: int, k: int) {
    && difficulty in {1, 2} && p in {1000, 2000, 2500, 3000, 5000} && r in {4, 5, 6, 8, 10}
    && t in {1, 2, 3} && k in {5, 10, 20}
  }

  /** A principal, rate and time that are positive, with the principal a multiple of 100. */
  predicate Terms(p: int, r: int, t: int) {
    p > 0 && p % 100 == 0 && r > 0 && t > 0
  }

  /** Every drawn principal is a whole number of hundreds. */
  lemma DrawnTerms(difficulty: int, p: int, r: int, t: int, k: int)
    requires Draw(difficulty, p, r, t, k)
    ensures Terms(p, r, t) && k > 0
  {
  }

  /** The simple interest P·R·T / 100 as an integer. */
  function Interest(p: int, r: int, t: int): int {
    p * r * t / 100
  }

  /**
    * With P a multiple of 100, P·R·T / 100 is an exact integer: the float I holds it exactly,
    * `int(I)` prints it, and `round(I)` gives it back.
    */
  lemma InterestExact(p: int, r: int, t: int)
    requires Terms(p, r, t)
    ensures 100 * Interest(p, r, t) == p * r * t
    ensures RoundDiv(p * r * t, 100) == Interest(p, r, t)
  {
    var h := p / 100;
    assert p == 100 * h;
    assert p * r * t == 100 * (h * r * t);
    RoundDivExact(p * r * t, 100, h * r * t);
    Fractions.DivModUnique(p * r * t, 100, h * r * t, 0);
  }

  /** The exact value of the asked quantity. */
  function Wanted(find: Unknown, p: int, r: int, t: int): int {
    match find
    case FindI => Interest(p, r, t)
    case FindP => p
    case FindR => r
    case FindT => t
  }

  /**
    * The source's `correct_val`: I itself, or I·100 divided by the product of the two other given
    * quantities, each float quotient rounded by `int(round(…))`.
    */
  function Asked(find: Unknown, p: int, r: int, t: int): int
    requires Terms(p, r, t)
  {
    var i := Interest(p, r, t);
    Positive(p, r);
    Positive(p, t);
    Positive(r, t);
    match find
    case FindI => RoundDiv(p * r * t, 100)
    case FindP => RoundDiv(i * 100, r * t)
    case FindR => RoundDiv(i * 100, p * t)
    case FindT => RoundDiv(i * 100, p * r)
  }

  /** A product of two positive numbers is positive. */
  lemma Positive(x: int, y: int)
    requires x > 0 && y > 0
    ensures x * y > 0
  {
    MulLowerBound(x, 1, y);
  }

  /** Rearranging the formula recovers the quantity that was drawn: I·100/(R·T) = P, and so on. */
  lemma AskedRecovers(find: Unknown, p: int, r: int, t: int)
    requires Terms(p, r, t)
    ensures Asked(find, p, r, t) == Wanted(find, p, r, t)
  {
    var i := Interest(p, r, t);
    InterestExact(p, r, t);
    Positive(p, r);
    Positive(p, t);
    Positive(r, t);
    match find
    case FindI =>
    case FindP =>
      assert i * 100 == (r * t) * p;
      RoundDivExact(i * 100, r * t, p);
    case FindR =>
      assert i * 100 == (p * t) * r;
      RoundDivExact(i * 100, p * t, r);
    case FindT =>
      assert i * 100 == (p * r) * t;
      RoundDivExact(i * 100, p * r, t);
  }

  /** Python's `max` on two ints. */
  function Max(x: int, y: int): int {
    if x >= y then x else y
  }

  /** The four numbers A–D: `int(c * 2)`, `max(1, int(c / 2))`, c and c + k. */
  function Numbers(c: int, k: int): (int, int, int, int) {
    (2 * c, Max(1, Trunc(c as real / 2.0)), c, c + k)
  }

  /** For c ≥ 0, `int(c / 2)` on the exact float c / 2 is the integer half c / 2. */
  lemma TruncHalf(c: int)
    requires c >= 0
    ensures Trunc(c as real / 2.0) == c / 2
  {
    var h := c / 2;
    assert c == 2 * h + c % 2;
    assert (c as real) / 2.0 == h as real + (c % 2) as real / 2.0;
  }

  /**
    * For an answer c ≥ 1 and an offset k > 0: B duplicates the answer exactly when c = 1, D
    * duplicates A exactly when c = k, and otherwise the four numbers differ.
    */
  lemma NumbersCollide(c: int, k: int)
    requires c >= 1 && k > 0
    ensures var n := Numbers(c, k);
      && n.1 == Max(1, c / 2)
      && (KeyedUnique(C, n.0, n.1, n.2, n.3) <==> c != 1)
      && (Distinct4(n.0, n.1, n.2, n.3) <==> c != 1 && c != k)
  {
    TruncHalf(c);
  }

  /** The asked quantity is 1 exactly when T = 1 is asked for; every other answer is at least 4. */
  lemma AnswerIsOne(difficulty: int, p: int, r: int, t: int, k: int, find: Unknown)
    requires Draw(difficulty, p, r, t, k)
    ensures Wanted(find, p, r, t) >= 1
    ensures Wanted(find, p, r, t) == 1 <==> find == FindT && t == 1
    ensures Wanted(find, p, r, t) == k <==> find == FindR && r == k
  {
    if find == FindI {
      InterestExact(p, r, t);
      MulLowerBound(p, 1000, r);
      MulLowerBound(r, 4, 1000);
      MulLowerBound(p * r, 4000, t);
      assert 100 * Interest(p, r, t) >= 4000;
    }
  }

  /** The question text for each unknown; `int(I)` prints the exact interest. */
  function Question(find: Unknown, p: int, r: int, t: int): string {
    var i := Interest(p, r, t);
    match find
    case FindI =>
      "Find the simple interest on Rs " + IntStr(p) + " at " + IntStr(r) + "% per annum for " + IntStr(t) + " years."
    case FindP =>
      "The simple interest is Rs " + IntStr(i) + " at " + IntStr(r) + "% per annum for " + IntStr(t)
      + " years. Find the principal."
    case FindR =>
      "The simple interest on Rs " + IntStr(p) + " for " + IntStr(t) + " years is Rs " + IntStr(i)
      + ". Find the rate percent per annum."
    case FindT =>
      "The simple interest on Rs " + IntStr(p) + " at " + IntStr(r) + "% per annum is Rs " + IntStr(i)
      + ". Find the time in years."
  }

  /** The solve record's `given`: every quantity, the interest included. */
  function Given(p: int, r: int, t: int): string {
    "P=" + IntStr(p) + ", R=" + IntStr(r) + "%, T=" + IntStr(t) + ", I=" + IntStr(Interest(p, r, t))
  }

  /**
    * `gen_simple_interest`, with the difficulty, P, R, T, the unknown and k drawn. Option C and the
    * final answer print the true value of the unknown; A prints twice it, B half of it (at least 1)
    * and D it plus k. The record keeps "exactly one option is correct" with four distinct options
    * except when T = 1 is asked for (B prints 1 as C does) or R = k is asked for (A and D both
    * print 2R).
    */
  function Template(difficulty: int, p: int, r: int, t: int, find: Unknown, k: int): (rows: seq<Row>)
    requires Draw(difficulty, p, r, t, k)
    ensures var v := Wanted(find, p, r, t);
      && Answers(rows, C, IntStr(v), "Answer = " + IntStr(v))
      && Shows(rows, A, IntStr(2 * v)) && Shows(rows, B, IntStr(Max(1, v / 2))) && Shows(rows, D, IntStr(v + k))
    ensures Unambiguous(rows) <==> !(find == FindT && t == 1) && !(find == FindR && r == k)
    ensures |rows| == 2 && rows[0].response.question == Question(find, p, r, t)
    ensures rows[1].response.SolveResponse? && rows[1].response.given == Given(p, r, t)
  {
    DrawnTerms(difficulty, p, r, t, k);
    var c := Asked(find, p, r, t);
    AskedRecovers(find, p, r, t);
    AnswerIsOne(difficulty, p, r, t, k, find);
    NumbersCollide(c, k);
    var n := Numbers(c, k);
    IntRows(Chapter_, Question(find, p, r, t), n.0, n.1, n.2, n.3, C, "formula_misuse", "calculation_error",
            "unit_error", Given(p, r, t), "Answer = " + IntStr(c), difficulty)
  }

  /** Asking for T = 1 year: options B and C both print "1". */
  lemma OneYearCollides()
    ensures var rows := Template(1, 1000, 4, 1, FindT, 5);
      Shows(rows, B, "1") && Shows(rows, C, "1") && !Unambiguous(rows)
  {
  }

  /** Asking for R = 5 % with k = 5: options A and D both print "10". */
  lemma RateEqualsOffsetCollides()
    ensures var rows := Template(2, 2000, 5, 2, FindR, 5);
      Shows(rows, A, "10") && Shows(rows, D, "10") && !Unambiguous(rows)
  {
  }
}
