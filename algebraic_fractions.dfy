/**
  * The algebraic-fraction templates: each prints one expression to simplify and offers a fixed
  * dict of four answers with the correct one under C. Beside each template stands the algebraic
  * identity, over the reals and away from the zeros of its denominators, that makes C the answer.
  */
module AlgebraicFractions {
  import opened Text
  import opened Mcq

  const Chapter_ := Chapter(
    "algebraic_fractions",
    "You are an NEB Grade 10 Mathematics question generator. Output MUST be STRICT JSON only. No extra text.",
    "You are an NEB Grade 10 Mathematics tutor. Output MUST be STRICT JSON only. No extra text.",
    "Algebraic Fractions",
    "- Create ONE NEB-style question.\n- Provide 4 options.\n- Exactly ONE correct.\n"
    + "- Use common student mistakes.\n- Include explanation and distractor rationales.\n",
    "Solve with full steps:\n",
    "Simplified form")

  /** The two records of a template of this chapter, with C correct and the solve record answering C. */
  function Records(question: string, a: string, b: string, c: string, d: string,
                   t1: string, t2: string, t3: string, given: string, difficulty: int): seq<Row>
  {
    FixedRows(Chapter_, question, a, b, c, d, C, t1, t2, t3, given, c, difficulty)
  }

  /** Four distinct texts make records with exactly one correct answer, C, and rationales for A, B and D. */
  lemma RecordsOk(question: string, a: string, b: string, c: string, d: string,
                  t1: string, t2: string, t3: string, given: string, difficulty: int)
    requires Distinct4(a, b, c, d)
    ensures var rows := Records(question, a, b, c, d, t1, t2, t3, given, difficulty);
      && Promises(rows, C) && rows[0].response.distractors.Keys == {A, B, D}
      && rows[0].response.question == question && CorrectText(rows[0]) == c
  {
    FixedRowsOk(Chapter_, question, a, b, c, d, C, t1, t2, t3, given, difficulty);
    assert AllKeys - {C} == {A, B, D};
  }

  /** p / q is r when q is not zero and p is r times q. */
  lemma DivIs(p: real, q: real, r: real)
    requires q != 0.0 && p == r * q
    ensures p / q == r
  {
  }

  /** A common non-zero factor cancels from a quotient. */
  lemma CancelCommon(k: real, u: real, v: real)
    requires k != 0.0 && v != 0.0
    ensures (k * u) / (k * v) == u / v
  {
    assert k * v != 0.0;
    DivIs(k * u, k * v, u / v);
  }

  /** A product of non-zero reals is not zero. */
  lemma NonZeroProduct(u: real, v: real)
    requires u != 0.0 && v != 0.0
    ensures u * v != 0.0
  {
    if u * v == 0.0 {
      DivIs(u * v, v, u);
    }
  }

  /** Two quotients over one non-zero denominator add numerator to numerator. */
  lemma AddOver(p: real, q: real, d: real)
    requires d != 0.0
    ensures p / d + q / d == (p + q) / d
  {
    DivIs(p + q, d, p / d + q / d);
  }

  /** Two quotients over one non-zero denominator subtract numerator from numerator. */
  lemma SubOver(p: real, q: real, d: real)
    requires d != 0.0
    ensures p / d - q / d == (p - q) / d
  {
    DivIs(p - q, d, p / d - q / d);
  }

  // ---------------------------------------------------------------------------
  // Templates with a drawn integer
  // ---------------------------------------------------------------------------

  /** `gen_diff_squares_fraction`, with a drawn from [2, 3, 4, 5]. */
  function DiffSquaresFraction(a: int): (rows: seq<Row>)
    requires 2 <= a <= 5
    ensures Promises(rows, C)
    ensures rows[0].response.question == Fmt2("Simplify: (x^2 - ", a * a, ") / (x - ", a, ")")
    ensures CorrectText(rows[0]) == Fmt1("x + ", a, "")
  {
    var sq := a * a;
    var question := Fmt2("Simplify: (x^2 - ", sq, ") / (x - ", a, ")");
    var w1, w2, c := Fmt1("x - ", a, ""), Fmt1("x^2 + ", sq, ""), Fmt1("x + ", a, "");
    assert w1[2] == '-' && c[2] == '+' && w2[1] == '^' && w1[1] == ' ' && c[1] == ' ';
    DifferAt(w1, c, 2);
    DifferAt(w2, w1, 1);
    DifferAt(w2, c, 1);
    RecordsOk(question, w1, w2, c, "1", "wrong_factor", "no_factorization", "cancelled_whole", Fmt1("a=", a, ""), 3);
    Records(question, w1, w2, c, "1", "wrong_factor", "no_factorization", "cancelled_whole", Fmt1("a=", a, ""), 3)
  }

  /** x² − y² = (x − y)(x + y), so (x² − y²)/(x + y) = x − y wherever x + y ≠ 0. */
  lemma DiffSquaresOver(x: real, y: real)
    requires x + y != 0.0
    ensures x * x - y * y == (x - y) * (x + y)
    ensures (x * x - y * y) / (x + y) == x - y
  {
    DivIs(x * x - y * y, x + y, x - y);
  }

  /** (x² − a²)/(x − a) = x + a wherever x ≠ a: option C of `gen_diff_squares_fraction`. */
  lemma DiffSquaresQuotient(x: real, a: real)
    requires x != a
    ensures (x * x - a * a) / (x - a) == x + a
  {
    DiffSquaresOver(x, -a);
  }

  /** `gen_perfect_square_fraction`, with a drawn from [2, 3, 4]. */
  function PerfectSquareFraction(a: int): (rows: seq<Row>)
    requires 2 <= a <= 4
    ensures Promises(rows, C)
    ensures rows[0].response.question == Fmt2("Simplify: (x^2 + ", 2 * a, "x + ", a * a, ") / (x + ") + IntStr(a) + ")"
    ensures CorrectText(rows[0]) == Fmt1("x + ", a, "")
  {
    var sq := a * a;
    var question := Fmt2("Simplify: (x^2 + ", 2 * a, "x + ", sq, ") / (x + ") + IntStr(a) + ")";
    var w1, w2, c := Fmt1("x - ", a, ""), Fmt1("x^2 + ", sq, ""), Fmt1("x + ", a, "");
    assert w1[2] == '-' && c[2] == '+' && w2[1] == '^' && w1[1] == ' ' && c[1] == ' ';
    DifferAt(w1, c, 2);
    DifferAt(w2, w1, 1);
    DifferAt(w2, c, 1);
    RecordsOk(question, w1, w2, c, "x", "sign_error", "no_factorization", "partial_cancel", Fmt1("a=", a, ""), 3);
    Records(question, w1, w2, c, "x", "sign_error", "no_factorization", "partial_cancel", Fmt1("a=", a, ""), 3)
  }

  /** x² + 2ax + a² = (x + a)², so dividing by x + a leaves x + a wherever x ≠ −a. */
  lemma PerfectSquareQuotient(x: real, a: real)
    requires x + a != 0.0
    ensures x * x + 2.0 * a * x + a * a == (x + a) * (x + a)
    ensures (x * x + 2.0 * a * x + a * a) / (x + a) == x + a
  {
    DivIs(x * x + 2.0 * a * x + a * a, x + a, x + a);
  }

  /**
    * `gen_fraction_multiplication`, with a and b drawn independently from [2, 3, 4]. The correct
    * text b/a is also distractor B's a/b exactly when a == b, so the record keeps its promises
    * only for a ≠ b.
    */
  function FractionMultiplication(a: int, b: int): (rows: seq<Row>)
    requires 2 <= a <= 4 && 2 <= b <= 4
    ensures |rows| == 2 && WellFormedMcq(rows[0]) && rows[0].response.correctOption == C
    ensures rows[0].response.question == Fmt2("Simplify: (x / ", a, ") × (", b, " / x)")
    ensures CorrectText(rows[0]) == Fmt2("", b, "/", a, "")
    ensures ExactlyOneCorrect(rows[0]) <==> a != b
    ensures AllOptionsDistinct(rows[0]) <==> a != b
    ensures a == b ==> rows[0].response.options[B] == CorrectText(rows[0])
    ensures rows[1].response.SolveResponse? && rows[1].response.finalAnswer == CorrectText(rows[0])
  {
    var question := Fmt2("Simplify: (x / ", a, ") × (", b, " / x)");
    var w1, w2, c, w3 := Fmt2("", b, "x/", a, ""), Fmt2("", a, "/", b, ""), Fmt2("", b, "/", a, ""), Fmt2("", b, "/", a, "x");
    FixedRecord(Chapter_, question, w1, w2, c, w3, C, "no_cancel", "reciprocal_error", "partial_cancel", 4);
    OptionsOneCorrect(w1, w2, c, w3, C);
    MultiplicationTexts(a, b);
    Records(question, w1, w2, c, w3, "no_cancel", "reciprocal_error", "partial_cancel",
            Fmt2("a=", a, ", b=", b, ""), 4)
  }

  /** The four printed answers of `gen_fraction_multiplication`: only b/a and a/b can meet, and only when a == b. */
  lemma MultiplicationTexts(a: int, b: int)
    ensures var w1, w2, c, w3 := Fmt2("", b, "x/", a, ""), Fmt2("", a, "/", b, ""), Fmt2("", b, "/", a, ""),
                                 Fmt2("", b, "/", a, "x");
      && w1 != c && w1 != w3 && c != w3 && (w2 == c <==> a == b)
      && (w1 == w2 ==> a == b) && (w2 == w3 ==> a == b)
  {
    XAfterFirst(b, a, "");
    XAfterFirst(b, a, "x");
    Fmt2Injective("", a, "/", b, "", b, a);
    if Fmt2("", b, "x/", a, "") == Fmt2("", a, "/", b, "") {
      Fmt2FirstHole("", b, "x/", a, "", a, "/", b, "");
    }
    if Fmt2("", a, "/", b, "") == Fmt2("", b, "/", a, "x") {
      Fmt2FirstHole("", a, "/", b, "", b, "/", a, "x");
    }
  }

  /** `f"{b}x/{a}"` is never `f"{b}/{a}{post}"`: they part at the character after b. */
  lemma XAfterFirst(b: int, a: int, post: string)
    ensures Fmt2("", b, "x/", a, "") != Fmt2("", b, "/", a, post)
  {
    var s, t := Fmt2("", b, "x/", a, ""), Fmt2("", b, "/", a, post);
    var n := |IntStr(b)|;
    Fmt2Assoc("", IntStr(b), "x/", IntStr(a), "");
    Fmt2Assoc("", IntStr(b), "/", IntStr(a), post);
    assert s[n] == 'x' && t[n] == '/';
    DifferAt(s, t, n);
  }

  /** (x/a) × (b/x) = b/a wherever x ≠ 0. */
  lemma FractionProduct(x: real, a: real, b: real)
    requires x != 0.0 && a != 0.0
    ensures (x / a) * (b / x) == b / a
  {
    assert (x / a) * (b / x) == (x * b) / (x * a);
    CancelCommon(x, b, a);
  }

  /**
    * `gen_hidden_common_factor`, with a, b from `random.sample([2, 3, 4, 5, 6], 2)`: sampling
    * without replacement keeps the correct (x + a)/(x + b) apart from its reciprocal in A.
    */
  function HiddenCommonFactor(a: int, b: int): (rows: seq<Row>)
    requires 2 <= a <= 6 && 2 <= b <= 6 && a != b
    ensures Promises(rows, C)
    ensures rows[0].response.question == Fmt2("Simplify: (x^2 + ", a, "x) / (x^2 + ", b, "x)")
    ensures CorrectText(rows[0]) == Fmt2("(x + ", a, ")/(x + ", b, ")")
  {
    var question := Fmt2("Simplify: (x^2 + ", a, "x) / (x^2 + ", b, "x)");
    var w1, w2, c := Fmt2("(x + ", b, ")/(x + ", a, ")"), Fmt1("x + ", a, ""), Fmt2("(x + ", a, ")/(x + ", b, ")");
    Fmt2Injective("(x + ", b, ")/(x + ", a, ")", a, b);
    assert w1[0] == '(' && c[0] == '(' && w2[0] == 'x';
    DifferAt(w2, w1, 0);
    DifferAt(w2, c, 0);
    RecordsOk(question, w1, w2, c, "1", "reciprocal_error", "partial_cancel", "cancelled_whole",
              Fmt2("a=", a, ", b=", b, ""), 4);
    Records(question, w1, w2, c, "1", "reciprocal_error", "partial_cancel", "cancelled_whole",
            Fmt2("a=", a, ", b=", b, ""), 4)
  }

  /** x² + ax = x(x + a) and x² + bx = x(x + b), so the quotient is (x + a)/(x + b) wherever x ≠ 0 and x ≠ −b. */
  lemma HiddenFactor(x: real, a: real, b: real)
    requires x != 0.0 && x + b != 0.0
    ensures (x * x + a * x) / (x * x + b * x) == (x + a) / (x + b)
  {
    assert x * x + a * x == x * (x + a) && x * x + b * x == x * (x + b);
    CancelCommon(x, x + a, x + b);
  }

  // ---------------------------------------------------------------------------
  // Templates with fixed text
  // ---------------------------------------------------------------------------

  /** `gen_diff_squares_two_variable`. */
  function DiffSquaresTwoVariable(): (rows: seq<Row>)
    ensures Promises(rows, C)
    ensures rows[0].response.question == "Simplify: (x^2 - y^2) / (x + y)" && CorrectText(rows[0]) == "x - y"
  {
    DifferAt("x + y", "x - y", 2);
    RecordsOk("Simplify: (x^2 - y^2) / (x + y)", "x + y", "x^2 - y^2", "x - y", "1",
              "wrong_factor", "no_factorization", "cancelled_whole", "Given expression", 4);
    Records("Simplify: (x^2 - y^2) / (x + y)", "x + y", "x^2 - y^2", "x - y", "1",
            "wrong_factor", "no_factorization", "cancelled_whole", "Given expression", 4)
  }

  /** `gen_sum_conjugate_fractions`. */
  function SumConjugateFractions(): (rows: seq<Row>)
    ensures Promises(rows, C)
    ensures rows[0].response.question == "Simplify: (x + y)/(x - y) + (x - y)/(x + y)"
    ensures CorrectText(rows[0]) == "2(x^2 + y^2)/(x^2 - y^2)"
  {
    DifferAt("2(x^2 - y^2)/(x^2 + y^2)", "2(x^2 + y^2)/(x^2 - y^2)", 6);
    RecordsOk("Simplify: (x + y)/(x - y) + (x - y)/(x + y)", "2x/(x^2 - y^2)", "2(x^2 - y^2)/(x^2 + y^2)",
              "2(x^2 + y^2)/(x^2 - y^2)", "2", "wrong_add", "reciprocal_error", "cancel_after_add",
              "Given expression", 5);
    Records("Simplify: (x + y)/(x - y) + (x - y)/(x + y)", "2x/(x^2 - y^2)", "2(x^2 - y^2)/(x^2 + y^2)",
            "2(x^2 + y^2)/(x^2 - y^2)", "2", "wrong_add", "reciprocal_error", "cancel_after_add",
            "Given expression", 5)
  }

  /** (x + y)(x − y) = x² − y², not zero wherever x ≠ ±y. */
  lemma ConjugateProduct(x: real, y: real)
    requires x - y != 0.0 && x + y != 0.0
    ensures (x + y) * (x - y) == x * x - y * y && (x - y) * (x + y) == x * x - y * y
    ensures x * x - y * y != 0.0
  {
    NonZeroProduct(x + y, x - y);
    assert (x + y) * (x - y) == x * x - y * y;
  }

  /** (x + y)² + (x − y)² = 2(x² + y²). */
  lemma SquaresOfConjugates(x: real, y: real)
    ensures (x + y) * (x + y) + (x - y) * (x - y) == 2.0 * (x * x + y * y)
  {
  }

  /** (x + y)/(x − y) + (x − y)/(x + y) = 2(x² + y²)/(x² − y²) wherever x ≠ ±y. */
  lemma SumConjugates(x: real, y: real)
    requires x - y != 0.0 && x + y != 0.0
    ensures x * x - y * y != 0.0
    ensures (x + y) / (x - y) + (x - y) / (x + y) == 2.0 * (x * x + y * y) / (x * x - y * y)
  {
    var den := x * x - y * y;
    ConjugateProduct(x, y);
    CancelCommon(x + y, x + y, x - y);
    CancelCommon(x - y, x - y, x + y);
    AddOver((x + y) * (x + y), (x - y) * (x - y), den);
    SquaresOfConjugates(x, y);
  }

  /** `gen_difference_unit_fractions`. */
  function DifferenceUnitFractions(): (rows: seq<Row>)
    ensures Promises(rows, C)
    ensures rows[0].response.question == "Simplify: 1/(x - y) - 1/(x + y)"
    ensures CorrectText(rows[0]) == "2y/(x^2 - y^2)"
  {
    DifferAt("2x/(x^2 - y^2)", "2y/(x^2 - y^2)", 1);
    DifferAt("2y/(x^2 + y^2)", "2y/(x^2 - y^2)", 8);
    DifferAt("2x/(x^2 - y^2)", "2y/(x^2 + y^2)", 1);
    RecordsOk("Simplify: 1/(x - y) - 1/(x + y)", "2x/(x^2 - y^2)", "2y/(x^2 + y^2)", "2y/(x^2 - y^2)", "0",
              "numerator_mixup", "wrong_identity", "cancel_across_minus", "Given expression", 4);
    Records("Simplify: 1/(x - y) - 1/(x + y)", "2x/(x^2 - y^2)", "2y/(x^2 + y^2)", "2y/(x^2 - y^2)", "0",
            "numerator_mixup", "wrong_identity", "cancel_across_minus", "Given expression", 4)
  }

  /** 1/(x − y) − 1/(x + y) = 2y/(x² − y²) wherever x ≠ ±y. */
  lemma UnitDifference(x: real, y: real)
    requires x - y != 0.0 && x + y != 0.0
    ensures 1.0 / (x - y) - 1.0 / (x + y) == 2.0 * y / (x * x - y * y)
  {
    var den := (x - y) * (x + y);
    assert den == x * x - y * y;
    assert 1.0 / (x - y) == (x + y) / den by {
      CancelCommon(x + y, 1.0, x - y);
    }
    assert 1.0 / (x + y) == (x - y) / den by {
      CancelCommon(x - y, 1.0, x + y);
    }
  }

  /** `gen_cubic_identity_sum`. */
  function CubicIdentitySum(): (rows: seq<Row>)
    ensures Promises(rows, C)
    ensures rows[0].response.question == "Simplify: (a^3 + 1)/(a^2 - a + 1) + (a^3 - 1)/(a^2 + a + 1)"
    ensures CorrectText(rows[0]) == "2a"
  {
    RecordsOk("Simplify: (a^3 + 1)/(a^2 - a + 1) + (a^3 - 1)/(a^2 + a + 1)", "2", "a", "2a", "2a^2",
              "cancel_cubic", "half_result", "power_error", "Given expression", 5);
    Records("Simplify: (a^3 + 1)/(a^2 - a + 1) + (a^3 - 1)/(a^2 + a + 1)", "2", "a", "2a", "2a^2",
            "cancel_cubic", "half_result", "power_error", "Given expression", 5)
  }

  /** a² − a + 1 and a² + a + 1 are positive for every real a. */
  lemma CubicDenominatorsPositive(a: real)
    ensures a * a - a + 1.0 > 0.0 && a * a + a + 1.0 > 0.0
  {
    assert a * a - a + 1.0 == (a - 0.5) * (a - 0.5) + 0.75;
    assert a * a + a + 1.0 == (a + 0.5) * (a + 0.5) + 0.75;
  }

  /** a³ ± 1 = (a ± 1)(a² ∓ a + 1), so the two quotients add up to 2a for every real a. */
  lemma CubicSum(a: real)
    ensures a * a * a + 1.0 == (a + 1.0) * (a * a - a + 1.0)
    ensures a * a * a - 1.0 == (a - 1.0) * (a * a + a + 1.0)
    ensures (a * a * a + 1.0) / (a * a - a + 1.0) + (a * a * a - 1.0) / (a * a + a + 1.0) == 2.0 * a
  {
    CubicDenominatorsPositive(a);
    DivIs(a * a * a + 1.0, a * a - a + 1.0, a + 1.0);
    DivIs(a * a * a - 1.0, a * a + a + 1.0, a - 1.0);
  }

  /** `gen_conjugate_mixed_expression`. */
  function ConjugateMixedExpression(): (rows: seq<Row>)
    ensures Promises(rows, C)
    ensures rows[0].response.question == "Simplify: (4x^2 + y^2)/(4x^2 - y^2) - (2x - y)/(2x + y)"
    ensures CorrectText(rows[0]) == "4xy/(4x^2 - y^2)"
  {
    DifferAt("4xy/(4x^2 + y^2)", "4xy/(4x^2 - y^2)", 10);
    DifferAt("4xy/(4x^2 + y^2)", "2y/(4x^2 - y^2)", 0);
    DifferAt("2y/(4x^2 - y^2)", "4xy/(4x^2 - y^2)", 0);
    RecordsOk("Simplify: (4x^2 + y^2)/(4x^2 - y^2) - (2x - y)/(2x + y)", "4xy/(4x^2 + y^2)", "2y/(4x^2 - y^2)",
              "4xy/(4x^2 - y^2)", "0", "wrong_denominator", "missing_factor_2x", "assumed_cancels",
              "Given expression", 5);
    Records("Simplify: (4x^2 + y^2)/(4x^2 - y^2) - (2x - y)/(2x + y)", "4xy/(4x^2 + y^2)", "2y/(4x^2 - y^2)",
            "4xy/(4x^2 - y^2)", "0", "wrong_denominator", "missing_factor_2x", "assumed_cancels",
            "Given expression", 5)
  }

  /** (4x² + y²)/(4x² − y²) − (2x − y)/(2x + y) = 4xy/(4x² − y²) wherever 2x ≠ ±y. */
  lemma ConjugateMixed(x: real, y: real)
    requires 2.0 * x - y != 0.0 && 2.0 * x + y != 0.0
    ensures (4.0 * x * x + y * y) / (4.0 * x * x - y * y) - (2.0 * x - y) / (2.0 * x + y)
         == 4.0 * x * y / (4.0 * x * x - y * y)
  {
    var den := (2.0 * x - y) * (2.0 * x + y);
    assert den == 4.0 * x * x - y * y;
    assert den != 0.0;
    assert (2.0 * x - y) / (2.0 * x + y) == ((2.0 * x - y) * (2.0 * x - y)) / den by {
      CancelCommon(2.0 * x - y, 2.0 * x - y, 2.0 * x + y);
    }
    assert (4.0 * x * x + y * y) - (2.0 * x - y) * (2.0 * x - y) == 4.0 * x * y;
  }

  /** `gen_simplifies_to_zero`. */
  function SimplifiesToZero(): (rows: seq<Row>)
    ensures Promises(rows, C)
    ensures rows[0].response.question == "Simplify: (x + y)/(x^2 - y^2) - (x - y)/(x^2 - y^2) - 2y/(x^2 - y^2)"
    ensures CorrectText(rows[0]) == "0"
  {
    DifferAt("2y/(x^2 - y^2)", "2x/(x^2 - y^2)", 1);
    RecordsOk("Simplify: (x + y)/(x^2 - y^2) - (x - y)/(x^2 - y^2) - 2y/(x^2 - y^2)", "2y/(x^2 - y^2)",
              "2x/(x^2 - y^2)", "0", "1", "forgot_third_term", "wrong_subtract", "random_cancel", "Given expression", 4);
    Records("Simplify: (x + y)/(x^2 - y^2) - (x - y)/(x^2 - y^2) - 2y/(x^2 - y^2)", "2y/(x^2 - y^2)",
            "2x/(x^2 - y^2)", "0", "1", "forgot_third_term", "wrong_subtract", "random_cancel", "Given expression", 4)
  }

  /** Over a common non-zero denominator the three numerators cancel: the value is 0. */
  lemma ZeroSum(x: real, y: real)
    requires x * x - y * y != 0.0
    ensures (x + y) / (x * x - y * y) - (x - y) / (x * x - y * y) - 2.0 * y / (x * x - y * y) == 0.0
  {
    var den := x * x - y * y;
    assert (x + y) / den - (x - y) / den - 2.0 * y / den == ((x + y) - (x - y) - 2.0 * y) / den;
  }

  /**
    * `gen_three_term_factor_denominators`. The template overwrites option C with the right answer
    * 3(a − 5)/((a − 3)(a − 6)), which is already option B's text: the record names C correct while
    * B carries the same text, so it never has exactly one correct option.
    */
  function ThreeTermFactorDenominators(): (rows: seq<Row>)
    ensures |rows| == 2 && WellFormedMcq(rows[0]) && rows[0].response.correctOption == C
    ensures CorrectText(rows[0]) == "3(a - 5)/((a - 3)(a - 6))"
    ensures rows[0].response.options[B] == CorrectText(rows[0])
    ensures !ExactlyOneCorrect(rows[0]) && !AllOptionsDistinct(rows[0])
    ensures rows[1].response.SolveResponse? && rows[1].response.finalAnswer == CorrectText(rows[0])
  {
    OverwrittenRows("Simplify: (a - 1)/(a^2 - 4a + 3) + (a - 2)/(a^2 - 8a + 12) + (a - 5)/(a^2 - 8a + 15)",
                    "3/((a - 2)(a - 3))", "3(a - 5)/((a - 3)(a - 6))", "3(a - 5)/((a - 2)(a - 3))",
                    "3(a - 5)/((a - 2)(a - 5))")
  }

  /**
   * The record built with `stale` in slot C whose slot C is then overwritten with `actual`,
   * which option B already holds: B and C coincide, so the record has two correct options.
   */
  function OverwrittenRows(question: string, w1: string, actual: string, stale: string, w3: string): (rows: seq<Row>)
    ensures |rows| == 2 && WellFormedMcq(rows[0]) && rows[0].response.correctOption == C
    ensures CorrectText(rows[0]) == actual && rows[0].response.options[B] == actual
    ensures !ExactlyOneCorrect(rows[0]) && !AllOptionsDistinct(rows[0])
    ensures rows[1].response.SolveResponse? && rows[1].response.finalAnswer == actual
  {
    var options := Options(w1, actual, stale, w3)[C := actual];
    assert options == Options(w1, actual, actual, w3);
    OptionsOneCorrect(w1, actual, actual, w3, C);
    [McqRow(Chapter_, question, options, C, Rationales(C, "dropped_factor", "wrong_factorization", "cancelled_wrong"), 5),
     SolveRow(Chapter_, question, "Given expression", actual, 5)]
  }

  /** The three denominators factor as the steps say: (a − 1)(a − 3), (a − 2)(a − 6) and (a − 3)(a − 5). */
  lemma ThreeTermFactorizations(a: real)
    ensures a * a - 4.0 * a + 3.0 == (a - 1.0) * (a - 3.0)
    ensures a * a - 8.0 * a + 12.0 == (a - 2.0) * (a - 6.0)
    ensures a * a - 8.0 * a + 15.0 == (a - 3.0) * (a - 5.0)
  {
  }

  /** After cancelling, the sum is 3(a − 5)/((a − 3)(a − 6)) wherever no denominator vanishes. */
  lemma ThreeTermSum(a: real)
    requires a != 1.0 && a != 2.0 && a != 3.0 && a != 5.0 && a != 6.0
    ensures a * a - 4.0 * a + 3.0 != 0.0 && a * a - 8.0 * a + 12.0 != 0.0 && a * a - 8.0 * a + 15.0 != 0.0
    ensures (a - 3.0) * (a - 6.0) != 0.0
    ensures (a - 1.0) / (a * a - 4.0 * a + 3.0) + (a - 2.0) / (a * a - 8.0 * a + 12.0) + (a - 5.0) / (a * a - 8.0 * a + 15.0)
         == 3.0 * (a - 5.0) / ((a - 3.0) * (a - 6.0))
  {
    CancelFactor(a, 1.0, 3.0, -4.0, 3.0);
    CancelFactor(a, 2.0, 6.0, -8.0, 12.0);
    CancelFactor(a, 5.0, 3.0, -8.0, 15.0);
    PartialSum(a);
  }

  /** (a − r)/(a² + pa + q) = 1/(a − s) when a² + pa + q factors as (a − r)(a − s) and a ≠ r, s. */
  lemma CancelFactor(a: real, r: real, s: real, p: real, q: real)
    requires p == -(r + s) && q == r * s && a != r && a != s
    ensures a * a + p * a + q != 0.0
    ensures (a - r) / (a * a + p * a + q) == 1.0 / (a - s)
  {
    assert a * a + p * a + q == (a - r) * (a - s);
    NonZeroProduct(a - r, a - s);
    CancelCommon(a - r, 1.0, a - s);
  }

  /** 1/(a − 3) + 1/(a − 6) + 1/(a − 3) = 3(a − 5)/((a − 3)(a − 6)) wherever a ≠ 3, 6. */
  lemma PartialSum(a: real)
    requires a != 3.0 && a != 6.0
    ensures (a - 3.0) * (a - 6.0) != 0.0
    ensures 1.0 / (a - 3.0) + 1.0 / (a - 6.0) + 1.0 / (a - 3.0) == 3.0 * (a - 5.0) / ((a - 3.0) * (a - 6.0))
  {
    var den := (a - 3.0) * (a - 6.0);
    NonZeroProduct(a - 3.0, a - 6.0);
    assert (a - 6.0) * (a - 3.0) == den;
    CancelCommon(a - 6.0, 1.0, a - 3.0);
    CancelCommon(a - 3.0, 1.0, a - 6.0);
    AddOver(a - 6.0, a - 3.0, den);
    AddOver((a - 6.0) + (a - 3.0), a - 6.0, den);
    assert (a - 6.0) + (a - 3.0) + (a - 6.0) == 3.0 * (a - 5.0);
  }

  /** Real powers with a natural exponent. */
  function RPow(x: real, e: nat): real
    decreases e
  {
    if e == 0 then 1.0 else x * RPow(x, e - 1)
  }

  /** x^(i+j) = x^i · x^j. */
  lemma {:induction false} RPowAdd(x: real, i: nat, j: nat)
    ensures RPow(x, i + j) == RPow(x, i) * RPow(x, j)
    decreases i
  {
    if i > 0 {
      RPowAdd(x, i - 1, j);
      assert RPow(x, i + j) == x * RPow(x, i - 1 + j);
    }
  }

  /** A non-zero base has non-zero powers. */
  lemma {:induction false} RPowNonZero(x: real, e: nat)
    requires x != 0.0
    ensures RPow(x, e) != 0.0
    decreases e
  {
    if e > 0 {
      RPowNonZero(x, e - 1);
    }
  }

  const PowM := 4
  const PowP := 1
  const PowN := 2
  const PowQ := 5

  /** `gen_power_cancellation`, with its fixed exponents m = 4, p = 1, n = 2, q = 5. */
  function PowerCancellation(): (rows: seq<Row>)
    ensures Promises(rows, C)
    ensures CorrectText(rows[0]) == Fmt2("x^", PowM - PowP, "/y^", PowQ - PowN, "")
    ensures CorrectText(rows[0]) == "x^3/y^3"
  {
    var question := "Simplify: (x^" + IntStr(PowM) + " y^" + IntStr(PowN) + ")/(x^" + IntStr(PowP) + " y^"
                    + IntStr(PowQ) + ")";
    var w1 := Fmt2("x^", PowM + PowP, "/y^", PowQ + PowN, "");
    var w2 := Fmt2("x^", PowM - PowP, "y^", PowN - PowQ, "");
    var c := Fmt2("x^", PowM - PowP, "/y^", PowQ - PowN, "");
    var w3 := Fmt2("y^", PowQ - PowN, "/x^", PowM - PowP, "");
    PowerTexts();
    RecordsOk(question, w1, w2, c, w3, "power_rule_wrong", "sign_error", "inverted_result",
              "m=" + IntStr(PowM) + ", p=" + IntStr(PowP) + ", n=" + IntStr(PowN) + ", q=" + IntStr(PowQ), 4);
    Records(question, w1, w2, c, w3, "power_rule_wrong", "sign_error", "inverted_result",
            "m=" + IntStr(PowM) + ", p=" + IntStr(PowP) + ", n=" + IntStr(PowN) + ", q=" + IntStr(PowQ), 4)
  }

  /** The printed answers of `gen_power_cancellation`. */
  lemma PowerTexts()
    ensures Fmt2("x^", PowM + PowP, "/y^", PowQ + PowN, "") == "x^5/y^7"
    ensures Fmt2("x^", PowM - PowP, "y^", PowN - PowQ, "") == "x^3y^-3"
    ensures Fmt2("x^", PowM - PowP, "/y^", PowQ - PowN, "") == "x^3/y^3"
    ensures Fmt2("y^", PowQ - PowN, "/x^", PowM - PowP, "") == "y^3/x^3"
  {
    assert IntStr(3) == "3" && IntStr(5) == "5" && IntStr(7) == "7";
    assert IntStr(-3) == "-3";
  }

  /**
   * The quotient law behind the correct option: x^(p+r)·y^n / (x^p·y^(n+s)) = x^r / y^s
   * for non-zero x, y and every choice of exponents; the template instantiates it with
   * p = 1, r = 3, n = 2, s = 3. Each power is passed under a name of its own, which keeps
   * the real arithmetic linear in the power terms.
   */
  lemma PowerQuotient(x: real, y: real, p: nat, r: nat, n: nat, s: nat,
                      xm: real, xp: real, xr: real, yn: real, yq: real, ys: real)
    requires x != 0.0 && y != 0.0
    requires xm == RPow(x, p + r) && xp == RPow(x, p) && xr == RPow(x, r)
    requires yn == RPow(y, n) && yq == RPow(y, n + s) && ys == RPow(y, s)
    ensures xp * yq != 0.0 && ys != 0.0
    ensures xm * yn / (xp * yq) == xr / ys
  {
    RPowAdd(x, p, r);
    RPowAdd(y, n, s);
    RPowNonZero(x, p);
    RPowNonZero(y, n);
    RPowNonZero(y, s);
    CancelPowers(xm, xp, xr, yn, yq, ys);
  }

  /** x^m·y^n / (x^p·y^q) = x^r / y^s when x^m = x^p·x^r and y^q = y^n·y^s, with each power named. */
  lemma CancelPowers(xm: real, xp: real, xr: real, yn: real, yq: real, ys: real)
    requires xm == xp * xr && yq == yn * ys
    requires xp != 0.0 && yn != 0.0 && ys != 0.0
    ensures xp * yq != 0.0
    ensures xm * yn / (xp * yq) == xr / ys
  {
    NonZeroProduct(xp, yn);
    assert xm * yn == (xp * yn) * xr;
    assert xp * yq == (xp * yn) * ys;
    NonZeroProduct(xp * yn, ys);
    CancelCommon(xp * yn, xr, ys);
  }

  /** `gen_complex_fraction_division`. */
  function ComplexFractionDivision(): (rows: seq<Row>)
    ensures Promises(rows, C)
    ensures rows[0].response.question == "Simplify: (x/(x+1)) / ((x+2)/(x+1))" && CorrectText(rows[0]) == "x/(x+2)"
  {
    DifferAt("x/(x+1)", "x/(x+2)", 5);
    RecordsOk("Simplify: (x/(x+1)) / ((x+2)/(x+1))", "(x+2)/x", "x/(x+1)", "x/(x+2)", "(x+1)/(x+2)",
              "reciprocal_error", "no_division_rule", "cancel_wrong", "Given expression", 5);
    Records("Simplify: (x/(x+1)) / ((x+2)/(x+1))", "(x+2)/x", "x/(x+1)", "x/(x+2)", "(x+1)/(x+2)",
            "reciprocal_error", "no_division_rule", "cancel_wrong", "Given expression", 5)
  }

  /** (x/(x+1)) / ((x+2)/(x+1)) = x/(x+2) wherever x ≠ −1 and x ≠ −2. */
  lemma ComplexDivision(x: real)
    requires x + 1.0 != 0.0 && x + 2.0 != 0.0
    ensures (x / (x + 1.0)) / ((x + 2.0) / (x + 1.0)) == x / (x + 2.0)
  {
    var u, v := x / (x + 1.0), (x + 2.0) / (x + 1.0);
    assert v != 0.0;
    assert u == (x / (x + 2.0)) * v;
    DivIs(u, v, x / (x + 2.0));
  }

  /** `gen_numeric_algebraic_mix`. */
  function NumericAlgebraicMix(): (rows: seq<Row>)
    ensures Promises(rows, C)
    ensures rows[0].response.question == "Simplify: (6x^2)/(9x)" && CorrectText(rows[0]) == "2x/3"
  {
    RecordsOk("Simplify: (6x^2)/(9x)", "3x/2", "2/x3", "2x/3", "2x", "reciprocal_error", "format_error",
              "no_numeric_reduce", "Given expression", 3);
    Records("Simplify: (6x^2)/(9x)", "3x/2", "2/x3", "2x/3", "2x", "reciprocal_error", "format_error",
            "no_numeric_reduce", "Given expression", 3)
  }

  /** 6x²/(9x) = 2x/3 wherever x ≠ 0. */
  lemma NumericMix(x: real)
    requires x != 0.0
    ensures (6.0 * x * x) / (9.0 * x) == 2.0 * x / 3.0
  {
    DivIs(6.0 * x * x, 9.0 * x, 2.0 * x / 3.0);
  }

  /** `gen_identity_difference_of_squares`. */
  function IdentityDifferenceOfSquares(): (rows: seq<Row>)
    ensures Promises(rows, C)
    ensures rows[0].response.question == "Simplify: ((x+y)^2 - (x-y)^2)/(4xy)" && CorrectText(rows[0]) == "1"
  {
    RecordsOk("Simplify: ((x+y)^2 - (x-y)^2)/(4xy)", "0", "x/y", "1", "y/x", "cancelled_whole", "wrong_expand",
              "inverted_ratio", "Given expression", 5);
    Records("Simplify: ((x+y)^2 - (x-y)^2)/(4xy)", "0", "x/y", "1", "y/x", "cancelled_whole", "wrong_expand",
            "inverted_ratio", "Given expression", 5)
  }

  /** ((x + y)² − (x − y)²)/(4xy) = 1 wherever xy ≠ 0. */
  lemma IdentityDiffSquares(x: real, y: real)
    requires x * y != 0.0
    ensures ((x + y) * (x + y) - (x - y) * (x - y)) / (4.0 * x * y) == 1.0
  {
    DivIs((x + y) * (x + y) - (x - y) * (x - y), 4.0 * x * y, 1.0);
  }

  /** `gen_parameterized_fraction`. */
  function ParameterizedFraction(): (rows: seq<Row>)
    ensures Promises(rows, C)
    ensures rows[0].response.question == "Simplify: (ax + ay)/(bx + by)" && CorrectText(rows[0]) == "a/b"
  {
    RecordsOk("Simplify: (ax + ay)/(bx + by)", "b/a", "a", "a/b", "(x+y)", "reciprocal_error",
              "dropped_denominator", "cancelled_coeff", "Given expression", 4);
    Records("Simplify: (ax + ay)/(bx + by)", "b/a", "a", "a/b", "(x+y)", "reciprocal_error",
            "dropped_denominator", "cancelled_coeff", "Given expression", 4)
  }

  /** (ax + ay)/(bx + by) = a/b wherever b ≠ 0 and x + y ≠ 0. */
  lemma Parameterized(a: real, b: real, x: real, y: real)
    requires b != 0.0 && x + y != 0.0
    ensures (a * x + a * y) / (b * x + b * y) == a / b
  {
    assert a * x + a * y == (x + y) * a && b * x + b * y == (x + y) * b;
    CancelCommon(x + y, a, b);
  }
}
