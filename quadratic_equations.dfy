/**
  * The quadratic-equation templates: each draws small integers, prints an equation, and offers
  * a fixed dict of four answers with the correct one under C (the nature-of-roots template picks
  * its key from the discriminant instead).
  */
module QuadraticEquations {
  import opened Text
  import opened Wrappers
  import opened Mcq
  import opened Arith

  const Chapter_ := Chapter(
    "quadratic_equations",
    "You are an NEB Grade 10 Mathematics question generator. Output MUST be STRICT JSON only.",
    "You are an NEB Grade 10 Mathematics tutor. Output MUST be STRICT JSON only.",
    "Quadratic Equations",
    "- One NEB-style question\n- 4 options (A,B,C,D)\n- Exactly one correct\n"
    + "- Distractors must be common student mistakes\n- Return STRICT JSON only",
    "Solve step by step:\n",
    "Roots")

  /** The two records of a template of this chapter whose option dict has C correct. */
  function Records(question: string, a: string, b: string, c: string, d: string,
                   t1: string, t2: string, t3: string, given: string, difficulty: int): seq<Row>
  {
    FixedRows(Chapter_, question, a, b, c, d, C, t1, t2, t3, given, c, difficulty)
  }

  /** Four distinct texts make records with exactly one correct answer, C, and rationales for A, B and D. */
  lemma RecordsOk(question: string, a: string, b: string, c: string, d: string,
                  t1: string, t2: string, t3: string, given: string, difficulty: int)
    requires Distinct4(a, b, c, d)
    ensures var rows := Records(question, a, b, c, d, t1, t2, t3, given, difficulty);
      && Promises(rows, C) && rows[0].response.distractors.Keys == {A, B, D}
      && rows[0].response.question == question && CorrectText(rows[0]) == c
      && rows[1].response.given == given
  {
    FixedRowsOk(Chapter_, question, a, b, c, d, C, t1, t2, t3, given, difficulty);
    assert AllKeys - {C} == {A, B, D};
  }

  // ---------------------------------------------------------------------------
  // 1) x² + bx + c = 0
  // ---------------------------------------------------------------------------

  /** `gen_simple_factorization`, with `random.sample(range(1, 10), 2)` drawn as r1, r2. */
  function SimpleFactorization(r1: int, r2: int): (rows: seq<Row>)
    requires 1 <= r1 <= 9 && 1 <= r2 <= 9 && r1 != r2
    ensures Promises(rows, C)
    ensures rows[0].response.question == Fmt2("Solve: x² + ", r1 + r2, "x + ", r1 * r2, " = 0")
    ensures CorrectText(rows[0]) == Fmt2("x = ", -r1, ", ", -r2, "")
    ensures rows[1].response.given == Fmt2("b=", r1 + r2, ", c=", r1 * r2, "")
  {
    SimpleRows(r1, r2, r1 + r2, r1 * r2)
  }

  /** The records of `gen_simple_factorization` once b and c are known. */
  function SimpleRows(r1: int, r2: int, b: int, c: int): (rows: seq<Row>)
    requires r1 >= 1 && r2 >= 1 && r1 != r2 && b == r1 + r2
    ensures Promises(rows, C)
    ensures rows[0].response.question == Fmt2("Solve: x² + ", b, "x + ", c, " = 0")
    ensures CorrectText(rows[0]) == Fmt2("x = ", -r1, ", ", -r2, "")
    ensures rows[1].response.given == Fmt2("b=", b, ", c=", c, "")
  {
    var question := Fmt2("Solve: x² + ", b, "x + ", c, " = 0");
    Pairs4("x = ", ", ", "", r1, r2, -b, -c, -r1, -r2, b, c);
    RecordsOk(question, Fmt2("x = ", r1, ", ", r2, ""), Fmt2("x = ", -b, ", ", -c, ""),
              Fmt2("x = ", -r1, ", ", -r2, ""), Fmt2("x = ", b, ", ", c, ""),
              "sign_error", "coefficient_as_root", "concept_error", Fmt2("b=", b, ", c=", c, ""), 1);
    Records(question, Fmt2("x = ", r1, ", ", r2, ""), Fmt2("x = ", -b, ", ", -c, ""),
            Fmt2("x = ", -r1, ", ", -r2, ""), Fmt2("x = ", b, ", ", c, ""),
            "sign_error", "coefficient_as_root", "concept_error", Fmt2("b=", b, ", c=", c, ""), 1)
  }

  /** x² + (r1+r2)x + r1·r2 = 0 has the roots −r1 and −r2 and no others. */
  lemma SimpleRoots(r1: int, r2: int, t: int)
    ensures t * t + (r1 + r2) * t + r1 * r2 == 0 <==> t == -r1 || t == -r2
  {
    SumProductRoots(-r1, -r2, t);
    assert (-r1) * (-r2) == r1 * r2;
    assert -(-r1 + -r2) * t == (r1 + r2) * t;
  }

  // ---------------------------------------------------------------------------
  // 2) ax² + bx + c = 0
  // ---------------------------------------------------------------------------

  /** The question of `gen_general_factorization`. */
  function GeneralQuestion(a: int, b: int, c: int): string {
    "Solve: " + IntStr(a) + "x² + " + IntStr(b) + "x + " + IntStr(c) + " = 0"
  }

  /** `gen_general_factorization`, with a drawn from [2, 3] and r1, r2 sampled from 1..6. */
  function GeneralFactorization(a: int, r1: int, r2: int): (rows: seq<Row>)
    requires (a == 2 || a == 3) && 1 <= r1 <= 6 && 1 <= r2 <= 6 && r1 != r2
    ensures Promises(rows, C)
    ensures rows[0].response.question == GeneralQuestion(a, a * (r1 + r2), a * r1 * r2)
    ensures CorrectText(rows[0]) == Fmt2("x = ", -r1, ", ", -r2, "")
  {
    GeneralRows(a, r1, r2, a * (r1 + r2), a * r1 * r2)
  }

  /** The records of `gen_general_factorization` once b and c are known. */
  function GeneralRows(a: int, r1: int, r2: int, b: int, c: int): (rows: seq<Row>)
    requires r1 >= 1 && r2 >= 1 && r1 != r2 && b > r1 + r2
    ensures Promises(rows, C)
    ensures rows[0].response.question == GeneralQuestion(a, b, c)
    ensures CorrectText(rows[0]) == Fmt2("x = ", -r1, ", ", -r2, "")
  {
    var question := GeneralQuestion(a, b, c);
    var given := "a=" + IntStr(a) + ", b=" + IntStr(b) + ", c=" + IntStr(c);
    Pairs4("x = ", ", ", "", r1, r2, -b, -c, -r1, -r2, -r1, r2);
    RecordsOk(question, Fmt2("x = ", r1, ", ", r2, ""), Fmt2("x = ", -b, ", ", -c, ""),
              Fmt2("x = ", -r1, ", ", -r2, ""), Fmt2("x = ", -r1, ", ", r2, ""),
              "sign_error", "coefficient_confusion", "partial_root_error", given, 2);
    Records(question, Fmt2("x = ", r1, ", ", r2, ""), Fmt2("x = ", -b, ", ", -c, ""),
            Fmt2("x = ", -r1, ", ", -r2, ""), Fmt2("x = ", -r1, ", ", r2, ""),
            "sign_error", "coefficient_confusion", "partial_root_error", given, 2)
  }

  /** a(x + r1)(x + r2) expands to ax² + a(r1+r2)x + a·r1·r2. */
  lemma GeneralExpansion(a: int, r1: int, r2: int, t: int)
    ensures a * ((t + r1) * (t + r2)) == a * (t * t) + a * (r1 + r2) * t + a * r1 * r2
  {
    assert (t + r1) * (t + r2) == t * t + (r1 + r2) * t + r1 * r2;
    assert a * (t * t + (r1 + r2) * t + r1 * r2) == a * (t * t) + a * ((r1 + r2) * t) + a * (r1 * r2);
  }

  /** With a ≠ 0 the roots of ax² + a(r1+r2)x + a·r1·r2 = 0 are exactly −r1 and −r2. */
  lemma GeneralRoots(a: int, r1: int, r2: int, t: int)
    requires a != 0
    ensures a * (t * t) + a * (r1 + r2) * t + a * r1 * r2 == 0 <==> t == -r1 || t == -r2
  {
    GeneralExpansion(a, r1, r2, t);
    ZeroProduct(a, (t + r1) * (t + r2));
    ZeroProduct(t + r1, t + r2);
  }

  // ---------------------------------------------------------------------------
  // 3) Completing the square
  // ---------------------------------------------------------------------------

  /** `gen_completing_square`, with r1, r2 sampled from 1..8; the roots are `Arith.SumProductRoots`. */
  function CompletingSquare(r1: int, r2: int): (rows: seq<Row>)
    requires 1 <= r1 <= 8 && 1 <= r2 <= 8 && r1 != r2
    ensures Promises(rows, C)
    ensures rows[0].response.question
      == Fmt2("Solve by completing the square: x² - ", r1 + r2, "x + ", r1 * r2, " = 0")
    ensures CorrectText(rows[0]) == Fmt2("x = ", r1, ", ", r2, "")
  {
    CompletingRows(r1, r2, r1 + r2, r1 * r2)
  }

  /** The records of `gen_completing_square` once b and c are known. */
  function CompletingRows(r1: int, r2: int, b: int, c: int): (rows: seq<Row>)
    requires r1 >= 1 && r2 >= 1 && r1 != r2 && b == r1 + r2
    ensures Promises(rows, C)
    ensures rows[0].response.question == Fmt2("Solve by completing the square: x² - ", b, "x + ", c, " = 0")
    ensures CorrectText(rows[0]) == Fmt2("x = ", r1, ", ", r2, "")
  {
    var question := Fmt2("Solve by completing the square: x² - ", b, "x + ", c, " = 0");
    Pairs4("x = ", ", ", "", -r1, -r2, r1, -r2, r1, r2, b, c);
    RecordsOk(question, Fmt2("x = ", -r1, ", ", -r2, ""), Fmt2("x = ", r1, ", ", -r2, ""),
              Fmt2("x = ", r1, ", ", r2, ""), Fmt2("x = ", b, ", ", c, ""),
              "sign_error", "one_root_only", "concept_error", Fmt2("b=", b, ", c=", c, ""), 2);
    Records(question, Fmt2("x = ", -r1, ", ", -r2, ""), Fmt2("x = ", r1, ", ", -r2, ""),
            Fmt2("x = ", r1, ", ", r2, ""), Fmt2("x = ", b, ", ", c, ""),
            "sign_error", "one_root_only", "concept_error", Fmt2("b=", b, ", c=", c, ""), 2)
  }

  // ---------------------------------------------------------------------------
  // 4) Quadratic formula: the retry on a non-positive discriminant
  // ---------------------------------------------------------------------------

  /** One draw of `gen_quadratic_formula`: a from [1, 2], b from -8..8, c from -6..6. */
  predicate FormulaDraw(draw: (int, int, int)) {
    (draw.0 == 1 || draw.0 == 2) && -8 <= draw.1 <= 8 && -6 <= draw.2 <= 6
  }

  function Discriminant(a: int, b: int, c: int): int {
    b * b - 4 * a * c
  }

  /**
    * The draw `gen_quadratic_formula` keeps: it calls itself again while d <= 0, so it settles on
    * the first draw with d > 0. None when the given draws run out first.
    */
  function FormulaAccepted(draws: seq<(int, int, int)>): (r: Option<nat>)
    ensures r.Some? ==> r.value < |draws| && Discriminant(draws[r.value].0, draws[r.value].1, draws[r.value].2) > 0
    ensures r.Some? ==> forall i :: 0 <= i < r.value ==> Discriminant(draws[i].0, draws[i].1, draws[i].2) <= 0
    ensures r.None? <==> forall i :: 0 <= i < |draws| ==> Discriminant(draws[i].0, draws[i].1, draws[i].2) <= 0
  {
    if |draws| == 0 then None
    else if Discriminant(draws[0].0, draws[0].1, draws[0].2) > 0 then Some(0)
    else match FormulaAccepted(draws[1..])
      case None => None
      case Some(i) => Some(i + 1)
  }

  /** The integer part of a `gen_quadratic_formula` record: the coefficients, d, the question and `given`. */
  datatype FormulaSetup = FormulaSetup(a: int, b: int, c: int, d: int, question: string, given: string)

  /** `gen_quadratic_formula` up to the roots, which it computes in floating point. */
  function QuadraticFormula(draws: seq<(int, int, int)>): (r: Option<FormulaSetup>)
    requires forall i :: 0 <= i < |draws| ==> FormulaDraw(draws[i])
    ensures r.Some? ==> r.value.d == Discriminant(r.value.a, r.value.b, r.value.c) && r.value.d > 0
    ensures r.Some? ==> (r.value.a, r.value.b, r.value.c) in draws && FormulaDraw((r.value.a, r.value.b, r.value.c))
    ensures r.Some? ==> (r.value.question
      == "Solve using quadratic formula: " + IntStr(r.value.a) + "x² + " + IntStr(r.value.b) + "x + "
         + IntStr(r.value.c) + " = 0")
    ensures r.None? <==> forall i :: 0 <= i < |draws| ==> Discriminant(draws[i].0, draws[i].1, draws[i].2) <= 0
  {
    match FormulaAccepted(draws)
    case None => None
    case Some(i) =>
      var (a, b, c) := draws[i];
      Some(FormulaSetup(a, b, c, Discriminant(a, b, c),
                        "Solve using quadratic formula: " + IntStr(a) + "x² + " + IntStr(b) + "x + " + IntStr(c) + " = 0",
                        "a=" + IntStr(a) + ", b=" + IntStr(b) + ", c=" + IntStr(c)))
  }

  // ---------------------------------------------------------------------------
  // 5) Nature of roots
  // ---------------------------------------------------------------------------

  const NatureTexts: set<string> := {"two equal real roots", "two distinct real roots", "no real roots"}

  /** The `nature` string picked from the sign of the discriminant. */
  function Nature(d: int): (n: string)
    ensures n in NatureTexts
  {
    if d > 0 then "two distinct real roots"
    else if d == 0 then "two equal real roots"
    else "no real roots"
  }

  /** `correct_map[nature]`. */
  function NatureKey(nature: string): Key
    requires nature in NatureTexts
  {
    map["two equal real roots" := A, "two distinct real roots" := B, "no real roots" := C][nature]
  }

  const NatureOptions := Options("Two equal real roots", "Two distinct real roots", "No real roots", "One real root")

  /** `gen_nature_of_roots`, with a from [1, 2], b from 2..10 and c from 1..10. */
  function NatureOfRoots(a: int, b: int, c: int): (rows: seq<Row>)
    requires (a == 1 || a == 2) && 2 <= b <= 10 && 1 <= c <= 10
    ensures |rows| == 2 && ExactlyOneCorrect(rows[0]) && AllOptionsDistinct(rows[0])
    ensures rows[0].response.options.Keys == AllKeys && rows[0].response.distractors == map[]
    ensures !WellFormedMcq(rows[0]) && rows[0].response.correctOption != D
    ensures rows[0].response.correctOption == B <==> Discriminant(a, b, c) > 0
    ensures rows[0].response.correctOption == A <==> Discriminant(a, b, c) == 0
    ensures rows[0].response.correctOption == C <==> Discriminant(a, b, c) < 0
    ensures rows[1].response.SolveResponse? && CorrectText(rows[0]) == UpperFirst(rows[1].response.finalAnswer)
    ensures rows[0].response.question
      == "Find the nature of roots of " + IntStr(a) + "x² + " + IntStr(b) + "x + " + IntStr(c) + " = 0"
  {
    NatureRows(a, b, c, Discriminant(a, b, c))
  }

  /** The records of `gen_nature_of_roots` once d is known. */
  function NatureRows(a: int, b: int, c: int, d: int): (rows: seq<Row>)
    ensures |rows| == 2 && ExactlyOneCorrect(rows[0]) && AllOptionsDistinct(rows[0])
    ensures rows[0].response.options.Keys == AllKeys && rows[0].response.distractors == map[]
    ensures !WellFormedMcq(rows[0]) && rows[0].response.correctOption != D
    ensures rows[0].response.correctOption == B <==> d > 0
    ensures rows[0].response.correctOption == A <==> d == 0
    ensures rows[0].response.correctOption == C <==> d < 0
    ensures rows[1].response.SolveResponse? && CorrectText(rows[0]) == UpperFirst(rows[1].response.finalAnswer)
    ensures rows[0].response.question
      == "Find the nature of roots of " + IntStr(a) + "x² + " + IntStr(b) + "x + " + IntStr(c) + " = 0"
  {
    var question := "Find the nature of roots of " + IntStr(a) + "x² + " + IntStr(b) + "x + " + IntStr(c) + " = 0";
    var nature := Nature(d);
    var given := "a=" + IntStr(a) + ", b=" + IntStr(b) + ", c=" + IntStr(c);
    NatureOptionsDistinct();
    var k := NatureKey(nature);
    NatureKeyOf(d);
    NatureAnswer(d);
    DistinctHasOneCorrect(NatureOptions, k);
    assert k != D ==> D in AllKeys - {k};
    [McqRow(Chapter_, question, NatureOptions, k, map[], 1),
     SolveRow(Chapter_, question, given, nature, 1)]
  }

  /** The four fixed answers differ. */
  lemma NatureOptionsDistinct()
    ensures NatureOptions.Keys == AllKeys && PairwiseDistinct(NatureOptions)
  {
    OptionsDistinct("Two equal real roots", "Two distinct real roots", "No real roots", "One real root");
    DifferAt("Two equal real roots", "Two distinct real roots", 4);
    DifferAt("No real roots", "One real root", 0);
  }

  /** The text with its first letter in upper case. */
  function UpperFirst(s: string): string {
    if |s| == 0 then s else [UpperChar(s[0])] + s[1..]
  }

  /** `correct_map[nature]` keys B for d > 0, A for d == 0 and C for d < 0. */
  lemma NatureKeyOf(d: int)
    ensures NatureKey(Nature(d)) == (if d > 0 then B else if d == 0 then A else C)
  {
    DifferAt("two equal real roots", "two distinct real roots", 4);
    DifferAt("two equal real roots", "no real roots", 0);
    DifferAt("two distinct real roots", "no real roots", 0);
  }

  /** The keyed option's text is the nature with a capital first letter. */
  lemma NatureAnswer(d: int)
    ensures NatureOptions[NatureKey(Nature(d))] == UpperFirst(Nature(d))
  {
    NatureKeyOf(d);
    if d > 0 {
      Capital("two distinct real roots", "Two distinct real roots");
    } else if d == 0 {
      Capital("two equal real roots", "Two equal real roots");
    } else {
      Capital("no real roots", "No real roots");
    }
  }

  lemma Capital(s: string, t: string)
    requires |s| > 0 && |s| == |t| && t[0] == UpperChar(s[0]) && s[1..] == t[1..]
    ensures UpperFirst(s) == t
  {
    assert t == [t[0]] + t[1..];
  }

  // ---------------------------------------------------------------------------
  // 6) Forming the equation from its roots
  // ---------------------------------------------------------------------------

  /** Two distinct positive integers never have a sum equal to their product. */
  lemma SumNotProduct(r1: int, r2: int)
    requires r1 >= 1 && r2 >= 1 && r1 != r2
    ensures r1 + r2 != r1 * r2
  {
    var x, y := r1 - 1, r2 - 1;
    assert r1 * r2 - (r1 + r2) + 1 == x * y;
    if x >= 2 && y >= 1 {
      assert x * y == x * (y - 1) + x;
      assert x * (y - 1) >= 0;
    } else if y >= 2 && x >= 1 {
      assert x * y == (x - 1) * y + y;
      assert (x - 1) * y >= 0;
    }
  }

  /** `gen_form_equation`, with r1, r2 sampled from 1..9; the roots are `Arith.SumProductRoots`. */
  function FormEquation(r1: int, r2: int): (rows: seq<Row>)
    requires 1 <= r1 <= 9 && 1 <= r2 <= 9 && r1 != r2
    ensures Promises(rows, C)
    ensures rows[0].response.question == Fmt2("Form a quadratic equation whose roots are ", r1, " and ", r2, ".")
    ensures CorrectText(rows[0]) == Fmt2("x² - ", r1 + r2, "x + ", r1 * r2, " = 0")
    ensures rows[1].response.given == Fmt2("Roots = ", r1, ", ", r2, "")
  {
    SumNotProduct(r1, r2);
    FormRows(r1, r2, r1 + r2, r1 * r2)
  }

  /** The records of `gen_form_equation` once the sum s and the product p are known. */
  function FormRows(r1: int, r2: int, s: int, p: int): (rows: seq<Row>)
    requires s != p
    ensures Promises(rows, C)
    ensures rows[0].response.question == Fmt2("Form a quadratic equation whose roots are ", r1, " and ", r2, ".")
    ensures CorrectText(rows[0]) == Fmt2("x² - ", s, "x + ", p, " = 0")
    ensures rows[1].response.given == Fmt2("Roots = ", r1, ", ", r2, "")
  {
    var question := Fmt2("Form a quadratic equation whose roots are ", r1, " and ", r2, ".");
    var a, b := Fmt2("x² + ", s, "x + ", p, " = 0"), Fmt2("x² - ", p, "x + ", s, " = 0");
    var c, d := Fmt2("x² - ", s, "x + ", p, " = 0"), Fmt2("x² + ", p, "x - ", s, " = 0");
    FormDistinct(s, p);
    RecordsOk(question, a, b, c, d, "sign_error", "sum_product_swapped", "wrong_structure",
              Fmt2("Roots = ", r1, ", ", r2, ""), 2);
    Records(question, a, b, c, d, "sign_error", "sum_product_swapped", "wrong_structure",
            Fmt2("Roots = ", r1, ", ", r2, ""), 2)
  }

  /** The four printed equations differ whenever the sum and the product do. */
  lemma FormDistinct(s: int, p: int)
    requires s != p
    ensures Distinct4(Fmt2("x² + ", s, "x + ", p, " = 0"), Fmt2("x² - ", p, "x + ", s, " = 0"),
                      Fmt2("x² - ", s, "x + ", p, " = 0"), Fmt2("x² + ", p, "x - ", s, " = 0"))
  {
    var a, b := Fmt2("x² + ", s, "x + ", p, " = 0"), Fmt2("x² - ", p, "x + ", s, " = 0");
    var c, d := Fmt2("x² - ", s, "x + ", p, " = 0"), Fmt2("x² + ", p, "x - ", s, " = 0");
    SignAt(s, "x + ", p, " = 0");
    SignAt(p, "x + ", s, " = 0");
    SignAt(p, "x - ", s, " = 0");
    DifferAt(a, b, 3);
    DifferAt(a, c, 3);
    DifferAt(d, b, 3);
    DifferAt(d, c, 3);
    if a == d {
      Fmt2FirstHole("x² + ", s, "x + ", p, " = 0", p, "x - ", s, " = 0");
    }
    Fmt2Injective("x² - ", p, "x + ", s, " = 0", s, p);
  }

  /** The character after "x² " is the sign the template printed. */
  lemma SignAt(x: int, mid: string, y: int, post: string)
    ensures Fmt2("x² + ", x, mid, y, post)[3] == '+' && Fmt2("x² - ", x, mid, y, post)[3] == '-'
  {
    Fmt2Assoc("x² + ", IntStr(x), mid, IntStr(y), post);
    Fmt2Assoc("x² - ", IntStr(x), mid, IntStr(y), post);
  }

  // ---------------------------------------------------------------------------
  // 7) x² = a²
  // ---------------------------------------------------------------------------

  /** `gen_perfect_square`, with a from 2..10; the two roots are `Arith.SquareRoots`. */
  function PerfectSquare(a: int): (rows: seq<Row>)
    requires 2 <= a <= 10
    ensures Promises(rows, C)
    ensures rows[0].response.question == Fmt1("Solve: x² = ", a * a, "")
    ensures CorrectText(rows[0]) == "x = ±" + IntStr(a)
    ensures rows[0].response.options[B] == Fmt1("x = ", -a, "")
  {
    ProductGrows(a, a, 1, a - 1);
    PerfectRows(a, a * a)
  }

  /** The records of `gen_perfect_square` once a² is known. */
  function PerfectRows(a: int, sq: int): (rows: seq<Row>)
    requires a >= 1 && sq > a
    ensures Promises(rows, C)
    ensures rows[0].response.question == Fmt1("Solve: x² = ", sq, "")
    ensures CorrectText(rows[0]) == "x = ±" + IntStr(a)
    ensures rows[0].response.options[B] == Fmt1("x = ", -a, "")
  {
    var question := Fmt1("Solve: x² = ", sq, "");
    var pa, na, pm, sq' := Fmt1("x = ", a, ""), "x = -" + IntStr(a), "x = ±" + IntStr(a), Fmt1("x = ", sq, "");
    MinusPrinted(a);
    Fmt1Injective("x = ", a, -a, "");
    Fmt1Injective("x = ", a, sq, "");
    Fmt1Injective("x = ", -a, sq, "");
    PlusMinusDiffers(a, a);
    PlusMinusDiffers(a, -a);
    PlusMinusDiffers(a, sq);
    RecordsOk(question, pa, na, pm, sq', "missed_negative_root", "missed_positive_root", "square_confusion",
              Fmt1("a=", a, ""), 1);
    Records(question, pa, na, pm, sq', "missed_negative_root", "missed_positive_root", "square_confusion",
            Fmt1("a=", a, ""), 1)
  }

  /** `f"x = -{a}"` for a positive a is the template with −a in its hole. */
  lemma MinusPrinted(a: int)
    requires a > 0
    ensures "x = -" + IntStr(a) == Fmt1("x = ", -a, "")
  {
    assert IntStr(-a) == "-" + IntStr(a);
  }

  /** `f"x = ±{a}"` is never a printed single number. */
  lemma PlusMinusDiffers(a: int, x: int)
    ensures "x = ±" + IntStr(a) != Fmt1("x = ", x, "")
  {
    var s, t := "x = ±" + IntStr(a), Fmt1("x = ", x, "");
    assert s[4] == '±';
    assert t[4] == IntStr(x)[0];
    IntStrNumeric(x);
    assert IsNumChar(IntStr(x)[0]);
    DifferAt(s, t, 4);
  }
}
