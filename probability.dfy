/**
  * The probability templates. Every answer and distractor is a `Fraction` printed as
  * "numerator/denominator" in lowest terms, so two options print alike exactly when their
  * values are equal; the collisions some templates allow are stated as their draws make them.
  */
module Probability {
  import opened Text
  import opened Mcq
  import opened Fractions

  const SystemGen := "You are an NEB Grade 10 Mathematics question generator. Output MUST be STRICT JSON only."
                     + " No extra text."
  const SystemSolve := "You are an NEB Grade 10 Mathematics tutor. Output MUST be STRICT JSON only. No extra text."
  const McqRules := "- Create ONE NEB-style word problem.\n- Provide 4 options (A,B,C,D).\n- Exactly ONE option is correct.\n"
                    + "- The 3 wrong options must be based on common student mistakes.\n"
                    + "- Include a short answer_explanation.\n"
                    + "- Include distractor_rationales for wrong options with mistake tag and why.\n"
                    + "Return JSON only with keys: question, options, correct_option, answer_explanation, distractor_rationales, meta."
  const Chapter_ := Chapter("probability", SystemGen, SystemSolve, "Probability", McqRules, "Solve with full steps:\n",
                            "Required probability")

  // The fixed wording of each question, around the drawn numbers.
  const ExclusiveAsk1 := "In a class of "
  const ExclusiveAsk2 := " students, "
  const ExclusiveAsk3 := " play football and "
  const ExclusiveAsk4 := " play volleyball. No student plays both games. Find the probability that a randomly"
                         + " chosen student plays football or volleyball."
  const AdditionAsk1 := "In a group of "
  const AdditionAsk2 := " students, "
  const AdditionAsk3 := " like tea, "
  const AdditionAsk4 := " like coffee and "
  const AdditionAsk5 := " like both. Find the probability that a student likes tea or coffee."
  const BagAsk1 := "A bag contains "
  const BagAsk2 := " red and "
  const IndependentAsk3 := " blue balls. Two balls are drawn one after another with replacement. Find the"
                           + " probability that both are red."
  const DependentAsk3 := " blue balls. Two balls are drawn without replacement. Find the probability that both are red."
  const TreeAsk1 := "A box contains "
  const TreeAsk2 := " boys' cards and "
  const TreeAsk3 := " girls' cards. Two cards are drawn without replacement. Find the probability that first is"
                    + " a boy and second is a girl (using tree diagram)."

  /**
    * The two records of a template whose option dict is `{A: a, B: b, C: c, D: d}` with key k
    * correct and the solve record answering the text under k.
    */
  function Records(question: string, a: string, b: string, c: string, d: string, k: Key,
                   t1: string, t2: string, t3: string, given: string, difficulty: int): (rows: seq<Row>)
    ensures |rows| == 2 && WellFormedMcq(rows[0]) && rows[0].response.correctOption == k
    ensures rows[0].response.question == question
    ensures rows[0].response.options == Options(a, b, c, d)
    ensures rows[0].response.options[A] == a && rows[0].response.options[B] == b
    ensures rows[0].response.options[C] == c && rows[0].response.options[D] == d
    ensures AllOptionsDistinct(rows[0]) <==> Distinct4(a, b, c, d)
    ensures ExactlyOneCorrect(rows[0]) <==>
      match k
      case A => a != b && a != c && a != d
      case B => b != a && b != c && b != d
      case C => c != a && c != b && c != d
      case D => d != a && d != b && d != c
    ensures rows[1].response.SolveResponse? && rows[1].response.given == given
    ensures rows[1].response.finalAnswer == CorrectText(rows[0])
  {
    FixedRecord(Chapter_, question, a, b, c, d, k, t1, t2, t3, difficulty);
    OptionsOneCorrect(a, b, c, d, k);
    FixedRows(Chapter_, question, a, b, c, d, k, t1, t2, t3, given, Options(a, b, c, d)[k], difficulty)
  }

  /** Four printed fractions: two texts agree exactly when the two reduced pairs do. */
  lemma PrintedPairs(fa: Frac, fb: Frac, fc: Frac, fd: Frac)
    ensures FracStr(fa) == FracStr(fb) <==> fa == fb
    ensures FracStr(fa) == FracStr(fc) <==> fa == fc
    ensures FracStr(fa) == FracStr(fd) <==> fa == fd
    ensures FracStr(fb) == FracStr(fc) <==> fb == fc
    ensures FracStr(fb) == FracStr(fd) <==> fb == fd
    ensures FracStr(fc) == FracStr(fd) <==> fc == fd
  {
    FracStrInjective(fa, fb);
    FracStrInjective(fa, fc);
    FracStrInjective(fa, fd);
    FracStrInjective(fb, fc);
    FracStrInjective(fb, fd);
    FracStrInjective(fc, fd);
  }

  /** A positive factor can be cancelled from both sides of an equation. */
  lemma ScaleEq(x: int, y: int, k: int)
    requires k > 0
    ensures x * k == y * k <==> x == y
  {
    if x * k == y * k {
      CancelFactor(x, y, k);
    }
  }

  /** Multiplying by a positive factor keeps a strict order. */
  lemma MulLess(k: int, x: int, y: int)
    requires k > 0 && x < y
    ensures k * x < k * y
  {
    MulAtLeast(k, y - x);
    assert k * y - k * x == k * (y - x);
  }

  /** x·t² regrouped as t·(x·t). */
  lemma Rotate(x: int, t: int)
    ensures x * (t * t) == t * (x * t)
  {
  }

  // ---------------------------------------------------------------------------
  // Type 1: mutually exclusive events
  // ---------------------------------------------------------------------------

  /**
    * `gen_mutually_exclusive`, with total drawn from [20, 30, 40] and a, b from 5..total//2.
    * The answer (a+b)/total, marked C, is at most 1.
    */
  function MutuallyExclusive(total: nat, a: nat, b: nat): (rows: seq<Row>)
    requires total == 20 || total == 30 || total == 40
    requires 5 <= a <= total / 2 && 5 <= b <= total / 2
    ensures |rows| == 2 && WellFormedMcq(rows[0]) && rows[0].response.correctOption == C
    ensures CorrectText(rows[0]) == FracStr(MakeFrac(a + b, total)) && a + b <= total
    ensures rows[1].response.SolveResponse? && rows[1].response.finalAnswer == CorrectText(rows[0])
  {
    var question := ExclusiveAsk1 + IntStr(total) + ExclusiveAsk2 + IntStr(a) + ExclusiveAsk3 + IntStr(b)
                    + ExclusiveAsk4;
    var given := "n(S)=" + IntStr(total) + ", n(A)=" + IntStr(a) + ", n(B)=" + IntStr(b);
    Records(question, FracStr(MakeFrac(a, total)), FracStr(MakeFrac(b, total)), FracStr(MakeFrac(a + b, total)),
            FracStr(MakeFrac(Times(a, b), Times(total, total))), C,
            "only_A", "only_B", "multiplication_error", given, 1)
  }

  /**
    * The answer of `gen_mutually_exclusive` is its only option with that text; the four texts
    * are distinct exactly when a != b, and when a == b options A and B print alike.
    */
  lemma ExclusiveOptions(total: nat, a: nat, b: nat)
    requires total == 20 || total == 30 || total == 40
    requires 5 <= a <= total / 2 && 5 <= b <= total / 2
    ensures ExactlyOneCorrect(MutuallyExclusive(total, a, b)[0])
    ensures AllOptionsDistinct(MutuallyExclusive(total, a, b)[0]) <==> a != b
    ensures a == b ==> MutuallyExclusive(total, a, b)[0].response.options[A]
                       == MutuallyExclusive(total, a, b)[0].response.options[B]
  {
    ExclusiveTexts(total, a, b);
  }

  /** `ExclusiveFracs` on the printed texts. */
  lemma ExclusiveTexts(total: nat, a: nat, b: nat)
    requires 5 <= a && 5 <= b && 2 * a <= total && 2 * b <= total
    ensures var fa, fb := FracStr(MakeFrac(a, total)), FracStr(MakeFrac(b, total));
      var fc, fd := FracStr(MakeFrac(a + b, total)), FracStr(MakeFrac(Times(a, b), Times(total, total)));
      && (fa == fb <==> a == b)
      && fc != fa && fc != fb && fc != fd && fa != fd && fb != fd
  {
    ExclusiveFracs(total, a, b);
    PrintedPairs(MakeFrac(a, total), MakeFrac(b, total), MakeFrac(a + b, total),
                 MakeFrac(Times(a, b), Times(total, total)));
  }

  /**
    * How the four values of `gen_mutually_exclusive` compare: a/total and b/total agree exactly
    * when a == b, and every other pair differs.
    */
  lemma ExclusiveFracs(total: nat, a: nat, b: nat)
    requires 5 <= a && 5 <= b && 2 * a <= total && 2 * b <= total
    ensures MakeFrac(a, total) == MakeFrac(b, total) <==> a == b
    ensures MakeFrac(a, total) != MakeFrac(a + b, total) && MakeFrac(b, total) != MakeFrac(a + b, total)
    ensures MakeFrac(a, total) != MakeFrac(Times(a, b), Times(total, total))
    ensures MakeFrac(b, total) != MakeFrac(Times(a, b), Times(total, total))
    ensures MakeFrac(a + b, total) != MakeFrac(Times(a, b), Times(total, total))
  {
    ExclusiveCross(total, a, b);
    MakeFracEq(a, total, b, total);
    MakeFracEq(a, total, a + b, total);
    MakeFracEq(b, total, a + b, total);
    MakeFracEq(a, total, Times(a, b), Times(total, total));
    MakeFracEq(b, total, Times(a, b), Times(total, total));
    MakeFracEq(a + b, total, Times(a, b), Times(total, total));
  }

  /** The cross products behind `ExclusiveFracs`. */
  lemma ExclusiveCross(total: nat, a: nat, b: nat)
    requires 5 <= a && 5 <= b && 2 * a <= total && 2 * b <= total
    ensures a * total == b * total <==> a == b
    ensures a * total != (a + b) * total && b * total != (a + b) * total
    ensures a * (total * total) != (a * b) * total && b * (total * total) != (a * b) * total
    ensures (a + b) * (total * total) != (a * b) * total
  {
    ScaleEq(a, b, total);
    ScaleEq(a, a + b, total);
    ScaleEq(b, a + b, total);
    // a·b < a·total, b·total ≤ (a+b)·total, so each product with total stays below the other side
    MulLess(a, b, total);
    MulLess(b, a, total);
    MulLess(total, a * b, a * total);
    MulLess(total, a * b, b * total);
    MulLess(total, a * b, (a + b) * total);
    Rotate(a, total);
    Rotate(b, total);
    Rotate(a + b, total);
  }

  // ---------------------------------------------------------------------------
  // Type 2: addition law
  // ---------------------------------------------------------------------------

  /**
    * `gen_addition_law`, with a, b drawn from 15..25 and both from 5..min(a, b)−1: the answer
    * (a+b−both)/50, marked C, lies strictly between 0 and 1; distractor D is both/50.
    */
  function AdditionLaw(a: nat, b: nat, both: nat): (rows: seq<Row>)
    requires 15 <= a <= 25 && 15 <= b <= 25
    requires 5 <= both && both < a && both < b
    ensures |rows| == 2 && WellFormedMcq(rows[0]) && rows[0].response.correctOption == C
    ensures CorrectText(rows[0]) == FracStr(MakeFrac(a + b - both, 50)) && 0 < a + b - both < 50
    ensures rows[0].response.options[D] == FracStr(MakeFrac(both, 50))
    ensures rows[1].response.SolveResponse? && rows[1].response.finalAnswer == CorrectText(rows[0])
  {
    var question := AdditionAsk1 + IntStr(50) + AdditionAsk2 + IntStr(a) + AdditionAsk3 + IntStr(b)
                    + AdditionAsk4 + IntStr(both) + AdditionAsk5;
    var given := "A=" + IntStr(a) + ", B=" + IntStr(b) + ", A∩B=" + IntStr(both) + ", S=" + IntStr(50);
    Records(question, FracStr(MakeFrac(a + b, 50)), FracStr(MakeFrac(a + b + both, 50)),
            FracStr(MakeFrac(a + b - both, 50)), FracStr(MakeFrac(both, 50)), C,
            "ignored_intersection", "double_added", "only_intersection", given, 2)
  }

  /** Every draw of `gen_addition_law` gives four distinct texts, so it keeps all its promises. */
  lemma AdditionOptions(a: nat, b: nat, both: nat)
    requires 15 <= a <= 25 && 15 <= b <= 25
    requires 5 <= both && both < a && both < b
    ensures Promises(AdditionLaw(a, b, both), C)
  {
    AdditionTexts(a, b, both);
  }

  /** The four counts of `gen_addition_law` are distinct, and so are their printed fractions over 50. */
  lemma AdditionTexts(a: nat, b: nat, both: nat)
    requires 5 <= both && both < a && both < b
    ensures Distinct4(FracStr(MakeFrac(a + b, 50)), FracStr(MakeFrac(a + b + both, 50)),
                      FracStr(MakeFrac(a + b - both, 50)), FracStr(MakeFrac(both, 50)))
  {
    SameDenominator(a + b, a + b + both);
    SameDenominator(a + b, a + b - both);
    SameDenominator(a + b, both);
    SameDenominator(a + b + both, a + b - both);
    SameDenominator(a + b + both, both);
    SameDenominator(a + b - both, both);
    PrintedPairs(MakeFrac(a + b, 50), MakeFrac(a + b + both, 50), MakeFrac(a + b - both, 50), MakeFrac(both, 50));
  }

  /** Over the common denominator 50, two counts give the same fraction exactly when they are equal. */
  lemma SameDenominator(x: nat, y: nat)
    ensures MakeFrac(x, 50) == MakeFrac(y, 50) <==> x == y
  {
    MakeFracEq(x, 50, y, 50);
  }

  // ---------------------------------------------------------------------------
  // Types 3 and 4: two draws from a bag of red and blue balls
  // ---------------------------------------------------------------------------

  /**
    * The four values the bag templates print, for `red` red balls among `total`: red/total,
    * red²/total², red(red−1)/(total(total−1)) and 1/total. The first four comparisons never
    * hold; the last two hold exactly on the stated counts.
    */
  lemma BagFracs(red: nat, total: nat)
    requires 2 <= red < total
    ensures MakeFrac(red, total) != MakeFrac(Times(red, red), Times(total, total))
    ensures MakeFrac(red, total) != MakeFrac(Times(red, red - 1), Times(total, total - 1))
    ensures MakeFrac(red, total) != MakeFrac(1, total)
    ensures MakeFrac(Times(red, red), Times(total, total)) != MakeFrac(Times(red, red - 1), Times(total, total - 1))
    ensures MakeFrac(Times(red, red), Times(total, total)) == MakeFrac(1, total) <==> red * red == total
    ensures MakeFrac(Times(red, red - 1), Times(total, total - 1)) == MakeFrac(1, total)
            <==> red * (red - 1) == total - 1
  {
    BagCrossUnequal(red, total);
    BagCrossEqual(red, total);
    MakeFracEq(red, total, Times(red, red), Times(total, total));
    MakeFracEq(red, total, Times(red, red - 1), Times(total, total - 1));
    MakeFracEq(red, total, 1, total);
    MakeFracEq(Times(red, red), Times(total, total), Times(red, red - 1), Times(total, total - 1));
    MakeFracEq(Times(red, red), Times(total, total), 1, total);
    MakeFracEq(Times(red, red - 1), Times(total, total - 1), 1, total);
  }

  /** The cross products behind the four inequalities of `BagFracs`. */
  lemma BagCrossUnequal(red: nat, t: nat)
    requires 2 <= red < t
    ensures red * (t * t) != (red * red) * t
    ensures red * (t * (t - 1)) != (red * (red - 1)) * t
    ensures red * t != 1 * t
    ensures (red * red) * (t * (t - 1)) != (red * (red - 1)) * (t * t)
  {
    SingleBelowSquare(red, t);
    SingleBelowPairs(red, t);
    DependentBelowIndependent(red, t);
  }

  /** The cross products behind the two equivalences of `BagFracs`. */
  lemma BagCrossEqual(red: nat, t: nat)
    requires 2 <= red < t
    ensures (red * red) * t == 1 * (t * t) <==> red * red == t
    ensures (red * (red - 1)) * t == 1 * (t * (t - 1)) <==> red * (red - 1) == t - 1
  {
    ScaleEq(red * red, t, t);
    ScaleEq(red * (red - 1), t - 1, t);
  }

  /** red/t > red²/t² when red < t, as cross products. */
  lemma SingleBelowSquare(red: nat, t: nat)
    requires 0 < red < t
    ensures red * (t * t) != (red * red) * t
  {
    PositiveProduct(red, t);
    MulLess(red * t, red, t);
    Regroup(red, t, t);
    Regroup(red, red, t);
  }

  /** red/t > red(red−1)/(t(t−1)) when red < t, as cross products. */
  lemma SingleBelowPairs(red: nat, t: nat)
    requires 0 < red < t
    ensures red * (t * (t - 1)) != (red * (red - 1)) * t
  {
    PositiveProduct(red, t);
    MulLess(red * t, red - 1, t - 1);
    Regroup(red, t, t - 1);
    Regroup(red, red - 1, t);
  }

  /**
    * Drawing without replacement makes "both red" less likely than with replacement:
    * red(red−1)/(t(t−1)) < red²/t² whenever 0 < red < t, as cross products.
    */
  lemma DependentBelowIndependent(red: nat, t: nat)
    requires 0 < red < t
    ensures (red * (red - 1)) * (t * t) < (red * red) * (t * (t - 1))
  {
    PositiveProduct(red, t);
    MulLess(red * t, (red - 1) * t, red * (t - 1));
    Regroup4(red, red, t, t - 1);
    Regroup4(red, red - 1, t, t);
  }

  /** Among the bag draws, red² equals the number of balls only for 3 red and 6 blue. */
  lemma SquareIsTotal(red: nat, blue: nat)
    requires 3 <= red <= 7 && 3 <= blue <= 6
    ensures red * red == red + blue <==> red == 3 && blue == 6
  {
    if red == 3 {
    } else if red == 4 {
    } else if red == 5 {
    } else if red == 6 {
    } else {
    }
  }

  /** Among the bag draws, red(red−1) equals the number of balls less one only for 3 red and 4 blue. */
  lemma PairsIsTotal(red: nat, blue: nat)
    requires 3 <= red <= 7 && 3 <= blue <= 6
    ensures red * (red - 1) == red + blue - 1 <==> red == 3 && blue == 4
  {
    if red == 3 {
    } else if red == 4 {
    } else if red == 5 {
    } else if red == 6 {
    } else {
    }
  }

  /**
    * `gen_independent`, with red and blue drawn from 3..6: the answer red²/total², marked B.
    * The source multiplies `Fraction(red, total)` by itself; `MulMakeFrac` shows that product
    * is the fraction of the products built here.
    */
  function Independent(red: nat, blue: nat): (rows: seq<Row>)
    requires 3 <= red <= 6 && 3 <= blue <= 6
    ensures |rows| == 2 && WellFormedMcq(rows[0]) && rows[0].response.correctOption == B
    ensures rows[0].response.options[B] == FracStr(MakeFrac(Times(red, red), Times(red + blue, red + blue)))
    ensures rows[1].response.SolveResponse? && rows[1].response.finalAnswer == CorrectText(rows[0])
  {
    var total := red + blue;
    var question := BagAsk1 + IntStr(red) + BagAsk2 + IntStr(blue) + IndependentAsk3;
    var given := "Red=" + IntStr(red) + ", Total=" + IntStr(total);
    Records(question, FracStr(MakeFrac(red, total)), FracStr(MakeFrac(Times(red, red), Times(total, total))),
            FracStr(MakeFrac(Times(red, red - 1), Times(total, total - 1))), FracStr(MakeFrac(1, total)), B,
            "single_event", "without_replacement", "random_guess", given, 2)
  }

  /**
    * How the four values of `gen_independent` compare: the answer B equals distractor D (1/total)
    * exactly when red = 3 and blue = 6, C equals D exactly when red = 3 and blue = 4, and no
    * other pair is ever equal.
    */
  lemma IndependentFracs(red: nat, blue: nat)
    requires 3 <= red <= 6 && 3 <= blue <= 6
    ensures var t := red + blue;
      var fa, fb := MakeFrac(red, t), MakeFrac(Times(red, red), Times(t, t));
      var fc, fd := MakeFrac(Times(red, red - 1), Times(t, t - 1)), MakeFrac(1, t);
      && fa != fb && fa != fc && fa != fd && fb != fc
      && (fb == fd <==> red == 3 && blue == 6)
      && (fc == fd <==> red == 3 && blue == 4)
  {
    BagFracs(red, red + blue);
    SquareIsTotal(red, blue);
    PairsIsTotal(red, blue);
  }

  /** `IndependentFracs` on the printed texts. */
  lemma IndependentTexts(red: nat, blue: nat)
    requires 3 <= red <= 6 && 3 <= blue <= 6
    ensures var t := red + blue;
      var a, b := FracStr(MakeFrac(red, t)), FracStr(MakeFrac(Times(red, red), Times(t, t)));
      var c, d := FracStr(MakeFrac(Times(red, red - 1), Times(t, t - 1))), FracStr(MakeFrac(1, t));
      && a != b && a != c && a != d && b != c
      && (b == d <==> red == 3 && blue == 6)
      && (c == d <==> red == 3 && blue == 4)
  {
    var t := red + blue;
    IndependentFracs(red, blue);
    PrintedPairs(MakeFrac(red, t), MakeFrac(Times(red, red), Times(t, t)),
                 MakeFrac(Times(red, red - 1), Times(t, t - 1)), MakeFrac(1, t));
  }

  /** `gen_independent` has exactly one correct option unless red = 3 and blue = 6. */
  lemma IndependentOneCorrect(red: nat, blue: nat)
    requires 3 <= red <= 6 && 3 <= blue <= 6
    ensures ExactlyOneCorrect(Independent(red, blue)[0]) <==> !(red == 3 && blue == 6)
  {
    IndependentTexts(red, blue);
  }

  /** The four options of `gen_independent` are distinct unless red = 3 and blue is 4 or 6. */
  lemma IndependentDistinct(red: nat, blue: nat)
    requires 3 <= red <= 6 && 3 <= blue <= 6
    ensures AllOptionsDistinct(Independent(red, blue)[0]) <==> !(red == 3 && (blue == 4 || blue == 6))
  {
    IndependentTexts(red, blue);
  }

  /**
    * `gen_dependent`, with red drawn from 4..7 and blue from 3..6: the answer
    * red(red−1)/(total(total−1)), marked C; distractor A is red²/total², the source's
    * `Fraction(red, total)**2`.
    */
  function Dependent(red: nat, blue: nat): (rows: seq<Row>)
    requires 4 <= red <= 7 && 3 <= blue <= 6
    ensures |rows| == 2 && WellFormedMcq(rows[0]) && rows[0].response.correctOption == C
    ensures rows[0].response.options[C] == FracStr(MakeFrac(Times(red, red - 1), Times(red + blue, red + blue - 1)))
    ensures rows[1].response.SolveResponse? && rows[1].response.finalAnswer == CorrectText(rows[0])
  {
    var total := red + blue;
    var question := BagAsk1 + IntStr(red) + BagAsk2 + IntStr(blue) + DependentAsk3;
    var given := "Red=" + IntStr(red) + ", Blue=" + IntStr(blue);
    Records(question, FracStr(MakeFrac(Times(red, red), Times(total, total))), FracStr(MakeFrac(red, total)),
            FracStr(MakeFrac(Times(red, red - 1), Times(total, total - 1))), FracStr(MakeFrac(1, total)), C,
            "assumed_independent", "single_event", "random_error", given, 2)
  }

  /** The four values of `gen_dependent` are pairwise different on every draw. */
  lemma DependentFracs(red: nat, blue: nat)
    requires 4 <= red <= 7 && 3 <= blue <= 6
    ensures var t := red + blue;
      Distinct4(MakeFrac(Times(red, red), Times(t, t)), MakeFrac(red, t),
                MakeFrac(Times(red, red - 1), Times(t, t - 1)), MakeFrac(1, t))
  {
    BagFracs(red, red + blue);
    SquareIsTotal(red, blue);
    PairsIsTotal(red, blue);
  }

  /** `DependentFracs` on the printed texts. */
  lemma DependentTexts(red: nat, blue: nat)
    requires 4 <= red <= 7 && 3 <= blue <= 6
    ensures var t := red + blue;
      Distinct4(FracStr(MakeFrac(Times(red, red), Times(t, t))), FracStr(MakeFrac(red, t)),
                FracStr(MakeFrac(Times(red, red - 1), Times(t, t - 1))), FracStr(MakeFrac(1, t)))
  {
    var t := red + blue;
    DependentFracs(red, blue);
    PrintedPairs(MakeFrac(Times(red, red), Times(t, t)), MakeFrac(red, t),
                 MakeFrac(Times(red, red - 1), Times(t, t - 1)), MakeFrac(1, t));
  }

  /** Every draw of `gen_dependent` gives four distinct texts, so it keeps all its promises. */
  lemma DependentOptions(red: nat, blue: nat)
    requires 4 <= red <= 7 && 3 <= blue <= 6
    ensures Promises(Dependent(red, blue), C)
  {
    DependentTexts(red, blue);
  }

  // ---------------------------------------------------------------------------
  // Type 5: tree diagram
  // ---------------------------------------------------------------------------

  /**
    * `gen_tree`, with boys and girls drawn from 3..6: the answer boys·girls/(t(t−1)), marked B,
    * for t = boys + girls. Each option is a product of two fractions in the source, built
    * here as the fraction of the products (see `MulMakeFrac`).
    */
  function Tree(boys: nat, girls: nat): (rows: seq<Row>)
    requires 3 <= boys <= 6 && 3 <= girls <= 6
    ensures |rows| == 2 && WellFormedMcq(rows[0]) && rows[0].response.correctOption == B
    ensures rows[0].response.options[B]
            == FracStr(MakeFrac(Times(boys, girls), Times(boys + girls, boys + girls - 1)))
    ensures rows[1].response.SolveResponse? && rows[1].response.finalAnswer == CorrectText(rows[0])
  {
    var total := boys + girls;
    var question := TreeAsk1 + IntStr(boys) + TreeAsk2 + IntStr(girls) + TreeAsk3;
    var given := "Boys=" + IntStr(boys) + ", Girls=" + IntStr(girls);
    Records(question, FracStr(MakeFrac(Times(boys, girls), Times(total, total))),
            FracStr(MakeFrac(Times(boys, girls), Times(total, total - 1))),
            FracStr(MakeFrac(Times(girls, boys), Times(total, total - 1))), FracStr(MakeFrac(boys + girls, total)), B,
            "replacement_error", "order_error", "invalid_probability", given, 3)
  }

  /**
    * Distractor C of `gen_tree` (girls first, then boys) prints the answer on every draw, so
    * the record never has exactly one correct option nor four distinct ones; distractor A,
    * which keeps the denominator t for the second card, differs from the answer.
    */
  lemma TreeCollision(boys: nat, girls: nat)
    requires 3 <= boys <= 6 && 3 <= girls <= 6
    ensures var r := Tree(boys, girls)[0];
      && r.response.options[C] == CorrectText(r)
      && r.response.options[A] != CorrectText(r)
      && !ExactlyOneCorrect(r) && !AllOptionsDistinct(r)
  {
    TreeTexts(boys, girls);
  }

  /**
    * The printed options of `gen_tree`: girls/t × boys/(t−1) prints as boys/t × girls/(t−1), and
    * boys/t × girls/t does not.
    */
  lemma TreeTexts(boys: nat, girls: nat)
    requires 3 <= boys <= 6 && 3 <= girls <= 6
    ensures var t := boys + girls;
      && FracStr(MakeFrac(Times(girls, boys), Times(t, t - 1))) == FracStr(MakeFrac(Times(boys, girls), Times(t, t - 1)))
      && FracStr(MakeFrac(Times(boys, girls), Times(t, t))) != FracStr(MakeFrac(Times(boys, girls), Times(t, t - 1)))
  {
    var t := boys + girls;
    assert Times(girls, boys) == Times(boys, girls);
    TreeReplacement(Times(boys, girls), t);
    FracStrInjective(MakeFrac(Times(boys, girls), Times(t, t)), MakeFrac(Times(boys, girls), Times(t, t - 1)));
  }

  /** Distractor D of `gen_tree`, (boys+girls)/total, is the whole and prints "1/1". */
  lemma TreeWhole(boys: nat, girls: nat)
    requires 3 <= boys <= 6 && 3 <= girls <= 6
    ensures Tree(boys, girls)[0].response.options[D] == "1/1"
  {
    WholeIsOne(boys + girls);
    OneOverOne();
  }

  /** Keeping the denominator t for the second draw changes a positive value: n/t² ≠ n/(t(t−1)). */
  lemma TreeReplacement(n: nat, t: nat)
    requires n > 0 && t > 1
    ensures MakeFrac(n, Times(t, t)) != MakeFrac(n, Times(t, t - 1))
  {
    MakeFracEq(n, Times(t, t), n, Times(t, t - 1));
    MulLess(t, t - 1, t);
    MulLess(n, t * (t - 1), t * t);
  }

  /** t/t reduces to 1/1. */
  lemma WholeIsOne(t: nat)
    requires t > 0
    ensures MakeFrac(t, t) == Frac(1, 1)
  {
    MakeFracEq(t, t, 1, 1);
    MakeFracFacts(1, 1);
    assert Gcd(1, 1) == 1;
  }

  /** The whole prints as "1/1". */
  lemma OneOverOne()
    ensures FracStr(Frac(1, 1)) == "1/1"
  {
    assert IntStr(1) == "1";
  }
}
