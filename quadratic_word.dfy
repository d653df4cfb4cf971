/**
  * The quadratic word-problem templates: each draws a few integers, builds one correct answer
  * text and three mistaken ones, shuffles the four into keys A–D, and looks up each wrong text's
  * key to attach its mistake tag.
  */
module QuadraticWord {
  import opened Text
  import opened Wrappers
  import opened Shuffle
  import opened Mcq
  import opened PyNum
  import opened Arith

  const Chapter_ := Chapter(
    "quadratic_equations",
    "You are an NEB Grade 10 Mathematics question generator. Output MUST be STRICT JSON only.",
    "You are an NEB Grade 10 Mathematics tutor. Output MUST be STRICT JSON only.",
    "Quadratic Equations (Word Problems)",
    "- One NEB-style quadratic word problem\n- 4 options (A,B,C,D)\n- Exactly one correct\n"
    + "- Distractors must be common student mistakes\n- Return STRICT JSON only",
    "Solve step by step:\n",
    "Required value(s)")

  // ---------------------------------------------------------------------------
  // Shuffled options and key lookup
  // ---------------------------------------------------------------------------

  /** Position of a key in the iteration order of the options dict. */
  function KeyIndex(k: Key): nat {
    match k
    case A => 0
    case B => 1
    case C => 2
    case D => 3
  }

  /** The option texts in key order. */
  function OptionSeq(o: map<Key, string>): seq<string>
    requires o.Keys == AllKeys
  {
    [o[A], o[B], o[C], o[D]]
  }

  /** `[k for k, v in options.items() if v == text][0]`: the first key, in A–D order, holding `text`. */
  function KeyOf(o: map<Key, string>, text: string): (k: Key)
    requires o.Keys == AllKeys && text in OptionSeq(o)
    ensures k in o && o[k] == text
    ensures forall k' | k' in AllKeys && KeyIndex(k') < KeyIndex(k) :: o[k'] != text
  {
    if o[A] == text then A
    else if o[B] == text then B
    else if o[C] == text then C
    else D
  }

  /** `make_mcq_options`: shuffle `wrong_texts + [correct_text]` into keys A–D and find the correct key. */
  function MakeMcqOptions(correct: string, wrongs: seq<string>, js: seq<nat>): (r: (map<Key, string>, Key))
    requires |wrongs| == 3 && ValidDraws(4, js)
    ensures r.0.Keys == AllKeys && r.1 in r.0 && r.0[r.1] == correct
    ensures multiset(OptionSeq(r.0)) == multiset(wrongs + [correct])
    ensures correct in OptionSeq(r.0) && r.1 == KeyOf(r.0, correct)
  {
    OptionsFrom(Shuffled(wrongs + [correct], js), correct)
  }

  /** Keys A–D given in order to four texts, and the first key holding `correct`. */
  function OptionsFrom(all: seq<string>, correct: string): (r: (map<Key, string>, Key))
    requires |all| == 4 && correct in multiset(all)
    ensures r.0.Keys == AllKeys && OptionSeq(r.0) == all && r.1 in r.0 && r.0[r.1] == correct
    ensures correct in OptionSeq(r.0) && r.1 == KeyOf(r.0, correct)
  {
    var options := map[A := all[0], B := all[1], C := all[2], D := all[3]];
    assert OptionSeq(options) == all;
    (options, KeyOf(options, correct))
  }

  /** The rationale map built as a dict literal keyed by looked-up keys: a repeated key keeps its last tag. */
  function DistractorMap(o: map<Key, string>, wrongs: seq<string>, tags: seq<string>): (m: map<Key, string>)
    requires o.Keys == AllKeys && |wrongs| == 3 && |tags| == 3
    requires forall i | 0 <= i < 3 :: wrongs[i] in OptionSeq(o)
    ensures m.Keys == {KeyOf(o, wrongs[0]), KeyOf(o, wrongs[1]), KeyOf(o, wrongs[2])}
    ensures m[KeyOf(o, wrongs[2])] == tags[2]
  {
    map[][KeyOf(o, wrongs[0]) := tags[0]][KeyOf(o, wrongs[1]) := tags[1]][KeyOf(o, wrongs[2]) := tags[2]]
  }

  /** The two records of one word problem, as every template in this file assembles them. */
  function WordRows(question: string, correct: string, wrongs: seq<string>, tags: seq<string>,
                    given: string, finalAnswer: string, difficulty: int, js: seq<nat>): (rows: seq<Row>)
    requires |wrongs| == 3 && |tags| == 3 && ValidDraws(4, js)
    ensures |rows| == 2 && rows[0].response.McqResponse? && rows[1].response.SolveResponse?
    ensures rows[0].response.options.Keys == AllKeys
    ensures rows[0].response.correctOption in rows[0].response.options
    ensures rows[0].response.options[rows[0].response.correctOption] == correct
    ensures rows[1].response.finalAnswer == finalAnswer
  {
    var (options, key) := MakeMcqOptions(correct, wrongs, js);
    assert forall i | 0 <= i < 3 :: wrongs[i] in multiset(wrongs + [correct]);
    [McqRow(Chapter_, question, options, key, DistractorMap(options, wrongs, tags), difficulty),
     SolveRow(Chapter_, question, given, finalAnswer, difficulty)]
  }

  // ---------------------------------------------------------------------------
  // What the shuffle preserves
  // ---------------------------------------------------------------------------

  /** Four texts are pairwise distinct exactly when none occurs twice in their multiset. */
  lemma Distinct4Multiset(s: seq<string>)
    requires |s| == 4
    ensures Distinct4(s[0], s[1], s[2], s[3]) <==> forall x :: multiset(s)[x] <= 1
  {
    assert s == [s[0]] + [s[1]] + [s[2]] + [s[3]];
    if !Distinct4(s[0], s[1], s[2], s[3]) {
      if s[0] == s[1] || s[0] == s[2] || s[0] == s[3] {
        assert multiset(s)[s[0]] >= 2;
      } else if s[1] == s[2] || s[1] == s[3] {
        assert multiset(s)[s[1]] >= 2;
      } else {
        assert multiset(s)[s[2]] >= 2;
      }
    }
  }

  /** Rearranging four texts keeps them distinct or not distinct. */
  lemma Distinct4Permutation(s: seq<string>, t: seq<string>)
    requires |s| == 4 && |t| == 4 && multiset(s) == multiset(t)
    ensures Distinct4(s[0], s[1], s[2], s[3]) <==> Distinct4(t[0], t[1], t[2], t[3])
  {
    Distinct4Multiset(s);
    Distinct4Multiset(t);
  }

  /** The shuffled options are pairwise distinct exactly when the four texts are. */
  lemma MakeMcqOptionsDistinct(correct: string, wrongs: seq<string>, js: seq<nat>)
    requires |wrongs| == 3 && ValidDraws(4, js)
    ensures PairwiseDistinct(MakeMcqOptions(correct, wrongs, js).0)
      <==> Distinct4(wrongs[0], wrongs[1], wrongs[2], correct)
  {
    var o := MakeMcqOptions(correct, wrongs, js).0;
    assert o == Options(o[A], o[B], o[C], o[D]);
    OptionsDistinct(o[A], o[B], o[C], o[D]);
    var w := wrongs + [correct];
    Distinct4Permutation(OptionSeq(o), w);
  }

  /** A text at position i of four occurs once exactly when no other position holds it. */
  lemma CountOnce(s: seq<string>, i: nat, v: string)
    requires |s| == 4 && i < 4 && s[i] == v
    ensures multiset(s)[v] == 1 <==> forall j | 0 <= j < 4 && j != i :: s[j] != v
  {
    assert s == [s[0]] + [s[1]] + [s[2]] + [s[3]];
  }

  /** The key at a position of the options dict. */
  function KeyAt(i: nat): (k: Key)
    requires i < 4
    ensures KeyIndex(k) == i
  {
    if i == 0 then A else if i == 1 then B else if i == 2 then C else D
  }

  /** "Exactly one correct" read off the option texts in key order. */
  lemma OneCorrectSeq(o: map<Key, string>, k: Key)
    requires o.Keys == AllKeys && k in o
    ensures OneCorrect(o, k) <==> forall j | 0 <= j < 4 && j != KeyIndex(k) :: OptionSeq(o)[j] != o[k]
  {
    if !OneCorrect(o, k) {
      var k' :| k' in o && k' != k && o[k'] == o[k];
      assert OptionSeq(o)[KeyIndex(k')] == o[k'];
    }
  }

  /** The correct text is under no other key exactly when it is none of the wrong texts. */
  lemma MakeMcqOptionsOneCorrect(correct: string, wrongs: seq<string>, js: seq<nat>)
    requires |wrongs| == 3 && ValidDraws(4, js)
    ensures var (o, k) := MakeMcqOptions(correct, wrongs, js);
      OneCorrect(o, k) <==> correct !in wrongs
  {
    var (o, k) := MakeMcqOptions(correct, wrongs, js);
    var w := wrongs + [correct];
    assert w == wrongs + [w[3]];
    assert multiset(w)[correct] == multiset(wrongs)[correct] + 1;
    assert OptionSeq(o)[KeyIndex(k)] == correct;
    CountOnce(OptionSeq(o), KeyIndex(k), correct);
    OneCorrectSeq(o, k);
  }

  /** Every key other than the correct one holds one of the wrong texts, when no two keys share a text. */
  lemma OtherKeyHoldsWrong(o: map<Key, string>, k: Key, correct: string, wrongs: seq<string>, k': Key)
    requires o.Keys == AllKeys && k in o && o[k] == correct && |wrongs| == 3
    requires multiset(OptionSeq(o)) == multiset(wrongs + [correct])
    requires PairwiseDistinct(o) && k' in o && k' != k
    ensures o[k'] == wrongs[0] || o[k'] == wrongs[1] || o[k'] == wrongs[2]
  {
    var x := o[k'];
    assert x != correct;
    assert OptionSeq(o)[KeyIndex(k')] == x;
    var w := wrongs + [correct];
    assert x in multiset(w);
    var i :| 0 <= i < |w| && w[i] == x;
    assert i != 3;
  }

  /** Three keys that make up all keys but one are pairwise different and differ from it. */
  lemma ThreeKeys(k: Key, k0: Key, k1: Key, k2: Key)
    requires {k0, k1, k2} == AllKeys - {k}
    ensures k0 != k && k1 != k && k2 != k && k0 != k1 && k0 != k2 && k1 != k2
  {
    var others := AllKeys - {k};
    assert k !in others;
    assert A in AllKeys && B in AllKeys && C in AllKeys && D in AllKeys;
    match k
    case A => assert B in others && C in others && D in others;
    case B => assert A in others && C in others && D in others;
    case C => assert A in others && B in others && D in others;
    case D => assert A in others && B in others && C in others;
  }

  /** In distinct options, a key other than the correct one is the key looked up for some wrong text. */
  lemma OtherKeyIsLookup(o: map<Key, string>, k: Key, correct: string, wrongs: seq<string>, k': Key)
    requires o.Keys == AllKeys && |wrongs| == 3 && k in o && o[k] == correct
    requires multiset(OptionSeq(o)) == multiset(wrongs + [correct])
    requires forall i | 0 <= i < 3 :: wrongs[i] in OptionSeq(o)
    requires PairwiseDistinct(o) && k' in o && k' != k
    ensures k' == KeyOf(o, wrongs[0]) || k' == KeyOf(o, wrongs[1]) || k' == KeyOf(o, wrongs[2])
  {
    OtherKeyHoldsWrong(o, k, correct, wrongs, k');
    var i :| 0 <= i < 3 && o[k'] == wrongs[i];
    assert o[KeyOf(o, wrongs[i])] == o[k'];
  }

  /** Distinct texts put the three wrong texts under exactly the keys other than the correct one. */
  lemma DistinctCoversKeys(o: map<Key, string>, k: Key, correct: string, wrongs: seq<string>)
    requires o.Keys == AllKeys && |wrongs| == 3 && k in o && o[k] == correct
    requires multiset(OptionSeq(o)) == multiset(wrongs + [correct])
    requires forall i | 0 <= i < 3 :: wrongs[i] in OptionSeq(o)
    requires PairwiseDistinct(o) && Distinct4(wrongs[0], wrongs[1], wrongs[2], correct)
    ensures {KeyOf(o, wrongs[0]), KeyOf(o, wrongs[1]), KeyOf(o, wrongs[2])} == AllKeys - {k}
  {
    var k0, k1, k2 := KeyOf(o, wrongs[0]), KeyOf(o, wrongs[1]), KeyOf(o, wrongs[2]);
    if A != k { OtherKeyIsLookup(o, k, correct, wrongs, A); }
    if B != k { OtherKeyIsLookup(o, k, correct, wrongs, B); }
    if C != k { OtherKeyIsLookup(o, k, correct, wrongs, C); }
    if D != k { OtherKeyIsLookup(o, k, correct, wrongs, D); }
    CoverAllBut(k, k0, k1, k2);
  }

  /** Three keys, none of them k, that include every other key are all keys but k. */
  lemma CoverAllBut(k: Key, k0: Key, k1: Key, k2: Key)
    requires k0 != k && k1 != k && k2 != k
    requires A != k ==> A == k0 || A == k1 || A == k2
    requires B != k ==> B == k0 || B == k1 || B == k2
    requires C != k ==> C == k0 || C == k1 || C == k2
    requires D != k ==> D == k0 || D == k1 || D == k2
    ensures {k0, k1, k2} == AllKeys - {k}
  {
  }

  /** Rationale keys that make up all keys but the correct one come from four distinct texts. */
  lemma KeysCoverDistinct(o: map<Key, string>, k: Key, correct: string, wrongs: seq<string>)
    requires o.Keys == AllKeys && |wrongs| == 3
    requires correct in OptionSeq(o) && k == KeyOf(o, correct)
    requires forall i | 0 <= i < 3 :: wrongs[i] in OptionSeq(o)
    requires {KeyOf(o, wrongs[0]), KeyOf(o, wrongs[1]), KeyOf(o, wrongs[2])} == AllKeys - {k}
    ensures Distinct4(wrongs[0], wrongs[1], wrongs[2], correct)
  {
    ThreeKeys(k, KeyOf(o, wrongs[0]), KeyOf(o, wrongs[1]), KeyOf(o, wrongs[2]));
  }

  /** The rationale keys, for options of four given texts whose correct key is that of `correct`. */
  lemma DistractorKeysOf(o: map<Key, string>, k: Key, correct: string, wrongs: seq<string>, tags: seq<string>)
    requires o.Keys == AllKeys && |wrongs| == 3 && |tags| == 3
    requires multiset(OptionSeq(o)) == multiset(wrongs + [correct])
    requires correct in OptionSeq(o) && k == KeyOf(o, correct)
    requires forall i | 0 <= i < 3 :: wrongs[i] in OptionSeq(o)
    requires Distinct4(wrongs[0], wrongs[1], wrongs[2], correct) ==> PairwiseDistinct(o)
    ensures DistractorMap(o, wrongs, tags).Keys == AllKeys - {k} <==> Distinct4(wrongs[0], wrongs[1], wrongs[2], correct)
  {
    var keys := DistractorMap(o, wrongs, tags).Keys;
    if Distinct4(wrongs[0], wrongs[1], wrongs[2], correct) {
      DistinctCoversKeys(o, k, correct, wrongs);
    } else if keys == AllKeys - {k} {
      KeysCoverDistinct(o, k, correct, wrongs);
    }
  }

  /** The rationales cover exactly the three wrong keys exactly when the four texts are distinct. */
  lemma DistractorKeys(correct: string, wrongs: seq<string>, tags: seq<string>, js: seq<nat>)
    requires |wrongs| == 3 && |tags| == 3 && ValidDraws(4, js)
    ensures var (o, k) := MakeMcqOptions(correct, wrongs, js);
      (forall i | 0 <= i < 3 :: wrongs[i] in OptionSeq(o))
      && (DistractorMap(o, wrongs, tags).Keys == AllKeys - {k} <==> Distinct4(wrongs[0], wrongs[1], wrongs[2], correct))
  {
    var (o, k) := MakeMcqOptions(correct, wrongs, js);
    assert forall i | 0 <= i < 3 :: wrongs[i] in multiset(wrongs + [correct]);
    MakeMcqOptionsDistinct(correct, wrongs, js);
    assert o[k] == OptionSeq(o)[KeyIndex(k)];
    DistractorKeysOf(o, k, correct, wrongs, tags);
  }

  /** What a template's multiple-choice record promises, in terms of its four texts. */
  lemma WordRowsMcq(question: string, correct: string, wrongs: seq<string>, tags: seq<string>,
                    given: string, finalAnswer: string, difficulty: int, js: seq<nat>)
    requires |wrongs| == 3 && |tags| == 3 && ValidDraws(4, js)
    ensures var r := WordRows(question, correct, wrongs, tags, given, finalAnswer, difficulty, js)[0];
      && (WellFormedMcq(r) <==> Distinct4(wrongs[0], wrongs[1], wrongs[2], correct))
      && (ExactlyOneCorrect(r) <==> correct !in wrongs)
      && (AllOptionsDistinct(r) <==> Distinct4(wrongs[0], wrongs[1], wrongs[2], correct))
  {
    DistractorKeys(correct, wrongs, tags, js);
    MakeMcqOptionsOneCorrect(correct, wrongs, js);
    MakeMcqOptionsDistinct(correct, wrongs, js);
  }

  /** `make_mcq_options` as the source runs it: the four texts go into a list that is shuffled in place. */
  method MakeMcqOptionsInPlace(correct: string, wrongs: seq<string>, js: seq<nat>)
    returns (options: map<Key, string>, key: Key)
    requires |wrongs| == 3 && ValidDraws(4, js)
    ensures (options, key) == MakeMcqOptions(correct, wrongs, js)
  {
    var all := new string[4];
    all[0], all[1], all[2], all[3] := wrongs[0], wrongs[1], wrongs[2], correct;
    assert all[..] == wrongs + [correct];
    ShuffleInPlace(all, js);
    options := map[A := all[0], B := all[1], C := all[2], D := all[3]];
    assert OptionSeq(options) == all[..];
    assert correct in multiset(all[..]);
    key := KeyOf(options, correct);
  }

  /** A template whose four texts are distinct emits a record meeting every promise of its prompt. */
  lemma WordRowsOk(question: string, correct: string, wrongs: seq<string>, tags: seq<string>,
                   given: string, finalAnswer: string, difficulty: int, js: seq<nat>)
    requires |wrongs| == 3 && |tags| == 3 && ValidDraws(4, js)
    requires Distinct4(wrongs[0], wrongs[1], wrongs[2], correct)
    ensures var rows := WordRows(question, correct, wrongs, tags, given, finalAnswer, difficulty, js);
      && WellFormedMcq(rows[0]) && ExactlyOneCorrect(rows[0]) && AllOptionsDistinct(rows[0])
      && rows[0].response.question == question && CorrectText(rows[0]) == correct
      && rows[1].response.given == given && rows[1].response.finalAnswer == finalAnswer
  {
    WordRowsMcq(question, correct, wrongs, tags, given, finalAnswer, difficulty, js);
  }

  /** The question, correct text and answer a template passes in are the ones its records carry. */
  lemma WordRowsOkParts(question: string, correct: string, wrongs: seq<string>, tags: seq<string>,
                        given: string, finalAnswer: string, difficulty: int, js: seq<nat>)
    requires |wrongs| == 3 && |tags| == 3 && ValidDraws(4, js)
    ensures var rows := WordRows(question, correct, wrongs, tags, given, finalAnswer, difficulty, js);
      && rows[0].response.question == question && CorrectText(rows[0]) == correct
      && rows[1].response.given == given && rows[1].response.finalAnswer == finalAnswer
  {
  }

  /** A template whose first two wrong texts coincide keeps one correct key but loses a rationale key. */
  lemma WordRowsRepeatedWrong(question: string, correct: string, wrongs: seq<string>, tags: seq<string>,
                              given: string, finalAnswer: string, difficulty: int, js: seq<nat>)
    requires |wrongs| == 3 && |tags| == 3 && ValidDraws(4, js)
    requires wrongs[0] == wrongs[1] && wrongs[0] != wrongs[2] && correct !in wrongs
    ensures var r := WordRows(question, correct, wrongs, tags, given, finalAnswer, difficulty, js)[0];
      && ExactlyOneCorrect(r) && !WellFormedMcq(r) && !AllOptionsDistinct(r)
      && |r.response.distractors.Keys| == 2
  {
    WordRowsMcq(question, correct, wrongs, tags, given, finalAnswer, difficulty, js);
    var o := MakeMcqOptions(correct, wrongs, js).0;
    assert forall i | 0 <= i < 3 :: wrongs[i] in multiset(wrongs + [correct]);
    RepeatedKeys(o, wrongs, tags);
  }

  /** Looking up a repeated text twice gives the same key, so the rationale map has two keys. */
  lemma RepeatedKeys(o: map<Key, string>, wrongs: seq<string>, tags: seq<string>)
    requires o.Keys == AllKeys && |wrongs| == 3 && |tags| == 3
    requires forall i | 0 <= i < 3 :: wrongs[i] in OptionSeq(o)
    requires wrongs[0] == wrongs[1] && wrongs[0] != wrongs[2]
    ensures |DistractorMap(o, wrongs, tags).Keys| == 2
  {
    var k0, k2 := KeyOf(o, wrongs[0]), KeyOf(o, wrongs[2]);
    assert k0 != k2;
    assert {k0, k0, k2} == {k0} + {k2};
  }

  // ---------------------------------------------------------------------------
  // 1) Consecutive numbers
  // ---------------------------------------------------------------------------

  /** `x` after `if x % 2 != 0: x += 1`: the even number at or just above the draw. */
  function EvenUp(x0: int): (x: int)
    ensures x % 2 == 0 && x0 <= x <= x0 + 1
  {
    if x0 % 2 != 0 then x0 + 1 else x0
  }

  /** `gen_consecutive_numbers`: the mode drawn is `even`, the number drawn is `x0`. */
  function ConsecutiveNumbers(even: bool, x0: int, js: seq<nat>): (rows: seq<Row>)
    requires if even then 4 <= x0 <= 12 else 3 <= x0 <= 10
    requires ValidDraws(4, js)
    ensures |rows| == 2 && WellFormedMcq(rows[0]) && ExactlyOneCorrect(rows[0]) && AllOptionsDistinct(rows[0])
  {
    if even then ConsecutiveEven(x0, js) else ConsecutiveNatural(x0, js)
  }

  /** The "even" mode: x is made even, and the pair is x and x+2. */
  function ConsecutiveEven(x0: int, js: seq<nat>): (rows: seq<Row>)
    requires 4 <= x0 <= 12 && ValidDraws(4, js)
    ensures |rows| == 2 && WellFormedMcq(rows[0]) && ExactlyOneCorrect(rows[0]) && AllOptionsDistinct(rows[0])
    ensures var x := EvenUp(x0);
      && 4 <= x <= 12
      && rows[0].response.question
         == Fmt1("The product of two consecutive positive even numbers is ", x * (x + 2), ". Find the numbers.")
      && CorrectText(rows[0]) == Fmt2("", x, " and ", x + 2, "")
      && rows[1].response.SolveResponse? && rows[1].response.finalAnswer == CorrectText(rows[0])
  {
    EvenPair(EvenUp(x0), js)
  }

  /** The records of the "even" mode once x is even. */
  function EvenPair(x: int, js: seq<nat>): (rows: seq<Row>)
    requires 4 <= x <= 12 && ValidDraws(4, js)
    ensures |rows| == 2 && WellFormedMcq(rows[0]) && ExactlyOneCorrect(rows[0]) && AllOptionsDistinct(rows[0])
    ensures rows[0].response.question
            == Fmt1("The product of two consecutive positive even numbers is ", x * (x + 2), ". Find the numbers.")
    ensures CorrectText(rows[0]) == Fmt2("", x, " and ", x + 2, "")
    ensures rows[1].response.SolveResponse? && rows[1].response.finalAnswer == CorrectText(rows[0])
  {
    var question := Fmt1("The product of two consecutive positive even numbers is ", x * (x + 2), ". Find the numbers.");
    var correct := Fmt2("", x, " and ", x + 2, "");
    var wrongs := [Fmt2("", x - 2, " and ", x, ""), Fmt2("", x, " and ", x + 1, ""), Fmt2("", x + 2, " and ", x + 4, "")];
    var tags := ["shift_error", "sequence_error", "shift_error"];
    Pairs4("", " and ", "", x - 2, x, x, x + 1, x + 2, x + 4, x, x + 2);
    WordRowsOk(question, correct, wrongs, tags, "Consecutive numbers", correct, 3, js);
    WordRows(question, correct, wrongs, tags, "Consecutive numbers", correct, 3, js)
  }

  /** The "natural" mode: the pair is x and x+1. */
  function ConsecutiveNatural(x: int, js: seq<nat>): (rows: seq<Row>)
    requires 3 <= x <= 10 && ValidDraws(4, js)
    ensures |rows| == 2 && WellFormedMcq(rows[0]) && ExactlyOneCorrect(rows[0]) && AllOptionsDistinct(rows[0])
    ensures rows[0].response.question
            == Fmt1("The product of two consecutive natural numbers is ", x * (x + 1), ". Find the numbers.")
    ensures CorrectText(rows[0]) == Fmt2("", x, " and ", x + 1, "")
    ensures rows[1].response.SolveResponse? && rows[1].response.finalAnswer == CorrectText(rows[0])
  {
    var question := Fmt1("The product of two consecutive natural numbers is ", x * (x + 1), ". Find the numbers.");
    var correct := Fmt2("", x, " and ", x + 1, "");
    var wrongs := [Fmt2("", x - 1, " and ", x, ""), Fmt2("", x, " and ", x + 2, ""), Fmt2("", x + 1, " and ", x + 2, "")];
    var tags := ["shift_error", "sequence_error", "shift_error"];
    Pairs4("", " and ", "", x - 1, x, x, x + 2, x + 1, x + 2, x, x + 1);
    WordRowsOk(question, correct, wrongs, tags, "Consecutive numbers", correct, 3, js);
    WordRows(question, correct, wrongs, tags, "Consecutive numbers", correct, 3, js)
  }

  /** The numbers offered as correct are the only positive pair with that gap and that product. */
  lemma ConsecutiveRoot(x: int, gap: int, t: int)
    requires x > 0 && gap > 0 && t > 0
    ensures t * (t + gap) == x * (x + gap) <==> t == x
  {
    ProductRootUnique(0, gap, x, t);
  }

  // ---------------------------------------------------------------------------
  // 2) Sum and product
  // ---------------------------------------------------------------------------

  /** `gen_sum_product`: two different numbers drawn from 4..14. */
  function SumProduct(a: int, b: int, js: seq<nat>): (rows: seq<Row>)
    requires 4 <= a < 15 && 4 <= b < 15 && a != b && ValidDraws(4, js)
    ensures |rows| == 2 && WellFormedMcq(rows[0]) && ExactlyOneCorrect(rows[0]) && AllOptionsDistinct(rows[0])
    ensures rows[0].response.question
      == Fmt2("The sum of two positive numbers is ", a + b, " and their product is ", a * b, ". Find the numbers.")
    ensures CorrectText(rows[0]) == Fmt2("", if a < b then a else b, " and ", if a < b then b else a, "")
    ensures rows[1].response.SolveResponse? && rows[1].response.given == Fmt2("S=", a + b, ", P=", a * b, "")
  {
    SumProductRows(a, b, a + b, a * b, js)
  }

  /** The records of `gen_sum_product` for sum S and product P. */
  function SumProductRows(a: int, b: int, S: int, P: int, js: seq<nat>): (rows: seq<Row>)
    requires 4 <= a && 4 <= b && a != b && S == a + b && ValidDraws(4, js)
    ensures |rows| == 2 && WellFormedMcq(rows[0]) && ExactlyOneCorrect(rows[0]) && AllOptionsDistinct(rows[0])
    ensures rows[0].response.question
      == Fmt2("The sum of two positive numbers is ", S, " and their product is ", P, ". Find the numbers.")
    ensures CorrectText(rows[0]) == Fmt2("", if a < b then a else b, " and ", if a < b then b else a, "")
    ensures rows[1].response.SolveResponse? && rows[1].response.given == Fmt2("S=", S, ", P=", P, "")
  {
    var lo, hi := if a < b then a else b, if a < b then b else a;
    var question := Fmt2("The sum of two positive numbers is ", S, " and their product is ", P, ". Find the numbers.");
    var correct := Fmt2("", lo, " and ", hi, "");
    var wrongs := [Fmt2("", S, " and ", P, ""), Fmt2("", a, " and ", b + 1, ""), Fmt2("", a - 1, " and ", b, "")];
    var tags := ["data_confusion", "near_miss", "near_miss"];
    var given := Fmt2("S=", S, ", P=", P, "");
    Pairs4("", " and ", "", S, P, a, b + 1, a - 1, b, lo, hi);
    WordRowsOk(question, correct, wrongs, tags, given, correct, 3, js);
    WordRows(question, correct, wrongs, tags, given, correct, 3, js)
  }

  // ---------------------------------------------------------------------------
  // 3) Ages of father and son
  // ---------------------------------------------------------------------------

  /** `gen_age_problem`. */
  function AgeProblem(father: int, son: int, years: int, js: seq<nat>): (rows: seq<Row>)
    requires 28 <= father <= 45 && 10 <= son <= 18 && 2 <= years <= 6 && ValidDraws(4, js)
    ensures |rows| == 2 && WellFormedMcq(rows[0]) && ExactlyOneCorrect(rows[0]) && AllOptionsDistinct(rows[0])
    ensures rows[0].response.question ==
      "The present ages of a father and his son are " + IntStr(father) + " years and " + IntStr(son)
      + " years respectively. How many years ago was the product of their ages "
      + IntStr((father - years) * (son - years)) + "?"
    ensures CorrectText(rows[0]) == Fmt1("", years, " years ago")
  {
    ProductGrows(father - years, son - years, 7, 1);
    AgeRows(father, son, years, (father - years) * (son - years), js)
  }

  /** The records of `gen_age_problem` once the product of the past ages is known. */
  function AgeRows(father: int, son: int, years: int, product: int, js: seq<nat>): (rows: seq<Row>)
    requires 2 <= years <= 6 && product > 7 && ValidDraws(4, js)
    ensures |rows| == 2 && WellFormedMcq(rows[0]) && ExactlyOneCorrect(rows[0]) && AllOptionsDistinct(rows[0])
    ensures rows[0].response.question ==
      "The present ages of a father and his son are " + IntStr(father) + " years and " + IntStr(son)
      + " years respectively. How many years ago was the product of their ages " + IntStr(product) + "?"
    ensures CorrectText(rows[0]) == Fmt1("", years, " years ago")
  {
    var question := "The present ages of a father and his son are " + IntStr(father) + " years and " + IntStr(son)
      + " years respectively. How many years ago was the product of their ages " + IntStr(product) + "?";
    var correct := Fmt1("", years, " years ago");
    var w2 := if years > 2 then years - 1 else years + 2;
    var wrongs := [Fmt1("", years + 1, " years ago"), Fmt1("", w2, " years ago"), Fmt1("", product, " years ago")];
    var tags := ["off_by_one", "off_by_one", "unit_error"];
    var given := "Father=" + IntStr(father) + ", Son=" + IntStr(son) + ", Product=" + IntStr(product);
    Ints4("", " years ago", years + 1, w2, product, years);
    WordRowsOk(question, correct, wrongs, tags, given, correct, 3, js);
    WordRows(question, correct, wrongs, tags, given, correct, 3, js)
  }

  /** Going back t years while the son is alive, the product of the ages is the asked one only at t = years. */
  lemma AgeRoot(father: int, son: int, years: int, t: int)
    requires son < father && years < son && t < son
    ensures (father - t) * (son - t) == (father - years) * (son - years) <==> t == years
  {
    ProductRootUnique(father, son, -years, -t);
  }

  // ---------------------------------------------------------------------------
  // 4) Reciprocals
  // ---------------------------------------------------------------------------

  /** `gen_reciprocal`. */
  function Reciprocal(x: int, js: seq<nat>): (rows: seq<Row>)
    requires 2 <= x <= 8 && ValidDraws(4, js)
    ensures |rows| == 2 && WellFormedMcq(rows[0]) && ExactlyOneCorrect(rows[0]) && AllOptionsDistinct(rows[0])
    ensures rows[0].response.question
      == Fmt2("The sum of the reciprocals of two consecutive natural numbers is ", 2 * x + 1, "/", x * (x + 1),
              ". Find the numbers.")
    ensures CorrectText(rows[0]) == Fmt2("", x, " and ", x + 1, "")
  {
    var question := Fmt2("The sum of the reciprocals of two consecutive natural numbers is ", 2 * x + 1, "/",
                         x * (x + 1), ". Find the numbers.");
    var correct := Fmt2("", x, " and ", x + 1, "");
    var wrongs := [Fmt2("", x - 1, " and ", x, ""), Fmt2("", x + 1, " and ", x + 2, ""), Fmt2("", x, " and ", x + 2, "")];
    var tags := ["shift_error", "shift_error", "gap_error"];
    Pairs4("", " and ", "", x - 1, x, x + 1, x + 2, x, x + 2, x, x + 1);
    WordRowsOk(question, correct, wrongs, tags, "Reciprocal (consecutive)", correct, 3, js);
    WordRows(question, correct, wrongs, tags, "Reciprocal (consecutive)", correct, 3, js)
  }

  /** 1/x + 1/(x+1) = (2x+1)/(x(x+1)): the fraction in the question is the sum for the offered pair. */
  lemma ReciprocalSum(x: int)
    requires x > 0
    ensures 1.0 / x as real + 1.0 / (x + 1) as real == (2 * x + 1) as real / (x * (x + 1)) as real
  {
    var u, v := x as real, (x + 1) as real;
    assert (x * (x + 1)) as real == u * v;
    assert 1.0 / u + 1.0 / v == (v + u) / (u * v);
  }

  // ---------------------------------------------------------------------------
  // 5) Two-digit number with reversed digits
  // ---------------------------------------------------------------------------

  /** `gen_two_digit`: the "added 27" distractor is always the reversed number, so only two rationale keys exist. */
  function TwoDigit(tens: int, js: seq<nat>): (rows: seq<Row>)
    requires 2 <= tens <= 6 && ValidDraws(4, js)
    ensures |rows| == 2 && ExactlyOneCorrect(rows[0])
    ensures !WellFormedMcq(rows[0]) && !AllOptionsDistinct(rows[0])
    ensures |rows[0].response.distractors.Keys| == 2
    ensures var ones := tens + 3;
      && ones <= 9
      && rows[0].response.question == Fmt1("The product of the digits of a two-digit number is ", tens * ones,
                                           ". If 27 is added to the number, the digits are reversed. Find the number.")
      && CorrectText(rows[0]) == IntStr(10 * tens + ones)
      && 10 * tens + ones + 27 == 10 * ones + tens
  {
    DigitProductSmaller(tens);
    TwoDigitRows(tens, tens + 3, tens * (tens + 3), js)
  }

  /** The digit product stays below the number itself, so the two never print alike. */
  lemma DigitProductSmaller(tens: int)
    requires 2 <= tens <= 6
    ensures 0 <= tens * (tens + 3) < 10 * tens + tens + 3
  {
    if tens == 2 {
    } else if tens == 3 {
    } else if tens == 4 {
    } else if tens == 5 {
    } else {
    }
  }

  /** The records of `gen_two_digit` for the digits and their product. */
  function TwoDigitRows(tens: int, ones: int, product: int, js: seq<nat>): (rows: seq<Row>)
    requires 2 <= tens <= 6 && ones == tens + 3 && 0 <= product < 10 * tens + ones && ValidDraws(4, js)
    ensures |rows| == 2 && ExactlyOneCorrect(rows[0])
    ensures !WellFormedMcq(rows[0]) && !AllOptionsDistinct(rows[0])
    ensures |rows[0].response.distractors.Keys| == 2
    ensures rows[0].response.question == Fmt1("The product of the digits of a two-digit number is ", product,
                                              ". If 27 is added to the number, the digits are reversed. Find the number.")
    ensures CorrectText(rows[0]) == IntStr(10 * tens + ones)
    ensures rows[1].response.SolveResponse? && rows[1].response.finalAnswer == Fmt1("The number is ", 10 * tens + ones, "")
  {
    var number, reversed := 10 * tens + ones, 10 * ones + tens;
    var question := Fmt1("The product of the digits of a two-digit number is ", product,
                         ". If 27 is added to the number, the digits are reversed. Find the number.");
    var correct := IntStr(number);
    var wrongs := [IntStr(reversed), IntStr(number + 27), IntStr(product)];
    var tags := ["reversal_only", "misread", "data_confusion"];
    var given := Fmt1("Digit product=", product, "");
    var final := Fmt1("The number is ", number, "");
    IntStrInjective(number, reversed);
    IntStrInjective(number, product);
    IntStrInjective(reversed, product);
    WordRowsRepeatedWrong(question, correct, wrongs, tags, given, final, 4, js);
    WordRowsOkParts(question, correct, wrongs, tags, given, final, 4, js);
    WordRows(question, correct, wrongs, tags, given, final, 4, js)
  }

  // ---------------------------------------------------------------------------
  // 6) Right-angled triangle
  // ---------------------------------------------------------------------------

  /** The five Pythagorean triples of `gen_triangle`, each with legs a < b and hypotenuse c. */
  function Triple(i: nat): (t: (int, int, int))
    requires i < 5
    ensures 0 < t.0 < t.1 < t.2 && t.0 * t.0 + t.1 * t.1 == t.2 * t.2
  {
    if i == 0 then (3, 4, 5)
    else if i == 1 then (5, 12, 13)
    else if i == 2 then (8, 15, 17)
    else if i == 3 then (7, 24, 25)
    else (9, 40, 41)
  }

  /** `gen_triangle`: the i-th triple is chosen. */
  function Triangle(i: nat, js: seq<nat>): (rows: seq<Row>)
    requires i < 5 && ValidDraws(4, js)
    ensures |rows| == 2 && WellFormedMcq(rows[0]) && ExactlyOneCorrect(rows[0]) && AllOptionsDistinct(rows[0])
    ensures var (a, b, c) := Triple(i);
      && rows[0].response.question == Fmt2("The hypotenuse of a right-angled triangle is ", c,
                                           " cm. If the difference of the other two sides is ", b - a,
                                           " cm, find their lengths.")
      && CorrectText(rows[0]) == Fmt2("", a, " cm and ", b, " cm")
      && a * a + (a + (b - a)) * (a + (b - a)) == c * c
  {
    var (a, b, c) := Triple(i);
    var diff := if b - a < 0 then a - b else b - a;
    var lo, hi := if a < b then a else b, if a < b then b else a;
    var question := Fmt2("The hypotenuse of a right-angled triangle is ", c,
                         " cm. If the difference of the other two sides is ", diff, " cm, find their lengths.");
    var correct := Fmt2("", lo, " cm and ", hi, " cm");
    var wrongs := [Fmt2("", lo, " cm and ", hi + diff, " cm"), Fmt2("", lo + 1, " cm and ", hi + 1, " cm"),
                   Fmt2("", c, " cm and ", diff, " cm")];
    var tags := ["difference_misuse", "arithmetic_error", "concept_error"];
    var given := Fmt2("Hypotenuse=", c, ", Difference=", diff, "");
    Pairs4("", " cm and ", " cm", lo, hi + diff, lo + 1, hi + 1, c, diff, lo, hi);
    WordRowsOk(question, correct, wrongs, tags, given, correct, 4, js);
    WordRows(question, correct, wrongs, tags, given, correct, 4, js)
  }

  /** The triple's smaller leg is the positive root of x² + (x + diff)² = c². */
  lemma TriangleRoot(i: nat, t: int)
    requires i < 5 && t > 0
    ensures var (a, b, c) := Triple(i);
      t * t + (t + (b - a)) * (t + (b - a)) == c * c <==> t == a
  {
    var (a, b, c) := Triple(i);
    var d := b - a;
    assert a * a + (a + d) * (a + d) == c * c;
    if t < a {
      ProductGrows(a, a, t, t);
      ProductGrows(a + d, a + d, t + d, t + d);
    } else if t > a {
      ProductGrows(t, t, a, a);
      ProductGrows(t + d, t + d, a + d, a + d);
    }
  }

  // ---------------------------------------------------------------------------
  // 7) Rectangle made square
  // ---------------------------------------------------------------------------

  /** The four (length, breadth) pairs of `gen_rectangle_square`. */
  function Rectangle(i: nat): (r: (int, int))
    requires i < 4
    ensures 0 < r.1 < r.0
  {
    if i == 0 then (30, 20) else if i == 1 then (25, 15) else if i == 2 then (28, 21) else (40, 25)
  }

  /** `int(round((n / d) * 100))` with exact division: the percentage rounded half to even. */
  function Percent(n: int, d: int): (p: int)
    requires d > 0
    ensures -(1.0 / 2.0) <= p as real - (n as real / d as real) * 100.0 <= 1.0 / 2.0
  {
    RoundHalfEven((n as real / d as real) * 100.0)
  }

  /** A percentage within one half of an integer rounds to it. */
  lemma PercentIs(n: int, d: int, p: int)
    requires d > 0 && -(1.0 / 2.0) < p as real - (n as real / d as real) * 100.0 < 1.0 / 2.0
    ensures Percent(n, d) == p
  {
    RoundNearest((n as real / d as real) * 100.0, p);
  }

  /** The four percentages of each rectangle: the correct reduction, the wrong bases, and the bare difference. */
  lemma RectanglePercents(i: nat)
    requires i < 4
    ensures var (L, B) := Rectangle(i);
      && Percent(L - B, L) == [33, 40, 25, 38][i]
      && Percent(L - B, B) == [50, 67, 33, 60][i]
      && Percent(L - B, L + B) == [20, 25, 14, 23][i]
      && L - B == [10, 10, 7, 15][i]
  {
    if i == 0 {
      PercentIs(10, 30, 33);
      PercentIs(10, 20, 50);
      PercentIs(10, 50, 20);
    } else if i == 1 {
      PercentIs(10, 25, 40);
      PercentIs(10, 15, 67);
      PercentIs(10, 40, 25);
    } else if i == 2 {
      PercentIs(7, 28, 25);
      PercentIs(7, 21, 33);
      PercentIs(7, 49, 14);
    } else {
      PercentTie();
      PercentIs(15, 25, 60);
      PercentIs(15, 65, 23);
    }
  }

  /** The correct percentage differs from the three wrong numbers for every rectangle. */
  lemma RectangleOptionsDistinct(L: int, B: int)
    requires (L, B) in {(30, 20), (25, 15), (28, 21), (40, 25)}
    ensures Distinct4(Percent(L - B, B), Percent(L - B, L + B), L - B, Percent(L - B, L))
  {
    var i := if (L, B) == (30, 20) then 0 else if (L, B) == (25, 15) then 1 else if (L, B) == (28, 21) then 2 else 3;
    assert Rectangle(i) == (L, B);
    RectanglePercents(i);
  }

  /** 15/40 of a hundred is 37.5 exactly, a tie that rounds to the even 38. */
  lemma PercentTie()
    ensures Percent(15, 40) == 38
  {
    var r := Percent(15, 40);
    assert (15 as real / 40 as real) * 100.0 == 75.0 / 2.0;
    assert 37 <= r <= 38;
  }

  /** `gen_rectangle_square`: the i-th rectangle is chosen. */
  function RectangleSquare(i: nat, js: seq<nat>): (rows: seq<Row>)
    requires i < 4 && ValidDraws(4, js)
    ensures |rows| == 2 && WellFormedMcq(rows[0]) && ExactlyOneCorrect(rows[0]) && AllOptionsDistinct(rows[0])
    ensures var (L, B) := Rectangle(i);
      && rows[0].response.question
         == Fmt2("The area of a rectangular land is ", L * B, " m² and its perimeter is ", 2 * (L + B),
                 " m. If the land is to be made square, by what percentage should the length be reduced?")
      && CorrectText(rows[0]) == Fmt1("", Percent(L - B, L), "%")
  {
    var r := Rectangle(i);
    var L, B := r.0, r.1;
    RectangleOptionsDistinct(L, B);
    var wrong := [Percent(L - B, B), Percent(L - B, L + B), L - B];
    RectangleRows(L * B, 2 * (L + B), Percent(L - B, L), wrong, js)
  }

  /** The records of `gen_rectangle_square` for the area, perimeter, correct percentage and wrong numbers. */
  function RectangleRows(area: int, perimeter: int, percent: int, wrong: seq<int>, js: seq<nat>): (rows: seq<Row>)
    requires |wrong| == 3 && Distinct4(wrong[0], wrong[1], wrong[2], percent) && ValidDraws(4, js)
    ensures |rows| == 2 && WellFormedMcq(rows[0]) && ExactlyOneCorrect(rows[0]) && AllOptionsDistinct(rows[0])
    ensures rows[0].response.question
      == Fmt2("The area of a rectangular land is ", area, " m² and its perimeter is ", perimeter,
              " m. If the land is to be made square, by what percentage should the length be reduced?")
    ensures CorrectText(rows[0]) == Fmt1("", percent, "%")
  {
    var question := Fmt2("The area of a rectangular land is ", area, " m² and its perimeter is ", perimeter,
                         " m. If the land is to be made square, by what percentage should the length be reduced?");
    var correct := Fmt1("", percent, "%");
    var wrongs := [Fmt1("", wrong[0], "%"), Fmt1("", wrong[1], "%"), Fmt1("", wrong[2], "%")];
    var tags := ["wrong_base", "wrong_denominator", "missing_percent_formula"];
    var given := Fmt2("Area=", area, ", Perimeter=", perimeter, "");
    Ints4("", "%", wrong[0], wrong[1], wrong[2], percent);
    WordRowsOk(question, correct, wrongs, tags, given, correct, 4, js);
    WordRows(question, correct, wrongs, tags, given, correct, 4, js)
  }

  /** Length and breadth are the two roots of x² − (perimeter/2)x + area = 0. */
  lemma RectangleRoots(i: nat, t: int)
    requires i < 4
    ensures var (L, B) := Rectangle(i);
      t * t - (2 * (L + B) / 2) * t + L * B == 0 <==> t == L || t == B
  {
    var (L, B) := Rectangle(i);
    assert 2 * (L + B) / 2 == L + B;
    SumProductRoots(L, B, t);
  }

  // ---------------------------------------------------------------------------
  // 8) Picnic budget
  // ---------------------------------------------------------------------------

  /** One draw of the picnic loop: planned students x and the planned share per student. */
  predicate PicnicDraw(x: int, per: int) {
    15 <= x <= 30 && per in {800, 1000, 1200, 1500, 2000}
  }

  /** The loop's exit test: the new share T/(x−5) exceeds the old one by a whole number above 100. */
  predicate PicnicAccepts(x: int, per: int) {
    x > 5 && (x * per) % (x - 5) == 0 && (x * per) / (x - 5) - per > 100
  }

  /** The records built from an accepted draw. */
  function PicnicRows(x: int, per: int, js: seq<nat>): (rows: seq<Row>)
    requires PicnicDraw(x, per) && PicnicAccepts(x, per) && ValidDraws(4, js)
    ensures |rows| == 2 && WellFormedMcq(rows[0]) && ExactlyOneCorrect(rows[0]) && AllOptionsDistinct(rows[0])
    ensures rows[0].response.question
      == Fmt2("Some students planned a picnic with a budget of Rs ", x * per,
              ". Five students were absent, so each student had to pay Rs ", (x * per) / (x - 5) - per,
              " more. How many students attended the picnic?")
    ensures CorrectText(rows[0]) == Fmt1("", x - 5, " students")
  {
    PicnicText(x, x * per, (x * per) / (x - 5) - per, js)
  }

  /** The records of `gen_picnic` for the budget T and the increase inc. */
  function PicnicText(x: int, T: int, inc: int, js: seq<nat>): (rows: seq<Row>)
    requires 15 <= x <= 30 && ValidDraws(4, js)
    ensures |rows| == 2 && WellFormedMcq(rows[0]) && ExactlyOneCorrect(rows[0]) && AllOptionsDistinct(rows[0])
    ensures rows[0].response.question
      == Fmt2("Some students planned a picnic with a budget of Rs ", T,
              ". Five students were absent, so each student had to pay Rs ", inc,
              " more. How many students attended the picnic?")
    ensures CorrectText(rows[0]) == Fmt1("", x - 5, " students")
  {
    var question := Fmt2("Some students planned a picnic with a budget of Rs ", T,
                         ". Five students were absent, so each student had to pay Rs ", inc,
                         " more. How many students attended the picnic?");
    var attended := x - 5;
    var correct := Fmt1("", attended, " students");
    var wrongs := [Fmt1("", x, " students"), Fmt1("", attended + 1, " students"), Fmt1("", attended - 1, " students")];
    var tags := ["asked_attended_but_gave_planned", "off_by_one", "off_by_one"];
    var given := Fmt2("T=", T, ", Increase=", inc, ", Absent=5");
    Ints4("", " students", x, attended + 1, attended - 1, attended);
    WordRowsOk(question, correct, wrongs, tags, given, correct, 4, js);
    WordRows(question, correct, wrongs, tags, given, correct, 4, js)
  }

  /** `gen_picnic`: draws are tried in order until one passes the test; None when the given draws run out. */
  method Picnic(draws: seq<(int, int)>, js: seq<nat>) returns (rows: Option<seq<Row>>, used: nat)
    requires forall i | 0 <= i < |draws| :: PicnicDraw(draws[i].0, draws[i].1)
    requires ValidDraws(4, js)
    ensures used <= |draws|
    ensures forall i | 0 <= i < used :: !PicnicAccepts(draws[i].0, draws[i].1)
    ensures rows.Some? <==> used < |draws|
    ensures used < |draws| ==> PicnicAccepts(draws[used].0, draws[used].1)
                               && rows == Some(PicnicRows(draws[used].0, draws[used].1, js))
  {
    used := FirstAccepted(draws);
    if used < |draws| {
      rows := Some(PicnicRows(draws[used].0, draws[used].1, js));
    } else {
      rows := None;
    }
  }

  /** The `while True` loop of `gen_picnic` over the given draws: the index of the first accepted one. */
  method FirstAccepted(draws: seq<(int, int)>) returns (used: nat)
    ensures used <= |draws|
    ensures forall i | 0 <= i < used :: !PicnicAccepts(draws[i].0, draws[i].1)
    ensures used < |draws| ==> PicnicAccepts(draws[used].0, draws[used].1)
  {
    used := 0;
    while used < |draws| && !PicnicAccepts(draws[used].0, draws[used].1)
      invariant used <= |draws|
      invariant forall i | 0 <= i < used :: !PicnicAccepts(draws[i].0, draws[i].1)
    {
      used := used + 1;
    }
  }

  /** On exit the increase is a whole number above 100, and the budget shared by x−5 students is per + inc each. */
  lemma PicnicIncrease(x: int, per: int)
    requires PicnicDraw(x, per) && PicnicAccepts(x, per)
    ensures var T := x * per;
      var inc := T / (x - 5) - per;
      && inc > 100 && T == (x - 5) * (per + inc)
      && T as real / (x - 5) as real == T as real / x as real + inc as real
  {
    var T := x * per;
    var q := T / (x - 5);
    ExactQuotient(T, x - 5);
    ShareAfterAbsence(x, per, T, q);
  }

  /** A divisor that leaves no remainder multiplies back to the dividend. */
  lemma ExactQuotient(n: int, d: int)
    requires d > 0 && n % d == 0
    ensures n == d * (n / d)
  {
  }

  /** The share equation over the rationals, for a budget that splits evenly after five are absent. */
  lemma ShareAfterAbsence(x: int, per: int, T: int, q: int)
    requires x > 5 && T == x * per && T == (x - 5) * q
    ensures T as real / (x - 5) as real == T as real / x as real + (q - per) as real
  {
    var tr, xr, qr, pr := T as real, x as real, q as real, per as real;
    assert tr == (xr - 5.0) * qr;
    assert tr == xr * pr;
    assert tr / (xr - 5.0) == qr;
    assert tr / xr == pr;
  }

  // ---------------------------------------------------------------------------
  // 9) Product of ages in the future
  // ---------------------------------------------------------------------------

  /** `gen_future_product`: two different ages from 10..19. */
  function FutureProduct(a: int, b: int, years: int, js: seq<nat>): (rows: seq<Row>)
    requires 10 <= a < 20 && 10 <= b < 20 && a != b && 2 <= years <= 5 && ValidDraws(4, js)
    ensures |rows| == 2 && WellFormedMcq(rows[0]) && ExactlyOneCorrect(rows[0]) && AllOptionsDistinct(rows[0])
    ensures rows[0].response.question
      == "The present ages of two sisters are " + IntStr(a) + " years and " + IntStr(b)
         + " years. After how many years will the product of their ages be " + IntStr((a + years) * (b + years)) + "?"
    ensures CorrectText(rows[0]) == Fmt1("", years, " years")
  {
    ProductGrows(a + years, b + years, 11, 11);
    FutureRows(a, b, years, (a + years) * (b + years), js)
  }

  /** The records of `gen_future_product` for the target product. */
  function FutureRows(a: int, b: int, years: int, product: int, js: seq<nat>): (rows: seq<Row>)
    requires 2 <= years <= 5 && product > 121 && ValidDraws(4, js)
    ensures |rows| == 2 && WellFormedMcq(rows[0]) && ExactlyOneCorrect(rows[0]) && AllOptionsDistinct(rows[0])
    ensures rows[0].response.question
      == "The present ages of two sisters are " + IntStr(a) + " years and " + IntStr(b)
         + " years. After how many years will the product of their ages be " + IntStr(product) + "?"
    ensures CorrectText(rows[0]) == Fmt1("", years, " years")
  {
    var question := "The present ages of two sisters are " + IntStr(a) + " years and " + IntStr(b)
      + " years. After how many years will the product of their ages be " + IntStr(product) + "?";
    var correct := Fmt1("", years, " years");
    var w2 := if years > 2 then years - 1 else years + 2;
    var wrongs := [Fmt1("", years + 1, " years"), Fmt1("", w2, " years"), Fmt1("", product, " years")];
    var tags := ["off_by_one", "off_by_one", "unit_error"];
    var given := "Ages=" + IntStr(a) + "," + IntStr(b) + ", TargetProduct=" + IntStr(product);
    Ints4("", " years", years + 1, w2, product, years);
    WordRowsOk(question, correct, wrongs, tags, given, correct, 3, js);
    WordRows(question, correct, wrongs, tags, given, correct, 3, js)
  }

  /** Looking forward, the product of the ages is the asked one only after exactly `years` years. */
  lemma FutureRoot(a: int, b: int, years: int, t: int)
    requires a > 0 && b > 0 && years >= 0 && t >= 0
    ensures (a + t) * (b + t) == (a + years) * (b + years) <==> t == years
  {
    ProductRootUnique(a, b, years, t);
  }

  // ---------------------------------------------------------------------------
  // 10) Difference of squares
  // ---------------------------------------------------------------------------

  /** `gen_difference_squares`. */
  function DifferenceSquares(x: int, js: seq<nat>): (rows: seq<Row>)
    requires 6 <= x <= 15 && ValidDraws(4, js)
    ensures |rows| == 2 && WellFormedMcq(rows[0]) && ExactlyOneCorrect(rows[0]) && AllOptionsDistinct(rows[0])
    ensures rows[0].response.question
      == Fmt1("The difference of the squares of two numbers which differ by 2 is ", (x + 2) * (x + 2) - x * x,
              ". Find the numbers.")
    ensures CorrectText(rows[0]) == Fmt2("", x, " and ", x + 2, "")
  {
    assert (x + 2) * (x + 2) - x * x == 4 * x + 4;
    DifferenceRows(x, (x + 2) * (x + 2) - x * x, js)
  }

  /** The records of `gen_difference_squares` for the difference of squares `diff`. */
  function DifferenceRows(x: int, diff: int, js: seq<nat>): (rows: seq<Row>)
    requires 6 <= x <= 15 && diff == 4 * x + 4 && ValidDraws(4, js)
    ensures |rows| == 2 && WellFormedMcq(rows[0]) && ExactlyOneCorrect(rows[0]) && AllOptionsDistinct(rows[0])
    ensures rows[0].response.question
      == Fmt1("The difference of the squares of two numbers which differ by 2 is ", diff, ". Find the numbers.")
    ensures CorrectText(rows[0]) == Fmt2("", x, " and ", x + 2, "")
  {
    var question := Fmt1("The difference of the squares of two numbers which differ by 2 is ", diff, ". Find the numbers.");
    var correct := Fmt2("", x, " and ", x + 2, "");
    var wrongs := [Fmt2("", x - 2, " and ", x, ""), Fmt2("", x, " and ", x + 1, ""), Fmt2("", diff, " and ", x, "")];
    var tags := ["shift_error", "difference_misread", "data_confusion"];
    var given := Fmt1("Difference=", diff, "");
    Pairs4("", " and ", "", x - 2, x, x, x + 1, diff, x, x, x + 2);
    WordRowsOk(question, correct, wrongs, tags, given, correct, 3, js);
    WordRows(question, correct, wrongs, tags, given, correct, 3, js)
  }

  /** (t+2)² − t² = 4t + 4, so the difference in the question is met by exactly one smaller number. */
  lemma DifferenceRoot(x: int, t: int)
    ensures (t + 2) * (t + 2) - t * t == (x + 2) * (x + 2) - x * x <==> t == x
  {
    assert (t + 2) * (t + 2) - t * t == 4 * t + 4;
    assert (x + 2) * (x + 2) - x * x == 4 * x + 4;
  }
}
