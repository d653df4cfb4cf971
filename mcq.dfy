/**
  * The two records every question template emits: a multiple-choice record (`mcq_row`) with four
  * options keyed A–D, one `correct_option` and `distractor_rationales` for the wrong keys, and a
  * step-by-step record (`solve_row`). Explanations, steps and rationale wording are not modelled;
  * each rationale is kept as its mistake tag.
  */
module Mcq {
  import opened Text

  datatype Key = A | B | C | D

  const AllKeys: set<Key> := {A, B, C, D}

  datatype Message = Message(role: string, content: string)

  datatype Meta = Meta(chapter: string, difficulty: int)

  datatype Response =
    | McqResponse(question: string, options: map<Key, string>, correctOption: Key,
                  distractors: map<Key, string>, meta: Meta)
    | SolveResponse(given: string, toFind: string, finalAnswer: string)

  datatype Row = Row(chapter: string, task: string, difficulty: int, messages: seq<Message>, response: Response)

  /** The fixed texts of one chapter's two record builders. */
  datatype Chapter = Chapter(name: string, systemGen: string, systemSolve: string, mcqTitle: string,
                             mcqRules: string, solvePrefix: string, toFind: string)

  /** `mcq_row(question, options, correct, explanation, distractors, difficulty)`. */
  function McqRow(ch: Chapter, question: string, options: map<Key, string>, correct: Key,
                  distractors: map<Key, string>, difficulty: int): Row
  {
    Row(ch.name, "generate_mcq", difficulty,
        [Message("system", ch.systemGen),
         Message("user", "Task: generate_mcq\nChapter: " + ch.mcqTitle + "\nDifficulty: " + IntStr(difficulty)
                         + "\nRules:\n" + ch.mcqRules)],
        McqResponse(question, options, correct, distractors, Meta(ch.name, difficulty)))
  }

  /** `solve_row(question, given, steps, final_answer, difficulty)`. */
  function SolveRow(ch: Chapter, question: string, given: string, finalAnswer: string, difficulty: int): Row {
    Row(ch.name, "solve", difficulty,
        [Message("system", ch.systemSolve), Message("user", ch.solvePrefix + question)],
        SolveResponse(given, ch.toFind, finalAnswer))
  }

  /** A dict literal `{"A": a, "B": b, "C": c, "D": d}`. */
  function Options(a: string, b: string, c: string, d: string): map<Key, string> {
    map[A := a, B := b, C := c, D := d]
  }

  predicate Distinct4<T(==)>(a: T, b: T, c: T, d: T) {
    a != b && a != c && a != d && b != c && b != d && c != d
  }

  /** The text of the option marked correct. */
  function CorrectText(r: Row): string
    requires r.response.McqResponse? && r.response.correctOption in r.response.options
  {
    r.response.options[r.response.correctOption]
  }

  /** No two keys carry the same text. */
  predicate PairwiseDistinct(options: map<Key, string>) {
    forall k1, k2 | k1 in options && k2 in options && k1 != k2 :: options[k1] != options[k2]
  }

  /** "Exactly one correct": no other key carries the text of the correct key. */
  predicate OneCorrect(options: map<Key, string>, correct: Key) {
    correct in options && forall k | k in options && k != correct :: options[k] != options[correct]
  }

  /** The shape every multiple-choice record promises: four keys, a correct one, rationales for the rest. */
  predicate WellFormedMcq(r: Row) {
    && r.task == "generate_mcq"
    && r.response.McqResponse?
    && r.response.options.Keys == AllKeys
    && r.response.distractors.Keys == AllKeys - {r.response.correctOption}
  }

  /** A well-formed record whose correct text appears under no other key. */
  predicate ExactlyOneCorrect(r: Row) {
    r.response.McqResponse? && OneCorrect(r.response.options, r.response.correctOption)
  }

  /** A record whose four option texts are pairwise different. */
  predicate AllOptionsDistinct(r: Row) {
    r.response.McqResponse? && PairwiseDistinct(r.response.options)
  }

  /**
    * The two records of one template call: a well-formed multiple-choice record with text under its
    * correct key k, and a solve record whose final answer is final.
    */
  predicate Answers(rows: seq<Row>, k: Key, text: string, final: string) {
    && |rows| == 2 && WellFormedMcq(rows[0]) && rows[0].response.correctOption == k
    && k in rows[0].response.options && rows[0].response.options[k] == text
    && rows[1].response.SolveResponse? && rows[1].response.finalAnswer == final
  }

  /** The multiple-choice record of a template call has one correct option and four distinct ones. */
  predicate Unambiguous(rows: seq<Row>) {
    |rows| > 0 && ExactlyOneCorrect(rows[0]) && AllOptionsDistinct(rows[0])
  }

  /** The multiple-choice record of a template call shows text under key k. */
  predicate Shows(rows: seq<Row>, k: Key, text: string) {
    |rows| > 0 && rows[0].response.McqResponse? && k in rows[0].response.options && rows[0].response.options[k] == text
  }

  /** A literal option map is pairwise distinct exactly when its four texts are. */
  lemma OptionsDistinct(a: string, b: string, c: string, d: string)
    ensures Options(a, b, c, d).Keys == AllKeys
    ensures PairwiseDistinct(Options(a, b, c, d)) <==> Distinct4(a, b, c, d)
  {
    var o := Options(a, b, c, d);
    if Distinct4(a, b, c, d) {
      forall k1, k2 | k1 in o && k2 in o && k1 != k2 ensures o[k1] != o[k2] {
      }
    }
    if PairwiseDistinct(o) {
      assert o[A] != o[B] && o[A] != o[C] && o[A] != o[D] && o[B] != o[C] && o[B] != o[D] && o[C] != o[D];
    }
  }

  /** With a literal option map, "exactly one correct" means the marked text differs from the other three. */
  lemma OptionsOneCorrect(a: string, b: string, c: string, d: string, k: Key)
    ensures OneCorrect(Options(a, b, c, d), k) <==>
      match k
      case A => a != b && a != c && a != d
      case B => b != a && b != c && b != d
      case C => c != a && c != b && c != d
      case D => d != a && d != b && d != c
  {
    var o := Options(a, b, c, d);
    assert o[A] == a && o[B] == b && o[C] == c && o[D] == d;
  }

  /** A pairwise-distinct option map has exactly one correct key, whichever key is marked. */
  lemma DistinctHasOneCorrect(options: map<Key, string>, k: Key)
    requires PairwiseDistinct(options) && k in options
    ensures OneCorrect(options, k)
  {
  }

  /** Four texts of one single-number template are distinct exactly when the numbers are. */
  lemma Ints4(pre: string, post: string, a: int, b: int, c: int, d: int)
    requires Stops(post)
    ensures Distinct4(Fmt1(pre, a, post), Fmt1(pre, b, post), Fmt1(pre, c, post), Fmt1(pre, d, post))
      <==> Distinct4(a, b, c, d)
  {
    Fmt1Injective(pre, a, b, post);
    Fmt1Injective(pre, a, c, post);
    Fmt1Injective(pre, a, d, post);
    Fmt1Injective(pre, b, c, post);
    Fmt1Injective(pre, b, d, post);
    Fmt1Injective(pre, c, d, post);
  }

  /** Four texts of one two-number template are distinct exactly when the number pairs are. */
  lemma Pairs4(pre: string, mid: string, post: string, a0: int, b0: int, a1: int, b1: int,
               a2: int, b2: int, a3: int, b3: int)
    requires |mid| > 0 && Stops(mid) && Stops(post)
    ensures Distinct4(Fmt2(pre, a0, mid, b0, post), Fmt2(pre, a1, mid, b1, post),
                      Fmt2(pre, a2, mid, b2, post), Fmt2(pre, a3, mid, b3, post))
      <==> Distinct4((a0, b0), (a1, b1), (a2, b2), (a3, b3))
  {
    Fmt2Injective(pre, a0, mid, b0, post, a1, b1);
    Fmt2Injective(pre, a0, mid, b0, post, a2, b2);
    Fmt2Injective(pre, a0, mid, b0, post, a3, b3);
    Fmt2Injective(pre, a1, mid, b1, post, a2, b2);
    Fmt2Injective(pre, a1, mid, b1, post, a3, b3);
    Fmt2Injective(pre, a2, mid, b2, post, a3, b3);
  }

  /** A `distractor_rationales` literal naming, in A–D order, the three keys other than k. */
  function Rationales(k: Key, t1: string, t2: string, t3: string): (m: map<Key, string>)
    ensures m.Keys == AllKeys - {k}
  {
    match k
    case A => map[B := t1, C := t2, D := t3]
    case B => map[A := t1, C := t2, D := t3]
    case C => map[A := t1, B := t2, D := t3]
    case D => map[A := t1, B := t2, C := t3]
  }

  /**
    * A record with a literal option dict, a fixed correct key and rationales for the other three
    * keys is well formed, and it keeps its promises exactly when the four texts are distinct.
    */
  lemma FixedRecord(ch: Chapter, question: string, a: string, b: string, c: string, d: string, k: Key,
                    t1: string, t2: string, t3: string, difficulty: int)
    ensures var r := McqRow(ch, question, Options(a, b, c, d), k, Rationales(k, t1, t2, t3), difficulty);
      && WellFormedMcq(r)
      && CorrectText(r) == Options(a, b, c, d)[k]
      && (AllOptionsDistinct(r) <==> Distinct4(a, b, c, d))
      && (Distinct4(a, b, c, d) ==> ExactlyOneCorrect(r))
  {
    OptionsDistinct(a, b, c, d);
    if Distinct4(a, b, c, d) {
      DistinctHasOneCorrect(Options(a, b, c, d), k);
    }
  }

  /** The two records of a template whose option dict is `{A: a, B: b, C: c, D: d}` with k correct. */
  function FixedRows(ch: Chapter, question: string, a: string, b: string, c: string, d: string, k: Key,
                     t1: string, t2: string, t3: string, given: string, final: string, difficulty: int): seq<Row>
  {
    [McqRow(ch, question, Options(a, b, c, d), k, Rationales(k, t1, t2, t3), difficulty),
     SolveRow(ch, question, given, final, difficulty)]
  }

  /**
    * What a template with a fixed option dict promises: two records, the first well formed with
    * its one correct answer under k, the second answering with that same text.
    */
  predicate Promises(rows: seq<Row>, k: Key) {
    && |rows| == 2 && WellFormedMcq(rows[0]) && ExactlyOneCorrect(rows[0]) && AllOptionsDistinct(rows[0])
    && rows[0].response.correctOption == k
    && rows[1].response.SolveResponse? && rows[1].response.finalAnswer == CorrectText(rows[0])
  }

  /** Four distinct texts, with the solve record answering the keyed one, keep every promise. */
  lemma FixedRowsOk(ch: Chapter, question: string, a: string, b: string, c: string, d: string, k: Key,
                    t1: string, t2: string, t3: string, given: string, difficulty: int)
    requires Distinct4(a, b, c, d)
    ensures var rows := FixedRows(ch, question, a, b, c, d, k, t1, t2, t3, given, Options(a, b, c, d)[k], difficulty);
      && Promises(rows, k)
      && rows[0].response.question == question && rows[1].response.given == given
      && rows[0].response.distractors.Keys == AllKeys - {k}
      && CorrectText(rows[0]) == Options(a, b, c, d)[k]
  {
    FixedRecord(ch, question, a, b, c, d, k, t1, t2, t3, difficulty);
  }

  /** Which of the four numbers the key k marks. */
  function Keyed(k: Key, a: int, b: int, c: int, d: int): int {
    match k
    case A => a
    case B => b
    case C => c
    case D => d
  }

  /** The number the key k marks differs from the other three. */
  predicate KeyedUnique(k: Key, a: int, b: int, c: int, d: int) {
    match k
    case A => a != b && a != c && a != d
    case B => b != a && b != c && b != d
    case C => c != a && c != b && c != d
    case D => d != a && d != b && d != c
  }

  /**
    * The records of a template whose options are the printed ints a, b, c, d with k correct. They
    * are well formed; they have one correct answer exactly when the keyed number differs from the
    * other three, and distinct options exactly when the four numbers differ.
    */
  function IntRows(ch: Chapter, question: string, a: int, b: int, c: int, d: int, k: Key,
                   t1: string, t2: string, t3: string, given: string, final: string, difficulty: int): (rows: seq<Row>)
    ensures |rows| == 2 && WellFormedMcq(rows[0]) && rows[0].response.correctOption == k
    ensures rows[0].response.options.Keys == AllKeys && k in rows[0].response.options
    ensures rows[0].response.question == question
    ensures rows[0].response.options[A] == IntStr(a) && rows[0].response.options[B] == IntStr(b)
    ensures rows[0].response.options[C] == IntStr(c) && rows[0].response.options[D] == IntStr(d)
    ensures CorrectText(rows[0]) == IntStr(Keyed(k, a, b, c, d))
    ensures AllOptionsDistinct(rows[0]) <==> Distinct4(a, b, c, d)
    ensures ExactlyOneCorrect(rows[0]) <==> KeyedUnique(k, a, b, c, d)
    ensures rows[1].response.SolveResponse? && rows[1].response.given == given
    ensures rows[1].response.finalAnswer == final
  {
    FixedRecord(ch, question, IntStr(a), IntStr(b), IntStr(c), IntStr(d), k, t1, t2, t3, difficulty);
    OptionsOneCorrect(IntStr(a), IntStr(b), IntStr(c), IntStr(d), k);
    IntStrInjective(a, b);
    IntStrInjective(a, c);
    IntStrInjective(a, d);
    IntStrInjective(b, c);
    IntStrInjective(b, d);
    IntStrInjective(c, d);
    FixedRows(ch, question, IntStr(a), IntStr(b), IntStr(c), IntStr(d), k, t1, t2, t3, given, final, difficulty)
  }
}
