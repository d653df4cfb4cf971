/**
  * The routing dataset generator. For each generator script in a fixed order, it draws a number
  * of questions from the script's generator functions, retrying a failed draw up to five times,
  * and labels each with the script's route label. It then adds out-of-scope questions drawn from
  * a fixed bank, some of them lightly reworded, and shuffles the whole list. What each generator
  * call returns and every random draw are parameters.
  */
module RoutingGenerate {
  import opened Text
  import opened Wrappers
  import opened Shuffle
  import opened PyNum
  import Router

  // ---------------------------------------------------------------------------
  // The generator scripts and their labels
  // ---------------------------------------------------------------------------

  /** A generator script: its module key, its path as it prints, and the route label of its questions. */
  datatype Script = Script(key: string, path: string, routeLabel: string)

  /** The module keys and their route labels: both quadratic scripts share one label. */
  const LabelMap: map<string, string> :=
    map["algebraic_fractions" := "algebraic_fractions", "arithmetic" := "arithmetic",
        "growth_depreciation" := "growth_depreciation", "probability" := "probability",
        "quadratic_equations_a" := "quadratic_equations", "quadratic_equations_b" := "quadratic_equations",
        "sequence_series" := "sequence_series"]

  /** The generator scripts in the order they are visited, each with the label `LabelMap` gives its key. */
  const GeneratorScripts: seq<Script> :=
    [Script("algebraic_fractions", "generic-generators/algebraic-fractions.py", "algebraic_fractions"),
     Script("arithmetic", "generic-generators/arithmetic.py", "arithmetic"),
     Script("growth_depreciation", "generic-generators/growth-n-depriciation.py", "growth_depreciation"),
     Script("probability", "generic-generators/probability.py", "probability"),
     Script("quadratic_equations_a", "generic-generators/quadratic-equations.py", "quadratic_equations"),
     Script("quadratic_equations_b", "generic-generators/quadratic-equation-word.py", "quadratic_equations"),
     Script("sequence_series", "generic-generators/sequence-n-series.py", "sequence_series")]

  /**
    * The table agrees with the label map, and every label the generator writes, the out-of-scope
    * "none" included, is one the router answers with.
    */
  lemma ScriptsRoutable(k: nat)
    requires k < |GeneratorScripts|
    ensures GeneratorScripts[k].key in LabelMap && LabelMap[GeneratorScripts[k].key] == GeneratorScripts[k].routeLabel
    ensures GeneratorScripts[k].routeLabel in Router.ValidLabels && GeneratorScripts[k].routeLabel != NoneLabel
    ensures NoneLabel in Router.ValidLabels
  {
    var l := GeneratorScripts[k].routeLabel;
    assert Router.ValidLabels[6] == NoneLabel;
    if k == 0 { assert Router.ValidLabels[0] == l; }
    else if k == 1 { assert Router.ValidLabels[1] == l; }
    else if k == 2 { assert Router.ValidLabels[2] == l; }
    else if k == 3 { assert Router.ValidLabels[3] == l; }
    else if k == 4 || k == 5 { assert Router.ValidLabels[4] == l; }
    else { assert Router.ValidLabels[5] == l; }
  }

  // ---------------------------------------------------------------------------
  // One generator call and the question taken from it
  // ---------------------------------------------------------------------------

  /** A JSON value as the extraction sees it: missing or null, a string, an integer, or anything else with its truthiness. */
  datatype Value = Absent | Str(s: string) | Num(n: int) | Other(truthy: bool)

  /** Python's truth value of a JSON value. */
  predicate Truthy(v: Value) {
    match v
    case Absent => false
    case Str(s) => s != ""
    case Num(n) => n != 0
    case Other(t) => t
  }

  /**
    * What the extraction reads from a generator's first row: the response's "question", the
    * "content" of each message when "messages" is a list (None otherwise), and the three
    * metadata fields.
    */
  datatype McqRow = McqRow(question: Value, messages: Option<seq<Value>>, chapter: Value, task: Value, difficulty: Value)

  /** The metadata carried along with a question. */
  datatype Meta = Meta(chapter: Value, task: Value, difficulty: Value)

  /** One call of a generator function: it raised with a message, or it returned a value, a list of rows or not. */
  datatype Call = Raised(message: string) | Returned(isList: bool, rows: seq<McqRow>)

  const EmptyRows := "Generator returned empty rows"
  const NoQuestion := "Could not extract question text"

  /**
    * The question value the extraction settles on: the response's question, unless that is falsy
    * and the messages are a non-empty list, in which case the content of the last message.
    */
  function QuestionValue(m: McqRow): Value {
    if !Truthy(m.question) && m.messages.Some? && |m.messages.value| > 0 then
      m.messages.value[|m.messages.value| - 1]
    else m.question
  }

  /** A non-empty question string in the response is what gets used. */
  lemma QuestionPreferred(m: McqRow)
    requires m.question.Str? && m.question.s != ""
    ensures QuestionValue(m) == m.question
  {
  }

  /** A falsy question falls back to the last message whenever there is one. */
  lemma QuestionFallback(m: McqRow)
    requires !Truthy(m.question) && m.messages.Some? && |m.messages.value| > 0
    ensures QuestionValue(m) == m.messages.value[|m.messages.value| - 1]
  {
  }

  /**
    * `_sample_question_from_gen`: the stripped question text and the metadata of the first row,
    * or the error the call raises.
    */
  function SampleQuestion(c: Call): (r: Result<(string, Meta)>)
    ensures r.Ok? <==> c.Returned? && c.isList && |c.rows| > 0 && QuestionValue(c.rows[0]).Str?
    ensures c.Raised? ==> r == Err(c.message)
    ensures c.Returned? && (!c.isList || |c.rows| == 0) ==> r == Err(EmptyRows)
    ensures c.Returned? && c.isList && |c.rows| > 0 && !QuestionValue(c.rows[0]).Str? ==> r == Err(NoQuestion)
  {
    match c
    case Raised(e) => Err(e)
    case Returned(isList, rows) =>
      if !isList || |rows| == 0 then Err(EmptyRows)
      else
        var m := rows[0];
        var q := QuestionValue(m);
        if !q.Str? then Err(NoQuestion)
        else Ok((Strip(q.s), Meta(m.chapter, m.task, m.difficulty)))
  }

  /**
    * A question that is extracted is the chosen value's text, stripped, so it neither starts nor
    * ends with white space and stripping it again changes nothing; the metadata is the first row's.
    */
  lemma SampleQuestionText(c: Call)
    requires SampleQuestion(c).Ok?
    ensures var q := SampleQuestion(c).value.0;
      && q == Strip(QuestionValue(c.rows[0]).s)
      && Strip(q) == q
      && (|q| > 0 ==> !IsSpace(q[0]) && !IsSpace(q[|q| - 1]))
      && SampleQuestion(c).value.1 == Meta(c.rows[0].chapter, c.rows[0].task, c.rows[0].difficulty)
  {
    StripIdempotent(QuestionValue(c.rows[0]).s);
  }

  // ---------------------------------------------------------------------------
  // Five attempts per question
  // ---------------------------------------------------------------------------

  /**
    * The generator calls: `calls(k, s, t)` is what the t-th attempt at the s-th question of the
    * k-th script returns (the generator function it picked at random is folded into it).
    */
  type Calls = (nat, nat, nat) -> Call

  const MaxAttempts := 5

  /** What extracting a question from each of the five attempts of one question gives. */
  function Attempts(calls: Calls, k: nat, s: nat): (r: seq<Result<(string, Meta)>>)
    ensures |r| == MaxAttempts && forall t :: 0 <= t < MaxAttempts ==> r[t] == SampleQuestion(calls(k, s, t))
  {
    seq(MaxAttempts, t requires 0 <= t < MaxAttempts => SampleQuestion(calls(k, s, t)))
  }

  /** Retrying from the t-th outcome on: the first that works, or the last error seen. */
  function RetryFrom<X>(outcomes: seq<Result<X>>, t: nat, lastErr: string): Result<X>
    requires t <= |outcomes|
    decreases |outcomes| - t
  {
    if t == |outcomes| then Err(lastErr)
    else match outcomes[t]
      case Ok(v) => Ok(v)
      case Err(e) => RetryFrom(outcomes, t + 1, e)
  }

  /** From the t-th outcome on: a success exactly when a remaining outcome is one, and otherwise the last outcome's error. */
  lemma {:induction false} RetryFromMeaning<X>(outcomes: seq<Result<X>>, t: nat, lastErr: string)
    requires t < |outcomes|
    ensures var r := RetryFrom(outcomes, t, lastErr);
      && (r.Ok? <==> exists u :: t <= u < |outcomes| && outcomes[u].Ok?)
      && (r.Err? ==> r == outcomes[|outcomes| - 1])
    decreases |outcomes| - t
  {
    if outcomes[t].Err? && t + 1 < |outcomes| {
      RetryFromMeaning(outcomes, t + 1, outcomes[t].error);
      forall u | t <= u < |outcomes| && outcomes[u].Ok? ensures t + 1 <= u {
      }
    }
  }

  /** The outcome of the s-th question of the k-th script. */
  function Retried(calls: Calls, k: nat, s: nat): Result<(string, Meta)> {
    RetryFrom(Attempts(calls, k, s), 0, "")
  }

  /** The outcome of every question, as one value: what the in-scope rows are built from. */
  type Outcomes = (nat, nat) -> Result<(string, Meta)>

  /** The outcomes the generator calls give. */
  function Outcome(calls: Calls): Outcomes {
    (k: nat, s: nat) => Retried(calls, k, s)
  }

  /** `out` holds the outcomes the calls give, at every question the run reaches. */
  ghost predicate Gives(calls: Calls, out: Outcomes) {
    forall k, s {:trigger Retried(calls, k, s)} :: out(k, s) == Retried(calls, k, s)
  }

  /**
    * A question succeeds exactly when one of its five attempts does; otherwise its error is the
    * fifth attempt's. (Which attempt supplies the success is stated by `SampleWithRetry`.)
    */
  lemma RetriedMeaning(calls: Calls, k: nat, s: nat)
    ensures var r := Retried(calls, k, s);
      && (r.Ok? <==> exists u :: 0 <= u < MaxAttempts && SampleQuestion(calls(k, s, u)).Ok?)
      && (r.Err? ==> r == SampleQuestion(calls(k, s, MaxAttempts - 1)))
  {
    var outcomes := Attempts(calls, k, s);
    RetryFromMeaning(outcomes, 0, "");
    if exists u :: 0 <= u < MaxAttempts && SampleQuestion(calls(k, s, u)).Ok? {
      var u :| 0 <= u < MaxAttempts && SampleQuestion(calls(k, s, u)).Ok?;
      assert outcomes[u].Ok?;
    }
  }

  /**
    * The retry loop: it calls `attempt` on 0, 1, ... up to five times, stops at the first
    * success, and its outcome is the outcome of the last attempt it made.
    */
  method RetryLoop<X>(attempt: nat -> Result<X>, ghost outcomes: seq<Result<X>>) returns (r: Result<X>, tries: nat)
    requires |outcomes| == MaxAttempts && forall t :: 0 <= t < MaxAttempts ==> attempt(t) == outcomes[t]
    ensures r == RetryFrom(outcomes, 0, "")
    ensures 1 <= tries <= MaxAttempts && r == outcomes[tries - 1]
    ensures forall t :: 0 <= t < tries - 1 ==> outcomes[t].Err?
    ensures r.Err? ==> tries == MaxAttempts
  {
    tries := 0;
    var lastErr := "";
    while tries < MaxAttempts
      invariant tries <= MaxAttempts
      invariant RetryFrom(outcomes, 0, "") == RetryFrom(outcomes, tries, lastErr)
      invariant forall t :: 0 <= t < tries ==> outcomes[t].Err?
      invariant tries > 0 ==> Err(lastErr) == outcomes[tries - 1]
    {
      var res := attempt(tries);
      tries := tries + 1;
      if res.Ok? {
        return res, tries;
      }
      lastErr := res.error;
    }
    r := Err(lastErr);
  }

  /**
    * The retry loop for one question: it makes between one and five attempts, stops at the
    * first that works, and its outcome is the outcome of the last attempt it made.
    */
  method SampleWithRetry(calls: Calls, k: nat, s: nat) returns (r: Result<(string, Meta)>, tries: nat)
    ensures r == Retried(calls, k, s)
    ensures 1 <= tries <= MaxAttempts
    ensures r == SampleQuestion(calls(k, s, tries - 1))
    ensures forall t :: 0 <= t < tries - 1 ==> SampleQuestion(calls(k, s, t)).Err?
    ensures r.Err? ==> tries == MaxAttempts
  {
    ghost var outcomes := Attempts(calls, k, s);
    r, tries := RetryLoop(t => SampleQuestion(calls(k, s, t)), outcomes);
  }

  // ---------------------------------------------------------------------------
  // The in-scope rows
  // ---------------------------------------------------------------------------

  /** One written row: the question, its route label, where it came from, and the metadata. */
  datatype GenRow = GenRow(question: string, routeLabel: string, sourceChapter: string, meta: Meta)

  /** `range(samples_per_label)` is empty for a count below one. */
  function Samples(n: int): nat {
    if n > 0 then n else 0
  }

  /** The row of a question drawn from the k-th script. */
  function InRow(script: Script, q: (string, Meta)): GenRow {
    GenRow(q.0, script.routeLabel, script.key, q.1)
  }

  /** Every question of the first k scripts, and the first s of the k-th, has succeeded. */
  predicate DoneUpTo(out: Outcomes, n: nat, k: nat, s: nat) {
    && (forall k', s' :: 0 <= k' < k && 0 <= s' < n ==> out(k', s').Ok?)
    && (forall s' :: 0 <= s' < s ==> out(k, s').Ok?)
  }

  /** One more question of a script that succeeds extends its questions done. */
  lemma OkStep(out: Outcomes, k: nat, s: nat)
    requires forall s' :: 0 <= s' < s ==> out(k, s').Ok?
    requires out(k, s).Ok?
    ensures forall s' :: 0 <= s' < s + 1 ==> out(k, s').Ok?
  {
  }

  /** A script whose questions all succeed completes its turn. */
  lemma DoneScript(out: Outcomes, n: nat, k: nat)
    requires DoneUpTo(out, n, k, n)
    ensures DoneUpTo(out, n, k + 1, 0)
  {
  }

  /** Every question of every script succeeds. */
  predicate AllOk(out: Outcomes, scripts: nat, n: nat) {
    forall k, s :: 0 <= k < scripts && 0 <= s < n ==> out(k, s).Ok?
  }

  /** The rows of the first s questions of the k-th script. */
  function KeyRows(script: Script, out: Outcomes, k: nat, s: nat): (r: seq<GenRow>)
    requires forall s' :: 0 <= s' < s ==> out(k, s').Ok?
    ensures |r| == s
  {
    if s == 0 then []
    else KeyRows(script, out, k, s - 1) + [InRow(script, out(k, s - 1).value)]
  }

  /** The rows of the first k scripts, n questions each. */
  function InScope(scripts: seq<Script>, out: Outcomes, k: nat, n: nat): (r: seq<GenRow>)
    requires k <= |scripts| && forall k', s :: 0 <= k' < k && 0 <= s < n ==> out(k', s).Ok?
  {
    if k == 0 then []
    else InScope(scripts, out, k - 1, n) + KeyRows(scripts[k - 1], out, k - 1, n)
  }

  /** The question at which the run stops: the first in script-then-question order that fails all five attempts. */
  predicate FirstFailure(out: Outcomes, scripts: nat, n: nat, k: nat, s: nat) {
    k < scripts && s < n && DoneUpTo(out, n, k, s) && out(k, s).Err?
  }

  /** The error raised when a question fails five times: the script's path and the last error. */
  function FailMessage(script: Script, lastErr: string): string {
    "Failed generating question from " + script.path + ": " + lastErr
  }

  // ---------------------------------------------------------------------------
  // The out-of-scope rows
  // ---------------------------------------------------------------------------

  const NoneLabel := "none"
  const NoneSource := "none_bank"
  const NoneMeta := Meta(Str("none"), Str("route"), Num(0))

  /** The out-of-scope questions the generator draws from. */
  const NoneBank: seq<string> :=
    ["Explain photosynthesis in simple terms.",
     "Write a short email to my teacher asking for extra time.",
     "Who is the president of Nepal?",
     "Translate: 'Good morning' into Nepali.",
     "What is the capital of France?",
     "Summarize the plot of 'Harry Potter and the Philosopher's Stone'.",
     "Define democracy.",
     "What are the symptoms of common cold?",
     "Write a Python function to reverse a string.",
     "Explain the difference between speed and velocity.",
     "What is Newton's second law of motion?",
     "Give me a workout plan for beginners.",
     "What is the best smartphone to buy under $300?",
     "Describe the water cycle.",
     "Find the derivative of x^2 + 3x + 5.",
     "Evaluate the integral of 2x from 0 to 5.",
     "Find sin(30°) and cos(60°).",
     "Find the area of a circle of radius 7 cm.",
     "Prove that the angles in a triangle sum to 180 degrees.",
     "Solve the system of equations: x + y + z = 6, x - y = 2, 2z + y = 5.",
     "Compute log10(1000)."]

  /** The three replacements applied, in order, to a bank question chosen for rewording. */
  function Reworded(q: string): string {
    ReplaceAll(ReplaceAll(ReplaceAll(q, "Find", "Compute"), "What is", "Tell me"), "Explain", "Briefly explain")
  }

  /** A question with none of the three phrases is left as it is. */
  lemma RewordedUntouched(q: string)
    requires !Contains(q, "Find") && !Contains(q, "What is") && !Contains(q, "Explain")
    ensures Reworded(q) == q
  {
    ReplaceAbsent(q, "Find", "Compute");
    ReplaceAbsent(q, "What is", "Tell me");
    ReplaceAbsent(q, "Explain", "Briefly explain");
  }

  /** A question that opens with "Explain" and holds neither other phrase opens with "Briefly explain" once reworded. */
  lemma RewordedExplain(q: string)
    requires StartsWith(q, "Explain") && !Contains(q, "Find") && !Contains(q, "What is")
    ensures StartsWith(Reworded(q), "Briefly explain")
  {
    ReplaceAbsent(q, "Find", "Compute");
    ReplaceAbsent(q, "What is", "Tell me");
    ReplaceAtFront(q, "Explain", "Briefly explain");
  }

  /** `int(round(len(all_rows) * none_ratio))`, the product taken exactly; `range` of a negative count is empty. */
  function NoneCount(inScope: nat, ratio: real): nat {
    var c := RoundHalfEven(inScope as real * ratio);
    if c > 0 then c else 0
  }

  /** The bank is not empty and every draw `pick(i)` of `random.choice` is an index into it. */
  ghost predicate ValidPicks(bank: seq<string>, pick: nat -> nat) {
    |bank| > 0 && forall i :: pick(i) < |bank|
  }

  /** The i-th out-of-scope question: the bank entry drawn for it, reworded when its draw says so. */
  function NoneQuestion(bank: seq<string>, pick: nat -> nat, reword: nat -> bool, i: nat): string
    requires ValidPicks(bank, pick)
  {
    var q := bank[pick(i)];
    if reword(i) then Reworded(q) else q
  }

  /** The i-th out-of-scope question as it is written, stripped. */
  type Questions = nat -> string

  /** The out-of-scope questions the draws give. */
  function NoneQuestions(bank: seq<string>, pick: nat -> nat, reword: nat -> bool): Questions
    requires ValidPicks(bank, pick)
  {
    (i: nat) => Strip(NoneQuestion(bank, pick, reword, i))
  }

  /** `qs` holds the out-of-scope questions the draws give, at every row the run writes. */
  ghost predicate Asks(bank: seq<string>, pick: nat -> nat, reword: nat -> bool, qs: Questions) {
    ValidPicks(bank, pick) &&
    forall i {:trigger NoneQuestion(bank, pick, reword, i)} :: qs(i) == Strip(NoneQuestion(bank, pick, reword, i))
  }

  /** The row of an out-of-scope question, already stripped. */
  function NoneRow(q: string): GenRow {
    GenRow(q, NoneLabel, NoneSource, NoneMeta)
  }

  /** The first c out-of-scope rows. */
  function NoneRows(qs: Questions, c: nat): (r: seq<GenRow>)
    ensures |r| == c
  {
    if c == 0 then []
    else NoneRows(qs, c - 1) + [NoneRow(qs(c - 1))]
  }

  // ---------------------------------------------------------------------------
  // The whole run
  // ---------------------------------------------------------------------------

  /** The rows before the shuffle: the in-scope rows, then the out-of-scope ones. */
  function Unshuffled(scripts: seq<Script>, out: Outcomes, n: nat, ratio: real, qs: Questions): seq<GenRow>
    requires AllOk(out, |scripts|, n)
  {
    var inScope := InScope(scripts, out, |scripts|, n);
    inScope + NoneRows(qs, NoneCount(|inScope|, ratio))
  }

  /** The rows `generate` returns when every question succeeds. */
  function Generated(scripts: seq<Script>, out: Outcomes, n: nat, ratio: real, qs: Questions,
                     source: nat -> nat): seq<GenRow>
    requires AllOk(out, |scripts|, n)
  {
    var rows := Unshuffled(scripts, out, n, ratio, qs);
    Shuffled(rows, Draws(|rows|, source))
  }

  /**
    * The inner loop of `generate` for the k-th script: n questions, each retried up to five
    * times. It stops at the first question whose attempts all fail, with the script's message.
    */
  method DrawScript(script: Script, k: nat, n: nat, calls: Calls, ghost out: Outcomes) returns (r: Result<seq<GenRow>>)
    requires Gives(calls, out)
    ensures r.Ok? <==> forall s :: 0 <= s < n ==> out(k, s).Ok?
    ensures r.Ok? ==> r.value == KeyRows(script, out, k, n)
    ensures r.Err? ==> exists s: nat :: s < n && (forall s' :: 0 <= s' < s ==> out(k, s').Ok?)
                                     && out(k, s).Err?
                                     && r.error == FailMessage(script, out(k, s).error)
  {
    var rows: seq<GenRow> := [];
    var s := 0;
    while s < n
      invariant 0 <= s <= n
      invariant forall s' :: 0 <= s' < s ==> out(k, s').Ok?
      invariant rows == KeyRows(script, out, k, s)
    {
      var res, tries := SampleWithRetry(calls, k, s);
      assert res == out(k, s);
      if res.Err? {
        return Err(FailMessage(script, res.error));
      }
      OkStep(out, k, s);
      rows := rows + [InRow(script, res.value)];
      s := s + 1;
    }
    r := Ok(rows);
  }

  /**
    * The first half of `generate`: the scripts in turn, stopping at the first question whose
    * five attempts all fail.
    */
  method DrawInScope(scripts: seq<Script>, n: nat, calls: Calls, ghost out: Outcomes) returns (r: Result<seq<GenRow>>)
    requires Gives(calls, out)
    ensures r.Ok? <==> AllOk(out, |scripts|, n)
    ensures r.Ok? ==> r.value == InScope(scripts, out, |scripts|, n)
    ensures r.Err? ==> exists k: nat, s: nat :: FirstFailure(out, |scripts|, n, k, s)
                                             && r.error == FailMessage(scripts[k], out(k, s).error)
  {
    var rows: seq<GenRow> := [];
    var k := 0;
    while k < |scripts|
      invariant 0 <= k <= |scripts|
      invariant DoneUpTo(out, n, k, 0)
      invariant rows == InScope(scripts, out, k, n)
    {
      var keyRows := DrawScript(scripts[k], k, n, calls, out);
      if keyRows.Err? {
        ghost var s: nat :| s < n && (forall s' :: 0 <= s' < s ==> out(k, s').Ok?)
                            && out(k, s).Err?
                            && keyRows.error == FailMessage(scripts[k], out(k, s).error);
        assert FirstFailure(out, |scripts|, n, k, s);
        return keyRows;
      }
      DoneScript(out, n, k);
      rows := rows + keyRows.value;
      k := k + 1;
    }
    r := Ok(rows);
  }

  /** The second half of `generate`: `count` out-of-scope rows appended to the in-scope ones. */
  method AddNoneRows(inScope: seq<GenRow>, count: nat, bank: seq<string>, pick: nat -> nat, reword: nat -> bool,
                     ghost qs: Questions) returns (rows: seq<GenRow>)
    requires Asks(bank, pick, reword, qs)
    ensures rows == inScope + NoneRows(qs, count)
  {
    rows := inScope;
    for i := 0 to count
      invariant rows == inScope + NoneRows(qs, i)
    {
      var q := Strip(NoneQuestion(bank, pick, reword, i));
      assert q == qs(i);
      var row := NoneRow(q);
      ghost var before := NoneRows(qs, i);
      assert NoneRows(qs, i + 1) == before + [row];
      assert inScope + (before + [row]) == (inScope + before) + [row];
      rows := rows + [row];
    }
  }

  /** `random.shuffle(all_rows)`, on an array holding the rows. */
  method ShuffleRows(rows: seq<GenRow>, source: nat -> nat) returns (shuffled: seq<GenRow>)
    ensures shuffled == Shuffled(rows, Draws(|rows|, source))
  {
    var a := new GenRow[|rows|](j requires 0 <= j < |rows| => rows[j]);
    assert a[..] == rows;
    ShuffleInPlace(a, Draws(|rows|, source));
    shuffled := a[..];
  }

  /**
    * `generate` over a table of scripts and a question bank (the script itself passes
    * `GeneratorScripts` and `NoneBank`). `pick` (the index `random.choice` draws) and `reword`
    * are the random draws of the out-of-scope questions, `source` the draws of the shuffle. The
    * run fails at the first question whose five attempts all fail, with its script's message;
    * otherwise it returns the shuffled rows.
    */
  method Generate(scripts: seq<Script>, n: int, ratio: real, calls: Calls, bank: seq<string>, pick: nat -> nat,
                  reword: nat -> bool, source: nat -> nat) returns (r: Result<seq<GenRow>>)
    requires ValidPicks(bank, pick)
    ensures r.Ok? <==> AllOk(Outcome(calls), |scripts|, Samples(n))
    ensures r.Ok? ==> r.value == Generated(scripts, Outcome(calls), Samples(n), ratio, NoneQuestions(bank, pick, reword), source)
    ensures r.Err? ==> exists k: nat, s: nat :: FirstFailure(Outcome(calls), |scripts|, Samples(n), k, s)
                                             && r.error == FailMessage(scripts[k], Outcome(calls)(k, s).error)
  {
    ghost var out := Outcome(calls);
    forall k: nat, s: nat ensures out(k, s) == Retried(calls, k, s) {
    }
    var inScope := DrawInScope(scripts, Samples(n), calls, out);
    if inScope.Err? {
      return inScope;
    }
    ghost var qs := NoneQuestions(bank, pick, reword);
    forall i: nat ensures qs(i) == Strip(NoneQuestion(bank, pick, reword, i)) {
    }
    var rows := AddNoneRows(inScope.value, NoneCount(|inScope.value|, ratio), bank, pick, reword, qs);
    var shuffled := ShuffleRows(rows, source);
    r := Ok(shuffled);
  }

  // ---------------------------------------------------------------------------
  // What the generated dataset holds
  // ---------------------------------------------------------------------------

  function RouteOf(row: GenRow): string {
    row.routeLabel
  }

  /** How many rows carry route label l. */
  function LabelCount(rows: seq<GenRow>, l: string): nat {
    multiset(MapSeq(RouteOf, rows))[l]
  }

  /** Counts add up over a concatenation. */
  lemma LabelCountAppend(a: seq<GenRow>, b: seq<GenRow>, l: string)
    ensures LabelCount(a + b, l) == LabelCount(a, l) + LabelCount(b, l)
  {
    MapSeqAppend(RouteOf, a, b);
  }

  /** How many rows of label l the scripts of a table give at n questions each: n per script labelled l. */
  function ScriptRows(scripts: seq<Script>, l: string, n: nat): nat {
    if |scripts| == 0 then 0
    else ScriptRows(scripts[..|scripts| - 1], l, n) + (if scripts[|scripts| - 1].routeLabel == l then n else 0)
  }

  /** A script's rows all carry its label. */
  lemma {:induction false} KeyRowsCount(script: Script, out: Outcomes, k: nat, s: nat, l: string)
    requires forall s' :: 0 <= s' < s ==> out(k, s').Ok?
    ensures LabelCount(KeyRows(script, out, k, s), l) == if l == script.routeLabel then s else 0
  {
    if s > 0 {
      KeyRowsCount(script, out, k, s - 1, l);
      LabelCountAppend(KeyRows(script, out, k, s - 1), [InRow(script, out(k, s - 1).value)], l);
    }
  }

  /** A single row counts once, for its own label. */
  lemma LabelCountOne(row: GenRow, l: string)
    ensures LabelCount([row], l) == if row.routeLabel == l then 1 else 0
  {
    assert MapSeq(RouteOf, [row]) == [row.routeLabel];
  }

  /** The out-of-scope rows all carry the label "none". */
  lemma {:induction false} NoneRowsCount(qs: Questions, c: nat, l: string)
    ensures LabelCount(NoneRows(qs, c), l) == if l == NoneLabel then c else 0
  {
    if c > 0 {
      var before := NoneRows(qs, c - 1);
      var row := NoneRow(qs(c - 1));
      NoneRowsCount(qs, c - 1, l);
      assert NoneRows(qs, c) == before + [row];
      LabelCountAppend(before, [row], l);
      LabelCountOne(row, l);
    }
  }

  /** One factor of b fewer. */
  lemma MulBack(a: nat, b: nat)
    requires a > 0
    ensures a * b == (a - 1) * b + b
  {
  }

  /** The first k scripts give n rows each. */
  lemma {:induction false} InScopeLength(scripts: seq<Script>, out: Outcomes, k: nat, n: nat)
    requires k <= |scripts| && forall k', s :: 0 <= k' < k && 0 <= s < n ==> out(k', s).Ok?
    ensures |InScope(scripts, out, k, n)| == k * n
  {
    if k > 0 {
      InScopeLength(scripts, out, k - 1, n);
      assert |InScope(scripts, out, k, n)| == |InScope(scripts, out, k - 1, n)| + n;
      MulBack(k, n);
    }
  }

  /** Counting the scripts of a prefix one more script long. */
  lemma ScriptRowsPrefix(scripts: seq<Script>, i: nat, l: string, n: nat)
    requires i < |scripts|
    ensures ScriptRows(scripts[..i + 1], l, n) == ScriptRows(scripts[..i], l, n) + (if scripts[i].routeLabel == l then n else 0)
  {
    assert scripts[..i + 1][..i] == scripts[..i];
  }

  /** The first k scripts give n rows of label l for each of them labelled l. */
  lemma {:induction false} InScopeCount(scripts: seq<Script>, out: Outcomes, k: nat, n: nat, l: string)
    requires k <= |scripts| && forall k', s :: 0 <= k' < k && 0 <= s < n ==> out(k', s).Ok?
    ensures LabelCount(InScope(scripts, out, k, n), l) == ScriptRows(scripts[..k], l, n)
  {
    if k == 0 {
      assert scripts[..k] == [];
    } else {
      var before := InScope(scripts, out, k - 1, n);
      var rows := KeyRows(scripts[k - 1], out, k - 1, n);
      InScopeCount(scripts, out, k - 1, n, l);
      KeyRowsCount(scripts[k - 1], out, k - 1, n, l);
      assert InScope(scripts, out, k, n) == before + rows;
      LabelCountAppend(before, rows, l);
      ScriptRowsPrefix(scripts, k - 1, l, n);
    }
  }

  /**
    * The generated rows: n in-scope rows per script, then the out-of-scope rows on top, in some
    * order; each label l is carried by n rows per script labelled l, plus every out-of-scope row
    * when l is "none".
    */
  lemma GeneratedCounts(scripts: seq<Script>, out: Outcomes, n: nat, ratio: real, qs: Questions,
                        source: nat -> nat, l: string)
    requires AllOk(out, |scripts|, n)
    ensures var none := NoneCount(|scripts| * n, ratio);
      && |Generated(scripts, out, n, ratio, qs, source)| == |scripts| * n + none
      && LabelCount(Generated(scripts, out, n, ratio, qs, source), l)
         == ScriptRows(scripts, l, n) + (if l == NoneLabel then none else 0)
  {
    var inScope := InScope(scripts, out, |scripts|, n);
    InScopeLength(scripts, out, |scripts|, n);
    InScopeCount(scripts, out, |scripts|, n, l);
    assert scripts[..|scripts|] == scripts;
    var none := NoneCount(|inScope|, ratio);
    var rows := Unshuffled(scripts, out, n, ratio, qs);
    NoneRowsCount(qs, none, l);
    LabelCountAppend(inScope, NoneRows(qs, none), l);
    MapShuffled(RouteOf, rows, Draws(|rows|, source));
  }

  /** How many rows of label l the table gives, spelled out script by script. */
  lemma TableRows(l: string, n: nat)
    ensures ScriptRows(GeneratorScripts, l, n)
         == if l == "quadratic_equations" then 2 * n
            else if l in {"algebraic_fractions", "arithmetic", "growth_depreciation", "probability", "sequence_series"} then n
            else 0
  {
    var g := GeneratorScripts;
    assert g[..0] == [];
    ScriptRowsPrefix(g, 0, l, n);
    ScriptRowsPrefix(g, 1, l, n);
    ScriptRowsPrefix(g, 2, l, n);
    ScriptRowsPrefix(g, 3, l, n);
    ScriptRowsPrefix(g, 4, l, n);
    ScriptRowsPrefix(g, 5, l, n);
    ScriptRowsPrefix(g, 6, l, n);
    assert g[..7] == g;
  }

  /**
    * With the script's own table, label l is carried by n rows for each chapter except the
    * quadratic one, which gets 2n from its two scripts, and by every out-of-scope row when l is
    * "none"; there are 7n in-scope rows and the out-of-scope rows on top.
    */
  lemma TableGeneratedCounts(out: Outcomes, n: nat, ratio: real, qs: Questions, source: nat -> nat, l: string)
    requires AllOk(out, |GeneratorScripts|, n)
    ensures var g := Generated(GeneratorScripts, out, n, ratio, qs, source);
      && |g| == 7 * n + NoneCount(7 * n, ratio)
      && LabelCount(g, l)
         == (if l == "quadratic_equations" then 2 * n
             else if l in {"algebraic_fractions", "arithmetic", "growth_depreciation", "probability", "sequence_series"} then n
             else if l == NoneLabel then NoneCount(7 * n, ratio)
             else 0)
  {
    assert |GeneratorScripts| == 7;
    GeneratedCounts(GeneratorScripts, out, n, ratio, qs, source, l);
    TableRows(l, n);
  }

  /** Where a row came from: a script of the table, with that script's key and label, or the bank. */
  predicate RowFrom(scripts: seq<Script>, row: GenRow) {
    || (row.routeLabel == NoneLabel && row.sourceChapter == NoneSource && row.meta == NoneMeta)
    || exists script :: script in scripts && row.sourceChapter == script.key && row.routeLabel == script.routeLabel
  }

  /** Every row of a script carries that script's key and label. */
  lemma {:induction false} KeyRowsFrom(script: Script, out: Outcomes, k: nat, s: nat)
    requires forall s' :: 0 <= s' < s ==> out(k, s').Ok?
    ensures forall row :: row in KeyRows(script, out, k, s) ==> row.sourceChapter == script.key && row.routeLabel == script.routeLabel
  {
    if s > 0 {
      KeyRowsFrom(script, out, k, s - 1);
    }
  }

  /** Every out-of-scope row carries the label "none", the source "none_bank" and the fixed metadata. */
  lemma {:induction false} NoneRowsFrom(qs: Questions, c: nat)
    ensures forall row :: row in NoneRows(qs, c) ==>
      row.routeLabel == NoneLabel && row.sourceChapter == NoneSource && row.meta == NoneMeta
  {
    if c > 0 {
      NoneRowsFrom(qs, c - 1);
      var row := NoneRow(qs(c - 1));
      assert NoneRows(qs, c) == NoneRows(qs, c - 1) + [row];
    }
  }

  /** Every in-scope row comes from one of the first k scripts. */
  lemma {:induction false} InScopeFrom(scripts: seq<Script>, out: Outcomes, k: nat, n: nat)
    requires k <= |scripts| && forall k', s :: 0 <= k' < k && 0 <= s < n ==> out(k', s).Ok?
    ensures forall row :: row in InScope(scripts, out, k, n) ==> RowFrom(scripts, row)
  {
    if k > 0 {
      InScopeFrom(scripts, out, k - 1, n);
      var script := scripts[k - 1];
      var rows := KeyRows(script, out, k - 1, n);
      KeyRowsFrom(script, out, k - 1, n);
      assert script in scripts;
      forall row | row in rows ensures RowFrom(scripts, row) {
        assert row.sourceChapter == script.key && row.routeLabel == script.routeLabel;
      }
      assert InScope(scripts, out, k, n) == InScope(scripts, out, k - 1, n) + rows;
    }
  }

  /** Every generated row, whatever the order, comes from a script of the table or from the bank. */
  lemma GeneratedFrom(scripts: seq<Script>, out: Outcomes, n: nat, ratio: real, qs: Questions, source: nat -> nat)
    requires AllOk(out, |scripts|, n)
    ensures forall row :: row in Generated(scripts, out, n, ratio, qs, source) ==> RowFrom(scripts, row)
  {
    var inScope := InScope(scripts, out, |scripts|, n);
    var none := NoneRows(qs, NoneCount(|inScope|, ratio));
    var rows := Unshuffled(scripts, out, n, ratio, qs);
    InScopeFrom(scripts, out, |scripts|, n);
    NoneRowsFrom(qs, NoneCount(|inScope|, ratio));
    var shuffled := Generated(scripts, out, n, ratio, qs, source);
    forall row | row in shuffled ensures RowFrom(scripts, row) {
      assert row in multiset(shuffled);
      assert row in rows;
      assert row in inScope || row in none;
    }
  }

  /** What holds of each script of the table, named by the script rather than by its position. */
  lemma TableScript(script: Script)
    requires script in GeneratorScripts
    ensures script.key in LabelMap && LabelMap[script.key] == script.routeLabel
    ensures script.routeLabel in Router.ValidLabels && script.routeLabel != NoneLabel
    ensures script.key != NoneSource
  {
    var k :| 0 <= k < |GeneratorScripts| && GeneratorScripts[k] == script;
    ScriptsRoutable(k);
    assert NoneSource !in LabelMap;
  }

  /**
    * With the script's own table, every generated row has a label the router answers with, the
    * label "none" exactly when it came from the bank, and otherwise the label `LabelMap` gives
    * its module key.
    */
  lemma GeneratedRoutable(out: Outcomes, n: nat, ratio: real, qs: Questions, source: nat -> nat, row: GenRow)
    requires AllOk(out, |GeneratorScripts|, n)
    requires row in Generated(GeneratorScripts, out, n, ratio, qs, source)
    ensures row.routeLabel in Router.ValidLabels
    ensures row.routeLabel == NoneLabel <==> row.sourceChapter == NoneSource
    ensures row.routeLabel != NoneLabel ==> row.sourceChapter in LabelMap && LabelMap[row.sourceChapter] == row.routeLabel
  {
    GeneratedFrom(GeneratorScripts, out, n, ratio, qs, source);
    assert RowFrom(GeneratorScripts, row);
    if row.routeLabel == NoneLabel && row.sourceChapter == NoneSource {
      ScriptsRoutable(0);
    } else {
      var script :| script in GeneratorScripts && row.sourceChapter == script.key && row.routeLabel == script.routeLabel;
      TableScript(script);
    }
  }

  /** The bank holds 21 questions. */
  lemma NoneBankSize()
    ensures |NoneBank| == 21
  {
  }

  /**
    * `generate` as the script runs it: the script table and the bank of the script, the
    * `random.choice` draws of bank questions being indices below 21.
    */
  method GenerateRows(n: int, ratio: real, calls: Calls, pick: nat -> nat, reword: nat -> bool, source: nat -> nat)
    returns (r: Result<seq<GenRow>>)
    requires forall i :: pick(i) < 21
    ensures r.Ok? <==> AllOk(Outcome(calls), |GeneratorScripts|, Samples(n))
    ensures ValidPicks(NoneBank, pick)
    ensures r.Ok? ==> r.value == Generated(GeneratorScripts, Outcome(calls), Samples(n), ratio, NoneQuestions(NoneBank, pick, reword), source)
    ensures r.Err? ==> exists k: nat, s: nat :: FirstFailure(Outcome(calls), |GeneratorScripts|, Samples(n), k, s)
                                             && r.error == FailMessage(GeneratorScripts[k], Outcome(calls)(k, s).error)
  {
    NoneBankSize();
    r := Generate(GeneratorScripts, n, ratio, calls, NoneBank, pick, reword, source);
  }
}
