/**
  * The router's dataset preparation: read the raw JSONL rows, optionally keep a prefix, order the
  * labels (sorted, "none" last), shuffle the rows, turn each into a chat record whose response is
  * its normalised label, and split off the first rows as the validation set.
  */
module RoutingPrepare {
  import opened Text
  import opened Wrappers
  import opened Mcq
  import opened Jsonl
  import opened StrOrder
  import opened Shuffle
  import opened PyNum

  const SystemRouter :=
    "You are a router for NEB Grade 10 math chapter adapters.\nTask: Given a user question, choose exactly ONE label from the allowed list.\nReturn ONLY the label text, in lowercase, with no extra words."
  const AllowedHead := "Allowed labels: "
  const QuestionHead := "\nQuestion:\n"
  const AnswerRule := "\n\nAnswer with exactly one label."

  // ---------------------------------------------------------------------------
  // The prompt
  // ---------------------------------------------------------------------------

  /** The user turn: the comma-joined labels, the question, and the one-label rule. */
  function UserText(question: string, labels: seq<string>): string {
    AllowedHead + Join(", ", labels) + QuestionHead + question + AnswerRule
  }

  /** `make_prompt(question, labels)`: the router's system message, then the user turn. */
  function MakePrompt(question: string, labels: seq<string>): (ms: seq<Message>)
    ensures |ms| == 2 && ms[0] == Message("system", SystemRouter) && ms[1].role == "user"
  {
    [Message("system", SystemRouter), Message("user", UserText(question, labels))]
  }

  /**
    * The user turn begins with "Allowed labels: " and the comma-joined labels, and it shows the
    * question and every allowed label.
    */
  lemma PromptShows(question: string, labels: seq<string>, i: nat)
    requires i < |labels|
    ensures StartsWith(MakePrompt(question, labels)[1].content, AllowedHead + Join(", ", labels))
    ensures Contains(MakePrompt(question, labels)[1].content, question)
    ensures Contains(MakePrompt(question, labels)[1].content, labels[i])
  {
    var joined := Join(", ", labels);
    var pre := AllowedHead + joined + QuestionHead;
    StartsWithPrefix(AllowedHead + joined, QuestionHead, question, AnswerRule);
    ContainsMiddle(pre, question, AnswerRule);
    JoinContainsParts(", ", labels, i);
    ContainsInside(AllowedHead, joined, QuestionHead, labels[i]);
    ContainsFront(pre, question, labels[i]);
    ContainsFront(pre + question, AnswerRule, labels[i]);
  }

  /** A text starts with what its first piece starts with. */
  lemma StartsWithPrefix(a: string, b: string, c: string, d: string)
    ensures StartsWith(a + b + c + d, a)
  {
    assert (a + b + c + d)[..|a|] == a;
  }

  // ---------------------------------------------------------------------------
  // Raw and prepared rows
  // ---------------------------------------------------------------------------

  /**
    * One raw row: `question` and `label` (read with `r[...]`), and the optional `source_chapter`
    * and `meta` (read with `r.get(...)`).
    */
  datatype RawRow = RawRow(question: string, routeLabel: string, sourceChapter: Option<string>,
                           meta: Option<map<string, int>>)

  /** One prepared record: the chat messages, the response, and the meta fields. */
  datatype Prepared = Prepared(messages: seq<Message>, response: string, metaLabel: string,
                               sourceChapter: Option<string>, difficulty: Option<int>)

  /** `(r.get("meta") or {}).get("difficulty")`. */
  function Difficulty(meta: Option<map<string, int>>): Option<int> {
    match meta
    case None => None
    case Some(m) => if "difficulty" in m then Some(m["difficulty"]) else None
  }

  /** `label.strip().lower()`: the label as the router is trained to print it. */
  function CleanLabel(text: string): string {
    Lower(Strip(text))
  }

  /**
    * The record the script builds from one raw row: the prompt over the stripped question, and
    * the cleaned label as both the response and the meta label.
    */
  function Reshape(r: RawRow, labels: seq<string>): (p: Prepared)
    ensures p.response == p.metaLabel == CleanLabel(r.routeLabel)
    ensures p.messages == MakePrompt(Strip(r.question), labels)
    ensures p.sourceChapter == r.sourceChapter && p.difficulty == Difficulty(r.meta)
  {
    var clean := CleanLabel(r.routeLabel);
    Prepared(MakePrompt(Strip(r.question), labels), clean, clean, r.sourceChapter, Difficulty(r.meta))
  }

  /** Reshaping with one label list, as a function to map over the rows. */
  function ReshapeWith(labels: seq<string>): RawRow -> Prepared {
    r => Reshape(r, labels)
  }

  /** A cleaned label has no capital letters and no white space at either end, and is as long as the stripped label. */
  lemma CleanLabelIsClean(text: string)
    ensures NoCapitals(CleanLabel(text))
    ensures var c := CleanLabel(text); |c| > 0 ==> !IsSpace(c[0]) && !IsSpace(c[|c| - 1])
    ensures |CleanLabel(text)| == |Strip(text)|
  {
    var t := Strip(text);
    var c := Lower(t);
    LowerNoCapitals(t);
    if |c| > 0 {
      LowerKeepsSpace(t[0]);
      LowerKeepsSpace(t[|t| - 1]);
    }
  }

  // ---------------------------------------------------------------------------
  // load_raw
  // ---------------------------------------------------------------------------

  /**
    * The rows parsed from the kept lines, in order, or the error of the first line that does not
    * parse (which ends the script).
    */
  function Loaded(kept: seq<string>, loads: string -> Result<RawRow>): (r: Result<seq<RawRow>>)
  {
    if |kept| == 0 then Ok([])
    else match loads(kept[0])
      case Err(e) => Err(e)
      case Ok(row) =>
        match Loaded(kept[1..], loads)
        case Err(e) => Err(e)
        case Ok(rows) => Ok([row] + rows)
  }

  /**
    * Loading succeeds exactly when every kept line parses, and then yields one row per kept line
    * in order; otherwise the error is that of the first line that does not parse.
    */
  lemma {:induction false} LoadedMeaning(kept: seq<string>, loads: string -> Result<RawRow>)
    ensures Loaded(kept, loads).Ok? <==> forall i :: 0 <= i < |kept| ==> loads(kept[i]).Ok?
    ensures Loaded(kept, loads).Ok? ==>
      var rows := Loaded(kept, loads).value;
      |rows| == |kept| && forall i :: 0 <= i < |kept| ==> Ok(rows[i]) == loads(kept[i])
    ensures Loaded(kept, loads).Err? ==>
      exists i :: 0 <= i < |kept| && loads(kept[i]) == Err(Loaded(kept, loads).error)
                  && forall j :: 0 <= j < i ==> loads(kept[j]).Ok?
  {
    if |kept| > 0 {
      LoadedMeaning(kept[1..], loads);
      var rest := Loaded(kept[1..], loads);
      if loads(kept[0]).Ok? {
        forall i | 1 <= i < |kept| ensures kept[i] == kept[1..][i - 1] {
        }
        if rest.Err? {
          var i :| 0 <= i < |kept[1..]| && loads(kept[1..][i]) == Err(rest.error)
                   && forall j :: 0 <= j < i ==> loads(kept[1..][j]).Ok?;
          assert loads(kept[i + 1]) == Err(rest.error);
          assert forall j :: 0 <= j < i + 1 ==> loads(kept[j]).Ok? by {
            forall j | 0 <= j < i + 1 ensures loads(kept[j]).Ok? {
              if j > 0 {
                assert kept[j] == kept[1..][j - 1];
              }
            }
          }
        } else {
          var rows := [loads(kept[0]).value] + rest.value;
          forall i | 0 <= i < |kept| ensures Ok(rows[i]) == loads(kept[i]) {
            if i > 0 {
              assert rows[i] == rest.value[i - 1];
            }
          }
        }
      } else {
        assert loads(kept[0]) == Err(Loaded(kept, loads).error);
      }
    }
  }

  /**
    * Loading the kept lines from the n-th on: a blank line adds nothing, a line that does not parse
    * ends with its error, and a parsed line puts its row in front of the rest.
    */
  lemma LoadStep(stripped: seq<string>, n: nat, loads: string -> Result<RawRow>)
    requires n < |stripped|
    ensures var here := Loaded(NonEmpty(stripped[n..]), loads);
            var next := Loaded(NonEmpty(stripped[n + 1..]), loads);
      && (stripped[n] == "" ==> here == next)
      && (stripped[n] != "" && loads(stripped[n]).Err? ==> here == Err(loads(stripped[n]).error))
      && (stripped[n] != "" && loads(stripped[n]).Ok? ==>
            here == if next.Ok? then Ok([loads(stripped[n]).value] + next.value) else next)
  {
    NonEmptyFrom(stripped, n);
    var line, rest := stripped[n], NonEmpty(stripped[n + 1..]);
    if line != "" {
      var kept := [line] + rest;
      assert NonEmpty(stripped[n..]) == kept;
      assert kept[0] == line && kept[1..] == rest;
    } else {
      assert KeptLine(line) == [];
      assert NonEmpty(stripped[n..]) == rest;
    }
  }

  /** `load_raw(path)` over the file's lines, with `json.loads` given as `loads`. */
  method LoadRaw(lines: seq<string>, loads: string -> Result<RawRow>) returns (r: Result<seq<RawRow>>)
    ensures r == Loaded(NonBlankLines(lines), loads)
  {
    ghost var stripped := StrippedLines(lines);
    ghost var goal := Loaded(NonEmpty(stripped), loads);
    var rows: seq<RawRow> := [];
    var n := 0;
    assert stripped[0..] == stripped;
    JoinedNothing(goal);
    while n < |lines|
      invariant 0 <= n <= |lines|
      invariant goal == Joined(rows, Loaded(NonEmpty(stripped[n..]), loads))
    {
      var line := Strip(lines[n]);
      LoadStep(stripped, n, loads);
      if line != "" {
        match loads(line)
        case Err(e) =>
          return Err(e);
        case Ok(row) =>
          JoinedStep(rows, row, Loaded(NonEmpty(stripped[n + 1..]), loads));
          rows := rows + [row];
      }
      n := n + 1;
    }
    assert stripped[n..] == [];
    assert rows + [] == rows;
    r := Ok(rows);
  }

  /** Rows read so far, followed by the outcome of reading the rest. */
  function Joined(rows: seq<RawRow>, r: Result<seq<RawRow>>): Result<seq<RawRow>> {
    match r
    case Ok(more) => Ok(rows + more)
    case Err(e) => Err(e)
  }

  /** With no rows read yet, the outcome is that of reading everything. */
  lemma JoinedNothing(r: Result<seq<RawRow>>)
    ensures Joined([], r) == r
  {
    if r.Ok? {
      assert [] + r.value == r.value;
    }
  }

  /** Moving one parsed row from the rest to the rows read so far. */
  lemma JoinedStep(rows: seq<RawRow>, row: RawRow, rest: Result<seq<RawRow>>)
    ensures Joined(rows, match rest case Ok(more) => Ok([row] + more) case Err(e) => Err(e))
            == Joined(rows + [row], rest)
  {
    if rest.Ok? {
      assert rows + ([row] + rest.value) == (rows + [row]) + rest.value;
    }
  }

  // ---------------------------------------------------------------------------
  // main: truncation, label order, shuffle and reshaping, split
  // ---------------------------------------------------------------------------

  function Min(x: int, y: int): int {
    if x <= y then x else y
  }

  function Max(x: int, y: int): int {
    if x >= y then x else y
  }

  /** `raw[:max_rows]` when `max_rows` is positive, else all of raw. */
  function Truncate(raw: seq<RawRow>, maxRows: int): (r: seq<RawRow>)
    ensures |r| <= |raw| && r == raw[..|r|]
    ensures |r| == if maxRows > 0 then Min(maxRows, |raw|) else |raw|
  {
    if maxRows > 0 && maxRows < |raw| then raw[..maxRows] else raw
  }

  /** The raw labels, in row order. */
  function RawLabels(raw: seq<RawRow>): (ls: seq<string>)
    ensures |ls| == |raw| && forall i :: 0 <= i < |raw| ==> ls[i] == raw[i].routeLabel
  {
    seq(|raw|, i requires 0 <= i < |raw| => raw[i].routeLabel)
  }

  /** `sorted({r["label"] for r in raw})`, with "none" moved to the end when present. */
  function LabelOrder(raw: seq<RawRow>): seq<string> {
    var sorted := SortedSet(RawLabels(raw));
    if "none" in sorted then Without(sorted, "none") + ["none"] else sorted
  }

  /**
    * The label list holds each raw label once, in increasing order, except that "none", when it
    * occurs, comes last.
    */
  lemma LabelOrderMeaning(raw: seq<RawRow>)
    ensures var ls := LabelOrder(raw);
      && (forall y :: y in ls <==> exists i :: 0 <= i < |raw| && raw[i].routeLabel == y)
      && (forall i, j :: 0 <= i < j < |ls| && ls[j] != "none" ==> Less(ls[i], ls[j]))
      && (forall i, j :: 0 <= i < j < |ls| ==> ls[i] != ls[j])
      && ((exists i :: 0 <= i < |raw| && raw[i].routeLabel == "none") ==> ls[|ls| - 1] == "none")
  {
    var labels := RawLabels(raw);
    var sorted := SortedSet(labels);
    var ls := LabelOrder(raw);
    forall y ensures y in labels <==> exists i :: 0 <= i < |raw| && raw[i].routeLabel == y {
      if y in labels {
        var i :| 0 <= i < |labels| && labels[i] == y;
        assert raw[i].routeLabel == y;
      }
    }
    if "none" in sorted {
      var w := Without(sorted, "none");
      WithoutSorted(sorted, "none");
      forall i, j | 0 <= i < j < |ls| ensures ls[i] != ls[j] {
        if j < |w| {
          SortedDistinct(w, i, j);
        } else {
          assert ls[i] == w[i] && w[i] in w;
        }
      }
    } else {
      forall i, j | 0 <= i < j < |ls| ensures ls[i] != ls[j] {
        SortedDistinct(sorted, i, j);
      }
    }
  }

  /** The records of the rows, in order. */
  function ReshapeAll(rows: seq<RawRow>, labels: seq<string>): seq<Prepared> {
    MapSeq(ReshapeWith(labels), rows)
  }

  /**
    * `random.shuffle(raw)` with the draws `js`, then the loop building one record per row; the
    * records follow the shuffled rows.
    */
  method PrepareRows(raw: seq<RawRow>, labels: seq<string>, js: seq<nat>) returns (prepared: seq<Prepared>)
    requires ValidDraws(|raw|, js)
    ensures prepared == ReshapeAll(Shuffled(raw, js), labels)
  {
    var a := new RawRow[|raw|](i requires 0 <= i < |raw| => raw[i]);
    assert a[..] == raw;
    ShuffleInPlace(a, js);
    var rows := a[..];
    prepared := [];
    for i := 0 to |rows|
      invariant prepared == ReshapeAll(rows[..i], labels)
    {
      assert rows[..i + 1] == rows[..i] + [rows[i]];
      prepared := prepared + [Reshape(rows[i], labels)];
    }
    assert rows[..|rows|] == rows;
  }

  /** The prepared records are the records of the raw rows, each exactly once, in shuffled order. */
  lemma PreparedPermutes(raw: seq<RawRow>, labels: seq<string>, js: seq<nat>)
    requires ValidDraws(|raw|, js)
    ensures |ReshapeAll(Shuffled(raw, js), labels)| == |raw|
    ensures multiset(ReshapeAll(Shuffled(raw, js), labels)) == multiset(ReshapeAll(raw, labels))
  {
    MapShuffled(ReshapeWith(labels), raw, js);
  }

  /** `n_valid = max(1, int(round(len(prepared) * valid_ratio)))`, the product taken exactly. */
  function ValidCount(n: nat, ratio: real): int {
    Max(1, RoundHalfEven(n as real * ratio))
  }

  /** `(train, valid)`: `prepared[n_valid:]` and `prepared[:n_valid]`, with Python's clamped slices. */
  function Split(prepared: seq<Prepared>, ratio: real): (r: (seq<Prepared>, seq<Prepared>))
  {
    var n := Min(ValidCount(|prepared|, ratio), |prepared|);
    (prepared[n..], prepared[..n])
  }

  /**
    * The split loses and repeats nothing: valid then train is the prepared list; valid is its
    * first n_valid rows (all of them when there are fewer), so it is non-empty for non-empty input.
    */
  lemma SplitMeaning(prepared: seq<Prepared>, ratio: real)
    ensures var (train, valid) := Split(prepared, ratio);
      && valid + train == prepared
      && ValidCount(|prepared|, ratio) >= 1
      && |valid| == Min(ValidCount(|prepared|, ratio), |prepared|)
      && (|prepared| > 0 ==> |valid| >= 1)
  {
    var (train, valid) := Split(prepared, ratio);
    assert valid + train == prepared;
  }

  /** What the script writes: the label list, the training rows and the validation rows. */
  datatype Dataset = Dataset(labels: seq<string>, train: seq<Prepared>, valid: seq<Prepared>)

  /**
    * `main` with the file's lines, `json.loads` as `loads`, the `--max_rows` and `--valid_ratio`
    * arguments, and the seeded generator's draws as `source`.
    */
  method Prepare(lines: seq<string>, loads: string -> Result<RawRow>, maxRows: int, ratio: real,
                 source: nat -> nat) returns (r: Result<Dataset>)
    ensures r.Err? <==> Loaded(NonBlankLines(lines), loads).Err?
    ensures r.Ok? ==>
      var raw := Truncate(Loaded(NonBlankLines(lines), loads).value, maxRows);
      var labels := LabelOrder(raw);
      var (train, valid) := Split(ReshapeAll(Shuffled(raw, Draws(|raw|, source)), labels), ratio);
      r.value == Dataset(labels, train, valid)
  {
    var loaded := LoadRaw(lines, loads);
    if loaded.Err? {
      return Err(loaded.error);
    }
    var raw := Truncate(loaded.value, maxRows);
    var labels := LabelOrder(raw);
    var prepared := PrepareRows(raw, labels, Draws(|raw|, source));
    var (train, valid) := Split(prepared, ratio);
    r := Ok(Dataset(labels, train, valid));
  }
}
