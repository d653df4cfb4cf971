/**
  * The sequence-and-series training-text preparation: each non-blank line of the raw JSONL file
  * becomes one training string, the chat messages flattened into a prompt followed by the
  * serialised response. JSON parsing and serialisation are opaque functions here.
  */
module SeriesPrepare {
  import opened Text
  import opened Wrappers
  import opened Mcq
  import opened Jsonl

  /** One raw record: its chat messages and its response object. */
  datatype Chat<R> = Chat(messages: seq<Message>, response: R)

  /** One message of the prompt: the upper-cased role, a colon, a newline, the content. */
  function Render(m: Message): string {
    Upper(m.role) + ":\n" + m.content
  }

  /** The rendered messages, in order. */
  function Rendered(ms: seq<Message>): (parts: seq<string>)
    ensures |parts| == |ms|
  {
    seq(|ms|, i requires 0 <= i < |ms| => Render(ms[i]))
  }

  /** The prompt of `build_prompt(messages)`: the rendered messages joined by blank lines, stripped. */
  function Prompt(ms: seq<Message>): string {
    Strip(Join("\n\n", Rendered(ms)))
  }

  /** `build_prompt`, accumulating the rendered messages in a list before joining them. */
  method BuildPrompt(ms: seq<Message>) returns (prompt: string)
    ensures prompt == Prompt(ms)
  {
    var parts: seq<string> := [];
    for i := 0 to |ms|
      invariant parts == Rendered(ms[..i])
    {
      assert Rendered(ms[..i + 1]) == Rendered(ms[..i]) + [Render(ms[i])];
      parts := parts + [Render(ms[i])];
    }
    assert ms[..|ms|] == ms;
    prompt := Strip(Join("\n\n", parts));
  }

  /** A message list whose first role starts and whose last content ends with a non-space. */
  predicate Tight(ms: seq<Message>) {
    && |ms| > 0 && |ms[0].role| > 0 && !IsSpace(ms[0].role[0])
    && |ms[|ms| - 1].content| > 0 && !IsSpace(ms[|ms| - 1].content[|ms[|ms| - 1].content| - 1])
  }

  /**
    * A rendered message starts with a non-space when its role does, and ends with a non-space when
    * its content does.
    */
  lemma RenderEnds(m: Message)
    ensures var r := Render(m);
      && |r| > 0
      && (|m.role| > 0 && !IsSpace(m.role[0]) ==> !IsSpace(r[0]))
      && (|m.content| > 0 && !IsSpace(m.content[|m.content| - 1]) ==> !IsSpace(r[|r| - 1]))
  {
    var r := Render(m);
    if |m.role| > 0 {
      assert r[0] == UpperChar(m.role[0]);
    }
    if |m.content| > 0 {
      assert r[|r| - 1] == m.content[|m.content| - 1];
    }
  }

  /**
    * When the messages are tight, stripping removes nothing, so every rendered message, role
    * header and content, appears in the prompt in full.
    */
  lemma PromptKeepsMessages(ms: seq<Message>, i: nat)
    requires Tight(ms) && i < |ms|
    ensures Contains(Prompt(ms), Render(ms[i]))
  {
    var parts := Rendered(ms);
    var j := Join("\n\n", parts);
    var first, last := parts[0], parts[|parts| - 1];
    RenderEnds(ms[0]);
    RenderEnds(ms[|ms| - 1]);
    JoinFirst("\n\n", parts);
    JoinLast("\n\n", parts);
    assert j[0] == first[0];
    assert j[|j| - 1] == last[|last| - 1];
    assert Strip(j) == j;
    JoinContainsParts("\n\n", parts, i);
  }

  /** The training string of one record: the prompt, a blank line, the assistant header, the response. */
  function TrainingText<R>(chat: Chat<R>, dumps: R -> string): string {
    Prompt(chat.messages) + "\n\nASSISTANT:\n" + dumps(chat.response)
  }

  /** The training text as a function of the record, for a fixed `dumps`. */
  function Trainer<R>(dumps: R -> string): Chat<R> -> string {
    (chat: Chat<R>) => TrainingText(chat, dumps)
  }

  /** The training text of a record, put together from its prompt. */
  lemma TrainerText<R>(chat: Chat<R>, dumps: R -> string, prompt: string)
    requires prompt == Prompt(chat.messages)
    ensures Trainer(dumps)(chat) == prompt + "\n\nASSISTANT:\n" + dumps(chat.response)
  {
  }

  /**
    * What converting the kept lines yields: the training strings of the lines up to the first one
    * that does not parse, and that line's parse error, if any.
    */
  function Converted<R>(kept: seq<string>, loads: string -> Result<Chat<R>>, train: Chat<R> -> string)
    : (r: (seq<string>, Option<string>))
  {
    if |kept| == 0 then ([], None)
    else match loads(kept[0])
      case Err(e) => ([], Some(e))
      case Ok(chat) =>
        var rest := Converted(kept[1..], loads, train);
        ([train(chat)] + rest.0, rest.1)
  }

  /** Each written string is the training text of the kept line at its position, which parsed. */
  predicate WrittenFor<R>(written: seq<string>, kept: seq<string>, loads: string -> Result<Chat<R>>, train: Chat<R> -> string) {
    && |written| <= |kept|
    && forall i :: 0 <= i < |written| ==> loads(kept[i]).Ok? && written[i] == train(loads(kept[i]).value)
  }

  /**
    * The conversion writes one training string per kept line, in order, for as long as the lines
    * parse; it reports an error exactly when it stops early, and the error is that of the next
    * kept line.
    */
  lemma {:induction false} ConvertedSound<R>(kept: seq<string>, loads: string -> Result<Chat<R>>, train: Chat<R> -> string)
    ensures var r := Converted(kept, loads, train);
      && WrittenFor(r.0, kept, loads, train)
      && (r.1.None? <==> |r.0| == |kept|)
      && (r.1.Some? ==> loads(kept[|r.0|]) == Err(r.1.value))
  {
    if |kept| > 0 && loads(kept[0]).Ok? {
      var rest := Converted(kept[1..], loads, train);
      ConvertedSound(kept[1..], loads, train);
      WrittenForCons(rest.0, kept, loads, train);
      if rest.1.Some? {
        assert kept[1 + |rest.0|] == kept[1..][|rest.0|];
      }
    }
  }

  /** A parsed first line in front of lines already matched extends the match by its text. */
  lemma WrittenForCons<R>(written: seq<string>, kept: seq<string>, loads: string -> Result<Chat<R>>, train: Chat<R> -> string)
    requires |kept| > 0 && loads(kept[0]).Ok? && WrittenFor(written, kept[1..], loads, train)
    ensures WrittenFor([train(loads(kept[0]).value)] + written, kept, loads, train)
  {
    var w := [train(loads(kept[0]).value)] + written;
    assert |w| == |written| + 1 <= |kept|;
    forall i | 0 <= i < |w|
      ensures loads(kept[i]).Ok? && w[i] == train(loads(kept[i]).value)
    {
      if i == 0 {
        assert w[0] == train(loads(kept[0]).value);
      } else {
        assert kept[i] == kept[1..][i - 1] && w[i] == written[i - 1];
      }
    }
  }

  /**
    * Converting the kept lines from the n-th on: a blank line adds nothing, a line that does not
    * parse stops with its error, and a parsed line puts its training string in front of the rest.
    */
  lemma ConvertStep<R>(stripped: seq<string>, n: nat, loads: string -> Result<Chat<R>>, train: Chat<R> -> string)
    requires n < |stripped|
    ensures var here := Converted(NonEmpty(stripped[n..]), loads, train);
            var next := Converted(NonEmpty(stripped[n + 1..]), loads, train);
      && (stripped[n] == "" ==> here == next)
      && (stripped[n] != "" && loads(stripped[n]).Err? ==> here == ([], Some(loads(stripped[n]).error)))
      && (stripped[n] != "" && loads(stripped[n]).Ok? ==> here == ([train(loads(stripped[n]).value)] + next.0, next.1))
  {
    NonEmptyFrom(stripped, n);
    var line, rest := stripped[n], NonEmpty(stripped[n + 1..]);
    if line != "" {
      var kept := [line] + rest;
      assert NonEmpty(stripped[n..]) == kept;
      assert kept[0] == line && kept[1..] == rest;
      var next := Converted(rest, loads, train);
      if loads(line).Ok? {
        assert Converted(kept, loads, train) == ([train(loads(line).value)] + next.0, next.1);
      } else {
        assert Converted(kept, loads, train) == ([], Some(loads(line).error));
      }
    } else {
      assert KeptLine(line) == [];
      assert NonEmpty(stripped[n..]) == rest;
    }
  }

  /**
    * The script's loop over the raw lines, with `json.loads` given as `loads` and `json.dumps` of
    * a response as `dumps`: blank lines are skipped, every other line yields one training string
    * in order, and a line that does not parse stops the run after the strings already written.
    */
  method ConvertLines<R>(lines: seq<string>, loads: string -> Result<Chat<R>>, dumps: R -> string)
    returns (written: seq<string>, error: Option<string>)
    ensures (written, error) == Converted(NonBlankLines(lines), loads, Trainer(dumps))
  {
    ghost var train := Trainer(dumps);
    ghost var stripped := StrippedLines(lines);
    ghost var goal := Converted(NonEmpty(stripped), loads, train);
    written, error := [], None;
    var n := 0;
    assert stripped[0..] == stripped;
    while n < |lines|
      invariant 0 <= n <= |lines|
      invariant var r := Converted(NonEmpty(stripped[n..]), loads, train);
        goal.0 == written + r.0 && goal.1 == r.1
    {
      var line := Strip(lines[n]);
      ConvertStep(stripped, n, loads, train);
      if line != "" {
        match loads(line)
        case Err(e) =>
          assert written + [] == written;
          return written, Some(e);
        case Ok(chat) =>
          var prompt := BuildPrompt(chat.messages);
          var text := prompt + "\n\nASSISTANT:\n" + dumps(chat.response);
          TrainerText(chat, dumps, prompt);
          ghost var r := Converted(NonEmpty(stripped[n + 1..]), loads, train);
          assert written + ([text] + r.0) == (written + [text]) + r.0;
          written := written + [text];
      }
      n := n + 1;
    }
    assert stripped[n..] == [];
    assert written + [] == written;
  }

  /**
    * What the loop writes: one training string per non-blank line, in order, until a line does
    * not parse; the error is reported exactly when it stops early, and it is that line's error.
    */
  lemma ConvertLinesMeaning<R>(lines: seq<string>, loads: string -> Result<Chat<R>>, train: Chat<R> -> string)
    ensures var r := Converted(NonBlankLines(lines), loads, train);
      && WrittenFor(r.0, NonBlankLines(lines), loads, train)
      && (r.1.None? <==> |r.0| == |NonBlankLines(lines)|)
      && (r.1.Some? ==> loads(NonBlankLines(lines)[|r.0|]) == Err(r.1.value))
  {
    ConvertedSound(NonBlankLines(lines), loads, train);
  }
}
