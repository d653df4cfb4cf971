/**
  * The router's output handling: the chat messages that ask the model for a route label, and the
  * reading of a label back from whatever the model printed. The printed text is normalised
  * (stripped, lower-cased, whitespace runs collapsed); an exact label wins, then the first label
  * in list order that occurs inside the text, and otherwise the answer is "unknown".
  */
module Router {
  import opened Text
  import opened Wrappers
  import opened Mcq

  /** The route labels, in the order the substring search tries them. */
  const ValidLabels: seq<string> :=
    ["algebraic_fractions", "arithmetic", "growth_depreciation", "probability", "quadratic_equations",
     "sequence_series", "none"]

  const Unknown := "unknown"

  /** The fixed text of the classifier's system message around the comma-joined labels. */
  const SystemHead := "You are a routing classifier. Given a user's question, output ONLY the best route label from this set:\n"
  const SystemRules := "\n\nRules:\n- Output exactly one label.\n- No extra words, no punctuation, no explanation.\n"

  /** `re.sub(r"\s+", " ", text.strip().lower())`. */
  function Normalize(text: string): (t: string)
    ensures |t| <= |text|
  {
    CollapseSpaces(Lower(Strip(text)))
  }

  /** The position of the first of `labels[k..]` that satisfies `p`, if any. */
  function FirstMatch(labels: seq<string>, k: nat, p: string -> bool): (r: Option<nat>)
    requires k <= |labels|
    ensures r.Some? ==> k <= r.value < |labels| && p(labels[r.value])
    ensures r.Some? ==> forall j :: k <= j < r.value ==> !p(labels[j])
    ensures r.None? ==> forall j :: k <= j < |labels| ==> !p(labels[j])
    decreases |labels| - k
  {
    if k == |labels| then None
    else if p(labels[k]) then Some(k)
    else FirstMatch(labels, k + 1, p)
  }

  /**
    * The position `extract_label` settles on in `labels` for the normalised text t: the first
    * label equal to t, else the first label occurring inside t.
    */
  function Pick(t: string, labels: seq<string>): (r: Option<nat>)
    ensures r.Some? ==> r.value < |labels|
  {
    match FirstMatch(labels, 0, l => l == t)
    case Some(i) => Some(i)
    case None => FirstMatch(labels, 0, l => Contains(t, l))
  }

  /** `extract_label(text)`. */
  function ExtractLabel(text: string): (r: string)
    ensures r in ValidLabels || r == Unknown
  {
    match Pick(Normalize(text), ValidLabels)
    case Some(i) => ValidLabels[i]
    case None => Unknown
  }

  /** A text that is one of the labels picks that label. */
  lemma PickExact(t: string, labels: seq<string>)
    requires t in labels
    ensures Pick(t, labels).Some? && labels[Pick(t, labels).value] == t
  {
    var i :| 0 <= i < |labels| && labels[i] == t;
    assert (l => l == t)(labels[i]);
  }

  /** Any other text picks the first label occurring inside it, and nothing when none does. */
  lemma PickSubstring(t: string, labels: seq<string>)
    requires t !in labels
    ensures var r := Pick(t, labels);
      && (r.None? <==> forall j :: 0 <= j < |labels| ==> !Contains(t, labels[j]))
      && (r.Some? ==> Contains(t, labels[r.value]) && forall j :: 0 <= j < r.value ==> !Contains(t, labels[j]))
  {
    var e := FirstMatch(labels, 0, l => l == t);
    if e.Some? {
      assert false;
    }
    var m := FirstMatch(labels, 0, l => Contains(t, l));
    if m.Some? {
      assert (l => Contains(t, l))(labels[m.value]);
      assert forall j :: 0 <= j < m.value ==> !(l => Contains(t, l))(labels[j]);
    } else {
      assert forall j :: 0 <= j < |labels| ==> !(l => Contains(t, l))(labels[j]);
    }
  }

  /** "unknown" is not a label, so it tells a failed reading apart. */
  lemma UnknownIsNoLabel()
    ensures Unknown !in ValidLabels
  {
    assert forall j :: 0 <= j < |ValidLabels| ==> |ValidLabels[j]| != |Unknown|;
  }

  /** A normalised text that is a label is read as that label, whatever other labels it contains. */
  lemma ExactMatchWins(text: string)
    requires Normalize(text) in ValidLabels
    ensures ExtractLabel(text) == Normalize(text)
  {
    PickExact(Normalize(text), ValidLabels);
  }

  /**
    * Any other text is read as the first label, in list order, that occurs inside it, and as
    * "unknown" exactly when none does.
    */
  lemma SubstringFallback(text: string)
    requires Normalize(text) !in ValidLabels
    ensures var t, r := Normalize(text), ExtractLabel(text);
      && (r == Unknown <==> forall j :: 0 <= j < |ValidLabels| ==> !Contains(t, ValidLabels[j]))
      && (r != Unknown ==> exists i :: 0 <= i < |ValidLabels| && ValidLabels[i] == r && Contains(t, r)
                                    && forall j :: 0 <= j < i ==> !Contains(t, ValidLabels[j]))
  {
    var t := Normalize(text);
    PickSubstring(t, ValidLabels);
    UnknownIsNoLabel();
    var p := Pick(t, ValidLabels);
    if p.Some? {
      assert ValidLabels[p.value] in ValidLabels;
    }
  }

  /**
    * A text as the normaliser leaves it: no capital letters, no white space at either end, and
    * single blanks as its only white space.
    */
  predicate NormalForm(s: string) {
    NoCapitals(s) && SingleBlanks(s) && (|s| > 0 ==> !IsSpace(s[0]) && !IsSpace(s[|s| - 1]))
  }

  /** Lower-casing leaves a text exactly when it has no capitals. */
  lemma LowerPlain(s: string)
    ensures Lower(s) == s <==> NoCapitals(s)
  {
    LowerNoCapitals(s);
  }

  /** Collapsing white space leaves a text exactly when its only white space is single blanks. */
  lemma CollapsePlain(s: string)
    ensures CollapseSpaces(s) == s <==> SingleBlanks(s)
  {
    CollapseSingleBlanks(s);
  }

  /** Every normalised text is in normal form. */
  lemma NormalizeIsNormal(text: string)
    ensures NormalForm(Normalize(text))
  {
    var l := Lower(Strip(text));
    LowerNoCapitals(Strip(text));
    CollapseSpacesShape(l);
    CollapseNoCapitals(l);
    CollapseKeepsEnds(l);
    CollapseStartsLike(l);
  }

  /** A text is its own normal form exactly when it is in normal form: normalising twice is normalising once. */
  lemma NormalizePlain(s: string)
    ensures Normalize(s) == s <==> NormalForm(s)
  {
    NormalizeIsNormal(s);
    if NormalForm(s) && |s| > 0 {
      assert Strip(s) == s;
      LowerPlain(s);
      CollapsePlain(s);
    }
  }

  /** Lower-case letters and underscores only. */
  predicate Snake(s: string) {
    forall i :: 0 <= i < |s| ==> 'a' <= s[i] <= 'z' || s[i] == '_'
  }

  /** Every route label is a non-empty text in normal form. */
  lemma LabelPlain(l: string)
    requires l in ValidLabels
    ensures |l| > 0 && NormalForm(l)
  {
    assert Snake(l);
    SnakeIsNormal(l);
  }

  lemma SnakeIsNormal(s: string)
    requires Snake(s)
    ensures NormalForm(s)
  {
  }

  /** Every label the router can print is read back as itself. */
  lemma LabelIsFixedPoint(l: string)
    requires l in ValidLabels
    ensures ExtractLabel(l) == l
  {
    LabelPlain(l);
    NormalizePlain(l);
    ExactMatchWins(l);
  }

  /** `build_messages(question)`: the classifier's system text, then the stripped question. */
  function BuildMessages(question: string): (ms: seq<Message>)
    ensures |ms| == 2 && ms[0].role == "system" && ms[1].role == "user"
    ensures ms[1].content == Strip(question)
  {
    [Message("system", SystemHead + Join(", ", ValidLabels) + SystemRules), Message("user", Strip(question))]
  }

  /** The system message names every route label. */
  lemma SystemListsLabels(question: string, l: string)
    requires l in ValidLabels
    ensures Contains(BuildMessages(question)[0].content, l)
  {
    var i :| 0 <= i < |ValidLabels| && ValidLabels[i] == l;
    JoinContainsParts(", ", ValidLabels, i);
    ContainsInside(SystemHead, Join(", ", ValidLabels), SystemRules, l);
  }
}
