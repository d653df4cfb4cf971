/**
  * The arithmetic adapter's recovery of a JSON object from model output: the text from the first
  * '{' to the last '}', stripped, handed to the JSON parser. Parsing is an opaque function here.
  */
module JsonExtract {
  import opened Text
  import opened Wrappers

  /** `s.find(c)`: the first position of c in s, or −1. */
  function Find(s: string, c: char): (r: int)
    ensures -1 <= r < |s|
    ensures r == -1 ==> forall j :: 0 <= j < |s| ==> s[j] != c
    ensures r >= 0 ==> s[r] == c && forall j :: 0 <= j < r ==> s[j] != c
  {
    if |s| == 0 then -1
    else if s[0] == c then 0
    else
      var k := Find(s[1..], c);
      if k == -1 then -1 else k + 1
  }

  /** `s.rfind(c)`: the last position of c in s, or −1. */
  function RFind(s: string, c: char): (r: int)
    ensures -1 <= r < |s|
    ensures r == -1 ==> forall j :: 0 <= j < |s| ==> s[j] != c
    ensures r >= 0 ==> s[r] == c && forall j :: r < j < |s| ==> s[j] != c
  {
    if |s| == 0 then -1
    else if s[|s| - 1] == c then |s| - 1
    else RFind(s[..|s| - 1], c)
  }

  /** Some '{' in the text comes before some '}'. */
  predicate HasBracePair(text: string) {
    exists i, j :: 0 <= i < j < |text| && text[i] == '{' && text[j] == '}'
  }

  /**
    * The text `extract_json` tries to parse: `text[start:end+1].strip()` with `start` the first
    * '{' and `end` the last '}', or nothing when there is no '{', no '}', or the last '}' is not
    * after the first '{'.
    */
  function Candidate(text: string): (r: Option<string>)
    ensures r.None? <==> !HasBracePair(text)
    ensures r.Some? ==> var c := r.value;
      && |c| >= 2 && c[0] == '{' && c[|c| - 1] == '}'
      && exists s :: 0 <= s <= |text| - |c| && OccursAt(text, c, s)
                  && (forall j :: 0 <= j < s ==> text[j] != '{')
                  && (forall j :: s + |c| <= j < |text| ==> text[j] != '}')
  {
    var start, end := Find(text, '{'), RFind(text, '}');
    if start == -1 || end == -1 || end <= start then
      NoPairWhenCrossed(text, start, end);
      None
    else
      var c := text[start..end + 1];
      BraceSpan(text, start, end);
      assert Strip(c) == c && OccursAt(text, Strip(c), start);
      Some(Strip(c))
  }

  /**
    * With the first '{' before the last '}', the span between them is its own strip, is found
    * in the text at the first '{', and has no '{' before it and no '}' after it.
    */
  lemma BraceSpan(text: string, start: int, end: int)
    requires start == Find(text, '{') && end == RFind(text, '}')
    requires 0 <= start < end
    ensures var c := text[start..end + 1];
      && HasBracePair(text) && Strip(c) == c && |c| >= 2 && c[0] == '{' && c[|c| - 1] == '}'
      && OccursAt(text, c, start)
      && (forall j :: 0 <= j < start ==> text[j] != '{')
      && (forall j :: start + |c| <= j < |text| ==> text[j] != '}')
  {
    var c := text[start..end + 1];
    assert text[start] == '{' && text[end] == '}';
    assert c[0] == text[start] && c[|c| - 1] == text[end];
    assert !IsSpace(c[0]) && !IsSpace(c[|c| - 1]);
    assert start + |c| == end + 1;
    assert text[start..start + |c|] == c;
  }

  /** With the first '{' at or after the last '}' (or either missing) no '{' precedes a '}'. */
  lemma NoPairWhenCrossed(text: string, start: int, end: int)
    requires start == Find(text, '{') && end == RFind(text, '}')
    requires start == -1 || end == -1 || end <= start
    ensures !HasBracePair(text)
  {
    forall i, j | 0 <= i < j < |text| && text[i] == '{'
      ensures text[j] != '}'
    {
      assert start != -1 && start <= i;
    }
  }

  /** What `extract_json` returns: no braces, a parsed value, or the candidate with the parse error. */
  datatype Extracted<J> = NoBraces | Parsed(value: J) | Unparsed(candidate: string, error: string)

  const BracesError := "Could not find JSON braces in output."

  /** The error text of a result: `None` for a parsed value. */
  function ErrorText<J>(e: Extracted<J>): Option<string> {
    match e
    case NoBraces => Some(BracesError)
    case Parsed(_) => None
    case Unparsed(_, msg) => Some(msg)
  }

  /** `extract_json(text)` with `json.loads` given as `loads`. */
  function ExtractJson<J>(text: string, loads: string -> Result<J>): (r: Extracted<J>)
    ensures r.NoBraces? <==> !HasBracePair(text)
    ensures ErrorText(r).None? <==> r.Parsed?
    ensures r.Parsed? ==> Candidate(text).Some? && loads(Candidate(text).value) == Ok(r.value)
    ensures r.Unparsed? ==>
      && Candidate(text) == Some(r.candidate) && loads(r.candidate).Err?
      && r.error == "JSON parse error: " + loads(r.candidate).error
  {
    match Candidate(text)
    case None => NoBraces
    case Some(c) =>
      match loads(c)
      case Ok(v) => Parsed(v)
      case Err(e) => Unparsed(c, "JSON parse error: " + e)
  }
}
