/** The lines a JSONL reader keeps of a file: each stripped, the blank ones skipped. */
module Jsonl {
  import opened Text

  /** The lines of a file, each stripped. */
  function StrippedLines(lines: seq<string>): (r: seq<string>)
    ensures |r| == |lines| && forall i :: 0 <= i < |lines| ==> r[i] == Strip(lines[i])
  {
    seq(|lines|, i requires 0 <= i < |lines| => Strip(lines[i]))
  }

  /** What is kept of one stripped line: nothing when it is empty, else the line. */
  function KeptLine(line: string): (r: seq<string>)
    ensures |r| <= 1 && (|r| == 1 <==> line != "")
  {
    if line == "" then [] else [line]
  }

  /** The non-empty lines, order kept. */
  function NonEmpty(lines: seq<string>): (r: seq<string>)
    ensures |r| <= |lines|
  {
    if |lines| == 0 then [] else KeptLine(lines[0]) + NonEmpty(lines[1..])
  }

  /** The lines a JSONL reader keeps: each stripped, the blank ones skipped, order kept. */
  function NonBlankLines(lines: seq<string>): (r: seq<string>)
    ensures |r| <= |lines|
  {
    NonEmpty(StrippedLines(lines))
  }

  /** The lines kept from two pieces of a file, one after the other, are those of the whole. */
  lemma {:induction false} NonEmptyConcat(a: seq<string>, b: seq<string>)
    ensures NonEmpty(a + b) == NonEmpty(a) + NonEmpty(b)
    decreases |a|
  {
    if |a| > 0 {
      assert (a + b)[1..] == a[1..] + b;
      NonEmptyConcat(a[1..], b);
    } else {
      assert a + b == b;
    }
  }

  /** The lines kept from line n on: what is kept of line n, then those kept after it. */
  lemma NonEmptyFrom(lines: seq<string>, n: nat)
    requires n < |lines|
    ensures NonEmpty(lines[n..]) == KeptLine(lines[n]) + NonEmpty(lines[n + 1..])
  {
    assert lines[n..][0] == lines[n] && lines[n..][1..] == lines[n + 1..];
  }
}
