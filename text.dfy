/**
  * The string operations of Python that the generators and the routing scripts rely on:
  * `str(int)`, `str.strip`, `str.lower`/`str.upper`, `sep.join`, the `in` substring test,
  * `str.replace` and the `\s+` whitespace class.
  */
module Text {

  // ---------------------------------------------------------------------------
  // Whitespace, strip, case
  // ---------------------------------------------------------------------------

  /** The characters for which Python's `str.isspace()` holds; the regex class `\s` matches the same ones. */
  predicate IsSpace(c: char) {
    ('\t' <= c <= '\r') || ('\U{1c}' <= c <= ' ') || c == '\U{85}' || c == '\U{a0}' || c == '\U{1680}'
    || ('\U{2000}' <= c <= '\U{200a}') || c == '\U{2028}' || c == '\U{2029}' || c == '\U{202f}'
    || c == '\U{205f}' || c == '\U{3000}'
  }

  /** Drops the leading whitespace: the result is the suffix of `s` starting at its first non-space. */
  function StripLeft(s: string): (r: string)
    ensures |r| <= |s| && r == s[|s| - |r|..]
    ensures forall k :: 0 <= k < |s| - |r| ==> IsSpace(s[k])
    ensures |r| > 0 ==> !IsSpace(r[0])
  {
    if |s| > 0 && IsSpace(s[0]) then
      var t := StripLeft(s[1..]);
      assert s[1..][|s| - 1 - |t|..] == s[|s| - |t|..];
      assert forall k :: 1 <= k < |s| - |t| ==> s[k] == s[1..][k - 1];
      t
    else s
  }

  /** Drops the trailing whitespace: the result is the prefix of `s` ending at its last non-space. */
  function StripRight(s: string): (r: string)
    ensures |r| <= |s| && r == s[..|r|]
    ensures forall k :: |r| <= k < |s| ==> IsSpace(s[k])
    ensures |r| > 0 ==> !IsSpace(r[|r| - 1])
  {
    if |s| > 0 && IsSpace(s[|s| - 1]) then StripRight(s[..|s| - 1]) else s
  }

  /** Python's `s.strip()`. */
  function Strip(s: string): (r: string)
    ensures |r| <= |s|
    ensures |r| > 0 ==> !IsSpace(r[0]) && !IsSpace(r[|r| - 1])
    ensures |s| > 0 && !IsSpace(s[0]) && !IsSpace(s[|s| - 1]) ==> r == s
  {
    StripRight(StripLeft(s))
  }

  /** A string that has no whitespace at either end is its own strip. */
  lemma StripIdempotent(s: string)
    ensures Strip(Strip(s)) == Strip(s)
  {
  }

  function LowerChar(c: char): char {
    if 'A' <= c <= 'Z' then (c as int + 32) as char else c
  }

  function UpperChar(c: char): char {
    if 'a' <= c <= 'z' then (c as int - 32) as char else c
  }

  /** Python's `s.lower()` on the ASCII letters: each letter A–Z becomes its lower case, every other character stays. */
  function Lower(s: string): (r: string)
    ensures |r| == |s|
    ensures forall i :: 0 <= i < |s| ==> r[i] == LowerChar(s[i])
  {
    if |s| == 0 then "" else [LowerChar(s[0])] + Lower(s[1..])
  }

  /** Python's `s.upper()` on the ASCII letters: each letter a–z becomes its upper case, every other character stays. */
  function Upper(s: string): (r: string)
    ensures |r| == |s|
    ensures forall i :: 0 <= i < |s| ==> r[i] == UpperChar(s[i])
  {
    if |s| == 0 then "" else [UpperChar(s[0])] + Upper(s[1..])
  }

  /** Lower-casing a character keeps it white space or not. */
  lemma LowerKeepsSpace(c: char)
    ensures IsSpace(LowerChar(c)) <==> IsSpace(c)
  {
  }

  /** A text with no capital letter A–Z. */
  predicate NoCapitals(s: string) {
    forall i :: 0 <= i < |s| ==> !('A' <= s[i] <= 'Z')
  }

  /** A lower-cased text has no capital letter, and lower-casing leaves a text exactly when it has none. */
  lemma {:induction false} LowerNoCapitals(s: string)
    ensures NoCapitals(Lower(s))
    ensures Lower(s) == s <==> NoCapitals(s)
  {
    if !NoCapitals(s) {
      var i :| 0 <= i < |s| && 'A' <= s[i] <= 'Z';
      assert Lower(s)[i] != s[i];
    }
  }

  /** A text whose only white space is single blanks: each one is ' ' and is not followed by more white space. */
  predicate SingleBlanks(s: string) {
    forall k :: 0 <= k < |s| && IsSpace(s[k]) ==> s[k] == ' ' && (k + 1 < |s| ==> !IsSpace(s[k + 1]))
  }

  /** Python's `re.sub(r"\s+", " ", s)`: every maximal run of whitespace becomes one blank. */
  function CollapseSpaces(s: string): (r: string)
    ensures |r| <= |s|
    decreases |s|
  {
    if |s| == 0 then ""
    else if IsSpace(s[0]) then " " + CollapseSpaces(StripLeft(s))
    else [s[0]] + CollapseSpaces(s[1..])
  }

  /** After collapsing, the only whitespace left is single blanks, never two in a row. */
  lemma {:induction false} CollapseSpacesShape(s: string)
    ensures SingleBlanks(CollapseSpaces(s))
    decreases |s|
  {
    var r := CollapseSpaces(s);
    if |s| == 0 {
    } else if IsSpace(s[0]) {
      var t := StripLeft(s);
      CollapseSpacesShape(t);
      CollapseStartsLike(t);
      assert r == " " + CollapseSpaces(t);
    } else {
      CollapseSpacesShape(s[1..]);
      assert r == [s[0]] + CollapseSpaces(s[1..]);
    }
  }

  /** Collapsing keeps a non-space first character in front. */
  lemma CollapseStartsLike(s: string)
    ensures |s| > 0 ==> |CollapseSpaces(s)| > 0
    ensures |s| > 0 && !IsSpace(s[0]) ==> CollapseSpaces(s)[0] == s[0]
  {
  }

  /** Collapsing whitespace keeps the ends of a stripped string free of whitespace. */
  lemma {:induction false} CollapseKeepsEnds(s: string)
    requires |s| > 0 ==> !IsSpace(s[|s| - 1])
    ensures var r := CollapseSpaces(s); |r| > 0 ==> !IsSpace(r[|r| - 1])
    decreases |s|, 1
  {
    var r := CollapseSpaces(s);
    if |s| == 0 {
    } else if IsSpace(s[0]) {
      CollapseLeadingRun(s);
    } else if |s| == 1 {
      assert r == [s[0]];
    } else {
      assert s[1..][|s| - 2] == s[|s| - 1];
      CollapseKeepsEnds(s[1..]);
      CollapseStartsLike(s[1..]);
      assert r == [s[0]] + CollapseSpaces(s[1..]);
    }
  }

  /** The step of `CollapseKeepsEnds` for a string that opens with whitespace. */
  lemma {:induction false} CollapseLeadingRun(s: string)
    requires |s| > 0 && IsSpace(s[0]) && !IsSpace(s[|s| - 1])
    ensures var r := CollapseSpaces(s); |r| > 0 ==> !IsSpace(r[|r| - 1])
    decreases |s|, 0
  {
    var t := StripLeft(s);
    assert t[|t| - 1] == s[|s| - 1];
    CollapseKeepsEnds(t);
    CollapseStartsLike(t);
    assert CollapseSpaces(s) == " " + CollapseSpaces(t);
  }

  /** Collapsing leaves a text exactly when its only white space is single blanks. */
  lemma {:induction false} CollapseSingleBlanks(s: string)
    ensures CollapseSpaces(s) == s <==> SingleBlanks(s)
    decreases |s|
  {
    CollapseSpacesShape(s);
    if |s| > 0 && SingleBlanks(s) {
      assert SingleBlanks(s[1..]) by {
        forall k | 0 <= k < |s[1..]| && IsSpace(s[1..][k])
          ensures s[1..][k] == ' ' && (k + 1 < |s[1..]| ==> !IsSpace(s[1..][k + 1]))
        {
          assert s[1..][k] == s[k + 1];
          if k + 1 < |s[1..]| { assert s[1..][k + 1] == s[k + 2]; }
        }
      }
      CollapseSingleBlanks(s[1..]);
      if IsSpace(s[0]) {
        assert StripLeft(s) == s[1..] by {
          assert StripLeft(s) == StripLeft(s[1..]);
          assert |s[1..]| > 0 ==> !IsSpace(s[1..][0]);
        }
      }
    }
  }

  /** Collapsing white space adds no capital letter. */
  lemma {:induction false} CollapseNoCapitals(s: string)
    requires NoCapitals(s)
    ensures NoCapitals(CollapseSpaces(s))
    decreases |s|
  {
    if |s| > 0 {
      var t := if IsSpace(s[0]) then StripLeft(s) else s[1..];
      assert NoCapitals(t) by {
        forall i | 0 <= i < |t| ensures !('A' <= t[i] <= 'Z') {
          assert t[i] == s[|s| - |t| + i];
        }
      }
      CollapseNoCapitals(t);
    }
  }

  // ---------------------------------------------------------------------------
  // Substrings, join, replace
  // ---------------------------------------------------------------------------

  /** `sub` occurs in `s` starting at position `i`. */
  predicate OccursAt(s: string, sub: string, i: int) {
    0 <= i <= |s| - |sub| && s[i..i + |sub|] == sub
  }

  /** Python's `sub in s`. */
  predicate Contains(s: string, sub: string) {
    exists i | 0 <= i <= |s| - |sub| :: OccursAt(s, sub, i)
  }

  /** Python's `s.startswith(p)`. */
  predicate StartsWith(s: string, p: string) {
    |p| <= |s| && s[..|p|] == p
  }

  /** Python's `sep.join(parts)`. */
  function Join(sep: string, parts: seq<string>): string
    decreases |parts|
  {
    if |parts| == 0 then ""
    else if |parts| == 1 then parts[0]
    else parts[0] + sep + Join(sep, parts[1..])
  }

  /** Every joined part occurs in the joined text, and the separator between any two neighbours. */
  lemma {:induction false} JoinContainsParts(sep: string, parts: seq<string>, i: nat)
    requires i < |parts|
    ensures Contains(Join(sep, parts), parts[i])
    decreases |parts|
  {
    var j := Join(sep, parts);
    if |parts| == 1 || i == 0 {
      assert OccursAt(j, parts[0], 0);
    } else {
      JoinContainsParts(sep, parts[1..], i - 1);
      var rest := Join(sep, parts[1..]);
      var k :| OccursAt(rest, parts[i], k);
      assert OccursAt(rest, parts[i], k);
      assert 0 <= k <= |rest| - |parts[i]| && rest[k..k + |parts[i]|] == parts[i];
      var off := |parts[0] + sep|;
      assert j == parts[0] + sep + rest;
      assert j[off + k..off + k + |parts[i]|] == rest[k..k + |parts[i]|];
      assert OccursAt(j, parts[i], off + k);
    }
  }

  /** A join starts with its first part. */
  lemma JoinFirst(sep: string, parts: seq<string>)
    requires |parts| > 0
    ensures StartsWith(Join(sep, parts), parts[0])
  {
  }

  /** A join ends with its last part. */
  lemma {:induction false} JoinLast(sep: string, parts: seq<string>)
    requires |parts| > 0
    ensures var j, l := Join(sep, parts), parts[|parts| - 1]; |l| <= |j| && j[|j| - |l|..] == l
    decreases |parts|
  {
    if |parts| > 1 {
      JoinLast(sep, parts[1..]);
    }
  }

  /** A text found in the middle piece of a concatenation is found in the whole. */
  lemma ContainsInside(a: string, b: string, c: string, sub: string)
    requires Contains(b, sub)
    ensures Contains(a + b + c, sub)
  {
    var k :| 0 <= k <= |b| - |sub| && OccursAt(b, sub, k);
    assert (a + b + c)[|a| + k..|a| + k + |sub|] == b[k..k + |sub|];
    assert OccursAt(a + b + c, sub, |a| + k);
  }

  /** A text found in the front piece of a concatenation is found in the whole. */
  lemma ContainsFront(a: string, b: string, sub: string)
    requires Contains(a, sub)
    ensures Contains(a + b, sub)
  {
    var k :| 0 <= k <= |a| - |sub| && OccursAt(a, sub, k);
    assert (a + b)[k..k + |sub|] == a[k..k + |sub|];
    assert OccursAt(a + b, sub, k);
  }

  /** The middle piece of a concatenation is found in it. */
  lemma ContainsMiddle(a: string, b: string, c: string)
    ensures Contains(a + b + c, b)
  {
    assert (a + b + c)[|a|..|a| + |b|] == b;
    assert OccursAt(a + b + c, b, |a|);
  }

  /** A concatenation starts with its front piece. */
  lemma StartsWithFront(a: string, b: string)
    ensures StartsWith(a + b, a)
  {
    assert (a + b)[..|a|] == a;
  }

  /** Python's `s.replace(pat, rep)`: the non-overlapping occurrences of `pat`, left to right. */
  function ReplaceAll(s: string, pat: string, rep: string): string
    requires |pat| > 0
    decreases |s|
  {
    if |s| < |pat| then s
    else if s[..|pat|] == pat then rep + ReplaceAll(s[|pat|..], pat, rep)
    else [s[0]] + ReplaceAll(s[1..], pat, rep)
  }

  /** Replacing a text that does not occur leaves the string as it was. */
  lemma {:induction false} ReplaceAbsent(s: string, pat: string, rep: string)
    requires |pat| > 0 && !Contains(s, pat)
    ensures ReplaceAll(s, pat, rep) == s
    decreases |s|
  {
    if |s| < |pat| {
    } else {
      assert !OccursAt(s, pat, 0);
      assert forall k :: OccursAt(s[1..], pat, k) ==> OccursAt(s, pat, k + 1) by {
        forall k | OccursAt(s[1..], pat, k) ensures OccursAt(s, pat, k + 1) {
          assert s[1..][k..k + |pat|] == s[k + 1..k + 1 + |pat|];
        }
      }
      ReplaceAbsent(s[1..], pat, rep);
    }
  }

  /** A string that starts with the text to replace has it replaced in front. */
  lemma ReplaceAtFront(s: string, pat: string, rep: string)
    requires |pat| > 0 && StartsWith(s, pat)
    ensures StartsWith(ReplaceAll(s, pat, rep), rep)
  {
    assert ReplaceAll(s, pat, rep) == rep + ReplaceAll(s[|pat|..], pat, rep);
  }

  // ---------------------------------------------------------------------------
  // Python's str(int) and its inverse
  // ---------------------------------------------------------------------------

  function DigitChar(d: nat): char
    requires d < 10
  {
    ('0' as int + d) as char
  }

  function DigitValue(c: char): nat {
    if '0' <= c <= '9' then c as int - '0' as int else 0
  }

  /** Decimal digits of a natural number, without leading zeros. */
  function NatStr(n: nat): (s: string)
    ensures |s| > 0
    decreases n
  {
    if n < 10 then [DigitChar(n)] else NatStr(n / 10) + [DigitChar(n % 10)]
  }

  /** Every character printed for a natural number is a decimal digit, and there is no leading zero. */
  lemma {:induction false} NatStrDigits(n: nat)
    ensures forall i :: 0 <= i < |NatStr(n)| ==> '0' <= NatStr(n)[i] <= '9'
    ensures |NatStr(n)| > 1 ==> NatStr(n)[0] != '0'
    decreases n
  {
    if n >= 10 {
      NatStrDigits(n / 10);
      var p := NatStr(n / 10);
      assert NatStr(n) == p + [DigitChar(n % 10)];
      assert NatStr(n)[0] == p[0];
      if n / 10 < 10 {
        assert p == [DigitChar(n / 10)];
      } else {
        assert p == NatStr(n / 100) + [DigitChar(n / 10 % 10)];
      }
    }
  }

  /** Python's `str(i)` for an int. */
  function IntStr(i: int): (s: string)
    ensures |s| > 0
  {
    if i < 0 then "-" + NatStr(-i) else NatStr(i)
  }

  /** `str(i)` consists of digits and minus signs only. */
  lemma IntStrNumeric(i: int)
    ensures Numeric(IntStr(i))
  {
    if i < 0 {
      NatStrDigits(-i);
    } else {
      NatStrDigits(i);
    }
  }

  /** Python's `int(s)` on a string of decimal digits. */
  function ParseNat(s: string): nat
    decreases |s|
  {
    if |s| == 0 then 0 else ParseNat(s[..|s| - 1]) * 10 + DigitValue(s[|s| - 1])
  }

  /** Python's `int(s)` on an optional minus sign followed by digits. */
  function ParseInt(s: string): int {
    if |s| > 0 && s[0] == '-' then -(ParseNat(s[1..]) as int) else ParseNat(s)
  }

  lemma {:induction false} ParseNatStr(n: nat)
    ensures ParseNat(NatStr(n)) == n
    decreases n
  {
    if n >= 10 {
      ParseNatStr(n / 10);
      var s := NatStr(n);
      assert s[..|s| - 1] == NatStr(n / 10);
    }
  }

  /** `int(str(i)) == i`: printing an int loses nothing. */
  lemma ParseIntStr(i: int)
    ensures ParseInt(IntStr(i)) == i
  {
    if i < 0 {
      ParseNatStr(-i);
      assert IntStr(i)[1..] == NatStr(-i);
    } else {
      ParseNatStr(i);
      NatStrDigits(i);
    }
  }

  /** Two ints print the same exactly when they are equal. */
  lemma IntStrInjective(a: int, b: int)
    ensures IntStr(a) == IntStr(b) <==> a == b
  {
    ParseIntStr(a);
    ParseIntStr(b);
  }

  // ---------------------------------------------------------------------------
  // f-string templates with integer holes
  // ---------------------------------------------------------------------------

  /** The characters `str(int)` can produce. */
  predicate IsNumChar(c: char) {
    ('0' <= c <= '9') || c == '-'
  }

  predicate Numeric(s: string) {
    forall i :: 0 <= i < |s| ==> IsNumChar(s[i])
  }

  /** A text that can follow a printed int without extending it: empty or led by a non-numeric character. */
  predicate Stops(s: string) {
    |s| == 0 || !IsNumChar(s[0])
  }

  /** A printed number followed by a stopping text splits in exactly one way. */
  lemma SplitAtStop(x1: string, y1: string, x2: string, y2: string)
    requires Numeric(x1) && Numeric(x2) && Stops(y1) && Stops(y2)
    requires x1 + y1 == x2 + y2
    ensures x1 == x2 && y1 == y2
  {
    NumericNotLonger(x1, y1, x2, y2);
    NumericNotLonger(x2, y2, x1, y1);
    var s := x1 + y1;
    assert x1 == s[..|x1|];
    assert x2 == s[..|x2|];
  }

  /** The printed number that is followed by a stopping text cannot be the shorter one. */
  lemma NumericNotLonger(x1: string, y1: string, x2: string, y2: string)
    requires Numeric(x2) && Stops(y1) && x1 + y1 == x2 + y2
    ensures |x2| <= |x1|
  {
    CharAfterShorter(x1, y1, x2, y2);
  }

  /** Where two splittings of one string disagree, the shorter head is followed by a character of the longer. */
  lemma CharAfterShorter(x1: string, y1: string, x2: string, y2: string)
    ensures x1 + y1 == x2 + y2 && |x1| < |x2| ==> |y1| > 0 && y1[0] == x2[|x1|]
  {
    if x1 + y1 == x2 + y2 && |x1| < |x2| {
      assert (x1 + y1)[|x1|] == (x2 + y2)[|x1|];
    }
  }

  lemma AppendAssoc(p: string, q: string, r: string)
    ensures p + q + r == p + (q + r)
  {
  }

  lemma Fmt2Assoc(p: string, x: string, m: string, y: string, q: string)
    ensures p + x + m + y + q == p + (x + (m + (y + q)))
  {
    AppendAssoc(p + x + m, y, q);
    AppendAssoc(p + x, m, y + q);
    AppendAssoc(p, x, m + (y + q));
  }

  /** Equal strings with a common head have equal tails. */
  lemma CancelPrefix(p: string, u: string, v: string)
    requires p + u == p + v
    ensures u == v
  {
    assert u == (p + u)[|p|..];
    assert v == (p + v)[|p|..];
  }

  /** `f"{pre}{a}{post}"`. */
  function Fmt1(pre: string, a: int, post: string): string {
    pre + IntStr(a) + post
  }

  /** `f"{pre}{a}{mid}{b}{post}"`. */
  function Fmt2(pre: string, a: int, mid: string, b: int, post: string): string {
    pre + IntStr(a) + mid + IntStr(b) + post
  }

  /** A one-hole template prints different ints differently. */
  lemma Fmt1Injective(pre: string, a: int, b: int, post: string)
    requires Stops(post)
    ensures Fmt1(pre, a, post) == Fmt1(pre, b, post) <==> a == b
  {
    if Fmt1(pre, a, post) == Fmt1(pre, b, post) {
      AppendAssoc(pre, IntStr(a), post);
      AppendAssoc(pre, IntStr(b), post);
      CancelPrefix(pre, IntStr(a) + post, IntStr(b) + post);
      IntStrNumeric(a);
      IntStrNumeric(b);
      SplitAtStop(IntStr(a), post, IntStr(b), post);
      IntStrInjective(a, b);
    }
  }

  /** A two-hole template whose middle text stops a number prints different pairs differently. */
  lemma Fmt2Injective(pre: string, a: int, mid: string, b: int, post: string, a': int, b': int)
    requires |mid| > 0 && Stops(mid) && Stops(post)
    ensures Fmt2(pre, a, mid, b, post) == Fmt2(pre, a', mid, b', post) <==> a == a' && b == b'
  {
    if Fmt2(pre, a, mid, b, post) == Fmt2(pre, a', mid, b', post) {
      var x, x', y, y' := IntStr(a), IntStr(a'), IntStr(b), IntStr(b');
      Fmt2Assoc(pre, x, mid, y, post);
      Fmt2Assoc(pre, x', mid, y', post);
      CancelPrefix(pre, x + (mid + (y + post)), x' + (mid + (y' + post)));
      assert (mid + (y + post))[0] == mid[0] == (mid + (y' + post))[0];
      IntStrNumeric(a);
      IntStrNumeric(a');
      IntStrNumeric(b);
      IntStrNumeric(b');
      SplitAtStop(x, mid + (y + post), x', mid + (y' + post));
      IntStrInjective(a, a');
      CancelPrefix(mid, y + post, y' + post);
      SplitAtStop(y, post, y', post);
      IntStrInjective(b, b');
    }
  }

  /** Two two-number texts with the same prefix and stopping middles agree on their first number. */
  lemma Fmt2FirstHole(pre: string, a: int, mid: string, b: int, post: string,
                      a': int, mid': string, b': int, post': string)
    requires |mid| > 0 && Stops(mid) && |mid'| > 0 && Stops(mid')
    requires Fmt2(pre, a, mid, b, post) == Fmt2(pre, a', mid', b', post')
    ensures a == a'
  {
    var x, x', y, y' := IntStr(a), IntStr(a'), IntStr(b), IntStr(b');
    Fmt2Assoc(pre, x, mid, y, post);
    Fmt2Assoc(pre, x', mid', y', post');
    CancelPrefix(pre, x + (mid + (y + post)), x' + (mid' + (y' + post')));
    assert (mid + (y + post))[0] == mid[0];
    assert (mid' + (y' + post'))[0] == mid'[0];
    IntStrNumeric(a);
    IntStrNumeric(a');
    SplitAtStop(x, mid + (y + post), x', mid' + (y' + post'));
    IntStrInjective(a, a');
  }

  /** Two strings that differ at some position inside both are different. */
  lemma DifferAt(s: string, t: string, i: nat)
    requires i < |s| && i < |t| && s[i] != t[i]
    ensures s != t
  {
  }
}
