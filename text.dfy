/**
 * The parts of Python's str and re that the scraper relies on:
 * `str.isspace` (what `\s` matches and `strip()` removes), `\d` on ASCII,
 * `str.lower` on ASCII A-Z and the Russian/Ukrainian capitals, the `in` operator on strings,
 * `str.strip()`, `str.replace(c, "")`, `re.findall(r"\d+", ...)` and `int(...)`.
 */
module Text {

  /** str.isspace: the characters `\s` matches in a str pattern. */
  predicate IsSpace(c: char) {
    ('\t' <= c <= '\r') || ('\U{1C}' <= c <= '\U{1F}') || c == ' ' || c == '\U{85}' || c == '\U{A0}'
    || c == '\U{1680}' || ('\U{2000}' <= c <= '\U{200A}') || c == '\U{2028}' || c == '\U{2029}'
    || c == '\U{202F}' || c == '\U{205F}' || c == '\U{3000}'
  }

  predicate IsDigit(c: char) {
    '0' <= c <= '9'
  }

  predicate AllDigits(s: string) {
    forall k | 0 <= k < |s| :: IsDigit(s[k])
  }

  /** s[i..j] is all whitespace. */
  predicate AllSpaceIn(s: string, i: nat, j: nat) {
    i <= j <= |s| && forall k | i <= k < j :: IsSpace(s[k])
  }

  /** str.lower on one character: ASCII A-Z, the capitals U+0400-U+042F and U+0490; every other character is kept. */
  function LowerChar(c: char): char {
    if 'A' <= c <= 'Z' then (c as int + 32) as char
    else if '\U{410}' <= c <= '\U{42F}' then (c as int + 0x20) as char
    else if '\U{400}' <= c <= '\U{40F}' then (c as int + 0x50) as char
    else if c == '\U{490}' then '\U{491}'
    else c
  }

  function Lower(s: string): (r: string)
    ensures |r| == |s|
    ensures forall k | 0 <= k < |s| :: r[k] == LowerChar(s[k])
  {
    seq(|s|, k requires 0 <= k < |s| => LowerChar(s[k]))
  }

  predicate OccursAt(hay: string, needle: string, i: nat) {
    i + |needle| <= |hay| && hay[i..i + |needle|] == needle
  }

  /** Python's `needle in hay` on strings. */
  predicate Contains(hay: string, needle: string) {
    exists i | 0 <= i <= |hay| - |needle| :: OccursAt(hay, needle, i)
  }

  /** s without its leading whitespace. */
  function StripStart(s: string): string {
    if s != [] && IsSpace(s[0]) then StripStart(s[1..]) else s
  }

  /** s without its trailing whitespace. */
  function StripEnd(s: string): string {
    if s != [] && IsSpace(s[|s| - 1]) then StripEnd(s[..|s| - 1]) else s
  }

  /** StripStart cuts a run of whitespace off the front and stops at a non-space. */
  lemma {:induction false} StripStartIsSuffix(s: string)
    ensures |StripStart(s)| <= |s| && StripStart(s) == s[|s| - |StripStart(s)|..]
    ensures AllSpaceIn(s, 0, |s| - |StripStart(s)|)
    ensures StripStart(s) == [] || !IsSpace(StripStart(s)[0])
  {
    if s != [] && IsSpace(s[0]) {
      StripStartIsSuffix(s[1..]);
      assert forall k | 1 <= k < |s| :: s[k] == s[1..][k - 1];
    }
  }

  /** StripEnd cuts a run of whitespace off the back and stops at a non-space. */
  lemma {:induction false} StripEndIsPrefix(s: string)
    ensures |StripEnd(s)| <= |s| && StripEnd(s) == s[..|StripEnd(s)|]
    ensures AllSpaceIn(s, |StripEnd(s)|, |s|)
    ensures StripEnd(s) == [] || !IsSpace(StripEnd(s)[|StripEnd(s)| - 1])
  {
    if s != [] && IsSpace(s[|s| - 1]) {
      StripEndIsPrefix(s[..|s| - 1]);
      assert forall k | 0 <= k < |s| - 1 :: s[k] == s[..|s| - 1][k];
    }
  }

  /** str.strip() */
  function Strip(s: string): string {
    StripEnd(StripStart(s))
  }

  /**
   * What strip() leaves is the middle part of s once leading and trailing
   * whitespace are removed.
   */
  lemma StripIsTrim(s: string)
    ensures exists i, j | 0 <= i <= j <= |s| ::
      Strip(s) == s[i..j] && AllSpaceIn(s, 0, i) && AllSpaceIn(s, j, |s|)
  {
    var t := StripStart(s);
    StripStartIsSuffix(s);
    var i := |s| - |t|;
    var r := StripEnd(t);
    StripEndIsPrefix(t);
    var j := i + |r|;
    assert r == s[i..j] by {
      assert r == t[..|r|] && t == s[i..];
    }
    assert AllSpaceIn(s, j, |s|) by {
      assert forall k | |r| <= k < |t| :: t[k] == s[i + k];
    }
  }

  /** What strip() leaves neither begins nor ends with whitespace. */
  lemma StripEndsAreNotSpace(s: string)
    ensures Strip(s) == [] || (!IsSpace(Strip(s)[0]) && !IsSpace(Strip(s)[|Strip(s)| - 1]))
  {
    var t := StripStart(s);
    StripStartIsSuffix(s);
    var r := StripEnd(t);
    StripEndIsPrefix(t);
    assert r != [] ==> r[0] == t[0];
  }

  /** Stripping a string with no whitespace at either end changes nothing. */
  lemma StripUnchanged(s: string)
    requires s == [] || (!IsSpace(s[0]) && !IsSpace(s[|s| - 1]))
    ensures Strip(s) == s
  {
  }

  /** s.replace(c, ""). */
  function RemoveChar(s: string, c: char): (r: string)
    ensures c !in r
    ensures |r| <= |s|
  {
    if s == [] then [] else (if s[0] == c then [] else [s[0]]) + RemoveChar(s[1..], c)
  }

  /** Removing a character that does not occur changes nothing. */
  lemma {:induction false} RemoveAbsentChar(s: string, c: char)
    requires c !in s
    ensures RemoveChar(s, c) == s
  {
    if s != [] {
      RemoveAbsentChar(s[1..], c);
    }
  }

  /** Length of the longest prefix of s made of digits. */
  function DigitPrefix(s: string): (n: nat)
    ensures n <= |s|
    ensures AllDigits(s[..n])
    ensures n == |s| || !IsDigit(s[n])
  {
    if s == [] || !IsDigit(s[0]) then 0 else 1 + DigitPrefix(s[1..])
  }

  /** re.findall(r"\d+", s): the maximal runs of digits, left to right. */
  function DigitRuns(s: string): (runs: seq<string>)
    ensures forall k | 0 <= k < |runs| :: runs[k] != [] && AllDigits(runs[k])
    decreases |s|
  {
    if s == [] then []
    else if !IsDigit(s[0]) then DigitRuns(s[1..])
    else
      var n := DigitPrefix(s);
      [s[..n]] + DigitRuns(s[n..])
  }

  /** A string with no digit has no run. */
  lemma {:induction false} DigitRunsNone(s: string)
    requires forall k | 0 <= k < |s| :: !IsDigit(s[k])
    ensures DigitRuns(s) == []
  {
    if s != [] {
      DigitRunsNone(s[1..]);
    }
  }

  /** A non-empty string of digits is one run. */
  lemma DigitRunsWhole(s: string)
    requires s != [] && AllDigits(s)
    ensures DigitRuns(s) == [s]
  {
    var n := DigitPrefix(s);
    assert n == |s|;
    assert s[..n] == s && s[n..] == [];
  }

  lemma {:induction false} DigitPrefixStops(x: string, c: char, y: string)
    requires !IsDigit(c)
    ensures DigitPrefix(x + [c] + y) == DigitPrefix(x)
  {
    if x != [] {
      assert (x + [c] + y)[1..] == x[1..] + [c] + y;
      DigitPrefixStops(x[1..], c, y);
    }
  }

  /** A non-digit separates runs: the runs of x, then those of y. */
  lemma {:induction false} DigitRunsSplit(x: string, c: char, y: string)
    requires !IsDigit(c)
    ensures DigitRuns(x + [c] + y) == DigitRuns(x) + DigitRuns(y)
    decreases |x|
  {
    var s := x + [c] + y;
    if x == [] {
      assert s[1..] == y;
    } else if !IsDigit(x[0]) {
      assert s[1..] == x[1..] + [c] + y;
      DigitRunsSplit(x[1..], c, y);
    } else {
      var n := DigitPrefix(x);
      DigitPrefixStops(x, c, y);
      assert s[..n] == x[..n];
      assert s[n..] == x[n..] + [c] + y;
      DigitRunsSplit(x[n..], c, y);
    }
  }

  function DigitValue(c: char): (d: nat)
    requires IsDigit(c)
    ensures d < 10
  {
    c as int - '0' as int
  }

  /** int(s) for a string of ASCII digits. */
  function DecimalValue(s: string): nat
    requires AllDigits(s)
  {
    if s == [] then 0 else 10 * DecimalValue(s[..|s| - 1]) + DigitValue(s[|s| - 1])
  }
}
