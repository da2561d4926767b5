/**
 * Extracting the form token from the search page's scripts, each one searched
 * as `str(script)` (its whole markup): the first script
 * in which `re.search(r'window\.CSRF_TOKEN\s*=\s*"(.+?)"', ...)` succeeds gives
 * the token (its group 1); no such script is a ValueError.
 */
module CsrfToken {
  import opened Wrappers
  import opened Text

  const Marker: string := "window.CSRF_TOKEN"

  /**
   * What `(.+?)"` captures: at least one character, none of them a newline
   * (`.`), and, the quantifier being lazy, no '"' after the first one; a '"'
   * follows it.
   */
  predicate IsToken(t: string) {
    |t| >= 1 && (forall k | 0 <= k < |t| :: t[k] != '\n') && (forall k | 1 <= k < |t| :: t[k] != '"')
  }

  /**
   * The pattern matched at position p of s with group 1 = tok, the '=' at a
   * and the opening '"' at b: the marker, whitespace, '=', whitespace, '"',
   * the lazy capture, '"'.
   */
  predicate MatchShape(s: string, p: nat, a: nat, b: nat, tok: string) {
    OccursAt(s, Marker, p) &&
    p + |Marker| <= a < b < |s| &&
    AllSpaceIn(s, p + |Marker|, a) && s[a] == '=' &&
    AllSpaceIn(s, a + 1, b) && s[b] == '"' &&
    IsToken(tok) && b + 1 + |tok| < |s| && s[b + 1..b + 1 + |tok|] == tok && s[b + 1 + |tok|] == '"'
  }

  /** The pattern matches at p with group 1 = tok, for some placement of the whitespace runs. */
  ghost predicate TokenMatch(s: string, p: nat, tok: string) {
    exists a: nat, b: nat :: MatchShape(s, p, a, b, tok)
  }

  /** Index of the first whitespace-free position at or after i (\s* is greedy). */
  function SkipSpaces(s: string, i: nat): (j: nat)
    requires i <= |s|
    ensures AllSpaceIn(s, i, j)
    ensures j == |s| || !IsSpace(s[j])
    decreases |s| - i
  {
    if i < |s| && IsSpace(s[i]) then SkipSpaces(s, i + 1) else i
  }

  /** Index of the first '"' or newline at or after i, or |s|. */
  function ScanCapture(s: string, i: nat): (j: nat)
    requires i <= |s|
    ensures i <= j <= |s|
    ensures forall k | i <= k < j :: s[k] != '"' && s[k] != '\n'
    ensures j == |s| || s[j] == '"' || s[j] == '\n'
    decreases |s| - i
  {
    if i < |s| && s[i] != '"' && s[i] != '\n' then ScanCapture(s, i + 1) else i
  }

  /** The regex engine's attempt at position p; None when the pattern does not match there. */
  function MatchAt(s: string, p: nat): Option<string>
    requires p <= |s|
  {
    if !OccursAt(s, Marker, p) then None
    else
      var a := SkipSpaces(s, p + |Marker|);
      if a == |s| || s[a] != '=' then None
      else
        var b := SkipSpaces(s, a + 1);
        if b == |s| || s[b] != '"' then None
        else if b + 1 == |s| || s[b + 1] == '\n' then None
        else
          var e := ScanCapture(s, b + 2);
          if e == |s| || s[e] == '\n' then None else Some(s[b + 1..e])
  }

  lemma SkipSpacesIsUnique(s: string, i: nat, a: nat)
    requires i <= |s| && AllSpaceIn(s, i, a) && a < |s| && !IsSpace(s[a])
    ensures SkipSpaces(s, i) == a
    decreases a - i
  {
    if i < a {
      SkipSpacesIsUnique(s, i + 1, a);
    }
  }

  lemma ScanCaptureIsUnique(s: string, i: nat, e: nat)
    requires i <= e < |s| && s[e] == '"'
    requires forall k | i <= k < e :: s[k] != '"' && s[k] != '\n'
    ensures ScanCapture(s, i) == e
    decreases e - i
  {
    if i < e {
      ScanCaptureIsUnique(s, i + 1, e);
    }
  }

  /** What the engine captures is a non-empty run of non-newlines with no '"' after its first character. */
  lemma MatchAtIsToken(s: string, p: nat)
    requires p <= |s| && MatchAt(s, p).Some?
    ensures IsToken(MatchAt(s, p).value)
  {
    var a := SkipSpaces(s, p + |Marker|);
    var b := SkipSpaces(s, a + 1);
    var e := ScanCapture(s, b + 2);
    var tok := s[b + 1..e];
    assert MatchAt(s, p).value == tok;
    assert forall k | 1 <= k < |tok| :: tok[k] == s[b + 1 + k];
  }

  /** Every match the engine reports at p is one the pattern admits there. */
  lemma MatchAtIsSound(s: string, p: nat)
    requires p <= |s| && MatchAt(s, p).Some?
    ensures TokenMatch(s, p, MatchAt(s, p).value)
  {
    MatchAtIsToken(s, p);
    var a := SkipSpaces(s, p + |Marker|);
    var b := SkipSpaces(s, a + 1);
    assert MatchShape(s, p, a, b, MatchAt(s, p).value);
  }

  /**
   * Every match the pattern admits at p is the one the engine reports:
   * giving back whitespace to `\s*` never helps, since '=' and '"' are not
   * whitespace, and the lazy capture ends at the first '"'.
   */
  lemma MatchAtIsComplete(s: string, p: nat, tok: string)
    requires p <= |s| && TokenMatch(s, p, tok)
    ensures MatchAt(s, p) == Some(tok)
  {
    var a: nat, b: nat :| MatchShape(s, p, a, b, tok);
    SkipSpacesIsUnique(s, p + |Marker|, a);
    SkipSpacesIsUnique(s, a + 1, b);
    CaptureIsUnique(s, b, tok);
  }

  /** After the opening '"' at b, the lazy capture reaches exactly to the '"' closing tok. */
  lemma CaptureIsUnique(s: string, b: nat, tok: string)
    requires IsToken(tok) && b + 1 + |tok| < |s| && s[b + 1..b + 1 + |tok|] == tok && s[b + 1 + |tok|] == '"'
    ensures s[b + 1] != '\n' && ScanCapture(s, b + 2) == b + 1 + |tok|
  {
    var e := b + 1 + |tok|;
    assert forall k | b + 1 <= k < e :: s[k] == tok[k - b - 1];
    ScanCaptureIsUnique(s, b + 2, e);
  }

  /** re.search from position p on: the match at the leftmost position that has one. */
  function SearchFrom(s: string, p: nat): Option<string>
    requires p <= |s|
    decreases |s| - p
  {
    if MatchAt(s, p).Some? then MatchAt(s, p)
    else if p == |s| then None
    else SearchFrom(s, p + 1)
  }

  /** Whatever re.search reports is a capture of the pattern. */
  lemma {:induction false} SearchFromIsToken(s: string, p: nat)
    requires p <= |s| && SearchFrom(s, p).Some?
    ensures IsToken(SearchFrom(s, p).value)
    decreases |s| - p
  {
    if MatchAt(s, p).Some? {
      MatchAtIsToken(s, p);
    } else {
      SearchFromIsToken(s, p + 1);
    }
  }

  /** re.search reports the match at the leftmost position where the pattern matches. */
  lemma {:induction false} SearchFromIsLeftmost(s: string, p: nat)
    requires p <= |s|
    ensures SearchFrom(s, p).Some? ==> exists q | p <= q <= |s| ::
      MatchAt(s, q) == SearchFrom(s, p) && forall k | p <= k < q :: MatchAt(s, k).None?
    decreases |s| - p
  {
    var m := MatchAt(s, p);
    if m.Some? {
      assert SearchFrom(s, p) == m;
      assert MatchAt(s, p) == SearchFrom(s, p);
    } else if p < |s| {
      assert SearchFrom(s, p) == SearchFrom(s, p + 1);
      SearchFromIsLeftmost(s, p + 1);
      if SearchFrom(s, p + 1).Some? {
        var q :| p + 1 <= q <= |s| && MatchAt(s, q) == SearchFrom(s, p + 1) &&
          forall k | p + 1 <= k < q :: MatchAt(s, k).None?;
        assert MatchAt(s, q) == SearchFrom(s, p);
      }
    }
  }

  lemma {:induction false} SearchFromFindsMatch(s: string, p: nat, q: nat)
    requires p <= q <= |s| && MatchAt(s, q).Some?
    ensures SearchFrom(s, p).Some?
    decreases q - p
  {
    if p < q && MatchAt(s, p).None? {
      SearchFromFindsMatch(s, p + 1, q);
    }
  }

  lemma {:induction false} SearchFromWithoutMatch(s: string, p: nat)
    requires p <= |s| && forall k | p <= k <= |s| :: MatchAt(s, k).None?
    ensures SearchFrom(s, p).None?
    decreases |s| - p
  {
    assert MatchAt(s, p).None?;
    if p < |s| {
      SearchFromWithoutMatch(s, p + 1);
    }
  }

  /** re.search reports nothing exactly when the pattern matches at no position. */
  lemma SearchFromNoneIff(s: string, p: nat)
    requires p <= |s|
    ensures SearchFrom(s, p).None? <==> forall k | p <= k <= |s| :: MatchAt(s, k).None?
  {
    if SearchFrom(s, p).None? {
      forall k | p <= k <= |s|
        ensures MatchAt(s, k).None?
      {
        if MatchAt(s, k).Some? {
          SearchFromFindsMatch(s, p, k);
        }
      }
    } else if forall k | p <= k <= |s| :: MatchAt(s, k).None? {
      SearchFromWithoutMatch(s, p);
    }
  }

  function Search(s: string): Option<string> {
    SearchFrom(s, 0)
  }

  /**
   * The token found in the first script, in document order, in which the
   * pattern matches; None when it matches in none.
   */
  function FirstScriptToken(scripts: seq<string>): Option<string> {
    if scripts == [] then None
    else if Search(scripts[0]).Some? then Search(scripts[0])
    else FirstScriptToken(scripts[1..])
  }

  /**
   * The token comes from the first script, in document order, in which the
   * pattern matches; there is none exactly when it matches in no script.
   */
  lemma {:induction false} FirstScriptTokenIsFirstMatch(scripts: seq<string>)
    ensures FirstScriptToken(scripts).Some? ==> exists i | 0 <= i < |scripts| ::
      Search(scripts[i]) == FirstScriptToken(scripts) && forall j | 0 <= j < i :: Search(scripts[j]).None?
    ensures FirstScriptToken(scripts).None? <==> forall i | 0 <= i < |scripts| :: Search(scripts[i]).None?
  {
    if scripts != [] && Search(scripts[0]).None? {
      FirstScriptTokenIsFirstMatch(scripts[1..]);
      assert forall i | 1 <= i < |scripts| :: scripts[i] == scripts[1..][i - 1];
      if FirstScriptToken(scripts).Some? {
        var i :| 0 <= i < |scripts[1..]| && Search(scripts[1..][i]) == FirstScriptToken(scripts[1..])
          && forall j | 0 <= j < i :: Search(scripts[1..][j]).None?;
        assert Search(scripts[i + 1]) == FirstScriptToken(scripts);
      }
    }
  }

  /**
   * get_csrf_form_token: scan the scripts in order, stop at the first match,
   * and fail with TokenNotFound (the ValueError) when there is none.
   */
  method GetCsrfFormToken(scripts: seq<string>) returns (r: Result<string, Error>)
    ensures r.Success? <==> FirstScriptToken(scripts).Some?
    ensures r.Success? ==> Some(r.value) == FirstScriptToken(scripts) && IsToken(r.value)
    ensures r.Failure? ==> r.error == TokenNotFound
  {
    var csrfToken: Option<string> := None;
    var i := 0;
    while i < |scripts|
      invariant 0 <= i <= |scripts|
      invariant FirstScriptToken(scripts) == FirstScriptToken(scripts[i..])
    {
      var m := Search(scripts[i]);
      if m.Some? {
        SearchFromIsToken(scripts[i], 0);
        csrfToken := m;
        break;
      }
      assert scripts[i..][1..] == scripts[i + 1..];
      i := i + 1;
    }
    if csrfToken.None? || csrfToken.value == [] {
      return Failure(TokenNotFound);
    }
    return Success(csrfToken.value);
  }
}
