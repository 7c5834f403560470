/**
  * The part of fnmatch that src/globbing.c relies on: flags 0 or FNM_CASEFOLD.  What a bracket
  * expression accepts depends on the locale and is an oracle.
  */
module Fnmatch {
  import opened Wrappers
  import opened CString

  /**
    * The bracket oracle gets the pattern text behind a '[', a character and the case-folding flag.
    * None: no closing bracket, so '[' stands for itself.  Otherwise: is the character accepted, and
    * how much text belongs to the expression.
    */
  datatype Locale = Locale(bracket: (string, char, bool) -> Option<(bool, nat)>)

  function Fold(c: char, fold: bool): char {
    if fold then ToLower(c) else c
  }

  /** fnmatch (pat, s, fold ? FNM_CASEFOLD : 0) == 0 */
  predicate Matches(loc: Locale, pat: string, s: string, fold: bool)
    decreases |pat| + |s|
  {
    if pat == "" then s == ""
    else if pat[0] == '*' then
      Matches(loc, pat[1..], s, fold) || (s != "" && Matches(loc, pat, s[1..], fold))
    else if s == "" then false
    else if pat[0] == '?' then Matches(loc, pat[1..], s[1..], fold)
    else if pat[0] == '\\' then
      |pat| > 1 && Fold(pat[1], fold) == Fold(s[0], fold) && Matches(loc, pat[2..], s[1..], fold)
    else if pat[0] == '[' && loc.bracket(pat[1..], s[0], fold).Some? then
      var (accepted, n) := loc.bracket(pat[1..], s[0], fold).value;
      accepted && n < |pat| && Matches(loc, pat[1 + n..], s[1..], fold)
    else Fold(pat[0], fold) == Fold(s[0], fold) && Matches(loc, pat[1..], s[1..], fold)
  }

  /** The characters at which the literal prefix of a pattern is cut. */
  predicate Stops(c: char) {
    c == '?' || c == '*' || c == '{' || c == '}' || c == '\\'
  }

  /** pattern[..strcspn (pattern, "?*{}\\")] */
  function LiteralPrefix(pat: string): string {
    if pat == "" || Stops(pat[0]) then "" else [pat[0]] + LiteralPrefix(pat[1..])
  }

  /** Is prefix a prefix of s up to case? */
  predicate HasPrefix(prefix: string, s: string) {
    Lower(prefix) <= Lower(s)
  }

  lemma {:induction false} HasPrefixCons(c: char, prefix: string, s: string)
    requires s != ""
    ensures HasPrefix([c] + prefix, s) <==> ToLower(c) == ToLower(s[0]) && HasPrefix(prefix, s[1..])
  {
    var p := [c] + prefix;
    assert p[1..] == prefix;
    assert Lower(p) == [ToLower(c)] + Lower(prefix);
    assert Lower(s) == [ToLower(s[0])] + Lower(s[1..]);
    if HasPrefix(p, s) {
      assert Lower(p)[1..] <= Lower(s)[1..];
    }
  }

  /** Does a '[' in front of rest open a bracket expression that is closed? */
  ghost predicate Closed(loc: Locale, rest: string, fold: bool) {
    exists c :: loc.bracket(rest, c, fold).Some?
  }

  /** Where the first closed bracket expression in the literal prefix of a pattern begins. */
  ghost function FirstClosed(loc: Locale, pat: string, fold: bool): (i: Option<nat>)
    ensures i.Some? ==> i.value < |pat| && pat[i.value] == '['
  {
    if pat == "" || Stops(pat[0]) then None
    else if pat[0] == '[' && Closed(loc, pat[1..], fold) then Some(0)
    else
      var i := FirstClosed(loc, pat[1..], fold);
      if i.None? then None else Some(i.value + 1)
  }

  lemma {:induction false} NoBracketNoneClosed(loc: Locale, pat: string, fold: bool)
    requires '[' !in LiteralPrefix(pat)
    ensures FirstClosed(loc, pat, fold).None?
  {
    if pat != "" && !Stops(pat[0]) {
      assert LiteralPrefix(pat)[0] == pat[0];
      NoBracketNoneClosed(loc, pat[1..], fold);
    }
  }

  /** A pattern without a closed bracket expression in its literal prefix only matches names that begin with it. */
  lemma {:induction false} MatchHasLiteralPrefix(loc: Locale, pat: string, s: string, fold: bool)
    requires FirstClosed(loc, pat, fold).None? && Matches(loc, pat, s, fold)
    ensures HasPrefix(LiteralPrefix(pat), s)
    decreases |pat|
  {
    if pat != "" && !Stops(pat[0]) {
      assert s != "";
      MatchHasLiteralPrefix(loc, pat[1..], s[1..], fold);
      HasPrefixCons(pat[0], LiteralPrefix(pat[1..]), s);
    }
  }

  /** Equal, up to case when fold is set. */
  predicate Same(a: string, b: string, fold: bool) {
    if fold then SameLetters(a, b) else a == b
  }

  predicate Begins(s: string, text: string, fold: bool) {
    |text| <= |s| && Same(s[..|text|], text, fold)
  }

  lemma BeginsCons(s: string, c: char, text: string, fold: bool)
    ensures Begins(s, [c] + text, fold) <==> s != "" && Fold(c, fold) == Fold(s[0], fold) && Begins(s[1..], text, fold)
  {
    if s != "" && |text| < |s| {
      var t := [c] + text;
      assert s[..|t|] == [s[0]] + s[1..][..|text|];
      if fold && SameLetters(s[..|t|], t) {
        forall i | 0 <= i < |text| ensures SameLetter(s[1..][..|text|][i], text[i]) {
          assert SameLetter(s[..|t|][i + 1], t[i + 1]);
        }
        assert SameLetter(s[..|t|][0], t[0]);
      }
      assert t[1..] == text;
    }
  }

  /** A star stands for any text. */
  lemma {:induction false} StarIff(loc: Locale, pat: string, s: string, fold: bool)
    ensures Matches(loc, "*" + pat, s, fold) <==> exists i :: 0 <= i <= |s| && Matches(loc, pat, s[i..], fold)
  {
    var star := "*" + pat;
    assert star[1..] == pat && s[0..] == s;
    if s != "" {
      StarIff(loc, pat, s[1..], fold);
      assert forall i :: 0 <= i <= |s[1..]| ==> s[1..][i..] == s[i + 1..];
      if Matches(loc, star, s[1..], fold) {
        var i :| 0 <= i <= |s[1..]| && Matches(loc, pat, s[1..][i..], fold);
        assert Matches(loc, pat, s[i + 1..], fold);
      }
      forall i | 0 < i <= |s| && Matches(loc, pat, s[i..], fold) ensures Matches(loc, star, s[1..], fold) {
        assert s[1..][i - 1..] == s[i..];
      }
    }
  }

  /** A question mark stands for any one character. */
  lemma QuestionIff(loc: Locale, pat: string, s: string, fold: bool)
    ensures Matches(loc, "?" + pat, s, fold) <==> s != "" && Matches(loc, pat, s[1..], fold)
  {
    assert ("?" + pat)[1..] == pat;
  }

  lemma {:induction false} StarMatches(loc: Locale, s: string, fold: bool)
    ensures Matches(loc, "*", s, fold)
  {
    assert "*"[1..] == "";
    if s != "" {
      StarMatches(loc, s[1..], fold);
    }
  }
}
