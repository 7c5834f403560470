/**
  * Searching directories: src/globbing.c, GNU layout.
  */
module Globbing {
  import opened Wrappers
  import opened CString
  import opened Fnmatch

  /** Names in strcasecmp order, as qsort leaves them. */
  ghost predicate SortedNames(names: seq<string>) {
    forall i, j :: 0 <= i < j < |names| ==> CaseCompare(names[i], names[j]) <= 0
  }

  /** The reference: every name that matches, in cache order. */
  function LinearSearch(loc: Locale, names: seq<string>, pattern: string, fold: bool): seq<string> {
    if names == [] then []
    else
      var rest := LinearSearch(loc, names[..|names| - 1], pattern, fold);
      var last := names[|names| - 1];
      if Matches(loc, pattern, last, fold) then rest + [last] else rest
  }

  /** pattern_compare */
  function PatternCompare(prefix: string, name: string): int {
    CaseCompareN(prefix, name, |prefix|)
  }

  lemma PatternCompareZero(prefix: string, name: string)
    ensures PatternCompare(prefix, name) == 0 <==> HasPrefix(prefix, name)
  {
    hide Compare, Lower;
    var n := |prefix|;
    assert Take(prefix, n) == prefix;
    CompareZero(Lower(prefix), Lower(Take(name, n)));
    if n <= |name| {
      LowerTake(name, n);
    }
  }

  /** Cutting two strings at the same length keeps their order. */
  lemma {:induction false} TakeMonotone(a: string, b: string, n: nat)
    requires Compare(a, b) <= 0
    ensures Compare(Take(a, n), Take(b, n)) <= 0
  {
    if n > 0 && a != "" && b != "" && a[0] == b[0] {
      TakeMonotone(a[1..], b[1..], n - 1);
      assert Take(a, n)[1..] == Take(a[1..], n - 1);
      assert Take(b, n)[1..] == Take(b[1..], n - 1);
    }
  }

  lemma LowerOfTake(s: string, n: nat)
    ensures Lower(Take(s, n)) == Take(Lower(s), n)
  {
    if n <= |s| {
      LowerTake(s, n);
    }
  }

  /** Along a sorted cache the comparison with the prefix only falls. */
  lemma PatternCompareMonotone(prefix: string, a: string, b: string)
    requires CaseCompare(a, b) <= 0
    ensures PatternCompare(prefix, a) < 0 ==> PatternCompare(prefix, b) < 0
    ensures PatternCompare(prefix, b) > 0 ==> PatternCompare(prefix, a) > 0
  {
    hide Compare, Lower, Take;
    var n := |prefix|;
    LowerOfTake(a, n);
    LowerOfTake(b, n);
    TakeMonotone(Lower(a), Lower(b), n);
    var p, x, y := Lower(Take(prefix, n)), Lower(Take(a, n)), Lower(Take(b, n));
    CompareZero(x, y);
    if Compare(p, x) < 0 && Compare(x, y) < 0 { LessTransitive(p, x, y); }
    CompareAntisymmetric(p, x);
    CompareAntisymmetric(p, y);
    CompareAntisymmetric(x, y);
    if Compare(x, y) < 0 && Compare(y, p) < 0 { LessTransitive(x, y, p); }
  }

  /** bsearch with pattern_compare: some name with the prefix, or None when there is none. */
  method Bsearch(prefix: string, names: seq<string>) returns (r: Option<nat>)
    requires SortedNames(names)
    ensures r.Some? ==> r.value < |names| && HasPrefix(prefix, names[r.value])
    ensures r.None? ==> forall i :: 0 <= i < |names| ==> !HasPrefix(prefix, names[i])
  {
    hide HasPrefix, PatternCompare, CaseCompare;
    var l, u := 0, |names|;
    while l < u
      invariant 0 <= l <= u <= |names|
      invariant forall i :: 0 <= i < l ==> PatternCompare(prefix, names[i]) > 0
      invariant forall i :: u <= i < |names| ==> PatternCompare(prefix, names[i]) < 0
    {
      var idx := (l + u) / 2;
      var cmp := PatternCompare(prefix, names[idx]);
      forall i | 0 <= i < |names| && i != idx
        ensures i < idx && cmp > 0 ==> PatternCompare(prefix, names[i]) > 0
        ensures idx < i && cmp < 0 ==> PatternCompare(prefix, names[i]) < 0
      {
        if i < idx { PatternCompareMonotone(prefix, names[i], names[idx]); }
        else { PatternCompareMonotone(prefix, names[idx], names[i]); }
      }
      if cmp < 0 {
        u := idx;
      } else if cmp > 0 {
        l := idx + 1;
      } else {
        PatternCompareZero(prefix, names[idx]);
        return Some(idx);
      }
    }
    forall i | 0 <= i < |names| ensures !HasPrefix(prefix, names[i]) {
      PatternCompareZero(prefix, names[i]);
    }
    return None;
  }

  /** The names with the prefix are neighbours. */
  lemma PrefixBlock(prefix: string, names: seq<string>, i: nat, j: nat, k: nat)
    requires SortedNames(names) && i <= j <= k < |names|
    requires HasPrefix(prefix, names[i]) && HasPrefix(prefix, names[k])
    ensures HasPrefix(prefix, names[j])
  {
    hide HasPrefix, PatternCompare, CaseCompare;
    PatternCompareZero(prefix, names[i]);
    PatternCompareZero(prefix, names[j]);
    PatternCompareZero(prefix, names[k]);
    if i < j < k {
      PatternCompareMonotone(prefix, names[i], names[j]);
      PatternCompareMonotone(prefix, names[j], names[k]);
    }
  }

  /** The names that both begin with the literal prefix and match: what the search can find. */
  function PrefixSearch(loc: Locale, names: seq<string>, pattern: string, fold: bool): seq<string> {
    if names == [] then []
    else
      var rest := PrefixSearch(loc, names[..|names| - 1], pattern, fold);
      var last := names[|names| - 1];
      if HasPrefix(LiteralPrefix(pattern), last) && Matches(loc, pattern, last, fold) then rest + [last] else rest
  }

  lemma {:induction false} PrefixSearchNothing(loc: Locale, names: seq<string>, pattern: string, fold: bool)
    requires forall i :: 0 <= i < |names| ==> !HasPrefix(LiteralPrefix(pattern), names[i])
    ensures PrefixSearch(loc, names, pattern, fold) == []
  {
    hide Matches, HasPrefix;
    if names != [] {
      PrefixSearchNothing(loc, names[..|names| - 1], pattern, fold);
    }
  }

  lemma {:induction false} PrefixSearchTail(loc: Locale, names: seq<string>, n: nat, pattern: string, fold: bool)
    requires n <= |names| && forall i :: n <= i < |names| ==> !HasPrefix(LiteralPrefix(pattern), names[i])
    ensures PrefixSearch(loc, names, pattern, fold) == PrefixSearch(loc, names[..n], pattern, fold)
  {
    hide Matches, HasPrefix;
    if n < |names| {
      PrefixSearchTail(loc, names[..|names| - 1], n, pattern, fold);
      assert names[..|names| - 1][..n] == names[..n];
    } else {
      assert names[..n] == names;
    }
  }

  lemma PrefixSearchStep(loc: Locale, names: seq<string>, i: nat, pattern: string, fold: bool)
    requires i < |names| && HasPrefix(LiteralPrefix(pattern), names[i])
    ensures PrefixSearch(loc, names[..i + 1], pattern, fold)
         == PrefixSearch(loc, names[..i], pattern, fold)
            + if Matches(loc, pattern, names[i], fold) then [names[i]] else []
  {
    hide HasPrefix, Matches, LiteralPrefix;
    assert names[..i + 1][..i] == names[..i];
  }

  lemma NoneBefore(prefix: string, names: seq<string>, start: nat)
    requires SortedNames(names) && start < |names| && HasPrefix(prefix, names[start])
    requires start > 0 ==> !HasPrefix(prefix, names[start - 1])
    ensures forall i :: 0 <= i < start ==> !HasPrefix(prefix, names[i])
  {
    hide HasPrefix, SortedNames;
    forall i | 0 <= i < start ensures !HasPrefix(prefix, names[i]) {
      if HasPrefix(prefix, names[i]) { PrefixBlock(prefix, names, i, start - 1, start); }
    }
  }

  lemma NoneAfter(prefix: string, names: seq<string>, start: nat, end: nat)
    requires SortedNames(names) && start <= end < |names|
    requires HasPrefix(prefix, names[start]) && !HasPrefix(prefix, names[end])
    ensures forall k :: end <= k < |names| ==> !HasPrefix(prefix, names[k])
  {
    hide HasPrefix, SortedNames;
    forall k | end <= k < |names| ensures !HasPrefix(prefix, names[k]) {
      if HasPrefix(prefix, names[k]) { PrefixBlock(prefix, names, start, end, k); }
    }
  }

  /**
    * match_wildcard_in_directory on the cached names: binary search for the literal prefix, back up
    * to the first name that has it, scan forward.  Returns the matched names without their path.
    */
  method MatchWildcard(loc: Locale, names: seq<string>, pattern: string, matchCase: bool) returns (matched: seq<string>)
    requires SortedNames(names)
    ensures matched == PrefixSearch(loc, names, pattern, !matchCase)
  {
    hide HasPrefix, Matches, LiteralPrefix, SortedNames, PatternCompare, PrefixSearch;
    var prefix := PatternStart(pattern);
    var found := Bsearch(prefix, names);
    if found.None? {
      PrefixSearchNothing(loc, names, pattern, !matchCase);
      return [];
    }
    var start: nat := found.value;
    while start > 0 && PatternCompare(prefix, names[start - 1]) == 0
      invariant 0 <= start < |names| && HasPrefix(prefix, names[start])
    {
      PatternCompareZero(prefix, names[start - 1]);
      start := start - 1;
    }
    if start > 0 {
      PatternCompareZero(prefix, names[start - 1]);
    }
    NoneBefore(prefix, names, start);
    PrefixSearchNothing(loc, names[..start], pattern, !matchCase);
    matched := [];
    var i := start;
    while i < |names|
      invariant start <= i <= |names| && (i == start || HasPrefix(prefix, names[i - 1]))
      invariant matched == PrefixSearch(loc, names[..i], pattern, !matchCase)
    {
      PatternCompareZero(prefix, names[i]);
      if PatternCompare(prefix, names[i]) != 0 {
        NoneAfter(prefix, names, start, i);
        PrefixSearchTail(loc, names, i, pattern, !matchCase);
        return matched;
      }
      PrefixSearchStep(loc, names, i, pattern, !matchCase);
      if Matches(loc, pattern, names[i], !matchCase) {
        matched := matched + [names[i]];
      }
      i := i + 1;
    }
    assert names[..i] == names;
  }

  /** xstrndup (pattern, strcspn (pattern, "?*{}\\")) */
  method PatternStart(pattern: string) returns (prefix: string)
    ensures prefix == LiteralPrefix(pattern)
    ensures prefix <= pattern && (forall c :: c in prefix ==> c !in "?*{}\\")
    ensures |prefix| < |pattern| ==> pattern[|prefix|] in "?*{}\\"
  {
    var n := 0;
    while n < |pattern| && !Stops(pattern[n])
      invariant 0 <= n <= |pattern|
      invariant forall c :: c in pattern[..n] ==> c !in "?*{}\\"
      invariant LiteralPrefix(pattern) == pattern[..n] + LiteralPrefix(pattern[n..])
    {
      assert pattern[n..][1..] == pattern[n + 1..];
      assert pattern[..n + 1] == pattern[..n] + [pattern[n]];
      n := n + 1;
    }
    prefix := pattern[..n];
  }

  /** Does the directory search find what the linear filter finds? */
  ghost predicate Complete(loc: Locale, pattern: string, fold: bool) {
    forall names :: SortedNames(names) ==>
      PrefixSearch(loc, names, pattern, fold) == LinearSearch(loc, names, pattern, fold)
  }

  lemma {:induction false} SearchesAgree(loc: Locale, names: seq<string>, pattern: string, fold: bool)
    requires forall s :: Matches(loc, pattern, s, fold) ==> HasPrefix(LiteralPrefix(pattern), s)
    ensures PrefixSearch(loc, names, pattern, fold) == LinearSearch(loc, names, pattern, fold)
  {
    hide Matches, HasPrefix;
    if names != [] {
      SearchesAgree(loc, names[..|names| - 1], pattern, fold);
    }
  }

  /** Do all names that the pattern can match begin with its literal prefix? */
  ghost predicate MatchesBeginLiterally(loc: Locale, pattern: string, fold: bool) {
    forall s :: Matches(loc, pattern, s, fold) ==> HasPrefix(LiteralPrefix(pattern), s)
  }

  /** It is enough to look at caches of one name. */
  lemma CompleteOnNames(loc: Locale, pattern: string, fold: bool)
    ensures Complete(loc, pattern, fold) <==> MatchesBeginLiterally(loc, pattern, fold)
  {
    hide Matches, HasPrefix, CaseCompare;
    if forall s :: Matches(loc, pattern, s, fold) ==> HasPrefix(LiteralPrefix(pattern), s) {
      forall names | SortedNames(names)
        ensures PrefixSearch(loc, names, pattern, fold) == LinearSearch(loc, names, pattern, fold)
      {
        SearchesAgree(loc, names, pattern, fold);
      }
    }
    if Complete(loc, pattern, fold) {
      forall s | Matches(loc, pattern, s, fold) ensures HasPrefix(LiteralPrefix(pattern), s) {
        OneName(loc, s, pattern, fold);
      }
    }
  }

  lemma OneName(loc: Locale, s: string, pattern: string, fold: bool)
    ensures SortedNames([s])
    ensures LinearSearch(loc, [s], pattern, fold) == if Matches(loc, pattern, s, fold) then [s] else []
    ensures PrefixSearch(loc, [s], pattern, fold)
         == if HasPrefix(LiteralPrefix(pattern), s) && Matches(loc, pattern, s, fold) then [s] else []
  {
    hide Matches, HasPrefix;
    assert [s][..0] == [];
  }

  /** Without a closed bracket expression in the literal prefix the search equals the linear filter. */
  lemma SearchIsFilter(loc: Locale, pattern: string, fold: bool)
    requires FirstClosed(loc, pattern, fold).None?
    ensures Complete(loc, pattern, fold)
  {
    hide Matches, HasPrefix, LiteralPrefix, FirstClosed;
    forall s | Matches(loc, pattern, s, fold) ensures HasPrefix(LiteralPrefix(pattern), s) {
      MatchHasLiteralPrefix(loc, pattern, s, fold);
    }
    CompleteOnNames(loc, pattern, fold);
  }

  /**
    * Can the expression in front of which '[' stands accept c, and the text behind it match t, so that
    * [c] + t does not begin with the literal text of the expression and what follows it?
    */
  predicate Escapes(loc: Locale, rest: string, c: char, n: nat, t: string, fold: bool) {
    && loc.bracket(rest, c, fold) == Some((true, n)) && n <= |rest|
    && Matches(loc, rest[n..], t, fold)
    && !HasPrefix("[" + LiteralPrefix(rest), [c] + t)
  }

  ghost predicate Escapable(loc: Locale, rest: string, fold: bool) {
    exists c, n, t :: Escapes(loc, rest, c, n, t, fold)
  }

  /** An expression that accepts something other than '[' can be escaped if the text behind it can match. */
  lemma OtherEscapes(loc: Locale, rest: string, c: char, n: nat, t: string, fold: bool)
    requires loc.bracket(rest, c, fold) == Some((true, n)) && n <= |rest| && ToLower(c) != '['
    requires Matches(loc, rest[n..], t, fold)
    ensures Escapes(loc, rest, c, n, t, fold)
  {
    hide Matches;
    HasPrefixCons('[', LiteralPrefix(rest), [c] + t);
  }

  /**
    * So can one that accepts '[', such as the one in [[]x*, if its text goes on with a literal character
    * and the pattern behind it ends, or goes on with another literal character or a wildcard.
    */
  lemma OpeningEscapes(loc: Locale, rest: string, n: nat, t: string, fold: bool)
    requires loc.bracket(rest, '[', fold) == Some((true, n)) && n <= |rest| && Matches(loc, rest[n..], t, fold)
    requires rest != "" && !Stops(rest[0])
    requires n < |rest| ==>
               || rest[n] == '?' || rest[n] == '*'
               || (!Stops(rest[n]) && rest[n] != '[' && ToLower(rest[n]) != ToLower(rest[0]))
    ensures Escapable(loc, rest, fold)
  {
    var u := if n < |rest| && (rest[n] == '?' || rest[n] == '*') then Diverted(rest[n..], rest[0], t) else t;
    if n < |rest| && rest[n] == '?' {
      assert u[1..] == t[1..];
    } else if n < |rest| && rest[n] == '*' {
      assert u[1..] == t;
    }
    assert ToLower('[') == '[' && (['['] + u)[1..] == u;
    HasPrefixCons('[', LiteralPrefix(rest), ['['] + u);
    FirstLiteral(rest, u);
    assert Escapes(loc, rest, '[', n, u, fold);
  }

  /** A character that is not c, not even up to case. */
  function Unlike(c: char): (d: char)
    ensures ToLower(d) != ToLower(c)
  {
    if c == '0' then '1' else '0'
  }

  /** A text for a wildcard that does not begin with c: t with its first character replaced, or one put in front. */
  function Diverted(pattern: string, c: char, t: string): string
    requires pattern != ""
  {
    if pattern[0] == '?' && t != "" then [Unlike(c)] + t[1..] else [Unlike(c)] + t
  }

  lemma FirstLiteral(rest: string, u: string)
    requires rest != "" && !Stops(rest[0]) && (u != "" ==> ToLower(u[0]) != ToLower(rest[0]))
    ensures !HasPrefix(LiteralPrefix(rest), u)
  {
    if u != "" {
      HasPrefixCons(rest[0], LiteralPrefix(rest[1..]), u);
    }
  }

  /** What escapes the expression is lost. */
  lemma BracketLoses(loc: Locale, pattern: string, i: nat, c: char, n: nat, t: string, fold: bool)
    requires FirstClosed(loc, pattern, fold) == Some(i) && Escapes(loc, pattern[i + 1..], c, n, t, fold)
    ensures Matches(loc, pattern, pattern[..i] + [c] + t, fold)
    ensures !Complete(loc, pattern, fold)
  {
    hide Escapes;
    BracketMatch(loc, pattern, i, c, n, t, fold);
    CompleteOnNames(loc, pattern, fold);
  }

  lemma {:induction false} BracketMatch(loc: Locale, pattern: string, i: nat, c: char, n: nat, t: string, fold: bool)
    requires FirstClosed(loc, pattern, fold) == Some(i) && Escapes(loc, pattern[i + 1..], c, n, t, fold)
    ensures Matches(loc, pattern, pattern[..i] + [c] + t, fold)
    ensures !HasPrefix(LiteralPrefix(pattern), pattern[..i] + [c] + t)
    decreases i
  {
    hide HasPrefix, Matches, LiteralPrefix, Escapes;
    var s := pattern[..i] + [c] + t;
    if i == 0 {
      assert s == [c] + t;
      BracketAtStart(loc, pattern, c, n, t, fold);
    } else {
      assert pattern[1..][i..] == pattern[i + 1..];
      BracketMatch(loc, pattern[1..], i - 1, c, n, t, fold);
      assert s[0] == pattern[0] && s[1..] == pattern[1..][..i - 1] + [c] + t;
      LiteralStep(loc, pattern, s, fold);
      HasPrefixCons(pattern[0], LiteralPrefix(pattern[1..]), s);
    }
  }

  lemma BracketAtStart(loc: Locale, pattern: string, c: char, n: nat, t: string, fold: bool)
    requires FirstClosed(loc, pattern, fold) == Some(0) && Escapes(loc, pattern[1..], c, n, t, fold)
    ensures Matches(loc, pattern, [c] + t, fold)
    ensures !HasPrefix(LiteralPrefix(pattern), [c] + t)
  {
    hide HasPrefix;
    var s := [c] + t;
    assert s[1..] == t && pattern[1 + n..] == pattern[1..][n..];
    assert LiteralPrefix(pattern) == "[" + LiteralPrefix(pattern[1..]);
  }

  /** A literal character in front of the first closed expression matches itself. */
  lemma LiteralStep(loc: Locale, pattern: string, s: string, fold: bool)
    requires FirstClosed(loc, pattern, fold).Some? && FirstClosed(loc, pattern, fold).value > 0
    requires s != "" && s[0] == pattern[0] && Matches(loc, pattern[1..], s[1..], fold)
    ensures Matches(loc, pattern, s, fold)
    ensures LiteralPrefix(pattern) == [pattern[0]] + LiteralPrefix(pattern[1..])
  {
  }

  /**
    * The binary search loses nothing, on every sorted cache, if and only if the literal prefix of the
    * pattern has no closed bracket expression; provided that the first such expression can be escaped.
    */
  lemma CompleteIff(loc: Locale, pattern: string, fold: bool)
    requires var i := FirstClosed(loc, pattern, fold); i.Some? ==> Escapable(loc, pattern[i.value + 1..], fold)
    ensures Complete(loc, pattern, fold) <==> FirstClosed(loc, pattern, fold).None?
  {
    hide Matches, FirstClosed, Complete, Escapes;
    var i := FirstClosed(loc, pattern, fold);
    if i.None? {
      SearchIsFilter(loc, pattern, fold);
    } else {
      var c, n, t :| Escapes(loc, pattern[i.value + 1..], c, n, t, fold);
      BracketLoses(loc, pattern, i.value, c, n, t, fold);
    }
  }

  /** A literal character in front changes nothing. */
  lemma DropLiteral(loc: Locale, pattern: string, fold: bool)
    requires FirstClosed(loc, pattern, fold).Some? && FirstClosed(loc, pattern, fold).value > 0
    ensures MatchesBeginLiterally(loc, pattern, fold) <==> MatchesBeginLiterally(loc, pattern[1..], fold)
  {
    hide HasPrefix;
    if MatchesBeginLiterally(loc, pattern, fold) {
      forall u | Matches(loc, pattern[1..], u, fold) ensures HasPrefix(LiteralPrefix(pattern[1..]), u) {
        var s := [pattern[0]] + u;
        assert s[1..] == u;
        assert Matches(loc, pattern, s, fold);
        HasPrefixCons(pattern[0], LiteralPrefix(pattern[1..]), s);
      }
    }
    if MatchesBeginLiterally(loc, pattern[1..], fold) {
      forall s | Matches(loc, pattern, s, fold) ensures HasPrefix(LiteralPrefix(pattern), s) {
        HasPrefixCons(pattern[0], LiteralPrefix(pattern[1..]), s);
      }
    }
  }

  lemma {:induction false} DropLiterals(loc: Locale, pattern: string, i: nat, fold: bool)
    requires FirstClosed(loc, pattern, fold) == Some(i)
    ensures MatchesBeginLiterally(loc, pattern, fold) <==> MatchesBeginLiterally(loc, pattern[i..], fold)
    decreases i
  {
    hide MatchesBeginLiterally;
    if i == 0 {
      assert pattern[0..] == pattern;
    } else {
      DropLiteral(loc, pattern, fold);
      DropLiterals(loc, pattern[1..], i - 1, fold);
      assert pattern[1..][i - 1..] == pattern[i..];
    }
  }

  /** Without any proviso: only the pattern from the first closed bracket expression on decides. */
  lemma CompleteFromBracket(loc: Locale, pattern: string, i: nat, fold: bool)
    requires FirstClosed(loc, pattern, fold) == Some(i)
    ensures Complete(loc, pattern, fold) <==> Complete(loc, pattern[i..], fold)
  {
    hide Matches, HasPrefix, FirstClosed, Complete, MatchesBeginLiterally;
    CompleteOnNames(loc, pattern, fold);
    CompleteOnNames(loc, pattern[i..], fold);
    DropLiterals(loc, pattern, i, fold);
  }
}
