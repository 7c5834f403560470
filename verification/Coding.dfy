/**
  * The encoding declaration on the first line of a page: src/manconv.c check_preprocessor_encoding.
  */
module Coding {
  import opened Wrappers
  import opened CString
  import opened Manconv

  /** PP_COOKIE, or the comment marker that is taken for it. */
  predicate IsDirective(line: string) {
    Take(line, 4) == "'\\\" " || Take(line, 4) == ".\\\" "
  }

  predicate IsAllowed(c: char) {
    'A' <= c <= 'Z' || 'a' <= c <= 'z' || '0' <= c <= '9' || c in "-_/:.()"
  }

  predicate AllAllowed(s: string) {
    forall i :: 0 <= i < |s| ==> IsAllowed(s[i])
  }

  function SkipSpaces(s: string, i: nat): (j: nat)
    requires i <= |s|
    ensures i <= j <= |s|
    ensures forall k :: i <= k < j ==> s[k] == ' '
    ensures j < |s| ==> s[j] != ' '
    decreases |s| - i
  {
    if i < |s| && s[i] == ' ' then SkipSpaces(s, i + 1) else i
  }

  /** strspn: where the allowed characters from i on end. */
  function Span(s: string, i: nat): (j: nat)
    requires i <= |s|
    ensures i <= j <= |s|
    ensures AllAllowed(s[i..j])
    ensures j < |s| ==> !IsAllowed(s[j])
    decreases |s| - i
  {
    if i < |s| && IsAllowed(s[i]) then
      var j := Span(s, i + 1);
      assert s[i..j] == [s[i]] + s[i + 1..j];
      j
    else i
  }

  /** memchr: the first c at or after i. */
  function FindChar(s: string, c: char, i: nat): (r: Option<nat>)
    requires i <= |s|
    ensures r.Some? ==> i <= r.value < |s| && s[r.value] == c
    ensures forall k :: i <= k < (if r.Some? then r.value else |s|) ==> s[k] != c
    decreases |s| - i
  {
    if i == |s| then None else if s[i] == c then Some(i) else FindChar(s, c, i + 1)
  }

  predicate CodingAt(text: string, q: nat) {
    q + 7 <= |text| && text[q..q + 7] == "coding:"
  }

  /** Where the value of the first coding: variable at or after q begins. */
  function Search(text: string, q: nat): (r: Option<nat>)
    requires q <= |text|
    ensures r.Some? ==> q + 7 <= r.value <= |text|
    decreases |text| - q
  {
    if q == |text| || text[q] == '\0' then None
    else
      var i := SkipSpaces(text, q);
      if CodingAt(text, i) then Some(SkipSpaces(text, i + 7))
      else
        var semi := FindChar(text, ';', i);
        if semi.None? then None else Search(text, semi.value + 1)
  }

  /** The line up to its newline. */
  function Text(line: string): string {
    line[..IndexOf(line, '\n')]
  }

  lemma DirectiveText(line: string)
    requires IsDirective(line)
    ensures |Text(line)| >= 4 && Text(line)[..4] == line[..4]
  {
    assert forall i :: 0 <= i < 4 ==> line[i] == Take(line, 4)[i] && line[i] != '\n';
  }

  /** Where the encoding token of a line begins; None when the line declares no encoding. */
  function TokenStart(line: string): (r: Option<nat>)
    ensures r.Some? ==> r.value <= |Text(line)|
  {
    var text := Text(line);
    if !IsDirective(line) then None
    else
      DirectiveText(line);
      var cookie := Find(text, "-*-", 4);
      if cookie.None? then None else Search(text, cookie.value + 3)
  }

  function TokenEnd(line: string): (e: nat)
    requires TokenStart(line).Some?
    ensures TokenStart(line).value <= e <= |Text(line)|
  {
    Span(Text(line), TokenStart(line).value)
  }

  /** The encoding a line declares. */
  function Declared(line: string): Option<string> {
    if TokenStart(line).None? then None
    else Some(Convert(Text(line)[TokenStart(line).value..TokenEnd(line)]))
  }

  /** The line declaring another encoding; all text outside the token is kept. */
  function Replaced(line: string, to: string): string
    requires TokenStart(line).Some?
  {
    Text(line)[..TokenStart(line).value] + to + Text(line)[TokenEnd(line)..] + "\n"
  }

  /** Is a modified line asked for? */
  predicate Rewrites(line: string, to: string) {
    Declared(line).Some? && CaseCompare(Declared(line).value, to) != 0
  }

  // Reading the modified line

  lemma {:induction false} SkipSpacesIs(s: string, i: nat, j: nat)
    requires i <= j <= |s| && (forall k :: i <= k < j ==> s[k] == ' ')
    ensures SkipSpaces(s, i) == SkipSpaces(s, j)
    decreases j - i
  {
    if i < j { SkipSpacesIs(s, i + 1, j); }
  }

  lemma {:induction false} FindCharIs(s: string, c: char, i: nat, r: nat)
    requires i <= r < |s| && s[r] == c && (forall k :: i <= k < r ==> s[k] != c)
    ensures FindChar(s, c, i) == Some(r)
    decreases r - i
  {
    if i < r { FindCharIs(s, c, i + 1, r); }
  }

  predicate SamePrefix(t: string, u: string, p: nat) {
    p <= |t| && p <= |u| && forall i :: 0 <= i < p ==> t[i] == u[i]
  }

  lemma CodingAtSame(t: string, u: string, p: nat, i: nat)
    requires SamePrefix(t, u, p) && i + 7 <= p
    ensures CodingAt(t, i) == CodingAt(u, i)
  {
    assert t[i..i + 7] == u[i..i + 7];
  }

  /** The search for the coding: variable looks no further than the token it finds. */
  lemma {:induction false} SearchPrefix(t: string, u: string, q: nat, p: nat)
    requires q <= |t| && q <= |u| && Search(t, q) == Some(p) && SamePrefix(t, u, p)
    ensures Search(u, q) == Some(SkipSpaces(u, p))
    decreases |t| - q
  {
    hide CodingAt, SkipSpaces, FindChar;
    var i := SkipSpaces(t, q);
    if CodingAt(t, i) {
      CodingAtHead(t, i);
      CodingAtSame(t, u, p, i);
      SearchHere(u, q, i, p);
    } else {
      var semi := FindChar(t, ';', i).value;
      SearchPrefix(t, u, semi + 1, p);
      CodingAtSame(t, u, p, i);
      SearchOn(u, q, i, semi);
    }
  }

  lemma SearchHere(text: string, q: nat, i: nat, p: nat)
    requires q <= i && i + 7 <= p <= |text| && CodingAt(text, i) && text[q] != '\0'
    requires (forall k :: q <= k < i ==> text[k] == ' ') && (forall k :: i + 7 <= k < p ==> text[k] == ' ')
    ensures Search(text, q) == Some(SkipSpaces(text, p))
  {
    hide CodingAt;
    CodingAtHead(text, i);
    SkipSpacesIs(text, q, i);
    SkipSpacesIs(text, i + 7, p);
  }

  lemma SearchOn(text: string, q: nat, i: nat, semi: nat)
    requires q <= i <= semi < |text| && text[q] != '\0' && !CodingAt(text, i)
    requires (forall k :: q <= k < i ==> text[k] == ' ') && text[i] != ' '
    requires (forall k :: i <= k < semi ==> text[k] != ';') && text[semi] == ';'
    ensures Search(text, q) == Search(text, semi + 1)
  {
    hide CodingAt;
    SkipSpacesIs(text, q, i);
    FindCharIs(text, ';', i, semi);
  }

  lemma CodingAtHead(t: string, i: nat)
    requires CodingAt(t, i)
    ensures t[i] == 'c'
  {
    assert t[i..i + 7][0] == t[i];
  }

  lemma {:induction false} FindPrefix(t: string, u: string, p: nat, cookie: string, i: nat, m: nat)
    requires i <= |t| && i <= |u| && Find(t, cookie, i) == Some(m)
    requires m + |cookie| <= p && SamePrefix(t, u, p) && cookie != ""
    ensures Find(u, cookie, i) == Some(m)
    decreases m - i
  {
    hide SamePrefix;
    SamePrefixShort(t, u, p);
    StartsSame(t, u, p, cookie, i);
    if i < m { FindPrefix(t, u, p, cookie, i + 1, m); }
  }

  lemma SamePrefixShort(t: string, u: string, p: nat)
    requires SamePrefix(t, u, p)
    ensures p <= |t| && p <= |u|
  {
  }

  lemma StartsSame(t: string, u: string, p: nat, cookie: string, j: nat)
    requires SamePrefix(t, u, p) && j + |cookie| <= p
    ensures cookie <= u[j..] <==> cookie <= t[j..]
  {
    assert u[j..][..|cookie|] == t[j..][..|cookie|];
  }

  lemma {:induction false} SpanIs(s: string, i: nat, j: nat)
    requires i <= j <= |s| && AllAllowed(s[i..j]) && (j < |s| ==> !IsAllowed(s[j]))
    ensures Span(s, i) == j
    decreases j - i
  {
    if i < j {
      assert s[i] == s[i..j][0];
      assert s[i + 1..j] == s[i..j][1..];
      SpanIs(s, i + 1, j);
    }
  }

  /** A modified line is a directive whose token begins where the old one did, or at the next non-blank. */
  lemma ReplacedStart(line: string, to: string)
    requires TokenStart(line).Some? && '\n' !in to
    ensures var text, p := Text(line), TokenStart(line).value;
            var u := text[..p] + to + text[TokenEnd(line)..];
            Text(Replaced(line, to)) == u && TokenStart(Replaced(line, to)) == Some(SkipSpaces(u, p))
  {
    hide Search, TokenEnd, IsDirective;
    var text, p := Text(line), TokenStart(line).value;
    var u := text[..p] + to + text[TokenEnd(line)..];
    var l := Replaced(line, to);
    assert '\n' !in u;
    IndexOfFirst(u, '\n', "");
    assert l == u + ['\n'] + "";
    assert Text(l) == u;
    DirectiveText(line);
    assert SamePrefix(text, u, p);
    var m := Find(text, "-*-", 4).value;
    FindPrefix(text, u, p, "-*-", 4, m);
    SearchPrefix(text, u, m + 3, p);
    assert l[..4] == line[..4];
    DirectiveSame(line, l);
  }

  lemma DirectiveSame(a: string, b: string)
    requires |a| >= 4 && |b| >= 4 && a[..4] == b[..4]
    ensures IsDirective(a) == IsDirective(b)
  {
  }

  /** Reading a modified line declares exactly the encoding written into it. */
  lemma ReadBack(line: string, to: string)
    requires TokenStart(line).Some? && AllAllowed(to) && to != ""
    ensures var l := Replaced(line, to);
            && TokenStart(l) == TokenStart(line) && TokenEnd(l) == TokenStart(line).value + |to|
            && Declared(l) == Some(Convert(to))
  {
    hide TokenStart, Convert, TokenEnd;
    var text, p := Text(line), TokenStart(line).value;
    var u := text[..p] + to + text[TokenEnd(line)..];
    ReplacedStart(line, to);
    assert u[p] == to[0];
    TokenEndIs(line);
    TokenEndIs(Replaced(line, to));
    assert u[p..p + |to|] == to;
    SpanIs(u, p, p + |to|);
  }

  lemma TokenEndIs(line: string)
    requires TokenStart(line).Some?
    ensures TokenEnd(line) == Span(Text(line), TokenStart(line).value)
  {
  }

  /** The token. */
  function Token(line: string): string
    requires TokenStart(line).Some?
  {
    Text(line)[TokenStart(line).value..TokenEnd(line)]
  }

  /** Nothing outside the token is lost: writing the old token back gives the old line, with a newline. */
  lemma RewriteBack(line: string, to: string)
    requires TokenStart(line).Some? && AllAllowed(to) && to != ""
    ensures TokenStart(Replaced(line, to)).Some?
    ensures Replaced(Replaced(line, to), Token(line)) == Text(line) + "\n"
  {
    hide TokenStart, TokenEnd, Convert;
    var text, p, e := Text(line), TokenStart(line).value, TokenEnd(line);
    var u := text[..p] + to + text[e..];
    ReadBack(line, to);
    ReplacedText(line, to);
    assert u[..p] == text[..p] && u[p + |to|..] == text[e..];
    assert text == text[..p] + text[p..e] + text[e..];
  }

  lemma ReplacedText(line: string, to: string)
    requires TokenStart(line).Some? && '\n' !in to
    ensures Text(Replaced(line, to)) == Text(line)[..TokenStart(line).value] + to + Text(line)[TokenEnd(line)..]
  {
    ReplacedStart(line, to);
  }

  /** The token that comes to stand where the old one stood when nothing is written for it. */
  function NextToken(line: string): string
    requires TokenStart(line).Some?
  {
    var i := SkipSpaces(Text(line), TokenEnd(line));
    Text(line)[i..Span(Text(line), i)]
  }

  lemma {:induction false} SkipSpacesShift(s: string, t: string, i: nat, j: nat)
    requires i <= |s| && j <= |t| && s[i..] == t[j..]
    ensures SkipSpaces(s, i) - i == SkipSpaces(t, j) - j
    ensures s[SkipSpaces(s, i)..] == t[SkipSpaces(t, j)..]
    decreases |s| - i
  {
    assert i < |s| ==> s[i] == s[i..][0];
    assert j < |t| ==> t[j] == t[j..][0];
    if i < |s| && s[i] == ' ' {
      assert s[i + 1..] == s[i..][1..] && t[j + 1..] == t[j..][1..];
      SkipSpacesShift(s, t, i + 1, j + 1);
    }
  }

  lemma SpanShift(s: string, t: string, i: nat, j: nat)
    requires i <= |s| && j <= |t| && s[i..] == t[j..]
    ensures s[i..Span(s, i)] == t[j..Span(t, j)]
  {
    var e := Span(s, i);
    var f := j + (e - i);
    assert s[i..][..e - i] == s[i..e] && t[j..][..e - i] == t[j..f];
    assert f < |t| ==> t[f] == t[j..][e - i] && s[e] == s[i..][e - i];
    SpanIs(t, j, f);
  }

  lemma ReadBackEmpty(line: string)
    requires TokenStart(line).Some?
    ensures Declared(Replaced(line, "")) == Some(Convert(NextToken(line)))
  {
    hide TokenStart, Convert, TokenEnd, Span, SkipSpaces;
    var text, p, e := Text(line), TokenStart(line).value, TokenEnd(line);
    var u := text[..p] + "" + text[e..];
    ReplacedStart(line, "");
    TokenEndIs(Replaced(line, ""));
    assert u[p..] == text[e..];
    SkipSpacesShift(u, text, p, e);
    SpanShift(u, text, SkipSpaces(u, p), SkipSpaces(text, e));
  }

  /** Does reading the modified line give the target and ask for no further modification? */
  predicate Settles(line: string, to: string)
    requires TokenStart(line).Some?
  {
    Declared(Replaced(line, to)) == Some(to) && !Rewrites(Replaced(line, to), to)
  }

  /**
    * For targets that are encoding names and that convert_encoding leaves alone, one rewrite settles
    * the line exactly when the target is not empty or no other token moves into its place.
    */
  lemma SettlesIff(line: string, to: string)
    requires TokenStart(line).Some? && AllAllowed(to)
    ensures Convert(to) == to ==> (Settles(line, to) <==> to != "" || NextToken(line) == "")
  {
    hide TokenStart, Convert, Replaced, NextToken;
    CaseCompareZero(to, to);
    if to != "" {
      ReadBack(line, to);
    } else {
      ReadBackEmpty(line);
      ConvertEmpty(NextToken(line));
    }
  }

  lemma FindHere(s: string, t: string, i: nat)
    requires i + |t| <= |s| && s[i..i + |t|] == t
    ensures Find(s, t, i) == Some(i)
  {
    assert s[i..][..|t|] == t;
  }

  lemma SkipSpacesHere(s: string, i: nat)
    requires i < |s| && s[i] != ' '
    ensures SkipSpaces(s, i) == i
  {
  }

  function Example(): string {
    "'\\\" -*-coding:a b"
  }

  lemma CodingHere(text: string, q: nat)
    requires q + 7 <= |text| && forall k :: 0 <= k < 7 ==> text[q + k] == "coding:"[k]
    ensures CodingAt(text, q)
  {
    assert text[q..q + 7] == "coding:";
  }

  lemma ExampleStart()
    ensures TokenStart(Example()) == Some(14) && Text(Example()) == Example()
  {
    hide Search, Find, SkipSpaces, IndexOf;
    var line := Example();
    IndexOfNone(line, '\n');
    assert line[..|line|] == line;
    assert line[4..7] == "-*-";
    FindHere(line, "-*-", 4);
    CodingHere(line, 7);
    SearchHere(line, 7, 7, 14);
    SkipSpacesHere(line, 14);
  }

  /** An empty target need not settle: the declared encoding becomes the word that follows. */
  lemma EmptyTargetFails()
    ensures TokenStart(Example()).Some? && !Settles(Example(), "")
  {
    hide Convert, Settles, TokenStart, Text, Span, SkipSpaces;
    var line := Example();
    ExampleStart();
    SpanIs(line, 14, 15);
    SkipSpacesIs(line, 15, 16);
    SkipSpacesHere(line, 16);
    SpanIs(line, 16, 17);
    TokenEndIs(line);
    ConvertEmpty("");
    SettlesIff(line, "");
  }

  // The code

  lemma TextAt(line: string)
    ensures var text := Text(line);
            && |text| <= |line| && '\n' !in text && (|text| < |line| ==> line[|text|] == '\n')
            && forall i :: 0 <= i < |text| ==> text[i] == line[i]
  {
  }

  /** No comparison with coding: runs past the newline. */
  lemma CodingInText(line: string, q: nat)
    requires q <= |Text(line)|
    ensures CodingAt(Text(line), q) <==> Take(line[q..], 7) == "coding:"
  {
    TextAt(line);
    var text := Text(line);
    if Take(line[q..], 7) == "coding:" {
      assert forall k :: 0 <= k < 7 ==> line[q + k] == Take(line[q..], 7)[k] && line[q + k] != '\n';
      assert q + 7 <= |text|;
      assert text[q..q + 7] == Take(line[q..], 7);
    }
    if CodingAt(text, q) {
      assert text[q..q + 7] == Take(line[q..], 7);
    }
  }

  lemma SpanInText(line: string, q: nat)
    requires q <= |Text(line)|
    ensures Span(line, q) == Span(Text(line), q)
  {
    hide Text;
    TextAt(line);
    var text := Text(line);
    var e := Span(text, q);
    assert line[q..e] == text[q..e];
    SpanIs(line, q, e);
  }

  /** xstrndup */
  method Strndup(s: string, i: nat, n: nat) returns (copy: array<char>)
    requires i + n <= |s|
    ensures fresh(copy) && copy[..] == s[i..i + n] + ['\0']
  {
    copy := new char[n + 1];
    for k := 0 to n
      invariant copy[..k] == s[i..i + k]
    {
      copy[k] := s[i + k];
    }
    copy[n] := '\0';
  }

  /** One turn of the search. */
  lemma SearchUnfold(text: string, q: nat)
    requires q < |text| && text[q] != '\0'
    ensures var i := SkipSpaces(text, q);
            && (CodingAt(text, i) ==> i + 7 <= |text| && Search(text, q) == Some(SkipSpaces(text, i + 7)))
            && (!CodingAt(text, i) ==>
                  var semi := FindChar(text, ';', i);
                  Search(text, q) == if semi.None? then None else Search(text, semi.value + 1))
  {
    hide SkipSpaces, FindChar;
  }

  lemma SearchEnd(text: string, q: nat)
    requires q <= |text| && (q < |text| ==> text[q] == '\0')
    ensures Search(text, q) == None
  {
  }

  /** The loops over the variables of the -*- line, with pp_search as a position. */
  method SearchCoding(line: string, directiveEnd: nat, start: nat) returns (r: Option<nat>)
    requires directiveEnd == |Text(line)| && start <= directiveEnd
    ensures r == Search(Text(line), start)
  {
    hide Text, CodingAt, SkipSpaces, FindChar, Search, Take;
    ghost var text := Text(line);
    TextAt(line);
    assert line[..directiveEnd] == text;
    var ppSearch := start;
    while ppSearch < directiveEnd && line[ppSearch] != '\0'
      invariant ppSearch <= directiveEnd
      invariant Search(text, start) == Search(text, ppSearch)
      decreases directiveEnd - ppSearch
    {
      SearchUnfold(text, ppSearch);
      ppSearch := SkipBlanks(line, text, ppSearch);
      CodingInText(line, ppSearch);
      if Take(line[ppSearch..], 7) == "coding:" {
        CodingFits(text, ppSearch);
        ppSearch := SkipBlanks(line, text, ppSearch + 7);
        return Some(ppSearch);
      }
      var semicolon := FindChar(line[..directiveEnd], ';', ppSearch);
      if semicolon.None? {
        return None;
      }
      ppSearch := semicolon.value + 1;
    }
    SearchEnd(text, ppSearch);
    return None;
  }

  lemma CodingFits(text: string, q: nat)
    requires CodingAt(text, q)
    ensures q + 7 <= |text|
  {
  }

  /** while (*pp_search == ' ') ++pp_search; */
  method SkipBlanks(line: string, ghost text: string, start: nat) returns (ppSearch: nat)
    requires start <= |text| <= |line| && (|text| < |line| ==> line[|text|] == '\n')
    requires forall i :: 0 <= i < |text| ==> text[i] == line[i]
    ensures ppSearch == SkipSpaces(text, start)
  {
    ppSearch := start;
    while ppSearch < |line| && line[ppSearch] == ' '
      invariant ppSearch <= |text|
      invariant SkipSpaces(text, start) == SkipSpaces(text, ppSearch)
    {
      ppSearch := ppSearch + 1;
    }
  }

  lemma AllowedIsNoNul(s: string)
    requires AllAllowed(s)
    ensures '\0' !in s
  {
  }

  /** The part of check_preprocessor_encoding that looks for the token. */
  method FindToken(line: string) returns (ppSearch: Option<nat>)
    ensures ppSearch == TokenStart(line)
  {
    hide Find, Search;
    if !IsDirective(line) {
      return None;
    }
    DirectiveText(line);
    var directiveEnd := IndexOf(line, '\n');
    var cookie := Find(line[..directiveEnd], "-*-", 4);
    if cookie.None? {
      return None;
    }
    ppSearch := SearchCoding(line, directiveEnd, cookie.value + 3);
  }

  /** The token copied and converted. */
  method ConvertToken(line: string, ppSearch: nat, ppEncodingLen: nat) returns (encoding: string)
    requires ppSearch + ppEncodingLen <= |line| && AllAllowed(line[ppSearch..ppSearch + ppEncodingLen])
    ensures encoding == Convert(line[ppSearch..ppSearch + ppEncodingLen])
  {
    hide Convert, StringAt;
    var token := line[ppSearch..ppSearch + ppEncodingLen];
    var copy := Strndup(line, ppSearch, ppEncodingLen);
    AllowedIsNoNul(token);
    StringAtIs(copy[..], 0, token);
    encoding := ConvertEncoding(copy);
  }

  lemma TextSlices(line: string, p: nat, e: nat)
    requires p <= e <= |Text(line)|
    ensures line[..p] == Text(line)[..p] && line[p..e] == Text(line)[p..e]
    ensures line[e..|Text(line)|] == Text(line)[e..]
  {
    var n := |Text(line)|;
    assert line[..n] == Text(line);
    assert line[..n][..p] == line[..p] && line[..n][p..e] == line[p..e] && line[..n][e..] == line[e..n];
  }

  /**
    * check_preprocessor_encoding: the declared encoding, and the modified line when a target is given
    * that the declared encoding does not match.
    */
  method CheckPreprocessorEncoding(peek: Option<string>, to: Option<string>)
    returns (encoding: Option<string>, modified: Option<string>)
    ensures encoding == if peek.None? then None else Declared(peek.value)
    ensures modified == if peek.Some? && to.Some? && Rewrites(peek.value, to.value)
                        then Some(Replaced(peek.value, to.value)) else None
  {
    hide Convert, TokenStart, CaseCompare, Text, Span;
    encoding, modified := None, None;
    if peek.None? {
      return;
    }
    var line := peek.value;
    var ppSearch := FindToken(line);
    if ppSearch.None? {
      return;
    }
    var p := ppSearch.value;
    TextAt(line);
    SpanInText(line, p);
    var ppEncodingLen := Span(line, p) - p;
    TextSlices(line, p, p + ppEncodingLen);
    var converted := ConvertToken(line, p, ppEncodingLen);
    encoding := Some(converted);
    if to.Some? && CaseCompare(converted, to.value) != 0 {
      var directiveEnd := EndOfDirective(line);
      modified := Some(line[..p] + to.value + line[p + ppEncodingLen..directiveEnd] + "\n");
    }
  }

  function EndOfDirective(line: string): (n: nat)
    ensures n == |Text(line)|
  {
    IndexOf(line, '\n')
  }
}
