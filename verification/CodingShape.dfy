/**
  * The encoding declaration of a line as a shape: what check_preprocessor_encoding reads, in terms of
  * positions in the line.
  */
module CodingShape {
  import opened Wrappers
  import opened CString
  import opened Manconv
  import opened Coding

  predicate Blanks(s: string, i: nat, j: nat) {
    i <= j <= |s| && forall k :: i <= k < j ==> s[k] == ' '
  }

  /** Does a coding: variable begin at s, with i where its name is? */
  predicate CodingVariable(text: string, s: nat, i: nat) {
    Blanks(text, s, i) && i + 7 <= |text| && text[i..i + 7] == "coding:"
  }

  /** The places where a variable can begin: the first, and behind every semicolon. */
  predicate VariableStart(text: string, q: nat, s: nat) {
    q <= s <= |text| && (s == q || text[s - 1] == ';')
  }

  /** No variable begins there that is the coding: variable, nor does the text end there. */
  ghost predicate OtherVariable(text: string, s: nat) {
    s < |text| && text[s] != '\0' && forall i: nat :: !CodingVariable(text, s, i)
  }

  /** Is the variable at s the first coding: variable from q on? */
  ghost predicate FirstCoding(text: string, q: nat, s: nat, i: nat) {
    && VariableStart(text, q, s) && s < |text| && text[s] != '\0' && CodingVariable(text, s, i)
    && forall t: nat :: t < s && VariableStart(text, q, t) ==> OtherVariable(text, t)
  }

  lemma CodingHead(text: string, s: nat, i: nat)
    requires CodingVariable(text, s, i)
    ensures CodingAt(text, i) && text[i] == 'c' && SkipSpaces(text, s) == i
  {
    assert text[i] == text[i..i + 7][0];
    SkipSpacesIs(text, s, i);
  }

  lemma CodingOrOther(text: string, q: nat)
    requires q < |text| && text[q] != '\0'
    ensures var i := SkipSpaces(text, q);
            if CodingAt(text, i) then CodingVariable(text, q, i) else OtherVariable(text, q)
  {
    hide CodingAt, CodingVariable;
    var i := SkipSpaces(text, q);
    forall j: nat ensures CodingVariable(text, q, j) ==> CodingAt(text, i) {
      if CodingVariable(text, q, j) { CodingHead(text, q, j); }
    }
    if CodingAt(text, i) { CodingHere(text, q, i); }
  }

  lemma CodingHere(text: string, q: nat, i: nat)
    requires Blanks(text, q, i) && CodingAt(text, i)
    ensures CodingVariable(text, q, i)
  {
  }

  /** Behind the first semicolon the search starts anew. */
  lemma StartsBehind(text: string, q: nat, semi: nat, next: nat, t: nat)
    requires q <= semi < |text| && text[semi] == ';' && next == semi + 1
    requires forall k :: q <= k < semi ==> text[k] != ';'
    ensures VariableStart(text, q, t) <==> t == q || VariableStart(text, next, t)
    ensures VariableStart(text, next, t) ==> t > q
  {
  }

  /** The semicolon that ends the variable at q. */
  lemma SemiFrom(text: string, q: nat)
    requires q <= |text|
    ensures FindChar(text, ';', SkipSpaces(text, q)) == FindChar(text, ';', q)
  {
    var i := SkipSpaces(text, q);
    FindSkips(text, q, i);
  }

  lemma {:induction false} FindSkips(text: string, q: nat, i: nat)
    requires Blanks(text, q, i)
    ensures FindChar(text, ';', i) == FindChar(text, ';', q)
    decreases i - q
  {
    if q < i { FindSkips(text, q + 1, i); }
  }

  /** The search finds the value of the first coding: variable. */
  lemma {:induction false} SearchIff(text: string, q: nat, p: nat)
    requires q <= |text|
    ensures Search(text, q) == Some(p)
            <==> exists s: nat, i: nat :: FirstCoding(text, q, s, i) && p == SkipSpaces(text, i + 7)
    decreases |text| - q
  {
    hide Search, SkipSpaces, CodingAt, CodingVariable, VariableStart, OtherVariable, FindChar;
    if q == |text| || text[q] == '\0' {
      SearchEnd(text, q);
      NoneFrom(text, q);
    } else {
      SearchUnfold(text, q);
      CodingOrOther(text, q);
      SemiFrom(text, q);
      var i := SkipSpaces(text, q);
      if CodingAt(text, i) {
        OnlyHere(text, q, i);
        assert FirstCoding(text, q, q, i);
      } else {
        var semi := FindChar(text, ';', q);
        if semi.None? {
          NoOther(text, q);
        } else {
          var next := semi.value + 1;
          SearchIff(text, next, p);
          OneFurther(text, q, semi.value, next);
        }
      }
    }
  }

  lemma NoneFrom(text: string, q: nat)
    requires q <= |text| && (q < |text| ==> text[q] == '\0')
    ensures forall s: nat, i: nat :: !FirstCoding(text, q, s, i)
  {
    assert VariableStart(text, q, q);
  }

  lemma OnlyHere(text: string, q: nat, i: nat)
    requires q < |text| && text[q] != '\0' && CodingVariable(text, q, i)
    ensures forall s: nat, j: nat :: FirstCoding(text, q, s, j) <==> s == q && j == i
  {
    hide CodingAt, CodingVariable;
    assert VariableStart(text, q, q);
    CodingHead(text, q, i);
    CodingFits(text, i);
    assert !OtherVariable(text, q);
    forall s: nat, j: nat ensures FirstCoding(text, q, s, j) <==> s == q && j == i {
      if FirstCoding(text, q, s, j) { CodingHead(text, s, j); }
    }
  }

  lemma NoOther(text: string, q: nat)
    requires q < |text| && text[q] != '\0' && OtherVariable(text, q) && FindChar(text, ';', q).None?
    ensures forall s: nat, i: nat :: !FirstCoding(text, q, s, i)
  {
    hide CodingVariable;
    forall s: nat, i: nat ensures !FirstCoding(text, q, s, i) {
      assert VariableStart(text, q, s) ==> s == q;
    }
  }

  lemma OneFurther(text: string, q: nat, semi: nat, next: nat)
    requires q < |text| && text[q] != '\0' && OtherVariable(text, q)
    requires FindChar(text, ';', q) == Some(semi) && next == semi + 1
    ensures forall s: nat, i: nat :: FirstCoding(text, q, s, i) <==> FirstCoding(text, next, s, i)
  {
    hide CodingVariable;
    forall t: nat
      ensures VariableStart(text, q, t) <==> t == q || VariableStart(text, next, t)
      ensures VariableStart(text, next, t) ==> t > q
    {
      StartsBehind(text, q, semi, next, t);
    }
  }

  /** The first characters of a declaration, a preprocessor cookie or a comment. */
  predicate Marked(line: string) {
    |line| >= 4 && (line[..4] == "'\\\" " || line[..4] == ".\\\" ")
  }

  predicate CookieAt(text: string, m: nat) {
    m + 3 <= |text| && text[m..m + 3] == "-*-"
  }

  /** Is m the first place from position 4 on where -*- stands? */
  predicate FirstCookie(text: string, m: nat) {
    4 <= m && CookieAt(text, m) && forall j: nat :: 4 <= j < m ==> !CookieAt(text, j)
  }

  predicate Allowed(c: char) {
    'a' <= c <= 'z' || 'A' <= c <= 'Z' || '0' <= c <= '9' || c in "-_/:.()"
  }

  /** The run of allowed characters from p, which may be empty. */
  predicate TokenAt(text: string, p: nat, e: nat) {
    p <= e <= |text| && (forall k :: p <= k < e ==> Allowed(text[k])) && (e < |text| ==> !Allowed(text[e]))
  }

  /**
    * Does the value of a declaration begin at p?  Behind the first -*-, at m, the first coding: variable
    * begins at s, with its name at i.
    */
  ghost predicate ValueAt(text: string, m: nat, s: nat, i: nat, p: nat) {
    && FirstCookie(text, m) && FirstCoding(text, m + 3, s, i)
    && Blanks(text, i + 7, p) && (p < |text| ==> text[p] != ' ')
  }

  /** The text, a line without its newline, declares the encoding that is written from p to e. */
  ghost predicate Declares(text: string, p: nat, e: nat) {
    Marked(text) && TokenAt(text, p, e) && exists m: nat, s: nat, i: nat :: ValueAt(text, m, s, i, p)
  }

  /** The line up to its newline. */
  predicate UpToNewline(line: string, text: string) {
    text <= line && '\n' !in text && (|text| < |line| ==> line[|text|] == '\n')
  }

  lemma TextIff(line: string, text: string)
    ensures Text(line) == text <==> UpToNewline(line, text)
  {
    if UpToNewline(line, text) {
      if |text| < |line| {
        assert line == text + ['\n'] + line[|text| + 1..];
        IndexOfFirst(text, '\n', line[|text| + 1..]);
      } else {
        assert line == text;
        IndexOfNone(text, '\n');
      }
    }
  }

  lemma MarkedIff(line: string)
    ensures IsDirective(line) <==> Marked(Text(line))
  {
    if IsDirective(line) {
      DirectiveText(line);
    }
    assert |Text(line)| >= 4 ==> Text(line)[..4] == line[..4];
  }

  lemma CookieIff(text: string, m: nat)
    requires |text| >= 4
    ensures Find(text, "-*-", 4) == Some(m) <==> FirstCookie(text, m)
  {
    hide CookieAt, Find;
    var found := Find(text, "-*-", 4);
    forall j: nat | j <= |text| ensures CookieAt(text, j) <==> "-*-" <= text[j..] {
      CookieHere(text, j);
    }
    if FirstCookie(text, m) {
      CookieFits(text, m);
      assert "-*-" <= text[m..];
    }
  }

  lemma CookieHere(text: string, j: nat)
    requires j <= |text|
    ensures CookieAt(text, j) <==> "-*-" <= text[j..]
  {
    if j + 3 <= |text| { assert text[j..][..3] == text[j..j + 3]; }
  }

  lemma CookieFits(text: string, m: nat)
    requires CookieAt(text, m)
    ensures m + 3 <= |text|
  {
  }

  lemma SkipSpacesIff(text: string, i: nat, p: nat)
    requires i <= |text|
    ensures SkipSpaces(text, i) == p <==> Blanks(text, i, p) && (p < |text| ==> text[p] != ' ')
  {
    if Blanks(text, i, p) && (p < |text| ==> text[p] != ' ') { SkipSpacesIs(text, i, p); }
  }

  lemma SpanIff(text: string, p: nat, e: nat)
    requires p <= |text|
    ensures Span(text, p) == e <==> TokenAt(text, p, e)
  {
    AllowedSame();
    if TokenAt(text, p, e) {
      assert forall k :: 0 <= k < e - p ==> text[p..e][k] == text[p + k];
      SpanIs(text, p, e);
    }
    var f := Span(text, p);
    assert forall k :: p <= k < f ==> text[k] == text[p..f][k - p];
  }

  lemma AllowedSame()
    ensures forall c :: IsAllowed(c) <==> Allowed(c)
  {
  }

  /** Where the search ends, for a marked text with a cookie. */
  lemma StartIff(text: string, q: nat, p: nat)
    requires q <= |text|
    ensures Search(text, q) == Some(p)
            <==> exists s: nat, i: nat ::
                   FirstCoding(text, q, s, i) && Blanks(text, i + 7, p) && (p < |text| ==> text[p] != ' ')
  {
    hide FirstCoding, Search, SkipSpaces, Blanks;
    SearchIff(text, q, p);
    forall s: nat, i: nat | FirstCoding(text, q, s, i)
      ensures i + 7 <= |text|
      ensures p == SkipSpaces(text, i + 7) <==> Blanks(text, i + 7, p) && (p < |text| ==> text[p] != ' ')
    {
      FirstCodingFits(text, q, s, i);
      SkipSpacesIff(text, i + 7, p);
    }
  }

  lemma FirstCodingFits(text: string, q: nat, s: nat, i: nat)
    requires FirstCoding(text, q, s, i)
    ensures i + 7 <= |text|
  {
  }

  lemma ValueIff(text: string, p: nat)
    requires |text| >= 4
    ensures (exists m: nat, s: nat, i: nat :: ValueAt(text, m, s, i, p))
            <==> var m := Find(text, "-*-", 4); m.Some? && m.value + 3 <= |text| && Search(text, m.value + 3) == Some(p)
  {
    hide FirstCoding, Search, Blanks, FirstCookie, Find;
    var found := Find(text, "-*-", 4);
    forall m: nat ensures found == Some(m) <==> FirstCookie(text, m) { CookieIff(text, m); }
    if found.Some? {
      CookieFrom(text, found.value);
      var q := found.value + 3;
      StartIff(text, q, p);
      if s: nat, i: nat :| FirstCoding(text, q, s, i) && Blanks(text, i + 7, p) && (p < |text| ==> text[p] != ' ') {
        assert ValueAt(text, found.value, s, i, p);
      }
    }
  }

  lemma CookieFrom(text: string, m: nat)
    requires FirstCookie(text, m)
    ensures m + 3 <= |text|
  {
  }

  /** check_preprocessor_encoding finds the token of exactly the lines of the declaring shape. */
  lemma DeclaresIff(line: string, p: nat, e: nat)
    ensures TokenStart(line) == Some(p) && TokenEnd(line) == e <==> Declares(Text(line), p, e)
  {
    hide Search, Text, IsDirective, Marked, TokenAt, Find, Span, ValueAt;
    var text := Text(line);
    MarkedIff(line);
    if Marked(text) {
      MarkedLength(text);
      ValueIff(text, p);
      TokenFits(text, p, e);
      if p <= |text| { SpanIff(text, p, e); }
    }
  }

  /**
    * The whole of check_preprocessor_encoding: the encoding of a declaring line is the conversion of the
    * token, and a line is rewritten exactly when the encoding differs from the target in more than case;
    * then nothing but the token changes.
    */
  lemma CheckIs(line: string, text: string, p: nat, e: nat, to: string)
    requires UpToNewline(line, text) && Declares(text, p, e)
    ensures p <= e <= |text| && Declared(line) == Some(Convert(text[p..e]))
    ensures Rewrites(line, to) <==> !SameLetters(Convert(text[p..e]), to)
    ensures TokenStart(line).Some? && Replaced(line, to) == text[..p] + to + text[e..] + "\n"
  {
    hide Convert, Declares, TokenStart, TokenEnd, UpToNewline, Lower, Text, CaseCompare;
    TextIff(line, text);
    DeclaresIff(line, p, e);
    CaseCompareZero(Convert(text[p..e]), to);
    SameLettersIff(Convert(text[p..e]), to);
  }

  /** Any other line declares nothing and is not rewritten. */
  lemma CheckIsNot(line: string, text: string, to: string)
    requires UpToNewline(line, text) && forall p: nat, e: nat :: !Declares(text, p, e)
    ensures Declared(line) == None && !Rewrites(line, to)
  {
    hide Convert, Declares, TokenStart, TokenEnd, UpToNewline, Text;
    TextIff(line, text);
    if TokenStart(line).Some? {
      DeclaresIff(line, TokenStart(line).value, TokenEnd(line));
    }
  }

  lemma TokenFits(text: string, p: nat, e: nat)
    ensures TokenAt(text, p, e) ==> p <= |text|
  {
  }

  lemma MarkedLength(text: string)
    requires Marked(text)
    ensures |text| >= 4
  {
  }
}
