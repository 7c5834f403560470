/**
  * Shell quoting: lib/util.c escape_shell and src/man.c sh_lang_first_word.
  */
module Shell {
  import opened Wrappers

  predicate IsAlnum(c: char) {
    '0' <= c <= '9' || 'A' <= c <= 'Z' || 'a' <= c <= 'z'
  }

  /** The characters escape_shell copies as they are. */
  predicate IsSafe(c: char) {
    IsAlnum(c) || c in ",-./:@_"
  }

  function EscapeChar(c: char): string {
    if IsSafe(c) then [c] else ['\\', c]
  }

  /** What escape_shell makes of a string. */
  function Escape(s: string): string {
    if s == "" then "" else EscapeChar(s[0]) + Escape(s[1..])
  }

  /** The strings that need no quoting: letters, digits and seven more bytes. */
  lemma {:induction false} EscapeKeepsIff(s: string)
    ensures |Escape(s)| >= |s|
    ensures Escape(s) == s
            <==> forall c :: c in s ==> 'a' <= c <= 'z' || 'A' <= c <= 'Z' || '0' <= c <= '9' || c in ",-./:@_"
  {
    if s != "" {
      EscapeKeepsIff(s[1..]);
      assert s == [s[0]] + s[1..];
      assert IsSafe(s[0]) ==> Escape(s)[1..] == Escape(s[1..]);
      assert !IsSafe(s[0]) ==> |Escape(s)| > |s|;
    }
  }

  lemma {:induction false} EscapeAppend(s: string, c: char)
    ensures Escape(s + [c]) == Escape(s) + EscapeChar(c)
  {
    if s == "" {
      assert "" + [c] == [c];
      assert EscapeChar(c) + Escape("") == EscapeChar(c);
    } else {
      assert (s + [c])[1..] == s[1..] + [c];
      EscapeAppend(s[1..], c);
      assert EscapeChar(s[0]) + (Escape(s[1..]) + EscapeChar(c)) == Escape(s) + EscapeChar(c);
    }
  }

  /** escape_shell: fills a buffer of twice the length and one byte, which it never leaves. */
  method EscapeShell(unesc: Option<string>) returns (r: Option<string>)
    ensures r.Some? <==> unesc.Some?
    ensures r.Some? ==> r.value == Escape(unesc.value)
  {
    if unesc.None? {
      return None;
    }
    var s := unesc.value;
    var esc := new char[|s| * 2 + 1](_ => '\0');
    var escp := 0;
    for i := 0 to |s|
      invariant escp == |Escape(s[..i])| <= 2 * i
      invariant esc[..escp] == Escape(s[..i])
    {
      assert s[..i + 1] == s[..i] + [s[i]];
      EscapeAppend(s[..i], s[i]);
      if IsSafe(s[i]) {
        esc[escp] := s[i];
        escp := escp + 1;
      } else {
        esc[escp] := '\\';
        escp := escp + 1;
        esc[escp] := s[i];
        escp := escp + 1;
      }
    }
    assert s[..|s|] == s;
    esc[escp] := '\0';
    return Some(esc[..escp]);
  }

  /** How the shell reads text: outside quotes, or inside one of the two kinds. */
  datatype Quoting = Plain | Single | Double

  predicate EndsWord(c: char) {
    c == '\t' || c == ' ' || c == '\n' || c == '#'
  }

  /** The characters a backslash quotes between double quotes. */
  predicate DoubleEscapes(c: char) {
    c == '$' || c == '`' || c == '"' || c == '\\'
  }

  /** The first word of the rest of a command, and whether a quote is left open at the end of the text. */
  datatype Word = Word(text: string, unterminated: bool)

  function Cons(c: char, w: Word): Word {
    Word([c] + w.text, w.unterminated)
  }

  /**
    * The quoting rules as an automaton that reads one construct at a time
    * (Shell Command Language, section 2.2).
    */
  function FirstWord(cmd: string, q: Quoting): Word
    decreases |cmd|
  {
    match q
    case Plain =>
      if cmd == "" || EndsWord(cmd[0]) then Word("", false)
      else if cmd[0] == '\\' then
        if |cmd| == 1 then Word("", false)
        else if cmd[1] == '\n' then FirstWord(cmd[2..], Plain)
        else Cons(cmd[1], FirstWord(cmd[2..], Plain))
      else if cmd[0] == '\'' then FirstWord(cmd[1..], Single)
      else if cmd[0] == '"' then FirstWord(cmd[1..], Double)
      else Cons(cmd[0], FirstWord(cmd[1..], Plain))
    case Single =>
      if cmd == "" then Word("", true)
      else if cmd[0] == '\'' then FirstWord(cmd[1..], Plain)
      else Cons(cmd[0], FirstWord(cmd[1..], Single))
    case Double =>
      if cmd == "" then Word("", true)
      else if cmd[0] == '"' then FirstWord(cmd[1..], Plain)
      else if cmd[0] == '\\' && |cmd| > 1 && DoubleEscapes(cmd[1]) then Cons(cmd[1], FirstWord(cmd[2..], Double))
      else if cmd[0] == '\\' && |cmd| > 1 && cmd[1] == '\n' then FirstWord(cmd[2..], Double)
      else Cons(cmd[0], FirstWord(cmd[1..], Double))
  }

  /** cmd[i] of a C string: the terminating NUL is one more byte. */
  function ByteAt(cmd: string, i: nat): char
    requires i <= |cmd|
  {
    if i < |cmd| then cmd[i] else '\0'
  }

  function Prepend(text: string, w: Word): Word {
    Word(text + w.text, w.unterminated)
  }

  lemma PrependCons(text: string, c: char, w: Word)
    ensures Prepend(text, Cons(c, w)) == Prepend(text + [c], w)
  {
    assert text + ([c] + w.text) == text + [c] + w.text;
  }

  /** One plain character, or one quoted by a backslash. */
  lemma PlainStep(cmd: string, i: nat, text: string)
    requires i < |cmd|
    ensures cmd[i] == '\\' && i + 1 < |cmd| ==>
              Prepend(text, FirstWord(cmd[i..], Plain))
              == Prepend(if cmd[i + 1] == '\n' then text else text + [cmd[i + 1]], FirstWord(cmd[i + 2..], Plain))
    ensures cmd[i] == '\\' && i + 1 == |cmd| ==> Prepend(text, FirstWord(cmd[i..], Plain)) == Word(text, false)
    ensures EndsWord(cmd[i]) ==> Prepend(text, FirstWord(cmd[i..], Plain)) == Word(text, false)
    ensures cmd[i] == '\'' ==> FirstWord(cmd[i..], Plain) == FirstWord(cmd[i + 1..], Single)
    ensures cmd[i] == '"' ==> FirstWord(cmd[i..], Plain) == FirstWord(cmd[i + 1..], Double)
    ensures cmd[i] != '\\' && cmd[i] != '\'' && cmd[i] != '"' && !EndsWord(cmd[i]) ==>
              Prepend(text, FirstWord(cmd[i..], Plain)) == Prepend(text + [cmd[i]], FirstWord(cmd[i + 1..], Plain))
  {
    var rest := cmd[i..];
    assert rest[1..] == cmd[i + 1..];
    assert text + "" == text;
    PrependCons(text, cmd[i], FirstWord(cmd[i + 1..], Plain));
    if i + 1 < |cmd| {
      assert rest[2..] == cmd[i + 2..];
      PrependCons(text, cmd[i + 1], FirstWord(cmd[i + 2..], Plain));
    }
  }

  /** What one turn of the double-quote loop copies, and how many bytes it takes. */
  function DoubleToken(cmd: string, i: nat): (string, nat)
    requires i < |cmd|
  {
    if cmd[i] == '\\' && DoubleEscapes(ByteAt(cmd, i + 1)) then ([cmd[i + 1]], 2)
    else if cmd[i] == '\\' && ByteAt(cmd, i + 1) == '\n' then ("", 2)
    else ([cmd[i]], 1)
  }

  lemma DoubleStep(cmd: string, i: nat, text: string)
    requires i < |cmd| && cmd[i] != '"'
    ensures var (token, n) := DoubleToken(cmd, i);
            && i + n <= |cmd|
            && Prepend(text, FirstWord(cmd[i..], Double)) == Prepend(text + token, FirstWord(cmd[i + n..], Double))
  {
    var rest := cmd[i..];
    assert rest[1..] == cmd[i + 1..];
    PrependCons(text, cmd[i], FirstWord(cmd[i + 1..], Double));
    assert text + "" == text;
    if i + 1 < |cmd| {
      assert rest[2..] == cmd[i + 2..];
      PrependCons(text, cmd[i + 1], FirstWord(cmd[i + 2..], Double));
    }
  }

  lemma SingleStep(cmd: string, i: nat, text: string)
    requires i < |cmd| && cmd[i] != '\''
    ensures Prepend(text, FirstWord(cmd[i..], Single)) == Prepend(text + [cmd[i]], FirstWord(cmd[i + 1..], Single))
  {
    assert cmd[i..][1..] == cmd[i + 1..];
    PrependCons(text, cmd[i], FirstWord(cmd[i + 1..], Single));
  }

  /** A quote is left at its closing character or at the end of the text. */
  lemma QuoteEnd(cmd: string, i: nat, q: Quoting, text: string)
    requires i <= |cmd| && !q.Plain? && (i < |cmd| ==> cmd[i] == if q.Single? then '\'' else '"')
    ensures Prepend(text, FirstWord(cmd[i..], q))
         == if i < |cmd| then Prepend(text, FirstWord(cmd[i + 1..], Plain)) else Word(text, true)
  {
    if i < |cmd| {
      assert cmd[i..][1..] == cmd[i + 1..];
    } else {
      assert cmd[i..] == "" && text + "" == text;
    }
  }

  /**
    * sh_lang_first_word.  Unless a quote is left open it stays inside both buffers and returns the first
    * word.  With an open quote the outer loop steps over the terminating NUL and reads on behind the
    * buffer; the model stops there with None.
    */
  method ShLangFirstWord(cmd: string) returns (r: Option<string>)
    requires '\0' !in cmd  // a C string
    ensures var w := FirstWord(cmd, Plain);
            r == if w.unterminated then None else Some(w.text)
  {
    hide FirstWord, Prepend;
    var i, o := 0, 0;
    var ret := new char[|cmd| + 1](_ => '\0');
    PrependNothing(cmd);
    while ByteAt(cmd, i) != '\0'
      invariant 0 <= o <= i <= |cmd|
      invariant FirstWord(cmd, Plain) == Prepend(ret[..o], FirstWord(cmd[i..], Plain))
      decreases |cmd| - i
    {
      var c := cmd[i];
      PlainStep(cmd, i, ret[..o]);
      if c == '\\' {
        i := i + 1;
        if ByteAt(cmd, i) == '\0' {
          ret[o] := '\0';
          return Some(ret[..o]);
        }
        if cmd[i] != '\n' {
          ret[o] := cmd[i];
          assert ret[..o + 1] == ret[..o] + [cmd[i]];
          o := o + 1;
        }
      } else if c == '\'' {
        i := i + 1;
        i, o := CopyQuoted(cmd, i, ret, o, Single);
      } else if c == '"' {
        i := i + 1;
        i, o := CopyQuoted(cmd, i, ret, o, Double);
      } else if c == '\t' || c == ' ' || c == '\n' || c == '#' {
        ret[o] := '\0';
        return Some(ret[..o]);
      } else {
        ret[o] := c;
        assert ret[..o + 1] == ret[..o] + [c];
        o := o + 1;
      }
      if i == |cmd| {
        return None;  // the outer loop would read beyond the NUL
      }
      i := i + 1;
    }
    EndOfText(cmd, i, ret[..o]);
    ret[o] := '\0';
    return Some(ret[..o]);
  }

  /** A single quote alone leaves the buffer: the scan of the quoted text ends on the NUL. */
  lemma OpenQuote()
    ensures FirstWord("'", Plain).unterminated && !FirstWord("''", Plain).unterminated
  {
    assert "'"[1..] == "" && "''"[1..] == "'" && "''"[2..] == "";
  }

  lemma PrependNothing(cmd: string)
    ensures Prepend("", FirstWord(cmd[0..], Plain)) == FirstWord(cmd, Plain)
  {
    var w := FirstWord(cmd, Plain);
    assert cmd[0..] == cmd && "" + w.text == w.text;
  }

  lemma EndOfText(cmd: string, i: nat, text: string)
    requires i == |cmd|
    ensures Prepend(text, FirstWord(cmd[i..], Plain)) == Word(text, false)
  {
    assert cmd[i..] == "" && text + "" == text;
  }

  /** The loop inside single or double quotes: ends on the closing quote or on the NUL. */
  method CopyQuoted(cmd: string, start: nat, ret: array<char>, o0: nat, q: Quoting) returns (i: nat, o: nat)
    requires '\0' !in cmd && o0 < start <= |cmd| < ret.Length && !q.Plain?
    modifies ret
    ensures start <= i <= |cmd| && o0 <= o < i + 1
    ensures Prepend(old(ret[..o0]), FirstWord(cmd[start..], q))
         == if i < |cmd| then Prepend(ret[..o], FirstWord(cmd[i + 1..], Plain)) else Word(ret[..o], true)
  {
    hide FirstWord, Prepend;
    i, o := start, o0;
    var close := if q.Single? then '\'' else '"';
    while ByteAt(cmd, i) != '\0' && ByteAt(cmd, i) != close
      invariant start <= i <= |cmd| && o0 <= o < i
      invariant Prepend(old(ret[..o0]), FirstWord(cmd[start..], q)) == Prepend(ret[..o], FirstWord(cmd[i..], q))
      decreases |cmd| - i
    {
      ghost var text := ret[..o];
      if q.Single? {
        SingleStep(cmd, i, text);
        ret[o] := cmd[i];
        assert ret[..o + 1] == text + [cmd[i]];
        o := o + 1;
      } else {
        DoubleStep(cmd, i, text);
        if cmd[i] == '\\' {
          if DoubleEscapes(ByteAt(cmd, i + 1)) {
            i := i + 1;
            ret[o] := cmd[i];
            assert ret[..o + 1] == text + [cmd[i]];
            o := o + 1;
          } else if ByteAt(cmd, i + 1) == '\n' {
            i := i + 1;
            assert text + "" == text;
          } else {
            ret[o] := cmd[i];
            assert ret[..o + 1] == text + [cmd[i]];
            o := o + 1;
          }
        } else {
          ret[o] := cmd[i];
          assert ret[..o + 1] == text + [cmd[i]];
          o := o + 1;
        }
      }
      i := i + 1;
    }
    QuoteEnd(cmd, i, q, ret[..o]);
  }

  /**
    * Reading an escaped string leaves no quote open and loses newlines only: the shell drops a
    * backslash and the newline behind it.
    */
  lemma {:induction false} QuotingLosesNewlines(s: string)
    ensures FirstWord(Escape(s), Plain) == Word(DropNewlines(s), false)
  {
    if s != "" {
      QuotingLosesNewlines(s[1..]);
      var e := Escape(s);
      if IsSafe(s[0]) {
        assert e[1..] == Escape(s[1..]);
      } else {
        assert e[2..] == Escape(s[1..]);
      }
    }
  }

  function DropNewlines(s: string): string {
    if s == "" then "" else if s[0] == '\n' then DropNewlines(s[1..]) else [s[0]] + DropNewlines(s[1..])
  }

  lemma {:induction false} DropNewlinesLength(s: string)
    ensures |DropNewlines(s)| <= |s|
    ensures DropNewlines(s) == s <==> '\n' !in s
  {
    if s != "" {
      DropNewlinesLength(s[1..]);
      assert s == [s[0]] + s[1..];
    }
  }

  /** The round trip holds exactly for the strings without a newline. */
  lemma QuotingRoundTripIff(s: string)
    ensures FirstWord(Escape(s), Plain) == Word(s, false) <==> '\n' !in s
  {
    QuotingLosesNewlines(s);
    DropNewlinesLength(s);
  }
}
