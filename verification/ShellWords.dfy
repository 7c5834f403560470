/**
  * The words of the Shell Command Language as a grammar (section 2.2, Quoting), and that
  * sh_lang_first_word reads exactly the first of them.
  */
module ShellWords {
  import opened CString
  import opened Shell

  /** What stands between double quotes. */
  datatype Part =
    | Char(c: char)       // neither a double quote nor a backslash
    | Escaped(c: char)    // a backslash that quotes c
    | Literal(c: char)    // a backslash that stands for itself, and c
    | Continued           // a backslash and a newline, which stand for nothing

  datatype Piece =
    | Bare(c: char)
    | Backslash(c: char)
    | LineJoin
    | SingleQuotes(text: string)
    | DoubleQuotes(parts: seq<Part>)

  predicate ValidPart(p: Part) {
    match p
    case Char(c) => c !in "\"\\"
    case Escaped(c) => c in "$`\"\\"
    case Literal(c) => c !in "$`\"\\\n"
    case Continued => true
  }

  predicate ValidPiece(p: Piece) {
    match p
    case Bare(c) => c !in "\\'\"\t \n#"
    case Backslash(c) => c != '\n'
    case LineJoin => true
    case SingleQuotes(text) => '\'' !in text
    case DoubleQuotes(parts) => forall i :: 0 <= i < |parts| ==> ValidPart(parts[i])
  }

  function PartText(p: Part): string {
    match p
    case Char(c) => [c]
    case Escaped(c) => ['\\', c]
    case Literal(c) => ['\\', c]
    case Continued => "\\\n"
  }

  function PartValue(p: Part): string {
    match p
    case Char(c) => [c]
    case Escaped(c) => [c]
    case Literal(c) => ['\\', c]
    case Continued => ""
  }

  function PartsText(parts: seq<Part>): string {
    if parts == [] then "" else PartText(parts[0]) + PartsText(parts[1..])
  }

  function PartsValue(parts: seq<Part>): string {
    if parts == [] then "" else PartValue(parts[0]) + PartsValue(parts[1..])
  }

  function PieceText(p: Piece): string {
    match p
    case Bare(c) => [c]
    case Backslash(c) => ['\\', c]
    case LineJoin => "\\\n"
    case SingleQuotes(text) => "'" + (text + "'")
    case DoubleQuotes(parts) => "\"" + (PartsText(parts) + "\"")
  }

  function PieceValue(p: Piece): string {
    match p
    case Bare(c) => [c]
    case Backslash(c) => [c]
    case LineJoin => ""
    case SingleQuotes(text) => text
    case DoubleQuotes(parts) => PartsValue(parts)
  }

  function TextOf(word: seq<Piece>): string {
    if word == [] then "" else PieceText(word[0]) + TextOf(word[1..])
  }

  function ValueOf(word: seq<Piece>): string {
    if word == [] then "" else PieceValue(word[0]) + ValueOf(word[1..])
  }

  predicate ValidWord(word: seq<Piece>) {
    forall i :: 0 <= i < |word| ==> ValidPiece(word[i])
  }

  /** What ends a word: nothing more, white space, a comment, or a backslash that nothing follows. */
  predicate EndsHere(rest: string) {
    rest == "" || rest == "\\" || rest[0] in "\t \n#"
  }

  lemma PrependTwice(a: string, b: string, w: Word)
    ensures Prepend(a, Prepend(b, w)) == Prepend(a + b, w)
  {
    AppendAssociative(a, b, w.text);
  }

  // The automaton reads the grammar

  lemma {:induction false} ReadSingle(text: string, rest: string)
    requires '\'' !in text
    ensures FirstWord(text + ("'" + rest), Single) == Prepend(text, FirstWord(rest, Plain))
  {
    var cmd := text + ("'" + rest);
    if text == "" {
      assert cmd == "'" + rest && cmd[1..] == rest;
      PrependEmpty(FirstWord(rest, Plain));
    } else {
      assert cmd[0] == text[0] && cmd[1..] == text[1..] + ("'" + rest);
      ReadSingle(text[1..], rest);
      PrependTwice([text[0]], text[1..], FirstWord(rest, Plain));
      assert text == [text[0]] + text[1..];
    }
  }

  lemma PrependEmpty(w: Word)
    ensures Prepend("", w) == w
  {
    assert "" + w.text == w.text;
  }

  lemma ReadPart(p: Part, rest: string)
    requires ValidPart(p)
    ensures FirstWord(PartText(p) + rest, Double) == Prepend(PartValue(p), FirstWord(rest, Double))
  {
    var cmd, w := PartText(p) + rest, FirstWord(rest, Double);
    match p {
      case Char(c) =>
        ReadChar(c, rest);
      case Escaped(c) =>
        assert cmd[0] == '\\' && cmd[1] == c && cmd[2..] == rest;
      case Literal(c) =>
        ReadLiteral(c, rest);
      case Continued =>
        assert cmd[0] == '\\' && cmd[1] == '\n' && cmd[2..] == rest;
        PrependEmpty(w);
    }
  }

  lemma ReadChar(c: char, rest: string)
    requires c != '"' && c != '\\'
    ensures FirstWord([c] + rest, Double) == Cons(c, FirstWord(rest, Double))
  {
    assert ([c] + rest)[1..] == rest;
  }

  lemma ReadLiteral(c: char, rest: string)
    requires ValidPart(Literal(c))
    ensures FirstWord(['\\', c] + rest, Double) == Prepend(['\\', c], FirstWord(rest, Double))
  {
    var cmd := ['\\', c] + rest;
    assert cmd[1] == c && cmd[1..] == [c] + rest;
    ReadChar(c, rest);
    assert ['\\'] + ([c] + FirstWord(rest, Double).text) == ['\\', c] + FirstWord(rest, Double).text;
  }

  lemma {:induction false} ReadDouble(parts: seq<Part>, rest: string)
    requires forall i :: 0 <= i < |parts| ==> ValidPart(parts[i])
    ensures FirstWord(PartsText(parts) + ("\"" + rest), Double) == Prepend(PartsValue(parts), FirstWord(rest, Plain))
  {
    hide ValidPart, PartText, PartValue, Prepend;
    if parts == [] {
      var cmd := "\"" + rest;
      assert PartsText(parts) + cmd == cmd && cmd[1..] == rest;
      PrependEmpty(FirstWord(rest, Plain));
    } else {
      var tail := PartsText(parts[1..]) + ("\"" + rest);
      AppendAssociative(PartText(parts[0]), PartsText(parts[1..]), "\"" + rest);
      ReadDouble(parts[1..], rest);
      ReadPart(parts[0], tail);
      PrependTwice(PartValue(parts[0]), PartsValue(parts[1..]), FirstWord(rest, Plain));
    }
  }

  lemma ReadQuote(rest: string, q: Quoting)
    requires !q.Plain?
    ensures FirstWord((if q.Single? then "'" else "\"") + rest, Plain) == FirstWord(rest, q)
  {
    assert ("'" + rest)[1..] == rest && ("\"" + rest)[1..] == rest;
  }

  lemma ReadPiece(p: Piece, rest: string)
    requires ValidPiece(p)
    ensures FirstWord(PieceText(p) + rest, Plain) == Prepend(PieceValue(p), FirstWord(rest, Plain))
  {
    var cmd := PieceText(p) + rest;
    match p {
      case Bare(c) =>
        assert cmd[0] == c && cmd[1..] == rest;
      case Backslash(c) =>
        assert cmd[0] == '\\' && cmd[1] == c && cmd[2..] == rest;
      case LineJoin =>
        assert cmd[0] == '\\' && cmd[1] == '\n' && cmd[2..] == rest;
        PrependEmpty(FirstWord(rest, Plain));
      case SingleQuotes(text) =>
        assert cmd == "'" + (text + ("'" + rest));
        ReadQuote(text + ("'" + rest), Single);
        ReadSingle(text, rest);
      case DoubleQuotes(parts) =>
        assert cmd == "\"" + (PartsText(parts) + ("\"" + rest));
        ReadQuote(PartsText(parts) + ("\"" + rest), Double);
        ReadDouble(parts, rest);
    }
  }

  lemma {:induction false} ReadWord(word: seq<Piece>, rest: string)
    requires ValidWord(word) && EndsHere(rest)
    ensures FirstWord(TextOf(word) + rest, Plain) == Word(ValueOf(word), false)
  {
    hide ValidPiece, PieceText, PieceValue, Prepend;
    if word == [] {
      assert TextOf(word) + rest == rest;
    } else {
      var tail := TextOf(word[1..]) + rest;
      AppendAssociative(PieceText(word[0]), TextOf(word[1..]), rest);
      ReadWord(word[1..], rest);
      ReadPiece(word[0], tail);
      PrependText(PieceValue(word[0]), ValueOf(word[1..]));
    }
  }

  lemma PrependText(a: string, b: string)
    ensures Prepend(a, Word(b, false)) == Word(a + b, false)
  {
  }

  // Everything the automaton reads is in the grammar

  lemma {:induction false} ParseSingle(cmd: string) returns (text: string, rest: string)
    requires !FirstWord(cmd, Single).unterminated
    ensures cmd == text + ("'" + rest) && '\'' !in text
  {
    if cmd[0] == '\'' {
      text, rest := "", cmd[1..];
    } else {
      var t;
      t, rest := ParseSingle(cmd[1..]);
      text := [cmd[0]] + t;
    }
    assert cmd == [cmd[0]] + cmd[1..];
  }

  lemma OpenBackslash()
    ensures FirstWord("\\", Double).unterminated
  {
    assert "\\"[1..] == "";
  }

  /** The first part of a text between double quotes that does not end at once. */
  lemma ParsePart(cmd: string) returns (p: Part, rest: string)
    requires !FirstWord(cmd, Double).unterminated && cmd != "" && cmd[0] != '"'
    ensures ValidPart(p) && cmd == PartText(p) + rest
    ensures |rest| < |cmd| && !FirstWord(rest, Double).unterminated
  {
    if cmd[0] != '\\' {
      p, rest := Char(cmd[0]), cmd[1..];
    } else {
      OpenBackslash();
      assert |cmd| == 1 ==> cmd == "\\";
      assert cmd[1..][1..] == cmd[2..];
      rest := cmd[2..];
      p := if cmd[1] in "$`\"\\" then Escaped(cmd[1]) else if cmd[1] == '\n' then Continued else Literal(cmd[1]);
    }
  }

  lemma {:induction false} ParseDouble(cmd: string) returns (parts: seq<Part>, rest: string)
    requires !FirstWord(cmd, Double).unterminated
    ensures cmd == PartsText(parts) + ("\"" + rest) && forall i :: 0 <= i < |parts| ==> ValidPart(parts[i])
    decreases |cmd|
  {
    hide ValidPart, PartText;
    if cmd[0] == '"' {
      parts, rest := [], cmd[1..];
      assert cmd == "" + ("\"" + rest);
    } else {
      var p, tail := ParsePart(cmd);
      var more;
      more, rest := ParseDouble(tail);
      parts := [p] + more;
      assert parts[1..] == more;
      AppendAssociative(PartText(p), PartsText(more), "\"" + rest);
    }
  }

  /** The first piece of a command whose word does not end at once. */
  lemma ParsePiece(cmd: string) returns (p: Piece, rest: string)
    requires !FirstWord(cmd, Plain).unterminated && !EndsHere(cmd)
    ensures ValidPiece(p) && cmd == PieceText(p) + rest && |rest| < |cmd|
  {
    if cmd[0] == '\\' {
      assert |cmd| > 1;
      p, rest := if cmd[1] == '\n' then LineJoin else Backslash(cmd[1]), cmd[2..];
    } else if cmd[0] == '\'' {
      var text;
      text, rest := ParseSingle(cmd[1..]);
      p := SingleQuotes(text);
      assert cmd == "'" + (text + ("'" + rest)) == PieceText(p) + rest;
    } else if cmd[0] == '"' {
      var parts;
      parts, rest := ParseDouble(cmd[1..]);
      p := DoubleQuotes(parts);
      assert cmd == "\"" + (PartsText(parts) + ("\"" + rest)) == PieceText(p) + rest;
    } else {
      p, rest := Bare(cmd[0]), cmd[1..];
    }
  }

  lemma {:induction false} ParseWord(cmd: string) returns (word: seq<Piece>, rest: string)
    requires !FirstWord(cmd, Plain).unterminated
    ensures ValidWord(word) && EndsHere(rest) && cmd == TextOf(word) + rest
    decreases |cmd|
  {
    hide FirstWord, ValidPiece, PieceText, EndsHere;
    if EndsHere(cmd) {
      word, rest := [], cmd;
      assert "" + cmd == cmd;
    } else {
      var p, tail := ParsePiece(cmd);
      ReadPiece(p, tail);
      SameEnd(PieceValue(p), FirstWord(tail, Plain));
      var more;
      more, rest := ParseWord(tail);
      word := [p] + more;
      assert word[1..] == more;
      AppendAssociative(PieceText(p), TextOf(more), rest);
    }
  }

  lemma SameEnd(a: string, w: Word)
    ensures Prepend(a, w).unterminated == w.unterminated
  {
  }

  /**
    * sh_lang_first_word answers w exactly for the commands that begin with a word of the grammar whose
    * value is w.
    */
  lemma WordIff(cmd: string, w: string)
    ensures FirstWord(cmd, Plain) == Word(w, false)
            <==> exists word, rest ::
                   ValidWord(word) && EndsHere(rest) && cmd == TextOf(word) + rest && ValueOf(word) == w
  {
    hide FirstWord, ValidWord, EndsHere, TextOf, ValueOf;
    if FirstWord(cmd, Plain) == Word(w, false) {
      var word, rest := ParseWord(cmd);
      ReadWord(word, rest);
    }
    forall word, rest | ValidWord(word) && EndsHere(rest) && cmd == TextOf(word) + rest
      ensures FirstWord(cmd, Plain) == Word(ValueOf(word), false)
    {
      ReadWord(word, rest);
    }
  }
}
