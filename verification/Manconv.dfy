/**
  * Encoding declarations: src/manconv.c convert_encoding and check_preprocessor_encoding.
  */
module Manconv {
  import opened Wrappers
  import opened CString

  function Conversions(): seq<(string, string)> {
    [
      ("chinese-big5", "Big5"), ("chinese-euc", "GB2312"), ("chinese-iso-8bit", "GB2312"),
      ("cn-gb-2312", "GB2312"), ("cp878", "KOI8-R"), ("cyrillic-iso-8bit", "ISO-8859-5"),
      ("cyrillic-koi8", "KOI8-R"), ("euc-china", "GB2312"), ("euc-japan", "EUC-JP"),
      ("euc-japan-1990", "EUC-JP"), ("euc-kr", "EUC-KR"), ("greek-iso-8bit", "ISO-8859-7"),
      ("iso-latin-1", "ISO-8859-1"), ("iso-latin-2", "ISO-8859-2"), ("iso-latin-5", "ISO-8859-9"),
      ("iso-latin-7", "ISO-8859-13"), ("iso-latin-9", "ISO-8859-15"), ("japanese-iso-8bit", "EUC-JP"),
      ("japanese-euc", "EUC-JP"), ("jis8", "EUC-JP"), ("korean-euc", "EUC-KR"), ("korean-iso-8bit", "EUC-KR"),
      ("latin-0", "ISO-8859-15"), ("latin-1", "ISO-8859-1"), ("latin-2", "ISO-8859-2"),
      ("latin-5", "ISO-8859-9"), ("latin-7", "ISO-8859-13"), ("mule-utf-16", "UTF-16"),
      ("mule-utf-16be", "UTF-16BE"), ("mule-utf-16-be", "UTF-16BE"), ("mule-utf-16be-with-signature", "UTF-16"),
      ("mule-utf-16le", "UTF-16LE"), ("mule-utf-16-le", "UTF-16LE"), ("mule-utf-16le-with-signature", "UTF-16"),
      ("mule-utf-8", "UTF-8"), ("utf-16-be", "UTF-16BE"), ("utf-16be-with-signature", "UTF-16"),
      ("utf-16-be-with-signature", "UTF-16"), ("utf-16-le", "UTF-16LE"), ("utf-16le-with-signature", "UTF-16"),
      ("utf-16-le-with-signature", "UTF-16")
    ]
  }

  /** The first table entry for the encoding, compared without case. */
  function LookUp(table: seq<(string, string)>, encoding: string): Option<string> {
    if table == [] then None
    else if CaseCompare(table[0].0, encoding) == 0 then Some(table[0].1)
    else LookUp(table[1..], encoding)
  }

  /** Does a non-empty string go before the suffix? */
  predicate HasSuffix(s: string, suffix: string) {
    |s| > |suffix| && Lower(s[|s| - |suffix|..]) == suffix
  }

  /** An encoding name without its Emacs end-of-line suffix. */
  function Stem(encoding: string): string {
    if HasSuffix(encoding, "-dos") || HasSuffix(encoding, "-mac") then encoding[..|encoding| - 4]
    else if HasSuffix(encoding, "-unix") then encoding[..|encoding| - 5]
    else encoding
  }

  function Convert(encoding: string): string {
    var found := LookUp(Conversions(), Stem(encoding));
    if found.Some? then found.value else Stem(encoding)
  }

  /** The string that begins at position i of a buffer. */
  function StringAt(buf: seq<char>, i: nat): string
    requires i <= |buf|
  {
    buf[i..][..IndexOf(buf[i..], '\0')]
  }

  /** Does STRIP cut this buffer? */
  predicate Strips(buf: seq<char>, len: nat, suffix: string)
    requires len < |buf|
  {
    len > |suffix| && CaseCompare(StringAt(buf, len - |suffix|), suffix) == 0
  }

  /** What STRIP leaves in a buffer. */
  function Stripped(buf: seq<char>, len: nat, suffix: string): (r: seq<char>)
    requires len < |buf|
    ensures |r| == |buf|
  {
    if Strips(buf, len, suffix) then buf[len - |suffix| := '\0'] else buf
  }

  method Strip(buf: array<char>, len: nat, suffix: string)
    requires len < buf.Length
    modifies buf
    ensures buf[..] == Stripped(old(buf[..]), len, suffix)
  {
    if len > |suffix| && CaseCompare(StringAt(buf[..], len - |suffix|), suffix) == 0 {
      buf[len - |suffix|] := '\0';
    }
  }

  lemma StringAtIs(buf: seq<char>, i: nat, s: string)
    requires i + |s| < |buf| && '\0' !in s && buf[i..i + |s|] == s && buf[i + |s|] == '\0'
    ensures StringAt(buf, i) == s
  {
    IndexOfFirst(s, '\0', buf[i + |s| + 1..]);
    assert buf[i..] == s + ['\0'] + buf[i + |s| + 1..];
  }

  lemma CaseCompareZero(a: string, b: string)
    ensures CaseCompare(a, b) == 0 <==> Lower(a) == Lower(b)
  {
    CompareZero(Lower(a), Lower(b));
  }

  lemma TailHeld(buf: seq<char>, s: string, i: nat)
    requires Holds(buf, s) && i <= |s|
    ensures StringAt(buf, i) == s[i..]
  {
    hide StringAt;
    assert buf[i..i + |s[i..]|] == buf[..|s|][i..];
    StringAtIs(buf, i, s[i..]);
  }

  lemma CutHeld(buf: seq<char>, s: string, i: nat)
    requires Holds(buf, s) && i <= |s|
    ensures StringAt(buf[i := '\0'], 0) == s[..i]
  {
    hide StringAt;
    assert buf[i := '\0'][0..i] == buf[..|s|][..i];
    StringAtIs(buf[i := '\0'], 0, s[..i]);
  }

  lemma SuffixesAreLower()
    ensures Lower("-dos") == "-dos" && Lower("-mac") == "-mac" && Lower("-unix") == "-unix"
  {
    hide Lower;
    LowerFixed("-dos");
    LowerFixed("-mac");
    LowerFixed("-unix");
  }

  /** STRIP on a whole string. */
  lemma StripWhole(buf: seq<char>, encoding: string, suffix: string)
    requires Holds(buf, encoding) && Lower(suffix) == suffix && '\0' !in suffix
    ensures Strips(buf, |encoding|, suffix) <==> HasSuffix(encoding, suffix)
  {
    hide StringAt, Lower, CaseCompare, Holds;
    var n, l := |encoding|, |suffix|;
    if n > l {
      TailHeld(buf, encoding, n - l);
      CaseCompareZero(encoding[n - l..], suffix);
    }
  }

  /** STRIP where an earlier one has already cut. */
  lemma StripCut(buf: seq<char>, n: nat, cut: nat, suffix: string)
    requires cut < n < |buf| && buf[cut] == '\0' && n <= cut + |suffix|
    ensures !Strips(buf, n, suffix)
  {
    if n > |suffix| {
      var i := n - |suffix|;
      IndexOfAtMost(buf[i..], '\0', cut - i);
      CaseCompareZero(StringAt(buf, i), suffix);
    }
  }

  /** The buffer holds the string. */
  ghost predicate Holds(buf: seq<char>, s: string) {
    |s| < |buf| && '\0' !in s && buf[..|s|] == s && buf[|s|] == '\0'
  }

  /** The first STRIP that applies leaves nothing for the others. */
  lemma StrippedOnce(buf: seq<char>, encoding: string)
    requires Holds(buf, encoding)
    ensures var n := |encoding|;
            StringAt(Stripped(Stripped(Stripped(buf, n, "-dos"), n, "-mac"), n, "-unix"), 0) == Stem(encoding)
  {
    hide Strips, StringAt, Lower;
    var n := |encoding|;
    SuffixesAreLower();
    StripWhole(buf, encoding, "-dos");
    StripWhole(buf, encoding, "-mac");
    StripWhole(buf, encoding, "-unix");
    TailHeld(buf, encoding, 0);
    if HasSuffix(encoding, "-dos") || HasSuffix(encoding, "-mac") {
      var cut := buf[n - 4 := '\0'];
      CutHeld(buf, encoding, n - 4);
      StripCut(cut, n, n - 4, "-mac");
      StripCut(cut, n, n - 4, "-unix");
    } else if HasSuffix(encoding, "-unix") {
      CutHeld(buf, encoding, n - 5);
    }
  }

  /**
    * convert_encoding cuts the string in its buffer in place; it answers with the table's name or with
    * the string it has cut.
    */
  method ConvertEncoding(encoding: array<char>) returns (r: string)
    requires '\0' in encoding[..]
    modifies encoding
    ensures r == Convert(StringAt(old(encoding[..]), 0))
  {
    hide Conversions, Stripped, Strips;
    ghost var buf := encoding[..];
    ghost var name := StringAt(buf, 0);
    HoldsString(buf);
    var len := IndexOf(encoding[..], '\0');
    Strip(encoding, len, "-dos");
    Strip(encoding, len, "-mac");
    Strip(encoding, len, "-unix");
    StrippedOnce(buf, name);
    var stem := StringAt(encoding[..], 0);
    var table := Conversions();
    for i := 0 to |table|
      invariant LookUp(table, stem) == LookUp(table[i..], stem)
    {
      if CaseCompare(table[i].0, stem) == 0 {
        return table[i].1;
      }
      assert table[i..][1..] == table[i + 1..];
    }
    return stem;
  }

  lemma HoldsString(buf: seq<char>)
    requires '\0' in buf
    ensures Holds(buf, StringAt(buf, 0)) && |StringAt(buf, 0)| == IndexOf(buf, '\0')
  {
    assert buf[0..] == buf;
    assert buf[..|buf|] == buf;
  }

  /** The end-of-line suffixes of Emacs, in any case. */
  predicate EolSuffix(s: string) {
    SameLetters(s, "-dos") || SameLetters(s, "-mac") || SameLetters(s, "-unix")
  }

  /** What is left of a name without its suffix; a suffix alone is a name. */
  ghost predicate StemOf(encoding: string, stem: string) {
    || (stem != "" && exists s :: EolSuffix(s) && encoding == stem + s)
    || (stem == encoding && forall n, s :: n != "" && EolSuffix(s) ==> encoding != n + s)
  }

  lemma HasSuffixIff(n: string, s: string, suffix: string)
    requires Lower(suffix) == suffix && |s| == |suffix|
    ensures HasSuffix(n + s, suffix) <==> n != "" && SameLetters(s, suffix)
  {
    hide Lower, SameLetters;
    assert (n + s)[|n|..] == s;
    SameLettersIff(s, suffix);
  }

  /** A name ends in one of the suffixes at most. */
  lemma StemCut(n: string, s: string)
    requires n != "" && EolSuffix(s)
    ensures Stem(n + s) == n
  {
    hide Lower;
    SuffixesAreLower();
    var e := n + s;
    assert e[..|n|] == n;
    if |s| == 4 {
      HasSuffixIff(n, s, "-dos");
      HasSuffixIff(n, s, "-mac");
    } else {
      HasSuffixIff(n, s, "-unix");
      LongSuffix(e, "-dos", s);
      LongSuffix(e, "-mac", s);
    }
  }

  lemma LongSuffix(e: string, short: string, s: string)
    requires |s| == 5 && SameLetters(s, "-unix") && |e| > 5 && e[|e| - 5..] == s
    requires short == "-dos" || short == "-mac"
    ensures !HasSuffix(e, short)
  {
    hide Lower;
    SuffixesAreLower();
    var tail := e[|e| - 4..];
    assert tail[3] == s[4] && SameLetter(s[4], 'x');
    assert !SameLetter(tail[3], short[3]);
    SameLettersIff(tail, short);
  }

  lemma StemKept(e: string)
    requires forall n, s :: n != "" && EolSuffix(s) ==> e != n + s
    ensures Stem(e) == e
  {
    hide Lower, EolSuffix;
    SuffixesAreLower();
    NoSuffix(e, "-dos");
    NoSuffix(e, "-mac");
    NoSuffix(e, "-unix");
  }

  lemma NoSuffix(e: string, suffix: string)
    requires forall n, s :: n != "" && EolSuffix(s) ==> e != n + s
    requires suffix == "-dos" || suffix == "-mac" || suffix == "-unix"
    ensures !HasSuffix(e, suffix)
  {
    hide Lower, SameLetters;
    SuffixesAreLower();
    if |e| > |suffix| {
      var i := |e| - |suffix|;
      assert e == e[..i] + e[i..];
      SameLettersIff(e[i..], suffix);
    }
  }

  /** STRIP, for every name. */
  lemma StemIff(encoding: string, stem: string)
    ensures Stem(encoding) == stem <==> StemOf(encoding, stem)
  {
    hide Stem, EolSuffix;
    if forall n, s :: n != "" && EolSuffix(s) ==> encoding != n + s {
      StemKept(encoding);
    } else {
      var n, s :| n != "" && EolSuffix(s) && encoding == n + s;
      StemCut(n, s);
      forall t | EolSuffix(t) && stem != "" && encoding == stem + t ensures stem == n {
        StemCut(stem, t);
      }
    }
  }

  /** Is the i-th the first entry for the name, up to case? */
  predicate FirstFor(table: seq<(string, string)>, name: string, i: int) {
    0 <= i < |table| && SameLetters(table[i].0, name) && forall j :: 0 <= j < i ==> !SameLetters(table[j].0, name)
  }

  /** The table is searched from the front, without regard to case. */
  lemma {:induction false} LookUpIff(table: seq<(string, string)>, name: string)
    ensures LookUp(table, name) == None <==> forall i :: 0 <= i < |table| ==> !SameLetters(table[i].0, name)
    ensures forall i :: FirstFor(table, name, i) ==> LookUp(table, name) == Some(table[i].1)
  {
    hide SameLetters, Lower, CaseCompare;
    if table != [] {
      CaseCompareZero(table[0].0, name);
      SameLettersIff(table[0].0, name);
      LookUpIff(table[1..], name);
      assert forall i :: 0 < i < |table| ==> table[i] == table[1..][i - 1];
      forall i | FirstFor(table, name, i) ensures LookUp(table, name) == Some(table[i].1) {
        if i > 0 {
          assert FirstFor(table[1..], name, i - 1);
        }
      }
    }
  }

  /** convert_encoding: the table's name for what is left without the suffix, or that itself. */
  lemma ConvertIs(encoding: string, stem: string)
    requires StemOf(encoding, stem)
    ensures forall i :: FirstFor(Conversions(), stem, i) ==> Convert(encoding) == Conversions()[i].1
    ensures (forall i :: 0 <= i < |Conversions()| ==> !SameLetters(Conversions()[i].0, stem)) ==>
              Convert(encoding) == stem
  {
    hide Conversions, StemOf, Stem, LookUp, SameLetters;
    StemIff(encoding, stem);
    LookUpIff(Conversions(), stem);
  }

  lemma {:induction false} LookUpEmpty(table: seq<(string, string)>, encoding: string)
    requires forall i :: 0 <= i < |table| ==> table[i].0 != "" && table[i].1 != ""
    ensures encoding == "" ==> LookUp(table, encoding) == None
    ensures LookUp(table, encoding) != Some("")
  {
    hide Lower;
    if table != [] {
      CaseCompareZero(table[0].0, encoding);
      LookUpEmpty(table[1..], encoding);
    }
  }

  lemma TableFilled()
    ensures forall i :: 0 <= i < |Conversions()| ==> Conversions()[i].0 != "" && Conversions()[i].1 != ""
  {
  }

  lemma ConvertEmpty(encoding: string)
    ensures Convert(encoding) == "" <==> encoding == ""
  {
    hide Conversions, LookUp, Lower;
    TableFilled();
    LookUpEmpty(Conversions(), Stem(encoding));
  }
}
