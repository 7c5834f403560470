/** The decimal text of a signed long, as printf("%ld") writes it and atol reads it. */
module Decimal {
  import opened CString

  predicate IsDigit(c: char) {
    '0' <= c <= '9'
  }

  function DigitChar(d: nat): (c: char)
    requires d < 10
    ensures IsDigit(c) && c as int - '0' as int == d
  {
    ('0' as int + d) as char
  }

  function Digits(n: nat): (s: string)
    ensures s != "" && forall c :: c in s ==> IsDigit(c)
  {
    if n < 10 then [DigitChar(n)] else Digits(n / 10) + [DigitChar(n % 10)]
  }

  /** printf("%ld", n) */
  function Print(n: int): string {
    if n < 0 then "-" + Digits(-n) else Digits(n)
  }

  function ReadDigits(s: string, acc: nat): nat {
    if s != "" && IsDigit(s[0]) then ReadDigits(s[1..], acc * 10 + (s[0] as int - '0' as int)) else acc
  }

  /** atol: skip white space, take a sign, stop at the first byte that is no digit. */
  function Atol(s: string): int {
    if s != "" && IsSpace(s[0]) then Atol(s[1..])
    else if s != "" && s[0] == '-' then 0 - ReadDigits(s[1..], 0)
    else if s != "" && s[0] == '+' then ReadDigits(s[1..], 0)
    else ReadDigits(s, 0)
  }

  lemma {:induction false} ReadDigitsConcat(a: string, b: string, acc: nat)
    requires forall c :: c in a ==> IsDigit(c)
    ensures ReadDigits(a + b, acc) == ReadDigits(b, ReadDigits(a, acc))
  {
    if a == "" {
      assert a + b == b;
    } else {
      assert (a + b)[1..] == a[1..] + b;
      assert IsDigit(a[0]);
      ReadDigitsConcat(a[1..], b, acc * 10 + (a[0] as int - '0' as int));
    }
  }

  lemma {:induction false} ReadDigitsInverts(n: nat)
    ensures ReadDigits(Digits(n), 0) == n
  {
    if n >= 10 {
      ReadDigitsInverts(n / 10);
      var last := [DigitChar(n % 10)];
      ReadDigitsConcat(Digits(n / 10), last, 0);
      assert ReadDigits(last, n / 10) == ReadDigits(last[1..], n / 10 * 10 + n % 10);
    } else {
      assert ReadDigits([DigitChar(n)], 0) == ReadDigits([DigitChar(n)][1..], n);
    }
  }

  /** Whatever the sign, reading what was printed gives the number back. */
  lemma PrintRoundTrip(n: int)
    ensures Atol(Print(n)) == n
    ensures '\t' !in Print(n) && NulFree(Print(n))
  {
    var abs: nat := if n < 0 then -n else n;
    ReadDigitsInverts(abs);
    assert IsDigit(Digits(abs)[0]);
    if n < 0 {
      assert Print(n)[1..] == Digits(abs);
    }
  }

  lemma ReadDigitsStops(rest: string, acc: nat)
    requires rest == "" || !IsDigit(rest[0])
    ensures ReadDigits(rest, acc) == acc
  {
  }

  lemma AtolNumber(n: int, rest: string)
    requires rest == "" || !IsDigit(rest[0])
    ensures Atol(Print(n) + rest) == n
    ensures n >= 0 ==> Atol("+" + (Digits(n) + rest)) == n
  {
    hide Digits, ReadDigits;
    var abs: nat := if n < 0 then -n else n;
    var text := Digits(abs) + rest;
    ReadDigitsInverts(abs);
    ReadDigitsConcat(Digits(abs), rest, 0);
    ReadDigitsStops(rest, abs);
    assert IsDigit(Digits(abs)[0]) && text[0] == Digits(abs)[0];
    assert n < 0 ==> Print(n) + rest == "-" + text;
    assert ("-" + text)[1..] == text && ("+" + text)[1..] == text;
  }

  lemma {:induction false} AtolSkips(blanks: string, s: string)
    requires forall i :: 0 <= i < |blanks| ==> IsSpace(blanks[i])
    ensures Atol(blanks + s) == Atol(s)
  {
    if blanks == "" {
      assert blanks + s == s;
    } else {
      assert (blanks + s)[1..] == blanks[1..] + s;
      AtolSkips(blanks[1..], s);
    }
  }

  /** atol reads a number behind white space, with a sign or none, up to the first byte that is no digit. */
  lemma AtolReads(blanks: string, n: int, rest: string)
    requires (forall i :: 0 <= i < |blanks| ==> IsSpace(blanks[i])) && (rest == "" || !IsDigit(rest[0]))
    ensures Atol(blanks + (Print(n) + rest)) == n
    ensures n >= 0 ==> Atol(blanks + ("+" + (Digits(n) + rest))) == n
  {
    hide Digits, Atol, Print;
    AtolNumber(n, rest);
    AtolSkips(blanks, Print(n) + rest);
    if n >= 0 { AtolSkips(blanks, "+" + (Digits(n) + rest)); }
  }

  predicate AllDigits(s: string) {
    s != "" && forall c :: c in s ==> IsDigit(c)
  }

  /** A number as printf writes it: "0", or digits that do not begin with 0, with a '-' in front or none. */
  predicate PlainNumber(s: string) {
    s == "0" || PlainPositive(if s != "" && s[0] == '-' then s[1..] else s)
  }

  predicate PlainPositive(s: string) {
    AllDigits(s) && s[0] != '0'
  }

  lemma {:induction false} DigitsPlain(n: nat)
    ensures AllDigits(Digits(n))
    ensures n > 0 ==> PlainPositive(Digits(n))
  {
    if n >= 10 {
      DigitsPlain(n / 10);
      assert Digits(n)[0] == Digits(n / 10)[0];
    }
  }

  /** Printing the value of plain digits gives the digits back. */
  lemma {:induction false} DigitsOfRead(s: string)
    requires PlainPositive(s)
    ensures ReadDigits(s, 0) > 0 && Digits(ReadDigits(s, 0)) == s
  {
    var n := |s| - 1;
    assert s[n] in s && s == s[..n] + [s[n]];
    assert forall c :: c in s[..n] ==> c in s;
    ReadDigitsConcat(s[..n], [s[n]], 0);
    var high := ReadDigits(s[..n], 0);
    assert ReadDigits([s[n]], high) == ReadDigits([s[n]][1..], high * 10 + (s[n] as int - '0' as int));
    if n > 0 {
      assert s[..n][0] == s[0];
      DigitsOfRead(s[..n]);
      assert ReadDigits(s, 0) / 10 == high;
    }
  }

  /** Reading a field and printing the number gives the field back exactly for plain numbers. */
  lemma ReprintIff(s: string)
    ensures Print(Atol(s)) == s <==> PlainNumber(s)
  {
    hide Digits, ReadDigits;
    var n := Atol(s);
    DigitsPlain(if n < 0 then -n else n);
    ZeroDigits();
    assert Print(n) == s ==> PlainNumber(s);
    if PlainNumber(s) && s != "0" {
      if s[0] == '-' {
        DigitsOfRead(s[1..]);
      } else {
        assert s[0] in s;
        DigitsOfRead(s);
      }
    }
  }

  lemma ZeroDigits()
    ensures Digits(0) == "0" && Atol("0") == 0
  {
    assert ReadDigits("0", 0) == ReadDigits("0"[1..], 0);
  }
}
