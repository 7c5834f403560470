/**
  * UTF-8 validation: src/utf8.c.  The grammar is section 4 of RFC 3629, the encoding section 3.
  */
module Utf8 {
  type byte = b: int | 0 <= b < 256

  /** Bitwise and. */
  function And(x: nat, mask: nat): nat {
    if mask == 0 then 0
    else 2 * And(x / 2, mask / 2) + (if x % 2 == 1 && mask % 2 == 1 then 1 else 0)
  }

  predicate Tail(b: byte) {
    0x80 <= b <= 0xbf
  }

  /** UTF8-char of section 4. */
  predicate IsChar(c: seq<byte>) {
    if |c| == 1 then c[0] <= 0x7f
    else if |c| == 2 then 0xc2 <= c[0] <= 0xdf && Tail(c[1])
    else if |c| == 3 then
      && Tail(c[2])
      && (|| (c[0] == 0xe0 && 0xa0 <= c[1] <= 0xbf)
          || (0xe1 <= c[0] <= 0xec && Tail(c[1]))
          || (c[0] == 0xed && 0x80 <= c[1] <= 0x9f)
          || (0xee <= c[0] <= 0xef && Tail(c[1])))
    else if |c| == 4 then
      && Tail(c[2]) && Tail(c[3])
      && (|| (c[0] == 0xf0 && 0x90 <= c[1] <= 0xbf)
          || (0xf1 <= c[0] <= 0xf3 && Tail(c[1]))
          || (c[0] == 0xf4 && 0x80 <= c[1] <= 0x8f))
    else false
  }

  /** UTF8-octets of section 4: a sequence of characters. */
  ghost predicate Generated(s: seq<byte>) {
    s == [] || exists n :: 1 <= n <= |s| && IsChar(s[..n]) && Generated(s[n..])
  }

  /** The text the validator is for. */
  ghost predicate ValidText(s: seq<byte>) {
    Generated(s) && 0 !in s
  }

  /** The length of the first character of s; 0 when s does not begin with a character or begins with NUL. */
  function FirstChar(s: seq<byte>): (n: nat)
    ensures n <= |s|
    ensures n > 0 ==> IsChar(s[..n]) && s[0] != 0
    ensures n == 0 ==> s == [] || s[0] == 0 || forall m :: 1 <= m <= |s| ==> !IsChar(s[..m])
  {
    if s == [] || s[0] == 0 then 0
    else if IsChar(s[..1]) then 1
    else if |s| >= 2 && IsChar(s[..2]) then 2
    else if |s| >= 3 && IsChar(s[..3]) then 3
    else if |s| >= 4 && IsChar(s[..4]) then 4
    else 0
  }

  /** No character is the beginning of another. */
  lemma PrefixFree(s: seq<byte>, m: nat, n: nat)
    requires m <= |s| && n <= |s| && IsChar(s[..m]) && IsChar(s[..n])
    ensures m == n
  {
    assert s[..m][0] == s[0] && s[..n][0] == s[0];
  }

  /** How far the characters reach. */
  function Scan(s: seq<byte>): (p: nat)
    ensures p <= |s|
  {
    var n := FirstChar(s);
    if n == 0 then 0 else n + Scan(s[n..])
  }

  lemma CharHasNoNul(c: seq<byte>)
    requires IsChar(c) && c[0] != 0
    ensures 0 !in c
  {
  }

  /** What Scan passes over is valid. */
  lemma {:induction false} ScanValid(s: seq<byte>)
    ensures ValidText(s[..Scan(s)])
  {
    hide IsChar;
    var n, p := FirstChar(s), Scan(s);
    if n > 0 {
      ScanValid(s[n..]);
      assert s[..p][..n] == s[..n];
      assert s[..p][n..] == s[n..][..Scan(s[n..])];
      CharLength(s[..n]);
      CharHasNoNul(s[..n]);
      assert s[..p] == s[..n] + s[n..][..Scan(s[n..])];
    }
  }

  lemma CharLength(c: seq<byte>)
    requires IsChar(c)
    ensures 1 <= |c| <= 4
  {
  }

  /** No longer prefix is valid. */
  lemma {:induction false} ScanLongest(s: seq<byte>, q: nat)
    requires q <= |s| && ValidText(s[..q])
    ensures q <= Scan(s)
  {
    hide IsChar;
    if q > 0 {
      var t := s[..q];
      var n :| 1 <= n <= |t| && IsChar(t[..n]) && Generated(t[n..]);
      assert t[..n] == s[..n];
      assert s[0] == t[0] && t[0] in t;
      PrefixFree(s, n, if FirstChar(s) == 0 then n else FirstChar(s));
      assert FirstChar(s) == n;
      assert t[n..] == s[n..][..q - n];
      assert forall b :: b in t[n..] ==> b in t;
      ScanLongest(s[n..], q - n);
    }
  }

  lemma AndStep(x: nat, mask: nat)
    ensures And(x, mask) == 2 * And(x / 2, mask / 2) + (if x % 2 == 1 && mask % 2 == 1 then 1 else 0)
  {
    assert mask == 0 ==> mask / 2 == 0;
  }

  lemma AndEven(x: nat, mask: nat)
    ensures And(x, 2 * mask) == 2 * And(x / 2, mask)
  {
    hide And;
    AndStep(x, 2 * mask);
    assert 2 * mask / 2 == mask && 2 * mask % 2 == 0;
  }

  lemma AndOdd(x: nat, mask: nat)
    ensures And(x, 2 * mask + 1) == 2 * And(x / 2, mask) + x % 2
  {
    hide And;
    AndStep(x, 2 * mask + 1);
    assert (2 * mask + 1) / 2 == mask && (2 * mask + 1) % 2 == 1;
  }

  lemma Low2(x: nat)
    ensures And(x, 0x03) == x % 4
  {
    hide And;
    AndOdd(x, 0x01);
    AndOdd(x / 2, 0x00);
    AndZero(x / 2 / 2);
  }

  lemma AndZero(x: nat)
    ensures And(x, 0x00) == 0
  {
  }

  lemma Low3(x: nat)
    ensures And(x, 0x07) == x % 8
  {
    hide And;
    AndOdd(x, 0x03);
    Low2(x / 2);
    assert x / 2 / 4 == x / 8;
  }

  lemma Low4(x: nat)
    ensures And(x, 0x0f) == x % 16
  {
    hide And;
    AndOdd(x, 0x07);
    Low3(x / 2);
    assert x / 2 / 8 == x / 16;
  }

  lemma AndTimes16(x: nat, mask: nat)
    ensures And(x, 16 * mask) == 16 * And(x / 16, mask)
  {
    hide And;
    AndEven(x, 8 * mask);
    AndEven(x / 2, 4 * mask);
    AndEven(x / 2 / 2, 2 * mask);
    AndEven(x / 2 / 2 / 2, mask);
    assert x / 2 / 2 / 2 / 2 == x / 16;
  }

  /** The masks of VALIDATE_BYTE as ranges. */
  lemma MaskC0(x: byte)
    ensures And(x, 0xc0) == 0x80 <==> 0x80 <= x <= 0xbf
  {
    hide And;
    AndTimes16(x, 0x0c);
    AndEven(x / 16, 0x06);
    AndEven(x / 16 / 2, 0x03);
    Low2(x / 16 / 2 / 2);
    assert x / 16 / 2 / 2 == x / 64;
  }

  lemma MaskE0(x: byte)
    ensures And(x, 0xe0) == x / 32 * 32
  {
    hide And;
    AndTimes16(x, 0x0e);
    AndEven(x / 16, 0x07);
    Low3(x / 16 / 2);
    assert x / 16 / 2 == x / 32;
  }

  lemma MaskF0(x: byte)
    ensures And(x, 0xf0) == x / 16 * 16
  {
    hide And;
    AndTimes16(x, 0x0f);
    Low4(x / 16);
  }

  lemma Mask30(x: byte)
    ensures And(x, 0x30) == x / 16 % 4 * 16
  {
    hide And;
    AndTimes16(x, 0x03);
    Low2(x / 16);
  }

  /**
    * fast_validate_len on a buffer of exactly max_len bytes; the result is an offset.  It is where
    * the longest valid prefix ends.
    */
  method FastValidate(str: seq<byte>) returns (p: nat)
    ensures p == Scan(str)
    ensures p <= |str| && ValidText(str[..p])
    ensures forall q :: p < q <= |str| ==> !ValidText(str[..q])
  {
    p := ValidateLoop(str);
    ScanValid(str);
    forall q | p < q <= |str| ensures !ValidText(str[..q]) {
      if ValidText(str[..q]) { ScanLongest(str, q); }
    }
  }

  /** Is the character of n octets at offset p? */
  predicate CharAt(str: seq<byte>, p: nat, n: nat) {
    p + n <= |str| && IsChar(str[p..p + n])
  }

  lemma CharAtBytes(str: seq<byte>, p: nat)
    requires p < |str|
    ensures CharAt(str, p, 1) <==> str[p] <= 0x7f
    ensures CharAt(str, p, 2) <==> p + 2 <= |str| && 0xc2 <= str[p] <= 0xdf && Tail(str[p + 1])
    ensures CharAt(str, p, 3) <==>
              && p + 3 <= |str| && Tail(str[p + 2])
              && (|| (str[p] == 0xe0 && 0xa0 <= str[p + 1] <= 0xbf)
                  || (0xe1 <= str[p] <= 0xec && Tail(str[p + 1]))
                  || (str[p] == 0xed && 0x80 <= str[p + 1] <= 0x9f)
                  || (0xee <= str[p] <= 0xef && Tail(str[p + 1])))
    ensures CharAt(str, p, 4) <==>
              && p + 4 <= |str| && Tail(str[p + 2]) && Tail(str[p + 3])
              && (|| (str[p] == 0xf0 && 0x90 <= str[p + 1] <= 0xbf)
                  || (0xf1 <= str[p] <= 0xf3 && Tail(str[p + 1]))
                  || (str[p] == 0xf4 && 0x80 <= str[p + 1] <= 0x8f))
  {
  }

  /** No character begins at p. */
  predicate NoneAt(str: seq<byte>, p: nat) {
    !CharAt(str, p, 1) && !CharAt(str, p, 2) && !CharAt(str, p, 3) && !CharAt(str, p, 4)
  }

  /** One character further. */
  lemma ScanChar(str: seq<byte>, p: nat, n: nat)
    requires p < |str| && str[p] != 0 && CharAt(str, p, n)
    ensures Scan(str[p..]) == n + Scan(str[p + n..])
  {
    hide IsChar;
    var s := str[p..];
    CharLength(str[p..p + n]);
    assert s[..n] == str[p..p + n];
    PrefixFree(s, n, if FirstChar(s) == 0 then n else FirstChar(s));
    assert s[n..] == str[p + n..];
  }

  lemma FirstCharAt(str: seq<byte>, p: nat)
    requires p <= |str|
    ensures var n := FirstChar(str[p..]); n > 0 ==> p < |str| && str[p] != 0 && 1 <= n <= 4 && CharAt(str, p, n)
  {
    hide IsChar;
    var s := str[p..];
    assert forall n: nat :: n <= |s| ==> s[..n] == str[p..p + n];
  }

  /** The end of the scan. */
  lemma ScanEnd(str: seq<byte>, p: nat)
    requires p <= |str|
    requires p < |str| && str[p] != 0 ==> NoneAt(str, p)
    ensures Scan(str[p..]) == 0
  {
    hide CharAt, FirstChar;
    FirstCharAt(str, p);
  }

  /** The loop of fast_validate_len. */
  method ValidateLoop(str: seq<byte>) returns (p: nat)
    ensures p == Scan(str)
  {
    hide Scan, CharAt, NoneAt;
    p := 0;
    assert str[0..] == str;
    while p < |str| && str[p] != 0
      invariant p <= |str|
      invariant Scan(str) == p + Scan(str[p..])
      decreases |str| - p
    {
      if str[p] < 128 {
        CharAtBytes(str, p);
        ScanChar(str, p, 1);
        p := p + 1;
        continue;
      }
      var last := p;
      var ok;
      ok, p := ValidateChar(str, p);
      if !ok {
        ScanEnd(str, last);
        return last;
      }
      ScanChar(str, last, p + 1 - last);
      p := p + 1;
    }
    ScanEnd(str, p);
  }

  /**
    * The body of the loop for a byte of 128 or more; false stands for the jump to error.  On success
    * p is left on the last octet of the character.
    */
  method ValidateChar(str: seq<byte>, start: nat) returns (ok: bool, p: nat)
    requires start < |str| && str[start] >= 128
    ensures ok ==> start <= p && CharAt(str, start, p + 1 - start)
    ensures !ok ==> NoneAt(str, start)
  {
    hide And, CharAt;
    CharAtBytes(str, start);
    p := start;
    if str[p] < 0xe0 {
      if |str| - p < 2 {
        return false, p;
      }
      if str[p] < 0xc2 {
        return false, p;
      }
    } else if str[p] < 0xf0 {
      if |str| - p < 3 {
        return false, p;
      }
      ok := SecondOfThree(str[p], str[p + 1]);
      p := p + 1;
      if !ok {
        return false, p;
      }
    } else if str[p] < 0xf5 {
      if |str| - p < 4 {
        return false, p;
      }
      ok := SecondOfFour(str[p], str[p + 1]);
      p := p + 1;
      if !ok {
        return false, p;
      }
      p := p + 1;
      MaskC0(str[p]);
      if And(str[p], 0xc0) != 0x80 {
        return false, p;
      }
    } else {
      return false, p;
    }
    p := p + 1;
    MaskC0(str[p]);
    if And(str[p], 0xc0) != 0x80 {
      return false, p;
    }
    return true, p;
  }

  /** The switch on the low four bits of the first octet of three. */
  method SecondOfThree(first: byte, second: byte) returns (ok: bool)
    requires 0xe0 <= first < 0xf0
    ensures ok <==> (if first == 0xe0 then 0xa0 else 0x80) <= second <= (if first == 0xed then 0x9f else 0xbf)
  {
    hide And;
    Low4(first);
    MaskE0(second);
    MaskC0(second);
    match And(first, 0x0f)
    case 0 => ok := And(second, 0xe0) == 0xa0;
    case 0x0d => ok := And(second, 0xe0) == 0x80;
    case _ => ok := And(second, 0xc0) == 0x80;
  }

  /** The switch on the low three bits of the first octet of four. */
  method SecondOfFour(first: byte, second: byte) returns (ok: bool)
    requires 0xf0 <= first < 0xf5
    ensures ok <==> (if first == 0xf0 then 0x90 else 0x80) <= second <= (if first == 0xf4 then 0x8f else 0xbf)
  {
    hide And;
    Low3(first);
    MaskC0(second);
    Mask30(second);
    MaskF0(second);
    match And(first, 0x07)
    case 0 => ok := And(second, 0xc0) == 0x80 && And(second, 0x30) != 0;
    case 4 => ok := And(second, 0xf0) == 0x80;
    case _ => ok := And(second, 0xc0) == 0x80;
  }

  /** utf8_validate_len accepts exactly the NUL-free texts of the grammar. */
  method ValidateLen(str: seq<byte>) returns (r: bool)
    ensures r <==> ValidText(str)
  {
    var p := FastValidate(str);
    r := p == |str|;
    assert str[..|str|] == str;
  }

  /** Unicode scalar values: code points without the surrogates. */
  predicate IsScalar(v: int) {
    0 <= v <= 0x10ffff && !(0xd800 <= v <= 0xdfff)
  }

  function Payload(b: int, marker: int): int {
    b - marker
  }

  /** Six more bits, from a tail octet. */
  function Extend(v: int, b: byte): int {
    v * 0x40 + Payload(b, 0x80)
  }

  /** An octet that carries the low six bits of v. */
  function TailOctet(v: nat): (b: byte)
    ensures Tail(b) && v == Extend(v / 0x40, b)
  {
    0x80 + v % 0x40
  }

  /** Section 3: the octets of a character number, six bits at a time. */
  function Encode(v: int): seq<byte>
    requires IsScalar(v)
  {
    var v1 := v / 0x40;
    var v2 := v1 / 0x40;
    if v < 0x80 then [v]
    else if v < 0x800 then [0xc0 + v1, TailOctet(v)]
    else if v < 0x10000 then [0xe0 + v2, TailOctet(v1), TailOctet(v)]
    else [0xf0 + v2 / 0x40, TailOctet(v2), TailOctet(v1), TailOctet(v)]
  }

  function Decode(c: seq<byte>): int
    requires IsChar(c)
  {
    if |c| == 1 then c[0]
    else if |c| == 2 then Extend(Payload(c[0], 0xc0), c[1])
    else if |c| == 3 then Extend(Extend(Payload(c[0], 0xe0), c[1]), c[2])
    else Extend(Extend(Extend(Payload(c[0], 0xf0), c[1]), c[2]), c[3])
  }

  /** The octets of a scalar value are a character of the grammar, and decode to it. */
  lemma EncodeIsChar(v: int)
    requires IsScalar(v)
    ensures IsChar(Encode(v)) && Decode(Encode(v)) == v
    ensures 0 in Encode(v) <==> v == 0
  {
    if v < 0x800 {
      EncodeIsChar2(v);
    } else if v < 0x10000 {
      EncodeIsChar3(v);
    } else {
      EncodeIsChar4(v);
    }
  }

  lemma EncodeIsChar2(v: int)
    requires 0 <= v < 0x800
    ensures IsChar(Encode(v)) && Decode(Encode(v)) == v
    ensures 0 in Encode(v) <==> v == 0
  {
  }

  lemma EncodeIsChar3(v: int)
    requires IsScalar(v) && 0x800 <= v < 0x10000
    ensures IsChar(Encode(v)) && Decode(Encode(v)) == v
    ensures 0 !in Encode(v)
  {
  }

  lemma EncodeIsChar4(v: int)
    requires IsScalar(v) && 0x10000 <= v
    ensures IsChar(Encode(v)) && Decode(Encode(v)) == v
    ensures 0 !in Encode(v)
  {
  }

  /** Every character of the grammar is the encoding of a scalar value. */
  lemma CharIsEncoding(c: seq<byte>)
    requires IsChar(c)
    ensures IsScalar(Decode(c)) && Encode(Decode(c)) == c
  {
    if |c| <= 2 {
      CharIsEncoding2(c);
    } else if |c| == 3 {
      CharIsEncoding3(c);
    } else {
      CharIsEncoding4(c);
    }
  }

  lemma CharIsEncoding2(c: seq<byte>)
    requires IsChar(c) && |c| <= 2
    ensures IsScalar(Decode(c)) && Encode(Decode(c)) == c
  {
  }

  lemma CharIsEncoding3(c: seq<byte>)
    requires IsChar(c) && |c| == 3
    ensures IsScalar(Decode(c)) && Encode(Decode(c)) == c
  {
    hide TailOctet;
    var high := Payload(c[0], 0xe0);
    TailOctetUndoes(high, c[1]);
    TailOctetUndoes(Extend(high, c[1]), c[2]);
  }

  lemma CharIsEncoding4(c: seq<byte>)
    requires IsChar(c) && |c| == 4
    ensures IsScalar(Decode(c)) && Encode(Decode(c)) == c
  {
    hide TailOctet;
    var high := Payload(c[0], 0xf0);
    TailOctetUndoes(high, c[1]);
    TailOctetUndoes(Extend(high, c[1]), c[2]);
    TailOctetUndoes(Extend(Extend(high, c[1]), c[2]), c[3]);
  }

  lemma TailOctetUndoes(high: nat, b: byte)
    requires Tail(b)
    ensures var v := Extend(high, b); v / 0x40 == high && TailOctet(v) == b
  {
  }

  predicate Scalars(vs: seq<int>) {
    forall v :: v in vs ==> IsScalar(v)
  }

  function EncodeAll(vs: seq<int>): seq<byte>
    requires Scalars(vs)
  {
    if vs == [] then [] else
      assert vs[0] in vs;
      assert forall v :: v in vs[1..] ==> v in vs;
      Encode(vs[0]) + EncodeAll(vs[1..])
  }

  lemma {:induction false} EncodeAllGenerated(vs: seq<int>)
    requires Scalars(vs)
    ensures Generated(EncodeAll(vs))
    ensures 0 in EncodeAll(vs) <==> 0 in vs
  {
    hide IsChar, Encode, Decode;
    if vs != [] {
      assert vs[0] in vs;
      assert forall v :: v in vs[1..] ==> v in vs;
      var head, tail := Encode(vs[0]), EncodeAll(vs[1..]);
      EncodeIsChar(vs[0]);
      EncodeAllGenerated(vs[1..]);
      CharLength(head);
      var s := head + tail;
      assert s[..|head|] == head && s[|head|..] == tail;
      assert vs == [vs[0]] + vs[1..];
    }
  }

  lemma {:induction false} GeneratedIsEncoding(s: seq<byte>) returns (vs: seq<int>)
    requires Generated(s)
    ensures Scalars(vs) && EncodeAll(vs) == s
  {
    hide IsChar, Encode, Decode;
    if s == [] {
      vs := [];
    } else {
      var n :| 1 <= n <= |s| && IsChar(s[..n]) && Generated(s[n..]);
      CharIsEncoding(s[..n]);
      var rest := GeneratedIsEncoding(s[n..]);
      vs := [Decode(s[..n])] + rest;
      assert vs[1..] == rest;
      assert s == s[..n] + s[n..];
    }
  }

  /** The grammar of section 4 and the encoding of section 3 describe the same NUL-free texts. */
  lemma ValidTextIff(s: seq<byte>)
    ensures ValidText(s) <==> exists vs :: Scalars(vs) && 0 !in vs && EncodeAll(vs) == s
  {
    hide IsChar, Encode, Decode, Generated;
    if ValidText(s) {
      var vs := GeneratedIsEncoding(s);
      EncodeAllGenerated(vs);
    }
    forall vs | Scalars(vs) && 0 !in vs && EncodeAll(vs) == s ensures ValidText(s) {
      EncodeAllGenerated(vs);
    }
  }
}
