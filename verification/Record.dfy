/**
  * One index record: libdb/db_store.c make_content and libdb/db_lookup.c split_content.
  * A record is ten tab-separated fields; only the last, the whatis text, may itself
  * contain tabs.
  */
module Record {
  import opened Wrappers
  import opened CString
  import Decimal

  const FIELDS := 10

  /** The page types, best first (libdb/db_storage.h:44-48). */
  const ULT_MAN := 'A'
  const SO_MAN := 'B'
  const WHATIS_MAN := 'C'
  const STRAY_CAT := 'D'

  datatype Time = Time(sec: int, nsec: int)

  /** timespec_cmp */
  function TimeCompare(a: Time, b: Time): int {
    if a.sec != b.sec then (if a.sec < b.sec then -1 else 1)
    else if a.nsec != b.nsec then (if a.nsec < b.nsec then -1 else 1)
    else 0
  }

  predicate Newer(a: Time, b: Time) {
    a.sec > b.sec || (a.sec == b.sec && a.nsec > b.nsec)
  }

  lemma TimeCompareIff(a: Time, b: Time)
    ensures TimeCompare(a, b) > 0 <==> Newer(a, b)
    ensures TimeCompare(a, b) < 0 <==> Newer(b, a)
  {
  }

  /** What the index keeps about a page besides its name and extension. */
  datatype Entry = Entry(
    sec: string, mtime: Time, id: char, pointer: string, filter: string, comp: string, whatis: string)

  /** The fields of a struct mandata; a field that can be NULL is an option. */
  datatype Info = Info(
    name: Option<string>, ext: string, sec: string, mtime: Time, id: char,
    pointer: Option<string>, filter: Option<string>, comp: Option<string>, whatis: Option<string>)

  /** struct mandata, which make_content and dbstore update in place. */
  class Mandata {
    var name: Option<string>
    var ext: string
    var sec: string
    var mtime: Time
    var id: char
    var pointer: Option<string>
    var filter: Option<string>
    var comp: Option<string>
    var whatis: Option<string>

    function Value(): Info
      reads this
    {
      Info(name, ext, sec, mtime, id, pointer, filter, comp, whatis)
    }

    constructor (i: Info)
      ensures Value() == i
    {
      name, ext, sec, mtime, id := i.name, i.ext, i.sec, i.mtime, i.id;
      pointer, filter, comp, whatis := i.pointer, i.filter, i.comp, i.whatis;
    }
  }

  /** dash_if_unset */
  function DashIfUnset(s: Option<string>): string {
    if s.Some? then s.value else "-"
  }

  /** copy_if_set */
  function CopyIfSet(s: string): Option<string> {
    if s == "-" then None else Some(s)
  }

  /** The fields as make_content leaves them: NULL ones replaced by what is written for them. */
  function Filled(i: Info): Info {
    i.(pointer := Some(DashIfUnset(i.pointer)),
       filter := Some(DashIfUnset(i.filter)),
       comp := Some(DashIfUnset(i.comp)),
       whatis := Some(if i.whatis.Some? then i.whatis.value else ""))
  }

  function EntryOf(i: Info): Entry {
    var f := Filled(i);
    Entry(f.sec, f.mtime, f.id, f.pointer.value, f.filter.value, f.comp.value, f.whatis.value)
  }

  function InfoOf(name: Option<string>, ext: string, e: Entry): Info {
    Info(name, ext, e.sec, e.mtime, e.id, Some(e.pointer), Some(e.filter), Some(e.comp), Some(e.whatis))
  }

  /** The fields joined by tabs. */
  function Join(fields: seq<string>): string
    requires fields != []
  {
    if |fields| == 1 then fields[0] else fields[0] + ['\t'] + Join(fields[1..])
  }

  function FieldsOf(name: Option<string>, ext: string, e: Entry): seq<string> {
    [DashIfUnset(name), ext, e.sec, Decimal.Print(e.mtime.sec), Decimal.Print(e.mtime.nsec),
     [e.id], e.pointer, e.filter, e.comp, e.whatis]
  }

  /** The content string of a record. */
  function Encode(name: Option<string>, ext: string, e: Entry): string {
    Join(FieldsOf(name, ext, e))
  }

  /** n strsep calls and the rest of the string; None when strsep runs out of fields. */
  function SplitFields(content: Option<string>, n: nat): Option<seq<string>>
    decreases n
  {
    if content.None? then None
    else if n == 0 then Some([content.value])
    else
      var s := content.value;
      var rest := SplitFields(StrsepRest(s), n - 1);
      if rest.None? then None else Some([StrsepToken(s)] + rest.value)
  }

  /** The token strsep (&s, "\t") returns, and what it leaves in s. */
  function StrsepToken(s: string): string {
    s[..IndexOf(s, '\t')]
  }

  function StrsepRest(s: string): Option<string> {
    var i := IndexOf(s, '\t');
    if i < |s| then Some(s[i + 1..]) else None
  }

  /** The string behind the NUL-terminated id field: its first byte, NUL when it is empty. */
  function FirstByte(s: string): char {
    if s == "" then '\0' else s[0]
  }

  function Decode(content: string): Outcome<Info> {
    var d := SplitFields(Some(content), FIELDS - 1);
    if d.None? then Corrupt
    else
      var f := d.value;
      SplitFieldsLength(Some(content), FIELDS - 1);
      Ok(Info(CopyIfSet(f[0]), f[1], f[2], Time(Decimal.Atol(f[3]), Decimal.Atol(f[4])), FirstByte(f[5]),
              Some(f[6]), Some(f[7]), Some(f[8]), Some(f[9])))
  }

  lemma SplitFieldsLength(content: Option<string>, n: nat)
    ensures SplitFields(content, n).Some? ==> |SplitFields(content, n).value| == n + 1
    decreases n
  {
    if content.Some? && n > 0 {
      SplitFieldsLength(StrsepRest(content.value), n - 1);
    }
  }

  /** Is the content a reference list rather than a record? */
  predicate IsList(content: string) {
    content != "" && content[0] == '\t'
  }

  predicate ValidName(name: Option<string>) {
    name.Some? ==> '\t' !in name.value && NulFree(name.value) && name.value != "-" && name.value != ""
  }

  /** The entries the text format can hold: C strings with no tab outside the whatis text. */
  predicate ValidEntry(e: Entry) {
    && '\t' !in e.sec && '\t' !in e.pointer && '\t' !in e.filter && '\t' !in e.comp
    && NulFree(e.sec) && NulFree(e.pointer) && NulFree(e.filter) && NulFree(e.comp) && NulFree(e.whatis)
    && e.id != '\t' && e.id != '\0'
  }

  lemma SplitStep(head: string, rest: string, n: nat)
    requires '\t' !in head && n > 0
    ensures var r := SplitFields(Some(rest), n - 1);
            SplitFields(Some(head + ['\t'] + rest), n) == if r.None? then None else Some([head] + r.value)
  {
    IndexOfFirst(head, '\t', rest);
    assert StrsepRest(head + ['\t'] + rest) == Some(rest);
  }

  lemma {:induction false} SplitJoin(fields: seq<string>)
    requires fields != []
    requires forall i :: 0 <= i < |fields| - 1 ==> '\t' !in fields[i]
    ensures SplitFields(Some(Join(fields)), |fields| - 1) == Some(fields)
  {
    if |fields| == 1 {
      assert fields == [Join(fields)];
    } else {
      SplitJoin(fields[1..]);
      SplitStep(fields[0], Join(fields[1..]), |fields| - 1);
      assert fields == [fields[0]] + fields[1..];
    }
  }

  /** Parsing an encoded record gives its name, extension and every field back. */
  lemma DecodeEncode(name: Option<string>, ext: string, e: Entry)
    requires ValidName(name) && '\t' !in ext && ValidEntry(e)
    ensures Decode(Encode(name, ext, e)) == Ok(InfoOf(name, ext, e))
  {
    Decimal.PrintRoundTrip(e.mtime.sec);
    Decimal.PrintRoundTrip(e.mtime.nsec);
    SplitJoin(FieldsOf(name, ext, e));
  }

  /** A record never looks like a reference list. */
  lemma EncodeHead(name: Option<string>, ext: string, e: Entry)
    requires ValidName(name)
    ensures Encode(name, ext, e) != "" && Encode(name, ext, e)[0] != '\t'
  {
    var f := FieldsOf(name, ext, e);
    assert Encode(name, ext, e) == f[0] + ['\t'] + Join(f[1..]);
    assert f[0] != "" && f[0][0] in f[0];
  }

  lemma {:induction false} JoinLast(fields: seq<string>, last: string)
    requires fields != []
    ensures Join(fields + [last]) == Join(fields) + "\t" + last
  {
    if |fields| > 1 {
      assert (fields + [last])[1..] == fields[1..] + [last];
      JoinLast(fields[1..], last);
      assert Join(fields + [last]) == fields[0] + ['\t'] + (Join(fields[1..]) + "\t" + last);
    } else {
      assert (fields + [last])[1..] == [last];
    }
  }

  /** One more field of the n that are joined. */
  lemma JoinNext(fields: seq<string>, n: nat)
    requires 0 < n < |fields|
    ensures Join(fields[..n + 1]) == Join(fields[..n]) + "\t" + fields[n]
  {
    assert fields[..n + 1] == fields[..n] + [fields[n]];
    JoinLast(fields[..n], fields[n]);
  }

  /** The bytes of a record. */
  lemma RecordText(name: Option<string>, ext: string, e: Entry)
    ensures Encode(name, ext, e)
         == (if name.Some? then name.value else "-") + "\t" + ext + "\t" + e.sec
            + "\t" + Decimal.Print(e.mtime.sec) + "\t" + Decimal.Print(e.mtime.nsec) + "\t" + [e.id]
            + "\t" + e.pointer + "\t" + e.filter + "\t" + e.comp + "\t" + e.whatis
  {
    hide Join;
    var f := FieldsOf(name, ext, e);
    assert f[..1] == [f[0]] && f[..10] == f;
    JoinOne(f[0]);
    JoinNext(f, 1);
    JoinNext(f, 2);
    JoinNext(f, 3);
    JoinNext(f, 4);
    JoinNext(f, 5);
    JoinNext(f, 6);
    JoinNext(f, 7);
    JoinNext(f, 8);
    JoinNext(f, 9);
  }

  lemma {:induction false} JoinNulFree(fields: seq<string>)
    requires fields != [] && forall i :: 0 <= i < |fields| ==> NulFree(fields[i])
    ensures NulFree(Join(fields))
  {
    if |fields| > 1 {
      JoinNulFree(fields[1..]);
    }
  }

  /** make_content followed by split_content: what the NULL fields were replaced by is what is read. */
  lemma ContentRoundTrip(i: Info)
    requires ValidName(i.name) && '\t' !in i.ext && NulFree(i.ext) && ValidEntry(EntryOf(i))
    ensures NulFree(Encode(i.name, i.ext, EntryOf(i)))
    ensures Decode(Encode(i.name, i.ext, EntryOf(i)))
         == Ok(Info(i.name, i.ext, i.sec, i.mtime, i.id,
                    if i.pointer.None? then Some("-") else i.pointer, if i.filter.None? then Some("-") else i.filter,
                    if i.comp.None? then Some("-") else i.comp, if i.whatis.None? then Some("") else i.whatis))
    ensures var d := Decode(Encode(i.name, i.ext, EntryOf(i))).value;
            Encode(d.name, d.ext, EntryOf(d)) == Encode(i.name, i.ext, EntryOf(i))
  {
    hide Join, Decode;
    DecodeEncode(i.name, i.ext, EntryOf(i));
    Decimal.PrintRoundTrip(i.mtime.sec);
    Decimal.PrintRoundTrip(i.mtime.nsec);
    JoinNulFree(FieldsOf(i.name, i.ext, EntryOf(i)));
  }

  lemma StrsepParts(s: string)
    ensures '\t' !in StrsepToken(s)
    ensures StrsepRest(s).Some? ==> s == StrsepToken(s) + ['\t'] + StrsepRest(s).value
  {
  }

  lemma JoinCons(head: string, tail: seq<string>)
    requires tail != []
    ensures Join([head] + tail) == head + ['\t'] + Join(tail)
  {
    assert ([head] + tail)[1..] == tail;
  }

  /** Cutting at tabs loses nothing. */
  lemma {:induction false} JoinSplit(content: Option<string>, n: nat)
    requires SplitFields(content, n).Some?
    ensures var f := SplitFields(content, n).value;
            && |f| == n + 1 && Join(f) == content.value
            && forall i :: 0 <= i < n ==> '\t' !in f[i]
    decreases n
  {
    hide Join, StrsepToken, StrsepRest;
    if n > 0 {
      var s := content.value;
      JoinSplit(StrsepRest(s), n - 1);
      StrsepParts(s);
      JoinCons(StrsepToken(s), SplitFields(StrsepRest(s), n - 1).value);
    } else {
      JoinOne(content.value);
    }
  }

  lemma JoinOne(s: string)
    ensures Join([s]) == s
  {
  }

  /** A content is a record exactly when it has nine tabs or more; the rest belongs to the last field. */
  lemma DecodeOkIff(content: string)
    ensures Decode(content).Ok? <==>
              exists f: seq<string> :: |f| == 10 && (forall i :: 0 <= i < 9 ==> '\t' !in f[i]) && content == Join(f)
  {
    hide Join, SplitFields;
    if Decode(content).Ok? {
      JoinSplit(Some(content), 9);
    }
    forall f: seq<string> | |f| == 10 && (forall i :: 0 <= i < 9 ==> '\t' !in f[i]) && content == Join(f)
      ensures Decode(content).Ok?
    {
      SplitJoin(f);
    }
  }

  /** What the ten fields are read as: "-" for no name, the times as numbers, the id as one byte. */
  lemma DecodeFields(f: seq<string>)
    requires |f| == 10 && forall i :: 0 <= i < 9 ==> '\t' !in f[i]
    ensures Decode(Join(f))
         == Ok(Info(if f[0] == "-" then None else Some(f[0]), f[1], f[2], Time(Decimal.Atol(f[3]), Decimal.Atol(f[4])),
                    if f[5] == "" then '\0' else f[5][0], Some(f[6]), Some(f[7]), Some(f[8]), Some(f[9])))
  {
    hide Join, SplitFields, Decimal.Atol;
    SplitJoin(f);
  }

  /** Which contents come back byte for byte when they are read and written again. */
  lemma ReencodeIff(content: string)
    requires NulFree(content)
    ensures Decode(content).Ok? ==>
              var d, f := Decode(content).value, SplitFields(Some(content), FIELDS - 1).value;
              && |f| == FIELDS
              && (Encode(d.name, d.ext, EntryOf(d)) == content
                  <==> Decimal.PlainNumber(f[3]) && Decimal.PlainNumber(f[4]) && |f[5]| == 1)
  {
    hide Join, SplitFields, Decimal.Print, Decimal.Atol, Decimal.PlainNumber;
    if Decode(content).Ok? {
      var d, f := Decode(content).value, SplitFields(Some(content), FIELDS - 1).value;
      JoinSplit(Some(content), FIELDS - 1);
      var g := FieldsOf(d.name, d.ext, EntryOf(d));
      Decimal.PrintRoundTrip(d.mtime.sec);
      Decimal.PrintRoundTrip(d.mtime.nsec);
      Decimal.ReprintIff(f[3]);
      Decimal.ReprintIff(f[4]);
      assert f[5] != "" ==> f[5][0] in f[5];
      SplitJoin(g);
      assert Join(g) == content ==> f == g;
      forall i | 0 <= i < FIELDS && f[3] == g[3] && f[4] == g[4] && |f[5]| == 1 ensures f[i] == g[i] {
        assert f[5] == [f[5][0]];
      }
      assert f[3] == g[3] && f[4] == g[4] && |f[5]| == 1 ==> f == g;
      assert f == g ==> f[3] == g[3] && f[4] == g[4] && f[5] == g[5];
    }
  }

  /** make_content: fills the NULL fields of its argument and prints all of them. */
  method MakeContent(in_: Mandata) returns (content: string)
    modifies in_
    ensures content == Encode(old(in_.name), old(in_.ext), EntryOf(old(in_.Value())))
    ensures in_.Value() == Filled(old(in_.Value()))
  {
    if in_.pointer.None? { in_.pointer := Some("-"); }
    if in_.comp.None? { in_.comp := Some("-"); }
    if in_.filter.None? { in_.filter := Some("-"); }
    if in_.whatis.None? { in_.whatis := Some(""); }
    content := Join([
      DashIfUnset(in_.name), in_.ext, in_.sec,
      Decimal.Print(in_.mtime.sec), Decimal.Print(in_.mtime.nsec),
      [in_.id], in_.pointer.value, in_.filter.value, in_.comp.value, in_.whatis.value]);
  }

  /** split_data: cut the content at its first nine tabs. */
  method SplitData(content: string, start: array<string>) returns (r: Outcome<()>)
    requires start.Length == FIELDS
    modifies start
    ensures r.Ok? <==> SplitFields(Some(content), FIELDS - 1).Some?
    ensures r.Ok? ==> start[..] == SplitFields(Some(content), FIELDS - 1).value
  {
    hide StrsepToken, StrsepRest;
    var rest := Some(content);
    var count := 0;
    while count < FIELDS - 1
      invariant 0 <= count <= FIELDS - 1
      invariant var whole, tail := SplitFields(Some(content), FIELDS - 1), SplitFields(rest, FIELDS - 1 - count);
                && (whole.Some? <==> tail.Some?)
                && (whole.Some? ==> whole.value == start[..count] + tail.value)
    {
      if rest.None? {
        return Corrupt;
      }
      start[count] := StrsepToken(rest.value);
      rest := StrsepRest(rest.value);
      assert start[..count + 1] == start[..count] + [start[count]];
      count := count + 1;
    }
    if rest.None? {
      return Corrupt;
    }
    start[FIELDS - 1] := rest.value;
    return Ok(());
  }

  /** split_content: parse a content string into a newly allocated structure. */
  method SplitContent(content: string) returns (r: Outcome<Mandata>)
    ensures r.Ok? <==> Decode(content).Ok?
    ensures r.Ok? ==> fresh(r.value) && r.value.Value() == Decode(content).value
  {
    var start := new string[FIELDS](_ => "");
    var ok := SplitData(content, start);
    if ok.Corrupt? {
      return Corrupt;
    }
    ghost var f := start[..];
    var info := new Mandata(Info(
      CopyIfSet(start[0]), start[1], start[2], Time(Decimal.Atol(start[3]), Decimal.Atol(start[4])),
      FirstByte(start[5]), Some(start[6]), Some(start[7]), Some(start[8]), Some(start[9])));
    return Ok(info);
  }

  /** Results found before the result of the rest. */
  function Prepend(infos: seq<Info>, r: Outcome<seq<Info>>): Outcome<seq<Info>> {
    if r.Corrupt? then Corrupt else Ok(infos + r.value)
  }

  lemma PrependMore(infos: seq<Info>, more: seq<Info>, r: Outcome<seq<Info>>)
    ensures Prepend(infos, Prepend(more, r)) == Prepend(infos + more, r)
    ensures Prepend([], r) == r
  {
    assert r.Ok? ==> infos + (more + r.value) == infos + more + r.value && [] + r.value == r.value;
  }
}
