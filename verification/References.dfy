/**
  * Reference lists: the content of a simple key that stands for several pages.
  * libdb/db_lookup.c name_ext_compare and list_extensions, libdb/db_store.c
  * make_extensions_reference, src/check_mandirs.c check_multi_key.
  */
module References {
  import opened Wrappers
  import opened CString
  import opened Ordered
  import opened Record

  /** struct name_ext: the identity of a page. */
  datatype Page = Page(name: string, ext: string)

  function NameExtCompare(p: Page, q: Page): int {
    var c := Compare(p.name, q.name);
    if c != 0 then c else Compare(p.ext, q.ext)
  }

  predicate NameExtLess(p: Page, q: Page) {
    NameExtCompare(p, q) < 0
  }

  lemma CompareTotalOrder()
    ensures StrictTotalOrder(Less)
  {
    forall a: string, b: string ensures !Less(a, a) && (a == b || Less(a, b) || Less(b, a)) {
      CompareZero(a, b);
      CompareZero(a, a);
      CompareAntisymmetric(a, b);
    }
    forall a: string, b: string, c: string | Less(a, b) && Less(b, c) ensures Less(a, c) {
      LessTransitive(a, b, c);
    }
  }

  /** name_ext_compare is a total order, and it is zero only for the same page. */
  lemma NameExtTotalOrder()
    ensures StrictTotalOrder(NameExtLess)
    ensures forall p, q :: NameExtCompare(p, q) == 0 <==> p == q
  {
    forall p, q ensures NameExtCompare(p, q) == 0 <==> p == q {
      CompareZero(p.name, q.name);
      CompareZero(p.ext, q.ext);
    }
    forall p, q ensures p == q || NameExtLess(p, q) || NameExtLess(q, p) {
      CompareAntisymmetric(p.name, q.name);
      CompareAntisymmetric(p.ext, q.ext);
    }
    forall p, q, r | NameExtLess(p, q) && NameExtLess(q, r) ensures NameExtLess(p, r) {
      NameExtTransitive(p, q, r);
    }
  }

  /** Pages are ordered by name, and pages of one name by extension. */
  lemma NameExtLessIff(p: Page, q: Page)
    ensures NameExtLess(p, q) <==> Precedes(p.name, q.name) || (p.name == q.name && Precedes(p.ext, q.ext))
  {
    hide Compare, Precedes;
    LessIff(p.name, q.name);
    LessIff(p.ext, q.ext);
    CompareZero(p.name, q.name);
  }

  lemma NameExtTransitive(p: Page, q: Page, r: Page)
    requires NameExtLess(p, q) && NameExtLess(q, r)
    ensures NameExtLess(p, r)
  {
    CompareTotalOrder();
    CompareZero(p.name, q.name);
    CompareZero(q.name, r.name);
    if p.name == q.name == r.name {
      CompareZero(p.name, r.name);
      LessTransitive(p.ext, q.ext, r.ext);
    } else {
      assert p.name != q.name ==> Less(p.name, q.name);
      assert q.name != r.name ==> Less(q.name, r.name);
      assert Less(p.name, r.name);
    }
  }

  /** Each page as a tab, its name, a tab and its extension. */
  function RefText(refs: seq<Page>): string {
    if refs == [] then ""
    else ['\t'] + PageText(refs[0], RefText(refs[1..]))
  }

  function PageText(p: Page, tail: string): string {
    p.name + ['\t'] + (p.ext + tail)
  }

  /** Pairs of strsep tokens, each added to a sorted list; data is NULL once used up. */
  function ListExtensionsFrom(data: Option<string>, list: seq<Page>): seq<Page>
    decreases if data.Some? then |data.value| + 1 else 0
  {
    if data.None? then list
    else
      var name, rest := StrsepToken(data.value), StrsepRest(data.value);
      if rest.None? then list
      else
        var p := Page(name, StrsepToken(rest.value));
        ListExtensionsFrom(StrsepRest(rest.value), Insert(NameExtLess, list, p))
  }

  /** list_extensions */
  function ListExtensionsSpec(data: string): seq<Page> {
    ListExtensionsFrom(Some(data), [])
  }

  /** A name at the end without an extension is dropped. */
  lemma NameAlone(name: string, list: seq<Page>)
    requires '\t' !in name
    ensures ListExtensionsFrom(Some(name), list) == list
  {
    IndexOfNone(name, '\t');
  }

  predicate TabFreePages(refs: seq<Page>) {
    forall p :: p in refs ==> '\t' !in p.name && '\t' !in p.ext
  }

  /** One turn of list_extensions over text that starts with a page. */
  lemma ListStep(p: Page, tail: string, list: seq<Page>)
    requires '\t' !in p.name && '\t' !in p.ext && (tail != "" ==> tail[0] == '\t')
    ensures ListExtensionsFrom(Some(PageText(p, tail)), list)
            == ListExtensionsFrom(if tail == "" then None else Some(tail[1..]), Insert(NameExtLess, list, p))
  {
    IndexOfFirst(p.name, '\t', p.ext + tail);
    assert StrsepRest(PageText(p, tail)) == Some(p.ext + tail);
    if tail == "" {
      assert p.ext + tail == p.ext;
      IndexOfNone(p.ext, '\t');
    } else {
      assert p.ext + tail == p.ext + ['\t'] + tail[1..];
      IndexOfFirst(p.ext, '\t', tail[1..]);
    }
  }

  lemma {:induction false} ListFromText(refs: seq<Page>, list: seq<Page>)
    requires refs != [] && TabFreePages(refs)
    requires Ascending(NameExtLess, list + refs)
    ensures ListExtensionsFrom(Some(RefText(refs)[1..]), list) == list + refs
  {
    hide Compare, NameExtCompare, Insert, PageText;
    var p := refs[0];
    assert p in refs;
    var tail := RefText(refs[1..]);
    ListStep(p, tail, list);
    assert RefText(refs)[1..] == PageText(p, tail);
    InsertLast(list, p, refs);
    if refs[1..] != [] {
      ListFromText(refs[1..], list + [p]);
    }
  }

  lemma InsertLast(list: seq<Page>, p: Page, refs: seq<Page>)
    requires refs != [] && refs[0] == p
    requires Ascending(NameExtLess, list + refs)
    ensures Insert(NameExtLess, list, p) == list + [p]
    ensures list + refs == (list + [p]) + refs[1..]
  {
    hide Compare, NameExtCompare;
    var all := list + refs;
    forall i | 0 <= i < |list| ensures NameExtLess(list[i], p) {
      assert all[i] == list[i] && all[|list|] == p;
    }
    assert Position(NameExtLess, list, p) == |list|;
  }

  /** list_extensions reads back every non-empty sorted list that make_extensions_reference wrote. */
  lemma ReferenceRoundTrip(refs: seq<Page>)
    requires refs != [] && TabFreePages(refs) && Ascending(NameExtLess, refs)
    ensures IsList(RefText(refs))
    ensures ListExtensionsSpec(RefText(refs)[1..]) == refs
  {
    hide Compare, NameExtCompare, ListExtensionsFrom;
    assert [] + refs == refs;
    ListFromText(refs, []);
  }

  /** list_extensions, with its strsep calls on the moving data pointer. */
  method ListExtensions(data: string) returns (list: seq<Page>)
    ensures list == ListExtensionsSpec(data)
  {
    list := [];
    var rest := Some(data);
    while rest.Some?
      invariant ListExtensionsFrom(rest, list) == ListExtensionsSpec(data)
      decreases if rest.Some? then |rest.value| + 1 else 0
    {
      var name := StrsepToken(rest.value);
      rest := StrsepRest(rest.value);
      if rest.None? {
        break;
      }
      var ext := StrsepToken(rest.value);
      rest := StrsepRest(rest.value);
      list := Insert(NameExtLess, list, Page(name, ext));
    }
  }

  /** stpcpy (buf + cur, s): copies s and a NUL, and returns the address of that NUL. */
  method Stpcpy(buf: array<char>, cur: nat, s: string) returns (next: nat)
    requires cur + |s| < buf.Length
    modifies buf
    ensures next == cur + |s|
    ensures buf[..next] == old(buf[..cur]) + s
    ensures buf[next] == '\0'
  {
    var i := 0;
    while i < |s|
      invariant 0 <= i <= |s|
      invariant buf[..cur + i] == old(buf[..cur]) + s[..i]
    {
      buf[cur + i] := s[i];
      assert buf[..cur + i + 1] == buf[..cur + i] + [s[i]];
      assert s[..i + 1] == s[..i] + [s[i]];
      i := i + 1;
    }
    assert s[..i] == s;
    next := cur + |s|;
    buf[next] := '\0';
    assert buf[..next] == old(buf[..cur]) + s;
  }

  /** The body of the second loop: tab, name, tab, extension. */
  method WritePage(buf: array<char>, cur: nat, p: Page) returns (next: nat)
    requires cur + |p.name| + |p.ext| + 2 < buf.Length
    modifies buf
    ensures next == cur + |p.name| + |p.ext| + 2
    ensures buf[..next] == old(buf[..cur]) + RefText([p])
  {
    ghost var text := buf[..cur];
    buf[cur] := '\t';
    assert buf[..cur + 1] == text + ['\t'];
    next := Stpcpy(buf, cur + 1, p.name);
    buf[next] := '\t';
    assert buf[..next + 1] == text + ['\t'] + p.name + ['\t'];
    next := Stpcpy(buf, next + 1, p.ext);
    assert p.ext + "" == p.ext;
    assert text + ['\t'] + p.name + ['\t'] + p.ext == text + (['\t'] + PageText(p, ""));
  }

  lemma PageTextAppend(p: Page, t: string, u: string)
    ensures ['\t'] + PageText(p, t + u) == (['\t'] + PageText(p, t)) + u
  {
    AppendAssociative(p.ext, t, u);
    AppendAssociative(p.name + ['\t'], p.ext + t, u);
    AppendAssociative(['\t'], PageText(p, t), u);
  }

  lemma {:induction false} RefTextAppend(refs: seq<Page>, p: Page)
    ensures RefText(refs + [p]) == RefText(refs) + RefText([p])
  {
    hide PageText;
    if refs == [] {
      assert refs + [p] == [p];
    } else {
      assert (refs + [p])[1..] == refs[1..] + [p];
      RefTextAppend(refs[1..], p);
      PageTextAppend(refs[0], RefText(refs[1..]), RefText([p]));
    }
  }

  /** The bytes of a reference list. */
  lemma {:induction false} RefTextAround(refs: seq<Page>, p: Page, more: seq<Page>)
    ensures RefText(refs + [p] + more) == RefText(refs) + "\t" + p.name + "\t" + p.ext + RefText(more)
  {
    hide PageText;
    if refs == [] {
      assert ([p] + more)[1..] == more && refs + [p] + more == [p] + more;
      PageTextIs(p, RefText(more));
    } else {
      assert (refs + [p] + more)[0] == refs[0] && (refs + [p] + more)[1..] == refs[1..] + [p] + more;
      RefTextAround(refs[1..], p, more);
      PageTextIs(refs[0], RefText(refs[1..]));
      PageTextIs(refs[0], RefText(refs[1..] + [p] + more));
      AppendAssociative("\t" + refs[0].name + "\t" + refs[0].ext, RefText(refs[1..]), "\t" + p.name);
    }
  }

  lemma PageTextIs(p: Page, tail: string)
    ensures ['\t'] + PageText(p, tail) == "\t" + p.name + "\t" + p.ext + tail
  {
  }

  /** The bytes make_extensions_reference counts before it allocates. */
  function RefLength(refs: seq<Page>): nat {
    if refs == [] then 0 else |refs[0].name| + |refs[0].ext| + 2 + RefLength(refs[1..])
  }

  lemma {:induction false} RefLengthAppend(refs: seq<Page>, p: Page)
    ensures RefLength(refs + [p]) == RefLength(refs) + |p.name| + |p.ext| + 2
  {
    if refs != [] {
      assert (refs + [p])[1..] == refs[1..] + [p];
      RefLengthAppend(refs[1..], p);
    }
  }

  lemma {:induction false} RefLengthMonotone(refs: seq<Page>, n: nat)
    requires n <= |refs|
    ensures RefLength(refs[..n]) <= RefLength(refs)
  {
    if n > 0 {
      assert refs[..n][1..] == refs[1..][..n - 1];
      RefLengthMonotone(refs[1..], n - 1);
    }
  }

  /** make_extensions_reference: two passes over the list, filling a buffer of the counted size. */
  method MakeExtensionsReference(refs: seq<Page>) returns (data: string)
    ensures data == RefText(refs)
  {
    var len := 0;
    for i := 0 to |refs|
      invariant len == RefLength(refs[..i])
    {
      assert refs[..i + 1] == refs[..i] + [refs[i]];
      RefLengthAppend(refs[..i], refs[i]);
      len := len + |refs[i].name| + |refs[i].ext| + 2;
    }
    assert refs[..|refs|] == refs;
    var buf := new char[len + 1](_ => '\0');
    var cur := 0;
    for i := 0 to |refs|
      invariant cur == RefLength(refs[..i]) <= len
      invariant buf[..cur] == RefText(refs[..i])
    {
      assert refs[..i + 1] == refs[..i] + [refs[i]];
      RefLengthAppend(refs[..i], refs[i]);
      RefLengthMonotone(refs, i + 1);
      RefTextAppend(refs[..i], refs[i]);
      cur := WritePage(buf, cur, refs[i]);
    }
    data := buf[..cur];
  }

  /** The verdict of check_multi_key from one walk position on: does some name not fit the key? */
  function CheckMultiKeySpec(name: string, content: string): bool
    decreases |content|
  {
    if content == "" then false
    else
      var walk := content[1..];
      var i := IndexOf(walk, '\t');
      var valid := if i < |walk| then CaseCompareN(name, walk, i) == 0 else CaseCompare(name, walk) == 0;
      if !valid then true
      else if i == |walk| then false
      else
        var ext := walk[i + 1..];
        var j := IndexOf(ext, '\t');
        if j == |ext| then false else CheckMultiKeySpec(name, ext[j..])
  }

  /** check_multi_key, walking two pointers through the content. */
  method CheckMultiKey(name: string, content: string) returns (broken: bool)
    ensures broken == CheckMultiKeySpec(name, content)
  {
    if content == "" {
      return false;
    }
    var walk := Some(content);
    while walk.Some? && walk.value != ""
      invariant CheckMultiKeySpec(name, content) == (walk.Some? && CheckMultiKeySpec(name, walk.value))
      decreases if walk.Some? then |walk.value| else 0
    {
      var w := walk.value[1..];
      var next := IndexOf(w, '\t');
      var valid := true;
      if next < |w| {
        if CaseCompareN(name, w, next) != 0 { valid := false; }
      } else {
        if CaseCompare(name, w) != 0 { valid := false; }
      }
      if !valid {
        return true;
      }
      walk := if next < |w| then Some(w[next..]) else None;
      if walk.Some? {
        var after := walk.value[1..];
        assert after == w[next + 1..];
        var j := IndexOf(after, '\t');
        walk := if j < |after| then Some(after[j..]) else None;
      }
    }
    return false;
  }

  /** The names that pass: prefixes of the key up to case, since only the listed name's length is compared. */
  predicate Fits(key: string, p: Page) {
    Lower(p.name) <= Lower(key)
  }

  lemma CaseCompareNPrefix(key: string, name: string, rest: string)
    ensures CaseCompareN(key, name + rest, |name|) == 0 <==> Lower(name) <= Lower(key)
  {
    hide Compare, Lower;
    assert Take(name + rest, |name|) == name;
    var n, k, l := |name|, Take(key, |name|), Lower(name);
    CompareZero(Lower(k), l);
    if n <= |key| {
      LowerTake(key, n);
      assert Lower(key)[..n] == Lower(k);
    } else {
      assert |Lower(k)| != |l|;
    }
  }

  lemma CheckMultiKeyStep(key: string, p: Page, tail: string)
    requires '\t' !in p.name && '\t' !in p.ext && (tail != "" ==> tail[0] == '\t')
    ensures CheckMultiKeySpec(key, ['\t'] + PageText(p, tail))
            == (!Fits(key, p) || CheckMultiKeySpec(key, tail))
  {
    hide CaseCompareN, CaseCompare, Fits, IndexOf;
    var walk := PageText(p, tail);
    assert (['\t'] + walk)[1..] == walk;
    PageTextParts(p, tail);
    FitsName(key, p, ['\t'] + (p.ext + tail));
    ExtensionEnd(p, tail);
  }

  lemma PageTextParts(p: Page, tail: string)
    requires '\t' !in p.name
    ensures var walk := PageText(p, tail);
            && IndexOf(walk, '\t') == |p.name| < |walk| && walk[|p.name| + 1..] == p.ext + tail
            && walk == p.name + (['\t'] + (p.ext + tail))
  {
    IndexOfFirst(p.name, '\t', p.ext + tail);
    AppendAssociative(p.name, ['\t'], p.ext + tail);
  }

  lemma FitsName(key: string, p: Page, rest: string)
    ensures CaseCompareN(key, p.name + rest, |p.name|) == 0 <==> Fits(key, p)
  {
    CaseCompareNPrefix(key, p.name, rest);
  }

  /** The extension runs to the next tab, where the rest of the list begins, or to the end. */
  lemma ExtensionEnd(p: Page, tail: string)
    requires '\t' !in p.ext && (tail != "" ==> tail[0] == '\t')
    ensures IndexOf(p.ext + tail, '\t') == |p.ext|
    ensures (p.ext + tail)[|p.ext|..] == tail
  {
    if tail == "" {
      assert p.ext + tail == p.ext;
      IndexOfNone(p.ext, '\t');
    } else {
      assert p.ext + tail == p.ext + ['\t'] + tail[1..];
      IndexOfFirst(p.ext, '\t', tail[1..]);
    }
  }

  /** On a well-formed list check_multi_key complains exactly when some listed name does not fit. */
  lemma {:induction false} CheckMultiKeyExact(key: string, refs: seq<Page>)
    requires TabFreePages(refs)
    ensures CheckMultiKeySpec(key, RefText(refs)) <==> exists p :: p in refs && !Fits(key, p)
  {
    if refs != [] {
      assert refs[0] in refs;
      CheckMultiKeyStep(key, refs[0], RefText(refs[1..]));
      CheckMultiKeyExact(key, refs[1..]);
      assert refs == [refs[0]] + refs[1..];
    }
  }

  /** A listed name that is only a beginning of the key is not reported. */
  lemma CheckMultiKeyMisses()
    ensures !CheckMultiKeySpec("ab", RefText([Page("a", "1")])) && Lower("a") != Lower("ab")
  {
    hide CheckMultiKeySpec, RefText, Lower;
    LowerFixed("a");
    LowerFixed("ab");
    CheckMultiKeyExact("ab", [Page("a", "1")]);
  }

  /** In particular a list whose names equal the key up to case is never reported. */
  lemma CheckMultiKeyAccepts(key: string, refs: seq<Page>)
    requires TabFreePages(refs) && forall p :: p in refs ==> Lower(p.name) == Lower(key)
    ensures !CheckMultiKeySpec(key, RefText(refs))
  {
    CheckMultiKeyExact(key, refs);
  }
}
