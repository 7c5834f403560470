/**
  * Looking a page up: libdb/db_lookup.c dblookup, dblookup_all and dblookup_exact.
  */
module DbLookup {
  import opened Wrappers
  import opened CString
  import opened Ordered
  import opened Record
  import opened References
  import opened Xdbm
  import opened Index
  import DbStore

  /** The section argument and the flags of dblookup. */
  datatype Query = Query(page: string, section: Option<string>, exact: bool, matchCase: bool)

  predicate SectionMatches(q: Query, ext: string) {
    q.section.None? || (if q.exact then q.section.value == ext else q.section.value <= ext)
  }

  predicate Suits(q: Query, name: string, ext: string) {
    (q.matchCase ==> name == q.page) && SectionMatches(q, ext)
  }

  /** The pages of a reference list that suit the query, each fetched by its multi key. */
  function LookupRefs(store: map<string, string>, q: Query, refs: seq<Page>): Outcome<seq<Info>> {
    if refs == [] then Ok([])
    else
      var p := refs[0];
      if !Suits(q, p.name, p.ext) then LookupRefs(store, q, refs[1..])
      else if MultiKey(p) !in store then Corrupt
      else
        var d := Decode(store[MultiKey(p)]);
        var rest := LookupRefs(store, q, refs[1..]);
        if d.Corrupt? || rest.Corrupt? then Corrupt else Ok([Named(d.value, p.name)] + rest.value)
  }

  /** A record without a name field takes the given name. */
  function Named(d: Info, name: string): Info {
    if d.name.None? then d.(name := Some(name)) else d
  }

  /** What dblookup returns for any raw store. */
  function LookupSpec(store: map<string, string>, q: Query): Outcome<seq<Info>> {
    var key := Lower(q.page);
    if key !in store then Ok([])
    else if !IsList(store[key]) then
      var d := Decode(store[key]);
      if d.Corrupt? then Corrupt
      else
        var info := Named(d.value, q.page);
        Ok(if Suits(q, info.name.value, info.ext) then [info] else [])
    else LookupRefs(store, q, ListExtensionsSpec(store[key][1..]))
  }

  /** dblookup */
  method Lookup(dbf: Dbm, q: Query) returns (r: Outcome<seq<Info>>)
    ensures r == LookupSpec(dbf.store, q)
  {
    hide Decode, Lower, ListExtensionsSpec, LookupRefs;
    var key := DbStore.NameToKey(q.page);
    var cont := dbf.Fetch(key);
    if cont.None? {
      return Ok([]);
    }
    if !IsList(cont.value) {
      var info := SplitContent(cont.value);
      if info.Corrupt? {
        return Corrupt;
      }
      if info.value.name.None? {
        info.value.name := Some(q.page);
      }
      var matches := false;
      if !q.matchCase || info.value.name.value == q.page {
        if q.section.None? {
          matches := true;
        } else if q.exact {
          if q.section.value == info.value.ext { matches := true; }
        } else {
          if q.section.value <= info.value.ext { matches := true; }
        }
      }
      return Ok(if matches then [info.value.Value()] else []);
    }
    var refs := ListExtensions(cont.value[1..]);
    r := LookupMulti(dbf, q, refs);
  }

  /** The loop of dblookup over a reference list. */
  method LookupMulti(dbf: Dbm, q: Query, refs: seq<Page>) returns (r: Outcome<seq<Info>>)
    ensures r == LookupRefs(dbf.store, q, refs)
  {
    hide Decode, MultiKey;
    var infos := [];
    assert refs[0..] == refs;
    PrependMore([], [], LookupRefs(dbf.store, q, refs));
    for i := 0 to |refs|
      invariant LookupRefs(dbf.store, q, refs) == Prepend(infos, LookupRefs(dbf.store, q, refs[i..]))
    {
      var p := refs[i];
      assert refs[i..][0] == p && refs[i..][1..] == refs[i + 1..];
      if q.matchCase && p.name != q.page {
        continue;
      }
      if q.section.Some? {
        if q.exact {
          if q.section.value != p.ext { continue; }
        } else {
          if !(q.section.value <= p.ext) { continue; }
        }
      }
      var content := dbf.Fetch(MultiKey(p));
      if content.None? {
        return Corrupt;
      }
      var info := SplitContent(content.value);
      if info.Corrupt? {
        return Corrupt;
      }
      if info.value.name.None? {
        info.value.name := Some(p.name);
      }
      PrependMore(infos, [info.value.Value()], LookupRefs(dbf.store, q, refs[i + 1..]));
      infos := infos + [info.value.Value()];
    }
    assert infos + [] == infos;
    return Ok(infos);
  }

  /** dblookup_all */
  method LookupAll(dbf: Dbm, page: string, section: Option<string>, matchCase: bool) returns (r: Outcome<seq<Info>>)
    ensures r == LookupSpec(dbf.store, Query(page, section, false, matchCase))
  {
    r := Lookup(dbf, Query(page, section, false, matchCase));
  }

  /** dblookup_exact: the first structure found, or NULL. */
  method LookupExact(dbf: Dbm, page: string, section: string, matchCase: bool) returns (r: Outcome<Option<Info>>)
    ensures r == First(LookupSpec(dbf.store, Query(page, Some(section), true, matchCase)))
  {
    var infos := Lookup(dbf, Query(page, Some(section), true, matchCase));
    if infos.Corrupt? {
      return Corrupt;
    }
    return Ok(if |infos.value| > 0 then Some(infos.value[0]) else None);
  }

  function First(r: Outcome<seq<Info>>): Outcome<Option<Info>> {
    if r.Corrupt? then Corrupt else Ok(if r.value == [] then None else Some(r.value[0]))
  }

  /**
    * The query's key is no page name but a database identifier, or the multi key of a listed page whose
    * extension suits.
    */
  predicate Misdirected(store: map<string, string>, q: Query) {
    var k := Lower(q.page);
    k in store && (IsSpecial(k) || ('\t' in k && SectionMatches(q, KeyPage(k).ext)))
  }

  /**
    * The name under which a page is returned.  A page stored alone under a name equal to its
    * key has no name field, and takes the spelling of the query.
    */
  ghost function ShownName(v: View, page: string, p: Page): string {
    if Key(p) !in v.multi && p.name == Key(p) then page else p.name
  }

  ghost function Shown(v: View, page: string, p: Page): Info
    requires p in v.pages
  {
    InfoOf(Some(ShownName(v, page, p)), p.ext, v.pages[p])
  }

  /**
    * Does the page, shown under this name, answer the query?  Names agree up to case at least, and a
    * section is a whole extension or the beginning of one.
    */
  predicate Answers(q: Query, p: Page, shown: string) {
    && SameLetters(p.name, q.page)
    && (q.matchCase ==> shown == q.page)
    && (q.section.Some? ==> if q.exact then p.ext == q.section.value else q.section.value <= p.ext)
  }

  /** The stored pages that answer the query, in (name, ext) order. */
  ghost function Hits(v: View, q: Query): seq<Page> {
    SortedPages(set p | p in v.pages && Answers(q, p, ShownName(v, q.page, p)))
  }

  lemma HitsAre(v: View, q: Query)
    ensures (set p | p in v.pages && Answers(q, p, ShownName(v, q.page, p)))
         == (set p | p in v.pages && Key(p) == Lower(q.page) && Suits(q, ShownName(v, q.page, p), p.ext))
  {
    hide Lower, SameLetters, ShownName;
    forall p | p in v.pages
      ensures Answers(q, p, ShownName(v, q.page, p))
              <==> Key(p) == Lower(q.page) && Suits(q, ShownName(v, q.page, p), p.ext)
    {
      SameLettersIff(p.name, q.page);
    }
  }

  ghost predicate Shows(v: View, q: Query, infos: seq<Info>, pages: seq<Page>) {
    && |infos| == |pages|
    && forall i :: 0 <= i < |pages| ==> pages[i] in v.pages && infos[i] == Shown(v, q.page, pages[i])
  }

  /** Queries whose key is neither special nor a multi key. */
  lemma LookupPlain(store: map<string, string>, v: View, q: Query)
    requires Represents(store, v) && !IsSpecial(Lower(q.page)) && '\t' !in Lower(q.page)
    ensures LookupSpec(store, q).Ok?
    ensures Shows(v, q, LookupSpec(store, q).value, Hits(v, q))
  {
    hide Represents, ValidView, At, Encode, RefText, Lower, Ascending, MultiKey, LookupRefs;
    var k := Lower(q.page);
    Reads(store, v, k);
    if k in v.multi {
      LookupInList(store, v, q);
    } else if Under(v.pages, k) == {} {
      AtEmpty(v, k);
      NoHits(v, q);
    } else {
      LookupSingle(store, v, q, SinglePage(v, k));
    }
  }

  lemma NoHits(v: View, q: Query)
    requires Under(v.pages, Lower(q.page)) == {}
    ensures Hits(v, q) == []
  {
    hide Lower;
    var k := Lower(q.page);
    HitsAre(v, q);
    assert (set p | p in v.pages && Key(p) == k && Suits(q, ShownName(v, q.page, p), p.ext)) <= Under(v.pages, k);
  }

  /** The answer to a query whose key has a tab: the record of the listed page of that key, under the query's text. */
  ghost function TabAnswer(v: View, q: Query): seq<Info> {
    var p := KeyPage(Lower(q.page));
    if p in v.pages && Key(p) in v.multi && SectionMatches(q, p.ext) then
      [InfoOf(Some(q.page), p.ext, v.pages[p])]
    else []
  }

  lemma LookupTab(store: map<string, string>, v: View, q: Query)
    requires Represents(store, v) && !IsSpecial(Lower(q.page)) && '\t' in Lower(q.page)
    ensures LookupSpec(store, q) == Ok(TabAnswer(v, q))
    ensures TabAnswer(v, q) != [] <==> Misdirected(store, q)
  {
    hide Represents, ValidView, ValidPage, ValidEntry, Encode, RefText, Lower, Decode, ListExtensionsSpec;
    var k := Lower(q.page);
    var p := KeyPage(k);
    Reads(store, v, k);
    if k in store {
      MultiKeyWellFormed(store, v, k);
      EncodeHead(None, p.ext, v.pages[p]);
    }
  }

  /** A special key: dblookup answers when the identifier happens to read as a record or a list. */
  ghost predicate SpecialReadable(store: map<string, string>, q: Query, content: string) {
    if IsList(content) then RefsReadable(store, q, ListExtensionsSpec(content[1..])) else Decode(content).Ok?
  }

  ghost predicate RefsReadable(store: map<string, string>, q: Query, refs: seq<Page>) {
    forall p :: p in refs && Suits(q, p.name, p.ext) ==> MultiKey(p) in store && Decode(store[MultiKey(p)]).Ok?
  }

  lemma {:induction false} LookupRefsOkIff(store: map<string, string>, q: Query, refs: seq<Page>)
    ensures LookupRefs(store, q, refs).Ok? <==> RefsReadable(store, q, refs)
  {
    hide Suits, MultiKey, Decode;
    if refs != [] {
      LookupRefsOkIff(store, q, refs[1..]);
      assert forall p :: p in refs <==> p == refs[0] || p in refs[1..] by { assert refs == [refs[0]] + refs[1..]; }
    }
  }

  /** Text without a tab is no record. */
  lemma TabFreeCorrupt(content: string)
    requires '\t' !in content
    ensures Decode(content).Corrupt? && !IsList(content)
  {
    IndexOfNone(content, '\t');
  }

  /**
    * dblookup on any index and any query.  It takes the corrupt-data exit only for the key of a database
    * identifier, and exactly when that cannot be read.  Unless the query is misdirected it returns
    * exactly the stored pages whose lower-cased name is the query's and that suit it, each once and in
    * (name, ext) order, with all their fields.  A query that is a multi key returns that record.
    */
  lemma LookupComplete(store: map<string, string>, v: View, q: Query)
    requires Represents(store, v)
    ensures var k := Lower(q.page);
            LookupSpec(store, q).Ok? <==> (IsSpecial(k) && k in v.other ==> SpecialReadable(store, q, v.other[k]))
    ensures !Misdirected(store, q) ==>
              LookupSpec(store, q).Ok? && Shows(v, q, LookupSpec(store, q).value, Hits(v, q))
    ensures '\t' in Lower(q.page) && !IsSpecial(Lower(q.page)) ==> LookupSpec(store, q) == Ok(TabAnswer(v, q))
  {
    hide Represents, ValidView, Encode, RefText, Lower, LookupRefs, Hits, Decode, ListExtensionsSpec, TabAnswer;
    var k := Lower(q.page);
    Reads(store, v, k);
    ViewOf(store, v);
    if IsSpecial(k) {
      if k in store && IsList(store[k]) { LookupRefsOkIff(store, q, ListExtensionsSpec(store[k][1..])); }
      NoPageBelow(v, k);
      NoHits(v, q);
    } else if '\t' in k {
      LookupTab(store, v, q);
      NoPageBelow(v, k);
      NoHits(v, q);
    } else {
      LookupPlain(store, v, q);
    }
  }

  /** dblookup returns exactly the suitable pages if and only if the query is not misdirected. */
  lemma LookupExactlyIff(store: map<string, string>, v: View, q: Query)
    requires Represents(store, v) && Identifiers(v)
    ensures LookupSpec(store, q).Ok? && Shows(v, q, LookupSpec(store, q).value, Hits(v, q))
            <==> !Misdirected(store, q)
  {
    hide Represents, ValidView, Encode, RefText, Lower, LookupRefs, Hits, Decode, ListExtensionsSpec, TabAnswer;
    var k := Lower(q.page);
    LookupComplete(store, v, q);
    Reads(store, v, k);
    ViewOf(store, v);
    if Misdirected(store, q) {
      NoPageBelow(v, k);
      NoHits(v, q);
      if IsSpecial(k) {
        TabFreeCorrupt(store[k]);
      } else {
        LookupTab(store, v, q);
      }
    }
  }

  /** Every index has the version identifier, and looking its key up is the corrupt-data exit. */
  lemma VersionLookup(section: Option<string>, exact: bool, matchCase: bool)
    ensures var store := map["$version$" := "2.5.0"];
            && Represents(store, View(map[], {}, store))
            && LookupSpec(store, Query("$version$", section, exact, matchCase)) == Corrupt
  {
    hide Represents, Decode, Lower, At;
    var store := map["$version$" := "2.5.0"];
    OnlyIdentifiers(store);
    VersionKey();
    TabFreeCorrupt("2.5.0");
  }

  /** The multi key of a lower-case listed page, given as a page name, returns that page under the key's text. */
  lemma MultiKeyLookup(store: map<string, string>, v: View, p: Page, exact: bool, matchCase: bool)
    requires Represents(store, v) && p in v.pages && Key(p) in v.multi && Lower(MultiKey(p)) == MultiKey(p)
    ensures LookupSpec(store, Query(MultiKey(p), None, exact, matchCase))
            == Ok([InfoOf(Some(MultiKey(p)), p.ext, v.pages[p])])
  {
    hide Represents, ValidView, ValidEntry, Encode, Lower, LookupSpec;
    ViewOf(store, v);
    PageOf(v, p);
    MultiKeyFacts(p);
    LookupTab(store, v, Query(MultiKey(p), None, exact, matchCase));
  }

  lemma LookupSingle(store: map<string, string>, v: View, q: Query, p: Page)
    requires Represents(store, v) && p in Under(v.pages, Lower(q.page)) && Lower(q.page) !in v.multi
    ensures LookupSpec(store, q).Ok?
    ensures Shows(v, q, LookupSpec(store, q).value, Hits(v, q))
  {
    hide Represents, ValidView, ValidPage, ValidEntry, At, Encode, RefText, Lower, Ascending, MultiKey, Decode;
    var k := Lower(q.page);
    ViewOf(store, v);
    PageOf(v, p);
    UnderSingle(v, k, p);
    SimpleKeyFacts(p);
    AtSingle(v, p);
    Reads(store, v, k);
    SingleWellFormed(store, v, k);
    HitsAre(v, q);
    var hits := set p | p in v.pages && Key(p) == k && Suits(q, ShownName(v, q.page, p), p.ext);
    assert hits <= Under(v.pages, k);
    var l := SortedPages(hits);
    if Suits(q, ShownName(v, q.page, p), p.ext) {
      assert hits == {p};
      assert l[0] in Elements(l);
    } else {
      assert hits == {};
    }
  }

  lemma LookupInList(store: map<string, string>, v: View, q: Query)
    requires Represents(store, v) && Lower(q.page) in v.multi
    ensures LookupSpec(store, q).Ok?
    ensures Shows(v, q, LookupSpec(store, q).value, Hits(v, q))
  {
    hide Represents, ValidView, ValidPage, ValidEntry, At, Encode, RefText, Lower, MultiKey, Decode, LookupRefs;
    var k := Lower(q.page);
    ListWellFormed(store, v, k);
    var refs := SortedPages(Under(v.pages, k));
    forall p | p in refs ensures p in v.pages && Key(p) == k {
      assert p in Elements(refs);
    }
    LookupFilters(store, v, q, refs);
    FilterSorted(q, refs);
    var kept := Filter(q, refs);
    assert Elements(kept) == set p | p in v.pages && Key(p) == k && Suits(q, ShownName(v, q.page, p), p.ext) by {
      forall p ensures p in kept <==> p in v.pages && Key(p) == k && Suits(q, ShownName(v, q.page, p), p.ext) {
        assert p in refs <==> p in Elements(refs);
      }
    }
    HitsAre(v, q);
    NameExtTotalOrder();
    SortedUnique(NameExtLess, kept);
  }

  function Filter(q: Query, refs: seq<Page>): (r: seq<Page>)
    ensures forall p :: p in r <==> p in refs && Suits(q, p.name, p.ext)
  {
    if refs == [] then []
    else
      assert forall p :: p in refs <==> p == refs[0] || p in refs[1..] by { assert refs == [refs[0]] + refs[1..]; }
      if Suits(q, refs[0].name, refs[0].ext) then [refs[0]] + Filter(q, refs[1..]) else Filter(q, refs[1..])
  }

  lemma {:induction false} FilterSorted(q: Query, refs: seq<Page>)
    requires Ascending(NameExtLess, refs)
    ensures Ascending(NameExtLess, Filter(q, refs))
  {
    hide Compare, NameExtCompare;
    if refs != [] {
      FilterSorted(q, refs[1..]);
      var rest := Filter(q, refs[1..]);
      forall p | p in rest ensures NameExtLess(refs[0], p) {
        assert p in refs[1..];
        var i :| 0 <= i < |refs[1..]| && refs[1..][i] == p;
        assert NameExtLess(refs[0], refs[i + 1]);
      }
    }
  }

  lemma ShowsCons(v: View, q: Query, p: Page, infos: seq<Info>, pages: seq<Page>)
    requires Shows(v, q, infos, pages) && p in v.pages
    ensures Shows(v, q, [Shown(v, q.page, p)] + infos, [p] + pages)
  {
    hide Shown;
  }

  lemma {:induction false} LookupFilters(store: map<string, string>, v: View, q: Query, refs: seq<Page>)
    requires Represents(store, v)
    requires forall p :: p in refs ==> p in v.pages && Key(p) in v.multi
    ensures LookupRefs(store, q, refs).Ok?
    ensures Shows(v, q, LookupRefs(store, q, refs).value, Filter(q, refs))
  {
    hide Represents, ValidView, ValidPage, ValidEntry, At, Encode, RefText, Lower, MultiKey, Decode, Key, Suits, Shows;
    if refs == [] {
      ShowsNothing(v, q);
    } else {
      var p := refs[0];
      assert p in refs && forall x :: x in refs[1..] ==> x in refs;
      LookupFilters(store, v, q, refs[1..]);
      RecordOf(store, v, p);
      ShowsCons(v, q, p, LookupRefs(store, q, refs[1..]).value, Filter(q, refs[1..]));
    }
  }

  lemma ShowsNothing(v: View, q: Query)
    ensures Shows(v, q, [], [])
  {
  }

  lemma RecordOf(store: map<string, string>, v: View, p: Page)
    requires Represents(store, v) && p in v.pages && Key(p) in v.multi
    ensures Get(store, MultiKey(p)).Some?
    ensures Decode(store[MultiKey(p)]) == Ok(InfoOf(None, p.ext, v.pages[p]))
  {
    hide Encode, Lower, Decode;
    AtMulti(v, p);
    Reads(store, v, MultiKey(p));
    DecodeEncode(None, p.ext, v.pages[p]);
  }

  ghost function Variants(v: View, page: string, section: Option<string>): seq<Page> {
    SortedPages(set p | p in v.pages && SameLetters(p.name, page) && (section.Some? ==> section.value <= p.ext))
  }

  /**
    * Case-insensitive dblookup_all is prefix search on the extension over the case variants of a name,
    * if and only if the query is not misdirected.
    */
  lemma LookupAllExact(store: map<string, string>, v: View, page: string, section: Option<string>)
    requires Represents(store, v)
    ensures var q := Query(page, section, false, false);
            var r := LookupSpec(store, q);
            && (!Misdirected(store, q) ==> r.Ok? && Shows(v, q, r.value, Variants(v, page, section)))
            && (Misdirected(store, q) && Identifiers(v) ==>
                  r.Corrupt? || !Shows(v, q, r.value, Variants(v, page, section)))
  {
    hide Represents, ValidView, LookupSpec, Shows, Misdirected, Identifiers, Lower;
    var q := Query(page, section, false, false);
    LookupComplete(store, v, q);
    if Identifiers(v) {
      LookupExactlyIff(store, v, q);
    }
    assert (set p | p in v.pages && Answers(q, p, ShownName(v, page, p)))
        == (set p | p in v.pages && SameLetters(p.name, page) && (section.Some? ==> section.value <= p.ext));
  }

  lemma Alone(v: View, p: Page, p': Page)
    requires ValidView(v) && p in v.pages && p' in v.pages && Key(p) == Key(p') && Key(p) !in v.multi
    ensures p == p'
  {
  }

  /**
    * Case-sensitive dblookup_exact, for every query that is no database identifier: it finds something
    * exactly when the page is stored, its lower-case form is stored alone under the key, or the query
    * is a multi key.
    */
  lemma LookupExactFinds(store: map<string, string>, v: View, page: string, section: string)
    requires Represents(store, v)
    ensures var q := Query(page, Some(section), true, true);
            var r := First(LookupSpec(store, q));
            var lower := Page(Lower(page), section);
            !(IsSpecial(Lower(page)) && Lower(page) in v.other) ==>
              && r.Ok?
              && (r.value.Some? <==>
                    || Page(page, section) in v.pages
                    || (lower in v.pages && Key(lower) !in v.multi)
                    || Misdirected(store, q))
              && (Page(page, section) in v.pages ==>
                    r.value == Some(InfoOf(Some(page), section, v.pages[Page(page, section)])))
  {
    hide Represents, ValidView, LookupSpec, Misdirected, Hits, TabAnswer, Lower, Shows;
    var q := Query(page, Some(section), true, true);
    var k := Lower(page);
    LookupComplete(store, v, q);
    ViewOf(store, v);
    Reads(store, v, k);
    LowerIdempotent(page);
    if IsSpecial(k) || '\t' in k {
      NoPageBelow(v, k);
      NoHits(v, q);
      assert Page(page, section) in v.pages ==> Page(page, section) in Under(v.pages, k);
      assert Page(k, section) in v.pages ==> Page(k, section) in Under(v.pages, k);
      if !IsSpecial(k) {
        LookupTab(store, v, q);
      } else if k !in v.other {
        NotInStore(store, v, q);
      }
    } else {
      LookupExactPlain(store, v, page, section);
      PlainNotMisdirected(store, q);
    }
  }

  /** dblookup_exact returns the least of the pages that answer the query, with case or without. */
  lemma LookupExactLeast(store: map<string, string>, v: View, page: string, section: string, matchCase: bool)
    requires Represents(store, v)
    ensures var q := Query(page, Some(section), true, matchCase);
            var r := First(LookupSpec(store, q));
            !Misdirected(store, q) ==>
              && r.Ok?
              && (r.value.None? ==> forall p :: p in v.pages ==> !Answers(q, p, ShownName(v, page, p)))
              && (r.value.Some? ==>
                    exists least :: least in v.pages && Answers(q, least, ShownName(v, page, least))
                                    && r.value == Some(Shown(v, page, least))
                                    && forall p :: p in v.pages && Answers(q, p, ShownName(v, page, p)) ==>
                                         p == least || NameExtLess(least, p))
  {
    hide Represents, ValidView, LookupSpec, Misdirected, Answers, ShownName, Shown, NameExtLess;
    var q := Query(page, Some(section), true, matchCase);
    LookupComplete(store, v, q);
    var hits := Hits(v, q);
    forall p ensures p in v.pages && Answers(q, p, ShownName(v, page, p)) <==> p in hits {
      assert p in hits <==> p in Elements(hits);
    }
    if hits != [] {
      forall p | p in hits ensures p == hits[0] || NameExtLess(hits[0], p) {
        var i :| 0 <= i < |hits| && hits[i] == p;
      }
    }
  }

  lemma PlainNotMisdirected(store: map<string, string>, q: Query)
    requires !IsSpecial(Lower(q.page)) && '\t' !in Lower(q.page)
    ensures !Misdirected(store, q)
  {
  }

  lemma NotInStore(store: map<string, string>, v: View, q: Query)
    requires Represents(store, v) && IsSpecial(Lower(q.page)) && Lower(q.page) !in v.other
    ensures LookupSpec(store, q) == Ok([]) && !Misdirected(store, q)
  {
    hide Represents, Lower;
    Reads(store, v, Lower(q.page));
  }

  /** A case-sensitive exact query suits one page at most. */
  lemma ExactHits(v: View, page: string, section: string)
    requires ValidView(v)
    ensures var p, lower := Page(page, section), Page(Lower(page), section);
            Hits(v, Query(page, Some(section), true, true))
            == if p in v.pages then [p] else if lower in v.pages && Key(lower) !in v.multi then [lower] else []
  {
    hide ValidView, Lower;
    var q := Query(page, Some(section), true, true);
    var k, p, lower := Lower(page), Page(page, section), Page(Lower(page), section);
    LowerIdempotent(page);
    HitsAre(v, q);
    var hits := set x | x in v.pages && Key(x) == k && Suits(q, ShownName(v, page, x), x.ext);
    if p in v.pages && lower in v.pages && k !in v.multi {
      Alone(v, p, lower);
    }
    assert hits == if p in v.pages then {p} else if lower in v.pages && k !in v.multi then {lower} else {};
    OnePage(p);
    OnePage(lower);
  }

  lemma OnePage(p: Page)
    ensures SortedPages({p}) == [p]
  {
    var l := SortedPages({p});
    assert l[0] in Elements(l);
  }

  lemma LookupExactPlain(store: map<string, string>, v: View, page: string, section: string)
    requires Represents(store, v) && !IsSpecial(Lower(page)) && '\t' !in Lower(page)
    ensures var r := First(LookupSpec(store, Query(page, Some(section), true, true)));
            var lower := Page(Lower(page), section);
            && r.Ok?
            && (r.value.Some? <==> Page(page, section) in v.pages || (lower in v.pages && Key(lower) !in v.multi))
            && (Page(page, section) in v.pages ==>
                  r.value == Some(InfoOf(Some(page), section, v.pages[Page(page, section)])))
  {
    hide Represents, ValidView, LookupSpec, Hits, Lower;
    LookupPlain(store, v, Query(page, Some(section), true, true));
    ViewOf(store, v);
    ExactHits(v, page, section);
  }

  /** For a lower-case name dblookup_exact is the map lookup, if and only if the query is not misdirected. */
  lemma LookupExactIsMap(store: map<string, string>, v: View, page: string, section: string)
    requires Represents(store, v) && Lower(page) == page
    ensures var q := Query(page, Some(section), true, true);
            var r := First(LookupSpec(store, q));
            var entry := Get(v.pages, Page(page, section));
            var found := if entry.Some? then Some(InfoOf(Some(page), section, entry.value)) else None;
            && (!Misdirected(store, q) ==> r == Ok(found))
            && (Misdirected(store, q) && Identifiers(v) ==> r != Ok(found))
  {
    hide Represents, LookupSpec, Hits, TabAnswer, Lower, ValidView, Shows;
    var q := Query(page, Some(section), true, true);
    LookupExactFinds(store, v, page, section);
    LookupComplete(store, v, q);
    ViewOf(store, v);
    Reads(store, v, page);
    if IsSpecial(page) || '\t' in page {
      NoPageBelow(v, page);
      assert Page(page, section) in v.pages ==> Page(page, section) in Under(v.pages, page);
      if IsSpecial(page) && page in v.other {
        if Identifiers(v) {
          TabFreeCorrupt(v.other[page]);
        }
      }
    }
  }
}
