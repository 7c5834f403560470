/**
  * What the raw store means.  A view is the set of stored pages together with the
  * lower-cased names that are kept in list form; Represents says that a raw
  * string-to-string store is the encoding of a view.
  */
module Index {
  import opened Wrappers
  import opened CString
  import opened Ordered
  import opened Record
  import opened References
  import opened Xdbm

  datatype View = View(
    pages: map<Page, Entry>,    // the stored pages
    multi: set<string>,         // simple keys whose content is a reference list
    other: map<string, string>  // database identifier keys, which start with '$'
  )

  const Empty := View(map[], {}, map[])

  predicate IsSpecial(key: string) {
    key != "" && key[0] == '$'
  }

  /** A key that is no lower-cased page name: a database identifier's or a multi key. */
  predicate IsOtherKey(key: string) {
    IsSpecial(key) || '\t' in key
  }

  /** The pages the index is meant for. */
  predicate ValidPage(p: Page) {
    && p.name != "" && !IsSpecial(p.name) && '\t' !in p.name && NulFree(p.name)
    && p.ext != "" && '\t' !in p.ext && NulFree(p.ext)
  }

  /** The simple key that owns a page: name_to_key (name). */
  function Key(p: Page): string {
    Lower(p.name)
  }

  /** make_multi_key */
  function MultiKey(p: Page): string {
    p.name + ['\t'] + p.ext
  }

  /** The page a multi key is made from. */
  function KeyPage(key: string): Page {
    var i := IndexOf(key, '\t');
    if i < |key| then Page(key[..i], key[i + 1..]) else Page(key, "")
  }

  ghost function Under(pages: map<Page, Entry>, key: string): set<Page> {
    set p | p in pages && Key(p) == key
  }

  /** Pages in name_ext_compare order. */
  ghost function SortedPages(s: set<Page>): (l: seq<Page>)
    ensures Ascending(NameExtLess, l) && Elements(l) == s && |l| == |s|
  {
    NameExtTotalOrder();
    Sorted(NameExtLess, s)
  }

  ghost predicate ValidView(v: View) {
    && (forall p :: p in v.pages ==> ValidPage(p) && ValidEntry(v.pages[p]))
    && (forall k :: k in v.multi ==> Under(v.pages, k) != {})
    && (forall p, q :: p in v.pages && q in v.pages && Key(p) == Key(q) && Key(p) !in v.multi ==> p == q)
    && (forall k :: k in v.other ==> IsSpecial(k) && NulFree(k))
  }

  /** The name field of a page stored alone: written only when it is not the key itself. */
  function NameField(p: Page): Option<string> {
    if p.name == Key(p) then None else Some(p.name)
  }

  /** What the encoding of v holds under a key. */
  ghost function At(v: View, key: string): Option<string> {
    if IsSpecial(key) then Get(v.other, key)
    else if '\t' in key then
      var p := KeyPage(key);
      if p in v.pages && Key(p) in v.multi then Some(Encode(None, p.ext, v.pages[p])) else None
    else
      var pages := Under(v.pages, key);
      if pages == {} then None
      else if key in v.multi then Some(RefText(SortedPages(pages)))
      else
        var p := SortedPages(pages)[0];
        assert p in pages by { assert p in Elements(SortedPages(pages)); }
        Some(Encode(NameField(p), p.ext, v.pages[p]))
  }

  ghost predicate Represents(store: map<string, string>, v: View) {
    && ValidView(v)
    && forall k {:trigger At(v, k)} :: Get(store, k) == At(v, k)
  }

  lemma Reads(store: map<string, string>, v: View, x: string)
    requires Represents(store, v)
    ensures Get(store, x) == At(v, x)
  {
    var c := At(v, x);
  }

  lemma ViewOf(store: map<string, string>, v: View)
    requires Represents(store, v)
    ensures ValidView(v)
  {
  }

  lemma PageOf(v: View, p: Page)
    requires ValidView(v) && p in v.pages
    ensures ValidPage(p) && ValidEntry(v.pages[p])
  {
  }

  lemma UnderSingle(v: View, k: string, p: Page)
    requires ValidView(v) && k !in v.multi && p in Under(v.pages, k)
    ensures Under(v.pages, k) == {p}
  {
  }

  /** A multi key of no listed page. */
  lemma AtAbsent(v: View, x: string)
    requires '\t' in x && (KeyPage(x) !in v.pages || Key(KeyPage(x)) !in v.multi)
    ensures At(v, x) == if IsSpecial(x) then Get(v.other, x) else None
  {
  }

  /** A simple key below which no page is stored. */
  lemma AtEmpty(v: View, k: string)
    requires Under(v.pages, k) == {} && !IsSpecial(k) && '\t' !in k
    ensures At(v, k) == None
  {
  }

  /** The identifiers that dbver_wr writes, a version number, have no tab. */
  ghost predicate Identifiers(v: View) {
    forall k :: k in v.other ==> '\t' !in v.other[k]
  }

  /** No page is stored below a key that is special or has a tab. */
  lemma NoPageBelow(v: View, k: string)
    requires ValidView(v) && IsOtherKey(k)
    ensures Under(v.pages, k) == {}
  {
    hide Lower, ValidPage, ValidEntry;
    forall p | p in v.pages && Key(p) == k ensures false {
      SimpleKeyFacts(p);
    }
  }

  /** An index that holds nothing but identifiers. */
  lemma OnlyIdentifiers(other: map<string, string>)
    requires forall k :: k in other ==> IsSpecial(k) && NulFree(k)
    ensures Represents(other, View(map[], {}, other))
  {
    hide Lower;
    forall k ensures Get(other, k) == At(View(map[], {}, other), k) {
      assert Under(map[], k) == {};
    }
  }

  lemma VersionKey()
    ensures Lower("$version$") == "$version$" && IsSpecial("$version$") && NulFree("$version$")
  {
    hide Lower;
    LowerFixed("$version$");
  }

  /** The encoding is a function of the view. */
  lemma EncodingUnique(s: map<string, string>, t: map<string, string>, v: View)
    requires Represents(s, v) && Represents(t, v)
    ensures s == t
  {
    forall k ensures Get(s, k) == Get(t, k) {
      assert At(v, k) == Get(s, k);
    }
    assert forall k :: k in s <==> Get(s, k).Some?;
    assert forall k :: k in t <==> Get(t, k).Some?;
  }

  lemma EmptyRepresents()
    ensures Represents(map[], Empty)
  {
    forall k: string ensures Get(map[], k) == At(Empty, k) {
      assert Under(map[], k) == {};
    }
  }

  lemma SimpleKeyFacts(p: Page)
    requires ValidPage(p)
    ensures var k := Key(p); k != "" && '\t' !in k && !IsSpecial(k) && NulFree(k) && Lower(k) == k
    ensures ValidName(NameField(p))
  {
    LowerKeeps(p.name, '\t');
    LowerKeeps(p.name, '$');
    LowerKeeps(p.name, '\0');
    LowerKeeps(p.name, '-');
    LowerIdempotent(p.name);
    assert p.name == "-" ==> Key(p) == "-";
  }

  lemma MultiKeyFacts(p: Page)
    requires ValidPage(p)
    ensures var k := MultiKey(p); '\t' in k && !IsSpecial(k) && NulFree(k) && KeyPage(k) == p
  {
    IndexOfFirst(p.name, '\t', p.ext);
    assert MultiKey(p)[|p.name|] == '\t';
    assert MultiKey(p)[0] == p.name[0];
  }

  lemma KeyPageInverse(key: string)
    requires '\t' in key
    ensures MultiKey(KeyPage(key)) == key
  {
    var i := IndexOf(key, '\t');
    assert key[..|key|] == key;
    assert key == key[..i] + [key[i]] + key[i + 1..];
  }

  /** A page kept alone under its key. */
  lemma AtSingle(v: View, p: Page)
    requires ValidPage(p) && p in v.pages && Under(v.pages, Key(p)) == {p} && Key(p) !in v.multi
    ensures At(v, Key(p)) == Some(Encode(NameField(p), p.ext, v.pages[p]))
  {
    SimpleKeyFacts(p);
    var l := SortedPages({p});
    assert l[0] in Elements(l);
  }

  /** A list-form key. */
  lemma AtMulti(v: View, p: Page)
    requires ValidPage(p) && p in v.pages && Key(p) in v.multi
    ensures At(v, Key(p)) == Some(RefText(SortedPages(Under(v.pages, Key(p)))))
    ensures At(v, MultiKey(p)) == Some(Encode(None, p.ext, v.pages[p]))
  {
    SimpleKeyFacts(p);
    MultiKeyFacts(p);
    assert p in Under(v.pages, Key(p));
  }

  /** Views that differ at most below one simple key. */
  ghost predicate AgreeOutside(v: View, w: View, k: string) {
    && v.other == w.other
    && (forall p :: Key(p) != k ==> Get(v.pages, p) == Get(w.pages, p))
    && (forall j :: j != k ==> (j in v.multi <==> j in w.multi))
  }

  /** Is x a key whose content depends on what is stored below the simple key k? */
  predicate Below(x: string, k: string) {
    x == k || ('\t' in x && Key(KeyPage(x)) == k)
  }

  lemma AtElsewhere(v: View, w: View, k: string, x: string)
    requires AgreeOutside(v, w, k) && !Below(x, k)
    ensures At(v, x) == At(w, x)
  {
    hide Encode, Lower, IndexOf;
    if '\t' in x {
      assert Get(v.pages, KeyPage(x)) == Get(w.pages, KeyPage(x));
    } else {
      forall p ensures p in Under(v.pages, x) <==> p in Under(w.pages, x) {
        if Key(p) == x { assert Get(v.pages, p) == Get(w.pages, p); }
      }
      assert Under(v.pages, x) == Under(w.pages, x);
      var l := SortedPages(Under(v.pages, x));
      if l != [] {
        assert l[0] in Elements(l);
        assert Get(v.pages, l[0]) == Get(w.pages, l[0]);
      }
    }
  }

  /** Below k only q's own multi key is affected by a change at q. */
  lemma AtOtherMultiKey(v: View, w: View, q: Page, x: string)
    requires v.other == w.other && '\t' in x && x != MultiKey(q)
    requires Get(v.pages, KeyPage(x)) == Get(w.pages, KeyPage(x)) || KeyPage(x) == q
    requires Key(KeyPage(x)) in v.multi <==> Key(KeyPage(x)) in w.multi
    ensures At(v, x) == At(w, x)
  {
    hide Encode, Lower, IndexOf;
    KeyPageInverse(x);
  }

  /** A store that agrees with the new view below one simple key and with the old one elsewhere. */
  lemma RepresentsLocally(store: map<string, string>, v: View, store': map<string, string>, w: View, k: string)
    requires Represents(store, v) && ValidView(w) && AgreeOutside(v, w, k)
    requires forall x {:trigger Below(x, k)} ::
               if Below(x, k) then Get(store', x) == At(w, x) else Get(store', x) == Get(store, x)
    ensures Represents(store', w)
  {
    hide Encode, Lower, IndexOf, At, Below;
    forall x ensures Get(store', x) == At(w, x) {
      if !Below(x, k) {
        assert At(v, x) == Get(store, x);
        AtElsewhere(v, w, k, x);
      }
    }
  }

  /**
    * The representation invariant in words of its own: a simple key is one record or a
    * non-empty strictly sorted list of pages whose names lower-case to it; a multi key is
    * there exactly when it is listed, and lists hold every page once.
    */
  ghost predicate WellFormed(store: map<string, string>) {
    forall k :: k in store && !IsSpecial(k) ==> KeyWellFormed(store, k)
  }

  ghost predicate KeyWellFormed(store: map<string, string>, k: string)
    requires k in store
  {
    var d := Decode(store[k]);
    if '\t' in k then
      Listed(store, KeyPage(k)) && d.Ok? && d.value.name == None && d.value.ext == KeyPage(k).ext
    else if IsList(store[k]) then
      var refs := ListExtensionsSpec(store[k][1..]);
      && refs != [] && Ascending(NameExtLess, refs) && store[k] == RefText(refs)
      && forall p :: p in refs ==> ValidPage(p) && Key(p) == k && MultiKey(p) in store
    else
      d.Ok? && ValidPage(Owner(k, d.value)) && Key(Owner(k, d.value)) == k
  }

  /** Is p in the reference list under its simple key? */
  predicate Listed(store: map<string, string>, p: Page) {
    && Key(p) in store
    && IsList(store[Key(p)])
    && p in ListExtensionsSpec(store[Key(p)][1..])
  }

  /** The page a record under a simple key stands for. */
  function Owner(key: string, d: Info): Page {
    Page(if d.name.Some? then d.name.value else key, d.ext)
  }

  lemma SortedRoundTrip(v: View, k: string)
    requires ValidView(v) && Under(v.pages, k) != {}
    ensures var l := SortedPages(Under(v.pages, k));
            && l != [] && IsList(RefText(l))
            && ListExtensionsSpec(RefText(l)[1..]) == l
            && TabFreePages(l)
            && forall p :: p in l <==> p in Under(v.pages, k)
  {
    var l := SortedPages(Under(v.pages, k));
    forall p ensures p in l <==> p in Under(v.pages, k) {
      assert p in l <==> p in Elements(l);
    }
    ReferenceRoundTrip(l);
  }

  /** Every store that encodes a view is well formed. */
  lemma RepresentsWellFormed(store: map<string, string>, v: View)
    requires Represents(store, v)
    ensures WellFormed(store)
  {
    forall k | k in store && !IsSpecial(k) ensures KeyWellFormed(store, k) {
      assert Get(store, k) == At(v, k);
      if '\t' in k {
        MultiKeyWellFormed(store, v, k);
      } else if k in v.multi {
        ListWellFormed(store, v, k);
      } else {
        SingleWellFormed(store, v, k);
      }
    }
  }

  lemma MultiKeyWellFormed(store: map<string, string>, v: View, k: string)
    requires Represents(store, v) && k in store && !IsSpecial(k) && '\t' in k
    ensures Listed(store, KeyPage(k))
    ensures KeyPage(k) in v.pages && Key(KeyPage(k)) in v.multi
    ensures Decode(store[k]) == Ok(InfoOf(None, KeyPage(k).ext, v.pages[KeyPage(k)]))
  {
    var p := KeyPage(k);
    assert Get(store, k) == At(v, k);
    DecodeEncode(None, p.ext, v.pages[p]);
    AtMulti(v, p);
    assert Get(store, Key(p)) == At(v, Key(p));
    assert p in Under(v.pages, Key(p));
    SortedRoundTrip(v, Key(p));
  }

  lemma ListWellFormed(store: map<string, string>, v: View, k: string)
    requires Represents(store, v) && k in v.multi
    ensures Get(store, k) == Some(RefText(SortedPages(Under(v.pages, k))))
    ensures forall p :: p in SortedPages(Under(v.pages, k)) ==> ValidPage(p) && Key(p) == k && MultiKey(p) in store
    ensures k in store && !IsSpecial(k) && '\t' !in k && IsList(store[k])
    ensures ListExtensionsSpec(store[k][1..]) == SortedPages(Under(v.pages, k))
  {
    SortedRoundTrip(v, k);
    var l := SortedPages(Under(v.pages, k));
    assert l[0] in l;
    SimpleKeyFacts(l[0]);
    AtMulti(v, l[0]);
    assert Get(store, k) == At(v, k);
    forall p | p in l ensures ValidPage(p) && Key(p) == k && MultiKey(p) in store {
      AtMulti(v, p);
      assert Get(store, MultiKey(p)) == At(v, MultiKey(p));
    }
  }

  lemma SingleWellFormed(store: map<string, string>, v: View, k: string)
    requires Represents(store, v) && k in store && !IsSpecial(k) && '\t' !in k && k !in v.multi
    ensures store[k] != "" && store[k][0] != '\t'
    ensures Decode(store[k]).Ok?
    ensures var d := Decode(store[k]).value;
            var p := Owner(k, d);
            && p in v.pages && Key(p) == k && Under(v.pages, k) == {p}
            && d == InfoOf(NameField(p), p.ext, v.pages[p])
            && store[k] == Encode(NameField(p), p.ext, v.pages[p])
  {
    assert Get(store, k) == At(v, k);
    var p := SinglePage(v, k);
    assert Under(v.pages, k) == {p};
    AtSingle(v, p);
    SimpleKeyFacts(p);
    DecodeEncode(NameField(p), p.ext, v.pages[p]);
    EncodeHead(NameField(p), p.ext, v.pages[p]);
  }

  /** The only page under a simple key that is not in list form. */
  ghost function SinglePage(v: View, k: string): (p: Page)
    requires Under(v.pages, k) != {}
    ensures p in v.pages && Key(p) == k
  {
    var p :| p in Under(v.pages, k);
    p
  }

  /** A page that is listed but has no record makes a store the encoding of nothing. */
  lemma Dangling(store: map<string, string>, q: Page)
    requires ValidPage(q) && Listed(store, q) && MultiKey(q) !in store
    ensures !WellFormed(store)
    ensures forall w :: !Represents(store, w)
  {
    SimpleKeyFacts(q);
    assert !WellFormed(store);
    forall w ensures !Represents(store, w) {
      if Represents(store, w) {
        RepresentsWellFormed(store, w);
      }
    }
  }

  /** Is the store the index of some pages with these identifiers? */
  ghost predicate IsIndexWith(store: map<string, string>, other: map<string, string>) {
    exists w :: Represents(store, w) && w.other == other
  }

  lemma IdentifierLost(store: map<string, string>, other: map<string, string>, k: string)
    requires k in other && IsSpecial(k) && k !in store
    ensures !IsIndexWith(store, other)
  {
    hide Represents;
    forall w | Represents(store, w) ensures w.other != other {
      Reads(store, w, k);
    }
  }
}
