/**
  * Where the record of a page is kept, and that a store determines the pages it stands for.
  */
module RecordKeys {
  import opened Wrappers
  import opened CString
  import opened Ordered
  import opened Record
  import opened References
  import opened Xdbm
  import opened Index
  import opened DbDelete

  /** The key whose content is the record of p. */
  ghost function RecordKey(v: View, p: Page): string {
    if Key(p) in v.multi then MultiKey(p) else Key(p)
  }

  /** The name in front of the tab of a key. */
  function NiceKey(key: string): string {
    key[..IndexOf(key, '\t')]
  }

  /** The page whose record a key of the store holds. */
  ghost predicate Holds(v: View, key: string, p: Page) {
    p in v.pages && RecordKey(v, p) == key
  }

  /** A key of the store that is neither special nor a list holds the record of exactly one page. */
  lemma KeyHolds(store: map<string, string>, v: View, key: string) returns (p: Page)
    requires Represents(store, v) && key in store && !IsSpecial(key) && !IsList(store[key])
    ensures Holds(v, key, p) && forall q :: Holds(v, key, q) ==> q == p
    ensures Decode(store[key]).Ok?
    ensures var d := Decode(store[key]).value;
            && d.ext == p.ext && EntryOf(d) == v.pages[p]
            && Owner(NiceKey(key), d) == p
            && Victim(v, Page(NiceKey(key), d.ext)) == Some(p)
  {
    hide Represents, ValidEntry, At, Encode, RefText, Ascending, Decode;
    ViewOf(store, v);
    Reads(store, v, key);
    if '\t' in key {
      p := KeyPage(key);
      MultiHolds(store, v, key);
    } else {
      AtRecord(store, v, key);
      p := SinglePage(v, key);
      SingleHolds(store, v, key, p);
    }
  }

  lemma AtRecord(store: map<string, string>, v: View, key: string)
    requires Represents(store, v) && key in store && !IsSpecial(key) && '\t' !in key
    requires !IsList(store[key])
    ensures Under(v.pages, key) != {} && key !in v.multi
  {
    hide Encode, Lower;
    Reads(store, v, key);
    if key in v.multi {
      ListWellFormed(store, v, key);
    }
  }

  lemma MultiHolds(store: map<string, string>, v: View, key: string)
    requires Represents(store, v) && key in store && !IsSpecial(key) && '\t' in key
    ensures var p := KeyPage(key);
            && Holds(v, key, p) && (forall q :: Holds(v, key, q) ==> q == p)
            && Decode(store[key]) == Ok(InfoOf(None, p.ext, v.pages[p]))
            && NiceKey(key) == p.name && Victim(v, p) == Some(p)
  {
    hide Represents, ValidView, ValidPage, ValidEntry, Encode, RefText, Ascending, Decode, Lower, Listed, At;
    var p := KeyPage(key);
    MultiKeyWellFormed(store, v, key);
    KeyPageInverse(key);
    ViewOf(store, v);
    forall q | Holds(v, key, q) ensures q == p {
      PageOf(v, q);
      SimpleKeyFacts(q);
      MultiKeyFacts(q);
    }
  }

  lemma SingleHolds(store: map<string, string>, v: View, key: string, p: Page)
    requires Represents(store, v) && key in store && !IsSpecial(key) && '\t' !in key && key !in v.multi
    requires p in Under(v.pages, key)
    ensures Holds(v, key, p) && (forall q :: Holds(v, key, q) ==> q == p)
    ensures Decode(store[key]) == Ok(InfoOf(NameField(p), p.ext, v.pages[p]))
    ensures Owner(key, Decode(store[key]).value) == p
    ensures NiceKey(key) == key && Victim(v, Page(key, p.ext)) == Some(p)
  {
    hide Represents, ValidEntry, Encode, RefText, Ascending, Decode, Lower;
    SingleWellFormed(store, v, key);
    ViewOf(store, v);
    UnderSingle(v, key, p);
    PageOf(v, p);
    SimpleKeyFacts(p);
    IndexOfNone(key, '\t');
    assert key[..|key|] == key;
    assert SinglePage(v, key) in Under(v.pages, key);
    forall q | Holds(v, key, q) ensures q == p {
      PageOf(v, q);
      SimpleKeyFacts(q);
      MultiKeyFacts(q);
      assert q in v.pages && Key(q) == key ==> q in Under(v.pages, key);
    }
  }

  /** Keys that hold no record own no page. */
  lemma KeyHoldsNothing(store: map<string, string>, v: View, key: string)
    requires Represents(store, v)
    requires IsSpecial(key) || key !in store || IsList(store[key])
    ensures forall p :: !Holds(v, key, p)
  {
    hide Represents, ValidEntry, Encode, RefText, Ascending, Lower, At;
    ViewOf(store, v);
    forall p ensures !Holds(v, key, p) {
      if Holds(v, key, p) {
        PageOf(v, p);
        SimpleKeyFacts(p);
        MultiKeyFacts(p);
        Reads(store, v, key);
        PageRecord(v, p);
      }
    }
  }

  /** What the record key of a page holds. */
  lemma PageRecord(v: View, p: Page)
    requires ValidView(v) && p in v.pages
    ensures At(v, RecordKey(v, p)).Some?
    ensures var c := At(v, RecordKey(v, p)).value; c != "" && c[0] != '\t'
  {
    hide ValidView, ValidEntry, Encode, RefText, Ascending, Lower, At;
    PageOf(v, p);
    SimpleKeyFacts(p);
    if Key(p) in v.multi {
      AtMulti(v, p);
      EncodeHead(None, p.ext, v.pages[p]);
    } else {
      UnderSingle(v, Key(p), p);
      AtSingle(v, p);
      EncodeHead(NameField(p), p.ext, v.pages[p]);
    }
  }

  /** The record of every page is under a key of the store. */
  lemma AllRecordKeys(store: map<string, string>, v: View)
    requires Represents(store, v)
    ensures forall p :: p in v.pages ==> RecordKey(v, p) in store
  {
    hide Represents, ValidView, Lower, At, Encode, RefText, RecordKey;
    ViewOf(store, v);
    forall p | p in v.pages ensures RecordKey(v, p) in store {
      PageRecord(v, p);
      Reads(store, v, RecordKey(v, p));
    }
  }

  /** Where the record of a page lies in the store, and under which name. */
  lemma PageInStore(store: map<string, string>, v: View, p: Page)
    requires Represents(store, v) && p in v.pages
    ensures Key(p) in v.multi ==>
              && Get(store, p.name + "\t" + p.ext) == Some(Encode(None, p.ext, v.pages[p]))
              && Get(store, Lower(p.name)) == Some(RefText(SortedPages(Under(v.pages, Key(p)))))
    ensures Key(p) !in v.multi ==>
              Get(store, Lower(p.name))
              == Some(Encode(if p.name == Lower(p.name) then None else Some(p.name), p.ext, v.pages[p]))
  {
    hide Represents, ValidView, ValidEntry, Encode, RefText, Lower, At, SortedPages;
    ViewOf(store, v);
    PageOf(v, p);
    Reads(store, v, Key(p));
    if Key(p) in v.multi {
      AtMulti(v, p);
      Reads(store, v, MultiKey(p));
    } else {
      UnderSingle(v, Key(p), p);
      AtSingle(v, p);
    }
  }

  /** The keys of an index are C strings. */
  lemma IndexKeys(store: map<string, string>, v: View)
    requires Represents(store, v)
    ensures CKeys(store)
  {
    hide Encode, Lower, RefText, Ascending;
    ViewOf(store, v);
    forall k | k in store ensures NulFree(k) {
      Reads(store, v, k);
      if !IsSpecial(k) && '\t' in k {
        KeyPageInverse(k);
        MultiKeyFacts(KeyPage(k));
      } else if !IsSpecial(k) {
        SimpleKeyFacts(SinglePage(v, k));
      }
    }
  }

  /** The stores that a cursor is opened on: any with C strings for keys, or the index of a given view. */
  ghost predicate Opens(store: map<string, string>, index: Option<View>) {
    if index.Some? then Represents(store, index.value) else CKeys(store)
  }

  lemma OpensKeys(store: map<string, string>, index: Option<View>)
    requires Opens(store, index)
    ensures CKeys(store)
  {
    hide Represents;
    if index.Some? { IndexKeys(store, index.value); }
  }

  lemma SamePages(store: map<string, string>, v: View, w: View, p: Page)
    requires Represents(store, v) && Represents(store, w) && p in v.pages
    ensures p in w.pages && w.pages[p] == v.pages[p] && RecordKey(v, p) == RecordKey(w, p)
  {
    hide Represents, ValidView, At, Encode, Lower, RecordKey, Decode;
    ViewOf(store, v);
    var key := RecordKey(v, p);
    PageRecord(v, p);
    Reads(store, v, key);
    NotSpecial(v, p);
    var x := KeyHolds(store, v, key);
    var y := KeyHolds(store, w, key);
    assert Holds(v, key, p);
  }

  lemma NotSpecial(v: View, p: Page)
    requires ValidView(v) && p in v.pages
    ensures !IsSpecial(RecordKey(v, p))
  {
    SimpleKeyFacts(p);
    MultiKeyFacts(p);
  }

  /** A raw store is the encoding of at most one map of pages: the abstraction is a function. */
  lemma PagesUnique(store: map<string, string>, v: View, w: View)
    requires Represents(store, v) && Represents(store, w)
    ensures v.pages == w.pages
  {
    hide Represents, RecordKey, Lower;
    forall p | p in v.pages ensures p in w.pages && w.pages[p] == v.pages[p] { SamePages(store, v, w, p); }
    forall p | p in w.pages ensures p in v.pages { SamePages(store, w, v, p); }
  }
}
