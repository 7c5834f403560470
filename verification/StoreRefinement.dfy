/**
  * dbstore on the page map.  For every index and every page, dbstore either behaves like
  * an update of a plain map at that one page, or it is a clash: it answers 1 and leaves a
  * store that is the encoding of nothing.
  */
module StoreRefinement {
  import opened Wrappers
  import opened CString
  import opened Ordered
  import opened Record
  import opened References
  import opened Xdbm
  import opened Index
  import opened DbStore

  /** The entry that survives when new_ is stored over old_. */
  function Survivor(new_: Entry, old_: Entry): Entry {
    if Replaces(new_, old_) then new_ else old_
  }

  /** Is some page other than q kept under q's key? */
  ghost predicate HasCompanion(v: View, q: Page) {
    exists p :: p in Under(v.pages, Key(q)) && p != q
  }

  /**
    * The call that breaks the index: it would turn a single record into a list, and the
    * record there and the new one tie in rank but differ in compression.
    */
  ghost predicate Clash(v: View, q: Page, e: Entry) {
    && Key(q) !in v.multi
    && exists p :: p in Under(v.pages, Key(q)) && p != q && Ties(e, v.pages[p])
  }

  ghost function Stored(v: View, q: Page, e: Entry): View {
    View(v.pages[q := if q in v.pages then Survivor(e, v.pages[q]) else e],
         if HasCompanion(v, q) then v.multi + {Key(q)} else v.multi,
         v.other)
  }

  ghost function StoredStatus(v: View, q: Page, e: Entry): int {
    if q in v.pages && Ties(e, v.pages[q]) then 1 else 0
  }

  /** The view with one page added or overwritten. */
  ghost function Put(v: View, q: Page, e: Entry, multi: set<string>): View {
    View(v.pages[q := e], multi, v.other)
  }

  lemma PutValid(v: View, q: Page, e: Entry, multi: set<string>)
    requires ValidView(v) && ValidPage(q) && ValidEntry(e)
    requires multi == v.multi + {Key(q)} || (multi == v.multi && (Key(q) in multi || Under(v.pages, Key(q)) <= {q}))
    ensures ValidView(Put(v, q, e, multi)) && AgreeOutside(v, Put(v, q, e, multi), Key(q))
  {
    hide Lower, ValidPage, ValidEntry, IsSpecial;
    var w := Put(v, q, e, multi);
    forall k | k in w.multi ensures Under(w.pages, k) != {} {
      if k in v.multi {
        var p :| p in Under(v.pages, k);
        assert p in Under(w.pages, k);
      } else {
        assert q in Under(w.pages, k);
      }
    }
    forall p, p' | p in w.pages && p' in w.pages && Key(p) == Key(p') && Key(p) !in w.multi ensures p == p' {
      assert p in v.pages && Key(p) == Key(q) ==> p in Under(v.pages, Key(q));
      assert p' in v.pages && Key(p') == Key(q) ==> p' in Under(v.pages, Key(q));
    }
  }

  /** Replacing or creating a record kept alone. */
  lemma PutSingle(store: map<string, string>, v: View, q: Page, e: Entry)
    requires Represents(store, v) && ValidPage(q) && ValidEntry(e)
    requires Key(q) !in v.multi && Under(v.pages, Key(q)) <= {q}
    ensures Represents(store[Key(q) := Encode(NameField(q), q.ext, e)], Put(v, q, e, v.multi))
  {
    hide Represents, ValidView, ValidPage, ValidEntry, At, Encode, RefText;
    hide SortedPages, Ascending, Elements, Key, KeyPage, MultiKey, NameField;
    var k, w := Key(q), Put(v, q, e, v.multi);
    var store' := store[k := Encode(NameField(q), q.ext, e)];
    ViewOf(store, v);
    PutValid(v, q, e, v.multi);
    assert Under(w.pages, k) == {q};
    AtSingle(w, q);
    forall x {:trigger Below(x, k)}
      ensures if Below(x, k) then Get(store', x) == At(w, x) else Get(store', x) == Get(store, x)
    {
      if Below(x, k) && x != k {
        Reads(store, v, x);
        AtAbsent(v, x);
        AtAbsent(w, x);
      }
    }
    RepresentsLocally(store, v, store', w, k);
  }

  /** Writing a listed page and the list above it. */
  lemma PutMulti(store: map<string, string>, v: View, q: Page, e: Entry, store': map<string, string>)
    requires Represents(store, v) && ValidPage(q) && ValidEntry(e) && Key(q) in v.multi
    requires store' == store[MultiKey(q) := Encode(None, q.ext, e)]
                            [Key(q) := RefText(SortedPages(Under(v.pages, Key(q)) + {q}))]
    ensures Represents(store', Put(v, q, e, v.multi))
  {
    hide Represents, ValidView, ValidPage, ValidEntry, At, Encode, RefText;
    hide SortedPages, Ascending, Elements, Key, KeyPage, MultiKey, NameField;
    var k, w := Key(q), Put(v, q, e, v.multi);
    SimpleKeyFacts(q);
    MultiKeyFacts(q);
    ViewOf(store, v);
    PutValid(v, q, e, v.multi);
    assert Under(w.pages, k) == Under(v.pages, k) + {q};
    AtMulti(w, q);
    forall x {:trigger Below(x, k)}
      ensures if Below(x, k) then Get(store', x) == At(w, x) else Get(store', x) == Get(store, x)
    {
      if Below(x, k) && x != k && x != MultiKey(q) {
        AtOtherMultiKey(v, w, q, x);
        Reads(store, v, x);
      }
    }
    RepresentsLocally(store, v, store', w, k);
  }

  /** Turning a single record into a list of two. */
  lemma PutSplit(store: map<string, string>, v: View, p: Page, q: Page, e: Entry, store': map<string, string>)
    requires Represents(store, v) && ValidPage(q) && ValidEntry(e) && Key(q) !in v.multi
    requires p in Under(v.pages, Key(q)) && p != q
    requires store' == store[MultiKey(p) := Encode(None, p.ext, v.pages[p])]
                            [MultiKey(q) := Encode(None, q.ext, e)]
                            [Key(q) := RefText(SortedPages({p, q}))]
    ensures Represents(store', Put(v, q, e, v.multi + {Key(q)}))
  {
    hide Represents, ValidView, ValidPage, ValidEntry, At, Encode, RefText;
    hide SortedPages, Ascending, Elements, Key, KeyPage, MultiKey, NameField;
    var k, w := Key(q), Put(v, q, e, v.multi + {Key(q)});
    SimpleKeyFacts(q);
    ViewOf(store, v);
    PageOf(v, p);
    UnderSingle(v, k, p);
    MultiKeyFacts(p);
    MultiKeyFacts(q);
    PutValid(v, q, e, v.multi + {k});
    assert Under(w.pages, k) == {p, q};
    AtMulti(w, q);
    AtMulti(w, p);
    forall x {:trigger Below(x, k)}
      ensures if Below(x, k) then Get(store', x) == At(w, x) else Get(store', x) == Get(store, x)
    {
      if Below(x, k) && x != k && x != MultiKey(p) && x != MultiKey(q) {
        Reads(store, v, x);
        AtAbsent(v, x);
        KeyPageInverse(x);
        assert KeyPage(x) in w.pages ==> KeyPage(x) in Under(w.pages, k);
        AtAbsent(w, x);
      }
    }
    RepresentsLocally(store, v, store', w, k);
  }

  /** Situation (1) in the text of the store. */
  lemma StoreFirst(store: map<string, string>, v: View, i: Info, q: Page)
    requires Represents(store, v) && ValidPage(q) && q.ext == i.ext
    requires Under(v.pages, Key(q)) == {}
    ensures StoreSpec(store, i, q.name)
            == Ok(StoreResult(0, store[Key(q) := Encode(NameField(q), q.ext, EntryOf(i))]))
  {
    SimpleKeyFacts(q);
    assert At(v, Key(q)) == Get(store, Key(q));
  }

  /** Situation (2) in the text of the store. */
  lemma StoreListed(store: map<string, string>, v: View, i: Info, q: Page)
    requires Represents(store, v) && ValidPage(q) && q.ext == i.ext && Key(q) in v.multi
    ensures q in v.pages ==>
              StoreSpec(store, i, q.name) == Ok(ApplyAction(store, Decide(EntryOf(i), v.pages[q]), MultiKey(q),
                                                            Encode(None, q.ext, EntryOf(i))))
    ensures q !in v.pages ==>
              StoreSpec(store, i, q.name)
              == Ok(StoreResult(0, store[MultiKey(q) := Encode(None, q.ext, EntryOf(i))]
                                        [Key(q) := RefText(SortedPages(Under(v.pages, Key(q)) + {q}))]))
  {
    MultiKeyFacts(q);
    ListWellFormed(store, v, Key(q));
    assert At(v, MultiKey(q)) == Get(store, MultiKey(q));
    if q in v.pages {
      DecodeEncode(None, q.ext, v.pages[q]);
      assert EntryOf(InfoOf(None, q.ext, v.pages[q])) == v.pages[q];
    } else {
      NameExtTotalOrder();
      InsertSorted(NameExtLess, Under(v.pages, Key(q)), q);
    }
  }

  /** Situation (3) in the text of the store. */
  lemma StoreSecondary(store: map<string, string>, v: View, i: Info, q: Page, p: Page)
    requires Represents(store, v) && ValidPage(q) && q.ext == i.ext
    requires Key(q) !in v.multi && p in Under(v.pages, Key(q))
    ensures p == q ==>
              StoreSpec(store, i, q.name) == Ok(ApplyAction(store, Decide(EntryOf(i), v.pages[q]), Key(q),
                                                            Encode(NameField(q), q.ext, EntryOf(i))))
    ensures p != q ==>
              var r := ApplyAction(store[MultiKey(p) := Encode(None, p.ext, v.pages[p])],
                                   Decide(EntryOf(i), v.pages[p]), MultiKey(q), Encode(None, q.ext, EntryOf(i)));
              StoreSpec(store, i, q.name) == Ok(StoreResult(r.status, r.store[Key(q) := RefText(SortedPages({p, q}))]))
  {
    SimpleKeyFacts(q);
    assert At(v, Key(q)) == Get(store, Key(q));
    SingleWellFormed(store, v, Key(q));
    assert EntryOf(InfoOf(NameField(p), p.ext, v.pages[p])) == v.pages[p];
    if p != q {
      PairSorted(p, q);
    }
  }

  lemma PairSorted(p: Page, q: Page)
    requires p != q
    ensures Insert(NameExtLess, Insert(NameExtLess, [], p), q) == SortedPages({p, q})
  {
    NameExtTotalOrder();
    var none: set<Page> := {};
    assert SortedPages(none) == [];
    InsertSorted(NameExtLess, none, p);
    InsertSorted(NameExtLess, none + {p}, q);
    assert none + {p} + {q} == {p, q};
  }

  /** A map update with the value already there changes nothing. */
  lemma StoredSame(v: View, q: Page, e: Entry)
    requires ValidView(v) && q in v.pages && !Replaces(e, v.pages[q])
    ensures Stored(v, q, e) == v
  {
    assert v.pages[q := v.pages[q]] == v.pages;
    if HasCompanion(v, q) {
      assert v.multi + {Key(q)} == v.multi;
    }
  }

  /** Overwriting a listed page leaves the list above it as it is. */
  lemma PutListed(store: map<string, string>, v: View, q: Page, e: Entry)
    requires Represents(store, v) && ValidPage(q) && ValidEntry(e) && Key(q) in v.multi && q in v.pages
    ensures Represents(store[MultiKey(q) := Encode(None, q.ext, e)], Put(v, q, e, v.multi))
  {
    hide Represents, ValidView, ValidPage, ValidEntry, At, Encode, RefText;
    hide SortedPages, Ascending, Elements, Key, KeyPage, MultiKey, NameField;
    var k := Key(q);
    ListWellFormed(store, v, k);
    MultiKeyFacts(q);
    assert Under(v.pages, k) + {q} == Under(v.pages, k);
    SameUpdate(store, MultiKey(q), Encode(None, q.ext, e), k, RefText(SortedPages(Under(v.pages, k))));
    PutMulti(store, v, q, e, store[MultiKey(q) := Encode(None, q.ext, e)]);
  }

  lemma SameUpdate(store: map<string, string>, key: string, content: string, k: string, old_: string)
    requires key != k && Get(store, k) == Some(old_)
    ensures store[key := content][k := old_] == store[key := content]
  {
  }

  lemma RefinesListed(store: map<string, string>, v: View, q: Page, e: Entry)
    requires Represents(store, v) && ValidPage(q) && ValidEntry(e) && Key(q) in v.multi && q in v.pages
    ensures var r := ApplyAction(store, Decide(e, v.pages[q]), MultiKey(q), Encode(None, q.ext, e));
            r.status == StoredStatus(v, q, e) && Represents(r.store, Stored(v, q, e))
  {
    hide Represents, ValidView, ValidPage, ValidEntry, At, Encode, RefText;
    hide SortedPages, Ascending, Elements, Key, KeyPage, MultiKey, NameField;
    hide Decide, Replaces, Ties;
    DecideIff(e, v.pages[q]);
    AtMulti(v, q);
    Reads(store, v, MultiKey(q));
    if Replaces(e, v.pages[q]) {
      PutListed(store, v, q, e);
      assert v.multi + {Key(q)} == v.multi;
    } else {
      ViewOf(store, v);
      StoredSame(v, q, e);
    }
  }

  lemma RefinesUnlisted(store: map<string, string>, v: View, q: Page, e: Entry)
    requires Represents(store, v) && ValidPage(q) && ValidEntry(e) && Key(q) in v.multi && q !in v.pages
    ensures Represents(store[MultiKey(q) := Encode(None, q.ext, e)]
                            [Key(q) := RefText(SortedPages(Under(v.pages, Key(q)) + {q}))], Stored(v, q, e))
  {
    hide Represents, ValidView, ValidPage, ValidEntry, At, Encode, RefText;
    hide SortedPages, Ascending, Elements, Key, KeyPage, MultiKey, NameField;
    var k := Key(q);
    PutMulti(store, v, q, e, store[MultiKey(q) := Encode(None, q.ext, e)]
                                  [k := RefText(SortedPages(Under(v.pages, k) + {q}))]);
    assert v.multi + {k} == v.multi;
  }

  lemma RefinesSecondary(store: map<string, string>, v: View, q: Page, e: Entry, p: Page)
    requires Represents(store, v) && ValidPage(q) && ValidEntry(e)
    requires Key(q) !in v.multi && p in Under(v.pages, Key(q))
    ensures p == q ==>
              var r := ApplyAction(store, Decide(e, v.pages[q]), Key(q), Encode(NameField(q), q.ext, e));
              r.status == StoredStatus(v, q, e) && Represents(r.store, Stored(v, q, e))
    ensures p != q && !Ties(e, v.pages[p]) ==>
              var r := ApplyAction(store[MultiKey(p) := Encode(None, p.ext, v.pages[p])], Decide(e, v.pages[p]),
                                   MultiKey(q), Encode(None, q.ext, e));
              && r.status == 0 == StoredStatus(v, q, e)
              && Represents(r.store[Key(q) := RefText(SortedPages({p, q}))], Stored(v, q, e))
  {
    hide Represents, ValidView, ValidPage, ValidEntry, At, Encode, RefText;
    hide SortedPages, Ascending, Elements, Key, KeyPage, MultiKey, NameField;
    ViewOf(store, v);
    UnderSingle(v, Key(q), p);
    hide Decide, Replaces, Ties;
    DecideIff(e, v.pages[p]);
    var k := Key(q);
    if p == q {
      AtSingle(v, q);
      Reads(store, v, k);
      assert !HasCompanion(v, q);
      PutSingle(store, v, q, e);
      if !Replaces(e, v.pages[q]) {
        StoredSame(v, q, e);
      }
    } else {
      FreshMultiKey(store, v, p, q);
      assert q !in Under(v.pages, k);
      PutSplit(store, v, p, q, e,
               store[MultiKey(p) := Encode(None, p.ext, v.pages[p])]
                    [MultiKey(q) := Encode(None, q.ext, e)]
                    [k := RefText(SortedPages({p, q}))]);
    }
  }

  lemma FreshMultiKey(store: map<string, string>, v: View, p: Page, q: Page)
    requires Represents(store, v) && ValidPage(q) && Key(q) !in v.multi
    requires p in Under(v.pages, Key(q)) && p != q
    ensures MultiKey(q) !in store && MultiKey(q) != MultiKey(p)
  {
    MultiKeyFacts(p);
    MultiKeyFacts(q);
    assert At(v, MultiKey(q)) == Get(store, MultiKey(q));
  }

  /**
    * dbstore without a clash is a map update: the encoding invariant is kept, the page gets
    * the survivor of the two entries, every other page keeps its entry through a change of
    * form, and the status is 1 exactly when old and new tie in rank but differ in compression.
    */
  lemma StoreRefines(store: map<string, string>, v: View, i: Info, q: Page)
    requires Represents(store, v) && ValidPage(q) && q.ext == i.ext && ValidEntry(EntryOf(i))
    requires !Clash(v, q, EntryOf(i))
    ensures StoreSpec(store, i, q.name).Ok?
    ensures var r := StoreSpec(store, i, q.name).value;
            && r.status == StoredStatus(v, q, EntryOf(i))
            && Represents(r.store, Stored(v, q, EntryOf(i)))
  {
    hide StoreSpec, Encode;
    var k, e := Key(q), EntryOf(i);
    assert q in v.pages ==> q in Under(v.pages, k);
    if k in v.multi {
      StoreListed(store, v, i, q);
      if q in v.pages { RefinesListed(store, v, q, e); } else { RefinesUnlisted(store, v, q, e); }
    } else if Under(v.pages, k) == {} {
      StoreFirst(store, v, i, q);
      PutSingle(store, v, q, e);
      assert Stored(v, q, e) == Put(v, q, e, v.multi);
    } else {
      var p :| p in Under(v.pages, k);
      StoreSecondary(store, v, i, q, p);
      RefinesSecondary(store, v, q, e, p);
    }
  }

  /** Of two entries of one id for a page, the index keeps the newer: its mtime is the later of the two. */
  lemma StoreKeepsNewest(store: map<string, string>, v: View, i: Info, q: Page)
    requires Represents(store, v) && ValidPage(q) && q.ext == i.ext && ValidEntry(EntryOf(i))
    requires q in v.pages && v.pages[q].id == i.id
    ensures StoreSpec(store, i, q.name).Ok?
    ensures exists w :: Represents(StoreSpec(store, i, q.name).value.store, w) && q in w.pages
                        && w.pages[q].id == i.id
                        && w.pages[q].mtime == if Newer(i.mtime, v.pages[q].mtime) then i.mtime else v.pages[q].mtime
  {
    hide Represents, StoreSpec, ValidEntry;
    ViewOf(store, v);
    AloneNoClash(v, q, EntryOf(i));
    StoreRefines(store, v, i, q);
    assert Stored(v, q, EntryOf(i)).pages[q] == Survivor(EntryOf(i), v.pages[q]);
  }

  lemma AloneNoClash(v: View, q: Page, e: Entry)
    requires ValidView(v) && q in v.pages
    ensures !Clash(v, q, e)
  {
    hide Lower, Ties;
    assert q in Under(v.pages, Key(q));
  }

  lemma ListedInText(store: map<string, string>, q: Page, refs: seq<Page>)
    requires q in refs && TabFreePages(refs) && Ascending(NameExtLess, refs)
    requires Get(store, Key(q)) == Some(RefText(refs))
    ensures Listed(store, q)
  {
    ReferenceRoundTrip(refs);
  }

  /** A clash answers 1, and the new page is listed without a record: the index is no longer one. */
  lemma ClashBreaks(store: map<string, string>, v: View, i: Info, q: Page)
    requires Represents(store, v) && ValidPage(q) && q.ext == i.ext && ValidEntry(EntryOf(i))
    requires Clash(v, q, EntryOf(i))
    ensures StoreSpec(store, i, q.name).Ok?
    ensures var r := StoreSpec(store, i, q.name).value;
            && r.status == 1
            && Listed(r.store, q) && MultiKey(q) !in r.store
            && !WellFormed(r.store)
            && forall w :: !Represents(r.store, w)
  {
    hide StoreSpec, Represents, ValidView, Encode, RefText, WellFormed, Listed, Ascending, Key;
    var k := Key(q);
    var p :| p in Under(v.pages, Key(q)) && p != q && Ties(EntryOf(i), v.pages[p]);
    DecideIff(EntryOf(i), v.pages[p]);
    StoreSecondary(store, v, i, q, p);
    FreshMultiKey(store, v, p, q);
    SimpleKeyFacts(q);
    MultiKeyFacts(q);
    ViewOf(store, v);
    PageOf(v, p);
    var store' := StoreSpec(store, i, q.name).value.store;
    var l := SortedPages({p, q});
    assert q in l by { assert q in Elements(l); }
    assert TabFreePages(l) by {
      forall x | x in l ensures '\t' !in x.name && '\t' !in x.ext { assert x in Elements(l); }
    }
    ListedInText(store', q, l);
    Dangling(store', q);
  }

  /** dbstore keeps the encoding invariant exactly when the call is no clash. */
  lemma StoreKeepsInvariantIff(store: map<string, string>, v: View, i: Info, q: Page)
    requires Represents(store, v) && ValidPage(q) && q.ext == i.ext && ValidEntry(EntryOf(i))
    ensures StoreSpec(store, i, q.name).Ok?
    ensures (exists w :: Represents(StoreSpec(store, i, q.name).value.store, w)) <==> !Clash(v, q, EntryOf(i))
  {
    if Clash(v, q, EntryOf(i)) {
      ClashBreaks(store, v, i, q);
    } else {
      StoreRefines(store, v, i, q);
    }
  }
}
