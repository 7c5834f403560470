/**
  * Deleting a page: libdb/db_delete.c dbdelete.  A list is left in place however short it
  * becomes, and a single record is deleted without a look at its name or extension.
  */
module DbDelete {
  import opened Wrappers
  import opened CString
  import opened Ordered
  import opened Record
  import opened References
  import opened Xdbm
  import opened Index
  import opened DbStore

  const NO_ENTRY := 1

  /** gl_list_indexof: the first index of p, or |refs|. */
  function IndexOfPage(refs: seq<Page>, p: Page): (i: nat)
    ensures i <= |refs|
    ensures i < |refs| ==> refs[i] == p
    ensures p !in refs[..i]
  {
    if refs == [] || refs[0] == p then 0
    else
      var i := 1 + IndexOfPage(refs[1..], p);
      assert refs[..i] == [refs[0]] + refs[1..][..i - 1];
      i
  }

  /** What dbdelete does to a raw store, for any store and any page. */
  function DeleteSpec(store: map<string, string>, q: Page): Outcome<StoreResult> {
    var key := Key(q);
    if key !in store then Ok(StoreResult(NO_ENTRY, store))
    else if !IsList(store[key]) then Ok(StoreResult(0, store - {key}))
    else
      var refs := ListExtensionsSpec(store[key][1..]);
      var i := IndexOfPage(refs, q);
      if i == |refs| then Ok(StoreResult(NO_ENTRY, store))
      else if MultiKey(q) !in store then Corrupt
      else
        var rest := RemoveAt(refs, i);
        var without := store - {MultiKey(q)};
        Ok(StoreResult(0, if rest == [] then without - {key} else without[key := RefText(rest)]))
  }

  /** dbdelete, for the page called name with the extension of info. */
  method Delete(dbf: Dbm, name: string, info: Mandata) returns (r: Outcome<int>)
    modifies dbf`store
    ensures var s := DeleteSpec(old(dbf.store), Page(name, info.ext));
            (r.Ok? <==> s.Ok?) && (r.Ok? ==> s == Ok(StoreResult(r.value, dbf.store)))
  {
    var key := NameToKey(name);
    var cont := dbf.Fetch(key);
    if cont.None? {
      return Ok(NO_ENTRY);
    } else if !IsList(cont.value) {
      dbf.Delete(key);
    } else {
      var refs := ListExtensions(cont.value[1..]);
      var thisIndex := IndexOfPage(refs, Page(name, info.ext));
      if thisIndex == |refs| {
        return Ok(NO_ENTRY);
      }
      var multiKey := MultiKey(Page(name, info.ext));
      var exists_ := dbf.Exists(multiKey);
      if !exists_ {
        return Corrupt;
      }
      dbf.Delete(multiKey);
      refs := RemoveAt(refs, thisIndex);
      if |refs| == 0 {
        dbf.Delete(key);
        return Ok(0);
      }
      var multiContent := AppendReferences(refs);
      dbf.Replace(key, multiContent);
    }
    return Ok(0);
  }

  /** The new multi content, appended page by page. */
  method AppendReferences(refs: seq<Page>) returns (multiContent: string)
    ensures multiContent == RefText(refs)
  {
    multiContent := "";
    for i := 0 to |refs|
      invariant multiContent == RefText(refs[..i])
    {
      assert refs[..i + 1] == refs[..i] + [refs[i]];
      RefTextAppend(refs[..i], refs[i]);
      PageTextAlone(refs[i]);
      multiContent := multiContent + (['\t'] + refs[i].name + ['\t'] + refs[i].ext);
    }
    assert refs[..|refs|] == refs;
  }

  lemma PageTextAlone(p: Page)
    ensures RefText([p]) == ['\t'] + p.name + ['\t'] + p.ext
  {
    assert p.ext + "" == p.ext;
    assert RefText([p][1..]) == "";
    assert RefText([p]) == ['\t'] + (p.name + ['\t'] + p.ext);
  }

  /** The view without one page. */
  ghost function Without(v: View, q: Page): View {
    var pages := v.pages - {q};
    View(pages, if Under(pages, Key(q)) == {} then v.multi - {Key(q)} else v.multi, v.other)
  }

  lemma WithoutValid(v: View, q: Page)
    requires ValidView(v)
    ensures ValidView(Without(v, q)) && AgreeOutside(v, Without(v, q), Key(q))
    ensures Under(Without(v, q).pages, Key(q)) == Under(v.pages, Key(q)) - {q}
  {
    hide Lower, ValidPage, ValidEntry;
    var w := Without(v, q);
    forall k | k in w.multi ensures Under(w.pages, k) != {} {
      if k != Key(q) {
        var p :| p in Under(v.pages, k);
        assert p in Under(w.pages, k);
      }
    }
  }

  /** Deleting a listed page: its multi key goes, the list shrinks, and the last page takes the simple key along. */
  lemma DeleteListed(store: map<string, string>, v: View, q: Page)
    requires Represents(store, v) && q in v.pages && Key(q) in v.multi
    ensures DeleteSpec(store, q).Ok?
    ensures var r := DeleteSpec(store, q).value;
            r.status == 0 && Represents(r.store, Without(v, q))
  {
    hide Represents, ValidView, At, Encode, RefText, Ascending, ValidEntry, Lower, IndexOf, Key, KeyPage, MultiKey;
    var k, w := Key(q), Without(v, q);
    ViewOf(store, v);
    PageOf(v, q);
    SimpleKeyFacts(q);
    MultiKeyFacts(q);
    WithoutValid(v, q);
    DeleteListedText(store, v, q);
    var store' := DeleteSpec(store, q).value.store;
    DeleteListedSimple(v, q);
    forall x {:trigger Below(x, k)}
      ensures if Below(x, k) then Get(store', x) == At(w, x) else Get(store', x) == Get(store, x)
    {
      if x == MultiKey(q) {
        AtAbsent(w, x);
      } else if Below(x, k) && x != k {
        DeleteOtherMultiKey(v, q, x);
        Reads(store, v, x);
      }
    }
    RepresentsLocally(store, v, store', w, k);
  }

  lemma DeleteListedText(store: map<string, string>, v: View, q: Page)
    requires Represents(store, v) && ValidPage(q) && q in v.pages && Key(q) in v.multi
    ensures var rest := Under(v.pages, Key(q)) - {q};
            var without := store - {MultiKey(q)};
            DeleteSpec(store, q)
            == Ok(StoreResult(0, if rest == {} then without - {Key(q)}
                                 else without[Key(q) := RefText(SortedPages(rest))]))
  {
    hide Represents, ValidView, At, Encode, RefText, Ascending, ValidEntry, ValidPage, Lower, KeyPage, Key, MultiKey;
    hide SortedPages, ListExtensionsSpec, RemoveAt, IndexOfPage;
    ListWellFormed(store, v, Key(q));
    AtMulti(v, q);
    Reads(store, v, MultiKey(q));
    assert q in Under(v.pages, Key(q));
    PageRemoved(Under(v.pages, Key(q)), q);
  }

  /** Removing the page found in the sorted list of a set. */
  lemma PageRemoved(pages: set<Page>, q: Page)
    requires q in pages
    ensures var refs := SortedPages(pages);
            var i := IndexOfPage(refs, q);
            && i < |refs| && RemoveAt(refs, i) == SortedPages(pages - {q})
            && (SortedPages(pages - {q}) == [] <==> pages - {q} == {})
  {
    hide NameExtLess, Ascending;
    var refs := SortedPages(pages);
    assert q in refs by { assert q in Elements(refs); }
    var i := IndexOfPage(refs, q);
    assert i < |refs| by { assert refs[..|refs|] == refs; }
    NameExtTotalOrder();
    RemoveSorted(NameExtLess, pages, i);
  }

  /** What the new view holds under the simple key. */
  lemma DeleteListedSimple(v: View, q: Page)
    requires ValidView(v) && q in v.pages && Key(q) in v.multi
    ensures var rest := Under(v.pages, Key(q)) - {q};
            At(Without(v, q), Key(q)) == if rest == {} then None else Some(RefText(SortedPages(rest)))
  {
    hide Encode, RefText, Ascending, Lower, KeyPage;
    SimpleKeyFacts(q);
    WithoutValid(v, q);
  }

  lemma DeleteOtherMultiKey(v: View, q: Page, x: string)
    requires ValidView(v) && q in v.pages && Key(q) in v.multi
    requires '\t' in x && Key(KeyPage(x)) == Key(q) && x != MultiKey(q)
    ensures At(Without(v, q), x) == At(v, x)
  {
    hide Encode, RefText, Ascending, Lower, IndexOf, KeyPage, MultiKey;
    var p, w := KeyPage(x), Without(v, q);
    KeyPageInverse(x);
    if p in v.pages {
      assert p in Under(w.pages, Key(q));
    }
  }

  /** Deleting below a key in single form removes whatever page is there. */
  lemma DeleteSingle(store: map<string, string>, v: View, q: Page, p: Page)
    requires Represents(store, v) && p in Under(v.pages, Key(q)) && Key(q) !in v.multi
    ensures DeleteSpec(store, q) == Ok(StoreResult(0, store - {Key(q)}))
    ensures Represents(store - {Key(q)}, Without(v, p))
  {
    hide Represents, ValidView, At, Encode, RefText, Ascending, ValidEntry, Lower, IndexOf;
    hide KeyPage, MultiKey, ValidPage;
    var k, w := Key(q), Without(v, p);
    ViewOf(store, v);
    PageOf(v, p);
    SimpleKeyFacts(p);
    UnderSingle(v, k, p);
    Reads(store, v, k);
    AtSingle(v, p);
    SingleWellFormed(store, v, k);
    WithoutValid(v, p);
    var store' := store - {k};
    AtEmpty(w, k);
    forall x {:trigger Below(x, k)}
      ensures if Below(x, k) then Get(store', x) == At(w, x) else Get(store', x) == Get(store, x)
    {
      if Below(x, k) && x != k {
        AtAbsent(v, x);
        AtAbsent(w, x);
        Reads(store, v, x);
      }
    }
    RepresentsLocally(store, v, store', w, k);
  }

  /** Which page does dbdelete remove when it is asked for q? */
  ghost function Victim(v: View, q: Page): Option<Page> {
    if Key(q) in v.multi then (if q in v.pages then Some(q) else None)
    else if Under(v.pages, Key(q)) == {} then None
    else Some(SinglePage(v, Key(q)))
  }

  /** The view after dbdelete of q. */
  ghost function Deleted(v: View, q: Page): View {
    if Victim(v, q).Some? then Without(v, Victim(v, q).value) else v
  }

  /** Does the key of the query lie in the store as a database identifier or as a multi key? */
  predicate Misfires(store: map<string, string>, q: Page) {
    Key(q) in store && IsOtherKey(Key(q))
  }

  /**
    * dbdelete on any index and any query that does not misfire: it keeps the encoding invariant, never
    * meets corrupt data, and removes exactly the victim; the status is 1 (NO_ENTRY) when there is none.
    */
  lemma DeleteRefines(store: map<string, string>, v: View, q: Page)
    requires Represents(store, v)
    ensures !Misfires(store, q) ==>
              var r := DeleteSpec(store, q);
              && r.Ok?
              && r.value.status == (if Victim(v, q).Some? then 0 else 1)
              && Represents(r.value.store, Deleted(v, q))
  {
    hide Represents, ValidView, At, Encode, RefText, Lower, IndexOf, KeyPage, MultiKey;
    var k := Key(q);
    Reads(store, v, k);
    ViewOf(store, v);
    if IsOtherKey(k) {
      NoPageBelow(v, k);
      ListFormHasPages(v, k);
    } else if k in v.multi {
      if q in v.pages {
        DeleteListed(store, v, q);
      } else {
        DeleteUnlisted(store, v, q);
      }
    } else if Under(v.pages, k) == {} {
      AtEmpty(v, k);
    } else {
      DeleteSingle(store, v, q, SinglePage(v, k));
    }
  }

  lemma ListFormHasPages(v: View, k: string)
    requires ValidView(v)
    ensures k in v.multi ==> Under(v.pages, k) != {}
  {
  }

  /** A query that misfires deletes the key: an identifier is lost, or a page stays listed without its record. */
  lemma DeleteMisfires(store: map<string, string>, v: View, q: Page)
    requires Represents(store, v) && Misfires(store, q) && (IsSpecial(Key(q)) ==> Identifiers(v))
    ensures DeleteSpec(store, q) == Ok(StoreResult(0, store - {Key(q)}))
    ensures IsSpecial(Key(q)) ==> Key(q) in v.other
    ensures !IsSpecial(Key(q)) ==>
              var p := KeyPage(Key(q));
              && p in v.pages && Key(p) in v.multi && MultiKey(p) == Key(q)
              && Listed(store - {Key(q)}, p)
              && forall w :: !Represents(store - {Key(q)}, w)
  {
    hide Represents, ValidView, ValidPage, ValidEntry, Encode, RefText, Ascending, Lower, WellFormed;
    hide ListExtensionsSpec;
    var k := Key(q);
    Reads(store, v, k);
    if !IsSpecial(k) {
      var p := KeyPage(k);
      MultiKeyWellFormed(store, v, k);
      EncodeHead(None, p.ext, v.pages[p]);
      ViewOf(store, v);
      PageOf(v, p);
      SimpleKeyFacts(p);
      KeyPageInverse(k);
      assert Key(p) != k && MultiKey(p) == k;
      assert Listed(store - {k}, p);
      Dangling(store - {k}, p);
    }
  }

  /**
    * For every index and every query: dbdelete leaves an index with the same identifiers, and meets no
    * corrupt data, if and only if the query does not misfire.
    */
  lemma DeleteExactlyIff(store: map<string, string>, v: View, q: Page)
    requires Represents(store, v) && Identifiers(v)
    ensures DeleteSpec(store, q).Ok? && IsIndexWith(DeleteSpec(store, q).value.store, v.other) <==> !Misfires(store, q)
  {
    hide Represents, DeleteSpec, Deleted, Identifiers, Misfires, Lower;
    if Misfires(store, q) {
      DeleteMisfires(store, v, q);
      MisfireKey(store, q);
      if IsSpecial(Key(q)) {
        IdentifierLost(store - {Key(q)}, v.other, Key(q));
      } else {
        forall w ensures !(Represents(store - {Key(q)}, w) && w.other == v.other) { }
      }
    } else {
      DeleteRefines(store, v, q);
      DeletedOther(v, q);
    }
  }

  lemma MisfireKey(store: map<string, string>, q: Page)
    requires Misfires(store, q)
    ensures Key(q) in store && IsOtherKey(Key(q))
  {
  }

  lemma DeletedOther(v: View, q: Page)
    ensures Deleted(v, q).other == v.other
  {
  }

  /** The version identifier is deleted when it is taken for a page name. */
  lemma VersionDelete(ext: string)
    ensures var store := map["$version$" := "2.5.0"];
            && Represents(store, View(map[], {}, store))
            && DeleteSpec(store, Page("$version$", ext)) == Ok(StoreResult(0, map[]))
  {
    hide Represents, Lower;
    var store := map["$version$" := "2.5.0"];
    OnlyIdentifiers(store);
    VersionKey();
    assert store - {"$version$"} == map[];
  }

  /** The multi key of a lower-case listed page, taken for a page name, is deleted under its list. */
  lemma MultiKeyDelete(store: map<string, string>, v: View, p: Page, ext: string)
    requires Represents(store, v) && p in v.pages && Key(p) in v.multi && Lower(MultiKey(p)) == MultiKey(p)
    ensures DeleteSpec(store, Page(MultiKey(p), ext)) == Ok(StoreResult(0, store - {MultiKey(p)}))
    ensures forall w :: !Represents(store - {MultiKey(p)}, w)
  {
    hide Represents, ValidView, ValidEntry, Encode, Lower, DeleteSpec;
    ViewOf(store, v);
    PageOf(v, p);
    MultiKeyFacts(p);
    AtMulti(v, p);
    Reads(store, v, MultiKey(p));
    DeleteMisfires(store, v, Page(MultiKey(p), ext));
  }

  lemma DeleteUnlisted(store: map<string, string>, v: View, q: Page)
    requires Represents(store, v) && Key(q) in v.multi && q !in v.pages
    ensures DeleteSpec(store, q) == Ok(StoreResult(NO_ENTRY, store))
  {
    hide Represents, ValidView, Encode, RefText, Ascending, ValidEntry, ValidPage, Lower, KeyPage, MultiKey;
    var refs := SortedPages(Under(v.pages, Key(q)));
    ListWellFormed(store, v, Key(q));
    ViewOf(store, v);
    assert q !in refs by { assert q !in Elements(refs); }
  }

  /** A page that is present is removed, and no other. */
  lemma DeletePresent(store: map<string, string>, v: View, q: Page)
    requires Represents(store, v) && q in v.pages
    ensures DeleteSpec(store, q).Ok?
    ensures var r := DeleteSpec(store, q).value;
            && r.status == 0 && Represents(r.store, Without(v, q))
            && Without(v, q).pages == v.pages - {q}
  {
    hide Represents, Encode, RefText, Lower, IndexOf, KeyPage, MultiKey;
    ViewOf(store, v);
    PageOf(v, q);
    DeleteRefines(store, v, q);
    assert q in Under(v.pages, Key(q));
    if Key(q) !in v.multi {
      UnderSingle(v, Key(q), q);
      var p := SinglePage(v, Key(q));
      assert p in Under(v.pages, Key(q));
    }
  }

  /** Asking for an absent page changes nothing exactly when its key is in list form or not in the store. */
  lemma DeleteAbsentIff(store: map<string, string>, v: View, q: Page)
    requires Represents(store, v) && q !in v.pages && (IsSpecial(Key(q)) ==> Identifiers(v))
    ensures DeleteSpec(store, q).Ok?
    ensures DeleteSpec(store, q).value.store == store <==> Key(q) in v.multi || Key(q) !in store
  {
    hide Represents, ValidView, At, Encode, RefText, Lower, IndexOf, KeyPage, MultiKey, Identifiers;
    var k := Key(q);
    Reads(store, v, k);
    ViewOf(store, v);
    if Misfires(store, q) {
      DeleteMisfires(store, v, q);
      NoPageBelow(v, k);
      assert k in store && k !in store - {k};
    } else if k !in store {
    } else if k in v.multi {
      DeleteUnlisted(store, v, q);
    } else if Under(v.pages, k) == {} {
      AtEmpty(v, k);
    } else {
      DeleteSingle(store, v, q, SinglePage(v, k));
    }
  }
}
