/**
  * purge_missing on the page map: the whole run, with deletions under the cursor, is a filter.
  */
module PurgeRefinement {
  import opened Wrappers
  import opened CString
  import opened Ordered
  import opened Record
  import opened References
  import opened Xdbm
  import opened Index
  import opened DbDelete
  import opened RecordKeys
  import opened PurgeSpec

  /** The view without a set of pages; keys stay in list form as long as a page is left. */
  ghost function Minus(v: View, gone: set<Page>): View {
    var pages := v.pages - gone;
    View(pages, (set k | k in v.multi && Under(pages, k) != {}), v.other)
  }

  ghost function Doomed(fs: Files, v: View, keys: set<string>): set<Page> {
    set p | p in v.pages && RecordKey(v, p) in keys && !Keep(fs, p, v.pages[p])
  }

  ghost predicate SomeRescan(fs: Files, v: View, keys: set<string>) {
    exists p :: p in v.pages && RecordKey(v, p) in keys && Rescans(fs, p, v.pages[p])
  }

  lemma WithoutIsMinus(v: View, q: Page)
    requires ValidView(v)
    ensures Without(v, q) == Minus(v, {q})
  {
    hide ValidPage, ValidEntry, Lower;
    var pages := v.pages - {q};
    assert (set k | k in v.multi && Under(pages, k) != {}) == Without(v, q).multi by {
      forall k | k in v.multi && k != Key(q) ensures Under(pages, k) != {} {
        var p :| p in Under(v.pages, k);
        assert p in Under(pages, k);
      }
    }
  }

  lemma MinusNothing(v: View)
    requires ValidView(v)
    ensures Minus(v, {}) == v
  {
    hide ValidPage, ValidEntry, Lower;
    assert v.pages - {} == v.pages;
    assert (set k | k in v.multi && Under(v.pages, k) != {}) == v.multi;
  }

  lemma MinusMinus(v: View, a: set<Page>, b: set<Page>)
    ensures Minus(Minus(v, a), b) == Minus(v, a + b)
  {
    hide Lower;
    assert v.pages - a - b == v.pages - (a + b);
    forall k | Under(v.pages - (a + b), k) != {} ensures Under(v.pages - a, k) != {} {
      var p :| p in Under(v.pages - (a + b), k);
      assert p in Under(v.pages - a, k);
    }
  }

  /** One turn of the loop removes the page whose record is under the key, if it is not to be kept. */
  lemma StepRefines(fs: Files, optTest: bool, s: PurgeState, v: View, key: string)
    requires Represents(s.store, v)
    ensures PurgeStep(fs, optTest, s, key).Ok?
    ensures var t := PurgeStep(fs, optTest, s, key).value;
            var gone := Doomed(fs, v, {key});
            && Represents(t.store, if optTest then v else Minus(v, gone))
            && t.count == s.count + |gone|
            && t.rescan == (s.rescan || SomeRescan(fs, v, {key}))
  {
    hide Represents, ValidView, ValidPage, ValidEntry, At, Encode, RefText, Ascending, Decode, Lower, IndexOf, MultiKey,
         RecordKey, Keep, Rescans, DeleteSpec, Minus, Key;
    var gone := Doomed(fs, v, {key});
    ViewOf(s.store, v);
    MinusNothing(v);
    assert forall q :: q in v.pages && RecordKey(v, q) in {key} ==> Holds(v, key, q);
    if IsSpecial(key) || key !in s.store || IsList(s.store[key]) {
      KeyHoldsNothing(s.store, v, key);
      assert gone == {};
      if !IsSpecial(key) && key in s.store {
        ListsPass(s.store, v, key);
      }
    } else {
      var p := KeyHolds(s.store, v, key);
      assert gone == if Keep(fs, p, v.pages[p]) then {} else {p} by {
        assert p in gone <==> !Keep(fs, p, v.pages[p]);
      }
      assert SomeRescan(fs, v, {key}) <==> Rescans(fs, p, v.pages[p]);
      var q := Page(NiceKey(key), p.ext);
      VictimGoes(s.store, v, q, p);
      WithoutIsMinus(v, p);
    }
  }

  /** purge_missing finds no fault with the lists of an index. */
  lemma ListsPass(store: map<string, string>, v: View, key: string)
    requires Represents(store, v) && !IsSpecial(key)
    requires key in store && IsList(store[key])
    ensures !CheckMultiKeySpec(NiceKey(key), store[key])
  {
    hide Represents, ValidView, ValidEntry, ValidPage, At, Encode, RefText, Ascending, Elements, Decode, Lower,
         CheckMultiKeySpec, MultiKey, ListExtensionsSpec;
    ListKey(store, v, key);
    ListWellFormed(store, v, key);
    ViewOf(store, v);
    IndexOfNone(key, '\t');
    assert key[..|key|] == key;
    ListedNames(v, key);
    CheckMultiKeyAccepts(key, SortedPages(Under(v.pages, key)));
  }

  lemma ListedNames(v: View, key: string)
    requires ValidView(v) && key in v.multi
    ensures var refs := SortedPages(Under(v.pages, key));
            TabFreePages(refs) && forall p :: p in refs ==> Lower(p.name) == Lower(key)
  {
    hide Encode, RefText, Ascending, Lower;
    var refs := SortedPages(Under(v.pages, key));
    forall p | p in refs ensures Lower(p.name) == Lower(key) && '\t' !in p.name && '\t' !in p.ext {
      assert p in Elements(refs);
      PageOf(v, p);
      LowerIdempotent(p.name);
    }
  }

  lemma ListKey(store: map<string, string>, v: View, key: string)
    requires Represents(store, v) && !IsSpecial(key)
    requires key in store && IsList(store[key])
    ensures key in v.multi
  {
    hide Encode, Lower, RefText, Decode;
    Reads(store, v, key);
    if '\t' in key {
      MultiKeyWellFormed(store, v, key);
      EncodeHead(None, KeyPage(key).ext, v.pages[KeyPage(key)]);
    } else if key !in v.multi {
      SingleWellFormed(store, v, key);
    }
  }

  /** dbdelete as purge_missing calls it: with the key's spelling of the name. */
  lemma VictimGoes(store: map<string, string>, v: View, q: Page, p: Page)
    requires Represents(store, v) && Victim(v, q) == Some(p)
    ensures DeleteSpec(store, q).Ok? && Represents(DeleteSpec(store, q).value.store, Without(v, p))
  {
    hide Represents, ValidView, ValidEntry, At, Encode, RefText, Ascending, Lower, DeleteSpec;
    if Key(q) in v.multi {
      DeleteListed(store, v, q);
    } else {
      DeleteSingle(store, v, q, p);
    }
  }

  /** Record keys do not move while other pages go. */
  lemma RecordKeyKept(v: View, gone: set<Page>, p: Page)
    requires p in v.pages && p !in gone
    ensures p in Minus(v, gone).pages && RecordKey(Minus(v, gone), p) == RecordKey(v, p)
  {
    hide Lower;
    assert p in Under(v.pages - gone, Key(p));
  }

  lemma DoomedSplit(fs: Files, optTest: bool, v: View, key: string, rest: set<string>)
    requires key !in rest
    ensures var gone := Doomed(fs, v, {key});
            var later := Doomed(fs, if optTest then v else Minus(v, gone), rest);
            && later == Doomed(fs, v, rest)
            && gone + later == Doomed(fs, v, {key} + rest)
            && |gone| + |later| == |Doomed(fs, v, {key} + rest)|
  {
    hide Lower, Keep, MultiKey, Minus, RecordKey;
    var gone := Doomed(fs, v, {key});
    var w := if optTest then v else Minus(v, gone);
    forall p ensures p in Doomed(fs, w, rest) <==> p in Doomed(fs, v, rest) {
      MinusPages(v, gone);
      if p in v.pages && p !in gone {
        RecordKeyKept(v, gone, p);
      }
    }
    assert Doomed(fs, w, rest) == Doomed(fs, v, rest);
    assert gone !! Doomed(fs, v, rest);
    assert gone + Doomed(fs, v, rest) == Doomed(fs, v, {key} + rest);
  }

  lemma MinusPages(v: View, gone: set<Page>)
    ensures Minus(v, gone).pages == v.pages - gone
  {
  }

  lemma RescanSplit(fs: Files, optTest: bool, v: View, key: string, rest: set<string>)
    requires key !in rest
    ensures SomeRescan(fs, v, {key} + rest)
        <==> SomeRescan(fs, v, {key}) || SomeRescan(fs, if optTest then v else Minus(v, Doomed(fs, v, {key})), rest)
  {
    hide Lower, Keep, MultiKey, Minus, RecordKey, Rescans;
    var gone := Doomed(fs, v, {key});
    var w := if optTest then v else Minus(v, gone);
    MinusPages(v, gone);
    forall p ensures p in v.pages && RecordKey(v, p) in rest <==> p in w.pages && RecordKey(w, p) in rest {
      if p in v.pages && p !in gone {
        RecordKeyKept(v, gone, p);
      }
    }
    if SomeRescan(fs, v, {key} + rest) {
      var p :| p in v.pages && RecordKey(v, p) in {key} + rest && Rescans(fs, p, v.pages[p]);
      assert RecordKey(v, p) in {key} || RecordKey(v, p) in rest;
    }
  }

  /** The run over any keys, each taken once. */
  lemma {:induction false} RunRefines(fs: Files, optTest: bool, s: PurgeState, v: View, keys: seq<string>)
    requires Represents(s.store, v)
    requires Distinct(keys)
    ensures PurgeRun(fs, optTest, s, keys).Ok?
    ensures var t := PurgeRun(fs, optTest, s, keys).value;
            var gone := Doomed(fs, v, Elements(keys));
            && Represents(t.store, if optTest then v else Minus(v, gone))
            && t.count == s.count + |gone|
            && t.rescan == (s.rescan || SomeRescan(fs, v, Elements(keys)))
    decreases |keys|
  {
    hide Represents, PurgeStep, Minus, Doomed, SomeRescan;
    if keys == [] {
      ViewOf(s.store, v);
      NothingDoomed(fs, v, Elements(keys));
      MinusNothing(v);
    } else {
      var key, rest := keys[0], keys[1..];
      assert Elements(keys) == {key} + Elements(rest) by { assert keys == [key] + rest; }
      assert key !in Elements(rest);
      var gone := Doomed(fs, v, {key});
      var w := if optTest then v else Minus(v, gone);
      StepRefines(fs, optTest, s, v, key);
      var t := PurgeStep(fs, optTest, s, key).value;
      RunRefines(fs, optTest, t, w, rest);
      DoomedSplit(fs, optTest, v, key, Elements(rest));
      RescanSplit(fs, optTest, v, key, Elements(rest));
      MinusMinus(v, gone, Doomed(fs, v, Elements(rest)));
    }
  }

  lemma NothingDoomed(fs: Files, v: View, keys: set<string>)
    requires keys == {}
    ensures Doomed(fs, v, keys) == {} && !SomeRescan(fs, v, keys)
  {
  }

  /** The pages that stay. */
  ghost function Kept(fs: Files, v: View): map<Page, Entry> {
    map p | p in v.pages && Stays(fs, p, v.pages[p]) :: v.pages[p]
  }

  /** The state that purging the index v leaves: the kept pages, the number removed, the rescan flag. */
  ghost predicate Purged(fs: Files, optTest: bool, v: View, rescan: bool, s: PurgeState) {
    && s.count == |v.pages| - |Kept(fs, v)|
    && s.rescan == (rescan || exists p :: p in v.pages && CallsForRescan(fs, p, v.pages[p]))
    && (if optTest then Represents(s.store, v)
        else exists w :: Represents(s.store, w) && w.pages == Kept(fs, v) && w.other == v.other)
  }

  lemma MinusOther(v: View, gone: set<Page>)
    ensures Minus(v, gone).other == v.other
  {
  }

  lemma KeptCount(fs: Files, v: View)
    ensures |set p | p in v.pages && !Stays(fs, p, v.pages[p])| == |v.pages| - |Kept(fs, v)|
  {
    hide Stays;
    var gone := set p | p in v.pages && !Stays(fs, p, v.pages[p]);
    var kept := Kept(fs, v).Keys;
    assert gone !! kept && gone + kept == v.pages.Keys;
    assert |kept| == |Kept(fs, v)| && |v.pages.Keys| == |v.pages|;
  }

  /** When every record key is looked at, the doomed pages are those that are not kept. */
  lemma DoomedAll(fs: Files, v: View, keys: set<string>)
    requires forall p :: p in v.pages ==> RecordKey(v, p) in keys
    ensures Minus(v, Doomed(fs, v, keys)).pages == Kept(fs, v)
    ensures |Doomed(fs, v, keys)| == |v.pages| - |Kept(fs, v)|
    ensures SomeRescan(fs, v, keys) <==> exists p :: p in v.pages && CallsForRescan(fs, p, v.pages[p])
  {
    hide RecordKey, Keep, Rescans, Stays, CallsForRescan, Minus, Kept;
    forall p | p in v.pages
      ensures Keep(fs, p, v.pages[p]) <==> Stays(fs, p, v.pages[p])
      ensures Rescans(fs, p, v.pages[p]) <==> CallsForRescan(fs, p, v.pages[p])
    {
      KeepIff(fs, p, v.pages[p]);
    }
    assert Doomed(fs, v, keys) == set p | p in v.pages && !Stays(fs, p, v.pages[p]);
    MinusPages(v, Doomed(fs, v, keys));
    KeptRest(fs, v);
    KeptCount(fs, v);
  }

  lemma KeptRest(fs: Files, v: View)
    ensures v.pages - (set p | p in v.pages && !Stays(fs, p, v.pages[p])) == Kept(fs, v)
  {
    hide Stays;
  }

  /**
    * purge_missing over the sorted snapshot of an index is a filter: it keeps the encoding invariant,
    * leaves exactly the pages that are to stay, with their entries, counts the removed ones, and asks
    * for a rescan exactly when some whatis reference calls for it.  With optTest it only counts.
    */
  lemma PurgeIsFilter(fs: Files, optTest: bool, store: map<string, string>, v: View, rescan: bool)
    requires Represents(store, v)
    ensures var r := PurgeRun(fs, optTest, PurgeState(store, 0, rescan), SortedKeys(store));
            r.Ok? && Purged(fs, optTest, v, rescan, r.value)
  {
    hide Represents, ValidView, PurgeRun, Minus, SortedKeys, Ascending, Doomed, Kept, SomeRescan, Rescans;
    var l := SortedKeys(store);
    KeysDiffer(store);
    RunRefines(fs, optTest, PurgeState(store, 0, rescan), v, l);
    AllRecordKeys(store, v);
    DoomedAll(fs, v, Elements(l));
    MinusOther(v, Doomed(fs, v, Elements(l)));
  }

  lemma PurgeOnIndex(fs: Files, optTest: bool, store: map<string, string>, index: Option<View>, rescan: bool)
    requires Opens(store, index)
    ensures index.Some? ==>
              var r := PurgeRun(fs, optTest, PurgeState(store, 0, rescan), SortedKeys(store));
              r.Ok? && Purged(fs, optTest, index.value, rescan, r.value)
  {
    hide Represents, PurgeRun, Purged, SortedKeys;
    if index.Some? { PurgeIsFilter(fs, optTest, store, index.value, rescan); }
  }
}
