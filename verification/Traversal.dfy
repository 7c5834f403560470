/**
  * Reading the whole index through the cursor: libdb/db_lookup.c dblookup_pattern and
  * src/mandb.c reorganize.
  */
module Traversal {
  import opened Wrappers
  import opened CString
  import opened Ordered
  import opened Record
  import opened References
  import opened Xdbm
  import opened Index
  import opened RecordKeys

  /** The pattern arguments of dblookup_pattern; fnmatch, word_fnmatch and regexec are oracles. */
  datatype Pattern = Pattern(
    section: Option<string>,
    matchesName: string -> bool,
    tryDescriptions: bool,
    matchesWhatis: string -> bool)

  /** Does dblookup_pattern return the page with this record, found under this name? */
  predicate Matches(pat: Pattern, name: string, ext: string, e: Entry) {
    && (pat.section.Some? ==> pat.section.value == e.sec || pat.section.value == ext)
    && (pat.matchesName(name) || (pat.tryDescriptions && pat.matchesWhatis(e.whatis)))
  }

  /** What one key contributes to the result. */
  function KeyHit(store: map<string, string>, pat: Pattern, key: string): Outcome<seq<Info>> {
    if key !in store then Corrupt
    else if IsSpecial(key) || IsList(store[key]) then Ok([])
    else
      var d := Decode(store[key]);
      if d.Corrupt? then Corrupt
      else
        var name := if d.value.name.Some? then d.value.name.value else BeforeLast(key, '\t');
        Ok(if Matches(pat, name, d.value.ext, EntryOf(d.value)) then [d.value.(name := Some(name))] else [])
  }

  function PatternRun(store: map<string, string>, pat: Pattern, keys: seq<string>): Outcome<seq<Info>>
    decreases |keys|
  {
    if keys == [] then Ok([])
    else
      var h := KeyHit(store, pat, keys[0]);
      var rest := PatternRun(store, pat, keys[1..]);
      if h.Corrupt? || rest.Corrupt? then Corrupt else Ok(h.value + rest.value)
  }

  /** One turn of the loop of dblookup_pattern. */
  method PatternKey(dbf: Dbm, pat: Pattern, key: string) returns (r: Outcome<seq<Info>>)
    ensures r == KeyHit(dbf.store, pat, key)
  {
    hide Decode;
    var content := dbf.Fetch(key);
    if content.None? {
      return Corrupt;
    }
    if key != "" && key[0] == '$' {
      return Ok([]);
    }
    if IsList(content.value) {
      return Ok([]);
    }
    var parsed := SplitContent(content.value);
    if parsed.Corrupt? {
      return Corrupt;
    }
    var info := parsed.value;
    WhatisSet(content.value);
    if pat.section.Some? && pat.section.value != info.sec && pat.section.value != info.ext {
      return Ok([]);
    }
    var tab := LastIndexOf(key, '\t');
    if info.name.None? {
      info.name := Some(if tab >= 0 then key[..tab] else key);
    }
    var gotMatch := pat.matchesName(info.name.value);
    if pat.tryDescriptions && !gotMatch && info.whatis.Some? {
      gotMatch := pat.matchesWhatis(info.whatis.value);
    }
    return Ok(if gotMatch then [info.Value()] else []);
  }

  lemma WhatisSet(content: string)
    ensures Decode(content).Ok? ==> Decode(content).value.whatis.Some?
  {
  }

  /** The page whose record lies under the key, if the pattern selects it. */
  ghost function SelectedAt(v: View, pat: Pattern, key: string): seq<Page> {
    if exists p :: Holds(v, key, p) && Matches(pat, p.name, p.ext, v.pages[p]) then
      var p :| Holds(v, key, p) && Matches(pat, p.name, p.ext, v.pages[p]);
      [p]
    else []
  }

  /** The selected pages below the given keys, in the order of the keys. */
  ghost function Selected(v: View, pat: Pattern, keys: seq<string>): seq<Page>
    decreases |keys|
  {
    if keys == [] then [] else SelectedAt(v, pat, keys[0]) + Selected(v, pat, keys[1..])
  }

  ghost predicate Lists(v: View, infos: seq<Info>, pages: seq<Page>) {
    && |infos| == |pages|
    && forall i :: 0 <= i < |pages| ==>
         pages[i] in v.pages && infos[i] == InfoOf(Some(pages[i].name), pages[i].ext, v.pages[pages[i]])
  }

  /** In the keys of an index the last tab is the first. */
  lemma SameCut(store: map<string, string>, v: View, key: string)
    requires Represents(store, v) && key in store && !IsSpecial(key)
    ensures BeforeLast(key, '\t') == NiceKey(key)
  {
    hide Represents, ValidEntry, At, Encode, RefText, Ascending, Lower, Decode;
    if '\t' in key {
      MultiKeyWellFormed(store, v, key);
      ViewOf(store, v);
      var p := KeyPage(key);
      PageOf(v, p);
      KeyPageInverse(key);
      LastIndexOfLast(p.name, '\t', p.ext);
      IndexOfFirst(p.name, '\t', p.ext);
    } else {
      IndexOfNone(key, '\t');
    }
  }

  /** One key: its page, if it holds one and the pattern selects it. */
  lemma KeyHitPage(store: map<string, string>, v: View, pat: Pattern, key: string)
    requires Represents(store, v) && key in store
    ensures KeyHit(store, pat, key).Ok?
    ensures Lists(v, KeyHit(store, pat, key).value, SelectedAt(v, pat, key))
  {
    hide Represents, ValidView, ValidEntry, At, Encode, RefText, Ascending, Decode, Lower, IndexOf, Matches, Holds;
    if IsSpecial(key) || IsList(store[key]) {
      KeyHoldsNothing(store, v, key);
    } else {
      var p := KeyHolds(store, v, key);
      DecodeAsInfo(store[key]);
      SameCut(store, v, key);
    }
  }

  lemma DecodeAsInfo(content: string)
    ensures var d := Decode(content); d.Ok? ==> d.value == InfoOf(d.value.name, d.value.ext, EntryOf(d.value))
  {
  }

  lemma {:induction false} PatternRunSelects(store: map<string, string>, v: View, pat: Pattern, keys: seq<string>)
    requires Represents(store, v) && forall k :: k in keys ==> k in store
    ensures PatternRun(store, pat, keys).Ok?
    ensures Lists(v, PatternRun(store, pat, keys).value, Selected(v, pat, keys))
    decreases |keys|
  {
    hide Represents, KeyHit, SelectedAt;
    if keys != [] {
      assert keys[0] in keys;
      KeyHitPage(store, v, pat, keys[0]);
      PatternRunSelects(store, v, pat, keys[1..]);
    }
  }

  lemma {:induction false} SelectedMembers(store: map<string, string>, v: View, pat: Pattern, keys: seq<string>,
                                           p: Page)
    requires Represents(store, v) && forall k :: k in keys ==> k in store
    ensures p in Selected(v, pat, keys)
        <==> p in v.pages && RecordKey(v, p) in keys && Matches(pat, p.name, p.ext, v.pages[p])
    decreases |keys|
  {
    hide Represents, Matches, RecordKey, SelectedAt;
    if keys != [] {
      assert keys == [keys[0]] + keys[1..];
      SelectedMembers(store, v, pat, keys[1..], p);
      SelectedAtMembers(store, v, pat, keys[0], p);
    }
  }

  lemma SelectedAtMembers(store: map<string, string>, v: View, pat: Pattern, key: string, p: Page)
    requires Represents(store, v)
    ensures p in SelectedAt(v, pat, key) <==> Holds(v, key, p) && Matches(pat, p.name, p.ext, v.pages[p])
  {
    hide Represents, Holds, Matches;
    OneHolder(store, v, key);
  }

  lemma OneHolder(store: map<string, string>, v: View, key: string)
    requires Represents(store, v)
    ensures forall p, q :: Holds(v, key, p) && Holds(v, key, q) ==> p == q
  {
    hide Represents, Holds, Decode;
    if IsSpecial(key) || key !in store || IsList(store[key]) {
      KeyHoldsNothing(store, v, key);
    } else {
      var p := KeyHolds(store, v, key);
    }
  }

  lemma {:induction false} SelectedOnce(store: map<string, string>, v: View, pat: Pattern, keys: seq<string>)
    requires Represents(store, v) && (forall k :: k in keys ==> k in store)
    requires Distinct(keys)
    ensures Distinct(Selected(v, pat, keys))
    decreases |keys|
  {
    hide Represents, Matches, RecordKey, SelectedAt;
    if keys != [] {
      var head, rest := SelectedAt(v, pat, keys[0]), Selected(v, pat, keys[1..]);
      SelectedOnce(store, v, pat, keys[1..]);
      AtMostOne(v, pat, keys[0]);
      assert keys[0] !in keys[1..];
      forall p | p in head ensures p !in rest {
        SelectedAtMembers(store, v, pat, keys[0], p);
        SelectedMembers(store, v, pat, keys[1..], p);
      }
      JoinedOnce(head, rest);
    }
  }

  lemma JoinedOnce(head: seq<Page>, rest: seq<Page>)
    requires |head| <= 1 && forall p :: p in head ==> p !in rest
    requires Distinct(rest)
    ensures Distinct(head + rest)
  {
    if head != [] {
      assert head[0] in head;
    }
  }

  lemma AtMostOne(v: View, pat: Pattern, key: string)
    ensures |SelectedAt(v, pat, key)| <= 1
  {
  }

  /**
    * The pages a pattern is for: of the given section, by their section or their extension, with a
    * matching name or, when descriptions are tried too, a matching whatis text.
    */
  predicate Wanted(pat: Pattern, p: Page, e: Entry) {
    && (pat.section == None || pat.section == Some(e.sec) || pat.section == Some(p.ext))
    && if pat.tryDescriptions then pat.matchesName(p.name) || pat.matchesWhatis(e.whatis) else pat.matchesName(p.name)
  }

  /** The results are the wanted pages, each once. */
  ghost predicate AllSelected(v: View, pat: Pattern, infos: seq<Info>, pages: seq<Page>) {
    && Lists(v, infos, pages)
    && (forall p :: p in pages <==> p in v.pages && Wanted(pat, p, v.pages[p]))
    && Distinct(pages)
  }

  lemma WantedIff(pat: Pattern, p: Page, e: Entry)
    ensures Wanted(pat, p, e) <==> Matches(pat, p.name, p.ext, e)
  {
  }

  /**
    * dblookup_pattern considers every stored page exactly once: on any index it never takes the
    * corrupt-data exit and returns exactly the pages that match, no page twice, with their proper
    * names and all their fields.
    */
  lemma PatternExact(store: map<string, string>, v: View, pat: Pattern)
    requires Represents(store, v)
    ensures var r := PatternRun(store, pat, SortedKeys(store));
            r.Ok? && AllSelected(v, pat, r.value, Selected(v, pat, SortedKeys(store)))
  {
    hide Represents, Matches, Wanted, RecordKey, SortedKeys, Ascending, PatternRun, Selected;
    var l := SortedKeys(store);
    forall k ensures k in l <==> k in store { assert k in l <==> k in Elements(l); }
    PatternRunSelects(store, v, pat, l);
    AllRecordKeys(store, v);
    forall p ensures p in Selected(v, pat, l) <==> p in v.pages && Wanted(pat, p, v.pages[p]) {
      SelectedMembers(store, v, pat, l, p);
      if p in v.pages { WantedIff(pat, p, v.pages[p]); }
    }
    KeysDiffer(store);
    SelectedOnce(store, v, pat, l);
  }

  lemma PatternOnIndex(store: map<string, string>, index: Option<View>, pat: Pattern)
    requires Opens(store, index)
    ensures index.Some? ==>
              var r := PatternRun(store, pat, SortedKeys(store));
              r.Ok? && AllSelected(index.value, pat, r.value, Selected(index.value, pat, SortedKeys(store)))
  {
    hide Represents, PatternRun, Selected, AllSelected, SortedKeys;
    if index.Some? { PatternExact(store, index.value, pat); }
  }

  /**
    * dblookup_pattern on any store, given as an index when it is one: on an index it never takes the
    * corrupt-data exit and returns exactly the pages that match, no page twice, with their proper names
    * and all their fields.
    */
  method LookupPattern(dbf: Dbm, pat: Pattern, ghost index: Option<View>) returns (r: Outcome<seq<Info>>)
    requires Opens(dbf.store, index)
    modifies dbf`keys
    ensures r == PatternRun(dbf.store, pat, SortedKeys(dbf.store))
    ensures index.Some? ==>
              && r.Ok?
              && AllSelected(index.value, pat, r.value, Selected(index.value, pat, SortedKeys(dbf.store)))
  {
    hide KeyHit, Ascending, SortedKeys, Successor, Decode, Opens, Represents, AllSelected, Selected;
    OpensKeys(dbf.store, index);
    PatternOnIndex(dbf.store, index, pat);
    var infos := [];
    ghost var list := SortedKeys(dbf.store);
    forall k | k in list ensures NulFree(k) { assert k in Elements(list); }
    var key := dbf.FirstKey();
    ghost var i := 0;
    assert list[0..] == list;
    PrependMore([], [], PatternRun(dbf.store, pat, list));
    while key.Some?
      invariant dbf.keys == Some(list)
      invariant 0 <= i <= |list| && key == if i < |list| then Some(list[i]) else None
      invariant PatternRun(dbf.store, pat, list) == Prepend(infos, PatternRun(dbf.store, pat, list[i..]))
      decreases |list| - i
    {
      assert list[i..][0] == key.value && list[i..][1..] == list[i + 1..];
      var hit := PatternKey(dbf, pat, key.value);
      if hit.Corrupt? {
        return Corrupt;
      }
      PrependMore(infos, hit.value, PatternRun(dbf.store, pat, list[i + 1..]));
      infos := infos + hit.value;
      SuccessorAt(list, i);
      key := dbf.NextKey(key.value);
      i := i + 1;
    }
    assert list[i..] == [] && infos + [] == infos;
    return Ok(infos);
  }

  /** Inserts the contents of the given keys one by one; None when an insert fails. */
  function CopyRun(store: map<string, string>, keys: seq<string>, tmp: map<string, string>): Option<map<string, string>>
    requires forall k :: k in keys ==> k in store
    decreases |keys|
  {
    if keys == [] then Some(tmp)
    else if keys[0] in tmp then None
    else
      assert keys[0] in keys;
      CopyRun(store, keys[1..], tmp[keys[0] := store[keys[0]]])
  }

  lemma {:induction false} CopyRunCopies(store: map<string, string>, keys: seq<string>, tmp: map<string, string>)
    requires forall k :: k in keys ==> k in store && k !in tmp
    requires Distinct(keys)
    ensures CopyRun(store, keys, tmp).Some?
    ensures forall k :: Get(CopyRun(store, keys, tmp).value, k) == if k in keys then Get(store, k) else Get(tmp, k)
    decreases |keys|
  {
    if keys != [] {
      var key := keys[0];
      assert key in keys;
      CopyRunCopies(store, keys[1..], tmp[key := store[key]]);
      assert keys == [key] + keys[1..];
    }
  }

  lemma SameGets(s: map<string, string>, t: map<string, string>)
    requires forall k :: Get(s, k) == Get(t, k)
    ensures s == t
  {
    assert forall k :: k in s <==> Get(s, k).Some?;
    assert forall k :: k in t <==> Get(t, k).Some?;
  }

  /** Copying a store in cursor order never inserts a key twice and gives the same store. */
  lemma ReorganizeIsCopy(store: map<string, string>)
    ensures (forall k :: k in SortedKeys(store) ==> k in store)
    ensures CopyRun(store, SortedKeys(store), map[]) == Some(store)
  {
    hide SortedKeys, Ascending, CopyRun;
    var l := SortedKeys(store);
    forall k ensures k in l <==> k in store { assert k in l <==> k in Elements(l); }
    KeysDiffer(store);
    CopyRunCopies(store, l, map[]);
    SameGets(CopyRun(store, l, map[]).value, store);
  }

  lemma CopyStep(store: map<string, string>, list: seq<string>, i: nat, tmp: map<string, string>)
    requires i < |list| && forall k :: k in list ==> k in store
    ensures forall k :: k in list[i..] ==> k in list
    ensures CopyRun(store, list[i..], tmp)
         == if list[i] in tmp then None else CopyRun(store, list[i + 1..], tmp[list[i] := store[list[i]]])
  {
    assert list[i..][1..] == list[i + 1..];
  }

  lemma CopyEnd(store: map<string, string>, keys: seq<string>, tmp: map<string, string>)
    requires keys == []
    ensures CopyRun(store, keys, tmp) == Some(tmp)
  {
  }

  /**
    * reorganize; ready says that both files could be opened.  True when the copy replaces the original;
    * no insert fails, and the copy of an index is the index.
    */
  method Reorganize(dbf: Dbm, tmpdbf: Dbm, ready: bool, ghost index: Option<View>) returns (renamed: bool)
    requires dbf != tmpdbf && Opens(dbf.store, index) && tmpdbf.store == map[]
    modifies dbf`keys, tmpdbf`store
    ensures renamed == ready
    ensures renamed ==> tmpdbf.store == dbf.store
    ensures renamed && index.Some? ==> Represents(tmpdbf.store, index.value)
  {
    hide Ascending, SortedKeys, Successor, CopyRun, Represents;
    if !ready {
      return false;
    }
    OpensKeys(dbf.store, index);
    ghost var list := SortedKeys(dbf.store);
    ghost var store := dbf.store;
    ReorganizeIsCopy(store);
    forall k | k in list ensures NulFree(k) { assert k in Elements(list); }
    var key := dbf.FirstKey();
    ghost var i := 0;
    assert list[0..] == list;
    while key.Some?
      invariant dbf.keys == Some(list) && dbf.store == store
      invariant 0 <= i <= |list| && key == if i < |list| then Some(list[i]) else None
      invariant (forall k :: k in list[i..] ==> k in store) && CopyRun(store, list[i..], tmpdbf.store) == Some(store)
      decreases |list| - i
    {
      var content := dbf.Fetch(key.value);
      CopyStep(store, list, i, tmpdbf.store);
      assert forall k :: k in list[i + 1..] ==> k in list[i..];
      var insertStatus := tmpdbf.Insert(key.value, content.value);
      if insertStatus != 0 {
        return false;
      }
      SuccessorAt(list, i);
      key := dbf.NextKey(key.value);
      i := i + 1;
    }
    CopyEnd(store, list[i..], tmpdbf.store);
    return true;
  }
}
