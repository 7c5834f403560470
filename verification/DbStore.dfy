/**
  * Storing a page: libdb/db_store.c compare_ids, replace_if_necessary and dbstore.
  */
module DbStore {
  import opened Wrappers
  import opened CString
  import opened Ordered
  import opened Record
  import opened References
  import opened Xdbm
  import opened Index

  /** compare_ids, without FAVOUR_STRAYCATS. */
  function CompareIds(a: char, b: char, promoteLinks: bool): int {
    if promoteLinks && ((a == ULT_MAN && b == SO_MAN) || (a == SO_MAN && b == ULT_MAN)) then 0
    else if a < b then -1
    else if a > b then 1
    else 0
  }

  datatype Action = Yes | No | Fail

  /** The decision of replace_if_necessary. */
  function Decide(new_: Entry, old_: Entry): Action {
    if CompareIds(new_.id, old_.id, false) < 0 then Yes
    else if CompareIds(new_.id, old_.id, true) <= 0 && TimeCompare(new_.mtime, old_.mtime) > 0 then Yes
    else if CompareIds(new_.id, old_.id, true) <= 0 && TimeCompare(new_.mtime, old_.mtime) < 0 then No
    else if CompareIds(new_.id, old_.id, false) > 0 then No
    else if Compare(new_.pointer, old_.pointer) < 0 then Yes
    else if Compare(new_.pointer, old_.pointer) > 0 then No
    else if new_.comp != old_.comp then Fail
    else No
  }

  /** The decision on structures: pointers are compared only when both are set. */
  function DecideInfo(new_: Info, old_: Info): Action {
    var n, o := EntryOf(new_), EntryOf(old_);
    if new_.pointer.Some? && old_.pointer.Some? then Decide(n, o)
    else Decide(n.(pointer := ""), o.(pointer := ""))
  }

  /** Do two entries agree on everything that ranks them? */
  predicate SameRank(a: Entry, b: Entry) {
    a.id == b.id && a.mtime == b.mtime && a.pointer == b.pointer
  }

  /**
    * Does new_ take the place of old_?  It has the better id, or it is newer and no worse (a link is no
    * worse than a real page), or everything but the pointer agrees and its pointer comes first.
    */
  predicate Replaces(new_: Entry, old_: Entry) {
    || new_.id < old_.id
    || ((new_.id == old_.id || (new_.id == 'B' && old_.id == 'A')) && Newer(new_.mtime, old_.mtime))
    || (new_.id == old_.id && new_.mtime == old_.mtime && Precedes(new_.pointer, old_.pointer))
  }

  /** Two entries that nothing ranks, for files compressed differently. */
  predicate Ties(a: Entry, b: Entry) {
    a.id == b.id && a.mtime == b.mtime && a.pointer == b.pointer && a.comp != b.comp
  }

  /** The branches of replace_if_necessary in terms of the fields. */
  lemma DecideIff(new_: Entry, old_: Entry)
    ensures Decide(new_, old_) == Yes <==> Replaces(new_, old_)
    ensures Decide(new_, old_) == Fail <==> Ties(new_, old_)
  {
    hide Compare, Precedes;
    LessIff(new_.pointer, old_.pointer);
    CompareZero(new_.pointer, old_.pointer);
  }

  datatype StoreResult = StoreResult(status: int, store: map<string, string>)

  /** The store after the action: a missing key is inserted even when the old contents win. */
  function ApplyAction(store: map<string, string>, a: Action, key: string, content: string): StoreResult {
    match a
    case Yes => StoreResult(0, store[key := content])
    case No => StoreResult(0, if key in store then store else store[key := content])
    case Fail => StoreResult(1, store)
  }

  /** Situation (2): the simple key already holds a reference list. */
  function MultiSpec(store: map<string, string>, key: string, i: Info, q: Page): Outcome<StoreResult>
    requires key in store && store[key] != ""
  {
    var newKey, newContent := MultiKey(q), Encode(None, i.ext, EntryOf(i));
    if newKey in store then
      var d := Decode(store[newKey]);
      if d.Corrupt? then Corrupt
      else Ok(ApplyAction(store, Decide(EntryOf(i), EntryOf(d.value)), newKey, newContent))
    else
      var refs := Insert(NameExtLess, ListExtensionsSpec(store[key][1..]), q);
      Ok(StoreResult(0, store[newKey := newContent][key := RefText(refs)]))
  }

  /** Situation (3): the simple key holds one record. */
  function SecondSpec(store: map<string, string>, key: string, i: Info, q: Page): Outcome<StoreResult>
    requires key in store
  {
    var d := Decode(store[key]);
    if d.Corrupt? then Corrupt
    else
      var old_, oldEntry := Owner(key, d.value), EntryOf(d.value);
      if old_ == q then
        Ok(ApplyAction(store, Decide(EntryOf(i), oldEntry), key,
                       Encode(if q.name != key then Some(q.name) else None, i.ext, EntryOf(i))))
      else
        Ok(SplitSpec(store, key, old_, oldEntry, i, q))
  }

  /** Situation (3) with a page other than the one there: both become multi keys. */
  function SplitSpec(store: map<string, string>, key: string, old_: Page, oldEntry: Entry, i: Info, q: Page)
    : StoreResult
  {
    var split := store[MultiKey(old_) := Encode(None, old_.ext, oldEntry)];
    var r := ApplyAction(split, Decide(EntryOf(i), oldEntry), MultiKey(q), Encode(None, i.ext, EntryOf(i)));
    var refs := Insert(NameExtLess, Insert(NameExtLess, [], old_), q);
    r.(store := r.store[key := RefText(refs)])
  }

  /** What dbstore does to a raw store, for any store and any page. */
  function StoreSpec(store: map<string, string>, i: Info, base: string): Outcome<StoreResult> {
    var key := Lower(base);
    var q := Page(base, i.ext);
    if base == "" then Ok(StoreResult(2, store))
    else if key !in store then
      Ok(StoreResult(0, store[key := Encode(if base != key then Some(base) else None, i.ext, EntryOf(i))]))
    else if IsList(store[key]) then MultiSpec(store, key, i, q)
    else SecondSpec(store, key, i, q)
  }

  /** replace_if_necessary */
  method ReplaceIfNecessary(dbf: Dbm, newData: Mandata, oldData: Mandata, newKey: string, newContent: string)
    returns (status: int)
    requires oldData.comp.Some?  // dereferenced without a test
    modifies dbf`store
    ensures StoreResult(status, dbf.store)
            == ApplyAction(old(dbf.store), DecideInfo(newData.Value(), oldData.Value()), newKey, newContent)
  {
    var action;
    if CompareIds(newData.id, oldData.id, false) < 0 {
      action := Yes;
    } else if CompareIds(newData.id, oldData.id, true) <= 0 && TimeCompare(newData.mtime, oldData.mtime) > 0 {
      action := Yes;
    } else if CompareIds(newData.id, oldData.id, true) <= 0 && TimeCompare(newData.mtime, oldData.mtime) < 0 {
      action := No;
    } else if CompareIds(newData.id, oldData.id, false) > 0 {
      action := No;
    } else if newData.pointer.Some? && oldData.pointer.Some?
              && Compare(newData.pointer.value, oldData.pointer.value) < 0 {
      action := Yes;
    } else if newData.pointer.Some? && oldData.pointer.Some?
              && Compare(newData.pointer.value, oldData.pointer.value) > 0 {
      action := No;
    } else if DashIfUnset(newData.comp) != oldData.comp.value {
      action := Fail;
    } else {
      action := No;
    }
    match action {
      case Yes =>
        dbf.Replace(newKey, newContent);
        return 0;
      case No =>
        var _ := dbf.Insert(newKey, newContent);
        return 0;
      case Fail =>
        return 1;
    }
  }

  /** name_to_key */
  method NameToKey(name: string) returns (low: string)
    ensures low == Lower(name)
    ensures |low| == |name|
    ensures forall i :: 0 <= i < |name| ==>
              low[i] == if 'A' <= name[i] <= 'Z' then (name[i] as int + 32) as char else name[i]
  {
    var buf := new char[|name| + 1](_ => '\0');
    var p := 0;
    while p < |name|
      invariant 0 <= p <= |name|
      invariant buf[..p] == Lower(name)[..p]
    {
      buf[p] := ToLower(name[p]);
      assert buf[..p + 1] == buf[..p] + [buf[p]];
      p := p + 1;
    }
    buf[p] := '\0';
    low := buf[..p];
  }

  /**
    * dbstore.  The name field of the structure is cleared and its NULL fields are filled;
    * an empty page name is refused with 2 before any of that.
    */
  method Store(dbf: Dbm, in_: Mandata, base: string) returns (r: Outcome<int>)
    modifies dbf`store, in_
    ensures r.Ok? <==> StoreSpec(old(dbf.store), old(in_.Value()), base).Ok?
    ensures r.Ok? ==> StoreSpec(old(dbf.store), old(in_.Value()), base) == Ok(StoreResult(r.value, dbf.store))
    ensures base == "" ==> r == Ok(2) && dbf.store == old(dbf.store) && in_.Value() == old(in_.Value())
    ensures base != "" && r.Ok? ==> in_.Value() == Filled(old(in_.Value())).(name := None)
  {
    hide Encode, Lower, Decode, Decide, RefText;
    var oldKey := NameToKey(base);
    if base == "" {
      return Ok(2);
    }
    if in_.name.Some? {
      in_.name := None;
    }
    var oldContent := dbf.Fetch(oldKey);
    if oldContent.None? {
      if base != oldKey { in_.name := Some(base); }
      var content := MakeContent(in_);
      dbf.Replace(oldKey, content);
      in_.name := None;
      return Ok(0);
    } else if IsList(oldContent.value) {
      r := StoreMulti(dbf, in_, base, oldKey, oldContent.value);
    } else {
      r := StoreSecond(dbf, in_, base, oldKey, oldContent.value);
    }
  }

  /** Situation (2). */
  method StoreMulti(dbf: Dbm, in_: Mandata, base: string, oldKey: string, oldContent: string) returns (r: Outcome<int>)
    requires in_.name == None
    requires Get(dbf.store, oldKey) == Some(oldContent) && oldContent != ""
    modifies dbf`store, in_
    ensures var s := MultiSpec(old(dbf.store), oldKey, old(in_.Value()), Page(base, old(in_.ext)));
            (r.Ok? <==> s.Ok?) && (r.Ok? ==> s == Ok(StoreResult(r.value, dbf.store)))
    ensures r.Ok? ==> in_.Value() == Filled(old(in_.Value()))
  {
    var newKey := MultiKey(Page(base, in_.ext));
    var newContent := MakeContent(in_);
    var status := dbf.Insert(newKey, newContent);
    if status != 0 {
      var cont := dbf.Fetch(newKey);
      var info := SplitContent(cont.value);
      if info.Corrupt? {
        return Corrupt;
      }
      var ret := ReplaceIfNecessary(dbf, in_, info.value, newKey, newContent);
      return Ok(ret);
    }
    var refs := ListExtensions(oldContent[1..]);
    refs := Insert(NameExtLess, refs, Page(base, in_.ext));
    var value := MakeExtensionsReference(refs);
    dbf.Replace(oldKey, value);
    return Ok(0);
  }

  /** Situation (3). */
  method StoreSecond(dbf: Dbm, in_: Mandata, base: string, oldKey: string, oldContent: string) returns (r: Outcome<int>)
    requires in_.name == None
    requires Get(dbf.store, oldKey) == Some(oldContent)
    modifies dbf`store, in_
    ensures var s := SecondSpec(old(dbf.store), oldKey, old(in_.Value()), Page(base, old(in_.ext)));
            (r.Ok? <==> s.Ok?) && (r.Ok? ==> s == Ok(StoreResult(r.value, dbf.store)))
    ensures r.Ok? ==> in_.Value() == Filled(old(in_.Value()))
  {
    var parsed := SplitContent(oldContent);
    if parsed.Corrupt? {
      return Corrupt;
    }
    var old_ := parsed.value;
    var oldName := if old_.name.Some? then old_.name.value else oldKey;
    if oldName == base && old_.ext == in_.ext {
      if base != oldKey { in_.name := Some(base); }
      var newContent := MakeContent(in_);
      var ret := ReplaceIfNecessary(dbf, in_, old_, oldKey, newContent);
      in_.name := None;
      return Ok(ret);
    }
    var ret := StoreSplit(dbf, in_, old_, oldName, base, oldKey);
    return Ok(ret);
  }

  /** The rest of situation (3): write both multi keys and list them under the simple key. */
  method StoreSplit(dbf: Dbm, in_: Mandata, old_: Mandata, oldName: string, base: string, oldKey: string)
    returns (ret: int)
    requires in_ != old_ && in_.name == None && old_.comp.Some? && old_.pointer.Some?
    modifies dbf`store, in_, old_
    ensures StoreResult(ret, dbf.store)
            == SplitSpec(old(dbf.store), oldKey, Page(oldName, old(old_.ext)), EntryOf(old(old_.Value())),
                         old(in_.Value()), Page(base, old(in_.ext)))
    ensures in_.Value() == Filled(old(in_.Value()))
  {
    var lastKey := MultiKey(Page(oldName, old_.ext));
    if old_.name.Some? {
      old_.name := None;
    }
    var lastContent := MakeContent(old_);
    dbf.Replace(lastKey, lastContent);
    var newKey := MultiKey(Page(base, in_.ext));
    var newContent := MakeContent(in_);
    ret := ReplaceIfNecessary(dbf, in_, old_, newKey, newContent);
    var refs := Insert(NameExtLess, [], Page(oldName, old_.ext));
    refs := Insert(NameExtLess, refs, Page(base, in_.ext));
    var value := MakeExtensionsReference(refs);
    dbf.Replace(oldKey, value);
  }
}
