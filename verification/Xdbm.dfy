/**
  * The key-value store and its ordered cursor: the MYDBM_* macros of libdb/mydbm.h over
  * a map, and libdb/db_xdbm.c datum_compare, man_xdbm_firstkey and man_xdbm_nextkey.
  */
module Xdbm {
  import opened Wrappers
  import opened CString
  import opened Ordered
  import References

  /** The bytes of a datum: MYDBM_SET counts the terminating NUL. */
  function Terminated(s: string): string {
    s + ['\0']
  }

  /** The sign of strncmp on two buffers of at least n bytes. */
  function StrnCompare(a: string, b: string, n: nat): int
    requires n <= |a| && n <= |b|
  {
    if n == 0 then 0
    else if a[0] != b[0] then (if a[0] < b[0] then -1 else 1)
    else if a[0] == '\0' then 0
    else StrnCompare(a[1..], b[1..], n - 1)
  }

  /** datum_compare; a NULL datum sorts to the end. */
  function DatumCompare(left: Option<string>, right: Option<string>): int {
    if left.None? then 1
    else if right.None? then -1
    else
      var l, r := Terminated(left.value), Terminated(right.value);
      var minsize := if |l| < |r| then |l| else |r|;
      var cmp := StrnCompare(l, r, minsize);
      if cmp != 0 then cmp
      else if |l| < |r| then 1
      else if |l| > |r| then -1
      else 0
  }

  predicate DatumLess(left: string, right: string) {
    DatumCompare(Some(left), Some(right)) < 0
  }

  /** The size tie-break never decides: keys of C strings are ordered by strcmp, with NULL at the end. */
  lemma {:induction false} DatumCompareIsStrcmp(a: string, b: string)
    requires NulFree(a) && NulFree(b)
    ensures DatumCompare(Some(a), Some(b)) == Compare(a, b)
    ensures DatumCompare(None, Some(b)) > 0 && DatumCompare(Some(a), None) < 0
  {
    var l, r := Terminated(a), Terminated(b);
    if a != "" && b != "" {
      assert a[0] in a && b[0] in b;
      assert l[1..] == Terminated(a[1..]) && r[1..] == Terminated(b[1..]);
      DatumCompareIsStrcmp(a[1..], b[1..]);
    } else if b != "" {
      assert b[0] in b;
    } else if a != "" {
      assert a[0] in a;
    }
  }

  lemma {:induction false} PositionAgrees(l: seq<string>, x: string)
    requires NulFree(x) && forall y :: y in l ==> NulFree(y)
    ensures Position(DatumLess, l, x) == Position(Less, l, x)
  {
    if l != [] {
      DatumCompareIsStrcmp(l[0], x);
      PositionAgrees(l[1..], x);
    }
  }

  /** A set of keys in strcmp order. */
  ghost function SortedStrings(s: set<string>): (l: seq<string>)
    ensures Ascending(Less, l) && Elements(l) == s && |l| == |s|
  {
    References.CompareTotalOrder();
    Sorted(Less, s)
  }

  /** The keys of a store in ascending order: the list firstkey remembers. */
  ghost function SortedKeys(store: map<string, string>): (l: seq<string>)
    ensures Ascending(Less, l) && Elements(l) == store.Keys && |l| == |store|
  {
    assert |store.Keys| == |store|;
    SortedStrings(store.Keys)
  }

  lemma KeysDiffer(store: map<string, string>)
    ensures Distinct(SortedKeys(store))
  {
    var l := SortedKeys(store);
    forall i, j | 0 <= i < j < |l| ensures l[i] != l[j] {
      assert Less(l[i], l[j]);
      CompareZero(l[i], l[j]);
    }
  }

  /** Taking a key from the unread ones and adding it to the list with datum_compare. */
  lemma DatumInsertSorted(all: set<string>, unread: set<string>, k: string)
    requires k in unread && unread <= all && forall y :: y in all ==> NulFree(y)
    ensures Ordered.Insert(DatumLess, SortedStrings(all - unread), k) == SortedStrings(all - (unread - {k}))
  {
    var seen := all - unread;
    var l := SortedStrings(seen);
    forall y | y in l ensures NulFree(y) { assert y in Elements(l); }
    PositionAgrees(l, k);
    References.CompareTotalOrder();
    InsertSorted(Less, seen, k);
    assert all - (unread - {k}) == seen + {k};
  }

  ghost predicate CKeys(store: map<string, string>) {
    forall k :: k in store ==> NulFree(k)
  }

  function Get<K, V>(m: map<K, V>, key: K): Option<V> {
    if key in m then Some(m[key]) else None
  }

  class Dbm {
    var store: map<string, string>
    // the entry of parent_keys for this file
    var keys: Option<seq<string>>

    constructor ()
      ensures store == map[] && keys == None
    {
      store, keys := map[], None;
    }

    /** MYDBM_FETCH */
    method Fetch(key: string) returns (content: Option<string>)
      ensures content == Get(store, key)
    {
      content := if key in store then Some(store[key]) else None;
    }

    /** MYDBM_EXISTS */
    method Exists(key: string) returns (r: bool)
      ensures r == (key in store)
    {
      r := key in store;
    }

    /** MYDBM_INSERT: fails without effect when the key exists. */
    method Insert(key: string, content: string) returns (status: int)
      modifies this`store
      ensures status == if key in old(store) then 1 else 0
      ensures store == if key in old(store) then old(store) else old(store)[key := content]
    {
      if key in store {
        return 1;
      }
      store := store[key := content];
      return 0;
    }

    /** MYDBM_REPLACE: the back end is assumed not to fail. */
    method Replace(key: string, content: string)
      modifies this`store
      ensures store == old(store)[key := content]
    {
      store := store[key := content];
    }

    /** MYDBM_DELETE */
    method Delete(key: string)
      modifies this`store
      ensures store == old(store) - {key}
    {
      store := store - {key};
    }

    /** man_xdbm_firstkey: traverse the raw store in whatever order, sort, remember, return the first. */
    method FirstKey() returns (key: Option<string>)
      requires CKeys(store)
      modifies this`keys
      ensures keys == Some(SortedKeys(store))
      ensures key == if |SortedKeys(store)| > 0 then Some(SortedKeys(store)[0]) else None
    {
      var list := [];
      var remaining := store.Keys;
      assert store.Keys - remaining == {};
      while remaining != {}
        invariant remaining <= store.Keys
        invariant list == SortedStrings(store.Keys - remaining)
        decreases remaining
      {
        var k :| k in remaining;
        DatumInsertSorted(store.Keys, remaining, k);
        list := Ordered.Insert(DatumLess, list, k);
        remaining := remaining - {k};
      }
      assert store.Keys - remaining == store.Keys;
      keys := Some(list);
      key := if |list| > 0 then Some(list[0]) else None;
    }

    /** man_xdbm_nextkey: search the remembered list for key and return its successor. */
    method NextKey(key: string) returns (next: Option<string>)
      requires keys.Some? ==> Ascending(Less, keys.value)
      requires NulFree(key) && (keys.Some? ==> forall k :: k in keys.value ==> NulFree(k))
      ensures keys.None? ==> next == None
      ensures keys.Some? ==> next == Successor(keys.value, key)
    {
      if keys.None? {
        return None;
      }
      var list := keys.value;
      References.CompareTotalOrder();
      var low, high := 0, |list|;
      while low < high
        invariant 0 <= low <= high <= |list|
        invariant forall i :: 0 <= i < low ==> Less(list[i], key)
        invariant forall i :: high <= i < |list| ==> Less(key, list[i])
      {
        var mid := low + (high - low) / 2;
        DatumCompareIsStrcmp(list[mid], key);
        CompareZero(list[mid], key);
        CompareAntisymmetric(list[mid], key);
        if DatumCompare(Some(list[mid]), Some(key)) < 0 {
          low := mid + 1;
        } else if DatumCompare(Some(list[mid]), Some(key)) > 0 {
          high := mid;
        } else {
          SuccessorAt(list, mid);
          return if mid + 1 < |list| then Some(list[mid + 1]) else None;
        }
      }
      SuccessorAbsent(list, key);
      return None;
    }
  }

  /** The element after key in list; None for the last one and for a key not listed. */
  function Successor(list: seq<string>, key: string): Option<string> {
    if list == [] then None
    else if list[0] == key then (if |list| > 1 then Some(list[1]) else None)
    else Successor(list[1..], key)
  }

  lemma {:induction false} SuccessorAt(list: seq<string>, i: nat)
    requires Ascending(Less, list) && i < |list|
    ensures Successor(list, list[i]) == if i + 1 < |list| then Some(list[i + 1]) else None
  {
    if i > 0 {
      assert Less(list[0], list[i]);
      CompareZero(list[0], list[i]);
      SuccessorAt(list[1..], i - 1);
    }
  }

  lemma SuccessorAbsent(list: seq<string>, key: string)
    requires key !in list
    ensures Successor(list, key) == None
  {
  }

  /** The key a cursor stands on after n nextkey calls. */
  function CursorAt(list: seq<string>, n: nat): Option<string> {
    if n == 0 then (if list == [] then None else Some(list[0]))
    else
      var k := CursorAt(list, n - 1);
      if k.None? then None else Successor(list, k.value)
  }

  /**
    * The cursor visits the i-th key of the sorted snapshot at its i-th step and stops after
    * the last, whatever happens to the store meanwhile: no step reads the store.
    */
  lemma {:induction false} CursorEnumerates(store: map<string, string>, n: nat)
    ensures var l := SortedKeys(store);
            CursorAt(l, n) == if n < |l| then Some(l[n]) else None
  {
    if n > 0 {
      CursorEnumerates(store, n - 1);
      if n - 1 < |SortedKeys(store)| {
        SuccessorAt(SortedKeys(store), n - 1);
      }
    }
  }
}
