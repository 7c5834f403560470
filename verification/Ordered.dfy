/**
  * Strictly ascending sequences over a strict total order, and the one such sequence
  * that lists a given finite set.  The index keeps its reference lists and the cursor
  * its key snapshot in this form.
  */
module Ordered {
  ghost predicate StrictTotalOrder<T(!new)>(less: (T, T) -> bool) {
    && (forall a :: !less(a, a))
    && (forall a, b, c :: less(a, b) && less(b, c) ==> less(a, c))
    && (forall a, b :: a == b || less(a, b) || less(b, a))
  }

  predicate Ascending<T>(less: (T, T) -> bool, l: seq<T>) {
    forall i, j :: 0 <= i < j < |l| ==> less(l[i], l[j])
  }

  /** No element occurs twice. */
  predicate Distinct<T(==)>(l: seq<T>) {
    forall i, j :: 0 <= i < j < |l| ==> l[i] != l[j]
  }

  ghost function Elements<T>(l: seq<T>): set<T> {
    set x | x in l
  }

  /** How many elements at the front of l come before x. */
  function Position<T>(less: (T, T) -> bool, l: seq<T>, x: T): (i: nat)
    ensures i <= |l|
    ensures forall j :: 0 <= j < i ==> less(l[j], x)
    ensures i < |l| ==> !less(l[i], x)
  {
    if l == [] || !less(l[0], x) then 0 else 1 + Position(less, l[1..], x)
  }

  /** gl_sortedlist_add: x goes in front of the first element that it does not follow. */
  function Insert<T(!new)>(less: (T, T) -> bool, l: seq<T>, x: T): (r: seq<T>)
    ensures |r| == |l| + 1
    ensures forall y :: y in r <==> y == x || y in l
  {
    var i := Position(less, l, x);
    assert forall y :: y in l <==> y in l[..i] || y in l[i..] by { assert l == l[..i] + l[i..]; }
    l[..i] + [x] + l[i..]
  }

  lemma InsertAscending<T(!new)>(less: (T, T) -> bool, l: seq<T>, x: T)
    requires StrictTotalOrder(less) && Ascending(less, l) && x !in l
    ensures Ascending(less, Insert(less, l, x))
    ensures Elements(Insert(less, l, x)) == Elements(l) + {x}
  {
    var i := Position(less, l, x);
    assert forall j :: i <= j < |l| ==> less(x, l[j]) by {
      forall j | i <= j < |l| ensures less(x, l[j]) {
        assert l[i] != x && less(x, l[i]);
        assert i == j || less(l[i], l[j]);
      }
    }
  }

  lemma {:induction false} SortedExists<T(!new)>(less: (T, T) -> bool, s: set<T>)
    requires StrictTotalOrder(less)
    ensures exists l :: Ascending(less, l) && Elements(l) == s && |l| == |s|
  {
    if s == {} {
      var none: seq<T> := [];
      assert Ascending(less, none) && Elements(none) == s && |none| == |s|;
    } else {
      var x :| x in s;
      SortedExists(less, s - {x});
      var l :| Ascending(less, l) && Elements(l) == s - {x} && |l| == |s - {x}|;
      assert x !in l by { assert x !in Elements(l); }
      InsertAscending(less, l, x);
      assert Elements(Insert(less, l, x)) == s;
    }
  }

  /** The set s in ascending order. */
  ghost function Sorted<T(!new)>(less: (T, T) -> bool, s: set<T>): (l: seq<T>)
    requires StrictTotalOrder(less)
    ensures Ascending(less, l) && Elements(l) == s && |l| == |s|
  {
    SortedExists(less, s);
    var l :| Ascending(less, l) && Elements(l) == s && |l| == |s|;
    l
  }

  /** An ascending sequence is determined by its elements. */
  lemma {:induction false} AscendingUnique<T(!new)>(less: (T, T) -> bool, l: seq<T>, r: seq<T>)
    requires StrictTotalOrder(less) && Ascending(less, l) && Ascending(less, r)
    requires forall x :: x in l <==> x in r
    ensures l == r
  {
    assert l != [] ==> l[0] in l;
    assert r != [] ==> r[0] in r;
    if l != [] {
      assert l[0] in r && r[0] in l;
      assert l[0] == r[0];
      forall x ensures x in l[1..] <==> x in r[1..] {
        assert x in l <==> x == l[0] || x in l[1..];
        assert x in r <==> x == r[0] || x in r[1..];
        assert l[0] !in l[1..] && r[0] !in r[1..];
      }
      AscendingUnique(less, l[1..], r[1..]);
    }
  }

  lemma SortedUnique<T(!new)>(less: (T, T) -> bool, l: seq<T>)
    requires StrictTotalOrder(less) && Ascending(less, l)
    ensures l == Sorted(less, Elements(l))
  {
    var r := Sorted(less, Elements(l));
    forall x ensures x in l <==> x in r {
      assert x in r <==> x in Elements(r);
    }
    AscendingUnique(less, l, r);
  }

  /** Inserting into the list of s gives the list of s + {x}. */
  lemma InsertSorted<T(!new)>(less: (T, T) -> bool, s: set<T>, x: T)
    requires StrictTotalOrder(less) && x !in s
    ensures Insert(less, Sorted(less, s), x) == Sorted(less, s + {x})
  {
    var l := Sorted(less, s);
    assert x !in l by { assert x !in Elements(l); }
    InsertAscending(less, l, x);
    SortedUnique(less, Insert(less, l, x));
  }

  function RemoveAt<T>(l: seq<T>, i: nat): seq<T>
    requires i < |l|
  {
    l[..i] + l[i + 1..]
  }

  lemma RemoveAscending<T(!new)>(less: (T, T) -> bool, l: seq<T>, i: nat)
    requires StrictTotalOrder(less) && Ascending(less, l) && i < |l|
    ensures Ascending(less, RemoveAt(l, i))
    ensures Elements(RemoveAt(l, i)) == Elements(l) - {l[i]}
  {
    var r := RemoveAt(l, i);
    assert l == l[..i] + [l[i]] + l[i + 1..];
    assert l[i] !in l[..i] && l[i] !in l[i + 1..];
    forall x ensures x in r <==> x in l && x != l[i] {
      assert x in r <==> x in l[..i] || x in l[i + 1..];
      assert x in l <==> x in l[..i] || x == l[i] || x in l[i + 1..];
    }
  }

  /** Deleting the element at one index gives the list of the set without it. */
  lemma RemoveSorted<T(!new)>(less: (T, T) -> bool, s: set<T>, i: nat)
    requires StrictTotalOrder(less) && i < |s|
    ensures RemoveAt(Sorted(less, s), i) == Sorted(less, s - {Sorted(less, s)[i]})
  {
    var l := Sorted(less, s);
    RemoveAscending(less, l, i);
    SortedUnique(less, RemoveAt(l, i));
  }
}
