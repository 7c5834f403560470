/**
  * The order of dbstore calls.  From the empty index the result is the same for every order
  * of the calls exactly when each page has a winner.
  */
module Order {
  import opened Wrappers
  import opened CString
  import opened Record
  import opened References
  import opened Xdbm
  import opened Index
  import opened DbStore
  import opened StoreRefinement
  import opened RecordKeys

  /** One dbstore call. */
  datatype Call = Call(info: Info, base: string)

  function PageOfCall(c: Call): Page {
    Page(c.base, c.info.ext)
  }

  function EntryOfCall(c: Call): Entry {
    EntryOf(c.info)
  }

  predicate ValidCall(c: Call) {
    ValidPage(PageOfCall(c)) && ValidEntry(EntryOfCall(c))
  }

  /** The raw store after the calls, whatever they answer. */
  function StoreAll(calls: seq<Call>): Outcome<map<string, string>> {
    if calls == [] then Ok(map[])
    else
      var before := StoreAll(calls[..|calls| - 1]);
      if before.Corrupt? then Corrupt
      else
        var last := calls[|calls| - 1];
        var r := StoreSpec(before.value, last.info, last.base);
        if r.Corrupt? then Corrupt else Ok(r.value.store)
  }

  /** No two calls for different pages under one key tie in rank and differ in compression. */
  ghost predicate NoCrossTie(calls: seq<Call>) {
    forall x, y :: x in calls && y in calls ==> !CrossTie(x, y)
  }

  predicate CrossTie(x: Call, y: Call) {
    && Key(PageOfCall(x)) == Key(PageOfCall(y)) && PageOfCall(x) != PageOfCall(y)
    && SameRank(EntryOfCall(x), EntryOfCall(y)) && EntryOfCall(x).comp != EntryOfCall(y).comp
  }

  /** The entry the calls leave for a page. */
  function Final(calls: seq<Call>, p: Page): Option<Entry> {
    if calls == [] then None
    else
      var before, last := Final(calls[..|calls| - 1], p), calls[|calls| - 1];
      if PageOfCall(last) != p then before
      else if before.None? then Some(EntryOfCall(last))
      else Some(Survivor(EntryOfCall(last), before.value))
  }

  ghost function PagesOf(calls: seq<Call>): set<Page> {
    set c | c in calls :: PageOfCall(c)
  }

  /** The keys that several pages share. */
  ghost function Crowded(pages: set<Page>): set<string> {
    set p | p in pages && (exists q :: q in pages && q != p && Key(q) == Key(p)) :: Key(p)
  }

  lemma {:induction false} FinalIsOneOf(calls: seq<Call>, p: Page)
    ensures Final(calls, p).Some? <==> p in PagesOf(calls)
    ensures Final(calls, p).Some? ==>
              exists c :: c in calls && PageOfCall(c) == p && EntryOfCall(c) == Final(calls, p).value
  {
    hide EntryOf;
    if calls != [] {
      var before, last := calls[..|calls| - 1], calls[|calls| - 1];
      assert calls == before + [last];
      FinalIsOneOf(before, p);
      assert PagesOf(calls) == PagesOf(before) + {PageOfCall(last)};
      assert last in calls;
      if Final(before, p).Some? {
        var c :| c in before && PageOfCall(c) == p && EntryOfCall(c) == Final(before, p).value;
        assert c in calls;
      }
    }
  }

  /** The view of the calls: per page the final entry, list form for shared keys. */
  ghost function ViewOfCalls(calls: seq<Call>): View {
    View(map p | p in PagesOf(calls) && Final(calls, p).Some? :: Final(calls, p).value, Crowded(PagesOf(calls)), map[])
  }

  lemma ViewStep(calls: seq<Call>, last: Call)
    ensures ViewOfCalls(calls + [last]) == Stored(ViewOfCalls(calls), PageOfCall(last), EntryOfCall(last))
  {
    hide EntryOf, Lower, Replaces, Crowded, HasCompanion, Final;
    PagesStep(calls, last);
    FinalDomain(calls);
    CrowdedStep(ViewOfCalls(calls), PagesOf(calls), PageOfCall(last));
  }

  lemma FinalDomain(calls: seq<Call>)
    ensures ViewOfCalls(calls).pages.Keys == PagesOf(calls)
  {
    forall p ensures Final(calls, p).Some? <==> p in PagesOf(calls) { FinalIsOneOf(calls, p); }
  }

  /** What one more call leaves for each page. */
  lemma FinalStep(calls: seq<Call>, last: Call, p: Page)
    ensures Final(calls + [last], p)
         == if PageOfCall(last) != p then Final(calls, p)
            else if Final(calls, p).None? then Some(EntryOfCall(last))
            else Some(Survivor(EntryOfCall(last), Final(calls, p).value))
  {
    hide EntryOf, Survivor;
    var all := calls + [last];
    assert all[..|all| - 1] == calls;
  }

  lemma PagesOfStep(calls: seq<Call>, last: Call)
    ensures PagesOf(calls + [last]) == PagesOf(calls) + {PageOfCall(last)}
  {
    hide EntryOf;
    assert forall c :: c in calls + [last] <==> c in calls || c == last;
  }

  lemma PageOfView(calls: seq<Call>, p: Page)
    ensures Get(ViewOfCalls(calls).pages, p) == Final(calls, p)
  {
    hide Final, Crowded;
    FinalIsOneOf(calls, p);
  }

  lemma PagesStep(calls: seq<Call>, last: Call)
    ensures var v, q := ViewOfCalls(calls), PageOfCall(last);
            && PagesOf(calls + [last]) == PagesOf(calls) + {q}
            && ViewOfCalls(calls + [last]).pages
               == v.pages[q := if q in v.pages then Survivor(EntryOfCall(last), v.pages[q]) else EntryOfCall(last)]
  {
    hide EntryOf, Survivor, ViewOfCalls, Final;
    var v, w, q := ViewOfCalls(calls).pages, ViewOfCalls(calls + [last]).pages, PageOfCall(last);
    PagesOfStep(calls, last);
    PageOfView(calls, q);
    forall p ensures Get(w, p) == if p == q then Get(w, q) else Get(v, p) {
      PageOfView(calls, p);
      PageOfView(calls + [last], p);
      FinalStep(calls, last, p);
    }
    PageOfView(calls + [last], q);
    FinalStep(calls, last, q);
    SameMap(v, w, q);
  }

  /** Maps that agree on every other key differ by one update. */
  lemma SameMap(v: map<Page, Entry>, w: map<Page, Entry>, q: Page)
    requires q in w && forall p :: Get(w, p) == if p == q then Get(w, q) else Get(v, p)
    ensures w == v[q := w[q]]
  {
    assert forall p :: p in w <==> Get(w, p).Some?;
    assert forall p :: p in v <==> Get(v, p).Some?;
  }

  lemma CrowdedStep(v: View, pages: set<Page>, q: Page)
    requires v.pages.Keys == pages
    ensures Crowded(pages + {q}) == if HasCompanion(v, q) then Crowded(pages) + {Key(q)} else Crowded(pages)
  {
    hide Lower;
    var more := pages + {q};
    forall k ensures k in Crowded(more) <==> k in Crowded(pages) || (HasCompanion(v, q) && k == Key(q)) {
      if k in Crowded(more) {
        var p, p' :| p in more && p' in more && p != p' && Key(p) == k && Key(p') == k;
        assert p in pages && p' in pages ==> k in Crowded(pages);
        assert p == q ==> p' in Under(v.pages, Key(q));
        assert p' == q ==> p in Under(v.pages, Key(q));
      }
      if k in Crowded(pages) {
        var p, p' :| p in pages && p' in pages && p != p' && Key(p) == k && Key(p') == k;
        assert p in more && p' in more;
      }
      if HasCompanion(v, q) {
        var p :| p in Under(v.pages, Key(q)) && p != q;
        assert p in more && q in more;
      }
    }
  }

  lemma NoClash(calls: seq<Call>, last: Call)
    requires NoCrossTie(calls + [last])
    ensures !Clash(ViewOfCalls(calls), PageOfCall(last), EntryOfCall(last))
  {
    hide EntryOf, Lower;
    var v, q := ViewOfCalls(calls), PageOfCall(last);
    forall p | p in Under(v.pages, Key(q)) && p != q ensures !Ties(EntryOfCall(last), v.pages[p]) {
      FinalIsOneOf(calls, p);
      var c :| c in calls && PageOfCall(c) == p && EntryOfCall(c) == v.pages[p];
      assert last in calls + [last] && c in calls + [last];
    }
  }

  /** Without cross ties the calls make the store the encoding of their view. */
  lemma {:induction false} StoreAllRepresents(calls: seq<Call>)
    requires NoCrossTie(calls) && forall c :: c in calls ==> ValidCall(c)
    ensures StoreAll(calls).Ok? && Represents(StoreAll(calls).value, ViewOfCalls(calls))
  {
    hide Represents, StoreSpec, Stored, Clash, ViewOfCalls, ValidPage, ValidEntry, EntryOf;
    if calls == [] {
      EmptyRepresents();
      NoCalls();
    } else {
      var before, last := calls[..|calls| - 1], calls[|calls| - 1];
      assert calls == before + [last];
      assert last in calls;
      StoreAllRepresents(before);
      NoClash(before, last);
      StoreRefines(StoreAll(before).value, ViewOfCalls(before), last.info, PageOfCall(last));
      ViewStep(before, last);
    }
  }

  lemma NoCalls()
    ensures ViewOfCalls([]) == Empty
  {
    assert PagesOf([]) == {};
  }

  /** If the calls for a page agree on the id, the newest of its mtimes is left, in whatever order they come. */
  lemma {:induction false} FinalIsNewest(calls: seq<Call>, p: Page)
    requires forall x, y :: x in calls && y in calls && PageOfCall(x) == p && PageOfCall(y) == p ==>
               EntryOfCall(x).id == EntryOfCall(y).id
    ensures forall c :: c in calls && PageOfCall(c) == p ==>
              Final(calls, p).Some? && !Newer(EntryOfCall(c).mtime, Final(calls, p).value.mtime)
  {
    hide EntryOf, Replaces, Newer;
    if calls != [] {
      var before, last := calls[..|calls| - 1], calls[|calls| - 1];
      assert calls == before + [last];
      FinalIsNewest(before, p);
      FinalIsOneOf(before, p);
      NewerOrder();
      if PageOfCall(last) == p && Final(before, p).Some? {
        var d :| d in before && PageOfCall(d) == p && EntryOfCall(d) == Final(before, p).value;
        assert d in calls && last in calls;
        SurvivorIsNewest(EntryOfCall(last), EntryOfCall(d));
      }
      assert forall c :: c in before ==> PageOfCall(c) in PagesOf(before);
    }
  }

  lemma SurvivorIsNewest(a: Entry, b: Entry)
    requires a.id == b.id
    ensures !Newer(a.mtime, Survivor(a, b).mtime) && !Newer(b.mtime, Survivor(a, b).mtime)
  {
    hide Precedes;
  }

  lemma NewerOrder()
    ensures forall a, b, c :: !Newer(a, b) && !Newer(b, c) ==> !Newer(a, c)
    ensures forall a :: !Newer(a, a)
  {
  }

  /** Does a beat b and b not a? */
  predicate Beats(a: Entry, b: Entry) {
    Replaces(a, b) && !Replaces(b, a)
  }

  /** w is the entry of some call for p and beats every different entry given for p. */
  ghost predicate Winner(calls: seq<Call>, p: Page, w: Entry) {
    && (exists c :: c in calls && PageOfCall(c) == p && EntryOfCall(c) == w)
    && forall c :: c in calls && PageOfCall(c) == p ==> EntryOfCall(c) == w || Beats(w, EntryOfCall(c))
  }

  /** The winner is what is left, whatever the order. */
  lemma {:induction false} WinnerWins(calls: seq<Call>, p: Page, w: Entry)
    requires forall c :: c in calls && PageOfCall(c) == p ==> EntryOfCall(c) == w || Beats(w, EntryOfCall(c))
    ensures (exists c :: c in calls && PageOfCall(c) == p && EntryOfCall(c) == w) ==> Final(calls, p) == Some(w)
  {
    hide EntryOf, Replaces;
    if calls != [] {
      var before, last := calls[..|calls| - 1], calls[|calls| - 1];
      assert calls == before + [last];
      WinnerWins(before, p, w);
      FinalIsOneOf(before, p);
      if Final(before, p).Some? {
        var c :| c in before && PageOfCall(c) == p && EntryOfCall(c) == Final(before, p).value;
        assert c in calls;
      }
      assert last in calls;
      forall c | c in calls && c != last ensures c in before { }
    }
  }

  ghost predicate Permutation(a: seq<Call>, b: seq<Call>) {
    multiset(a) == multiset(b)
  }

  lemma PermutationMembers(a: seq<Call>, b: seq<Call>)
    requires Permutation(a, b)
    ensures forall c :: c in a <==> c in b
    ensures PagesOf(a) == PagesOf(b)
  {
    forall c ensures c in a <==> c in b {
      assert c in a <==> c in multiset(a);
      assert c in b <==> c in multiset(b);
    }
  }

  ghost predicate EveryPageHasWinner(calls: seq<Call>) {
    forall p :: p in PagesOf(calls) ==> exists w :: Winner(calls, p, w)
  }

  /** If every page has a winner, every order of the calls gives the same raw store. */
  lemma WinnersMakeOrderIrrelevant(a: seq<Call>, b: seq<Call>)
    requires NoCrossTie(a) && forall c :: c in a ==> ValidCall(c)
    requires EveryPageHasWinner(a) && Permutation(a, b)
    ensures StoreAll(a).Ok? && StoreAll(b) == StoreAll(a)
  {
    hide Represents, ValidCall, StoreAll, Winner;
    PermutationMembers(a, b);
    StoreAllRepresents(a);
    StoreAllRepresents(b);
    forall p | p in PagesOf(a) ensures Final(a, p) == Final(b, p) {
      SameWinner(a, b, p);
    }
    assert ViewOfCalls(a) == ViewOfCalls(b);
    EncodingUnique(StoreAll(a).value, StoreAll(b).value, ViewOfCalls(a));
  }

  lemma SameWinner(a: seq<Call>, b: seq<Call>, p: Page)
    requires (exists w :: Winner(a, p, w)) && forall c :: c in a <==> c in b
    ensures Final(a, p) == Final(b, p)
  {
    hide EntryOf, Replaces, Final;
    var w :| Winner(a, p, w);
    WinnerWins(a, p, w);
    WinnerWins(b, p, w);
  }

  /** Removes the first occurrence of c. */
  function Remove(calls: seq<Call>, c: Call): (r: seq<Call>)
    requires c in calls
    ensures multiset(r) == multiset(calls) - multiset{c}
  {
    assert calls == [calls[0]] + calls[1..];
    if calls[0] == c then calls[1..]
    else
      assert c in calls[1..];
      [calls[0]] + Remove(calls[1..], c)
  }

  lemma RemoveBoth(calls: seq<Call>, x: Call, y: Call) returns (rest: seq<Call>)
    requires x in calls && y in calls && x != y
    ensures multiset(calls) == multiset{x, y} + multiset(rest)
  {
    hide Remove;
    var others := Remove(calls, x);
    assert y in multiset(others);
    rest := Remove(others, y);
    assert multiset{x} + multiset{y} == multiset{x, y};
  }

  lemma MoveToEnd(calls: seq<Call>, x: Call, y: Call) returns (other: seq<Call>)
    requires x in calls && y in calls && x != y
    ensures Permutation(calls, other + [x, y])
  {
    other := RemoveBoth(calls, x, y);
    assert multiset(other + [x, y]) == multiset(other) + multiset{x, y};
  }

  lemma MoveToFront(calls: seq<Call>, x: Call) returns (other: seq<Call>)
    requires x in calls
    ensures Permutation(calls, [x] + other)
  {
    other := Remove(calls, x);
    assert multiset([x] + other) == multiset{x} + multiset(other);
  }

  ghost predicate OrderIrrelevant(calls: seq<Call>) {
    forall other :: Permutation(calls, other) ==> StoreAll(other) == StoreAll(calls)
  }

  /** What order independence of the stores means for the entries. */
  lemma SameFinal(a: seq<Call>, b: seq<Call>, p: Page)
    requires NoCrossTie(a) && forall c :: c in a ==> ValidCall(c)
    requires Permutation(a, b) && StoreAll(a) == StoreAll(b)
    ensures Final(a, p) == Final(b, p)
  {
    hide Represents, ValidCall, StoreAll;
    PermutationMembers(a, b);
    StoreAllRepresents(a);
    StoreAllRepresents(b);
    PagesUnique(StoreAll(a).value, ViewOfCalls(a), ViewOfCalls(b));
    FinalIsOneOf(a, p);
    FinalIsOneOf(b, p);
    assert p in PagesOf(a) ==> ViewOfCalls(a).pages[p] == Final(a, p).value;
    assert p in PagesOf(b) ==> ViewOfCalls(b).pages[p] == Final(b, p).value;
  }

  /** Every other entry loses against the one that is left: put the two calls last. */
  lemma FinalUnbeaten(calls: seq<Call>, p: Page, c: Call)
    requires NoCrossTie(calls) && (forall x :: x in calls ==> ValidCall(x)) && OrderIrrelevant(calls)
    requires c in calls && PageOfCall(c) == p
    ensures Final(calls, p).Some?
    ensures EntryOfCall(c) != Final(calls, p).value ==> !Replaces(EntryOfCall(c), Final(calls, p).value)
  {
    hide EntryOf, Replaces, ValidCall, StoreAll, NoCrossTie;
    FinalIsOneOf(calls, p);
    assert p in PagesOf(calls);
    var w := Final(calls, p).value;
    if EntryOfCall(c) != w {
      var d :| d in calls && PageOfCall(d) == p && EntryOfCall(d) == w;
      var other := MoveToEnd(calls, d, c);
      var all := other + [d, c];
      SameFinal(calls, all, p);
      assert all[..|all| - 1] == other + [d];
      assert (other + [d])[..|other|] == other;
    }
  }

  /** Nor can it tie with what is left: put the call first. */
  lemma FinalUntied(calls: seq<Call>, p: Page, c: Call)
    requires NoCrossTie(calls) && (forall x :: x in calls ==> ValidCall(x)) && OrderIrrelevant(calls)
    requires c in calls && PageOfCall(c) == p && Final(calls, p).Some?
    ensures EntryOfCall(c) != Final(calls, p).value ==> !SameRank(EntryOfCall(c), Final(calls, p).value)
  {
    hide EntryOf, Replaces, ValidCall, StoreAll, NoCrossTie;
    var w := Final(calls, p).value;
    if EntryOfCall(c) != w && SameRank(EntryOfCall(c), w) {
      var other := MoveToFront(calls, c);
      var all := [c] + other;
      PermutationMembers(calls, all);
      forall x | x in other && PageOfCall(x) == p && EntryOfCall(x) != EntryOfCall(c)
        ensures !Replaces(EntryOfCall(x), EntryOfCall(c))
      {
        assert x in all;
        TieAgainstTie(EntryOfCall(x), EntryOfCall(c), w);
        if EntryOfCall(x) != w {
          FinalUnbeaten(calls, p, x);
        }
      }
      FirstStays(other, p, c);
      SameFinal(calls, all, p);
    }
  }

  lemma TieAgainstTie(x: Entry, a: Entry, b: Entry)
    requires SameRank(a, b)
    ensures Replaces(x, a) <==> Replaces(x, b)
    ensures x == b ==> !Replaces(x, a)
  {
    PrecedesOrder(x.pointer, a.pointer, x.pointer);
  }

  lemma {:induction false} FirstStays(other: seq<Call>, p: Page, c: Call)
    requires PageOfCall(c) == p
    requires forall x :: x in other && PageOfCall(x) == p && EntryOfCall(x) != EntryOfCall(c) ==>
               !Replaces(EntryOfCall(x), EntryOfCall(c))
    ensures Final([c] + other, p) == Some(EntryOfCall(c))
  {
    hide EntryOf, Replaces;
    var all := [c] + other;
    if other == [] {
      assert all == [c];
    } else {
      assert all[..|all| - 1] == [c] + other[..|other| - 1];
      FirstStays(other[..|other| - 1], p, c);
    }
  }

  lemma UnbeatenUntiedWins(e: Entry, w: Entry)
    requires !Replaces(e, w) && !SameRank(e, w)
    ensures Beats(w, e)
  {
    PrecedesOrder(e.pointer, w.pointer, e.pointer);
  }

  /** If every order gives the same raw store, every page has a winner. */
  lemma OrderIrrelevantMakesWinners(calls: seq<Call>)
    requires NoCrossTie(calls) && (forall c :: c in calls ==> ValidCall(c)) && OrderIrrelevant(calls)
    ensures EveryPageHasWinner(calls)
  {
    hide EntryOf, Replaces, ValidCall, StoreAll, NoCrossTie, OrderIrrelevant, Beats;
    forall p | p in PagesOf(calls) ensures exists w :: Winner(calls, p, w) {
      FinalIsOneOf(calls, p);
      var w := Final(calls, p).value;
      forall c | c in calls && PageOfCall(c) == p && EntryOfCall(c) != w ensures Beats(w, EntryOfCall(c)) {
        FinalUnbeaten(calls, p, c);
        FinalUntied(calls, p, c);
        UnbeatenUntiedWins(EntryOfCall(c), w);
      }
      assert Winner(calls, p, w);
    }
  }

  /**
    * Order independence: for calls without cross ties, every order of them gives the same raw
    * store if and only if each page has an entry that beats all different entries given for it.
    */
  lemma OrderIrrelevantIff(calls: seq<Call>)
    requires NoCrossTie(calls) && forall c :: c in calls ==> ValidCall(c)
    ensures OrderIrrelevant(calls) <==> EveryPageHasWinner(calls)
  {
    hide ValidCall, StoreAll, NoCrossTie, EveryPageHasWinner;
    if EveryPageHasWinner(calls) {
      forall other | Permutation(calls, other) ensures StoreAll(other) == StoreAll(calls) {
        WinnersMakeOrderIrrelevant(calls, other);
      }
    }
    if OrderIrrelevant(calls) {
      OrderIrrelevantMakesWinners(calls);
    }
  }

  /** Lexicographically better: id, then the newer mtime, then the lesser pointer. */
  predicate Before(a: Entry, b: Entry) {
    || a.id < b.id
    || (a.id == b.id && Newer(a.mtime, b.mtime))
    || (a.id == b.id && a.mtime == b.mtime && Precedes(a.pointer, b.pointer))
  }

  /** Which entries beat which, in terms of the fields. */
  lemma BeatsIff(a: Entry, b: Entry)
    ensures Beats(a, b) <==>
              Before(a, b) && !(a.id == ULT_MAN && b.id == SO_MAN && Newer(b.mtime, a.mtime))
  {
    PrecedesOrder(a.pointer, b.pointer, a.pointer);
  }

  lemma BeforeOrder(a: Entry, b: Entry, c: Entry)
    ensures SameRank(a, b) || Before(a, b) || Before(b, a)
    ensures Before(a, b) && (SameRank(b, c) || Before(b, c)) ==> Before(a, c)
    ensures SameRank(a, b) && Before(b, c) ==> Before(a, c)
  {
    PrecedesOrder(a.pointer, b.pointer, c.pointer);
  }

  /** Some call for p is not behind any other in the lexicographic order. */
  lemma {:induction false} BestExists(calls: seq<Call>, p: Page) returns (best: Call)
    requires p in PagesOf(calls)
    ensures best in calls && PageOfCall(best) == p
    ensures forall c :: c in calls && PageOfCall(c) == p ==>
              SameRank(EntryOfCall(best), EntryOfCall(c)) || Before(EntryOfCall(best), EntryOfCall(c))
  {
    hide EntryOf, Before;
    var before, last := calls[..|calls| - 1], calls[|calls| - 1];
    assert calls == before + [last];
    assert PagesOf(calls) == PagesOf(before) + {PageOfCall(last)};
    if p !in PagesOf(before) {
      best := last;
      forall c | c in before ensures PageOfCall(c) != p { assert PageOfCall(c) in PagesOf(before); }
    } else {
      best := BestExists(before, p);
      if PageOfCall(last) == p {
        BeforeOrder(EntryOfCall(best), EntryOfCall(last), EntryOfCall(last));
        if Before(EntryOfCall(last), EntryOfCall(best)) {
          forall c | c in before && PageOfCall(c) == p ensures Before(EntryOfCall(last), EntryOfCall(c)) {
            BeforeOrder(EntryOfCall(last), EntryOfCall(best), EntryOfCall(c));
          }
          best := last;
        }
      }
    }
  }

  /** No SO_MAN is newer than a competing ULT_MAN. */
  ghost predicate NoNewerLink(calls: seq<Call>) {
    forall x, y :: x in calls && y in calls && PageOfCall(x) == PageOfCall(y) ==>
      EntryOfCall(x).id == ULT_MAN && EntryOfCall(y).id == SO_MAN ==>
        !Newer(EntryOfCall(y).mtime, EntryOfCall(x).mtime)
  }

  /** Two entries for pages under one key that tie in rank agree on compression, and for one page are identical. */
  ghost predicate TiesAgree(calls: seq<Call>) {
    forall x, y :: x in calls && y in calls && Key(PageOfCall(x)) == Key(PageOfCall(y)) ==>
      SameRank(EntryOfCall(x), EntryOfCall(y)) ==>
        && EntryOfCall(x).comp == EntryOfCall(y).comp
        && (PageOfCall(x) == PageOfCall(y) ==> EntryOfCall(x) == EntryOfCall(y))
  }

  /**
    * The conditions a maintainer would check: then every order of the calls gives the same raw
    * store, the encoding of the lexicographically best entry of every page.
    */
  lemma OrderIrrelevantByFields(calls: seq<Call>)
    requires TiesAgree(calls) && NoNewerLink(calls) && forall c :: c in calls ==> ValidCall(c)
    ensures OrderIrrelevant(calls)
    ensures StoreAll(calls).Ok? && Represents(StoreAll(calls).value, ViewOfCalls(calls))
    ensures forall c :: c in calls ==>
              var w := Final(calls, PageOfCall(c));
              w.Some? && (EntryOfCall(c) == w.value || Before(w.value, EntryOfCall(c)))
  {
    hide EntryOf, Before, ValidCall, StoreAll, Represents, Replaces, Beats;
    forall p | p in PagesOf(calls) ensures BestIsFinal(calls, p) {
      BestWins(calls, p);
    }
    forall c | c in calls ensures PageOfCall(c) in PagesOf(calls) { }
    OrderIrrelevantIff(calls);
    StoreAllRepresents(calls);
  }

  ghost predicate BestIsFinal(calls: seq<Call>, p: Page) {
    && Final(calls, p).Some? && Winner(calls, p, Final(calls, p).value)
    && forall c :: c in calls && PageOfCall(c) == p ==>
         EntryOfCall(c) == Final(calls, p).value || Before(Final(calls, p).value, EntryOfCall(c))
  }

  lemma BestWins(calls: seq<Call>, p: Page)
    requires TiesAgree(calls) && NoNewerLink(calls) && p in PagesOf(calls)
    ensures BestIsFinal(calls, p)
  {
    hide EntryOf, Before, Replaces, Beats;
    var best := BestExists(calls, p);
    var w := EntryOfCall(best);
    forall c | c in calls && PageOfCall(c) == p
      ensures EntryOfCall(c) == w || (Beats(w, EntryOfCall(c)) && Before(w, EntryOfCall(c)))
    {
      BeatsIff(w, EntryOfCall(c));
    }
    assert Winner(calls, p, w);
    WinnerWins(calls, p, w);
  }

  /**
    * The order matters as soon as a link is newer than the real page: the two replace each other,
    * and the one stored last stays.
    */
  lemma NewerLinkOrderMatters(x: Call, y: Call)
    requires ValidCall(x) && ValidCall(y) && PageOfCall(x) == PageOfCall(y)
    requires EntryOfCall(x).id == ULT_MAN && EntryOfCall(y).id == SO_MAN
    requires Newer(EntryOfCall(y).mtime, EntryOfCall(x).mtime)
    ensures StoreAll([x, y]) != StoreAll([y, x])
    ensures Final([x, y], PageOfCall(x)) == Some(EntryOfCall(y))
    ensures Final([y, x], PageOfCall(x)) == Some(EntryOfCall(x))
  {
    hide EntryOf, ValidCall, StoreAll, Final;
    FinalOfTwo(x, y);
    FinalOfTwo(y, x);
    assert multiset([x, y]) == multiset([y, x]);
    if StoreAll([x, y]) == StoreAll([y, x]) {
      SameFinal([x, y], [y, x], PageOfCall(x));
    }
  }

  lemma FinalOfTwo(x: Call, y: Call)
    requires PageOfCall(x) == PageOfCall(y)
    ensures Final([x, y], PageOfCall(x)) == Some(Survivor(EntryOfCall(y), EntryOfCall(x)))
  {
    hide EntryOf, Survivor;
    FinalStep([], x, PageOfCall(x));
    FinalStep([x], y, PageOfCall(x));
    assert [] + [x] == [x] && [x] + [y] == [x, y];
  }

  /**
    * A cross tie leaves no index at all: whichever of the two is stored second is listed without a
    * record, so the two orders give different stores and neither is the encoding of anything.
    */
  lemma CrossTieBreaks(x: Call, y: Call)
    requires ValidCall(x) && ValidCall(y) && CrossTie(x, y)
    ensures StoreAll([x, y]).Ok? && StoreAll([y, x]).Ok? && StoreAll([x, y]) != StoreAll([y, x])
    ensures forall v :: !Represents(StoreAll([x, y]).value, v) && !Represents(StoreAll([y, x]).value, v)
  {
    hide EntryOf, ValidCall, Represents, StoreAll;
    SecondDangles(x, y);
    SecondDangles(y, x);
  }

  lemma SecondDangles(x: Call, y: Call)
    requires ValidCall(x) && ValidCall(y) && CrossTie(x, y)
    ensures StoreAll([x, y]).Ok?
    ensures MultiKey(PageOfCall(y)) !in StoreAll([x, y]).value && MultiKey(PageOfCall(x)) in StoreAll([x, y]).value
    ensures Get(StoreAll([x, y]).value, Key(PageOfCall(y)))
            == Some(RefText(SortedPages({PageOfCall(x), PageOfCall(y)})))
    ensures forall v :: !Represents(StoreAll([x, y]).value, v)
  {
    hide EntryOf, Represents, StoreSpec, Lower, RefText, Encode;
    var p, q := PageOfCall(x), PageOfCall(y);
    assert [x, y][..1] == [x];
    assert [x][..0] == [];
    StoreAllRepresents([x]);
    var store, v := StoreAll([x]).value, ViewOfCalls([x]);
    FinalIsOneOf([x], p);
    assert p in PagesOf([x]) by { assert x in [x]; }
    assert PagesOf([x]) == {p};
    assert v.pages[p] == EntryOfCall(x);
    assert p in Under(v.pages, Key(q));
    DecideIff(EntryOfCall(y), EntryOfCall(x));
    ClashBreaks(store, v, y.info, q);
    StoreSecondary(store, v, y.info, q, p);
    SimpleKeyFacts(q);
    MultiKeyFacts(p);
  }
}
