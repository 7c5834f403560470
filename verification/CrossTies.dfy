/**
  * Order independence without assumptions about ties.  A store that answers 1 while it splits a
  * record leaves a page listed without a record; storing that page again lists it twice.  Either
  * way the trace never goes, so calls with a cross tie are never independent of their order.
  */
module CrossTies {
  import opened Ordered
  import opened Record
  import opened References
  import opened Xdbm
  import opened Index
  import opened DbStore
  import opened StoreRefinement
  import opened Order
  import opened LooseStores

  /**
    * The trace of a cross tie: p has a record and is listed once, q has none and is listed once, or it
    * has been stored again and is listed twice.
    */
  ghost predicate Trace(store: map<string, string>, p: Page, q: Page, again: bool) {
    && Loose(store)
    && Key(p) in store && IsList(store[Key(p)])
    && MultiKey(p) in store && (MultiKey(q) in store <==> again)
    && ListedPages(store[Key(p)])[p] == 1
    && ListedPages(store[Key(p)])[q] == if again then 2 else 1
  }

  ghost predicate TwoPages(p: Page, q: Page) {
    ValidPage(p) && ValidPage(q) && Key(p) == Key(q) && p != q
  }

  lemma TraceStep(store: map<string, string>, p: Page, q: Page, again: bool, c: Call)
    requires TwoPages(p, q) && ValidCall(c)
    ensures Trace(store, p, q, again) ==>
              && StoreSpec(store, c.info, c.base).Ok?
              && Trace(StoreSpec(store, c.info, c.base).value.store, p, q, again || PageOfCall(c) == q)
  {
    hide Loose, ListedPages, IsList, StoreSpec, ValidEntry, EntryOf, Key, MultiKey, KeyPage;
    MultiKeyFacts(p);
    MultiKeyFacts(q);
    MultiKeyFacts(PageOfCall(c));
    if Trace(store, p, q, again) {
      StepLocal(store, c);
      if Key(PageOfCall(c)) == Key(p) {
        ListedStep(store, c);
      } else {
        SimpleKeyFacts(p);
        SimpleKeyFacts(PageOfCall(c));
        TraceElsewhere(store, StoreSpec(store, c.info, c.base).value.store, p, q, Key(PageOfCall(c)));
      }
    }
  }

  lemma TraceElsewhere(before: map<string, string>, after: map<string, string>, p: Page, q: Page, k: string)
    requires LocalChange(before, after, k) && ValidPage(p) && ValidPage(q) && Key(p) == Key(q) != k && '\t' !in k
    ensures Get(after, Key(p)) == Get(before, Key(p))
    ensures Get(after, MultiKey(p)) == Get(before, MultiKey(p)) && Get(after, MultiKey(q)) == Get(before, MultiKey(q))
  {
    hide LocalChange, Key, MultiKey, KeyPage;
    MultiKeyFacts(p);
    MultiKeyFacts(q);
    SimpleKeyFacts(p);
    SameElsewhere(before, after, k, Key(p));
    SameElsewhere(before, after, k, MultiKey(p));
    SameElsewhere(before, after, k, MultiKey(q));
  }

  lemma {:induction false} AllLoose(calls: seq<Call>)
    requires forall c :: c in calls ==> ValidCall(c)
    ensures StoreAll(calls).Ok? && Loose(StoreAll(calls).value)
  {
    hide Loose, ValidCall, StoreSpec;
    if calls == [] {
      NoStore();
    } else {
      var last := calls[|calls| - 1];
      assert last in calls;
      AllLoose(calls[..|calls| - 1]);
      StepLocal(StoreAll(calls[..|calls| - 1]).value, last);
    }
  }

  lemma NoStore()
    ensures Loose(map[])
  {
  }

  ghost predicate Mentions(calls: seq<Call>, q: Page) {
    exists c :: c in calls && PageOfCall(c) == q
  }

  /** Whatever is stored afterwards, the trace of the tie stays. */
  lemma {:induction false} TraceStays(x: Call, y: Call, rest: seq<Call>)
    requires ValidCall(x) && ValidCall(y) && CrossTie(x, y) && forall c :: c in rest ==> ValidCall(c)
    ensures StoreAll([x, y] + rest).Ok?
    ensures Trace(StoreAll([x, y] + rest).value, PageOfCall(x), PageOfCall(y), Mentions(rest, PageOfCall(y)))
  {
    hide Trace, ValidCall, StoreSpec, CrossTie;
    var p, q := PageOfCall(x), PageOfCall(y);
    TiedPages(x, y);
    var all := [x, y] + rest;
    if rest == [] {
      assert all == [x, y];
      TraceStarts(x, y);
    } else {
      var before, last := rest[..|rest| - 1], rest[|rest| - 1];
      assert all[..|all| - 1] == [x, y] + before && all[|all| - 1] == last && last in rest;
      assert rest == before + [last];
      TraceStays(x, y, before);
      TraceStep(StoreAll([x, y] + before).value, p, q, Mentions(before, q), last);
      assert Mentions(rest, q) <==> Mentions(before, q) || PageOfCall(last) == q;
    }
  }

  lemma TiedPages(x: Call, y: Call)
    requires ValidCall(x) && ValidCall(y) && CrossTie(x, y)
    ensures TwoPages(PageOfCall(x), PageOfCall(y))
  {
  }

  lemma TraceStarts(x: Call, y: Call)
    requires ValidCall(x) && ValidCall(y) && CrossTie(x, y)
    ensures StoreAll([x, y]).Ok? && Trace(StoreAll([x, y]).value, PageOfCall(x), PageOfCall(y), false)
  {
    hide Loose, ValidCall, StoreAll, CrossTie, IsList, ListedPages, RefText, Insert;
    var p, q := PageOfCall(x), PageOfCall(y);
    TiedPages(x, y);
    SecondDangles(x, y);
    AllLoose([x, y]);
    PairSorted(p, q);
    PairListed(p, q);
  }

  /** With a cross tie there are two orders that leave different stores. */
  lemma CrossTieMatters(calls: seq<Call>, x: Call, y: Call)
    requires (forall c :: c in calls ==> ValidCall(c)) && x in calls && y in calls && CrossTie(x, y)
    ensures !OrderIrrelevant(calls)
  {
    hide Trace, ValidCall, StoreAll, CrossTie, Permutation, Mentions, PageOfCall;
    TieSymmetric(x, y);
    var rest := MoveBothToFront(calls, x, y);
    TraceStays(x, y, rest);
    TraceStays(y, x, rest);
    TiedKeys(x, y);
    TracesDiffer(StoreAll([x, y] + rest).value, PageOfCall(x), PageOfCall(y),
                 Mentions(rest, PageOfCall(y)), Mentions(rest, PageOfCall(x)));
  }

  lemma TiedKeys(x: Call, y: Call)
    requires CrossTie(x, y)
    ensures Key(PageOfCall(x)) == Key(PageOfCall(y))
  {
  }

  lemma MoveBothToFront(calls: seq<Call>, x: Call, y: Call) returns (rest: seq<Call>)
    requires x in calls && y in calls && x != y
    ensures Permutation(calls, [x, y] + rest) && Permutation(calls, [y, x] + rest)
    ensures forall c :: c in rest ==> c in calls
  {
    rest := RemoveBoth(calls, x, y);
    FrontPair(rest, x, y);
    FrontPair(rest, y, x);
    PermutationMembers(calls, [x, y] + rest);
    assert forall c :: c in rest ==> c in [x, y] + rest;
  }

  lemma FrontPair(rest: seq<Call>, x: Call, y: Call)
    ensures multiset([x, y] + rest) == multiset{x, y} + multiset(rest)
  {
  }

  lemma TieSymmetric(x: Call, y: Call)
    requires CrossTie(x, y)
    ensures x != y && CrossTie(y, x)
  {
  }

  lemma TracesDiffer(store: map<string, string>, p: Page, q: Page, again: bool, againToo: bool)
    requires Key(p) == Key(q)
    ensures !(Trace(store, p, q, again) && Trace(store, q, p, againToo))
  {
  }

  /**
    * Order independence, for all calls: every order gives the same raw store if and only if no two
    * calls tie across pages and each page has an entry that beats all different entries given for it.
    */
  lemma OrderIrrelevantExactly(calls: seq<Call>)
    requires forall c :: c in calls ==> ValidCall(c)
    ensures OrderIrrelevant(calls) <==> NoCrossTie(calls) && EveryPageHasWinner(calls)
  {
    hide ValidCall, EveryPageHasWinner, OrderIrrelevant, CrossTie;
    if !NoCrossTie(calls) {
      var x, y :| x in calls && y in calls && CrossTie(x, y);
      CrossTieMatters(calls, x, y);
    } else {
      OrderIrrelevantIff(calls);
    }
  }
}
