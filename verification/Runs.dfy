/**
  * Whole runs of dbstore and dbdelete against a plain map.
  */
module Runs {
  import opened Wrappers
  import opened CString
  import opened Ordered
  import opened Record
  import opened References
  import opened Xdbm
  import opened Index
  import opened DbStore
  import opened StoreRefinement
  import opened DbDelete
  import opened LooseStores
  import Order

  datatype Op = StoreOp(info: Info, base: string) | DeleteOp(page: Page)

  function PageOfOp(op: Op): Page {
    match op
    case StoreOp(i, base) => Page(base, i.ext)
    case DeleteOp(q) => q
  }

  /** Only what is stored is restricted; any page may be asked to be deleted. */
  predicate ValidOp(op: Op) {
    op.StoreOp? ==> ValidPage(PageOfOp(op)) && ValidEntry(EntryOf(op.info))
  }

  /** One call on the raw store. */
  function Apply(store: map<string, string>, op: Op): Outcome<StoreResult> {
    match op
    case StoreOp(i, base) => StoreSpec(store, i, base)
    case DeleteOp(q) => DeleteSpec(store, q)
  }

  /** Runs the calls, whatever they answer, up to the corrupt-data exit. */
  function Run(store: map<string, string>, ops: seq<Op>): Outcome<map<string, string>> {
    if ops == [] then Ok(store)
    else
      var r := Run(store, ops[..|ops| - 1]);
      if r.Corrupt? then Corrupt
      else
        var s := Apply(r.value, ops[|ops| - 1]);
        if s.Corrupt? then Corrupt else Ok(s.value.store)
  }

  /** The same calls on the view. */
  ghost function ApplyView(v: View, op: Op): View {
    match op
    case StoreOp(i, base) => Stored(v, Page(base, i.ext), EntryOf(i))
    case DeleteOp(q) => Deleted(v, q)
  }

  ghost function RunView(v: View, ops: seq<Op>): View {
    if ops == [] then v else ApplyView(RunView(v, ops[..|ops| - 1]), ops[|ops| - 1])
  }

  /** Is the call a clash on this view, or a deletion that misfires? */
  ghost predicate Breaks(v: View, op: Op) {
    match op
    case StoreOp(i, base) => Clash(v, Page(base, i.ext), EntryOf(i))
    case DeleteOp(q) => IsOtherKey(Key(q)) && At(v, Key(q)).Some?
  }

  /** No call of the run breaks the view it reaches. */
  ghost predicate NoBreaks(v: View, ops: seq<Op>) {
    ops == [] || (NoBreaks(v, ops[..|ops| - 1]) && !Breaks(RunView(v, ops[..|ops| - 1]), ops[|ops| - 1]))
  }

  lemma MisfireBreaks(store: map<string, string>, v: View, q: Page)
    requires Represents(store, v)
    ensures Breaks(v, DeleteOp(q)) <==> Misfires(store, q)
  {
    hide Represents, At;
    Reads(store, v, Key(q));
  }

  /** One call that breaks nothing, whatever it answers. */
  lemma ApplyRefines(store: map<string, string>, v: View, op: Op)
    requires Represents(store, v) && ValidOp(op) && !Breaks(v, op)
    ensures Apply(store, op).Ok? && Represents(Apply(store, op).value.store, ApplyView(v, op))
    ensures ApplyView(v, op).other == v.other
  {
    hide Represents, StoreSpec, DeleteSpec, Clash, Victim, At, Misfires;
    match op {
      case StoreOp(i, base) =>
        StoreRefines(store, v, i, Page(base, i.ext));
      case DeleteOp(q) =>
        MisfireBreaks(store, v, q);
        DeleteRefines(store, v, q);
    }
  }

  /**
    * Any interleaving of dbstore and dbdelete in which no call breaks the index, whatever the calls
    * answer, keeps the raw store the encoding of what the same calls make of a plain map, and the
    * representation invariant with it; the identifiers stay, and no call ever meets corrupt data.
    */
  lemma {:induction false} RunRefines(store: map<string, string>, v: View, ops: seq<Op>)
    requires Represents(store, v) && (forall op :: op in ops ==> ValidOp(op)) && NoBreaks(v, ops)
    ensures Run(store, ops).Ok?
    ensures Represents(Run(store, ops).value, RunView(v, ops)) && WellFormed(Run(store, ops).value)
    ensures RunView(v, ops).other == v.other
  {
    hide Represents, WellFormed, Apply, ApplyView, ValidOp, Breaks;
    if ops == [] {
      RepresentsWellFormed(store, v);
    } else {
      var before, op := ops[..|ops| - 1], ops[|ops| - 1];
      assert op in ops;
      RunRefines(store, v, before);
      ApplyRefines(Run(store, before).value, RunView(v, before), op);
      RepresentsWellFormed(Run(store, ops).value, RunView(v, ops));
    }
  }

  /** Does the call leave p alone?  A deletion is of another page that is there. */
  predicate Spares(v: View, op: Op, p: Page) {
    p != PageOfOp(op) && (op.DeleteOp? ==> op.page in v.pages)
  }

  /** A call touches the entry of one page at most. */
  lemma ApplyTouchesOne(v: View, op: Op, p: Page)
    requires ValidView(v)
    requires Spares(v, op, p)
    ensures Get(ApplyView(v, op).pages, p) == Get(v.pages, p)
  {
    hide ValidPage, ValidEntry, Lower;
    if op.DeleteOp? && Key(op.page) !in v.multi {
      assert op.page in Under(v.pages, Key(op.page));
      UnderSingle(v, Key(op.page), op.page);
      assert SinglePage(v, Key(op.page)) in Under(v.pages, Key(op.page));
    }
  }

  /** Over whole runs too: a page that no call is about keeps its entry, through every change of form. */
  lemma {:induction false} RunSpares(store: map<string, string>, v: View, ops: seq<Op>, p: Page)
    requires Represents(store, v) && (forall op :: op in ops ==> ValidOp(op)) && NoBreaks(v, ops)
    requires forall i :: 0 <= i < |ops| ==> Spares(RunView(v, ops[..i]), ops[i], p)
    ensures Get(RunView(v, ops).pages, p) == Get(v.pages, p)
    decreases |ops|
  {
    hide Represents, ValidView, Apply, ApplyView, ValidOp, Spares, Breaks;
    if ops != [] {
      var n := |ops| - 1;
      var before := ops[..n];
      forall i | 0 <= i < n ensures Spares(RunView(v, before[..i]), before[i], p) {
        assert before[..i] == ops[..i];
      }
      RunSpares(store, v, before, p);
      RunRefines(store, v, before);
      ViewOf(Run(store, before).value, RunView(v, before));
      ApplyTouchesOne(RunView(v, before), ops[n], p);
    }
  }

  /** From the empty index. */
  lemma RunFromEmpty(ops: seq<Op>)
    requires (forall op :: op in ops ==> ValidOp(op)) && NoBreaks(Empty, ops)
    ensures Run(map[], ops).Ok?
    ensures Represents(Run(map[], ops).value, RunView(Empty, ops)) && WellFormed(Run(map[], ops).value)
  {
    EmptyRepresents();
    RunRefines(map[], Empty, ops);
  }

  /** What a caller can see: no dbstore answers 1, and no deletion is asked for with a special or tabbed name. */
  predicate Quiet(store: map<string, string>, ops: seq<Op>) {
    forall i :: 0 <= i < |ops| ==>
      if ops[i].StoreOp? then Answer(store, ops, i) != Some(1) else !IsOtherKey(Key(ops[i].page))
  }

  lemma {:induction false} QuietBreaksNothing(store: map<string, string>, v: View, ops: seq<Op>)
    requires Represents(store, v) && forall op :: op in ops ==> ValidOp(op)
    requires Quiet(store, ops)
    ensures NoBreaks(v, ops)
    decreases |ops|
  {
    hide Represents, ValidOp, StoreSpec, DeleteSpec, Clash, At, IsOtherKey;
    if ops != [] {
      var n := |ops| - 1;
      var before := ops[..n];
      forall i | 0 <= i < n
        ensures if before[i].StoreOp? then Answer(store, before, i) != Some(1) else !IsOtherKey(Key(before[i].page))
      {
        assert before[..i] == ops[..i];
        assert Answer(store, before, i) == Answer(store, ops, i);
      }
      QuietBreaksNothing(store, v, before);
      RunRefines(store, v, before);
      assert ops[n] in ops;
      if ops[n].StoreOp? {
        assert Answer(store, ops, n) != Some(1);
        ClashAnswers(Run(store, before).value, RunView(v, before), ops[n]);
      }
    }
  }

  /** What the i-th call of a run answers; None when it is not reached or takes the corrupt-data exit. */
  function Answer(store: map<string, string>, ops: seq<Op>, i: nat): Option<int>
    requires i < |ops|
  {
    var r := Run(store, ops[..i]);
    if r.Corrupt? then None
    else
      var s := Apply(r.value, ops[i]);
      if s.Corrupt? then None else Some(s.value.status)
  }

  lemma ClashAnswers(store: map<string, string>, v: View, op: Op)
    requires Represents(store, v) && ValidOp(op) && op.StoreOp?
    ensures Breaks(v, op) ==> Apply(store, op).Ok? && Apply(store, op).value.status == 1
  {
    hide Represents, StoreSpec, Clash;
    if Breaks(v, op) {
      ClashBreaks(store, v, op.info, PageOfOp(op));
    }
  }

  // After a break

  /** The trace of a break: q is listed more often than it has records. */
  ghost predicate Scarred(store: map<string, string>, q: Page) {
    && Loose(store)
    && Key(q) in store && IsList(store[Key(q)])
    && ListedPages(store[Key(q)])[q] > if MultiKey(q) in store then 1 else 0
  }

  /** The other trace: an identifier is gone. */
  ghost predicate Lost(store: map<string, string>, k: string) {
    Loose(store) && IsSpecial(k) && k !in store
  }

  lemma IndexIsLoose(store: map<string, string>, v: View)
    requires Represents(store, v) && Identifiers(v)
    ensures Loose(store)
  {
    hide Represents, Encode, RefText, Lower, Ascending, ListExtensionsSpec, Decode, At;
    ViewOf(store, v);
    forall k | k in store
      ensures if IsSpecial(k) then '\t' !in store[k]
              else if '\t' in k then Legible(store[k]) && !IsList(store[k])
              else IsList(store[k]) || OwnRecord(k, store[k])
    {
      Reads(store, v, k);
      if IsSpecial(k) {
        SpecialAt(v, k);
      } else if '\t' in k {
        MultiKeyWellFormed(store, v, k);
        MultiIsRecord(v, k);
      } else if k in v.multi {
        ListWellFormed(store, v, k);
      } else {
        SingleWellFormed(store, v, k);
      }
    }
  }

  lemma SpecialAt(v: View, k: string)
    requires IsSpecial(k)
    ensures At(v, k) == Get(v.other, k)
  {
  }

  lemma MultiIsRecord(v: View, k: string)
    requires !IsSpecial(k) && '\t' in k && At(v, k).Some?
    ensures !IsList(At(v, k).value)
  {
    hide Encode, Lower;
    EncodeHead(None, KeyPage(k).ext, v.pages[KeyPage(k)]);
  }

  /** In an index a page is listed at most once, and only with its record. */
  lemma ScarIsNoIndex(store: map<string, string>, q: Page)
    requires Scarred(store, q) && ValidPage(q)
    ensures forall w :: !Represents(store, w)
  {
    hide Represents, Loose, Ascending;
    forall w ensures !Represents(store, w) {
      if Represents(store, w) { ListedOnce(store, w, q); }
    }
  }

  lemma ListedOnce(store: map<string, string>, v: View, q: Page)
    requires Represents(store, v) && ValidPage(q) && Key(q) in store && IsList(store[Key(q)])
    ensures ListedPages(store[Key(q)])[q] == if MultiKey(q) in store then 1 else 0
  {
    hide Represents, Encode, RefText, Lower, ListExtensionsSpec, Decode, NameExtLess;
    var k := Key(q);
    SimpleKeyFacts(q);
    Reads(store, v, k);
    if k !in v.multi {
      SingleWellFormed(store, v, k);
    } else {
      ListWellFormed(store, v, k);
      var l := SortedPages(Under(v.pages, k));
      assert q in l <==> q in Elements(l);
      OnceInAscending(l, q);
      MultiKeyFacts(q);
      Reads(store, v, MultiKey(q));
    }
  }

  lemma {:induction false} OnceInAscending(l: seq<Page>, q: Page)
    requires Ascending(NameExtLess, l)
    ensures multiset(l)[q] == if q in l then 1 else 0
  {
    if l != [] {
      NameExtTotalOrder();
      OnceInAscending(l[1..], q);
      assert l == [l[0]] + l[1..];
    }
  }

  lemma ClashScars(store: map<string, string>, v: View, op: Op)
    requires Represents(store, v) && Identifiers(v) && ValidOp(op) && op.StoreOp? && Breaks(v, op)
    ensures Apply(store, op).Ok? && Scarred(Apply(store, op).value.store, PageOfOp(op))
  {
    hide Represents, StoreSpec, Encode, RefText, Loose, EntryOf, Decide, ListedPages, IsList, Insert, ValidEntry;
    hide Identifiers, Ties;
    var i, q := op.info, PageOfOp(op);
    var p :| p in Under(v.pages, Key(q)) && p != q && Ties(EntryOf(i), v.pages[p]);
    DecideIff(EntryOf(i), v.pages[p]);
    ViewOf(store, v);
    PageOf(v, p);
    IndexIsLoose(store, v);
    StepLocal(store, Order.Call(i, op.base));
    ClashBreaks(store, v, i, q);
    StoreSecondary(store, v, i, q, p);
    PairSorted(p, q);
    PairListed(p, q);
  }

  /** A deletion that misfires loses an identifier or scars a page. */
  lemma MisfireScars(store: map<string, string>, v: View, op: Op)
    requires Represents(store, v) && Identifiers(v) && op.DeleteOp? && Breaks(v, op)
    ensures Apply(store, op).Ok?
    ensures var after, k := Apply(store, op).value.store, Key(op.page);
            if IsSpecial(k) then k in v.other && Lost(after, k) else ValidPage(KeyPage(k)) && Scarred(after, KeyPage(k))
  {
    hide Represents, DeleteSpec, Loose, At, Identifiers, KeyPage, ValidPage, ValidView, Misfires, Lower;
    var q := op.page;
    MisfireBreaks(store, v, q);
    DeleteMisfires(store, v, q);
    IndexIsLoose(store, v);
    LooseRemoved(store, {Key(q)});
    if !IsSpecial(Key(q)) {
      ViewOf(store, v);
      PageOf(v, KeyPage(Key(q)));
    }
  }

  lemma ScarStoreStep(store: map<string, string>, q: Page, op: Op)
    requires Scarred(store, q) && ValidPage(q) && ValidOp(op) && op.StoreOp?
    ensures Apply(store, op).Ok? && Scarred(Apply(store, op).value.store, q)
  {
    hide Loose, ListedPages, IsList, StoreSpec, ValidEntry, EntryOf, Key, MultiKey, KeyPage, LocalChange;
    var c, k := Order.Call(op.info, op.base), Key(PageOfOp(op));
    StepLocal(store, c);
    MultiKeyFacts(q);
    MultiKeyFacts(PageOfOp(op));
    SimpleKeyFacts(q);
    SimpleKeyFacts(PageOfOp(op));
    StillLoose(store, Apply(store, op).value.store, k);
    if k == Key(q) {
      ListedStep(store, c);
    } else {
      NotBelow(q, k);
      SameElsewhere(store, Apply(store, op).value.store, k, Key(q));
      SameElsewhere(store, Apply(store, op).value.store, k, MultiKey(q));
    }
  }

  lemma StillLoose(before: map<string, string>, after: map<string, string>, k: string)
    requires LocalChange(before, after, k)
    ensures Loose(after)
  {
  }

  lemma NotBelow(q: Page, k: string)
    requires ValidPage(q) && Key(q) != k && '\t' !in k
    ensures !Below(Key(q), k) && !Below(MultiKey(q), k)
  {
    MultiKeyFacts(q);
    SimpleKeyFacts(q);
  }

  /** Below a key that may be a list, the multi key of any query stands for the query's page. */
  lemma PlainPage(r: Page)
    requires !IsOtherKey(Key(r))
    ensures '\t' in MultiKey(r) && KeyPage(MultiKey(r)) == r && MultiKey(r) != Key(r)
  {
    LowerKeeps(r.name, '\t');
    IndexOfFirst(r.name, '\t', r.ext);
    assert MultiKey(r)[|r.name|] == '\t';
  }

  lemma ListsArePlain(store: map<string, string>, k: string)
    requires Loose(store) && k in store && IsList(store[k])
    ensures !IsOtherKey(k) && store[k] != ""
  {
    hide Loose, Legible, OwnRecord;
    LooseAt(store, k);
    assert store[k][0] in store[k];
  }

  lemma LooseDelete(store: map<string, string>, r: Page)
    requires Loose(store)
    ensures DeleteSpec(store, r).Ok? ==> Loose(DeleteSpec(store, r).value.store)
    ensures DeleteSpec(store, r).Ok? ==> DeleteSpec(store, r).value.store.Keys <= store.Keys
  {
    hide Loose, IsList, Key, MultiKey, ListExtensionsSpec, RefText, RemoveAt, IsOtherKey;
    var k := Key(r);
    LooseRemoved(store, {k});
    if k in store && IsList(store[k]) {
      ListsArePlain(store, k);
      var refs := ListExtensionsSpec(store[k][1..]);
      var i := IndexOfPage(refs, r);
      if i < |refs| {
        var without := store - {MultiKey(r)};
        LooseRemoved(store, {MultiKey(r)});
        LooseRemoved(without, {k});
        ListShrinks(store[k], i);
        if RemoveAt(refs, i) != [] {
          LooseListed(without, k, RefText(RemoveAt(refs, i)));
        }
      }
    }
  }

  /** A deletion below another key. */
  lemma ScarDeleteElsewhere(store: map<string, string>, q: Page, r: Page)
    requires Scarred(store, q) && ValidPage(q) && Key(r) != Key(q)
    ensures DeleteSpec(store, r).Ok? ==> Scarred(DeleteSpec(store, r).value.store, q)
  {
    hide Loose, ListedPages, IsList, Key, MultiKey, KeyPage, ListExtensionsSpec, RefText, RemoveAt;
    hide ValidPage, IsOtherKey;
    MultiKeyFacts(q);
    SimpleKeyFacts(q);
    LooseDelete(store, r);
    if Key(r) in store && IsList(store[Key(r)]) {
      ListsArePlain(store, Key(r));
      PlainPage(r);
    }
  }

  /** What a deletion does to the list below its key. */
  lemma ListedDelete(store: map<string, string>, r: Page)
    requires Key(r) in store && IsList(store[Key(r)]) && !IsOtherKey(Key(r))
    ensures var k, d := Key(r), DeleteSpec(store, r);
            var left := ListedPages(store[k]) - multiset{r};
            d.Ok? && d.value.store != store ==>
              && MultiKey(r) in store && d.value.store.Keys - {k} == store.Keys - {k, MultiKey(r)}
              && (left != multiset{} ==>
                    k in d.value.store && IsList(d.value.store[k]) && ListedPages(d.value.store[k]) == left)
  {
    hide Key, MultiKey, ListExtensionsSpec, RefText, RemoveAt, IndexOfPage, ListedPages, IsList, IsOtherKey;
    var k := Key(r);
    PlainPage(r);
    ListText(store[k]);
    var refs := ListExtensionsSpec(store[k][1..]);
    var i := IndexOfPage(refs, r);
    if i < |refs| {
      ListShrinks(store[k], i);
      var rest := RemoveAt(refs, i);
      assert rest == [] ==> multiset(rest) == multiset{};
      KeysAfter(store, MultiKey(r), k, RefText(rest));
    }
  }

  lemma ListText(content: string)
    requires IsList(content)
    ensures content != ""
  {
  }

  lemma KeysAfter(store: map<string, string>, gone: string, k: string, content: string)
    requires k in store
    ensures (store - {gone} - {k}).Keys - {k} == store.Keys - {k, gone}
    ensures (store - {gone})[k := content].Keys - {k} == store.Keys - {k, gone}
  {
  }

  /** A deletion below q's own key. */
  lemma ScarDeleteHere(store: map<string, string>, q: Page, r: Page)
    requires Scarred(store, q) && ValidPage(q) && Key(r) == Key(q)
    ensures DeleteSpec(store, r).Ok? ==> Scarred(DeleteSpec(store, r).value.store, q)
  {
    hide Loose, ListedPages, IsList, Key, MultiKey, KeyPage, DeleteSpec, ValidPage, IsOtherKey;
    ListsArePlain(store, Key(r));
    MultiKeyFacts(q);
    PlainPage(r);
    PlainPage(q);
    LooseDelete(store, r);
    ListedDelete(store, r);
    var d := DeleteSpec(store, r);
    assert d.Ok? && d.value.store != store ==>
             (MultiKey(q) in d.value.store <==> MultiKey(q) in d.value.store.Keys - {Key(q)});
    var left := ListedPages(store[Key(q)]) - multiset{r};
    assert (r == q ==> MultiKey(q) in store) ==> left[q] > 0;
  }

  lemma LostStep(store: map<string, string>, k: string, op: Op)
    requires Lost(store, k) && ValidOp(op)
    ensures Apply(store, op).Ok? ==> Lost(Apply(store, op).value.store, k)
  {
    hide Loose, StoreSpec, DeleteSpec, Key, ValidPage, ValidEntry, EntryOf, LocalChange, Below;
    if op.StoreOp? {
      var c := Order.Call(op.info, op.base);
      StepLocal(store, c);
      StillLoose(store, Apply(store, op).value.store, Key(PageOfOp(op)));
      SpecialNotBelow(k, PageOfOp(op));
      SameElsewhere(store, Apply(store, op).value.store, Key(PageOfOp(op)), k);
    } else {
      LooseDelete(store, op.page);
    }
  }

  lemma SpecialNotBelow(k: string, p: Page)
    requires IsSpecial(k) && ValidPage(p)
    ensures !Below(k, Key(p))
  {
    hide Lower;
    SimpleKeyFacts(p);
    if '\t' in k {
      KeyPageInverse(k);
      LowerKeeps(KeyPage(k).name, '$');
      assert MultiKey(KeyPage(k))[0] == k[0];
      assert KeyPage(k).name != "" ==> KeyPage(k).name[0] == k[0];
    }
  }

  /** No later call makes the store an index again. */
  lemma {:induction false} ScarStays(store: map<string, string>, q: Page, ops: seq<Op>)
    requires ValidPage(q) && forall op :: op in ops ==> ValidOp(op)
    ensures Scarred(store, q) && Run(store, ops).Ok? ==> Scarred(Run(store, ops).value, q)
    decreases |ops|
  {
    hide Scarred, ValidPage, StoreSpec, DeleteSpec, EntryOf, ValidEntry;
    if ops != [] {
      var before, op := ops[..|ops| - 1], ops[|ops| - 1];
      assert op in ops;
      ScarStays(store, q, before);
      if Scarred(store, q) && Run(store, before).Ok? {
        if op.StoreOp? {
          ScarStoreStep(Run(store, before).value, q, op);
        } else if Key(op.page) == Key(q) {
          ScarDeleteHere(Run(store, before).value, q, op.page);
        } else {
          ScarDeleteElsewhere(Run(store, before).value, q, op.page);
        }
      }
    }
  }

  /** Nor does any bring an identifier back. */
  lemma {:induction false} LostStays(store: map<string, string>, k: string, ops: seq<Op>)
    requires forall op :: op in ops ==> ValidOp(op)
    ensures Lost(store, k) && Run(store, ops).Ok? ==> Lost(Run(store, ops).value, k)
    decreases |ops|
  {
    hide Lost, Apply, ValidOp;
    if ops != [] {
      var before, op := ops[..|ops| - 1], ops[|ops| - 1];
      assert op in ops;
      LostStays(store, k, before);
      if Lost(store, k) && Run(store, before).Ok? {
        LostStep(Run(store, before).value, k, op);
      }
    }
  }

  /** Where the first break of a run is. */
  lemma {:induction false} FirstBreak(v: View, ops: seq<Op>) returns (i: nat)
    requires !NoBreaks(v, ops)
    ensures i < |ops| && NoBreaks(v, ops[..i]) && Breaks(RunView(v, ops[..i]), ops[i])
    decreases |ops|
  {
    hide Breaks;
    var before := ops[..|ops| - 1];
    if NoBreaks(v, before) {
      i := |ops| - 1;
    } else {
      i := FirstBreak(v, before);
      assert before[..i] == ops[..i];
    }
  }

  lemma {:induction false} RunSplits(store: map<string, string>, ops: seq<Op>, i: nat)
    requires i <= |ops|
    ensures var r := Run(store, ops[..i]);
            Run(store, ops) == if r.Corrupt? then Corrupt else Run(r.value, ops[i..])
    decreases |ops|
  {
    hide Apply;
    if i == |ops| {
      assert ops[..i] == ops && ops[i..] == [];
    } else {
      var n := |ops| - 1;
      RunSplits(store, ops[..n], i);
      assert ops[..n][..i] == ops[..i];
      var tail := ops[i..];
      assert |tail| - 1 == n - i && tail[..n - i] == ops[..n][i..] && tail[n - i] == ops[n];
    }
  }

  lemma RunOne(store: map<string, string>, op: Op)
    ensures Run(store, [op]) == if Apply(store, op).Corrupt? then Corrupt else Ok(Apply(store, op).value.store)
  {
    hide Apply;
    assert [op][..0] == [];
  }

  /** What a break leaves, however the run goes on. */
  lemma BrokenForGood(store: map<string, string>, v: View, op: Op, rest: seq<Op>)
    requires Represents(store, v) && Identifiers(v) && ValidOp(op) && Breaks(v, op)
    requires forall o :: o in rest ==> ValidOp(o)
    ensures Apply(store, op).Ok?
    ensures var r := Run(Apply(store, op).value.store, rest); r.Ok? ==> !IsIndexWith(r.value, v.other)
  {
    hide Represents, Apply, Breaks, Run, Scarred, Lost, ValidPage, KeyPage, Identifiers, ValidEntry, EntryOf;
    if op.StoreOp? {
      ClashScars(store, v, op);
      ScarredForGood(Apply(store, op).value.store, PageOfOp(op), rest, v.other);
    } else {
      MisfireScars(store, v, op);
      if IsSpecial(Key(op.page)) {
        LostForGood(Apply(store, op).value.store, Key(op.page), rest, v.other);
      } else {
        ScarredForGood(Apply(store, op).value.store, KeyPage(Key(op.page)), rest, v.other);
      }
    }
  }

  lemma ScarredForGood(store: map<string, string>, q: Page, rest: seq<Op>, other: map<string, string>)
    requires Scarred(store, q) && ValidPage(q) && forall o :: o in rest ==> ValidOp(o)
    ensures Run(store, rest).Ok? ==> !IsIndexWith(Run(store, rest).value, other)
  {
    hide Scarred, ValidPage, Represents, Run, ValidOp;
    ScarStays(store, q, rest);
    if Run(store, rest).Ok? { ScarIsNoIndex(Run(store, rest).value, q); }
  }

  lemma LostForGood(store: map<string, string>, k: string, rest: seq<Op>, other: map<string, string>)
    requires Lost(store, k) && k in other && forall o :: o in rest ==> ValidOp(o)
    ensures Run(store, rest).Ok? ==> !IsIndexWith(Run(store, rest).value, other)
  {
    hide Run, ValidOp, IsIndexWith, Loose;
    LostStays(store, k, rest);
    if Run(store, rest).Ok? { IdentifierLost(Run(store, rest).value, other, k); }
  }

  /**
    * For all runs from an index, with deletions of any page: the run goes through and ends in an index
    * with the same identifiers if and only if no call is a clash or a deletion that misfires.  No later
    * call repairs either.
    */
  lemma RunIndexIff(store: map<string, string>, v: View, ops: seq<Op>)
    requires Represents(store, v) && Identifiers(v) && forall op :: op in ops ==> ValidOp(op)
    ensures Run(store, ops).Ok? && IsIndexWith(Run(store, ops).value, v.other) <==> NoBreaks(v, ops)
  {
    hide Represents, Run, RunView, Apply, Breaks, ValidOp, WellFormed, IsIndexWith, NoBreaks;
    if NoBreaks(v, ops) {
      RunRefines(store, v, ops);
      IndexOfView(Run(store, ops).value, RunView(v, ops), v.other);
    } else {
      var i := FirstBreak(v, ops);
      var before, op := ops[..i], ops[i];
      assert op in ops && forall o :: o in before ==> o in ops;
      RunRefines(store, v, before);
      assert forall o :: o in ops[i + 1..] ==> o in ops;
      BrokenForGood(Run(store, before).value, RunView(v, before), op, ops[i + 1..]);
      RunOne(Run(store, before).value, op);
      RunSplits(store, ops, i);
      RunSplits(Run(store, before).value, ops[i..], 1);
      assert ops[i..][..1] == [op] && ops[i..][1..] == ops[i + 1..];
    }
  }

  lemma IndexOfView(store: map<string, string>, v: View, other: map<string, string>)
    requires Represents(store, v) && v.other == other
    ensures IsIndexWith(store, other)
  {
  }

  /** Deleting the page that a clash left without a record is the corrupt-data exit. */
  lemma ClashThenDelete(store: map<string, string>, v: View, op: Op)
    requires Represents(store, v) && ValidOp(op) && op.StoreOp? && Breaks(v, op)
    ensures Run(store, [op]).Ok? && Run(store, [op, DeleteOp(PageOfOp(op))]) == Corrupt
  {
    hide Represents, StoreSpec, Clash, ListExtensionsSpec;
    var q := PageOfOp(op);
    ClashBreaks(store, v, op.info, q);
    RunOne(store, op);
    var both := [op, DeleteOp(q)];
    assert both[..1] == [op];
    var after := Apply(store, op).value.store;
    PageIndex(ListExtensionsSpec(after[Key(q)][1..]), q);
  }

  lemma PageIndex(refs: seq<Page>, q: Page)
    requires q in refs
    ensures IndexOfPage(refs, q) < |refs|
  {
    assert refs[..|refs|] == refs;
  }
}
