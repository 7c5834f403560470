/**
  * Raw stores that need not be an index: what every sequence of dbstore and dbdelete calls keeps, also
  * when reference lists name pages without a record or name them twice.
  */
module LooseStores {
  import opened Wrappers
  import opened CString
  import opened Ordered
  import opened Record
  import opened References
  import opened Xdbm
  import opened Index
  import opened DbStore
  import opened Order

  // Reference lists as multisets

  lemma {:induction false} ListedFrom(data: Option<string>, list: seq<Page>)
    requires TabFreePages(list)
    ensures TabFreePages(ListExtensionsFrom(data, list))
    decreases if data.Some? then |data.value| + 1 else 0
  {
    hide IndexOf, Insert;
    if data.Some? && StrsepRest(data.value).Some? {
      var rest := StrsepRest(data.value).value;
      StrsepParts(data.value);
      StrsepParts(rest);
      ListedFrom(StrsepRest(rest), Insert(NameExtLess, list, Page(StrsepToken(data.value), StrsepToken(rest))));
    }
  }

  lemma InsertCounts(list: seq<Page>, p: Page)
    ensures multiset(Insert(NameExtLess, list, p)) == multiset(list) + multiset{p}
  {
    hide NameExtLess;
    var i := Position(NameExtLess, list, p);
    assert list == list[..i] + list[i..];
  }

  /** Whatever the order and the repetitions, reading a written list gives its elements back. */
  lemma {:induction false} ListCounts(refs: seq<Page>, list: seq<Page>)
    requires refs != [] && TabFreePages(refs)
    ensures multiset(ListExtensionsFrom(Some(RefText(refs)[1..]), list)) == multiset(list) + multiset(refs)
  {
    hide Insert, PageText, ListExtensionsFrom, NameExtLess;
    var p, tail := refs[0], RefText(refs[1..]);
    assert p in refs;
    assert RefText(refs)[1..] == PageText(p, tail);
    ListStep(p, tail, list);
    InsertCounts(list, p);
    assert refs == [p] + refs[1..];
    if refs[1..] != [] {
      ListCounts(refs[1..], Insert(NameExtLess, list, p));
    } else {
      NothingLeft(Insert(NameExtLess, list, p));
    }
  }

  lemma NothingLeft(list: seq<Page>)
    ensures ListExtensionsFrom(None, list) == list
  {
  }

  /** The pages listed by a content. */
  function ListedPages(content: string): multiset<Page> {
    if content == "" then multiset{} else multiset(ListExtensionsSpec(content[1..]))
  }

  lemma ListGrows(content: string, p: Page)
    requires IsList(content) && '\t' !in p.name && '\t' !in p.ext
    ensures var text := RefText(Insert(NameExtLess, ListExtensionsSpec(content[1..]), p));
            IsList(text) && ListedPages(text) == ListedPages(content) + multiset{p}
  {
    hide NameExtLess, ListExtensionsFrom, Insert;
    var refs := ListExtensionsSpec(content[1..]);
    ListedFrom(Some(content[1..]), []);
    InsertCounts(refs, p);
    var more := Insert(NameExtLess, refs, p);
    ListCounts(more, []);
    assert RefText(more)[0] == '\t';
  }

  // What calls keep

  /** What every raw store that dbstore makes has in common, broken lists included. */
  ghost predicate Loose(store: map<string, string>) {
    forall key :: key in store ==>
      if IsSpecial(key) then '\t' !in store[key]
      else if '\t' in key then Legible(store[key]) && !IsList(store[key])
      else IsList(store[key]) || OwnRecord(key, store[key])
  }

  predicate Legible(content: string) {
    Decode(content).Ok? && ValidEntry(EntryOf(Decode(content).value))
  }

  predicate OwnRecord(key: string, content: string) {
    && Legible(content)
    && var p := Owner(key, Decode(content).value); ValidPage(p) && Key(p) == key
  }

  /** The content of a multi key. */
  lemma MultiContent(ext: string, e: Entry)
    requires '\t' !in ext && ValidEntry(e)
    ensures Legible(Encode(None, ext, e)) && !IsList(Encode(None, ext, e))
  {
    DecodeEncode(None, ext, e);
    EncodeHead(None, ext, e);
  }

  lemma SimpleContent(q: Page, e: Entry)
    requires ValidPage(q) && ValidEntry(e)
    ensures OwnRecord(Key(q), Encode(NameField(q), q.ext, e))
  {
    hide Lower;
    SimpleKeyFacts(q);
    DecodeEncode(NameField(q), q.ext, e);
  }

  /** Is after before with changes below k only, all of them in the loose form, and no key gone? */
  ghost predicate LocalChange(before: map<string, string>, after: map<string, string>, k: string) {
    && Loose(after)
    && (forall key :: key in before ==> key in after)
    && (forall key :: !Below(key, k) ==> Get(after, key) == Get(before, key))
  }

  lemma PutMultiKey(before: map<string, string>, store: map<string, string>, q: Page, e: Entry)
    requires LocalChange(before, store, Key(q)) && ValidPage(q) && ValidEntry(e)
    ensures LocalChange(before, store[MultiKey(q) := Encode(None, q.ext, e)], Key(q))
  {
    hide Decode, Encode, Lower, ValidEntry, OwnRecord, IsList;
    MultiKeyFacts(q);
    MultiContent(q.ext, e);
  }

  lemma PutSimple(before: map<string, string>, store: map<string, string>, k: string, content: string)
    requires LocalChange(before, store, k) && !IsOtherKey(k) && (IsList(content) || OwnRecord(k, content))
    ensures LocalChange(before, store[k := content], k)
  {
    hide Decode, OwnRecord, IsList, Lower;
  }

  lemma Unchanged(store: map<string, string>, k: string)
    requires Loose(store)
    ensures LocalChange(store, store, k)
  {
  }

  lemma ActionLocal(before: map<string, string>, store: map<string, string>, a: Action, q: Page, e: Entry)
    requires LocalChange(before, store, Key(q)) && ValidPage(q) && ValidEntry(e)
    ensures LocalChange(before, ApplyAction(store, a, MultiKey(q), Encode(None, q.ext, e)).store, Key(q))
  {
    hide LocalChange, Encode, ValidPage, ValidEntry;
    PutMultiKey(before, store, q, e);
  }

  /** Every call of dbstore on such a store goes through and changes it below one key only. */
  lemma StepLocal(store: map<string, string>, c: Call)
    requires Loose(store) && ValidCall(c)
    ensures StoreSpec(store, c.info, c.base).Ok?
    ensures LocalChange(store, StoreSpec(store, c.info, c.base).value.store, Key(PageOfCall(c)))
  {
    hide LocalChange, Loose, Encode, ValidEntry, OwnRecord, Decode, EntryOf, MultiSpec, SecondSpec, RefText;
    var q, e := PageOfCall(c), EntryOfCall(c);
    var k := Key(q);
    Unchanged(store, k);
    SimpleKeyFacts(q);
    SimpleContent(q, e);
    PutSimple(store, store, k, Encode(NameField(q), q.ext, e));
    if k in store {
      LooseAt(store, k);
      if IsList(store[k]) {
        MultiLocal(store, c);
      } else {
        SecondLocal(store, c);
      }
    }
  }

  lemma LooseAt(store: map<string, string>, key: string)
    requires Loose(store) && key in store
    ensures if IsSpecial(key) then '\t' !in store[key]
            else if '\t' in key then Legible(store[key]) && !IsList(store[key])
            else IsList(store[key]) || OwnRecord(key, store[key])
  {
  }

  lemma MultiLocal(store: map<string, string>, c: Call)
    requires Loose(store) && ValidCall(c) && Key(PageOfCall(c)) in store && IsList(store[Key(PageOfCall(c))])
    ensures var r := MultiSpec(store, Key(PageOfCall(c)), c.info, PageOfCall(c));
            r.Ok? && LocalChange(store, r.value.store, Key(PageOfCall(c)))
  {
    hide LocalChange, Loose, Encode, ValidEntry, OwnRecord, Decode, EntryOf, RefText, Decide;
    var q, e := PageOfCall(c), EntryOfCall(c);
    var k := Key(q);
    Unchanged(store, k);
    MultiKeyFacts(q);
    SimpleKeyFacts(q);
    if MultiKey(q) in store {
      LooseAt(store, MultiKey(q));
      ActionLocal(store, store, Decide(e, EntryOf(Decode(store[MultiKey(q)]).value)), q, e);
    } else {
      PutMultiKey(store, store, q, e);
      ListGrows(store[k], q);
      PutSimple(store, store[MultiKey(q) := Encode(None, q.ext, e)], k,
                RefText(Insert(NameExtLess, ListExtensionsSpec(store[k][1..]), q)));
    }
  }

  lemma SecondLocal(store: map<string, string>, c: Call)
    requires Loose(store) && ValidCall(c) && Key(PageOfCall(c)) in store && !IsList(store[Key(PageOfCall(c))])
    ensures var r := SecondSpec(store, Key(PageOfCall(c)), c.info, PageOfCall(c));
            r.Ok? && LocalChange(store, r.value.store, Key(PageOfCall(c)))
  {
    hide LocalChange, Loose, Encode, ValidEntry, Decode, EntryOf, RefText, Decide, ApplyAction, SplitSpec;
    var q, e := PageOfCall(c), EntryOfCall(c);
    var k := Key(q);
    SimpleKeyFacts(q);
    LooseAt(store, k);
    var d := Decode(store[k]);
    var old_ := Owner(k, d.value);
    if old_ == q {
      SimpleActionLocal(store, Decide(e, EntryOf(d.value)), q, e);
    } else {
      SplitLocal(store, k, old_, EntryOf(d.value), c);
    }
  }

  lemma SimpleActionLocal(store: map<string, string>, a: Action, q: Page, e: Entry)
    requires Loose(store) && ValidPage(q) && ValidEntry(e)
    ensures LocalChange(store, ApplyAction(store, a, Key(q), Encode(NameField(q), q.ext, e)).store, Key(q))
  {
    hide LocalChange, Loose, Encode, ValidEntry, OwnRecord;
    Unchanged(store, Key(q));
    SimpleKeyFacts(q);
    SimpleContent(q, e);
    PutSimple(store, store, Key(q), Encode(NameField(q), q.ext, e));
  }

  lemma SplitLocal(store: map<string, string>, k: string, old_: Page, oldEntry: Entry, c: Call)
    requires Loose(store) && ValidCall(c) && ValidPage(old_) && ValidEntry(oldEntry)
    requires k == Key(PageOfCall(c)) == Key(old_)
    ensures LocalChange(store, SplitSpec(store, k, old_, oldEntry, c.info, PageOfCall(c)).store, k)
    ensures var content := Get(SplitSpec(store, k, old_, oldEntry, c.info, PageOfCall(c)).store, k);
            content.Some? && IsList(content.value) && ListedPages(content.value) == multiset{old_, PageOfCall(c)}
  {
    hide LocalChange, Loose, Encode, ValidEntry, EntryOf, Decide, ApplyAction, RefText, Insert;
    hide NameExtLess, ListedPages, IsList;
    var q, e := PageOfCall(c), EntryOfCall(c);
    SimpleKeyFacts(q);
    Unchanged(store, k);
    PutMultiKey(store, store, old_, oldEntry);
    var split := store[MultiKey(old_) := Encode(None, old_.ext, oldEntry)];
    ActionLocal(store, split, Decide(e, oldEntry), q, e);
    PairListed(old_, q);
    PutSimple(store, ApplyAction(split, Decide(e, oldEntry), MultiKey(q), Encode(None, q.ext, e)).store, k,
              RefText(Insert(NameExtLess, Insert(NameExtLess, [], old_), q)));
  }

  lemma PairListed(p: Page, q: Page)
    requires ValidPage(p) && ValidPage(q)
    ensures var text := RefText(Insert(NameExtLess, Insert(NameExtLess, [], p), q));
            IsList(text) && ListedPages(text) == multiset{p, q}
  {
    hide ListExtensionsFrom, NameExtLess, Insert;
    InsertCounts([], p);
    var one := Insert(NameExtLess, [], p);
    InsertCounts(one, q);
    var two := Insert(NameExtLess, one, q);
    assert forall x :: x in two ==> x in multiset(two);
    ListCounts(two, []);
    assert RefText(two)[0] == '\t';
  }

  /** A call below a key in list form: the page is listed once more exactly when it has no record. */
  lemma ListedStep(store: map<string, string>, c: Call)
    requires Loose(store) && ValidCall(c) && Key(PageOfCall(c)) in store && IsList(store[Key(PageOfCall(c))])
    ensures StoreSpec(store, c.info, c.base).Ok?
    ensures var r := PageOfCall(c);
            var k := Key(r);
            var after := StoreSpec(store, c.info, c.base).value.store;
            k in after && if MultiKey(r) in store then after.Keys == store.Keys && after[k] == store[k]
                          else && after.Keys == store.Keys + {MultiKey(r)} && IsList(after[k])
                               && ListedPages(after[k]) == ListedPages(store[k]) + multiset{r}
  {
    hide Encode, ValidEntry, OwnRecord, Decode, EntryOf, RefText, Decide, ListedPages, Insert, ListExtensionsSpec;
    var q := PageOfCall(c);
    MultiKeyFacts(q);
    SimpleKeyFacts(q);
    if MultiKey(q) in store {
      LooseAt(store, MultiKey(q));
    } else {
      ListGrows(store[Key(q)], q);
    }
  }

  lemma SameElsewhere(before: map<string, string>, after: map<string, string>, k: string, key: string)
    requires LocalChange(before, after, k) && !Below(key, k)
    ensures Get(after, key) == Get(before, key)
  {
    hide Loose, Below;
  }

  /** Removing one page of a list. */
  lemma ListShrinks(content: string, i: nat)
    requires IsList(content) && i < |ListExtensionsSpec(content[1..])|
    ensures var refs := ListExtensionsSpec(content[1..]);
            var rest := RemoveAt(refs, i);
            && multiset(rest) == ListedPages(content) - multiset{refs[i]}
            && (rest != [] ==> IsList(RefText(rest)) && ListedPages(RefText(rest)) == multiset(rest))
  {
    hide NameExtLess, ListExtensionsFrom, Insert;
    var refs := ListExtensionsSpec(content[1..]);
    var rest := RemoveAt(refs, i);
    ListedFrom(Some(content[1..]), []);
    assert refs == refs[..i] + [refs[i]] + refs[i + 1..];
    assert forall p :: p in rest ==> p in refs;
    if rest != [] {
      ListCounts(rest, []);
      assert RefText(rest)[0] == '\t';
    }
  }

  /** Removing keys, or putting a list under a simple key, keeps the loose form. */
  lemma LooseRemoved(store: map<string, string>, keys: set<string>)
    requires Loose(store)
    ensures Loose(store - keys)
  {
    hide Legible, OwnRecord, IsList;
  }

  lemma LooseListed(store: map<string, string>, k: string, content: string)
    requires Loose(store) && !IsOtherKey(k) && IsList(content)
    ensures Loose(store[k := content])
  {
    hide Legible, OwnRecord, IsList;
  }
}
