/**
  * Purging pages that are gone: src/check_mandirs.c count_glob_matches, purge_normal,
  * purge_whatis and purge_missing.
  */
module Purge {
  import opened Wrappers
  import opened CString
  import opened Ordered
  import opened Record
  import opened References
  import opened Xdbm
  import opened Index
  import opened DbDelete
  import opened RecordKeys
  import opened PurgeSpec
  import opened PurgeRefinement

  method CountGlobMatches(fs: Files, ext: string, source: seq<string>, since: Time) returns (count: nat)
    ensures count == CountMatches(fs, ext, source, since)
  {
    count := 0;
    for i := 0 to |source|
      invariant count == CountMatches(fs, ext, source[..i], since)
    {
      assert source[..i + 1][..i] == source[..i];
      var mtime := fs.mtime(source[i]);
      if mtime.None? {
        continue;
      }
      if since.sec != -1 && TimeCompare(mtime.value, since) <= 0 {
        continue;
      }
      var e := fs.pageExt(source[i]);
      if e.Some? && ext == e.value {
        count := count + 1;
      }
    }
    assert source[..|source|] == source;
  }

  /** The file-scope variables of check_mandirs.c that purging uses. */
  class Globals {
    var forceRescan: bool
    const optTest: bool

    constructor (optTest: bool)
      ensures !forceRescan && this.optTest == optTest
    {
      forceRescan := false;
      this.optTest := optTest;
    }

    /** purge_normal; 1 when the page is to go. */
    method PurgeNormal(dbf: Dbm, fs: Files, name: string, info: Mandata, found: seq<string>) returns (r: Outcome<nat>)
      modifies dbf`store
      ensures var keep := CountMatches(fs, info.ext, found, ANY_TIME) > 0;
              Removal(old(dbf.store), dbf.store, name, info.ext, keep, r)
    {
      var count := CountGlobMatches(fs, info.ext, found, ANY_TIME);
      if count > 0 {
        return Ok(0);
      }
      if !optTest {
        var d := DbDelete.Delete(dbf, name, info);
        if d.Corrupt? {
          return Corrupt;
        }
      }
      return Ok(1);
    }

    /** The three outcomes of a purge decision. */
    predicate Removal(before: map<string, string>, after: map<string, string>, name: string, ext: string, keep: bool,
                      r: Outcome<nat>)
    {
      var d := DeleteSpec(before, Page(name, ext));
      if keep then r == Ok(0) && after == before
      else if optTest then r == Ok(1) && after == before
      else if d.Corrupt? then r == Corrupt
      else r == Ok(1) && after == d.value.store
    }

    /** purge_whatis; 1 when the reference is to go. */
    method PurgeWhatis(dbf: Dbm, fs: Files, cat: bool, name: string, info: Mandata, found: seq<string>)
      returns (r: Outcome<nat>)
      requires info.pointer.Some?  // as split_content leaves it
      modifies dbf`store, this
      ensures var own := CountMatches(fs, info.ext, found, fs.dbMtime) > 0;
              var dash := info.pointer.value == "-";
              var target := CountMatches(fs, info.ext, fs.look(cat, info.ext, info.pointer.value), ANY_TIME) > 0;
              && Removal(old(dbf.store), dbf.store, name, info.ext, own || (!dash && target), r)
              && (r.Ok? ==> forceRescan == (old(forceRescan) || own || dash))
    {
      var count := CountGlobMatches(fs, info.ext, found, fs.dbMtime);
      if count > 0 {
        forceRescan := true;
        return Ok(0);
      } else if info.pointer.value == "-" {
        if !optTest {
          var d := DbDelete.Delete(dbf, name, info);
          if d.Corrupt? {
            return Corrupt;
          }
        }
        forceRescan := true;
        return Ok(1);
      } else {
        var realFound := fs.look(cat, info.ext, info.pointer.value);
        var realCount := CountGlobMatches(fs, info.ext, realFound, ANY_TIME);
        if realCount > 0 {
          return Ok(0);
        }
        if !optTest {
          var d := DbDelete.Delete(dbf, name, info);
          if d.Corrupt? {
            return Corrupt;
          }
        }
        return Ok(1);
      }
    }

    /** The part of the loop of purge_missing that deals with a record. */
    method PurgeEntry(dbf: Dbm, fs: Files, niceKey: string, content: string) returns (r: Outcome<nat>)
      modifies dbf`store, this
      ensures var d := Decode(content);
              if d.Corrupt? then r.Corrupt?
              else
                var p, e := Owner(niceKey, d.value), EntryOf(d.value);
                && Removal(old(dbf.store), dbf.store, niceKey, d.value.ext, Keep(fs, p, e), r)
                && (r.Ok? ==> forceRescan == (old(forceRescan) || Rescans(fs, p, e)))
    {
      hide Decode, DeleteSpec, CountMatches, Counts;
      var parsed := SplitContent(content);
      if parsed.Corrupt? {
        return Corrupt;
      }
      DecodeFills(content);
      var entry := parsed.value;
      var name := if entry.name.Some? then entry.name.value else niceKey;
      var found;
      if entry.id <= WHATIS_MAN {
        found := fs.look(false, entry.ext, name);
      } else {
        found := fs.look(true, entry.ext, name);
      }
      CountPositive(fs, entry.ext, found, ANY_TIME);
      CountPositive(fs, entry.ext, found, fs.dbMtime);
      CountPositive(fs, entry.ext, fs.look(entry.id != WHATIS_MAN, entry.ext, entry.pointer.value), ANY_TIME);
      if entry.id == ULT_MAN || entry.id == SO_MAN || entry.id == STRAY_CAT {
        r := PurgeNormal(dbf, fs, niceKey, entry, found);
      } else if entry.id == WHATIS_MAN {
        r := PurgeWhatis(dbf, fs, false, niceKey, entry, found);
      } else {
        r := PurgeWhatis(dbf, fs, true, niceKey, entry, found);
      }
    }

    /**
      * purge_missing on any store, given as an index when it is one; ready says that it exists, opens and
      * passes its version check.  On an index it is the filter by the keep-decision.
      */
    method PurgeMissing(dbf: Dbm, fs: Files, ready: bool, ghost index: Option<View>) returns (r: Outcome<nat>)
      requires Opens(dbf.store, index)
      modifies dbf, this
      ensures !ready ==> r == Ok(0) && dbf.store == old(dbf.store) && forceRescan == old(forceRescan)
      ensures ready ==>
                var start := PurgeState(old(dbf.store), 0, old(forceRescan));
                var s := PurgeRun(fs, optTest, start, SortedKeys(old(dbf.store)));
                (r.Ok? <==> s.Ok?) && (r.Ok? ==> s == Ok(PurgeState(dbf.store, r.value, forceRescan)))
      ensures ready && index.Some? ==>
                r.Ok? && Purged(fs, optTest, index.value, old(forceRescan), PurgeState(dbf.store, r.value, forceRescan))
    {
      hide PurgeStep, Ascending, SortedKeys, Successor, Decode, Opens, Represents, Purged;
      if !ready {
        return Ok(0);
      }
      OpensKeys(dbf.store, index);
      PurgeOnIndex(fs, optTest, dbf.store, index, forceRescan);
      var count := 0;
      ghost var list := SortedKeys(dbf.store);
      ghost var start := PurgeState(dbf.store, 0, forceRescan);
      forall k | k in list ensures NulFree(k) { assert k in Elements(list); }
      var key := dbf.FirstKey();
      ghost var i := 0;
      while key.Some?
        invariant dbf.keys == Some(list)
        invariant 0 <= i <= |list| && key == if i < |list| then Some(list[i]) else None
        invariant PurgeRun(fs, optTest, start, list)
               == PurgeRun(fs, optTest, PurgeState(dbf.store, count, forceRescan), list[i..])
        decreases |list| - i
      {
        assert list[i..][0] == key.value && list[i..][1..] == list[i + 1..];
        var n := PurgeKey(dbf, fs, key.value, count);
        if n.Corrupt? {
          return Corrupt;
        }
        count := count + n.value;
        SuccessorAt(list, i);
        key := dbf.NextKey(key.value);
        i := i + 1;
      }
      assert list[i..] == [];
      return Ok(count);
    }

    /** One turn of the loop: ignore special and vanished keys, check lists, decide about records. */
    method PurgeKey(dbf: Dbm, fs: Files, key: string, ghost count: nat) returns (r: Outcome<nat>)
      modifies dbf`store, this
      ensures var s := PurgeStep(fs, optTest, PurgeState(old(dbf.store), count, old(forceRescan)), key);
              (r.Ok? <==> s.Ok?) && (r.Ok? ==> s == Ok(PurgeState(dbf.store, count + r.value, forceRescan)))
    {
      hide Decode, DeleteSpec, Keep, Rescans, CheckMultiKeySpec;
      if key != "" && key[0] == '$' {
        return Ok(0);
      }
      var content := dbf.Fetch(key);
      if content.None? {
        return Ok(0);
      }
      var niceKey := key[..IndexOf(key, '\t')];
      if IsList(content.value) {
        var broken := CheckMultiKey(niceKey, content.value);
        if broken {
          forceRescan := true;
          dbf.Delete(key);
        }
        return Ok(0);
      }
      r := PurgeEntry(dbf, fs, niceKey, content.value);
    }
  }
}
