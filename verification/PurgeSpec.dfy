/**
  * What purging does: the decisions of src/check_mandirs.c count_glob_matches, purge_normal and
  * purge_whatis, and the run of purge_missing over a list of keys, with the file system as an oracle.
  */
module PurgeSpec {
  import opened Wrappers
  import opened Record
  import opened References
  import opened Index
  import opened DbDelete
  import opened RecordKeys

  /** What purge_missing asks the file system; it does not change during a run. */
  datatype Files = Files(
    look: (bool, string, string) -> seq<string>,  // look_for_file in the man or (true) the cat hierarchy
    mtime: string -> Option<Time>,                // stat
    pageExt: string -> Option<string>,            // the ext field of filename_info
    dbMtime: Time                                 // MYDBM_GET_TIME
  )

  /** The time stamp that makes count_glob_matches ignore times. */
  const ANY_TIME := Time(-1, -1)

  /** Does count_glob_matches count this file? */
  predicate Counts(fs: Files, ext: string, since: Time, file: string) {
    && fs.mtime(file).Some?
    && !(since.sec != -1 && TimeCompare(fs.mtime(file).value, since) <= 0)
    && fs.pageExt(file) == Some(ext)
  }

  function CountMatches(fs: Files, ext: string, source: seq<string>, since: Time): nat {
    if source == [] then 0
    else
      CountMatches(fs, ext, source[..|source| - 1], since)
      + if Counts(fs, ext, since, source[|source| - 1]) then 1 else 0
  }

  /** count_glob_matches is positive exactly when some found file counts. */
  lemma {:induction false} CountPositive(fs: Files, ext: string, source: seq<string>, since: Time)
    ensures CountMatches(fs, ext, source, since) > 0 <==> exists f :: f in source && Counts(fs, ext, since, f)
  {
    if source != [] {
      CountPositive(fs, ext, source[..|source| - 1], since);
      assert source == source[..|source| - 1] + [source[|source| - 1]];
    }
  }

  /** Is there a file of the page's own extension among those found for a name? */
  ghost predicate OnDisk(fs: Files, cat: bool, ext: string, name: string, since: Time) {
    exists f :: f in fs.look(cat, ext, name) && Counts(fs, ext, since, f)
  }

  /** Is the entry a page rather than a whatis reference? */
  predicate IsReal(id: char) {
    id == ULT_MAN || id == SO_MAN || id == STRAY_CAT
  }

  /** The keep-decision of purge_normal and purge_whatis for a page. */
  ghost predicate Keep(fs: Files, p: Page, e: Entry) {
    if IsReal(e.id) then OnDisk(fs, e.id > WHATIS_MAN, p.ext, p.name, ANY_TIME)
    else
      || OnDisk(fs, e.id > WHATIS_MAN, p.ext, p.name, fs.dbMtime)
      || (e.pointer != "-" && OnDisk(fs, e.id != WHATIS_MAN, p.ext, e.pointer, ANY_TIME))
  }

  /** The cases in which purge_whatis forces a rescan. */
  ghost predicate Rescans(fs: Files, p: Page, e: Entry) {
    && !IsReal(e.id)
    && (OnDisk(fs, e.id > WHATIS_MAN, p.ext, p.name, fs.dbMtime) || e.pointer == "-")
  }

  /** Is a file of that extension found for the name, in the man or the cat hierarchy? */
  ghost predicate Found(fs: Files, cat: bool, ext: string, name: string) {
    exists f :: f in fs.look(cat, ext, name) && fs.mtime(f).Some? && fs.pageExt(f) == Some(ext)
  }

  /** One that is newer than the database; a database time of -1 seconds is older than any. */
  ghost predicate FoundNewer(fs: Files, cat: bool, ext: string, name: string) {
    exists f :: f in fs.look(cat, ext, name) && fs.mtime(f).Some? && fs.pageExt(f) == Some(ext)
                && (fs.dbMtime.sec == -1 || Newer(fs.mtime(f).value, fs.dbMtime))
  }

  /**
    * The pages that survive.  A page, a link ('A', 'B') or a stray cat ('D') has a file, of any age; a whatis
    * reference has a file of its own that is newer than the database, or points to a page that has one.
    */
  ghost predicate Stays(fs: Files, p: Page, e: Entry) {
    if e.id == 'A' || e.id == 'B' then Found(fs, false, p.ext, p.name)
    else if e.id == 'D' then Found(fs, true, p.ext, p.name)
    else
      || FoundNewer(fs, e.id > 'C', p.ext, p.name)
      || (e.pointer != "-" && Found(fs, e.id != 'C', p.ext, e.pointer))
  }

  /** The references that call for a rescan: those with a newer file of their own, and those that point nowhere. */
  ghost predicate CallsForRescan(fs: Files, p: Page, e: Entry) {
    && e.id != 'A' && e.id != 'B' && e.id != 'D'
    && (FoundNewer(fs, e.id > 'C', p.ext, p.name) || e.pointer == "-")
  }

  lemma FoundIff(fs: Files, cat: bool, ext: string, name: string)
    ensures OnDisk(fs, cat, ext, name, ANY_TIME) <==> Found(fs, cat, ext, name)
    ensures OnDisk(fs, cat, ext, name, fs.dbMtime) <==> FoundNewer(fs, cat, ext, name)
  {
    hide TimeCompare, Newer;
    forall f | f in fs.look(cat, ext, name) && fs.mtime(f).Some?
      ensures TimeCompare(fs.mtime(f).value, fs.dbMtime) > 0 <==> Newer(fs.mtime(f).value, fs.dbMtime)
    {
      TimeCompareIff(fs.mtime(f).value, fs.dbMtime);
    }
  }

  /** The keep-decision of the code, in these terms. */
  lemma KeepIff(fs: Files, p: Page, e: Entry)
    ensures Keep(fs, p, e) <==> Stays(fs, p, e)
    ensures Rescans(fs, p, e) <==> CallsForRescan(fs, p, e)
  {
    hide OnDisk, Found, FoundNewer;
    FoundIff(fs, e.id > WHATIS_MAN, p.ext, p.name);
    FoundIff(fs, e.id != WHATIS_MAN, p.ext, e.pointer);
  }

  datatype PurgeState = PurgeState(store: map<string, string>, count: nat, rescan: bool)

  /** One turn of the loop of purge_missing, for any raw store and any key. */
  ghost function PurgeStep(fs: Files, optTest: bool, s: PurgeState, key: string): Outcome<PurgeState> {
    if IsSpecial(key) || key !in s.store then Ok(s)
    else if IsList(s.store[key]) then
      if CheckMultiKeySpec(NiceKey(key), s.store[key]) then Ok(PurgeState(s.store - {key}, s.count, true)) else Ok(s)
    else
      var d := Decode(s.store[key]);
      if d.Corrupt? then Corrupt
      else
        var p, e := Owner(NiceKey(key), d.value), EntryOf(d.value);
        var rescan := s.rescan || Rescans(fs, p, e);
        if Keep(fs, p, e) then Ok(s.(rescan := rescan))
        else if optTest then Ok(PurgeState(s.store, s.count + 1, rescan))
        else
          var r := DeleteSpec(s.store, Page(NiceKey(key), d.value.ext));
          if r.Corrupt? then Corrupt else Ok(PurgeState(r.value.store, s.count + 1, rescan))
  }

  ghost function PurgeRun(fs: Files, optTest: bool, s: PurgeState, keys: seq<string>): Outcome<PurgeState>
    decreases |keys|
  {
    if keys == [] then Ok(s)
    else
      var t := PurgeStep(fs, optTest, s, keys[0]);
      if t.Corrupt? then Corrupt else PurgeRun(fs, optTest, t.value, keys[1..])
  }

  lemma DecodeFills(content: string)
    ensures Decode(content).Ok? ==> Decode(content).value.pointer.Some?
  {
  }
}
