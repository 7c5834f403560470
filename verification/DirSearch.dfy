/**
  * The directory cache and the search for page files: src/globbing.c update_directory_cache,
  * make_pattern, match_in_directory and the GNU part of look_for_file, without regular expressions.
  */
module DirSearch {
  import opened Wrappers
  import opened CString
  import opened Fnmatch
  import opened Globbing
  import Shell

  /** opendir and readdir; None when the directory cannot be opened. */
  datatype Directories = Directories(read: string -> Option<seq<string>>)

  function InsertName(names: seq<string>, x: string): (r: seq<string>)
    ensures multiset(r) == multiset(names) + multiset{x}
  {
    if names == [] || CaseCompare(x, names[0]) <= 0 then [x] + names
    else
      assert names == [names[0]] + names[1..];
      [names[0]] + InsertName(names[1..], x)
  }

  function SortNames(names: seq<string>): (r: seq<string>)
    ensures multiset(r) == multiset(names) && |r| == |names|
  {
    if names == [] then []
    else
      var last := names[|names| - 1];
      assert names == names[..|names| - 1] + [last];
      var r := InsertName(SortNames(names[..|names| - 1]), last);
      assert |multiset(r)| == |multiset(names)|;
      r
  }

  lemma CaseCompareOrder(a: string, b: string, c: string)
    ensures CaseCompare(a, b) <= 0 || CaseCompare(b, a) <= 0
    ensures CaseCompare(a, b) <= 0 && CaseCompare(b, c) <= 0 ==> CaseCompare(a, c) <= 0
  {
    hide Compare, Lower;
    var x, y, z := Lower(a), Lower(b), Lower(c);
    CompareAntisymmetric(x, y);
    CompareZero(x, y);
    CompareZero(y, z);
    if Less(x, y) && Less(y, z) { LessTransitive(x, y, z); }
  }

  lemma {:induction false} InsertNameSorted(names: seq<string>, x: string)
    requires SortedNames(names)
    ensures SortedNames(InsertName(names, x))
  {
    hide CaseCompare;
    if names == [] {
    } else if CaseCompare(x, names[0]) <= 0 {
      forall j | 0 <= j < |names| ensures CaseCompare(x, names[j]) <= 0 {
        if j > 0 { CaseCompareOrder(x, names[0], names[j]); }
      }
    } else {
      CaseCompareOrder(names[0], x, x);
      InsertNameSorted(names[1..], x);
      var rest := InsertName(names[1..], x);
      forall j | 0 <= j < |rest| ensures CaseCompare(names[0], rest[j]) <= 0 {
        assert rest[j] in multiset(rest);
        if rest[j] != x {
          assert rest[j] in multiset(names[1..]);
          var i :| 0 <= i < |names[1..]| && names[1..][i] == rest[j];
          assert names[i + 1] == rest[j];
        }
      }
    }
  }

  lemma {:induction false} SortNamesSorted(names: seq<string>)
    ensures SortedNames(SortNames(names))
  {
    hide CaseCompare;
    if names != [] {
      SortNamesSorted(names[..|names| - 1]);
      InsertNameSorted(SortNames(names[..|names| - 1]), names[|names| - 1]);
    }
  }

  /** qsort with cache_compare, on the first len elements. */
  method Qsort(names: array<string>, len: nat)
    requires len <= names.Length
    modifies names
    ensures SortedNames(names[..len]) && multiset(names[..len]) == multiset(old(names[..len]))
  {
    hide SortNames, SortedNames;
    SortNamesSorted(names[..len]);
    var sorted := SortNames(names[..len]);
    WriteBack(names, sorted);
  }

  method WriteBack(names: array<string>, sorted: seq<string>)
    requires |sorted| <= names.Length
    modifies names
    ensures names[..|sorted|] == sorted
  {
    for i := 0 to |sorted|
      invariant names[..i] == sorted[..i]
    {
      names[i] := sorted[i];
      assert names[..i + 1] == names[..i] + [sorted[i]];
    }
    assert sorted[..|sorted|] == sorted;
  }

  method Grow(old_: array<string>) returns (bigger: array<string>)
    requires old_.Length > 0
    ensures fresh(bigger) && bigger.Length == 2 * old_.Length && bigger[..old_.Length] == old_[..]
  {
    bigger := new string[2 * old_.Length](_ => "");
    for i := 0 to old_.Length
      invariant bigger[..i] == old_[..i]
    {
      bigger[i] := old_[i];
      assert bigger[..i + 1] == bigger[..i] + [old_[i]];
      assert old_[..i + 1] == old_[..i] + [old_[i]];
    }
    assert old_[..old_.Length] == old_[..];
  }

  /** Dump the entries into an array that is doubled when full, and sort it. */
  method ReadSorted(dir: seq<string>) returns (r: seq<string>)
    ensures SortedNames(r) && multiset(r) == multiset(dir)
  {
    hide SortedNames;
    var entries := new string[1024](_ => "");
    var len := 0;
    for i := 0 to |dir|
      invariant len == i <= entries.Length && entries.Length > 0 && fresh(entries)
      invariant entries[..len] == dir[..i]
    {
      if len >= entries.Length {
        entries := Grow(entries);
      }
      entries[len] := dir[i];
      assert entries[..len + 1] == entries[..len] + [dir[i]];
      len := len + 1;
    }
    assert dir[..len] == dir;
    Qsort(entries, len);
    r := entries[..len];
  }

  /** A wildcard search uses the name as a pattern; otherwise it is escaped first. */
  datatype Options = Options(matchCase: bool, wildcard: bool)

  /** "man1*" or the like; an empty section cuts the pattern off behind "man". */
  function DirPattern(cat: bool, sec: string): string {
    (if cat then "cat" else "man") + (if sec == "" then "" else [sec[0]] + "*")
  }

  /** make_pattern without LFF_REGEX. */
  function MakePattern(name: string, sec: string, extension: Option<string>): string {
    if extension.Some? then name + ".*" + extension.value + "*" else name + "." + sec + "*"
  }

  function NamePattern(unescName: string, sec: string, opts: Options, extension: Option<string>): string {
    MakePattern(if opts.wildcard then unescName else Shell.Escape(unescName), sec, extension)
  }

  /** "path/name" for every name. */
  function Paths(path: string, names: seq<string>): seq<string> {
    if names == [] then [] else Paths(path, names[..|names| - 1]) + [path + "/" + names[|names| - 1]]
  }

  type Cache = map<string, seq<string>>

  /** The matching entries of a cached directory; nothing for one that could not be opened. */
  function InDirectory(loc: Locale, cache: Cache, path: string, pattern: string, fold: bool): seq<string> {
    if path in cache then Paths(path, PrefixSearch(loc, cache[path], pattern, fold)) else []
  }

  function InDirectories(loc: Locale, cache: Cache, paths: seq<string>, pattern: string, fold: bool): seq<string> {
    if paths == [] then []
    else
      InDirectories(loc, cache, paths[..|paths| - 1], pattern, fold)
      + InDirectory(loc, cache, paths[|paths| - 1], pattern, fold)
  }

  /** The result of look_for_file on the cache it leaves. */
  function Look(loc: Locale, cache: Cache, hier: string, dirPattern: string, pattern: string, fold: bool): seq<string>
  {
    InDirectories(loc, cache, InDirectory(loc, cache, hier, dirPattern, false), pattern, fold)
  }

  /** Caching more directories does not change what was found in those already looked at. */
  lemma {:induction false} CacheGrows(loc: Locale, earlier: Cache, later: Cache,
                                      paths: seq<string>, pattern: string, fold: bool)
    requires forall p :: p in earlier ==> p in later && later[p] == earlier[p]
    requires forall p :: p in paths && p in later ==> p in earlier
    ensures InDirectories(loc, earlier, paths, pattern, fold) == InDirectories(loc, later, paths, pattern, fold)
  {
    hide InDirectory;
    if paths != [] {
      var last := paths[|paths| - 1];
      assert last in paths;
      CacheGrows(loc, earlier, later, paths[..|paths| - 1], pattern, fold);
      SameInDirectory(loc, earlier, later, last, pattern, fold);
    }
  }

  lemma SameInDirectory(loc: Locale, earlier: Cache, later: Cache, path: string,
                        pattern: string, fold: bool)
    requires forall p :: p in earlier ==> p in later && later[p] == earlier[p]
    requires path in later ==> path in earlier
    ensures InDirectory(loc, earlier, path, pattern, fold) == InDirectory(loc, later, path, pattern, fold)
  {
  }

  /** The names that begin with a text, up to case when fold is set, in cache order. */
  function Beginning(names: seq<string>, text: string, fold: bool): (r: seq<string>)
    ensures forall n :: n in r <==> n in names && Begins(n, text, fold)
  {
    if names == [] then []
    else
      var rest, last := Beginning(names[..|names| - 1], text, fold), names[|names| - 1];
      assert names == names[..|names| - 1] + [last];
      if Begins(last, text, fold) then rest + [last] else rest
  }

  /** An escaped text in front of a pattern matches that text, up to case when fold is set. */
  lemma {:induction false} EscapedThen(loc: Locale, t: string, pat: string, s: string, fold: bool)
    ensures Matches(loc, Shell.Escape(t) + pat, s, fold)
            <==> Begins(s, t, fold) && Matches(loc, pat, s[|t|..], fold)
  {
    hide Begins;
    var whole := Shell.Escape(t) + pat;
    if t == "" {
      assert whole == pat && s[0..] == s;
      BeginsNothing(s, fold);
    } else {
      var rest := Shell.Escape(t[1..]) + pat;
      assert t == [t[0]] + t[1..];
      BeginsCons(s, t[0], t[1..], fold);
      assert Shell.IsSafe(t[0]) ==> whole[0] == t[0] && whole[1..] == rest;
      assert !Shell.IsSafe(t[0]) ==> whole[0] == '\\' && whole[1] == t[0] && whole[2..] == rest;
      if s != "" {
        EscapedThen(loc, t[1..], pat, s[1..], fold);
        StepThen(loc, whole, rest, t[0], s, fold);
        if Begins(s[1..], t[1..], fold) {
          BeginsLength(s[1..], t[1..], fold);
          assert s[1..][|t[1..]|..] == s[|t|..];
        }
      }
    }
  }

  /** One escaped character. */
  lemma StepThen(loc: Locale, whole: string, rest: string, c: char, s: string, fold: bool)
    requires s != ""
    requires if Shell.IsSafe(c) then whole != "" && whole[0] == c && whole[1..] == rest
             else |whole| > 1 && whole[0] == '\\' && whole[1] == c && whole[2..] == rest
    ensures Matches(loc, whole, s, fold) <==> Fold(c, fold) == Fold(s[0], fold) && Matches(loc, rest, s[1..], fold)
  {
  }

  lemma BeginsNothing(s: string, fold: bool)
    ensures Begins(s, "", fold)
  {
  }

  lemma BeginsLength(s: string, t: string, fold: bool)
    requires Begins(s, t, fold)
    ensures |t| <= |s|
  {
  }

  /** An escaped text followed by '*' matches exactly the strings that begin with the text. */
  lemma EscapedMatches(loc: Locale, t: string, s: string, fold: bool)
    ensures Matches(loc, Shell.Escape(t) + "*", s, fold) <==> Begins(s, t, fold)
  {
    hide Matches, Begins;
    EscapedThen(loc, t, "*", s, fold);
    if Begins(s, t, fold) {
      BeginsLength(s, t, fold);
      StarMatches(loc, s[|t|..], fold);
    }
  }

  lemma {:induction false} EscapedPrefixThen(t: string, rest: string)
    requires rest == "" || rest[0] == '*'
    ensures '[' !in LiteralPrefix(Shell.Escape(t) + rest)
  {
    hide LiteralPrefix;
    var pat := Shell.Escape(t) + rest;
    PrefixHead(pat);
    if t == "" {
      assert pat == rest;
    } else {
      EscapedPrefixThen(t[1..], rest);
      assert Shell.IsSafe(t[0]) ==> pat[0] == t[0] && pat[1..] == Shell.Escape(t[1..]) + rest;
      assert !Shell.IsSafe(t[0]) ==> pat[0] == '\\';
    }
  }

  lemma PrefixHead(pat: string)
    ensures pat == "" || Stops(pat[0]) || (pat[0] != '[' && '[' !in LiteralPrefix(pat[1..])) ==>
              '[' !in LiteralPrefix(pat)
  {
  }

  lemma {:induction false} LiteralSearchFrom(loc: Locale, names: seq<string>, t: string, fold: bool)
    ensures LinearSearch(loc, names, Shell.Escape(t) + "*", fold) == Beginning(names, t, fold)
  {
    hide Matches, Begins;
    if names != [] {
      LiteralSearchFrom(loc, names[..|names| - 1], t, fold);
      EscapedMatches(loc, t, names[|names| - 1], fold);
    }
  }

  /** The search for an escaped text is exact on every sorted cache, whatever bytes the text has. */
  lemma LiteralSearch(loc: Locale, names: seq<string>, t: string, fold: bool)
    requires SortedNames(names)
    ensures PrefixSearch(loc, names, Shell.Escape(t) + "*", fold) == Beginning(names, t, fold)
  {
    hide LiteralPrefix, PrefixSearch, LinearSearch;
    EscapedPrefixThen(t, "*");
    NoBracketNoneClosed(loc, Shell.Escape(t) + "*", fold);
    SearchIsFilter(loc, Shell.Escape(t) + "*", fold);
    LiteralSearchFrom(loc, names, t, fold);
  }

  lemma {:induction false} EscapeConcat(a: string, b: string)
    ensures Shell.Escape(a + b) == Shell.Escape(a) + Shell.Escape(b)
  {
    if a == "" {
      assert a + b == b;
    } else {
      assert (a + b)[1..] == a[1..] + b;
      EscapeConcat(a[1..], b);
      AppendAssociative(Shell.EscapeChar(a[0]), Shell.Escape(a[1..]), Shell.Escape(b));
    }
  }

  lemma {:induction false} EscapeSafe(s: string)
    requires forall i :: 0 <= i < |s| ==> Shell.IsSafe(s[i])
    ensures Shell.Escape(s) == s
  {
    if s != "" {
      EscapeSafe(s[1..]);
      assert s == [s[0]] + s[1..];
    }
  }

  /** The bytes that escape_shell copies. */
  predicate PlainText(s: string) {
    forall i :: 0 <= i < |s| ==> Shell.IsSafe(s[i])
  }

  /** The pattern of a literal lookup is the escaped text "name.section" and a star. */
  lemma LiteralPattern(name: string, sec: string, matchCase: bool)
    requires PlainText(sec)
    ensures NamePattern(name, sec, Options(matchCase, false), None) == Shell.Escape(name + ("." + sec)) + "*"
  {
    EscapeSafe("." + sec);
    EscapeConcat(name, "." + sec);
    AppendAssociative(Shell.Escape(name), ".", sec);
  }

  /** The entries of one cached directory that begin with a text. */
  function BeginningIn(cache: Cache, path: string, text: string, fold: bool): seq<string> {
    if path in cache then Paths(path, Beginning(cache[path], text, fold)) else []
  }

  function BeginningInAll(cache: Cache, paths: seq<string>, text: string, fold: bool): seq<string> {
    if paths == [] then []
    else
      BeginningInAll(cache, paths[..|paths| - 1], text, fold) + BeginningIn(cache, paths[|paths| - 1], text, fold)
  }

  ghost predicate SortedCache(cache: Cache) {
    forall p :: p in cache ==> SortedNames(cache[p])
  }

  lemma {:induction false} LiteralInDirectories(loc: Locale, cache: Cache, paths: seq<string>, t: string, fold: bool)
    requires SortedCache(cache)
    ensures InDirectories(loc, cache, paths, Shell.Escape(t) + "*", fold) == BeginningInAll(cache, paths, t, fold)
  {
    hide SortedNames, PrefixSearch, Beginning, Paths;
    if paths != [] {
      var last := paths[|paths| - 1];
      LiteralInDirectories(loc, cache, paths[..|paths| - 1], t, fold);
      if last in cache {
        LiteralSearch(loc, cache[last], t, fold);
      }
    }
  }

  function DirText(cat: bool, sec: string): string
    requires sec != ""
  {
    (if cat then "cat" else "man") + [sec[0]]
  }

  /** The section directories that are looked at. */
  lemma LiteralDirectories(loc: Locale, cache: Cache, hier: string, sec: string, cat: bool)
    requires SortedCache(cache) && PlainText(sec) && sec != ""
    ensures InDirectory(loc, cache, hier, DirPattern(cat, sec), false)
         == BeginningIn(cache, hier, DirText(cat, sec), false)
  {
    hide SortedNames, PrefixSearch, Beginning;
    EscapeSafe(DirText(cat, sec));
    assert DirPattern(cat, sec) == Shell.Escape(DirText(cat, sec)) + "*";
    if hier in cache {
      LiteralSearch(loc, cache[hier], DirText(cat, sec), false);
    }
  }

  /**
    * Literal lookup: for every page name, metacharacters included, and a section that needs no escapes, the
    * whole search returns exactly the entries that begin with name.section (up to case unless
    * matchCase) of the directories that begin with man and the section's first character.
    */
  lemma LiteralLookup(loc: Locale, cache: Cache, hier: string, sec: string, name: string, cat: bool,
                      matchCase: bool)
    requires SortedCache(cache) && PlainText(sec) && sec != ""
    ensures Look(loc, cache, hier, DirPattern(cat, sec), NamePattern(name, sec, Options(matchCase, false), None),
                 !matchCase)
         == BeginningInAll(cache, BeginningIn(cache, hier, DirText(cat, sec), false), name + ("." + sec), !matchCase)
  {
    hide SortedNames, InDirectory, InDirectories, BeginningIn, BeginningInAll;
    LiteralPattern(name, sec, matchCase);
    LiteralDirectories(loc, cache, hier, sec, cat);
    var paths := BeginningIn(cache, hier, DirText(cat, sec), false);
    LiteralInDirectories(loc, cache, paths, name + ("." + sec), !matchCase);
  }

  // What is on disk

  /** The entries of a directory; none when it cannot be opened. */
  function Entries(dirs: Directories, path: string): seq<string> {
    if dirs.read(path).Some? then dirs.read(path).value else []
  }

  /** Every cached directory is readable, and its entries are all there, in strcasecmp order. */
  ghost predicate Faithful(dirs: Directories, cache: Cache) {
    forall p :: p in cache ==>
      dirs.read(p).Some? && SortedNames(cache[p]) && multiset(cache[p]) == multiset(dirs.read(p).value)
  }

  /** Is the directory cached if it can be read? */
  predicate Cached(dirs: Directories, cache: Cache, path: string) {
    path in cache <==> dirs.read(path).Some?
  }

  lemma {:induction false} PathsMembers(path: string, names: seq<string>, f: string)
    ensures f in Paths(path, names) <==> exists n :: n in names && f == path + "/" + n
  {
    if names != [] {
      var rest, last := names[..|names| - 1], names[|names| - 1];
      assert names == rest + [last];
      PathsMembers(path, rest, f);
      assert last in names;
    }
  }

  lemma {:induction false} LinearMembers(loc: Locale, names: seq<string>, pattern: string, fold: bool, n: string)
    ensures n in LinearSearch(loc, names, pattern, fold) <==> n in names && Matches(loc, pattern, n, fold)
  {
    hide Matches;
    if names != [] {
      LinearMembers(loc, names[..|names| - 1], pattern, fold, n);
      assert names == names[..|names| - 1] + [names[|names| - 1]];
    }
  }

  /** A file of a directory on disk whose name matches. */
  ghost predicate Hit(loc: Locale, dirs: Directories, path: string, pattern: string, fold: bool, f: string) {
    exists n :: n in Entries(dirs, path) && Matches(loc, pattern, n, fold) && f == path + "/" + n
  }

  lemma InDirectoryMembers(loc: Locale, dirs: Directories, cache: Cache, path: string, pattern: string, fold: bool,
                           f: string)
    requires Faithful(dirs, cache) && Cached(dirs, cache, path) && FirstClosed(loc, pattern, fold).None?
    ensures f in InDirectory(loc, cache, path, pattern, fold) <==> Hit(loc, dirs, path, pattern, fold, f)
  {
    hide SortedNames, Matches, FirstClosed, PrefixSearch, LinearSearch;
    if path in cache {
      SearchIsFilter(loc, pattern, fold);
      PathsMembers(path, PrefixSearch(loc, cache[path], pattern, fold), f);
      forall n ensures n in PrefixSearch(loc, cache[path], pattern, fold)
                       <==> n in Entries(dirs, path) && Matches(loc, pattern, n, fold)
      {
        LinearMembers(loc, cache[path], pattern, fold, n);
        assert n in multiset(cache[path]) <==> n in multiset(dirs.read(path).value);
      }
    }
  }

  lemma {:induction false} InDirectoriesMembers(loc: Locale, dirs: Directories, cache: Cache, paths: seq<string>,
                                                pattern: string, fold: bool, f: string)
    requires Faithful(dirs, cache) && FirstClosed(loc, pattern, fold).None?
    requires forall p :: p in paths ==> Cached(dirs, cache, p)
    ensures f in InDirectories(loc, cache, paths, pattern, fold)
            <==> exists p :: p in paths && Hit(loc, dirs, p, pattern, fold, f)
  {
    hide Faithful, Cached, Hit, InDirectory, FirstClosed;
    if paths != [] {
      var rest, last := paths[..|paths| - 1], paths[|paths| - 1];
      assert paths == rest + [last];
      assert last in paths;
      InDirectoriesMembers(loc, dirs, cache, rest, pattern, fold, f);
      InDirectoryMembers(loc, dirs, cache, last, pattern, fold, f);
    }
  }

  /** Does the name of a directory select it?  It is man (or cat) and what begins with the section's first character. */
  predicate SectionDir(cat: bool, sec: string, d: string) {
    var kind := if cat then "cat" else "man";
    if sec == "" then d == kind else kind + [sec[0]] <= d
  }

  /** A file on disk below a section directory of hier. */
  predicate Below(dirs: Directories, hier: string, cat: bool, sec: string, d: string, n: string, f: string) {
    && d in Entries(dirs, hier) && SectionDir(cat, sec, d)
    && n in Entries(dirs, hier + "/" + d) && f == hier + "/" + d + "/" + n
  }

  /** Which directories look_for_file looks at. */
  lemma DirPatternIff(loc: Locale, cat: bool, sec: string, d: string)
    requires PlainText(sec)
    ensures Matches(loc, DirPattern(cat, sec), d, false) <==> SectionDir(cat, sec, d)
    ensures FirstClosed(loc, DirPattern(cat, sec), false).None?
  {
    hide Matches, FirstClosed;
    var kind := if cat then "cat" else "man";
    var text := if sec == "" then kind else kind + [sec[0]];
    var rest := if sec == "" then "" else "*";
    EscapeSafe(text);
    assert DirPattern(cat, sec) == Shell.Escape(text) + rest;
    EscapedThen(loc, text, rest, d, false);
    EscapedPrefixThen(text, rest);
    NoBracketNoneClosed(loc, DirPattern(cat, sec), false);
    if |text| <= |d| {
      if rest == "*" { StarMatches(loc, d[|text|..], false); } else { NothingMatches(loc, d[|text|..]); }
      assert d[..|text|] == text && d[|text|..] == "" ==> d == text;
    }
    assert d == text ==> d[..|text|] == text && d[|text|..] == "";
  }

  lemma NothingMatches(loc: Locale, s: string)
    ensures Matches(loc, "", s, false) <==> s == ""
  {
  }

  /**
    * Once the directories looked at are cached, look_for_file finds exactly the files on disk, below the
    * section directories, that match; for every pattern without a closed bracket expression in its prefix.
    */
  lemma LookOnDisk(loc: Locale, dirs: Directories, cache: Cache, hier: string, cat: bool, sec: string, pattern: string,
                   fold: bool, f: string)
    requires Faithful(dirs, cache) && Cached(dirs, cache, hier) && PlainText(sec)
    requires forall p :: p in InDirectory(loc, cache, hier, DirPattern(cat, sec), false) ==> Cached(dirs, cache, p)
    requires FirstClosed(loc, pattern, fold).None?
    ensures f in Look(loc, cache, hier, DirPattern(cat, sec), pattern, fold)
            <==> exists d, n :: Below(dirs, hier, cat, sec, d, n, f) && Matches(loc, pattern, n, fold)
  {
    hide InDirectory, InDirectories, Matches, FirstClosed, Faithful, Cached, SectionDir, DirPattern, Entries;
    var paths := InDirectory(loc, cache, hier, DirPattern(cat, sec), false);
    DirPatternIff(loc, cat, sec, "");
    forall d ensures Matches(loc, DirPattern(cat, sec), d, false) <==> SectionDir(cat, sec, d) {
      DirPatternIff(loc, cat, sec, d);
    }
    forall p ensures p in paths <==> Hit(loc, dirs, hier, DirPattern(cat, sec), false, p) {
      InDirectoryMembers(loc, dirs, cache, hier, DirPattern(cat, sec), false, p);
    }
    InDirectoriesMembers(loc, dirs, cache, paths, pattern, fold, f);
    HitBelow(loc, dirs, hier, cat, sec, pattern, fold, f);
  }

  lemma HitBelow(loc: Locale, dirs: Directories, hier: string, cat: bool, sec: string, pattern: string, fold: bool,
                 f: string)
    requires forall d :: Matches(loc, DirPattern(cat, sec), d, false) <==> SectionDir(cat, sec, d)
    ensures (exists p :: Hit(loc, dirs, hier, DirPattern(cat, sec), false, p) && Hit(loc, dirs, p, pattern, fold, f))
            <==> exists d, n :: Below(dirs, hier, cat, sec, d, n, f) && Matches(loc, pattern, n, fold)
  {
    hide Matches, SectionDir, DirPattern, Entries;
    if p :| Hit(loc, dirs, hier, DirPattern(cat, sec), false, p) && Hit(loc, dirs, p, pattern, fold, f) {
      var d :| d in Entries(dirs, hier) && Matches(loc, DirPattern(cat, sec), d, false) && p == hier + "/" + d;
      var n :| n in Entries(dirs, p) && Matches(loc, pattern, n, fold) && f == p + "/" + n;
      assert Below(dirs, hier, cat, sec, d, n, f);
    }
    if d, n :| Below(dirs, hier, cat, sec, d, n, f) && Matches(loc, pattern, n, fold) {
      assert Hit(loc, dirs, hier, DirPattern(cat, sec), false, hier + "/" + d);
      assert Hit(loc, dirs, hier + "/" + d, pattern, fold, f);
    }
  }

  /** name, a dot, anything, the extension, anything. */
  ghost predicate HasExtension(n: string, name: string, extension: string, fold: bool) {
    exists u: string, w: string :: Same(n, name + "." + u + extension + w, fold)
  }

  /** The names a lookup without wildcards is for. */
  ghost predicate Wanted(n: string, name: string, sec: string, extension: Option<string>, fold: bool) {
    if extension.None? then Begins(n, name + "." + sec, fold) else HasExtension(n, name, extension.value, fold)
  }

  lemma SameParts(s: string, a: string, b: string, fold: bool)
    ensures Same(s, a + b, fold) <==> |s| == |a| + |b| && Same(s[..|a|], a, fold) && Same(s[|a|..], b, fold)
  {
    if |s| == |a| + |b| {
      assert s == s[..|a|] + s[|a|..];
      assert (a + b)[..|a|] == a && (a + b)[|a|..] == b;
      if fold && SameLetters(s, a + b) {
        assert forall i :: 0 <= i < |a| ==> SameLetter(s[i], (a + b)[i]);
        forall i | 0 <= i < |b| ensures SameLetter(s[|a|..][i], b[i]) {
          assert SameLetter(s[|a| + i], (a + b)[|a| + i]);
        }
      }
      if fold && SameLetters(s[..|a|], a) && SameLetters(s[|a|..], b) {
        forall i | 0 <= i < |s| ensures SameLetter(s[i], (a + b)[i]) {
          assert i < |a| ==> s[i] == s[..|a|][i];
          assert i >= |a| ==> s[i] == s[|a|..][i - |a|];
        }
      }
    }
  }

  lemma SameItself(s: string, fold: bool)
    ensures Same(s, s, fold)
  {
  }

  /** The text behind name and dot: up to position i anything, then the extension, then anything. */
  lemma ExtensionParts(n: string, head: string, extension: string, fold: bool)
    ensures (exists u: string, w: string :: Same(n, head + u + extension + w, fold))
            <==> Begins(n, head, fold)
                 && exists i :: 0 <= i <= |n[|head|..]| && Begins(n[|head|..][i..], extension, fold)
  {
    hide Same;
    if u: string, w: string :| Same(n, head + u + extension + w, fold) {
      assert head + u + extension + w == head + (u + (extension + w));
      SameParts(n, head, u + (extension + w), fold);
      var tail := n[|head|..];
      SameParts(tail, u, extension + w, fold);
      SameParts(tail[|u|..], extension, w, fold);
      assert Begins(tail[|u|..], extension, fold);
    }
    if Begins(n, head, fold) {
      var tail := n[|head|..];
      if i :| 0 <= i <= |tail| && Begins(tail[i..], extension, fold) {
        var u, w := tail[..i], tail[i..][|extension|..];
        SameItself(u, fold);
        SameItself(w, fold);
        SameParts(tail[i..], extension, w, fold);
        SameParts(tail, u, extension + w, fold);
        SameParts(n, head, u + (extension + w), fold);
        assert head + u + extension + w == head + (u + (extension + w));
      }
    }
  }

  /** What a lookup without wildcards matches. */
  lemma WantedIff(loc: Locale, name: string, sec: string, extension: Option<string>, matchCase: bool, n: string)
    requires if extension.Some? then PlainText(extension.value) else PlainText(sec)
    ensures var pattern := NamePattern(name, sec, Options(matchCase, false), extension);
            && (Matches(loc, pattern, n, !matchCase) <==> Wanted(n, name, sec, extension, !matchCase))
            && FirstClosed(loc, pattern, !matchCase).None?
  {
    hide Matches, FirstClosed, Begins, Same;
    var fold := !matchCase;
    if extension.None? {
      LiteralPattern(name, sec, matchCase);
      EscapedMatches(loc, name + ("." + sec), n, fold);
      EscapedPrefixThen(name + ("." + sec), "*");
      NoBracketNoneClosed(loc, NamePattern(name, sec, Options(matchCase, false), None), fold);
      AppendAssociative(name, ".", sec);
    } else {
      ExtensionMatches(loc, name, sec, extension.value, matchCase, n);
    }
  }

  lemma ExtensionMatches(loc: Locale, name: string, sec: string, extension: string, matchCase: bool, n: string)
    requires PlainText(extension)
    ensures var pattern := NamePattern(name, sec, Options(matchCase, false), Some(extension));
            && (Matches(loc, pattern, n, !matchCase) <==> HasExtension(n, name, extension, !matchCase))
            && FirstClosed(loc, pattern, !matchCase).None?
  {
    hide Matches, FirstClosed, Begins, Same;
    var fold := !matchCase;
    var rest := "*" + (Shell.Escape(extension) + "*");
    ExtensionPattern(name, sec, extension, matchCase);
    EscapedThen(loc, name + ".", rest, n, fold);
    EscapedPrefixThen(name + ".", rest);
    NoBracketNoneClosed(loc, Shell.Escape(name + ".") + rest, fold);
    ExtensionParts(n, name + ".", extension, fold);
    if Begins(n, name + ".", fold) {
      BeginsLength(n, name + ".", fold);
      var tail := n[|name + "."|..];
      StarIff(loc, Shell.Escape(extension) + "*", tail, fold);
      forall i | 0 <= i <= |tail|
        ensures Matches(loc, Shell.Escape(extension) + "*", tail[i..], fold) <==> Begins(tail[i..], extension, fold)
      {
        EscapedMatches(loc, extension, tail[i..], fold);
      }
    }
  }

  lemma ExtensionPattern(name: string, sec: string, extension: string, matchCase: bool)
    requires PlainText(extension)
    ensures NamePattern(name, sec, Options(matchCase, false), Some(extension))
         == Shell.Escape(name + ".") + ("*" + (Shell.Escape(extension) + "*"))
  {
    hide Shell.Escape;
    EscapeSafe(extension);
    EscapeSafe(".");
    EscapeConcat(name, ".");
    StarsAround(Shell.Escape(name), extension);
  }

  lemma StarsAround(a: string, b: string)
    ensures a + ".*" + b + "*" == a + "." + ("*" + (b + "*"))
  {
    assert a + ".*" == a + "." + "*";
    AppendAssociative(a + ".", "*", b);
    AppendAssociative(a + ".", "*" + b, "*");
    AppendAssociative("*", b, "*");
  }

  /** Once the directories looked at are cached, a lookup without wildcards finds exactly the wanted files on disk. */
  lemma LiteralOnDisk(loc: Locale, dirs: Directories, cache: Cache, hier: string, sec: string, name: string, cat: bool,
                      matchCase: bool, extension: Option<string>, f: string)
    requires Faithful(dirs, cache) && PlainText(sec) && (extension.Some? ==> PlainText(extension.value))
    requires Cached(dirs, cache, hier)
    requires forall p :: p in InDirectory(loc, cache, hier, DirPattern(cat, sec), false) ==> Cached(dirs, cache, p)
    ensures f in Look(loc, cache, hier, DirPattern(cat, sec),
                      NamePattern(name, sec, Options(matchCase, false), extension), !matchCase)
            <==> exists d, n :: Below(dirs, hier, cat, sec, d, n, f) && Wanted(n, name, sec, extension, !matchCase)
  {
    hide InDirectory, Look, Cached, Faithful, NamePattern, DirPattern, Matches, FirstClosed, Below, Wanted, PlainText;
    var pattern, fold := NamePattern(name, sec, Options(matchCase, false), extension), !matchCase;
    WantedIff(loc, name, sec, extension, matchCase, "");
    forall n ensures Matches(loc, pattern, n, fold) <==> Wanted(n, name, sec, extension, fold) {
      WantedIff(loc, name, sec, extension, matchCase, n);
    }
    LookOnDisk(loc, dirs, cache, hier, cat, sec, pattern, fold, f);
  }

  class DirCache {
    const dirs: Directories
    const locale: Locale
    // dirent_map
    var names: Cache

    ghost predicate Valid()
      reads this
    {
      Faithful(dirs, names)
    }

    constructor (dirs: Directories, locale: Locale)
      ensures Valid() && names == map[] && this.dirs == dirs && this.locale == locale
    {
      this.dirs, this.locale := dirs, locale;
      names := map[];
    }

    /** update_directory_cache */
    method Update(path: string) returns (cache: Option<seq<string>>)
      requires Valid()
      modifies this`names
      ensures Valid()
      ensures cache.Some? <==> path in names
      ensures cache.Some? ==> names[path] == cache.value
      ensures forall p :: p in old(names) ==> p in names && names[p] == old(names)[p]
      ensures forall p :: p in names ==> p in old(names) || p == path
      ensures Cached(dirs, names, path)
    {
      hide SortedNames;
      if path in names {
        return Some(names[path]);
      }
      var dir := dirs.read(path);
      if dir.None? {
        return None;
      }
      var entries := ReadSorted(dir.value);
      names := names[path := entries];
      return Some(entries);
    }

    /** match_in_directory: appends the paths of the matching entries. */
    method MatchInDirectory(path: string, pattern: string, matchCase: bool, matched: seq<string>)
      returns (r: seq<string>)
      requires Valid()
      modifies this`names
      ensures Valid()
      ensures forall p :: p in old(names) ==> p in names && names[p] == old(names)[p]
      ensures Cached(dirs, names, path)
      ensures r == matched + InDirectory(locale, names, path, pattern, !matchCase)
    {
      hide SortedNames;
      var cache := Update(path);
      if cache.None? {
        return matched;
      }
      var found := MatchWildcard(locale, cache.value, pattern, matchCase);
      return matched + Paths(path, found);
    }

    /**
      * look_for_file in the GNU layout; extension is the global of that name.  The directories looked at
      * are cached then.  A literal lookup finds exactly the files on disk that it is to find.
      */
    method LookForFile(hier: string, sec: string, unescName: string, cat: bool, opts: Options,
                       extension: Option<string>)
      returns (matched: seq<string>)
      requires Valid()
      modifies this`names
      ensures Valid()
      ensures forall p :: p in old(names) ==> p in names && names[p] == old(names)[p]
      ensures matched == Look(locale, names, hier, DirPattern(cat, sec),
                              NamePattern(unescName, sec, opts, extension), !opts.matchCase)
      ensures Cached(dirs, names, hier)
      ensures forall p :: p in InDirectory(locale, names, hier, DirPattern(cat, sec), false) ==> Cached(dirs, names, p)
      ensures PlainText(sec) && !opts.wildcard && (extension.Some? ==> PlainText(extension.value)) ==>
                forall f :: f in matched
                            <==> exists d, n :: Below(dirs, hier, cat, sec, d, n, f)
                                                && Wanted(n, unescName, sec, extension, !opts.matchCase)
      ensures PlainText(sec) && opts.wildcard && extension.None?
              && FirstClosed(locale, unescName + "." + sec + "*", !opts.matchCase).None? ==>
                forall f :: f in matched
                            <==> exists d, n :: Below(dirs, hier, cat, sec, d, n, f)
                                                && Matches(locale, unescName + "." + sec + "*", n, !opts.matchCase)
    {
      hide SortedNames, InDirectory, PrefixSearch;
      var name := unescName;
      if !opts.wildcard {
        var esc := Shell.EscapeShell(Some(unescName));
        name := esc.value;
      }
      var dirPaths := MatchInDirectory(hier, DirPattern(cat, sec), true, []);
      ghost var before := names;
      assert dirPaths == InDirectory(locale, before, hier, DirPattern(cat, sec), false);
      var pattern := MakePattern(name, sec, extension);
      matched := [];
      for i := 0 to |dirPaths|
        invariant Valid()
        invariant forall p :: p in before ==> p in names && names[p] == before[p]
        invariant forall p :: p in dirPaths[..i] ==> Cached(dirs, names, p)
        invariant matched == InDirectories(locale, names, dirPaths[..i], pattern, !opts.matchCase)
      {
        ghost var paths := dirPaths[..i];
        ghost var earlier := names;
        matched := MatchInDirectory(dirPaths[i], pattern, opts.matchCase, matched);
        CacheGrows(locale, earlier, names, paths, pattern, !opts.matchCase);
        assert dirPaths[..i + 1] == paths + [dirPaths[i]];
        assert dirPaths[..i + 1][..i] == paths;
      }
      assert dirPaths[..|dirPaths|] == dirPaths;
      SameInDirectory(locale, before, names, hier, DirPattern(cat, sec), false);
      OnDisk(hier, sec, unescName, cat, opts, extension, matched);
    }

    lemma OnDisk(hier: string, sec: string, name: string, cat: bool, opts: Options, extension: Option<string>,
                 matched: seq<string>)
      requires Valid() && Cached(dirs, names, hier)
      requires matched == Look(locale, names, hier, DirPattern(cat, sec), NamePattern(name, sec, opts, extension),
                               !opts.matchCase)
      requires forall p :: p in InDirectory(locale, names, hier, DirPattern(cat, sec), false) ==> Cached(dirs, names, p)
      ensures PlainText(sec) && !opts.wildcard && (extension.Some? ==> PlainText(extension.value)) ==>
                forall f :: f in matched
                            <==> exists d, n :: Below(dirs, hier, cat, sec, d, n, f)
                                                && Wanted(n, name, sec, extension, !opts.matchCase)
      ensures PlainText(sec) && opts.wildcard && extension.None?
              && FirstClosed(locale, name + "." + sec + "*", !opts.matchCase).None? ==>
                forall f :: f in matched
                            <==> exists d, n :: Below(dirs, hier, cat, sec, d, n, f)
                                                && Matches(locale, name + "." + sec + "*", n, !opts.matchCase)
    {
      hide InDirectory, Look, Cached, Faithful, DirPattern, Matches, FirstClosed, Below, Wanted, PlainText;
      if PlainText(sec) && !opts.wildcard && (extension.Some? ==> PlainText(extension.value)) {
        assert opts == Options(opts.matchCase, false);
        forall f
          ensures f in matched <==> exists d, n :: Below(dirs, hier, cat, sec, d, n, f)
                                                   && Wanted(n, name, sec, extension, !opts.matchCase)
        {
          LiteralOnDisk(locale, dirs, names, hier, sec, name, cat, opts.matchCase, extension, f);
        }
      }
      if PlainText(sec) && opts.wildcard && extension.None?
         && FirstClosed(locale, name + "." + sec + "*", !opts.matchCase).None? {
        forall f
          ensures f in matched <==> exists d, n :: Below(dirs, hier, cat, sec, d, n, f)
                                                   && Matches(locale, name + "." + sec + "*", n, !opts.matchCase)
        {
          LookOnDisk(locale, dirs, names, hier, cat, sec, name + "." + sec + "*", !opts.matchCase, f);
        }
      }
    }
  }
}
