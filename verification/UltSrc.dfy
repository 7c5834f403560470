/**
  * Following links to the ultimate source file and remembering the answers:
  * src/ult_src.c ult_src and its cache.
  */
module UltSrc {
  import opened Wrappers
  import opened CString
  import opened Paths
  import opened Ult
  import Compression

  /** ult_src gives up after this many includes. */
  const LIMIT := 10

  /** What the first line of a file says to do. */
  datatype Step = Broken | End | To(file: string)

  function Next(fs: FileSystem, home: string, path: string, base: string): Step {
    var lines := fs.lines(base);
    if lines.None? then Broken
    else
      var inc := IncludeOf(Directive(lines.value));
      if inc.None? then End
      else
        var target := Target(fs, home, path, inc.value);
        if target.None? || fs.canonicalize(target.value).None? then Broken
        else To(fs.canonicalize(target.value).value)
  }

  /** Can the file be read, and does the first line of it that is no comment include inc? */
  ghost predicate Asks(fs: FileSystem, base: string, inc: string) {
    fs.lines(base).Some? && exists line :: Decides(fs.lines(base).value, line) && Includes(line, inc)
  }

  /** What an include may stand for, in the order in which it is looked for. */
  function IncludeCandidates(home: string, path: string, inc: string): seq<Candidate> {
    Below(path, inc) + Below(home, inc)
  }

  /**
    * One step: an include leads to the canonical name of the first candidate that exists; a file that
    * can be read and includes nothing ends the chain; everything else breaks it.
    */
  lemma NextIff(fs: FileSystem, home: string, path: string, base: string, file: string)
    ensures Next(fs, home, path, base) == To(file) <==>
              exists inc, f :: Asks(fs, base, inc) && FirstExisting(fs, IncludeCandidates(home, path, inc), f)
                               && fs.canonicalize(f) == Some(file)
    ensures Next(fs, home, path, base) == End <==> fs.lines(base).Some? && forall inc :: !Asks(fs, base, inc)
    ensures Next(fs, home, path, base) == Broken <==>
              || fs.lines(base).None?
              || exists inc :: Asks(fs, base, inc)
                               && (|| NoneExists(fs, IncludeCandidates(home, path, inc))
                                   || exists f :: FirstExisting(fs, IncludeCandidates(home, path, inc), f)
                                                  && fs.canonicalize(f) == None)
  {
    hide Target, IncludeOf, Directive, Includes, Decides, FirstExisting, NoneExists, IncludeCandidates;
    forall inc ensures Asks(fs, base, inc) <==>
                 fs.lines(base).Some? && IncludeOf(Directive(fs.lines(base).value)) == Some(inc)
    {
      AsksIff(fs, base, inc);
    }
    if fs.lines(base).Some? && IncludeOf(Directive(fs.lines(base).value)).Some? {
      var inc := IncludeOf(Directive(fs.lines(base).value)).value;
      assert Asks(fs, base, inc);
      forall f
        ensures Target(fs, home, path, inc) == Some(f) <==> FirstExisting(fs, IncludeCandidates(home, path, inc), f)
        ensures Target(fs, home, path, inc) == None <==> NoneExists(fs, IncludeCandidates(home, path, inc))
      {
        CandidatesIff(fs, home, path, inc, f);
      }
      if Target(fs, home, path, inc).Some? {
        assert FirstExisting(fs, IncludeCandidates(home, path, inc), Target(fs, home, path, inc).value);
      }
    }
  }

  lemma AsksIff(fs: FileSystem, base: string, inc: string)
    ensures Asks(fs, base, inc)
            <==> fs.lines(base).Some? && IncludeOf(Directive(fs.lines(base).value)) == Some(inc)
  {
    hide IncludeOf, Directive, Includes, Decides;
    if fs.lines(base).Some? {
      var line := Directive(fs.lines(base).value);
      IncludeOfIff(line, inc);
      forall l ensures Decides(fs.lines(base).value, l) <==> l == line {
        DirectiveIff(fs.lines(base).value, l);
      }
    }
  }

  lemma CandidatesIff(fs: FileSystem, home: string, path: string, inc: string, f: string)
    ensures Target(fs, home, path, inc) == Some(f) <==> FirstExisting(fs, IncludeCandidates(home, path, inc), f)
    ensures Target(fs, home, path, inc) == None <==> NoneExists(fs, IncludeCandidates(home, path, inc))
  {
    hide Target, FirstExisting, NoneExists, Below;
    TargetIff(fs, home, path, inc, f);
  }

  /** The file that n includes lead to. */
  function Chain(fs: FileSystem, home: string, path: string, base: string, n: nat): Option<string> {
    if n == 0 then Some(base)
    else
      var b := Chain(fs, home, path, base, n - 1);
      if b.None? then None
      else
        var s := Next(fs, home, path, b.value);
        if s.To? then Some(s.file) else None
  }

  predicate EndsAfter(fs: FileSystem, home: string, path: string, base: string, n: nat) {
    var b := Chain(fs, home, path, base, n);
    b.Some? && Next(fs, home, path, b.value) == End
  }

  /** The first n files that the includes lead to. */
  function Trail(fs: FileSystem, home: string, path: string, base: string, n: nat): (t: seq<string>)
    requires Chain(fs, home, path, base, n).Some?
    ensures |t| == n
  {
    if n == 0 then []
    else Trail(fs, home, path, base, n - 1) + [Chain(fs, home, path, base, n).value]
  }

  lemma {:induction false} ChainPrefix(fs: FileSystem, home: string, path: string, base: string, m: nat, n: nat)
    requires m <= n && Chain(fs, home, path, base, n).Some?
    ensures Chain(fs, home, path, base, m).Some?
    ensures m < n ==> Next(fs, home, path, Chain(fs, home, path, base, m).value).To?
    decreases n
  {
    hide Next;
    if m < n { ChainPrefix(fs, home, path, base, m, n - 1); }
  }

  lemma EndUnique(fs: FileSystem, home: string, path: string, base: string, m: nat, n: nat)
    requires EndsAfter(fs, home, path, base, m) && EndsAfter(fs, home, path, base, n)
    ensures m == n
  {
    hide Next;
    if m < n {
      ChainPrefix(fs, home, path, base, m, n);
    } else if n < m {
      ChainPrefix(fs, home, path, base, n, m);
    }
  }

  lemma ChainStart(fs: FileSystem, home: string, path: string, base: string)
    ensures Chain(fs, home, path, base, 0) == Some(base)
    ensures Trail(fs, home, path, base, 0) == []
  {
  }

  lemma ChainStep(fs: FileSystem, home: string, path: string, base: string, n: nat)
    requires Chain(fs, home, path, base, n).Some?
    ensures var s := Next(fs, home, path, Chain(fs, home, path, base, n).value);
            s.To? ==> && Chain(fs, home, path, base, n + 1) == Some(s.file)
                      && Trail(fs, home, path, base, n + 1) == Trail(fs, home, path, base, n) + [s.file]
  {
    hide Next;
  }

  /** Where the symbolic and hard links lead. */
  ghost function Start(fs: FileSystem, name: string, buf: Option<Stat>, flags: Flags): Option<string> {
    if !flags.softLink && !flags.hardLink then Some(name)
    else
      var st := if buf.Some? then buf else fs.lstat(name);
      if st.None? then None
      else
        var soft := if flags.softLink && st.value.isLink then fs.canonicalize(name) else Some(name);
        if soft.Some? && flags.hardLink && st.value.nlink > 1 then Some(Hardlinked(fs, soft.value, st.value.ino))
        else soft
  }

  /** The answer of ult_src without its cache. */
  ghost function Ultimate(fs: FileSystem, name: string, path: string, buf: Option<Stat>, flags: Flags): Option<Value> {
    var start := Start(fs, name, buf, flags);
    if start.None? then None
    else if !flags.soLink then Some(Value(start.value, [name, start.value]))
    else Follow(fs, DirName(name), path, name, start.value)
  }

  /** The answer of the include loop. */
  ghost function Follow(fs: FileSystem, home: string, path: string, name: string, base: string): Option<Value> {
    if n: nat :| n < LIMIT && EndsAfter(fs, home, path, base, n) then
      var last := Chain(fs, home, path, base, n).value;
      Some(Value(last, [name] + Trail(fs, home, path, base, n) + [last]))
    else None
  }

  /** A chain that ends is followed exactly when it ends within the limit; the trace tells every step. */
  lemma FollowEnds(fs: FileSystem, home: string, path: string, name: string, base: string, n: nat)
    requires EndsAfter(fs, home, path, base, n)
    ensures var last := Chain(fs, home, path, base, n).value;
            n < 10 ==>
              Follow(fs, home, path, name, base) == Some(Value(last, [name] + Trail(fs, home, path, base, n) + [last]))
    ensures n >= 10 ==> Follow(fs, home, path, name, base) == None
  {
    hide Chain, Next, EndsAfter, Trail;
    forall m: nat | EndsAfter(fs, home, path, base, m) ensures m == n {
      EndUnique(fs, home, path, base, m, n);
    }
  }

  lemma {:induction false} ChainShift(fs: FileSystem, home: string, path: string, base: string, i: nat, j: nat, k: nat)
    requires Chain(fs, home, path, base, i) == Chain(fs, home, path, base, j)
    ensures Chain(fs, home, path, base, i + k) == Chain(fs, home, path, base, j + k)
  {
    hide Next;
    if k > 0 { ChainShift(fs, home, path, base, i, j, k - 1); }
  }

  /** A chain of includes that comes back to a file leads nowhere. */
  lemma CyclicGivesNull(fs: FileSystem, home: string, path: string, name: string, base: string, i: nat, j: nat)
    requires i < j
    ensures Chain(fs, home, path, base, i).Some? && Chain(fs, home, path, base, i) == Chain(fs, home, path, base, j) ==>
              && (forall n: nat :: !EndsAfter(fs, home, path, base, n))
              && Follow(fs, home, path, name, base) == None
  {
    hide Chain, Next;
    if Chain(fs, home, path, base, i).Some? && Chain(fs, home, path, base, i) == Chain(fs, home, path, base, j) {
      forall n: nat ensures !EndsAfter(fs, home, path, base, n) {
        if EndsAfter(fs, home, path, base, n) {
          if n < j {
            ChainPrefix(fs, home, path, base, n, j);
          } else {
            ChainShift(fs, home, path, base, i, j, n - j);
            EndUnique(fs, home, path, base, n, n - (j - i));
          }
        }
      }
    }
  }

  /** The same answer but for the name at the head of the trace. */
  predicate SameSource(u: Option<Value>, v: Option<Value>) {
    if u.None? || v.None? then u == v
    else
      && u.value.path == v.value.path
      && |u.value.trace| == |v.value.trace| > 0 && u.value.trace[1..] == v.value.trace[1..]
  }

  /** Two hard-linked regular files of one directory have the same ultimate source. */
  lemma HardLinksAgree(fs: FileSystem, dir: string, a: string, b: string, st: Stat, path: string, flags: Flags)
    requires a != "" && b != "" && '/' !in a && '/' !in b
    requires fs.lstat(dir + "/" + a) == Some(st) && fs.lstat(dir + "/" + b) == Some(st)
    requires !st.isLink && st.nlink > 1 && flags.hardLink
    requires fs.readdir(dir).Some?
    requires Dirent(a, st.ino) in fs.readdir(dir).value && Dirent(b, st.ino) in fs.readdir(dir).value
    ensures var u, v := Ultimate(fs, dir + "/" + a, path, None, flags), Ultimate(fs, dir + "/" + b, path, None, flags);
            SameSource(u, v)
  {
    hide Chain, Next, EndsAfter, Trail, DirName, Hardlinked;
    HardlinkedAgree(fs, dir, a, b, st.ino);
    DirNameSame(dir, a, b);
    FollowNamed(fs, DirName(dir + "/" + a), path, dir + "/" + a, dir + "/" + b, Hardlinked(fs, dir + "/" + a, st.ino));
  }

  /** The name of the page shows only at the head of the trace. */
  lemma FollowNamed(fs: FileSystem, home: string, path: string, a: string, b: string, base: string)
    ensures var u, v := Follow(fs, home, path, a, base), Follow(fs, home, path, b, base);
            SameSource(u, v)
  {
    hide Chain, Next, Trail;
    if n: nat :| n < LIMIT && EndsAfter(fs, home, path, base, n) {
      FollowEnds(fs, home, path, a, base, n);
      FollowEnds(fs, home, path, b, base, n);
      var t := Trail(fs, home, path, base, n);
      var last := [Chain(fs, home, path, base, n).value];
      assert ([a] + t + last)[1..] == t + last == ([b] + t + last)[1..];
    }
  }

  /** A symbolic link has the ultimate source of the file it leads to. */
  lemma SoftLinksAgree(fs: FileSystem, link: string, target: string, st: Stat, own: Stat, path: string, flags: Flags)
    requires flags.softLink && st.isLink && !own.isLink && (flags.hardLink ==> st.nlink <= 1 && own.nlink <= 1)
    requires fs.lstat(link) == Some(st) && fs.lstat(target) == Some(own)
    requires DirName(link) == DirName(target)
    ensures fs.canonicalize(link) == None ==> Ultimate(fs, link, path, None, flags) == None
    ensures fs.canonicalize(link) == Some(target) ==>
              SameSource(Ultimate(fs, link, path, None, flags), Ultimate(fs, target, path, None, flags))
  {
    hide Follow, Hardlinked, DirName;
    FollowNamed(fs, DirName(link), path, link, target, target);
    assert [link, target][1..] == [target, target][1..];
  }

  /**
    * A page that no link is followed from is its own source, also a symbolic link whose flag is not given;
    * a file without status has none when links are followed.
    */
  lemma NoLinks(fs: FileSystem, name: string, path: string, flags: Flags)
    ensures !flags.soLink && !flags.softLink && !flags.hardLink ==>
              Ultimate(fs, name, path, None, flags) == Some(Value(name, [name, name]))
    ensures !flags.soLink && !flags.softLink && fs.lstat(name).Some? && fs.lstat(name).value.nlink <= 1 ==>
              Ultimate(fs, name, path, None, flags) == Some(Value(name, [name, name]))
    ensures (flags.softLink || flags.hardLink) && fs.lstat(name) == None ==>
              Ultimate(fs, name, path, None, flags) == None
  {
  }

  // The cache

  type Key = (string, Flags)
  type Answered = map<Key, Option<Value>>

  /** Every remembered answer, negative ones included, is the one ult_src would work out again. */
  ghost predicate Coherent(fs: FileSystem, path: string, cache: Answered) {
    forall k :: k in cache ==> cache[k] == Ultimate(fs, k.0, path, None, k.1)
  }

  /** A caller that passes the status of the file passes what lstat says. */
  predicate Truthful(fs: FileSystem, name: string, buf: Option<Stat>) {
    buf.Some? ==> buf == fs.lstat(name)
  }

  datatype Request = Request(name: string, path: string, buf: Option<Stat>, flags: Flags)

  function KeyOf(q: Request): Key {
    (q.name, q.flags)
  }

  /** The answer to a request without the cache. */
  ghost function Uncached(fs: FileSystem, q: Request): Option<Value> {
    Ultimate(fs, q.name, q.path, q.buf, q.flags)
  }

  ghost function Remember(fs: FileSystem, cache: Answered, q: Request): (c: Answered)
    ensures KeyOf(q) in c
  {
    if KeyOf(q) in cache then cache else cache[KeyOf(q) := Uncached(fs, q)]
  }

  /** What a sequence of requests is answered. */
  ghost function Answers(fs: FileSystem, cache: Answered, qs: seq<Request>): (answers: seq<Option<Value>>)
    ensures |answers| == |qs|
    decreases |qs|
  {
    if qs == [] then []
    else
      var c := Remember(fs, cache, qs[0]);
      [c[KeyOf(qs[0])]] + Answers(fs, c, qs[1..])
  }

  /** The first request with a key. */
  function FirstWith(qs: seq<Request>, key: Key): (i: nat)
    requires exists q :: q in qs && KeyOf(q) == key
    ensures i < |qs| && KeyOf(qs[i]) == key
    ensures forall j :: 0 <= j < i ==> KeyOf(qs[j]) != key
  {
    if KeyOf(qs[0]) == key then 0
    else
      assert qs == [qs[0]] + qs[1..];
      1 + FirstWith(qs[1..], key)
  }

  lemma FirstWithIs(qs: seq<Request>, key: Key, i: nat)
    requires i < |qs| && KeyOf(qs[i]) == key && forall j :: 0 <= j < i ==> KeyOf(qs[j]) != key
    ensures FirstWith(qs, key) == i
  {
  }

  /** Every request is answered what is remembered, or what the first request with its key is answered. */
  lemma {:induction false} AnswersOfFirst(fs: FileSystem, cache: Answered, qs: seq<Request>, i: nat)
    requires i < |qs|
    ensures var key := KeyOf(qs[i]);
            Answers(fs, cache, qs)[i]
            == if key in cache then cache[key] else Uncached(fs, qs[FirstWith(qs, key)])
    decreases |qs|
  {
    hide Uncached, FirstWith;
    var key := KeyOf(qs[i]);
    var c := Remember(fs, cache, qs[0]);
    if KeyOf(qs[0]) == key {
      FirstWithIs(qs, key, 0);
    }
    if i > 0 {
      AnswersOfFirst(fs, c, qs[1..], i - 1);
      if KeyOf(qs[0]) != key {
        FirstWithIs(qs, key, FirstWith(qs[1..], key) + 1);
      }
    }
  }

  /** Over a session that starts with an empty cache, is every answer the uncached one? */
  ghost predicate Exact(fs: FileSystem, qs: seq<Request>) {
    forall i :: 0 <= i < |qs| ==> Answers(fs, map[], qs)[i] == Uncached(fs, qs[i])
  }

  /**
    * For all sessions: the cache answers as if it were not there if and only if every request has the
    * uncached answer of the first request with the same name and flags.
    */
  lemma SessionExactIff(fs: FileSystem, qs: seq<Request>)
    ensures Exact(fs, qs)
            <==> forall i :: 0 <= i < |qs| ==> Uncached(fs, qs[i]) == Uncached(fs, qs[FirstWith(qs, KeyOf(qs[i]))])
  {
    hide Uncached, Answers, FirstWith;
    forall i | 0 <= i < |qs|
      ensures Answers(fs, map[], qs)[i] == Uncached(fs, qs[FirstWith(qs, KeyOf(qs[i]))])
    {
      AnswersOfFirst(fs, map[], qs, i);
    }
  }

  /** So it does for requests of one path that pass the true file status or none. */
  lemma SessionExact(fs: FileSystem, path: string, qs: seq<Request>)
    requires forall q :: q in qs ==> q.path == path && Truthful(fs, q.name, q.buf)
    ensures Exact(fs, qs)
    ensures forall i :: 0 <= i < |qs| ==>
              Answers(fs, map[], qs)[i] == Ultimate(fs, qs[i].name, path, None, qs[i].flags)
  {
    hide Ultimate, Answers, FirstWith, Truthful;
    SessionExactIff(fs, qs);
    forall i | 0 <= i < |qs| ensures Uncached(fs, qs[i]) == Ultimate(fs, qs[i].name, path, None, qs[i].flags) {
      assert qs[i] in qs;
      TruthfulAnswer(fs, qs[i]);
    }
  }

  lemma TruthfulAnswer(fs: FileSystem, q: Request)
    requires Truthful(fs, q.name, q.buf)
    ensures Uncached(fs, q) == Ultimate(fs, q.name, q.path, None, q.flags)
  {
    hide Follow, Hardlinked, DirName;
  }

  /** A tree in which the page called name, a regular file with one name, includes inc, and every file exists. */
  function IncludingTree(name: string, inc: string): FileSystem {
    FileSystem(_ => Some(Stat(false, 1, 0)), f => Some(f), _ => None,
               f => Some(if f == name then [".so " + inc] else []), _ => true, _ => false)
  }

  lemma IncludesBare(inc: string)
    requires Run(inc, false, 0, |inc|) && inc != "" && inc[0] != '/'
    ensures IncludeOf(Directive([".so " + inc])) == Some(inc) && IncludeOf(Directive([])) == None
  {
    var line := ".so " + inc;
    assert line[4..|line|] == inc && line[0..3] == ".so";
    assert forall k :: 4 <= k < |line| ==> line[k] == inc[k - 4];
    assert IsInclude(line, 0, 4, |line|);
    IncludeOfIff(line, inc);
    assert Take(line, 3) == ".so";
  }

  /** Below each path the page leads to that path's file, since no include leads back to the page. */
  lemma IncludingAnswer(name: string, inc: string, path: string, flags: Flags)
    requires Run(inc, false, 0, |inc|) && |inc| > |name| && inc[0] != '/' && flags.soLink
    ensures var last := path + ("/" + inc);
            Ultimate(IncludingTree(name, inc), name, path, None, flags) == Some(Value(last, [name, last, last]))
  {
    hide IncludeOf, Directive, Follow, Trail;
    var fs, home, last := IncludingTree(name, inc), DirName(name), path + ("/" + inc);
    IncludesBare(inc);
    ChainStart(fs, home, path, name);
    ChainStep(fs, home, path, name, 0);
    AppendAssociative(path, "/", inc);
    assert Next(fs, home, path, name) == To(last);
    FollowEnds(fs, home, path, name, name, 1);
    assert Trail(fs, home, path, name, 1) == [last];
    assert Start(fs, name, None, flags) == Some(name);
    assert [name] + [last] + [last] == [name, last, last];
  }

  /** A text longer than the given one that can stand in a .so line. */
  function Longer(text: string): (inc: string)
    ensures Run(inc, false, 0, |inc|) && |inc| > |text| && inc[0] != '/'
  {
    seq(|text| + 1, _ => 'b')
  }

  /** Two requests that share name and flags, ask for includes and differ in path have different answers somewhere. */
  lemma PathsTellApart(a: Request, b: Request) returns (fs: FileSystem)
    requires a.buf.None? && b.buf.None? && KeyOf(a) == KeyOf(b) && a.flags.soLink && a.path != b.path
    ensures Uncached(fs, a) != Uncached(fs, b)
  {
    hide Ultimate;
    var inc := Longer(a.name);
    fs := IncludingTree(a.name, inc);
    IncludingAnswer(a.name, inc, a.path, a.flags);
    IncludingAnswer(a.name, inc, b.path, a.flags);
    SuffixCancels(a.path, b.path, "/" + inc);
  }

  lemma SuffixCancels(a: string, b: string, c: string)
    ensures a + c == b + c ==> a == b
  {
    assert (a + c)[..|a|] == a && (b + c)[..|b|] == b;
  }

  /** Do requests that share name and flags, and ask for includes, share their path? */
  predicate OnePathEach(qs: seq<Request>) {
    forall i, j :: 0 <= i < |qs| && 0 <= j < |qs| && KeyOf(qs[i]) == KeyOf(qs[j]) && qs[i].flags.soLink ==>
      qs[i].path == qs[j].path
  }

  /**
    * For sessions in which no file status is passed: the cache is exact on every file system if and only
    * if requests that share name and flags, and ask for includes, share their path.
    */
  lemma SessionPathsIff(qs: seq<Request>)
    requires forall q :: q in qs ==> q.buf.None?
    ensures (forall fs :: Exact(fs, qs)) <==> OnePathEach(qs)
  {
    hide Uncached, Exact, FirstWith;
    if OnePathEach(qs) {
      forall fs ensures Exact(fs, qs) {
        SharedPathsExact(fs, qs);
      }
    } else {
      var i, j :| 0 <= i < |qs| && 0 <= j < |qs| && KeyOf(qs[i]) == KeyOf(qs[j]) && qs[i].flags.soLink
                  && qs[i].path != qs[j].path;
      var first := FirstWith(qs, KeyOf(qs[i]));
      var other := if qs[first].path != qs[i].path then i else j;
      assert qs[first] in qs && qs[other] in qs;
      var fs := PathsTellApart(qs[other], qs[first]);
      SessionExactIff(fs, qs);
    }
  }

  lemma SharedPathsExact(fs: FileSystem, qs: seq<Request>)
    requires (forall q :: q in qs ==> q.buf.None?) && OnePathEach(qs)
    ensures Exact(fs, qs)
  {
    hide Follow, Hardlinked, DirName, Exact, FirstWith, Start;
    SessionExactIff(fs, qs);
    forall i | 0 <= i < |qs| ensures Uncached(fs, qs[i]) == Uncached(fs, qs[FirstWith(qs, KeyOf(qs[i]))]) {
      assert qs[i] in qs && qs[FirstWith(qs, KeyOf(qs[i]))] in qs;
    }
  }

  /** Two requests that differ in their path only: the second is answered what the first was. */
  lemma PathIgnored()
    ensures var qs := [Request("/m/a", "p", None, Flags(true, false, false)),
                       Request("/m/a", "q", None, Flags(true, false, false))];
            exists fs :: Answers(fs, map[], qs)[1] != Uncached(fs, qs[1]) && !Exact(fs, qs)
  {
    hide Uncached, FirstWith, Answers;
    var qs := [Request("/m/a", "p", None, Flags(true, false, false)),
               Request("/m/a", "q", None, Flags(true, false, false))];
    var fs := PathsTellApart(qs[0], qs[1]);
    AnswersOfFirst(fs, map[], qs, 1);
    FirstWithIs(qs, KeyOf(qs[1]), 0);
    assert Answers(fs, map[], qs)[1] != Uncached(fs, qs[1]);
  }

  /** The hard-link search, where it is reached, asserts that the file name has a slash. */
  predicate SlashAsserted(fs: FileSystem, name: string, buf: Option<Stat>, flags: Flags) {
    var st := if buf.Some? then buf else fs.lstat(name);
    flags.hardLink && st.Some? && st.value.nlink > 1 ==>
      var soft := if flags.softLink && st.value.isLink then fs.canonicalize(name) else Some(name);
      soft.Some? ==> '/' in soft.value
  }

  class UltCache {
    var cache: Answered
    const table: Compression.Table

    constructor (table: Compression.Table)
      ensures cache == map[] && this.table == table
    {
      cache := map[];
      this.table := table;
    }

    /** ult_src: a remembered answer, or a new one that is then remembered. */
    method UltSrc(fs: FileSystem, name: string, path: string, buf: Option<Stat>, flags: Flags)
      returns (r: Option<Value>)
      requires table.Valid() && ((name, flags) in cache || SlashAsserted(fs, name, buf, flags))
      modifies this, table.list
      ensures cache == Remember(fs, old(cache), Request(name, path, buf, flags))
      ensures r == cache[(name, flags)]
      ensures Coherent(fs, path, old(cache)) && Truthful(fs, name, buf) ==>
                Coherent(fs, path, cache) && r == Ultimate(fs, name, path, None, flags)
    {
      if (name, flags) in cache {
        return cache[(name, flags)];
      }
      r := Resolve(fs, name, path, buf, flags);
      cache := cache[(name, flags) := r];
    }

    /** The rest of ult_src; None stands for the jump to err. */
    method Resolve(fs: FileSystem, name: string, path: string, buf: Option<Stat>, flags: Flags)
      returns (r: Option<Value>)
      requires table.Valid() && SlashAsserted(fs, name, buf, flags)
      modifies table.list
      ensures r == Ultimate(fs, name, path, buf, flags)
    {
      hide Hardlinked, Follow;
      var base := name;
      var st := buf;
      if st.None? && (flags.softLink || flags.hardLink) {
        st := fs.lstat(base);
        if st.None? {
          return None;
        }
      }
      if flags.softLink {
        if st.value.isLink {
          var softlink := fs.canonicalize(base);
          if softlink.None? {
            return None;
          }
          base := softlink.value;
        }
      }
      if flags.hardLink {
        if st.value.nlink > 1 {
          var hardlink := UltHardlink(fs, base, st.value.ino);
          if hardlink.Some? {
            base := hardlink.value;
          }
        }
      }
      if flags.soLink {
        r := ChaseIncludes(fs, name, path, base);
        return;
      }
      assert [name] + [base] == [name, base];
      return Some(Value(base, [name] + [base]));
    }

    /** The loop over the .so directives. */
    method ChaseIncludes(fs: FileSystem, name: string, path: string, start: string) returns (r: Option<Value>)
      requires table.Valid()
      modifies table.list
      ensures r == Follow(fs, DirName(name), path, name, start)
    {
      hide Chain, Next, EndsAfter, Trail, Follow;
      ghost var home := DirName(name);
      var base := start;
      var trace := [name];
      ChainStart(fs, home, path, start);
      for i := 0 to LIMIT
        invariant Chain(fs, home, path, start, i) == Some(base)
        invariant trace == [name] + Trail(fs, home, path, start, i)
      {
        ChainStep(fs, home, path, start, i);
        FollowStep(fs, home, path, name, start, i);
        NextIs(fs, home, path, base);
        var directive := FindIncludeDirective(fs, base);
        if directive.None? {
          return None;
        }
        var inc := TestForInclude(directive.value);
        if inc.None? {
          return Some(Value(base, trace + [base]));
        }
        var target := FindInclude(fs, table, name, path, inc.value);
        if target.None? {
          return None;
        }
        base := target.value;
        assert [name] + (Trail(fs, home, path, start, i) + [base]) == trace + [base];
        trace := trace + [base];
      }
      FollowTooLong(fs, home, path, name, start);
      return None;
    }
  }

  lemma NextIs(fs: FileSystem, home: string, path: string, base: string)
    ensures var lines := fs.lines(base);
            if lines.None? then Next(fs, home, path, base) == Broken
            else
              var inc := IncludeOf(Directive(lines.value));
              if inc.None? then Next(fs, home, path, base) == End
              else
                var t := Target(fs, home, path, inc.value);
                var c := if t.None? then None else fs.canonicalize(t.value);
                Next(fs, home, path, base) == if c.None? then Broken else To(c.value)
  {
    hide IncludeOf, Directive, Target;
  }

  /** The answer once the chain has been followed for n steps and stops there. */
  lemma FollowStep(fs: FileSystem, home: string, path: string, name: string, base: string, n: nat)
    requires n < LIMIT && Chain(fs, home, path, base, n).Some?
    ensures var last := Chain(fs, home, path, base, n).value;
            && (Next(fs, home, path, last) == Broken ==> Follow(fs, home, path, name, base) == None)
            && (Next(fs, home, path, last) == End ==>
                  Follow(fs, home, path, name, base)
                  == Some(Value(last, [name] + Trail(fs, home, path, base, n) + [last])))
  {
    hide Next, Trail, Chain;
    var last := Chain(fs, home, path, base, n).value;
    if Next(fs, home, path, last) == End {
      FollowEnds(fs, home, path, name, base, n);
    }
    forall m: nat | EndsAfter(fs, home, path, base, m) ensures Next(fs, home, path, last) != Broken {
      if m < n {
        ChainPrefix(fs, home, path, base, m, n);
      } else {
        ChainPrefix(fs, home, path, base, n, m);
      }
    }
  }

  lemma FollowTooLong(fs: FileSystem, home: string, path: string, name: string, base: string)
    requires Chain(fs, home, path, base, LIMIT).Some?
    ensures Follow(fs, home, path, name, base) == None
  {
    hide Next, Trail, Chain;
    forall m: nat | m < LIMIT && EndsAfter(fs, home, path, base, m) ensures false {
      ChainPrefix(fs, home, path, base, m, LIMIT);
    }
  }
}
