/**
  * The ultimate source file of a page: src/ult_src.c.
  */
module Ult {
  import opened Wrappers
  import opened CString
  import opened Paths
  import Compression

  datatype Stat = Stat(isLink: bool, nlink: nat, ino: nat)
  datatype Dirent = Dirent(name: string, ino: nat)

  /** What ult_src asks the file system; it does not change during a run. */
  datatype FileSystem = FileSystem(
    lstat: string -> Option<Stat>,
    canonicalize: string -> Option<string>,         // canonicalize_file_name
    readdir: string -> Option<seq<Dirent>>,         // opendir and readdir
    lines: string -> Option<seq<string>>,           // the decompressed lines
    access: string -> bool,
    stat: string -> bool)

  datatype Flags = Flags(soLink: bool, softLink: bool, hardLink: bool)

  datatype Value = Value(path: string, trace: seq<string>)

  // Hard links

  function Candidates(base: string, list: seq<Dirent>, ino: nat): set<string> {
    {base} + set e | e in list && e.ino == ino :: e.name
  }

  predicate IsLeast(names: set<string>, least: string) {
    least in names && forall n :: n in names ==> !Less(n, least)
  }

  lemma LeastUnique(names: set<string>, a: string, b: string)
    requires IsLeast(names, a) && IsLeast(names, b)
    ensures a == b
  {
    CompareZero(a, b);
    CompareAntisymmetric(a, b);
  }

  lemma LeastReplaced(names: set<string>, least: string, n: string)
    requires IsLeast(names, least)
    ensures IsLeast(names + {n}, if Less(n, least) then n else least)
  {
    CompareZero(n, n);
    forall m | m in names && Less(n, least) ensures !Less(m, n) {
      if Less(m, n) { LessTransitive(m, n, least); }
    }
  }

  lemma CandidatesStep(base: string, list: seq<Dirent>, ino: nat, i: nat)
    requires i < |list|
    ensures Candidates(base, list[..i + 1], ino)
         == Candidates(base, list[..i], ino) + if list[i].ino == ino then {list[i].name} else {}
  {
    assert list[..i + 1] == list[..i] + [list[i]];
  }

  lemma LeastExists(base: string, list: seq<Dirent>, ino: nat)
    ensures exists least :: IsLeast(Candidates(base, list, ino), least)
  {
    if list == [] {
      CompareZero(base, base);
      assert IsLeast(Candidates(base, list, ino), base);
    } else {
      var i := |list| - 1;
      LeastExists(base, list[..i], ino);
      var least :| IsLeast(Candidates(base, list[..i], ino), least);
      LeastReplaced(Candidates(base, list[..i], ino), least, list[i].name);
      CandidatesStep(base, list, ino, i);
      assert list[..i + 1] == list;
      assert list[i].ino != ino ==> IsLeast(Candidates(base, list, ino), least);
    }
  }

  ghost function LeastOf(names: set<string>): string
    requires exists n :: IsLeast(names, n)
  {
    var n :| IsLeast(names, n);
    n
  }

  /** The least name of the file's inode in its directory; the file when the directory cannot be read. */
  ghost function Hardlinked(fs: FileSystem, file: string, ino: nat): string {
    var slash := LastIndexOf(file, '/');
    if slash < 0 || fs.readdir(file[..slash]).None? then file
    else
      var list := fs.readdir(file[..slash]).value;
      LeastExists(file[slash + 1..], list, ino);
      file[..slash] + "/" + LeastOf(Candidates(file[slash + 1..], list, ino))
  }

  /** It is the file's own name, or a listed name of the inode, and none of these comes before it. */
  lemma HardlinkedIs(fs: FileSystem, dir: string, own: string, ino: nat)
    requires '/' !in own
    ensures fs.readdir(dir).None? ==> Hardlinked(fs, dir + "/" + own, ino) == dir + "/" + own
    ensures fs.readdir(dir).Some? ==>
              exists least :: Hardlinked(fs, dir + "/" + own, ino) == dir + "/" + least
                              && (least == own || Dirent(least, ino) in fs.readdir(dir).value)
                              && !Precedes(own, least)
                              && forall n :: Dirent(n, ino) in fs.readdir(dir).value ==> !Precedes(n, least)
  {
    hide Precedes;
    LastIndexOfLast(dir, '/', own);
    if fs.readdir(dir).Some? {
      var list := fs.readdir(dir).value;
      LeastExists(own, list, ino);
      var least := LeastOf(Candidates(own, list, ino));
      forall n | Dirent(n, ino) in list ensures !Precedes(n, least) {
        assert Dirent(n, ino).name in Candidates(own, list, ino);
        LessIff(n, least);
      }
      LessIff(own, least);
      assert least != own ==> Dirent(least, ino) in list;
    }
  }

  /** ult_hardlink, which answers None for the file itself. */
  method UltHardlink(fs: FileSystem, fullpath: string, inode: nat) returns (r: Option<string>)
    requires '/' in fullpath
    ensures r == if Hardlinked(fs, fullpath, inode) == fullpath then None else Some(Hardlinked(fs, fullpath, inode))
  {
    hide Compare;
    var slash := LastIndexOf(fullpath, '/');
    assert slash >= 0;
    var dir := fullpath[..slash];
    var own := fullpath[slash + 1..];
    assert fullpath == dir + "/" + own;
    var base := own;
    var mdir := fs.readdir(dir);
    if mdir.None? {
      return None;
    }
    CompareZero(base, base);
    assert Candidates(own, mdir.value[..0], inode) == {own};
    for i := 0 to |mdir.value|
      invariant IsLeast(Candidates(own, mdir.value[..i], inode), base)
    {
      var manlist := mdir.value[i];
      CandidatesStep(own, mdir.value, inode, i);
      if manlist.ino == inode {
        LeastReplaced(Candidates(own, mdir.value[..i], inode), base, manlist.name);
        CompareAntisymmetric(base, manlist.name);
        if Compare(base, manlist.name) > 0 {
          base := manlist.name;
        }
      }
    }
    assert mdir.value[..|mdir.value|] == mdir.value;
    LeastUnique(Candidates(own, mdir.value, inode), LeastOf(Candidates(own, mdir.value, inode)), base);
    CompareZero(base, own);
    if Compare(base, own) == 0 {
      return None;
    }
    ghost var whole := dir + "/" + base;
    assert whole[slash + 1..] == base;
    return Some(dir + "/" + base);
  }

  /** The order in which a directory lists its names does not matter. */
  lemma ListingOrderIrrelevant(fs: FileSystem, other: FileSystem, file: string, ino: nat)
    requires var slash := LastIndexOf(file, '/');
             slash >= 0 ==>
               && (fs.readdir(file[..slash]).Some? <==> other.readdir(file[..slash]).Some?)
               && (fs.readdir(file[..slash]).Some? ==>
                     forall e :: e in fs.readdir(file[..slash]).value <==> e in other.readdir(file[..slash]).value)
    ensures Hardlinked(fs, file, ino) == Hardlinked(other, file, ino)
  {
    var slash := LastIndexOf(file, '/');
    if slash >= 0 && fs.readdir(file[..slash]).Some? {
      assert Candidates(file[slash + 1..], fs.readdir(file[..slash]).value, ino)
          == Candidates(file[slash + 1..], other.readdir(file[..slash]).value, ino);
    }
  }

  /** Two names that a directory lists for one inode lead to the same name. */
  lemma HardlinkedAgree(fs: FileSystem, dir: string, a: string, b: string, ino: nat)
    requires '/' !in a && '/' !in b
    requires fs.readdir(dir).Some?
    requires Dirent(a, ino) in fs.readdir(dir).value && Dirent(b, ino) in fs.readdir(dir).value
    ensures Hardlinked(fs, dir + "/" + a, ino) == Hardlinked(fs, dir + "/" + b, ino)
  {
    LastIndexOfLast(dir, '/', a);
    LastIndexOfLast(dir, '/', b);
    var list := fs.readdir(dir).value;
    assert Dirent(a, ino).name in Candidates(b, list, ino) && Dirent(b, ino).name in Candidates(a, list, ino);
    assert Candidates(a, list, ino) == Candidates(b, list, ino);
  }

  // Includes

  predicate IsComment(line: string) {
    Take(line, 3) == ".\\\""
  }

  /** The first line that is no comment; "" when there is none. */
  function Directive(lines: seq<string>): string {
    if lines == [] then "" else if IsComment(lines[0]) then Directive(lines[1..]) else lines[0]
  }

  /** A roff comment: the line begins with a dot, a backslash and a double quote. */
  predicate CommentLine(line: string) {
    |line| >= 3 && line[0] == '.' && line[1] == '\\' && line[2] == '"'
  }

  /** Are there n comments in front of the line? */
  predicate CommentsBefore(lines: seq<string>, n: nat, line: string) {
    && n <= |lines| && (forall j :: 0 <= j < n ==> CommentLine(lines[j]))
    && (if n < |lines| then line == lines[n] && !CommentLine(line) else line == "")
  }

  /** The line that decides: the first that is no comment, or "" when all are. */
  ghost predicate Decides(lines: seq<string>, line: string) {
    exists n: nat :: CommentsBefore(lines, n, line)
  }

  lemma CommentIff(line: string)
    ensures IsComment(line) <==> CommentLine(line)
  {
    if |line| >= 3 {
      assert line[..3] == [line[0], line[1], line[2]];
    }
  }

  lemma {:induction false} DirectiveIff(lines: seq<string>, line: string)
    ensures Directive(lines) == line <==> Decides(lines, line)
  {
    hide IsComment, CommentLine;
    if lines == [] {
      assert line == "" ==> CommentsBefore(lines, 0, line);
    } else {
      CommentIff(lines[0]);
      DirectiveIff(lines[1..], line);
      if CommentLine(lines[0]) {
        CommentSkipped(lines, line);
      } else {
        assert line == lines[0] ==> CommentsBefore(lines, 0, line);
      }
    }
  }

  lemma CommentSkipped(lines: seq<string>, line: string)
    requires lines != [] && CommentLine(lines[0])
    ensures Decides(lines, line) <==> Decides(lines[1..], line)
  {
    hide CommentLine;
    if Decides(lines[1..], line) {
      var n: nat :| CommentsBefore(lines[1..], n, line);
      forall j | 0 <= j < n + 1 ensures CommentLine(lines[j]) {
        assert j > 0 ==> lines[j] == lines[1..][j - 1];
      }
      assert CommentsBefore(lines, n + 1, line);
    }
    if Decides(lines, line) {
      var n: nat :| CommentsBefore(lines, n, line);
      assert n > 0;
      assert CommentsBefore(lines[1..], n - 1, line);
    }
  }

  method FindIncludeDirective(fs: FileSystem, path: string) returns (directive: Option<string>)
    ensures directive == if fs.lines(path).None? then None else Some(Directive(fs.lines(path).value))
  {
    var decomp := fs.lines(path);
    if decomp.None? {
      return None;
    }
    var rest := decomp.value;
    while rest != [] && IsComment(rest[0])
      invariant Directive(rest) == Directive(decomp.value)
      decreases |rest|
    {
      rest := rest[1..];
    }
    return Some(if rest == [] then "" else rest[0]);
  }

  /** White space: a blank, a tab, a newline, a vertical tab, a form feed or a carriage return. */
  predicate White(c: char) {
    c in " \t\n\r" || c as int == 11 || c as int == 12
  }

  predicate Run(s: string, space: bool, i: nat, j: nat) {
    i <= j <= |s| && forall k :: i <= k < j ==> White(s[k]) == space
  }

  /**
    * The line is .so and a relative file name from j to k, up to the next white space.  None is needed
    * after .so: a line that begins with .soelim includes the file elim.
    */
  predicate IsInclude(line: string, i: nat, j: nat, k: nat) {
    && Run(line, true, 0, i)
    && i + 3 <= |line| && line[i..i + 3] == ".so"
    && Run(line, true, i + 3, j)
    && (j < |line| ==> !White(line[j]) && line[j] != '/')
    && Run(line, false, j, k)
    && (k < |line| ==> White(line[k]))
  }

  ghost predicate Includes(line: string, inc: string) {
    exists i: nat, j: nat, k: nat :: IsInclude(line, i, j, k) && inc == line[j..k]
  }

  /** Where the run of characters that are (or are not) white space from i on ends. */
  function RunEnd(s: string, space: bool, i: nat): (j: nat)
    requires i <= |s|
    ensures Run(s, space, i, j)
    ensures j < |s| ==> White(s[j]) != space
    decreases |s| - i
  {
    if i < |s| && IsSpace(s[i]) == space then RunEnd(s, space, i + 1) else i
  }

  function IncludeOf(line: string): Option<string> {
    var i := RunEnd(line, true, 0);
    if Take(line[i..], 3) != ".so" then None
    else
      assert |line[i..]| >= 3;
      var j := RunEnd(line, true, i + 3);
      if j < |line| && line[j] == '/' then None else Some(line[j..RunEnd(line, false, j)])
  }

  lemma {:induction false} RunEndIs(s: string, space: bool, i: nat, j: nat)
    requires Run(s, space, i, j)
    requires j < |s| ==> White(s[j]) != space
    ensures RunEnd(s, space, i) == j
    decreases j - i
  {
    if i < j { RunEndIs(s, space, i + 1, j); }
  }

  lemma SoAt(line: string, i: nat)
    requires i <= |line|
    ensures Take(line[i..], 3) == ".so" <==> i + 3 <= |line| && line[i..i + 3] == ".so"
    ensures i + 3 <= |line| && line[i..i + 3] == ".so" ==> !White(line[i])
  {
    if i + 3 <= |line| {
      assert line[i] == line[i..i + 3][0];
      assert line[i..][..3] == line[i..i + 3];
    }
  }

  /** test_for_include reads exactly the lines of the form .so file. */
  lemma IncludeOfIff(line: string, inc: string)
    ensures IncludeOf(line) == Some(inc) <==> Includes(line, inc)
  {
    hide White, IsSpace, RunEnd, Take;
    if IncludeOf(line) == Some(inc) {
      var i := RunEnd(line, true, 0);
      SoAt(line, i);
      var j := RunEnd(line, true, i + 3);
      assert IsInclude(line, i, j, RunEnd(line, false, j));
    }
    forall i: nat, j: nat, k: nat | IsInclude(line, i, j, k) && inc == line[j..k]
      ensures IncludeOf(line) == Some(inc)
    {
      SoAt(line, i);
      RunEndIs(line, true, 0, i);
      RunEndIs(line, true, i + 3, j);
      RunEndIs(line, false, j, k);
    }
  }

  /** test_for_include, with the two pointers as positions. */
  method TestForInclude(line: string) returns (r: Option<string>)
    ensures r == IncludeOf(line)
    ensures r.Some? ==> Includes(line, r.value)
    ensures r.None? ==> forall inc :: !Includes(line, inc)
  {
    hide Includes, IsSpace;
    forall inc ensures IncludeOf(line) == Some(inc) <==> Includes(line, inc) {
      IncludeOfIff(line, inc);
    }
    var buffer := 0;
    while buffer < |line| && IsSpace(line[buffer])
      invariant buffer <= |line| && RunEnd(line, true, 0) == RunEnd(line, true, buffer)
    {
      buffer := buffer + 1;
    }
    if Take(line[buffer..], 3) == ".so" {
      assert |line[buffer..]| >= 3;
      buffer := buffer + 3;
      ghost var start := buffer;
      while buffer < |line| && IsSpace(line[buffer])
        invariant start <= buffer <= |line| && RunEnd(line, true, start) == RunEnd(line, true, buffer)
      {
        buffer := buffer + 1;
      }
      if !(buffer < |line| && line[buffer] == '/') {
        var end := buffer;
        while end < |line| && !IsSpace(line[end])
          invariant buffer <= end <= |line| && RunEnd(line, false, buffer) == RunEnd(line, false, end)
        {
          end := end + 1;
        }
        return Some(line[buffer..end]);
      }
    }
    return None;
  }

  /** Where an include is looked for: below the tree first, then next to the page. */
  function Target(fs: FileSystem, home: string, path: string, inc: string): Option<string> {
    var target := path + "/" + inc;
    if fs.access(target) then Some(target)
    else
      var compressed := Compression.CompressedFrom(fs.stat, target, 0);
      if compressed.Some? then compressed
      else
        var temp := home + "/" + inc;
        if fs.access(temp) then Some(temp) else Compression.CompressedFrom(fs.stat, temp, 0)
  }

  /** A file an include may stand for; compressed ones are looked for with stat, plain ones with access. */
  datatype Candidate = Candidate(file: string, compressed: bool)

  predicate Exists(fs: FileSystem, c: Candidate) {
    if c.compressed then fs.stat(c.file) else fs.access(c.file)
  }

  /** The include below a directory, then its compressed forms in the order of their suffixes. */
  function Below(dir: string, inc: string): seq<Candidate> {
    [Candidate(dir + "/" + inc, false),
     Candidate(dir + "/" + inc + ".gz", true), Candidate(dir + "/" + inc + ".z", true),
     Candidate(dir + "/" + inc + ".Z", true), Candidate(dir + "/" + inc + ".bz2", true),
     Candidate(dir + "/" + inc + ".xz", true), Candidate(dir + "/" + inc + ".lzma", true),
     Candidate(dir + "/" + inc + ".lz", true), Candidate(dir + "/" + inc + ".zst", true),
     Candidate(dir + "/" + inc + ".zstd", true)]
  }

  /** Is the k-th candidate the first that exists, and is it that file? */
  predicate FirstAt(fs: FileSystem, cs: seq<Candidate>, k: int, file: string) {
    0 <= k < |cs| && cs[k].file == file && Exists(fs, cs[k]) && forall j :: 0 <= j < k ==> !Exists(fs, cs[j])
  }

  ghost predicate FirstExisting(fs: FileSystem, cs: seq<Candidate>, file: string) {
    exists k :: FirstAt(fs, cs, k, file)
  }

  predicate NoneExists(fs: FileSystem, cs: seq<Candidate>) {
    forall j :: 0 <= j < |cs| ==> !Exists(fs, cs[j])
  }

  lemma CompressedStep(onDisk: string -> bool, dir: string, inc: string, i: nat)
    requires i < 9
    ensures |Compression.Suffixes()| == 9 && Below(dir, inc)[i + 1].compressed
    ensures var c := Below(dir, inc)[i + 1].file;
            Compression.CompressedFrom(onDisk, dir + "/" + inc, i)
            == if onDisk(c) then Some(c) else Compression.CompressedFrom(onDisk, dir + "/" + inc, i + 1)
  {
    hide Compression.CompressedFrom;
    var target, ext := dir + "/" + inc, Compression.Suffixes()[i];
    AppendAssociative(target, ".", ext);
    assert Below(dir, inc)[i + 1].file == target + ("." + ext);
    CompressedUnfold(onDisk, target, i);
  }

  lemma CompressedUnfold(onDisk: string -> bool, target: string, i: nat)
    requires i < |Compression.Suffixes()|
    ensures var c := target + "." + Compression.Suffixes()[i];
            Compression.CompressedFrom(onDisk, target, i)
            == if onDisk(c) then Some(c) else Compression.CompressedFrom(onDisk, target, i + 1)
  {
    hide Compression.Suffixes;
  }

  lemma CompressedEnd(onDisk: string -> bool, filename: string)
    ensures |Compression.Suffixes()| == 9 && Compression.CompressedFrom(onDisk, filename, 9) == None
  {
  }

  /** Looking through one list and then another. */
  lemma ThenExisting(fs: FileSystem, cs: seq<Candidate>, more: seq<Candidate>, file: string)
    ensures FirstExisting(fs, cs + more, file)
            <==> FirstExisting(fs, cs, file) || (NoneExists(fs, cs) && FirstExisting(fs, more, file))
    ensures NoneExists(fs, cs + more) <==> NoneExists(fs, cs) && NoneExists(fs, more)
  {
    hide FirstAt, NoneExists;
    var all := cs + more;
    forall k
      ensures k < |cs| ==> (FirstAt(fs, all, k, file) <==> FirstAt(fs, cs, k, file))
      ensures k >= |cs| ==> (FirstAt(fs, all, k, file) <==> NoneExists(fs, cs) && FirstAt(fs, more, k - |cs|, file))
    {
      FirstInJoined(fs, cs, more, k, file);
    }
    NoneInJoined(fs, cs, more);
    if FirstExisting(fs, cs, file) {
      var k :| FirstAt(fs, cs, k, file);
      FirstInRange(fs, cs, k, file);
      assert FirstAt(fs, all, k, file);
    }
    if NoneExists(fs, cs) && FirstExisting(fs, more, file) {
      var k :| FirstAt(fs, more, k, file);
      FirstInRange(fs, more, k, file);
      assert FirstAt(fs, more, |cs| + k - |cs|, file);
      assert FirstAt(fs, all, |cs| + k, file);
    }
  }

  lemma FirstInRange(fs: FileSystem, cs: seq<Candidate>, k: int, file: string)
    requires FirstAt(fs, cs, k, file)
    ensures 0 <= k < |cs|
  {
  }

  lemma FirstInJoined(fs: FileSystem, cs: seq<Candidate>, more: seq<Candidate>, k: int, file: string)
    ensures k < |cs| ==> (FirstAt(fs, cs + more, k, file) <==> FirstAt(fs, cs, k, file))
    ensures k >= |cs| ==>
              (FirstAt(fs, cs + more, k, file) <==> NoneExists(fs, cs) && FirstAt(fs, more, k - |cs|, file))
  {
    hide Exists;
    var all := cs + more;
    forall j | 0 <= j < |all| ensures all[j] == if j < |cs| then cs[j] else more[j - |cs|] { }
    if k >= |cs| && FirstAt(fs, all, k, file) {
      forall j | 0 <= j < |cs| ensures !Exists(fs, cs[j]) { assert !Exists(fs, all[j]); }
      forall j | 0 <= j < k - |cs| ensures !Exists(fs, more[j]) { assert !Exists(fs, all[|cs| + j]); }
    }
  }

  lemma NoneInJoined(fs: FileSystem, cs: seq<Candidate>, more: seq<Candidate>)
    ensures NoneExists(fs, cs + more) <==> NoneExists(fs, cs) && NoneExists(fs, more)
  {
    hide Exists;
    var all := cs + more;
    forall j | 0 <= j < |all| ensures all[j] == if j < |cs| then cs[j] else more[j - |cs|] { }
    if NoneExists(fs, all) {
      forall j | 0 <= j < |cs| ensures !Exists(fs, cs[j]) { assert !Exists(fs, all[j]); }
      forall j | 0 <= j < |more| ensures !Exists(fs, more[j]) { assert !Exists(fs, all[|cs| + j]); }
    }
  }

  /** One candidate. */
  lemma OneCandidate(fs: FileSystem, c: Candidate, file: string)
    ensures FirstExisting(fs, [c], file) <==> Exists(fs, c) && file == c.file
    ensures NoneExists(fs, [c]) <==> !Exists(fs, c)
  {
    assert [c][0] == c;
    assert Exists(fs, c) ==> FirstAt(fs, [c], 0, c.file);
  }

  lemma {:induction false} CompressedAt(fs: FileSystem, dir: string, inc: string, i: nat, file: string)
    requires i <= 9
    ensures |Compression.Suffixes()| == 9
    ensures var r := Compression.CompressedFrom(fs.stat, dir + "/" + inc, i);
            var cs := Below(dir, inc)[i + 1..];
            (r == Some(file) <==> FirstExisting(fs, cs, file)) && (r == None <==> NoneExists(fs, cs))
    decreases 9 - i
  {
    hide Compression.CompressedFrom, Compression.Suffixes, FirstExisting, NoneExists;
    var cs := Below(dir, inc);
    if i == 9 {
      CompressedEnd(fs.stat, dir + "/" + inc);
      assert cs[10..] == [];
      NoCandidate(fs, file);
    } else {
      CompressedStep(fs.stat, dir, inc, i);
      CompressedAt(fs, dir, inc, i + 1, file);
      assert cs[i + 1..] == [cs[i + 1]] + cs[i + 2..];
      assert |cs| == 10;
      OneCandidate(fs, cs[i + 1], file);
      ThenExisting(fs, [cs[i + 1]], cs[i + 2..], file);
    }
  }

  lemma NoCandidate(fs: FileSystem, file: string)
    ensures NoneExists(fs, []) && !FirstExisting(fs, [], file)
  {
  }

  lemma BelowIff(fs: FileSystem, dir: string, inc: string, file: string)
    ensures |Compression.Suffixes()| == 9
    ensures var target := dir + "/" + inc;
            var r := if fs.access(target) then Some(target) else Compression.CompressedFrom(fs.stat, target, 0);
            && (r == Some(file) <==> FirstExisting(fs, Below(dir, inc), file))
            && (r == None <==> NoneExists(fs, Below(dir, inc)))
  {
    hide Compression.CompressedFrom, Compression.Suffixes, FirstExisting, NoneExists;
    var cs := Below(dir, inc);
    CompressedAt(fs, dir, inc, 0, file);
    assert cs == [cs[0]] + cs[1..];
    OneCandidate(fs, cs[0], file);
    ThenExisting(fs, [cs[0]], cs[1..], file);
  }

  /** find_include takes the first of the twenty candidates that exists: below the tree, then next to the page. */
  lemma TargetIff(fs: FileSystem, home: string, path: string, inc: string, file: string)
    ensures Target(fs, home, path, inc) == Some(file)
            <==> FirstExisting(fs, Below(path, inc) + Below(home, inc), file)
    ensures Target(fs, home, path, inc) == None <==> NoneExists(fs, Below(path, inc) + Below(home, inc))
  {
    hide Compression.CompressedFrom, FirstExisting, NoneExists, Below;
    BelowIff(fs, path, inc, file);
    BelowIff(fs, home, inc, file);
    ThenExisting(fs, Below(path, inc), Below(home, inc), file);
    ExistingIsOne(fs, Below(path, inc), file);
  }

  lemma ExistingIsOne(fs: FileSystem, cs: seq<Candidate>, file: string)
    ensures !(FirstExisting(fs, cs, file) && NoneExists(fs, cs))
  {
  }

  method FindInclude(fs: FileSystem, table: Compression.Table, name: string, path: string, inc: string)
    returns (r: Option<string>)
    requires table.Valid()
    modifies table.list
    ensures var t := Target(fs, DirName(name), path, inc);
            r == if t.None? then None else fs.canonicalize(t.value)
  {
    var target := Some(path + "/" + inc);
    if !fs.access(target.value) {
      var comp := table.CompFile(fs.stat, target.value);
      if comp != null {
        target := comp.stem;
        comp.stem := None;
      } else {
        target := None;
      }
    }
    if target.None? {
      var tempFile := DirName(name) + "/" + inc;
      if fs.access(tempFile) {
        target := Some(tempFile);
      } else {
        var comp := table.CompFile(fs.stat, tempFile);
        if comp != null {
          target := comp.stem;
          comp.stem := None;
        }
      }
    }
    if target.None? {
      return None;
    }
    r := fs.canonicalize(target.value);
  }
}
