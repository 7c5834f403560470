/**
  * File names as the gnulib functions dir_name and base_name take them apart.
  */
module Paths {
  import opened CString

  /** s up to position n, less the slashes before n but never shorter than low. */
  function TrimTo(s: string, n: nat, low: nat): string
    requires n <= |s|
  {
    if low < n && s[n - 1] == '/' then TrimTo(s, n - 1, low) else s[..n]
  }

  /** Where the last component of a file name begins; trailing slashes belong to it. */
  function LastComponent(file: string): (n: nat)
    ensures n <= |file|
  {
    var t := TrimTo(file, |file|, 0);
    if t == "" then |file|
    else
      TrimShorter(file, |file|, 0);
      LastIndexOf(t, '/') + 1
  }

  lemma TrimShorter(s: string, n: nat, low: nat)
    requires n <= |s|
    ensures |TrimTo(s, n, low)| <= n
  {
  }

  function DirName(file: string): string {
    var root := if file != "" && file[0] == '/' then 1 else 0;
    var d := TrimTo(file, LastComponent(file), root);
    if d == "" then "." else d
  }

  function BaseName(file: string): string {
    var base := file[LastComponent(file)..];
    if base == "" then TrimTo(file, |file|, 1)
    else
      var t := TrimTo(base, |base|, 0);
      if |t| < |base| then t + "/" else t
  }

  lemma {:induction false} LastComponentOf(dir: string, base: string)
    requires base != "" && '/' !in base
    ensures LastComponent(dir + "/" + base) == |dir| + 1
  {
    var file := dir + "/" + base;
    assert file[|file| - 1] == base[|base| - 1];
    assert file[..|file|] == file;
    LastIndexOfLast(dir, '/', base);
  }

  lemma BaseNameOf(dir: string, base: string)
    requires base != "" && '/' !in base
    ensures BaseName(dir + "/" + base) == base
  {
    var file := dir + "/" + base;
    LastComponentOf(dir, base);
    assert file[|dir| + 1..] == base;
    assert base[..|base|] == base;
    assert base[|base| - 1] in base;
  }

  lemma {:induction false} TrimSame(s: string, t: string, n: nat, low: nat)
    requires n <= |s| && n <= |t| && s[..n] == t[..n]
    ensures TrimTo(s, n, low) == TrimTo(t, n, low)
  {
    if low < n {
      assert s[n - 1] == s[..n][n - 1] && t[n - 1] == t[..n][n - 1];
      assert s[..n - 1] == s[..n][..n - 1] && t[..n - 1] == t[..n][..n - 1];
      TrimSame(s, t, n - 1, low);
    }
  }

  /** Files of one directory have the same dir_name. */
  lemma DirNameSame(dir: string, a: string, b: string)
    requires a != "" && '/' !in a
    requires b != "" && '/' !in b
    ensures DirName(dir + "/" + a) == DirName(dir + "/" + b)
  {
    var s, t := dir + "/" + a, dir + "/" + b;
    LastComponentOf(dir, a);
    LastComponentOf(dir, b);
    assert s[..|dir| + 1] == dir + "/" == t[..|dir| + 1];
    assert s[0] == (dir + "/")[0] == t[0];
    TrimSame(s, t, |dir| + 1, if s[0] == '/' then 1 else 0);
  }

  lemma {:induction false} TrimSlashes(s: string, n: nat, low: nat, m: nat)
    requires low <= m <= n <= |s| && (forall k :: m <= k < n ==> s[k] == '/') && (m > low ==> s[m - 1] != '/')
    ensures TrimTo(s, n, low) == s[..m]
  {
    if m < n { TrimSlashes(s, n - 1, low, m); }
  }

  /** A file in the root directory, below a directory with any number of slashes, and without a directory. */
  lemma DirNameCases(dir: string, slashes: string, base: string)
    requires base != "" && '/' !in base && forall k :: 0 <= k < |slashes| ==> slashes[k] == '/'
    ensures DirName(slashes + "/" + base) == "/"
    ensures dir != "" && dir[|dir| - 1] != '/' ==> DirName(dir + slashes + "/" + base) == dir
    ensures DirName(base) == "."
  {
    hide TrimTo;
    var root, file := slashes + "/" + base, dir + slashes + "/" + base;
    LastComponentOf(slashes, base);
    LastComponentOf(dir + slashes, base);
    assert root[0] == '/' && root[..1] == "/";
    TrimSlashes(root, |slashes| + 1, 1, 1);
    if dir != "" && dir[|dir| - 1] != '/' {
      assert file[|dir| - 1] == dir[|dir| - 1] && file[..|dir|] == dir;
      TrimSlashes(file, |dir| + |slashes| + 1, if file[0] == '/' then 1 else 0, |dir|);
    }
    LastComponentAlone(base);
  }

  /** The last component of a file name keeps one trailing slash. */
  lemma BaseNameCases(dir: string, base: string, slashes: string)
    requires base != "" && '/' !in base && forall k :: 0 <= k < |slashes| ==> slashes[k] == '/'
    ensures BaseName(dir + "/" + base + slashes) == base + if slashes == "" then "" else "/"
  {
    hide TrimTo;
    var whole, file := dir + "/" + base, dir + "/" + base + slashes;
    assert base[|base| - 1] in base && whole[|whole| - 1] == base[|base| - 1];
    assert file[|whole| - 1] == whole[|whole| - 1] && file[..|whole|] == whole;
    TrimSlashes(file, |file|, 0, |whole|);
    LastIndexOfLast(dir, '/', base);
    var last := base + slashes;
    assert file[|dir| + 1..] == last;
    assert last[|base| - 1] == base[|base| - 1] && last[..|base|] == base;
    TrimSlashes(last, |last|, 0, |base|);
  }

  lemma LastComponentAlone(base: string)
    requires base != "" && '/' !in base
    ensures DirName(base) == "."
  {
    assert base[|base| - 1] in base && base[0] in base;
    assert base[..|base|] == base;
    assert LastIndexOf(base, '/') == -1;
  }

  /** The dir_name of a file in a directory that is not written with a trailing slash. */
  lemma DirNameOf(dir: string, base: string)
    requires base != "" && '/' !in base
    requires dir != "" && dir[|dir| - 1] != '/'
    ensures DirName(dir + "/" + base) == dir
  {
    var file := dir + "/" + base;
    LastComponentOf(dir, base);
    var root := if file[0] == '/' then 1 else 0;
    assert file[|dir|] == '/' && file[|dir| - 1] == dir[|dir| - 1];
    assert TrimTo(file, |dir| + 1, root) == TrimTo(file, |dir|, root) == file[..|dir|] == dir;
  }
}
