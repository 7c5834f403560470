/**
  * Compression suffixes: lib/compression.c, with every supported decompressor configured in.
  */
module Compression {
  import opened Wrappers
  import opened CString

  /** The suffixes of comp_list in order. */
  function Suffixes(): seq<string> {
    ["gz", "z", "Z", "bz2", "xz", "lzma", "lz", "zst", "zstd"]
  }

  predicate IsSuffix(ext: string) {
    ext in Suffixes()
  }

  lemma SuffixShape(ext: string)
    requires IsSuffix(ext)
    ensures ext != "" && '.' !in ext && '/' !in ext && ext[0] != '-'
  {
  }

  lemma KnownSuffix(ext: string)
    ensures IsSuffix(ext) <==> ext in {"gz", "z", "Z", "bz2", "xz", "lzma", "lz", "zst", "zstd"}
  {
  }

  /** The stem and the suffix that comp_info finds. */
  function Split(filename: string): Option<(string, string)> {
    var dot := LastIndexOf(filename, '.');
    if dot >= 0 && IsSuffix(filename[dot + 1..]) then Some((filename[..dot], filename[dot + 1..]))
    else
      match Find(filename, ".Z/")
      case Some(i) => Some((filename[..i], ""))
      case None => None
  }

  lemma PartOf(t: string, s: string, c: char)
    requires t <= s && c in t
    ensures c in s
  {
    assert s[..|t|] == t;
  }

  lemma FoundHasSlash(filename: string)
    requires Find(filename, ".Z/").Some?
    ensures '/' in filename
  {
    hide Find;
    var i := Find(filename, ".Z/").value;
    assert ".Z/"[2] == '/';
    PartOf(".Z/", filename[i..], '/');
  }

  lemma NoSlashNotFound(filename: string)
    requires '/' !in filename
    ensures Find(filename, ".Z/").None?
  {
    hide Find;
    if Find(filename, ".Z/").Some? {
      FoundHasSlash(filename);
    }
  }

  lemma CutAt(s: string, i: nat)
    requires i < |s| && s[i] == '.'
    ensures s == s[..i] + "." + s[i + 1..]
  {
  }

  /** A file name without slashes has a compression suffix exactly when it is a stem, a dot and the suffix. */
  lemma SplitIff(filename: string, stem: string, ext: string)
    requires '/' !in filename
    ensures Split(filename) == Some((stem, ext)) <==> IsSuffix(ext) && filename == stem + "." + ext
    ensures IsSuffix(ext) <==> ext in {"gz", "z", "Z", "bz2", "xz", "lzma", "lz", "zst", "zstd"}
  {
    hide IsSuffix, Find;
    KnownSuffix(ext);
    var dot := LastIndexOf(filename, '.');
    NoSlashNotFound(filename);
    if dot >= 0 {
      CutAt(filename, dot);
    }
    if IsSuffix(ext) && filename == stem + "." + ext {
      SuffixShape(ext);
      LastIndexOfLast(stem, '.', ext);
    }
  }

  /** The first of the suffixes from i on under which the file exists compressed. */
  function CompressedFrom(onDisk: string -> bool, filename: string, i: nat): Option<string>
    requires i <= |Suffixes()|
    decreases |Suffixes()| - i
  {
    if i == |Suffixes()| then None
    else if onDisk(filename + "." + Suffixes()[i]) then Some(filename + "." + Suffixes()[i])
    else CompressedFrom(onDisk, filename, i + 1)
  }

  class Entry {
    const ext: string
    var stem: Option<string>

    constructor (ext: string)
      ensures this.ext == ext && stem == None
    {
      this.ext := ext;
      stem := None;
    }
  }

  /** comp_list and the entry that comp_info keeps for HP-UX directories. */
  class Table {
    const list: seq<Entry>
    const hpux: Entry

    ghost predicate Valid() {
      && |list| == |Suffixes()|
      && (forall i :: 0 <= i < |list| ==> list[i].ext == Suffixes()[i])
      && hpux.ext == "" && hpux !in list
    }

    constructor ()
      ensures Valid() && fresh(hpux) && forall e :: e in list ==> fresh(e)
    {
      var l: seq<Entry> := [];
      for i := 0 to |Suffixes()|
        invariant |l| == i && forall j :: 0 <= j < i ==> l[j].ext == Suffixes()[j]
        invariant forall e :: e in l ==> fresh(e)
      {
        var e := new Entry(Suffixes()[i]);
        l := l + [e];
      }
      list := l;
      hpux := new Entry("");
    }

    /** comp_info returns an entry that belongs to the table and changes the stem of no other. */
    method CompInfo(filename: string, wantStem: bool) returns (comp: Entry?)
      requires Valid()
      modifies list, hpux
      ensures comp == null <==> Split(filename).None?
      ensures comp != null ==> (comp in list || comp == hpux) && comp.ext == Split(filename).value.1
      ensures comp != null ==> comp.stem == if wantStem then Some(Split(filename).value.0) else None
      ensures forall e :: (e in list || e == hpux) && e != comp ==> e.stem == old(e.stem)
    {
      hide Suffixes;
      var ext := LastIndexOf(filename, '.');
      if ext >= 0 {
        for i := 0 to |list|
          invariant filename[ext + 1..] !in Suffixes()[..i]
          invariant forall e :: e in list || e == hpux ==> e.stem == old(e.stem)
        {
          comp := list[i];
          if comp.ext == filename[ext + 1..] {
            comp.stem := if wantStem then Some(filename[..ext]) else None;
            return comp;
          }
        }
        assert Suffixes()[..|list|] == Suffixes();
      }
      var z := Find(filename, ".Z/");
      if z.Some? {
        hpux.stem := if wantStem then Some(filename[..z.value]) else None;
        return hpux;
      }
      return null;
    }

    /** comp_file: the entry of the first suffix under which the file exists, its stem the whole name. */
    method CompFile(onDisk: string -> bool, filename: string) returns (comp: Entry?)
      requires Valid()
      modifies list
      ensures comp == null <==> CompressedFrom(onDisk, filename, 0).None?
      ensures comp != null ==> comp in list && comp.stem == CompressedFrom(onDisk, filename, 0)
      ensures forall e :: e in list && e != comp ==> e.stem == old(e.stem)
    {
      hide Suffixes;
      for i := 0 to |list|
        invariant CompressedFrom(onDisk, filename, 0) == CompressedFrom(onDisk, filename, i)
        invariant forall e :: e in list ==> e.stem == old(e.stem)
      {
        comp := list[i];
        var compfile := filename + "." + comp.ext;
        if onDisk(compfile) {
          comp.stem := Some(compfile);
          return comp;
        }
      }
      return null;
    }
  }
}
