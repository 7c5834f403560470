/**
  * File names of manual pages: lib/filenames.c make_filename and filename_info.
  */
module Filenames {
  import opened Wrappers
  import opened CString
  import opened Paths
  import opened Record
  import Compression

  /** What a file name says about a page. */
  datatype Parsed = Parsed(name: string, ext: string, sec: string, comp: Option<string>)

  /** The last component make_filename builds; a comp of "-" stands for none. */
  function Base(p: Parsed): string {
    p.name + "." + p.ext +
    if p.comp.Some? && (p.comp.value == "" || p.comp.value[0] != '-') then "." + p.comp.value else ""
  }

  function FileName(path: string, kind: string, p: Parsed): string {
    path + "/" + (kind + p.sec) + "/" + Base(p)
  }

  /** make_filename: None when the file is not readable; an absent name is taken from the structure. */
  method MakeFilename(readable: string -> bool, path: string, name: Option<string>, info: Mandata, kind: string)
    returns (file: Option<string>)
    requires name.None? ==> info.name.Some?
    ensures var p := Parsed(if name.Some? then name.value else info.name.value, info.ext, info.sec, info.comp);
            var f := FileName(path, kind, p);
            file == if readable(f) then Some(f) else None
  {
    var n := if name.Some? then name.value else info.name.value;
    var f := path + "/" + (kind + info.sec) + "/" + (n + "." + info.ext);
    if info.comp.Some? && (info.comp.value == "" || info.comp.value[0] != '-') {
      f := f + ("." + info.comp.value);
    }
    assert f + "" == f;
    ghost var tail := if info.comp.Some? && (info.comp.value == "" || info.comp.value[0] != '-')
                      then "." + info.comp.value else "";
    AppendAssociative(path + "/" + (kind + info.sec) + "/", n + "." + info.ext, tail);
    if !readable(f) {
      return None;
    }
    return Some(f);
  }

  /** filename_info reads past three bytes of the last component of the directory ("man"). */
  predicate InSectionDirectory(file: string) {
    var dir := DirName(file);
    '/' in dir && LastIndexOf(dir, '/') + 4 <= |dir|
  }

  function SectionOf(file: string): string
    requires InSectionDirectory(file)
  {
    var dir := DirName(file);
    assert '/' in dir ==> LastIndexOf(dir, '/') >= 0;
    dir[LastIndexOf(dir, '/') + 4..]
  }

  /** A file name taken apart; None for a bogus one. */
  function Parse(file: string): Option<Parsed>
    requires InSectionDirectory(file)
  {
    var base := BaseName(file);
    var c := Compression.Split(base);
    var stem := if c.Some? then c.value.0 else base;
    var dot := LastIndexOf(stem, '.');
    var sec := SectionOf(file);
    if dot < 0 || dot == |stem| - 1 || (sec != "" && sec[0] != stem[dot + 1]) then None
    else Some(Parsed(stem[..dot], stem[dot + 1..], sec, if c.Some? then Some(c.value.1) else None))
  }

  /** filename_info, with the warnings left out. */
  method FilenameInfo(table: Compression.Table, file: string) returns (info: Mandata?)
    requires table.Valid() && InSectionDirectory(file)
    modifies table.list, table.hpux
    ensures info == null <==> Parse(file).None?
    ensures info != null ==> fresh(info) && info.name.Some?
    ensures info != null ==> Parse(file) == Some(Parsed(info.name.value, info.ext, info.sec, info.comp))
  {
    hide DirName, BaseName, InSectionDirectory, SectionOf;
    hide Compression.Split, Compression.IsSuffix, Compression.Suffixes;
    info := new Mandata(Info(None, "", "", Time(0, 0), '\0', None, None, None, None));
    var basename := BaseName(file);
    var comp := table.CompInfo(basename, true);
    if comp != null {
      info.comp := Some(comp.ext);
      basename := comp.stem.value;
      comp.stem := None;
    } else {
      info.comp := None;
    }
    var ext := LastIndexOf(basename, '.');
    if ext < 0 {
      return null;
    }
    info.ext := basename[ext + 1..];
    basename := basename[..ext];
    if info.ext == "" {
      return null;
    }
    info.sec := SectionOf(file);
    if |info.sec| >= 1 && |info.ext| >= 1 && info.sec[0] != info.ext[0] {
      return null;
    }
    info.name := Some(basename);
  }

  /** Is the page one whose file name says everything about it? */
  predicate Faithful(p: Parsed) {
    && p.ext != "" && '.' !in p.ext
    && (p.sec == "" || p.sec[0] == p.ext[0])
    && (if p.comp.Some? then Compression.IsSuffix(p.comp.value) else !Compression.IsSuffix(p.ext))
  }

  /** Cutting a string at its last dot. */
  lemma CutIff(stem: string, name: string, ext: string)
    ensures (var dot := LastIndexOf(stem, '.'); dot >= 0 && name == stem[..dot] && ext == stem[dot + 1..])
            <==> stem == name + "." + ext && '.' !in ext
  {
    var dot := LastIndexOf(stem, '.');
    assert dot >= 0 ==> stem == stem[..dot] + "." + stem[dot + 1..] && '.' !in stem[dot + 1..];
    if '.' !in ext {
      LastIndexOfLast(name, '.', ext);
    }
  }

  /** Cutting a base name at its suffix and its last dot. */
  lemma BaseIff(base: string, p: Parsed)
    requires '/' !in base
    ensures var c := Compression.Split(base);
            var stem := if c.Some? then c.value.0 else base;
            var dot := LastIndexOf(stem, '.');
            (&& dot >= 0 && p.name == stem[..dot] && p.ext == stem[dot + 1..] && p.ext != ""
             && p.comp == if c.Some? then Some(c.value.1) else None)
            <==>
            (&& Base(p) == base && p.ext != "" && '.' !in p.ext
             && (if p.comp.Some? then Compression.IsSuffix(p.comp.value) else !Compression.IsSuffix(p.ext)))
  {
    hide Compression.Split, Compression.IsSuffix;
    var c := Compression.Split(base);
    var stem := if c.Some? then c.value.0 else base;
    var plain := p.name + "." + p.ext;
    assert plain + "" == plain;
    CutIff(stem, p.name, p.ext);
    if c.Some? {
      Compression.SplitIff(base, c.value.0, c.value.1);
      Compression.SuffixShape(c.value.1);
      CutIff(base, c.value.0, c.value.1);
      CutIff(base, p.name, p.ext);
    } else {
      Compression.SplitIff(base, p.name, p.ext);
    }
    if p.comp.Some? {
      Compression.SplitIff(base, plain, p.comp.value);
      if Compression.IsSuffix(p.comp.value) { Compression.SuffixShape(p.comp.value); }
      AppendAssociative(plain, ".", p.comp.value);
    }
  }

  lemma SectionDirectory(path: string, sec: string, base: string)
    requires '/' !in sec && '/' !in base && base != ""
    ensures var file := path + "/" + ("man" + sec) + "/" + base;
            InSectionDirectory(file) && SectionOf(file) == sec && BaseName(file) == base
  {
    hide DirName, BaseName;
    var man := "man" + sec;
    var dir := path + "/" + man;
    assert dir[|dir| - 1] == man[|man| - 1];
    assert man[|man| - 1] == 'n' || man[|man| - 1] in sec;
    DirNameOf(dir, base);
    BaseNameOf(dir, base);
    LastIndexOfLast(path, '/', man);
    assert dir[|path| + 4..] == sec;
  }

  /** Parsing succeeds exactly on the base names that Base composes from a faithful description. */
  lemma FileParseIff(file: string, p: Parsed)
    requires InSectionDirectory(file) && '/' !in BaseName(file)
    ensures Parse(file) == Some(p) <==> p.sec == SectionOf(file) && Base(p) == BaseName(file) && Faithful(p)
  {
    hide Compression.Split, DirName, BaseName, Compression.IsSuffix, InSectionDirectory, SectionOf, Base;
    BaseIff(BaseName(file), p);
  }

  /** The description as the index gives it back: make_content writes "-" for no suffix. */
  function AsStored(p: Parsed): Parsed {
    p.(comp := if p.comp.None? then Some("-") else p.comp)
  }

  lemma StoredBase(p: Parsed)
    ensures Base(AsStored(p)) == Base(p)
  {
  }

  /**
    * The file-name round trip, both ways: for a file in a section directory, filename_info gives p
    * exactly when make_filename turns p back into the file and p is faithful; so it does after p has
    * been stored in the index and read back.
    */
  lemma ParseIff(path: string, sec: string, base: string, p: Parsed)
    requires '/' !in sec && '/' !in base && base != ""
    ensures InSectionDirectory(path + "/" + ("man" + sec) + "/" + base)
    ensures var file := path + "/" + ("man" + sec) + "/" + base;
            Parse(file) == Some(p) <==> p.sec == sec && Base(p) == base && Faithful(p)
    ensures var file := path + "/" + ("man" + sec) + "/" + base;
            Parse(file) == Some(p) ==> FileName(path, "man", p) == file
    ensures var file := path + "/" + ("man" + sec) + "/" + base;
            Parse(file) == Some(p) ==> FileName(path, "man", AsStored(p)) == file
  {
    hide Parse, Base, Faithful, DirName, BaseName, InSectionDirectory, SectionOf;
    StoredBase(p);
    SectionDirectory(path, sec, base);
    FileParseIff(path + "/" + ("man" + sec) + "/" + base, p);
  }
}
