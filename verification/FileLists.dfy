/** Verilog file lists: what the writer prints, the reader reads back. */
module FileLists {
  import opened Ordering
  import opened RelPaths
  import opened Streams

  // ------------------------------------------------------------------ content

  /** What one resolved fileset contributes; paths are already resolved. */
  datatype Fileset = Fileset(lib: string, name: string, idirs: seq<string>, defines: seq<string>,
    files: seq<(string, seq<string>)>)

  /** One thing to print: a comment, or a line that is meant to be read. */
  datatype Item = Header(text: string) | IncDir(path: string) | Define(text: string) | File(path: string)

  function Text(c: Item): string {
    match c
    case Header(t) => t
    case IncDir(p) => "+incdir+" + p
    case Define(d) => "+define+" + d
    case File(p) => p
  }

  function IncDirs(paths: seq<string>): seq<Item> {
    seq(|paths|, i requires 0 <= i < |paths| => IncDir(paths[i]))
  }

  function Defines(defines: seq<string>): seq<Item> {
    seq(|defines|, i requires 0 <= i < |defines| => Define(defines[i]))
  }

  function Files(paths: seq<string>): seq<Item> {
    seq(|paths|, i requires 0 <= i < |paths| => File(paths[i]))
  }

  /** A group is announced when comments are asked for and it is not empty. */
  function Section(title: string, items: seq<Item>, comments: bool): seq<Item> {
    if items == [] then [] else (if comments then [Header(title)] else []) + items
  }

  function Title(f: Fileset, what: string): string {
    f.lib + " / " + f.name + " / " + what
  }

  function FileSection(f: Fileset, group: (string, seq<string>), comments: bool): seq<Item> {
    Section(Title(f, group.0 + " files"), Files(group.1), comments)
  }

  function FileSections(f: Fileset, groups: seq<(string, seq<string>)>, comments: bool): seq<Item> {
    if groups == [] then []
    else FileSections(f, groups[..|groups| - 1], comments) + FileSection(f, groups[|groups| - 1], comments)
  }

  function Items(f: Fileset, comments: bool): seq<Item> {
    Section(Title(f, "include directories"), IncDirs(f.idirs), comments)
    + Section(Title(f, "defines"), Defines(f.defines), comments)
    + FileSections(f, f.files, comments)
  }

  function AllItems(fs: seq<Fileset>, comments: bool): seq<Item> {
    if fs == [] then [] else AllItems(fs[..|fs| - 1], comments) + Items(fs[|fs| - 1], comments)
  }

  // ------------------------------------------------------------------- writing

  /** The texts printed as lines to be read. */
  function Texts(items: seq<Item>): set<string> {
    set c | c in items && !c.Header? :: Text(c)
  }

  /** A text that was printed before is only repeated as a comment. */
  function Line(c: Item, before: seq<Item>): string {
    if c.Header? || Text(c) in Texts(before) then "// " + Text(c) + "\n" else Text(c) + "\n"
  }

  function Content(items: seq<Item>): string {
    if items == [] then ""
    else Content(items[..|items| - 1]) + Line(items[|items| - 1], items[..|items| - 1])
  }

  class Writer {
    var content: string
    var written: set<string>

    ghost predicate Wrote(items: seq<Item>)
      reads this
    {
      content == Content(items) && written == Texts(items)
    }

    constructor ()
      ensures Wrote([])
    {
      content, written := "", {};
    }

    method Write(cmd: string)
      modifies this
      ensures content == old(content) + (if cmd in old(written) then "// " + cmd + "\n" else cmd + "\n")
      ensures written == old(written) + {cmd}
    {
      if cmd in written {
        content := content + ("// " + cmd + "\n");
      } else {
        written := written + {cmd};
        content := content + (cmd + "\n");
      }
    }

    method WriteHeader(title: string)
      modifies this
      ensures content == old(content) + ("// " + title + "\n") && written == old(written)
    {
      content := content + ("// " + title + "\n");
    }

    method WriteItem(c: Item, ghost before: seq<Item>)
      requires Wrote(before)
      modifies this
      ensures Wrote(before + [c])
    {
      ContentNext(before, c);
      if c.Header? {
        WriteHeader(Text(c));
      } else {
        Write(Text(c));
      }
    }

    method WriteItems(items: seq<Item>, ghost before: seq<Item>)
      requires Wrote(before)
      modifies this
      ensures Wrote(before + items)
    {
      ghost var so := before;
      for i := 0 to |items|
        invariant Wrote(so) && so == before + items[..i]
      {
        WriteItem(items[i], so);
        OneMore(before, items, i);
        so := so + [items[i]];
      }
      assert items[..|items|] == items;
    }

    method WriteSection(title: string, items: seq<Item>, comments: bool, ghost before: seq<Item>)
      requires Wrote(before)
      modifies this
      ensures Wrote(before + Section(title, items, comments))
    {
      SectionIs(title, items, comments, before);
      ghost var so := before;
      if items != [] {
        if comments {
          WriteItem(Header(title), before);
          so := before + [Header(title)];
        }
        WriteItems(items, so);
      }
    }

    method WriteFiles(f: Fileset, comments: bool, ghost before: seq<Item>)
      requires Wrote(before)
      modifies this
      ensures Wrote(before + FileSections(f, f.files, comments))
    {
      assert before + FileSections(f, f.files[..0], comments) == before;
      for i := 0 to |f.files|
        invariant Wrote(before + FileSections(f, f.files[..i], comments))
      {
        FileSectionsNext(f, f.files, i, comments);
        JoinedItems(before, FileSections(f, f.files[..i], comments), FileSection(f, f.files[i], comments));
        WriteSection(Title(f, f.files[i].0 + " files"), Files(f.files[i].1), comments,
          before + FileSections(f, f.files[..i], comments));
      }
      assert f.files[..|f.files|] == f.files;
    }

    method WriteFileset(f: Fileset, comments: bool, ghost before: seq<Item>)
      requires Wrote(before)
      modifies this
      ensures Wrote(before + Items(f, comments))
    {
      ghost var idirs, defines := Section(Title(f, "include directories"), IncDirs(f.idirs), comments),
        Section(Title(f, "defines"), Defines(f.defines), comments);
      WriteSection(Title(f, "include directories"), IncDirs(f.idirs), comments, before);
      WriteSection(Title(f, "defines"), Defines(f.defines), comments, before + idirs);
      WriteFiles(f, comments, before + idirs + defines);
      Regroup(before, idirs, defines, FileSections(f, f.files, comments));
    }
  }

  lemma OneMore<T>(before: seq<T>, items: seq<T>, i: nat)
    requires i < |items|
    ensures before + items[..i] + [items[i]] == before + items[..i + 1]
  {
  }

  lemma SectionIs(title: string, items: seq<Item>, comments: bool, before: seq<Item>)
    ensures before + Section(title, items, comments)
      == if items == [] then before else if comments then before + [Header(title)] + items else before + items
  {
  }

  lemma Regroup<T>(a: seq<T>, b: seq<T>, c: seq<T>, d: seq<T>)
    ensures a + b + c + d == a + (b + c + d)
  {
  }

  lemma FileSectionsNext(f: Fileset, groups: seq<(string, seq<string>)>, i: nat, comments: bool)
    requires i < |groups|
    ensures FileSections(f, groups[..i + 1], comments)
      == FileSections(f, groups[..i], comments) + FileSection(f, groups[i], comments)
  {
    var so := groups[..i + 1];
    assert so[..i] == groups[..i] && so[i] == groups[i];
  }

  lemma JoinedItems<T>(a: seq<T>, b: seq<T>, c: seq<T>)
    ensures a + b + c == a + (b + c)
  {
  }

  lemma ContentNext(items: seq<Item>, c: Item)
    ensures Content(items + [c]) == Content(items) + Line(c, items)
    ensures Texts(items + [c]) == Texts(items) + if c.Header? then {} else {Text(c)}
  {
    assert (items + [c])[..|items|] == items;
  }

  /** The text written for the resolved filesets. */
  method WriteFlist(fs: seq<Fileset>, comments: bool) returns (content: string)
    ensures content == Content(AllItems(fs, comments))
  {
    var w := new Writer();
    for i := 0 to |fs|
      invariant w.Wrote(AllItems(fs[..i], comments))
    {
      w.WriteFileset(fs[i], comments, AllItems(fs[..i], comments));
      assert fs[..i + 1][..i] == fs[..i];
    }
    assert fs[..|fs|] == fs;
    content := w.content;
  }

  // ------------------------------------------------------------ what is printed

  /** A comment line. */
  function Comment(text: string): string {
    "// " + text + "\n"
  }

  /** One more header, or one more line that was not printed before. */
  lemma PrintedNext(items: seq<Item>, c: Item)
    requires c.Header? || forall d :: d in items && !d.Header? ==> Text(d) != Text(c)
    ensures Content(items + [c]) == Content(items) + if c.Header? then Comment(c.text) else Text(c) + "\n"
  {
    ContentNext(items, c);
  }

  /** One group of files among empty ones, announced if comments are asked for. */
  function Sample(lib: string, name: string, idir: string, define: string, kind: string, path: string): Fileset {
    Fileset(lib, name, [idir], [define], [("vhdl", []), (kind, [path])])
  }

  lemma SampleItems(lib: string, name: string, idir: string, define: string, kind: string, path: string)
    ensures AllItems([Sample(lib, name, idir, define, kind, path)], false) == [IncDir(idir), Define(define), File(path)]
    ensures AllItems([Sample(lib, name, idir, define, kind, path)], true) == [
      Header(lib + " / " + name + " / " + "include directories"), IncDir(idir),
      Header(lib + " / " + name + " / " + "defines"), Define(define),
      Header(lib + " / " + name + " / " + (kind + " files")), File(path)]
  {
    var f := Sample(lib, name, idir, define, kind, path);
    forall comments: bool
      ensures AllItems([f], comments) == Items(f, comments)
      ensures FileSections(f, f.files, comments) == FileSection(f, f.files[1], comments)
    {
      assert [f][..0] == [];
      assert AllItems([], comments) == [];
      FileSectionsNext(f, f.files, 0, comments);
      FileSectionsNext(f, f.files, 1, comments);
      assert f.files[..0] == [] && f.files[..2] == f.files;
      assert FileSections(f, [], comments) == [];
    }
    assert IncDirs(f.idirs) == [IncDir(idir)] && Defines(f.defines) == [Define(define)];
    assert Files(f.files[1].1) == [File(path)];
  }

  /** The text of such a fileset: what is announced, in which words, and in which order. */
  lemma SampleText(lib: string, name: string, idir: string, define: string, kind: string, path: string)
    requires path != "+incdir+" + idir && path != "+define+" + define
    ensures var f := Sample(lib, name, idir, define, kind, path);
      && Content(AllItems([f], false)) == "" + ("+incdir+" + idir + "\n") + ("+define+" + define + "\n") + (path + "\n")
      && Content(AllItems([f], true)) == "" + Comment(lib + " / " + name + " / " + "include directories")
        + ("+incdir+" + idir + "\n") + Comment(lib + " / " + name + " / " + "defines") + ("+define+" + define + "\n")
        + Comment(lib + " / " + name + " / " + (kind + " files")) + (path + "\n")
  {
    SampleItems(lib, name, idir, define, kind, path);
    assert ("+incdir+" + idir)[1] == 'i' && ("+define+" + define)[1] == 'd';
    var g, h, i := lib + " / " + name + " / " + "include directories", lib + " / " + name + " / " + "defines",
      lib + " / " + name + " / " + (kind + " files");
    hide AllItems, Content, Comment;
    ThreePrinted(IncDir(idir), Define(define), File(path));
    SixPrinted(g, IncDir(idir), h, Define(define), i, File(path));
  }

  lemma ThreePrinted(a: Item, b: Item, c: Item)
    requires !a.Header? && !b.Header? && !c.Header? && Text(a) != Text(b) && Text(a) != Text(c) && Text(b) != Text(c)
    ensures Content([a, b, c]) == "" + (Text(a) + "\n") + (Text(b) + "\n") + (Text(c) + "\n")
  {
    assert Content([]) == "";
    hide Content, Text;
    assert [] + [a] == [a] && [a] + [b] == [a, b] && [a, b] + [c] == [a, b, c];
    PrintedNext([], a);
    PrintedNext([a], b);
    PrintedNext([a, b], c);
  }

  lemma SixPrinted(g: string, a: Item, h: string, b: Item, i: string, c: Item)
    requires !a.Header? && !b.Header? && !c.Header? && Text(a) != Text(b) && Text(a) != Text(c) && Text(b) != Text(c)
    ensures Content([Header(g), a, Header(h), b, Header(i), c])
      == "" + Comment(g) + (Text(a) + "\n") + Comment(h) + (Text(b) + "\n") + Comment(i) + (Text(c) + "\n")
  {
    assert Content([]) == "";
    var first, second := [Header(g), a], [Header(g), a, Header(h), b];
    assert [] + [Header(g), a] == first && first + [Header(h), b] == second;
    assert second + [Header(i), c] == [Header(g), a, Header(h), b, Header(i), c];
    GroupPrinted([], g, a);
    GroupPrinted(first, h, b);
    GroupPrinted(second, i, c);
    hide *;
  }

  lemma GroupPrinted(items: seq<Item>, g: string, c: Item)
    requires !c.Header? && forall d :: d in items && !d.Header? ==> Text(d) != Text(c)
    ensures Content(items + [Header(g), c]) == Content(items) + Comment(g) + (Text(c) + "\n")
  {
    assert items + [Header(g)] + [c] == items + [Header(g), c];
    PrintedNext(items, Header(g));
    PrintedNext(items + [Header(g)], c);
    hide *;
  }

  // ------------------------------------------------------------------- reading

  /** What reading depends on: variable and home directory expansion, and the directory of the list. */
  datatype Env = Env(vars: string -> string, user: string -> string, relPath: string)

  /** Expansion leaves alone what has no variable in it, and what does not start with a tilde. */
  ghost predicate Ordinary(env: Env) {
    && (forall s :: '$' !in s ==> env.vars(s) == s)
    && (forall s :: s == "" || s[0] != '~' ==> env.user(s) == s)
  }

  function ExpandPath(env: Env, p: string): string {
    var q := env.user(env.vars(p));
    if IsAbsolute(q) then q else Join(env.relPath, q)
  }

  function LStrip(s: string): string {
    if s != "" && IsSpace(s[0]) then LStrip(s[1..]) else s
  }

  function Strip(s: string): string {
    LStrip(RStrip(s))
  }

  function FirstNewline(s: string): (i: nat)
    ensures i <= |s|
  {
    if s == "" || s[0] == '\n' then 0 else FirstNewline(s[1..]) + 1
  }

  /** The lines of a file opened with `\n` as its only line end; each keeps its line end. */
  function FileLines(s: string): seq<string>
    decreases |s|
  {
    if s == "" then []
    else
      var i := FirstNewline(s);
      if i == |s| then [s] else [s[..i + 1]] + FileLines(s[i + 1..])
  }

  datatype Parsed = Parsed(idirs: seq<string>, defines: seq<string>, files: seq<string>)

  const NOTHING: Parsed := Parsed([], [], [])

  function ParseLine(env: Env, raw: string, acc: Parsed): Parsed {
    var line := Strip(raw);
    if line == "" || "//" <= line then acc
    else if "+incdir+" <= line then acc.(idirs := acc.idirs + [ExpandPath(env, line[8..])])
    else if "+define+" <= line then acc.(defines := acc.defines + [env.vars(line[8..])])
    else acc.(files := acc.files + [ExpandPath(env, line)])
  }

  function Parse(env: Env, lines: seq<string>): Parsed {
    if lines == [] then NOTHING else ParseLine(env, lines[|lines| - 1], Parse(env, lines[..|lines| - 1]))
  }

  // ------------------------------------------------------ what a line gives

  /** `t` is what is between the spaces at both ends of a line. */
  ghost predicate IsTrimmed(line: string, t: string) {
    exists i, j :: 0 <= i <= j <= |line| && TrimmedAt(line, i, j) && t == line[i..j]
  }

  ghost predicate TrimmedAt(line: string, i: nat, j: nat)
    requires i <= j <= |line|
  {
    && (forall k :: 0 <= k < i || j <= k < |line| ==> line[k] as int in SPACES)
    && (i < j ==> line[i] as int !in SPACES && line[j - 1] as int !in SPACES)
  }

  /**
   * The path read for an entry once it is expanded: an absolute one itself, and for a relative one the
   * path below the directory of the list that leads where the entry leads from there.
   */
  ghost predicate IsEntry(env: Env, entry: string, path: string) {
    var e := env.user(env.vars(entry));
    if e != "" && e[0] == '/' then path == e
    else
      && env.relPath <= path && |e| <= |path| && path[|path| - |e|..] == e
      && Location(path) == Follow(Location(env.relPath), RelPaths.Split(e))
  }

  /** What one line is read as; a blank line and a comment give nothing, like a header. */
  ghost predicate Gives(env: Env, line: string, c: Item) {
    exists t :: IsTrimmed(line, t) && TextGives(env, t, c)
  }

  ghost predicate TextGives(env: Env, t: string, c: Item) {
    if t == "" || "//" <= t then c.Header?
    else if "+incdir+" <= t then c.IncDir? && IsEntry(env, t[|"+incdir+"|..], c.path)
    else if "+define+" <= t then c == Define(env.vars(t[|"+define+"|..]))
    else c.File? && IsEntry(env, t, c.path)
  }

  /** The lines of a file: put together they are the file, and each ends at its first line feed. */
  ghost predicate AreLines(content: string, lines: seq<string>) {
    && Concat(lines) == content
    && forall i :: 0 <= i < |lines| ==>
      && lines[i] != "" && '\n' !in lines[i][..|lines[i]| - 1]
      && (i < |lines| - 1 ==> lines[i][|lines[i]| - 1] == '\n')
  }

  /** Every line is read as what it gives, in order. */
  ghost predicate IsRead(env: Env, content: string, p: Parsed) {
    exists lines, items :: AreLines(content, lines) && AllGiven(env, lines, items) && p == PathsOf(items)
  }

  ghost predicate AllGiven(env: Env, lines: seq<string>, items: seq<Item>) {
    |items| == |lines| && forall i :: 0 <= i < |lines| ==> Gives(env, lines[i], items[i])
  }

  lemma {:induction false} LStripAt(s: string) returns (i: nat)
    ensures i <= |s| && LStrip(s) == s[i..] && (forall k :: 0 <= k < i ==> IsSpace(s[k]))
    ensures i < |s| ==> !IsSpace(s[i])
  {
    if s != "" && IsSpace(s[0]) {
      i := LStripAt(s[1..]);
      assert s[1..][i..] == s[i + 1..];
      assert forall k :: 0 <= k < i + 1 ==> IsSpace(s[k]) by {
        assert forall k :: 0 < k < i + 1 ==> s[1..][k - 1] == s[k];
      }
      i := i + 1;
    } else {
      i := 0;
    }
  }

  lemma StripTrims(line: string)
    ensures IsTrimmed(line, Strip(line))
  {
    StrippedOff(line);
    var r := RStrip(line);
    var i := LStripAt(r);
    forall c: char
      ensures IsSpace(c) <==> c as int in SPACES
    {
      SpacesAre(c);
    }
    hide IsSpace;
    assert line[i..|r|] == r[i..];
    assert TrimmedAt(line, i, |r|);
  }

  lemma ExpandedIs(env: Env, entry: string)
    requires IsAbsolute(env.relPath)
    ensures IsEntry(env, entry, ExpandPath(env, entry))
  {
    var e := env.user(env.vars(entry));
    if !IsAbsolute(e) {
      SplitBelow(env.relPath, e);
    }
  }

  /** What the line adds to what was read. */
  lemma LineGives(env: Env, line: string, acc: Parsed) returns (c: Item)
    requires IsAbsolute(env.relPath)
    ensures Gives(env, line, c) && ParseLine(env, line, acc) == Add(acc, c)
  {
    var t := Strip(line);
    StripTrims(line);
    hide Strip, IsTrimmed, IsEntry, ExpandPath;
    if t == "" || "//" <= t {
      c := Header("");
    } else if "+incdir+" <= t {
      ExpandedIs(env, t[8..]);
      c := IncDir(ExpandPath(env, t[8..]));
    } else if "+define+" <= t {
      c := Define(env.vars(t[8..]));
    } else {
      ExpandedIs(env, t);
      c := File(ExpandPath(env, t));
    }
    assert TextGives(env, t, c);
  }

  lemma {:induction false} LinesGive(env: Env, lines: seq<string>) returns (items: seq<Item>)
    requires IsAbsolute(env.relPath)
    ensures AllGiven(env, lines, items) && Parse(env, lines) == PathsOf(items)
  {
    hide Gives, ParseLine, Add;
    if lines == [] {
      items := [];
    } else {
      var front, last := lines[..|lines| - 1], lines[|lines| - 1];
      var before := LinesGive(env, front);
      var c := LineGives(env, last, Parse(env, front));
      items := before + [c];
      assert items[..|items| - 1] == before;
    }
  }

  lemma {:induction false} FileLinesAre(s: string)
    ensures AreLines(s, FileLines(s))
    decreases |s|
  {
    if s != "" {
      FirstNewlineFound(s);
      var i := FirstNewline(s);
      if i == |s| {
        assert Concat([s]) == s;
        assert s[..|s| - 1] + [s[|s| - 1]] == s[..i];
      } else {
        FileLinesAre(s[i + 1..]);
        assert s[..i + 1] + s[i + 1..] == s;
        assert s[..i + 1][..i] == s[..i];
      }
    }
  }

  lemma ReadIs(env: Env, content: string)
    requires IsAbsolute(env.relPath)
    ensures IsRead(env, content, Parse(env, FileLines(content)))
  {
    FileLinesAre(content);
    var items := LinesGive(env, FileLines(content));
  }

  /** The reader's loop over the lines. */
  method ReadLines(env: Env, content: string) returns (p: Parsed)
    ensures p == Parse(env, FileLines(content))
    ensures IsAbsolute(env.relPath) ==> IsRead(env, content, p)
  {
    if IsAbsolute(env.relPath) {
      ReadIs(env, content);
    }
    hide IsRead;
    var lines := FileLines(content);
    var includeDirs, defines, files := [], [], [];
    for i := 0 to |lines|
      invariant Parsed(includeDirs, defines, files) == Parse(env, lines[..i])
    {
      assert lines[..i + 1][..i] == lines[..i];
      var line := Strip(lines[i]);
      if line == "" {
        continue;
      }
      if "//" <= line {
        continue;
      }
      if "+incdir+" <= line {
        includeDirs := includeDirs + [ExpandPath(env, line[8..])];
      } else if "+define+" <= line {
        defines := defines + [env.vars(line[8..])];
      } else {
        files := files + [ExpandPath(env, line)];
      }
    }
    assert lines[..|lines|] == lines;
    p := Parsed(includeDirs, defines, files);
  }

  // ---------------------------------------------------------------- round trip

  lemma {:induction false} NewlineAt(line: string, rest: string)
    requires '\n' !in line
    ensures FirstNewline(line + "\n" + rest) == |line|
  {
    var s := line + "\n" + rest;
    if line != "" {
      assert line[0] != '\n' && s[1..] == line[1..] + "\n" + rest;
      NewlineAt(line[1..], rest);
    }
  }

  lemma FileLinesOne(line: string, rest: string)
    requires '\n' !in line
    ensures FileLines(line + "\n" + rest) == [line + "\n"] + FileLines(rest)
  {
    var s := line + "\n" + rest;
    NewlineAt(line, rest);
    assert s[..|line| + 1] == line + "\n" && s[|line| + 1..] == rest;
  }

  predicate Ended(s: string) {
    s == "" || s[|s| - 1] == '\n'
  }

  lemma {:induction false} FirstNewlineFound(s: string)
    ensures '\n' !in s[..FirstNewline(s)] && (FirstNewline(s) < |s| ==> s[FirstNewline(s)] == '\n')
  {
    if s != "" && s[0] != '\n' {
      FirstNewlineFound(s[1..]);
      assert s[..FirstNewline(s)] == [s[0]] + s[1..][..FirstNewline(s) - 1];
    }
  }

  lemma {:induction false} NewlineWithin(s: string)
    requires '\n' in s
    ensures FirstNewline(s) < |s|
  {
    if s[0] != '\n' {
      NewlineWithin(s[1..]);
    }
  }

  lemma EndedHasNewline(s: string) returns (line: string, rest: string)
    requires Ended(s) && s != ""
    ensures s == line + "\n" + rest && '\n' !in line && Ended(rest) && |rest| < |s|
  {
    FirstNewlineFound(s);
    var i := FirstNewline(s);
    assert s[|s| - 1] in s;
    NewlineWithin(s);
    line, rest := s[..i], s[i + 1..];
    assert s[i..i + 1] == "\n";
    assert s == s[..i] + s[i..i + 1] + s[i + 1..];
    assert rest != "" ==> rest[|rest| - 1] == s[|s| - 1];
  }

  lemma {:induction false} FileLinesJoin(a: string, b: string)
    requires Ended(a)
    ensures FileLines(a + b) == FileLines(a) + FileLines(b)
    decreases |a|
  {
    if a == "" {
      assert a + b == b;
      assert FileLines(a) == [];
    } else {
      var line, rest := EndedHasNewline(a);
      FileLinesJoin(rest, b);
      FileLinesOne(line, rest);
      FileLinesOne(line, rest + b);
      JoinedItems(line + "\n", rest, b);
      JoinedItems([line + "\n"], FileLines(rest), FileLines(b));
    }
  }

  lemma {:induction false} ContentEnded(items: seq<Item>)
    ensures Ended(Content(items))
  {
    if items != [] {
      ContentEnded(items[..|items| - 1]);
    }
  }

  /** Each printed item is one line of the file. */
  lemma ContentLines(items: seq<Item>, c: Item)
    requires '\n' !in Text(c)
    ensures FileLines(Content(items + [c])) == FileLines(Content(items)) + [Line(c, items)]
  {
    assert FileLines("") == [];
    hide FileLines, Content, Texts, Ended;
    ContentNext(items, c);
    ContentEnded(items);
    FileLinesJoin(Content(items), Line(c, items));
    var t := if c.Header? || Text(c) in Texts(items) then "// " + Text(c) else Text(c);
    FileLinesOne(t, "");
    assert Line(c, items) == t + "\n" == t + "\n" + "";
  }

  lemma {:induction false} RStripKeeps(s: string, k: nat)
    requires k < |s| && !IsSpace(s[k])
    ensures k < |RStrip(s)| && RStrip(s) <= s
  {
    if IsSpace(s[|s| - 1]) {
      RStripKeeps(s[..|s| - 1], k);
    }
  }

  lemma StripComment(x: string)
    ensures "//" <= Strip("// " + x + "\n")
  {
    var s := "// " + x + "\n";
    assert !IsSpace('/');
    RStripKeeps(s, 1);
    var r := RStrip(s);
    assert r[0] == s[0] == '/' && r[1] == s[1] == '/';
  }

  lemma StripLine(t: string)
    requires t != "" && !IsSpace(t[0]) && !IsSpace(t[|t| - 1])
    ensures Strip(t + "\n") == t
  {
    var s := t + "\n";
    assert s[|s| - 1] == '\n' && IsSpace('\n') && s[..|s| - 1] == t;
    assert RStrip(s) == RStrip(t) == t;
  }

  predicate Printable(s: string) {
    '\n' !in s && '$' !in s && (s != "" ==> !IsSpace(s[|s| - 1]))
  }

  /**
   * Items that survive: free of line ends, variables and trailing space; absolute paths; no file
   * starting with `//`.
   */
  predicate Clean(c: Item) {
    match c
    case Header(t) => '\n' !in t
    case IncDir(p) => Printable(p) && IsAbsolute(p)
    case Define(d) => Printable(d)
    case File(p) => Printable(p) && IsAbsolute(p) && !("//" <= p)
  }

  function Add(p: Parsed, c: Item): Parsed {
    match c
    case Header(_) => p
    case IncDir(d) => p.(idirs := p.idirs + [d])
    case Define(d) => p.(defines := p.defines + [d])
    case File(f) => p.(files := p.files + [f])
  }

  lemma CommentIgnored(env: Env, x: string, acc: Parsed)
    ensures ParseLine(env, "// " + x + "\n", acc) == acc
  {
    StripComment(x);
  }

  lemma AbsoluteStays(env: Env, p: string)
    requires Ordinary(env) && IsAbsolute(p) && '$' !in p
    ensures ExpandPath(env, p) == p
  {
  }

  lemma ParseClean(env: Env, c: Item, acc: Parsed)
    requires Ordinary(env) && Clean(c) && !c.Header?
    ensures ParseLine(env, Text(c) + "\n", acc) == Add(acc, c)
  {
    var t := Text(c);
    assert !IsSpace('+') && !IsSpace('/');
    match c
    case IncDir(p) =>
      assert t[|t| - 1] == p[|p| - 1] && t[8..] == p;
      StripLine(t);
      AbsoluteStays(env, p);
    case Define(d) =>
      assert t[|t| - 1] == (if d == "" then '+' else d[|d| - 1]) && t[8..] == d;
      StripLine(t);
      assert t[1] == 'd';
    case File(p) =>
      StripLine(t);
      AbsoluteStays(env, p);
  }

  /** What is read back: every clean item that is not a repeat. */
  function Kept(items: seq<Item>): Parsed {
    if items == [] then NOTHING
    else
      var front, last := items[..|items| - 1], items[|items| - 1];
      if last.Header? || Text(last) in Texts(front) then Kept(front) else Add(Kept(front), last)
  }

  lemma {:induction false} ReadsKept(env: Env, items: seq<Item>)
    requires Ordinary(env) && forall c :: c in items ==> Clean(c)
    ensures Parse(env, FileLines(Content(items))) == Kept(items)
  {
    if items != [] {
      var front, last := items[..|items| - 1], items[|items| - 1];
      assert items == front + [last];
      ReadsKept(env, front);
      CleanText(last);
      ContentLines(front, last);
      ParseNext(env, FileLines(Content(front)), Line(last, front));
      if last.Header? || Text(last) in Texts(front) {
        CommentIgnored(env, Text(last), Kept(front));
      } else {
        ParseClean(env, last, Kept(front));
      }
    }
  }

  lemma CleanText(c: Item)
    requires Clean(c)
    ensures '\n' !in Text(c)
  {
  }

  lemma ParseNext(env: Env, lines: seq<string>, line: string)
    ensures Parse(env, lines + [line]) == ParseLine(env, line, Parse(env, lines))
  {
    assert (lines + [line])[..|lines|] == lines;
  }

  function PathsOf(items: seq<Item>): Parsed {
    if items == [] then NOTHING else Add(PathsOf(items[..|items| - 1]), items[|items| - 1])
  }

  function Dedup(p: Parsed): Parsed {
    Parsed(Firsts(p.idirs), Firsts(p.defines), Firsts(p.files))
  }

  predicate Holds(p: Parsed, c: Item) {
    match c
    case Header(_) => false
    case IncDir(d) => d in p.idirs
    case Define(d) => d in p.defines
    case File(f) => f in p.files
  }

  lemma {:induction false} HoldsIffItem(items: seq<Item>, c: Item)
    requires !c.Header?
    ensures Holds(PathsOf(items), c) <==> c in items
  {
    if items != [] {
      HoldsIffItem(items[..|items| - 1], c);
      assert items == items[..|items| - 1] + [items[|items| - 1]];
    }
  }

  /** Different items are printed differently. */
  lemma TextTells(a: Item, b: Item)
    requires Clean(a) && Clean(b) && !a.Header? && !b.Header? && Text(a) == Text(b)
    ensures a == b
  {
    var t := Text(a);
    assert a.IncDir? ==> t[8..] == a.path && t[1] == 'i';
    assert b.IncDir? ==> t[8..] == b.path && t[1] == 'i';
    assert a.Define? ==> t[8..] == a.text && t[1] == 'd';
    assert b.Define? ==> t[8..] == b.text && t[1] == 'd';
    assert a.File? ==> t[0] == '/';
    assert b.File? ==> t[0] == '/';
  }

  lemma RepeatIffHeld(items: seq<Item>, c: Item)
    requires Clean(c) && !c.Header? && forall d :: d in items ==> Clean(d)
    ensures Text(c) in Texts(items) <==> Holds(PathsOf(items), c)
  {
    HoldsIffItem(items, c);
    if Text(c) in Texts(items) {
      var d :| d in items && !d.Header? && Text(d) == Text(c);
      TextTells(c, d);
    }
  }

  lemma FirstsNext<T>(s: seq<T>, x: T)
    ensures Firsts(s + [x]) == if x in s then Firsts(s) else Firsts(s) + [x]
  {
    assert (s + [x])[..|s|] == s;
    FirstsSame(s);
    assert x in Firsts(s) <==> x in Elements(Firsts(s));
  }

  lemma DedupNext(p: Parsed, c: Item)
    ensures Dedup(Add(p, c)) == if c.Header? || Holds(p, c) then Dedup(p) else Add(Dedup(p), c)
  {
    match c
    case Header(_) =>
    case IncDir(d) => FirstsNext(p.idirs, d);
    case Define(d) => FirstsNext(p.defines, d);
    case File(f) => FirstsNext(p.files, f);
  }

  lemma {:induction false} KeptIsDedup(items: seq<Item>)
    requires forall c :: c in items ==> Clean(c)
    ensures Kept(items) == Dedup(PathsOf(items))
  {
    if items != [] {
      var front, last := items[..|items| - 1], items[|items| - 1];
      KeptIsDedup(front);
      DedupNext(PathsOf(front), last);
      if !last.Header? {
        RepeatIffHeld(front, last);
      }
    }
  }

  // -------------------------------------------------- what the filesets listed

  function GroupFiles(groups: seq<(string, seq<string>)>): seq<string> {
    if groups == [] then [] else GroupFiles(groups[..|groups| - 1]) + groups[|groups| - 1].1
  }

  function Plus(p: Parsed, q: Parsed): Parsed {
    Parsed(p.idirs + q.idirs, p.defines + q.defines, p.files + q.files)
  }

  /** Everything the filesets list, in order, repeats included. */
  function AllListed(fs: seq<Fileset>): Parsed {
    if fs == [] then NOTHING
    else Plus(AllListed(fs[..|fs| - 1]), var f := fs[|fs| - 1]; Parsed(f.idirs, f.defines, GroupFiles(f.files)))
  }

  lemma {:induction false} PathsJoin(a: seq<Item>, b: seq<Item>)
    ensures PathsOf(a + b) == Plus(PathsOf(a), PathsOf(b))
  {
    if b == [] {
      assert a + b == a;
    } else {
      PathsJoin(a, b[..|b| - 1]);
      assert (a + b)[..|a + b| - 1] == a + b[..|b| - 1];
    }
  }

  lemma {:induction false} PathsOfIncDirs(paths: seq<string>)
    ensures PathsOf(IncDirs(paths)) == Parsed(paths, [], [])
  {
    if paths != [] {
      PathsOfIncDirs(paths[..|paths| - 1]);
      assert IncDirs(paths)[..|paths| - 1] == IncDirs(paths[..|paths| - 1]);
    }
  }

  lemma {:induction false} PathsOfDefines(defines: seq<string>)
    ensures PathsOf(Defines(defines)) == Parsed([], defines, [])
  {
    if defines != [] {
      PathsOfDefines(defines[..|defines| - 1]);
      assert Defines(defines)[..|defines| - 1] == Defines(defines[..|defines| - 1]);
    }
  }

  lemma {:induction false} PathsOfFiles(paths: seq<string>)
    ensures PathsOf(Files(paths)) == Parsed([], [], paths)
  {
    if paths != [] {
      PathsOfFiles(paths[..|paths| - 1]);
      assert Files(paths)[..|paths| - 1] == Files(paths[..|paths| - 1]);
    }
  }

  lemma PathsOfSection(title: string, items: seq<Item>, comments: bool)
    ensures PathsOf(Section(title, items, comments)) == PathsOf(items)
  {
    if items != [] && comments {
      PathsJoin([Header(title)], items);
      assert PathsOf([Header(title)]) == NOTHING;
    } else if items != [] {
      assert [] + items == items;
    }
  }

  lemma {:induction false} PathsOfFileSections(f: Fileset, groups: seq<(string, seq<string>)>, comments: bool)
    ensures PathsOf(FileSections(f, groups, comments)) == Parsed([], [], GroupFiles(groups))
  {
    if groups != [] {
      var front, last := groups[..|groups| - 1], groups[|groups| - 1];
      PathsOfFileSections(f, front, comments);
      PathsJoin(FileSections(f, front, comments), FileSection(f, last, comments));
      PathsOfSection(Title(f, last.0 + " files"), Files(last.1), comments);
      PathsOfFiles(last.1);
    }
  }

  lemma PathsOfItems(f: Fileset, comments: bool)
    ensures PathsOf(Items(f, comments)) == Parsed(f.idirs, f.defines, GroupFiles(f.files))
  {
    var a, b := Section(Title(f, "include directories"), IncDirs(f.idirs), comments),
      Section(Title(f, "defines"), Defines(f.defines), comments);
    var c := FileSections(f, f.files, comments);
    PathsOfSection(Title(f, "include directories"), IncDirs(f.idirs), comments);
    PathsOfSection(Title(f, "defines"), Defines(f.defines), comments);
    PathsOfIncDirs(f.idirs);
    PathsOfDefines(f.defines);
    PathsOfFileSections(f, f.files, comments);
    PathsJoin(a, b);
    PathsJoin(a + b, c);
  }

  lemma {:induction false} PathsOfAllItems(fs: seq<Fileset>, comments: bool)
    ensures PathsOf(AllItems(fs, comments)) == AllListed(fs)
  {
    if fs != [] {
      PathsOfAllItems(fs[..|fs| - 1], comments);
      PathsOfItems(fs[|fs| - 1], comments);
      PathsJoin(AllItems(fs[..|fs| - 1], comments), Items(fs[|fs| - 1], comments));
    }
  }

  ghost predicate CleanFileset(f: Fileset) {
    && '\n' !in f.lib && '\n' !in f.name
    && (forall p :: p in f.idirs ==> Clean(IncDir(p)))
    && (forall d :: d in f.defines ==> Clean(Define(d)))
    && (forall g :: g in f.files ==> '\n' !in g.0 && forall p :: p in g.1 ==> Clean(File(p)))
  }

  lemma TitleClean(f: Fileset, what: string)
    requires CleanFileset(f) && '\n' !in what
    ensures Clean(Header(Title(f, what)))
  {
  }

  lemma {:induction false} FileSectionsClean(f: Fileset, groups: seq<(string, seq<string>)>, comments: bool, c: Item)
    requires CleanFileset(f) && (forall g :: g in groups ==> g in f.files) && c in FileSections(f, groups, comments)
    ensures Clean(c)
  {
    var last := groups[|groups| - 1];
    if c in FileSections(f, groups[..|groups| - 1], comments) {
      FileSectionsClean(f, groups[..|groups| - 1], comments, c);
    } else {
      TitleClean(f, last.0 + " files");
    }
  }

  lemma ItemsClean(f: Fileset, comments: bool, c: Item)
    requires CleanFileset(f) && c in Items(f, comments)
    ensures Clean(c)
  {
    TitleClean(f, "include directories");
    TitleClean(f, "defines");
    if c in FileSections(f, f.files, comments) {
      FileSectionsClean(f, f.files, comments, c);
    }
  }

  lemma {:induction false} AllItemsClean(fs: seq<Fileset>, comments: bool, c: Item)
    requires (forall f :: f in fs ==> CleanFileset(f)) && c in AllItems(fs, comments)
    ensures Clean(c)
  {
    if c in AllItems(fs[..|fs| - 1], comments) {
      AllItemsClean(fs[..|fs| - 1], comments, c);
    } else {
      ItemsClean(fs[|fs| - 1], comments, c);
    }
  }

  /**
   * Reading what was written, with or without comments, gives the include directories, defines and
   * files of all filesets, each list without repeats in the order of first occurrence.
   */
  lemma RoundTrip(env: Env, fs: seq<Fileset>, comments: bool)
    requires Ordinary(env) && forall f :: f in fs ==> CleanFileset(f)
    ensures Parse(env, FileLines(Content(AllItems(fs, comments)))) == Dedup(AllListed(fs))
  {
    var items := AllItems(fs, comments);
    forall c | c in items
      ensures Clean(c)
    {
      AllItemsClean(fs, comments, c);
    }
    ReadsKept(env, items);
    KeptIsDedup(items);
    PathsOfAllItems(fs, comments);
  }

  /** Writing and reading, as the two are run. */
  method WriteThenRead(env: Env, fs: seq<Fileset>, comments: bool) returns (p: Parsed)
    requires Ordinary(env) && forall f :: f in fs ==> CleanFileset(f)
    ensures p == Dedup(AllListed(fs))
  {
    var content := WriteFlist(fs, comments);
    p := ReadLines(env, content);
    RoundTrip(env, fs, comments);
  }

  /** An absolute path survives exactly when it is not taken for a comment and nothing is stripped off it. */
  lemma FileSurvivesIff(env: Env, p: string)
    requires Ordinary(env) && IsAbsolute(p) && '$' !in p && '\n' !in p
    ensures Parse(env, FileLines(Content([File(p)]))).files == [p] <==> !("//" <= p) && !IsSpace(p[|p| - 1])
  {
    assert [] + [File(p)] == [File(p)];
    assert Texts([]) == {};
    ContentLines([], File(p));
    ParseNext(env, [], p + "\n");
    assert FileLines(Content([File(p)])) == [] + [p + "\n"];
    if !("//" <= p) && !IsSpace(p[|p| - 1]) {
      ParseClean(env, File(p), NOTHING);
    } else {
      LostFile(env, p);
    }
  }

  lemma {:induction false} RStripShort(s: string)
    ensures |RStrip(s)| <= |s| && (s != "" && IsSpace(s[|s| - 1]) ==> |RStrip(s)| < |s|)
  {
    if s != "" && IsSpace(s[|s| - 1]) {
      RStripShort(s[..|s| - 1]);
    }
  }

  lemma StripAbsolute(p: string)
    requires IsAbsolute(p)
    ensures var t := Strip(p + "\n");
      IsAbsolute(t) && t <= p && ("//" <= p ==> "//" <= t) && (IsSpace(p[|p| - 1]) ==> t != p)
  {
    var s := p + "\n";
    assert s[..|p|] == p && !IsSpace('/');
    assert RStrip(s) == RStrip(p);
    RStripKeeps(p, 0);
    RStripShort(p);
    if "//" <= p {
      RStripKeeps(p, 1);
    }
  }

  lemma LostFile(env: Env, p: string)
    requires Ordinary(env) && IsAbsolute(p) && '$' !in p && ("//" <= p || IsSpace(p[|p| - 1]))
    ensures ParseLine(env, p + "\n", NOTHING).files != [p]
  {
    var t := Strip(p + "\n");
    StripAbsolute(p);
    if !("//" <= t) {
      assert p == t + p[|t|..];
      assert '$' !in t;
      AbsoluteStays(env, t);
      assert ParseLine(env, p + "\n", NOTHING).files == [t];
      assert [t][0] != [p][0];
    }
  }

  // ------------------------------------------------------------ relative entries

  /** An entry that is neither absolute nor expanded nor taken for something else. */
  predicate IsRelative(entry: string) {
    && Printable(entry) && entry != "" && !IsSpace(entry[0]) && entry[0] != '/' && entry[0] != '~'
    && !("+incdir+" <= entry) && !("+define+" <= entry)
  }

  lemma TrimmedOnce(line: string, t: string, u: string)
    requires IsTrimmed(line, t) && IsTrimmed(line, u)
    ensures t == u
  {
    var i, j :| 0 <= i <= j <= |line| && TrimmedAt(line, i, j) && t == line[i..j];
    var k, l :| 0 <= k <= l <= |line| && TrimmedAt(line, k, l) && u == line[k..l];
    assert i < j && k < l ==> i == k && j == l;
  }

  lemma TextGiven(env: Env, t: string, c: Item)
    requires t != "" && !IsSpace(t[0]) && !IsSpace(t[|t| - 1])
    ensures Gives(env, t + "\n", c) <==> TextGives(env, t, c)
  {
    StripLine(t);
    StripTrims(t + "\n");
    hide Strip, IsTrimmed, TextGives;
    if Gives(env, t + "\n", c) {
      var u :| IsTrimmed(t + "\n", u) && TextGives(env, u, c);
      TrimmedOnce(t + "\n", t, u);
    }
  }

  lemma RelativeIs(env: Env, entry: string, path: string)
    requires Ordinary(env) && IsRelative(entry)
    ensures IsEntry(env, entry, path) ==>
      env.relPath <= path && Location(path) == Follow(Location(env.relPath), RelPaths.Split(entry))
  {
  }

  /**
   * A relative entry, as a file or behind `+incdir+`, is read as a path below the directory of the list
   * that leads where the entry leads from there.
   */
  lemma RelativeEntryLeads(env: Env, entry: string, c: Item)
    requires Ordinary(env) && IsRelative(entry)
    ensures Gives(env, entry + "\n", c) ==>
      c.File? && env.relPath <= c.path && Location(c.path) == Follow(Location(env.relPath), RelPaths.Split(entry))
    ensures Gives(env, "+incdir+" + entry + "\n", c) ==>
      c.IncDir? && env.relPath <= c.path && Location(c.path) == Follow(Location(env.relPath), RelPaths.Split(entry))
  {
    var second := "+incdir+" + entry;
    assert second[|second| - 1] == entry[|entry| - 1] && !IsSpace('+') && second[8..] == entry && second[0] == '+';
    TextGiven(env, entry, c);
    TextGiven(env, second, c);
    if !c.Header? && !c.Define? {
      RelativeIs(env, entry, c.path);
    }
    hide Gives, IsEntry, Location, Follow, Ordinary;
  }

  /** A line of spaces alone gives nothing. */
  lemma BlankGivesNothing(env: Env, line: string, c: Item)
    requires (forall k :: 0 <= k < |line| ==> line[k] as int in SPACES) && Gives(env, line, c)
    ensures c.Header?
  {
    var t :| IsTrimmed(line, t) && TextGives(env, t, c);
    assert line[|line|..|line|] == "";
    assert TrimmedAt(line, |line|, |line|);
    TrimmedOnce(line, t, "");
  }
}
