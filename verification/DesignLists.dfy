/** File lists of whole designs: the filesets a design resolves, written out and read back. */
module DesignLists {
  import opened Ordering
  import opened Digraphs
  import opened Filesets
  import opened FileLists

  /** What a fileset of a design object lists, with its paths found; nothing where it is undefined. */
  type Listing = Unit -> Fileset

  /** A fileset as it is announced and printed. */
  function PrintedUnit(w: World, listing: Listing, u: Unit): Fileset {
    listing(u).(lib := KeyOf(w, u).design, name := u.fileset)
  }

  function Printed(w: World, listing: Listing, units: seq<Unit>): seq<Fileset> {
    seq(|units|, i requires 0 <= i < |units| => PrintedUnit(w, listing, units[i]))
  }

  /** Each resolved fileset with what it lists, announced by the name of its design and its own. */
  ghost predicate ArePrinted(w: World, listing: Listing, units: seq<Unit>, fs: seq<Fileset>) {
    && |fs| == |units|
    && forall i :: 0 <= i < |units| ==>
      && fs[i].idirs == listing(units[i]).idirs && fs[i].defines == listing(units[i]).defines
      && fs[i].files == listing(units[i]).files && fs[i].name == units[i].fileset
      && (units[i].design in w && w[units[i].design].name.Some? ==> fs[i].lib == w[units[i].design].name.value)
  }

  lemma PrintedAre(w: World, listing: Listing, units: seq<Unit>)
    ensures ArePrinted(w, listing, units, Printed(w, listing, units))
  {
  }

  /** Writing the file list of a design: refused when its filesets cannot be resolved. */
  method WriteDesign(w: World, a: Alias, self: Id, filesets: seq<string>, listing: Listing, comments: bool)
    returns (content: Option<string>)
    ensures content == match GetFileset(w, a, self, filesets)
      case None => None
      case Some(units) => Some(Content(AllItems(Printed(w, listing, units), comments)))
    ensures content.Some? ==> exists units, fs ::
      && GetFileset(w, a, self, filesets) == Some(units) && ArePrinted(w, listing, units, fs)
      && content.value == Content(AllItems(fs, comments))
  {
    hide GetFileset, AllItems, Content, ArePrinted, Printed;
    var units := ResolveFilesets(w, a, self, filesets);
    if units.None? {
      return None;
    }
    PrintedAre(w, listing, units.value);
    var text := WriteFlist(Printed(w, listing, units.value), comments);
    return Some(text);
  }

  /** No name or path of the resolved filesets is one that a file list cannot carry. */
  ghost predicate CleanUnits(w: World, listing: Listing, units: seq<Unit>) {
    forall u :: u in units ==> CleanFileset(PrintedUnit(w, listing, u))
  }

  /** What is read back from the file list of a design. */
  ghost function ReadBack(env: Env, w: World, a: Alias, self: Id, filesets: seq<string>, listing: Listing,
      comments: bool): Parsed
    requires GetFileset(w, a, self, filesets).Some?
  {
    Parse(env, FileLines(Content(AllItems(Printed(w, listing, GetFileset(w, a, self, filesets).value), comments))))
  }

  /** The list read back is that of the resolved filesets, each path at its first occurrence. */
  lemma DesignRoundTrip(env: Env, w: World, a: Alias, self: Id, filesets: seq<string>, listing: Listing, comments: bool)
    requires Ordinary(env) && GetFileset(w, a, self, filesets).Some?
    requires CleanUnits(w, listing, GetFileset(w, a, self, filesets).value)
    ensures ReadBack(env, w, a, self, filesets, listing, comments)
      == Dedup(AllListed(Printed(w, listing, GetFileset(w, a, self, filesets).value)))
  {
    hide GetFileset, CleanFileset, Parse, FileLines, AllItems, Dedup, AllListed, Content;
    var units := GetFileset(w, a, self, filesets).value;
    var fs := Printed(w, listing, units);
    forall f | f in fs
      ensures CleanFileset(f)
    {
      var i :| 0 <= i < |fs| && fs[i] == f;
      assert units[i] in units;
    }
    RoundTrip(env, fs, comments);
  }

  /** Writing the file list of a design and reading it, as the two are run. */
  method WriteThenReadDesign(env: Env, w: World, a: Alias, self: Id, filesets: seq<string>, listing: Listing,
      comments: bool)
    returns (p: Option<Parsed>)
    requires Ordinary(env)
    requires GetFileset(w, a, self, filesets).Some? ==> CleanUnits(w, listing, GetFileset(w, a, self, filesets).value)
    ensures p == match GetFileset(w, a, self, filesets)
      case None => None
      case Some(units) => Some(Dedup(AllListed(Printed(w, listing, units))))
  {
    hide GetFileset, CleanUnits, AllItems, Dedup, AllListed, Content, Printed;
    var content := WriteDesign(w, a, self, filesets, listing, comments);
    if content.None? {
      return None;
    }
    var parsed := ReadLines(env, content.value);
    DesignRoundTrip(env, w, a, self, filesets, listing, comments);
    return Some(parsed);
  }

  // -------------------------------------------------------- what is in the list

  lemma {:induction false} ListedFrom(fs: seq<Fileset>, x: string)
    ensures x in AllListed(fs).idirs <==> exists i :: 0 <= i < |fs| && x in fs[i].idirs
    ensures x in AllListed(fs).defines <==> exists i :: 0 <= i < |fs| && x in fs[i].defines
    ensures x in AllListed(fs).files <==> exists i :: 0 <= i < |fs| && x in GroupFiles(fs[i].files)
  {
    hide GroupFiles;
    if fs != [] {
      var front, last := fs[..|fs| - 1], fs[|fs| - 1];
      ListedFrom(front, x);
      assert AllListed(fs) == Plus(AllListed(front), Parsed(last.idirs, last.defines, GroupFiles(last.files)));
      assert forall i :: 0 <= i < |front| ==> front[i] == fs[i];
    }
  }

  lemma FirstsHold<T>(s: seq<T>, x: T)
    ensures x in Firsts(s) <==> x in s
  {
    FirstsSame(s);
    assert x in Elements(Firsts(s)) <==> x in Elements(s);
  }

  /** `x` is listed by some fileset that can be reached. */
  ghost predicate ListsDir(w: World, a: Alias, self: Id, filesets: seq<string>, listing: Listing, x: string) {
    exists u :: Ahead(Edges(w, a), RootUnits(self, filesets), u) && x in listing(u).idirs
  }

  ghost predicate ListsDefine(w: World, a: Alias, self: Id, filesets: seq<string>, listing: Listing, x: string) {
    exists u :: Ahead(Edges(w, a), RootUnits(self, filesets), u) && x in listing(u).defines
  }

  ghost predicate ListsFile(w: World, a: Alias, self: Id, filesets: seq<string>, listing: Listing, x: string) {
    exists u :: Ahead(Edges(w, a), RootUnits(self, filesets), u) && x in GroupFiles(listing(u).files)
  }

  /**
   * Where `get_fileset` is exact, what is read back from a design's file list is exactly what the
   * filesets that can be reached list: no directory, define or file of theirs is lost, and no other added.
   */
  lemma ReadBackIsReached(env: Env, w: World, a: Alias, self: Id, filesets: seq<string>, listing: Listing,
      comments: bool, x: string)
    requires Ordinary(env) && GetFileset(w, a, self, filesets).Some? && IsExact(w, a, self, filesets)
    requires CleanUnits(w, listing, GetFileset(w, a, self, filesets).value)
    ensures var p := ReadBack(env, w, a, self, filesets, listing, comments);
      && (x in p.idirs <==> ListsDir(w, a, self, filesets, listing, x))
      && (x in p.defines <==> ListsDefine(w, a, self, filesets, listing, x))
      && (x in p.files <==> ListsFile(w, a, self, filesets, listing, x))
  {
    var units := GetFileset(w, a, self, filesets).value;
    DesignRoundTrip(env, w, a, self, filesets, listing, comments);
    PrintedListed(w, listing, units, x);
    assert forall u :: u in units <==> Ahead(Edges(w, a), RootUnits(self, filesets), u);
    hide ReadBack, GetFileset, Ahead, Edges, CleanUnits, AllListed, Printed, Firsts, IsExact;
    var all := AllListed(Printed(w, listing, units));
    FirstsHold(all.idirs, x);
    FirstsHold(all.defines, x);
    FirstsHold(all.files, x);
  }

  lemma PrintedListed(w: World, listing: Listing, units: seq<Unit>, x: string)
    ensures var all := AllListed(Printed(w, listing, units));
      && (x in all.idirs <==> exists u :: u in units && x in listing(u).idirs)
      && (x in all.defines <==> exists u :: u in units && x in listing(u).defines)
      && (x in all.files <==> exists u :: u in units && x in GroupFiles(listing(u).files))
  {
    var fs := Printed(w, listing, units);
    ListedFrom(fs, x);
    hide AllListed, GroupFiles;
    assert forall i :: 0 <= i < |units| ==> units[i] in units && fs[i] == PrintedUnit(w, listing, units[i]);
    forall u | u in units
      ensures exists i :: 0 <= i < |fs| && fs[i] == PrintedUnit(w, listing, u)
    {
      var i :| 0 <= i < |units| && units[i] == u;
      assert fs[i] == PrintedUnit(w, listing, u);
    }
  }

  // ------------------------------------------------------------ in which order

  lemma {:induction false} ListedPrefix(fs: seq<Fileset>, n: nat)
    requires n <= |fs|
    ensures AllListed(fs[..n]).files <= AllListed(fs).files
  {
    if n == |fs| {
      assert fs[..n] == fs;
    } else {
      var front := fs[..|fs| - 1];
      ListedPrefix(front, n);
      assert front[..n] == fs[..n];
    }
  }

  lemma {:induction false} FirstsPrefix<T>(s: seq<T>, t: seq<T>)
    requires s <= t
    ensures Firsts(s) <= Firsts(t)
  {
    if |s| < |t| {
      FirstsPrefix(s, t[..|t| - 1]);
    } else {
      assert s == t;
    }
  }

  /** What occurs in a prefix of a list comes, without repeats, before what occurs only behind it. */
  lemma FirstsOrder<T>(s: seq<T>, t: seq<T>, x: T, y: T)
    requires s <= t && x in s && y in t && y !in s
    ensures exists i, j :: 0 <= i < j < |Firsts(t)| && Firsts(t)[i] == x && Firsts(t)[j] == y
  {
    FirstsPrefix(s, t);
    FirstsHold(s, x);
    FirstsHold(s, y);
    FirstsHold(t, y);
    hide Firsts;
    var i :| 0 <= i < |Firsts(s)| && Firsts(s)[i] == x;
    var j :| 0 <= j < |Firsts(t)| && Firsts(t)[j] == y;
    assert forall k :: 0 <= k < |Firsts(s)| ==> Firsts(t)[k] == Firsts(s)[k] && Firsts(s)[k] != y;
    assert Firsts(t)[i] == x;
  }

  /**
   * A file of a fileset is read back behind every file of the filesets it refers to, unless they lead
   * back to it, or another fileset lists the file as well.
   */
  lemma DependencyFilesFirst(env: Env, w: World, a: Alias, self: Id, filesets: seq<string>, listing: Listing,
      comments: bool, u: Unit, v: Unit, x: string, y: string)
    requires Ordinary(env) && GetFileset(w, a, self, filesets).Some? && IsExact(w, a, self, filesets)
    requires CleanUnits(w, listing, GetFileset(w, a, self, filesets).value)
    requires Ahead(Edges(w, a), RootUnits(self, filesets), u) && u in Units(w) && v in Edges(w, a)[u]
      && !Reaches(Edges(w, a), v, u)
    requires x in GroupFiles(listing(v).files) && y in GroupFiles(listing(u).files)
    requires forall o :: o != u && Ahead(Edges(w, a), RootUnits(self, filesets), o) ==>
      y !in GroupFiles(listing(o).files)
    ensures var files := ReadBack(env, w, a, self, filesets, listing, comments).files;
      exists i, j :: 0 <= i < j < |files| && files[i] == x && files[j] == y
  {
    var units := GetFileset(w, a, self, filesets).value;
    DesignRoundTrip(env, w, a, self, filesets, listing, comments);
    assert forall o :: o in units <==> Ahead(Edges(w, a), RootUnits(self, filesets), o);
    hide Ahead, Edges, Reaches, GetFileset, ReadBack, Units, CleanUnits, AllListed, GroupFiles;
    var k :| 0 <= k < |units| && units[k] == u;
    FilesetDistinct(w, a, self, filesets);
    DependenciesPrecede(w, a, self, filesets, k, v);
    assert v in units[..k];
    FilesApart(w, listing, units, k, v, x, y);
  }

  lemma PrintedPrefix(w: World, listing: Listing, units: seq<Unit>, k: nat)
    requires k <= |units|
    ensures k <= |Printed(w, listing, units)| && Printed(w, listing, units)[..k] == Printed(w, listing, units[..k])
  {
  }

  lemma ElsewhereBefore(units: seq<Unit>, k: nat)
    requires k < |units| && Distinct(units)
    ensures forall o :: o in units[..k] ==> o in units && o != units[k]
  {
    forall o | o in units[..k]
      ensures o in units && o != units[k]
    {
      var i :| 0 <= i < k && units[i] == o;
      assert units[i] != units[k];
    }
  }

  lemma FilesApart(w: World, listing: Listing, units: seq<Unit>, k: nat, v: Unit, x: string, y: string)
    requires k < |units| && Distinct(units) && v in units[..k]
    requires x in GroupFiles(listing(v).files) && y in GroupFiles(listing(units[k]).files)
    requires forall o :: o in units && o != units[k] ==> y !in GroupFiles(listing(o).files)
    ensures var files := Firsts(AllListed(Printed(w, listing, units)).files);
      exists i, j :: 0 <= i < j < |files| && files[i] == x && files[j] == y
  {
    var before := units[..k];
    PrintedPrefix(w, listing, units, k);
    ElsewhereBefore(units, k);
    hide AllListed, GroupFiles, Printed, Firsts, Distinct;
    ListedPrefix(Printed(w, listing, units), k);
    PrintedListed(w, listing, before, x);
    PrintedListed(w, listing, before, y);
    PrintedListed(w, listing, units, y);
    FirstsOrder(AllListed(Printed(w, listing, before)).files, AllListed(Printed(w, listing, units)).files, x, y);
  }
}
