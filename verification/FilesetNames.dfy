/** What same-named designs do to `get_fileset`, on concrete design objects. */
module FilesetNames {
  import opened Ordering
  import opened Digraphs
  import opened Filesets

  // ------------------------------------------------------- following one step

  /** Following a reference to one fileset that was not visited enters its design and visits it. */
  lemma TargetVisits(w: World, a: Alias, d: Id, fileset: string, st: State)
    requires Within(w, st) && Named(w, d) && KeyOf(w, Unit(d, fileset)) !in st.visited
    ensures GatherTarget(w, a, To(d, [fileset], true), st) == Visit(w, a, d, fileset, Mapped(w, d, st))
  {
    var t := To(d, [fileset], true);
    assert !AlreadyVisited(w, t, st);
    var st0 := Mapped(w, d, st);
    var r := Visit(w, a, d, fileset, st0);
    assert [fileset][1..] == [];
    assert GatherList(w, a, d, [fileset], st0) == r;
  }

  /** The state after a fileset without references was visited. */
  function Listed(st: State, k: Key): State {
    State(st.visited + {k}, st.filelist + [k], st.mapping)
  }

  lemma LeafVisit(w: World, a: Alias, d: Id, fileset: string, st: State)
    requires Within(w, st) && Unit(d, fileset) in Units(w) && w[d].filesets[fileset] == []
    requires KeyOf(w, Unit(d, fileset)) !in st.visited
    ensures Visit(w, a, d, fileset, st) == Done(Listed(st, KeyOf(w, Unit(d, fileset))))
  {
    KeyInKeys(w, Unit(d, fileset));
  }

  lemma LeafTarget(w: World, a: Alias, d: Id, fileset: string, st: State)
    requires Within(w, st) && Unit(d, fileset) in Units(w) && w[d].filesets[fileset] == []
    requires KeyOf(w, Unit(d, fileset)) !in st.visited
    ensures GatherTarget(w, a, To(d, [fileset], true), st) == Done(Listed(Mapped(w, d, st), KeyOf(w, Unit(d, fileset))))
  {
    TargetVisits(w, a, d, fileset, st);
    LeafVisit(w, a, d, fileset, Mapped(w, d, st));
  }

  lemma OneRef(w: World, a: Alias, self: Id, r: Ref, st: State, st': State)
    requires Within(w, st) && Named(w, self) && GatherTarget(w, a, Resolve(w, a, self, r), st) == Done(st')
    ensures GatherRefs(w, a, self, [r], st) == Done(st')
  {
    assert [r][1..] == [];
  }

  lemma TwoRefs(w: World, a: Alias, self: Id, r1: Ref, r2: Ref, st: State, mid: State, st': State)
    requires Within(w, st) && Within(w, mid) && Named(w, self)
      && GatherTarget(w, a, Resolve(w, a, self, r1), st) == Done(mid)
    requires GatherTarget(w, a, Resolve(w, a, self, r2), mid) == Done(st')
    ensures GatherRefs(w, a, self, [r1, r2], st) == Done(st')
  {
    assert [r1, r2][1..] == [r2];
    OneRef(w, a, self, r2, mid, st');
  }

  /** A fileset is listed after its references were followed. */
  lemma VisitRefs(w: World, a: Alias, d: Id, fileset: string, st: State, st': State)
    requires Within(w, st) && Unit(d, fileset) in Units(w) && KeyOf(w, Unit(d, fileset)) !in st.visited
    requires var st1 := st.(visited := st.visited + {KeyOf(w, Unit(d, fileset))});
      Within(w, st1) && GatherRefs(w, a, d, w[d].filesets[fileset], st1) == Done(st')
    ensures Visit(w, a, d, fileset, st) == Done(st'.(filelist := st'.filelist + [KeyOf(w, Unit(d, fileset))]))
  {
  }

  /** A search for one fileset of a design. */
  lemma SearchVisits(w: World, a: Alias, d: Id, fileset: string)
    requires Named(w, d)
    ensures Search(w, a, d, [fileset]) == Visit(w, a, d, fileset, Mapped(w, d, START))
  {
    var st0 := Mapped(w, d, START);
    assert [fileset][1..] == [];
    assert GatherList(w, a, d, [fileset], st0) == Visit(w, a, d, fileset, st0);
  }

  // ---------------------------------------------- two dependencies of one name

  const TOP: Key := Key("top", "rtl")
  const SUB: Key := Key("a", "rtl")
  const F1: Key := Key("lib", "f1")
  const F2: Key := Key("lib", "f2")

  /** A design and its dependency `a` each depend on a design called `lib`, but not on the same one. */
  function TwoLibs(): World {
    map[
      0 := Design(Some("top"), map["lib" := 2, "a" := 1], map["rtl" := [Ref("lib", "f1"), Ref("a", "rtl")]]),
      1 := Design(Some("a"), map["lib" := 3], map["rtl" := [Ref("lib", "f2")]]),
      2 := Design(Some("lib"), map[], map["f1" := []]),
      3 := Design(Some("lib"), map[], map["f2" := []])]
  }

  lemma TwoLibsUnits()
    ensures var w := TwoLibs();
      && Unit(0, "rtl") in Units(w) && Unit(1, "rtl") in Units(w) && Unit(2, "f1") in Units(w)
        && Unit(3, "f2") in Units(w)
      && Unit(2, "f2") !in Units(w)
      && KeyOf(w, Unit(0, "rtl")) == TOP && KeyOf(w, Unit(1, "rtl")) == SUB && KeyOf(w, Unit(2, "f1")) == F1
        && KeyOf(w, Unit(3, "f2")) == F2
      && {TOP, SUB, F1, F2} <= Keys(w)
  {
    var w := TwoLibs();
    KeyInKeys(w, Unit(0, "rtl"));
    KeyInKeys(w, Unit(1, "rtl"));
    KeyInKeys(w, Unit(2, "f1"));
    KeyInKeys(w, Unit(3, "f2"));
  }

  /** The dependency `a` comes to its own `lib` when the name is taken. */
  lemma SubVisited(st: State)
    requires st.visited == {TOP, F1} && "lib" in st.mapping && "a" !in st.mapping && Within(TwoLibs(), st)
    ensures GatherTarget(TwoLibs(), map[], To(1, ["rtl"], true), st)
      == Done(State({TOP, F1, SUB, F2}, st.filelist + [F2, SUB], st.mapping["a" := 1]))
  {
    var w: World, a: Alias := TwoLibs(), map[];
    TwoLibsUnits();
    TargetVisits(w, a, 1, "rtl", st);
    var st0 := Mapped(w, 1, st);
    var st1 := st0.(visited := st0.visited + {SUB});
    LeafTarget(w, a, 3, "f2", st1);
    assert Resolve(w, a, 1, Ref("lib", "f2")) == To(3, ["f2"], true);
    OneRef(w, a, 1, Ref("lib", "f2"), st1, Listed(st1, F2));
    VisitRefs(w, a, 1, "rtl", st0, Listed(st1, F2));
    assert {TOP, F1} + {SUB} + {F2} == {TOP, F1, SUB, F2};
    assert st.filelist + [F2] + [SUB] == st.filelist + [F2, SUB];
  }

  lemma TwoLibsSearch()
    ensures Search(TwoLibs(), map[], 0, ["rtl"]) ==
      Done(State({TOP, F1, SUB, F2}, [F1, F2, SUB, TOP], map["top" := 0, "lib" := 2, "a" := 1]))
  {
    var w: World, a: Alias := TwoLibs(), map[];
    TwoLibsUnits();
    SearchVisits(w, a, 0, "rtl");
    var st0 := Mapped(w, 0, START);
    var st1 := State({TOP}, [], map["top" := 0]);
    assert st0.(visited := st0.visited + {TOP}) == st1;
    LeafTarget(w, a, 2, "f1", st1);
    var st2 := State({TOP, F1}, [F1], map["top" := 0, "lib" := 2]);
    assert Listed(Mapped(w, 2, st1), F1) == st2;
    SubVisited(st2);
    var st3 := State({TOP, F1, SUB, F2}, [F1, F2, SUB], map["top" := 0, "lib" := 2, "a" := 1]);
    assert [F1] + [F2, SUB] == [F1, F2, SUB];
    assert Resolve(w, a, 0, Ref("lib", "f1")) == To(2, ["f1"], true)
      && Resolve(w, a, 0, Ref("a", "rtl")) == To(1, ["rtl"], true);
    TwoRefs(w, a, 0, Ref("lib", "f1"), Ref("a", "rtl"), st1, st2, st3);
    VisitRefs(w, a, 0, "rtl", st0, st3);
  }

  lemma ReferenceLeads(w: World, a: Alias, self: Id, filesets: seq<string>, u: Unit, r: Ref, v: Unit)
    requires u in Units(w) && Ahead(Edges(w, a), RootUnits(self, filesets), u) && r in w[u.design].filesets[u.fileset]
    requires v in TargetUnits(Resolve(w, a, u.design, r))
    ensures Ahead(Edges(w, a), RootUnits(self, filesets), v)
  {
    assert v in RefUnits(w, a, u.design, w[u.design].filesets[u.fileset]);
    ReferenceAhead(w, a, self, filesets, u, v);
  }

  lemma RootAhead(w: World, a: Alias, self: Id, fileset: string)
    ensures Ahead(Edges(w, a), RootUnits(self, [fileset]), Unit(self, fileset))
  {
    assert Unit(self, fileset) in RootUnits(self, [fileset]);
    RootsAhead(Edges(w, a), RootUnits(self, [fileset]));
  }

  lemma SecondLibReached()
    ensures Ahead(Edges(TwoLibs(), map[]), RootUnits(0, ["rtl"]), Unit(3, "f2"))
  {
    var w: World, a: Alias := TwoLibs(), map[];
    TwoLibsUnits();
    RootAhead(w, a, 0, "rtl");
    assert Unit(1, "rtl") in TargetUnits(Resolve(w, a, 0, Ref("a", "rtl")));
    assert Unit(3, "f2") in TargetUnits(Resolve(w, a, 1, Ref("lib", "f2")));
    assert Ref("a", "rtl") in w[0].filesets["rtl"] && Ref("lib", "f2") in w[1].filesets["rtl"];
    hide Edges, Ahead, Resolve, TargetUnits, TwoLibs, Units;
    ReferenceLeads(w, a, 0, ["rtl"], Unit(0, "rtl"), Ref("a", "rtl"), Unit(1, "rtl"));
    ReferenceLeads(w, a, 0, ["rtl"], Unit(1, "rtl"), Ref("lib", "f2"), Unit(3, "f2"));
  }

  lemma TwoLibsFilesets()
    ensures GetFileset(TwoLibs(), map[], 0, ["rtl"])
      == Some([Unit(2, "f1"), Unit(2, "f2"), Unit(1, "rtl"), Unit(0, "rtl")])
  {
    TwoLibsSearch();
    hide Search, TwoLibs;
    var r := GetFileset(TwoLibs(), map[], 0, ["rtl"]);
    assert r.value == [Unit(2, "f1"), Unit(2, "f2"), Unit(1, "rtl"), Unit(0, "rtl")];
  }

  /**
   * With two dependencies of one name, the filesets of the second are attributed to the first: one
   * that was reached is lost, and one that its design does not define is returned.
   */
  lemma WrongDesignReturned()
    ensures GetFileset(TwoLibs(), map[], 0, ["rtl"])
      == Some([Unit(2, "f1"), Unit(2, "f2"), Unit(1, "rtl"), Unit(0, "rtl")])
    ensures Ahead(Edges(TwoLibs(), map[]), RootUnits(0, ["rtl"]), Unit(3, "f2")) && Unit(2, "f2") !in Units(TwoLibs())
    ensures !IsExact(TwoLibs(), map[], 0, ["rtl"])
  {
    TwoLibsFilesets();
    SecondLibReached();
    TwoLibsUnits();
    hide Edges, Ahead, GetFileset, TwoLibs, Units;
    assert Unit(3, "f2") !in GetFileset(TwoLibs(), map[], 0, ["rtl"]).value;
  }

  // ------------------------------------------------- a fault behind a taken key

  /** As above, but both designs define the fileset; that of the second refers to nothing there is. */
  function HiddenFault(): World {
    map[
      0 := Design(Some("top"), map["lib" := 2, "a" := 1], map["rtl" := [Ref("lib", "f1"), Ref("a", "rtl")]]),
      1 := Design(Some("a"), map["lib" := 3], map["rtl" := [Ref("lib", "f1")]]),
      2 := Design(Some("lib"), map[], map["f1" := []]),
      3 := Design(Some("lib"), map[], map["f1" := [Ref("none", "f1")]])]
  }

  lemma HiddenUnits()
    ensures var w := HiddenFault();
      && Unit(0, "rtl") in Units(w) && Unit(1, "rtl") in Units(w) && Unit(2, "f1") in Units(w)
        && Unit(3, "f1") in Units(w)
      && KeyOf(w, Unit(0, "rtl")) == TOP && KeyOf(w, Unit(1, "rtl")) == SUB
        && KeyOf(w, Unit(2, "f1")) == F1 == KeyOf(w, Unit(3, "f1"))
      && {TOP, SUB, F1} <= Keys(w)
    ensures Faulty(HiddenFault(), map[], Unit(3, "f1"))
  {
    var w := HiddenFault();
    KeyInKeys(w, Unit(0, "rtl"));
    KeyInKeys(w, Unit(1, "rtl"));
    KeyInKeys(w, Unit(2, "f1"));
    assert Ref("none", "f1") in w[3].filesets["f1"] && BadRef(w, map[], 3, Ref("none", "f1"));
  }

  /** The dependency `a` does not come to its own `lib` at all: the key was visited. */
  lemma SubPassesFault(st: State)
    requires st.visited == {TOP, F1} && "a" !in st.mapping && Within(HiddenFault(), st)
    ensures GatherTarget(HiddenFault(), map[], To(1, ["rtl"], true), st)
      == Done(State({TOP, F1, SUB}, st.filelist + [SUB], st.mapping["a" := 1]))
  {
    var w: World, a: Alias := HiddenFault(), map[];
    HiddenUnits();
    TargetVisits(w, a, 1, "rtl", st);
    var st0 := Mapped(w, 1, st);
    var st1 := st0.(visited := st0.visited + {SUB});
    assert Resolve(w, a, 1, Ref("lib", "f1")) == To(3, ["f1"], true);
    assert AlreadyVisited(w, To(3, ["f1"], true), st1);
    OneRef(w, a, 1, Ref("lib", "f1"), st1, st1);
    VisitRefs(w, a, 1, "rtl", st0, st1);
    assert {TOP, F1} + {SUB} == {TOP, F1, SUB};
  }

  lemma HiddenSearch()
    ensures Search(HiddenFault(), map[], 0, ["rtl"]) ==
      Done(State({TOP, F1, SUB}, [F1, SUB, TOP], map["top" := 0, "lib" := 2, "a" := 1]))
  {
    var w: World, a: Alias := HiddenFault(), map[];
    HiddenUnits();
    SearchVisits(w, a, 0, "rtl");
    var st0 := Mapped(w, 0, START);
    var st1 := State({TOP}, [], map["top" := 0]);
    assert st0.(visited := st0.visited + {TOP}) == st1;
    LeafTarget(w, a, 2, "f1", st1);
    var st2 := State({TOP, F1}, [F1], map["top" := 0, "lib" := 2]);
    assert Listed(Mapped(w, 2, st1), F1) == st2;
    SubPassesFault(st2);
    var st3 := State({TOP, F1, SUB}, [F1, SUB], map["top" := 0, "lib" := 2, "a" := 1]);
    assert [F1] + [SUB] == [F1, SUB];
    assert Resolve(w, a, 0, Ref("lib", "f1")) == To(2, ["f1"], true)
      && Resolve(w, a, 0, Ref("a", "rtl")) == To(1, ["rtl"], true);
    TwoRefs(w, a, 0, Ref("lib", "f1"), Ref("a", "rtl"), st1, st2, st3);
    VisitRefs(w, a, 0, "rtl", st0, st3);
  }

  lemma FaultReached()
    ensures FaultAhead(HiddenFault(), map[], RootUnits(0, ["rtl"]))
  {
    var w: World, a: Alias := HiddenFault(), map[];
    HiddenUnits();
    RootAhead(w, a, 0, "rtl");
    assert Unit(1, "rtl") in TargetUnits(Resolve(w, a, 0, Ref("a", "rtl")));
    assert Unit(3, "f1") in TargetUnits(Resolve(w, a, 1, Ref("lib", "f1")));
    assert Ref("a", "rtl") in w[0].filesets["rtl"] && Ref("lib", "f1") in w[1].filesets["rtl"];
    hide Edges, Ahead, Resolve, TargetUnits, HiddenFault, Units, Faulty;
    ReferenceLeads(w, a, 0, ["rtl"], Unit(0, "rtl"), Ref("a", "rtl"), Unit(1, "rtl"));
    ReferenceLeads(w, a, 0, ["rtl"], Unit(1, "rtl"), Ref("lib", "f1"), Unit(3, "f1"));
  }

  /** A fileset that cannot be resolved passes for one of the same name that was: nothing is raised. */
  lemma FaultPasses()
    ensures GetFileset(HiddenFault(), map[], 0, ["rtl"]) == Some([Unit(2, "f1"), Unit(1, "rtl"), Unit(0, "rtl")])
    ensures FaultAhead(HiddenFault(), map[], RootUnits(0, ["rtl"]))
  {
    HiddenSearch();
    FaultReached();
    hide Search, HiddenFault, FaultAhead;
    var r := GetFileset(HiddenFault(), map[], 0, ["rtl"]);
    assert r.value == [Unit(2, "f1"), Unit(1, "rtl"), Unit(0, "rtl")];
  }

  // ------------------------------------------- a design entered for no fileset

  const FIRST: Key := Key("top", "first")
  const LAST: Key := Key("top", "last")
  const G: Key := Key("lib", "g")
  const X: Ref := Ref("x", "f")
  const Y: Ref := Ref("y", "g")

  /** A design with two references, and two designs of one name to alias them to. */
  function Aliased(): World {
    map[
      0 := Design(Some("top"), map[], map["first" := [X, Y], "last" := [Y, X]]),
      1 := Design(Some("lib"), map[], map[]),
      2 := Design(Some("lib"), map[], map["g" := []])]
  }

  /** One reference is aliased to the empty list of filesets of a design. */
  function ToNothing(): Alias {
    map[X := Many(1, []), Y := One(2, "g")]
  }

  lemma AliasedUnits()
    ensures var w := Aliased();
      && Unit(0, "first") in Units(w) && Unit(0, "last") in Units(w) && Unit(2, "g") in Units(w)
        && Unit(1, "g") !in Units(w)
      && KeyOf(w, Unit(0, "first")) == FIRST && KeyOf(w, Unit(0, "last")) == LAST && KeyOf(w, Unit(2, "g")) == G
      && {FIRST, G} <= Keys(w) && {LAST, G} <= Keys(w)
    ensures Resolve(Aliased(), ToNothing(), 0, X) == To(1, [], false)
      && Resolve(Aliased(), ToNothing(), 0, Y) == To(2, ["g"], true)
  {
    var w := Aliased();
    KeyInKeys(w, Unit(0, "first"));
    KeyInKeys(w, Unit(0, "last"));
    KeyInKeys(w, Unit(2, "g"));
  }

  /** An empty list of filesets enters its design all the same. */
  lemma NothingVisited(w: World, a: Alias, d: Id, st: State)
    requires Within(w, st) && Named(w, d)
    ensures GatherTarget(w, a, To(d, [], false), st) == Done(Mapped(w, d, st))
  {
    assert !AlreadyVisited(w, To(d, [], false), st);
    assert GatherList(w, a, d, [], Mapped(w, d, st)) == Done(Mapped(w, d, st));
  }

  lemma FirstSearch()
    ensures Search(Aliased(), ToNothing(), 0, ["first"])
      == Done(State({FIRST, G}, [G, FIRST], map["top" := 0, "lib" := 1]))
  {
    var w, a := Aliased(), ToNothing();
    AliasedUnits();
    SearchVisits(w, a, 0, "first");
    var st0 := Mapped(w, 0, START);
    var st1 := State({FIRST}, [], map["top" := 0]);
    assert st0.(visited := st0.visited + {FIRST}) == st1;
    NothingVisited(w, a, 1, st1);
    var st2 := State({FIRST}, [], map["top" := 0, "lib" := 1]);
    LeafTarget(w, a, 2, "g", st2);
    var st3 := State({FIRST, G}, [G], map["top" := 0, "lib" := 1]);
    assert Listed(st2, G) == st3;
    TwoRefs(w, a, 0, X, Y, st1, st2, st3);
    VisitRefs(w, a, 0, "first", st0, st3);
  }

  lemma LastSearch()
    ensures Search(Aliased(), ToNothing(), 0, ["last"])
      == Done(State({LAST, G}, [G, LAST], map["top" := 0, "lib" := 2]))
  {
    var w, a := Aliased(), ToNothing();
    AliasedUnits();
    SearchVisits(w, a, 0, "last");
    var st0 := Mapped(w, 0, START);
    var st1 := State({LAST}, [], map["top" := 0]);
    assert st0.(visited := st0.visited + {LAST}) == st1;
    LeafTarget(w, a, 2, "g", st1);
    var st2 := State({LAST, G}, [G], map["top" := 0, "lib" := 2]);
    assert Listed(Mapped(w, 2, st1), G) == st2;
    NothingVisited(w, a, 1, st2);
    TwoRefs(w, a, 0, Y, X, st1, st2, st2);
    VisitRefs(w, a, 0, "last", st0, st2);
  }

  lemma AliasedFilesets()
    ensures GetFileset(Aliased(), ToNothing(), 0, ["first"]) == Some([Unit(1, "g"), Unit(0, "first")])
    ensures GetFileset(Aliased(), ToNothing(), 0, ["last"]) == Some([Unit(2, "g"), Unit(0, "last")])
  {
    FirstSearch();
    LastSearch();
    hide Search, Aliased, ToNothing;
    assert GetFileset(Aliased(), ToNothing(), 0, ["first"]).value == [Unit(1, "g"), Unit(0, "first")];
    assert GetFileset(Aliased(), ToNothing(), 0, ["last"]).value == [Unit(2, "g"), Unit(0, "last")];
  }

  lemma AliasedRoots(fileset: string)
    requires fileset == "first" || fileset == "last"
    ensures Ahead(Edges(Aliased(), ToNothing()), RootUnits(0, [fileset]), Unit(0, fileset))
    ensures Ahead(Edges(Aliased(), ToNothing()), RootUnits(0, [fileset]), Unit(2, "g"))
  {
    var w, a := Aliased(), ToNothing();
    AliasedUnits();
    RootAhead(w, a, 0, fileset);
    assert Unit(2, "g") in TargetUnits(Resolve(w, a, 0, Y));
    assert Y in w[0].filesets[fileset];
    hide Edges, Ahead, Resolve, Aliased, ToNothing, Units, TargetUnits;
    ReferenceLeads(w, a, 0, [fileset], Unit(0, fileset), Y, Unit(2, "g"));
  }

  /** From either fileset, exactly the fileset itself and the one of the second design are reached. */
  lemma AliasedReached(fileset: string, u: Unit)
    requires fileset == "first" || fileset == "last"
    ensures Ahead(Edges(Aliased(), ToNothing()), RootUnits(0, [fileset]), u)
      <==> u == Unit(0, fileset) || u == Unit(2, "g")
  {
    AliasedRoots(fileset);
    AliasedEdges(fileset);
    hide Edges, Aliased, ToNothing;
    var g, roots := Edges(Aliased(), ToNothing()), RootUnits(0, [fileset]);
    if Ahead(g, roots, u) {
      var r :| r in roots && Reaches(g, r, u);
      var p :| WalkBetween(g, p, r, u);
      StaysAmong(g, {Unit(0, fileset), Unit(2, "g")}, p, |p| - 1);
    }
  }

  lemma AliasedEdges(fileset: string)
    requires fileset == "first" || fileset == "last"
    ensures var g := Edges(Aliased(), ToNothing());
      && Unit(0, fileset) in g && g[Unit(0, fileset)] == {Unit(2, "g")}
      && Unit(2, "g") in g && g[Unit(2, "g")] == {}
  {
    var w, a := Aliased(), ToNothing();
    AliasedUnits();
    assert TargetUnits(Resolve(w, a, 0, X)) == {} && TargetUnits(Resolve(w, a, 0, Y)) == {Unit(2, "g")};
    var refs := w[0].filesets[fileset];
    assert refs == [X, Y] || refs == [Y, X];
    hide Resolve, TargetUnits;
    assert Y in refs;
    assert RefUnits(w, a, 0, refs) == {Unit(2, "g")};
    assert RefUnits(w, a, 2, []) == {};
  }

  lemma {:induction false} StaysAmong(g: Graph<Unit>, s: set<Unit>, p: seq<Unit>, i: nat)
    requires IsWalk(g, p) && p[0] in s && i < |p|
    requires forall u :: u in s ==> u in g && g[u] <= s
    ensures p[i] in s
  {
    if i > 0 {
      StaysAmong(g, s, p, i - 1);
      assert p[i - 1] in g && p[i - 1 + 1] in g[p[i - 1]];
    }
  }

  /** A design that is entered for no fileset can still take the name of the one whose fileset is reached. */
  lemma EmptyAliasTakesName()
    ensures GetFileset(Aliased(), ToNothing(), 0, ["first"]) == Some([Unit(1, "g"), Unit(0, "first")])
    ensures !IsExact(Aliased(), ToNothing(), 0, ["first"])
    ensures Ahead(Edges(Aliased(), ToNothing()), RootUnits(0, ["first"]), Unit(2, "g"))
      && Unit(1, "g") !in Units(Aliased())
  {
    AliasedFilesets();
    AliasedReached("first", Unit(2, "g"));
    AliasedUnits();
    hide Edges, Ahead, GetFileset, Aliased, ToNothing, Units;
    assert Unit(2, "g") !in GetFileset(Aliased(), ToNothing(), 0, ["first"]).value;
  }

  lemma LastEntersBoth()
    ensures !EnteredApart(Aliased(), ToNothing(), 0, ["last"])
  {
    var w, a := Aliased(), ToNothing();
    AliasedUnits();
    AliasedReached("last", Unit(0, "last"));
    assert X in w[0].filesets["last"] && Y in w[0].filesets["last"];
    assert Named(w, 1) && Named(w, 2) && w[1].name == w[2].name;
    hide Edges, Ahead, Units, Aliased, ToNothing, Resolve;
    assert EnteredFrom(w, a, 0, ["last"], 1, Unit(0, "last"), X);
    assert EnteredFrom(w, a, 0, ["last"], 2, Unit(0, "last"), Y);
    assert Entered(w, a, 0, ["last"], 1) && Entered(w, a, 0, ["last"], 2);
  }

  /** It does no harm when it is entered last: the answer is exact although two designs of one name are entered. */
  lemma EmptyAliasHarmless()
    ensures GetFileset(Aliased(), ToNothing(), 0, ["last"]) == Some([Unit(2, "g"), Unit(0, "last")])
    ensures IsExact(Aliased(), ToNothing(), 0, ["last"]) && !EnteredApart(Aliased(), ToNothing(), 0, ["last"])
  {
    AliasedFilesets();
    LastEntersBoth();
    hide Edges, Ahead, GetFileset, Units, EnteredApart, Aliased, ToNothing;
    forall u
      ensures u in GetFileset(Aliased(), ToNothing(), 0, ["last"]).value
        <==> Ahead(Edges(Aliased(), ToNothing()), RootUnits(0, ["last"]), u)
    {
      AliasedReached("last", u);
    }
  }
}
