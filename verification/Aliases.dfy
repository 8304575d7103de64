/** What an alias does: the answer is that of a world without aliases whose references are rewritten. */
module Aliases {
  import opened Decimals
  import opened Ordering
  import opened Filesets
  import opened FilesetNames

  // ---------------------------------------------------------------- rewriting

  /** A name for a design object under which aliased references can find it. */
  function Link(mark: string, d: Id): string {
    mark + Decimal(d)
  }

  /** No name of the world starts with the mark, so links are new names. */
  ghost predicate IsMark(w: World, mark: string) {
    && mark != ""
    && forall d :: d in w ==>
      && (w[d].name.Some? ==> !(mark <= w[d].name.value))
      && (forall n :: n in w[d].deps ==> !(mark <= n))
      && (forall f, r :: f in w[d].filesets && r in w[d].filesets[f] ==> !(mark <= r.dep))
  }

  function LinkAll(mark: string, d: Id, filesets: seq<string>): seq<Ref> {
    if filesets == [] then [] else [Ref(Link(mark, d), filesets[0])] + LinkAll(mark, d, filesets[1..])
  }

  /** What is written for a reference: nothing where it is deleted, else references to the alias's design. */
  function Rewrite(a: Alias, mark: string, r: Ref): seq<Ref> {
    if r !in a then [r]
    else
      match a[r]
      case Deleted => []
      case Keep(d) => [Ref(Link(mark, d), r.fileset)]
      case One(d, f) => [Ref(Link(mark, d), f)]
      case Many(d, fs) => LinkAll(mark, d, fs)
  }

  function RewriteAll(a: Alias, mark: string, refs: seq<Ref>): seq<Ref> {
    if refs == [] then [] else Rewrite(a, mark, refs[0]) + RewriteAll(a, mark, refs[1..])
  }

  function LinkNames(a: Alias, mark: string): set<string> {
    set r | r in a && !a[r].Deleted? :: Link(mark, a[r].design)
  }

  /** The designs that aliases put in, under the names that link to them. */
  ghost function Links(a: Alias, mark: string): map<string, Id> {
    map n | n in LinkNames(a, mark) :: var r :| r in a && !a[r].Deleted? && Link(mark, a[r].design) == n; a[r].design
  }

  /** Every design depends on the aliased ones too, and its filesets refer to them directly. */
  ghost function Rewritten(w: World, a: Alias, mark: string): World {
    map d | d in w :: Design(w[d].name, w[d].deps + Links(a, mark),
      map f | f in w[d].filesets :: RewriteAll(a, mark, w[d].filesets[f]))
  }

  /** Where an alias gives a list of filesets, it is not empty and its design defines all of them. */
  ghost predicate ListsDefined(w: World, a: Alias) {
    forall r :: r in a && a[r].Many? ==>
      && a[r].filesets != []
      && (Named(w, a[r].design) ==> forall f :: f in a[r].filesets ==> f in w[a[r].design].filesets)
  }

  /** There is always a mark. */
  lemma MarkExists(w: World) returns (mark: string)
    ensures IsMark(w, mark)
  {
    var names := (set d | d in w && w[d].name.Some? :: w[d].name.value) + (set d, n | d in w && n in w[d].deps :: n)
      + (set d, f, r | d in w && f in w[d].filesets && r in w[d].filesets[f] :: r.dep);
    mark := LongerThan(names);
  }

  lemma {:induction false} LongerThan(names: set<string>) returns (s: string)
    ensures s != "" && forall n :: n in names ==> |n| < |s|
  {
    if names == {} {
      s := "x";
    } else {
      var n :| n in names;
      s := LongerThan(names - {n});
      s := s + n;
    }
  }

  // ------------------------------------------------------ the rewritten world

  lemma LinkFound(w: World, a: Alias, mark: string, r: Ref)
    requires r in a && !a[r].Deleted?
    ensures Link(mark, a[r].design) in Links(a, mark) && Links(a, mark)[Link(mark, a[r].design)] == a[r].design
  {
    var n := Link(mark, a[r].design);
    assert n in LinkNames(a, mark);
    var x :| x in a && !a[x].Deleted? && Link(mark, a[x].design) == n && Links(a, mark)[n] == a[x].design;
    if a[x].design != a[r].design {
      NumbersDiffer(mark, a[x].design, a[r].design);
    }
  }

  lemma LinksMarked(a: Alias, mark: string, n: string)
    requires n in Links(a, mark)
    ensures mark <= n
  {
  }

  /** Only dependencies and references are rewritten. */
  lemma SameUnits(w: World, a: Alias, mark: string)
    ensures var w' := Rewritten(w, a, mark);
      && (forall d :: Named(w', d) == Named(w, d)) && Units(w') == Units(w) && Keys(w') == Keys(w)
      && (forall u :: KeyOf(w', u) == KeyOf(w, u))
  {
    var w' := Rewritten(w, a, mark);
    assert forall d :: d in w ==> w'[d].name == w[d].name && w'[d].filesets.Keys == w[d].filesets.Keys;
    assert Units(w') == Units(w);
    forall u
      ensures KeyOf(w', u) == KeyOf(w, u)
    {
    }
  }

  lemma LinkResolves(w: World, a: Alias, mark: string, self: Id, r: Ref, f: string)
    requires IsMark(w, mark) && Named(w, self) && r in a && !a[r].Deleted?
    ensures var w' := Rewritten(w, a, mark);
      Named(w', self) && Resolve(w', map[], self, Ref(Link(mark, a[r].design), f)) == To(a[r].design, [f], true)
  {
    LinkFound(w, a, mark, r);
  }

  lemma OthersResolve(w: World, a: Alias, mark: string, self: Id, r: Ref)
    requires IsMark(w, mark) && Named(w, self) && r !in a && !(mark <= r.dep)
    ensures var w' := Rewritten(w, a, mark);
      Named(w', self) && Resolve(w', map[], self, r) == Resolve(w, a, self, r)
  {
    if r.dep in Links(a, mark) {
      LinksMarked(a, mark, r.dep);
    }
  }

  /** `v` is `w` with the references rewritten. */
  ghost predicate Rewrites(w: World, a: Alias, mark: string, v: World) {
    && IsMark(w, mark) && ListsDefined(w, a) && v == Rewritten(w, a, mark)
    && (forall d :: Named(v, d) == Named(w, d)) && Units(v) == Units(w) && Keys(v) == Keys(w)
    && (forall u :: KeyOf(v, u) == KeyOf(w, u))
  }

  lemma {:induction false} GatherRefsJoin(w: World, a: Alias, self: Id, x: seq<Ref>, y: seq<Ref>, st: State)
    requires Within(w, st) && Named(w, self)
    ensures GatherRefs(w, a, self, x + y, st) ==
      (var r := GatherRefs(w, a, self, x, st); if r.Failed? then Failed else GatherRefs(w, a, self, y, r.state))
    decreases |x|
  {
    if x == [] {
      assert x + y == y;
    } else {
      assert (x + y)[0] == x[0] && (x + y)[1..] == x[1..] + y;
      var r := GatherTarget(w, a, Resolve(w, a, self, x[0]), st);
      if r.Done? {
        GatherRefsJoin(w, a, self, x[1..], y, r.state);
      }
    }
  }

  // ------------------------------------------------------------ the same search

  lemma {:induction false} SameGather(w: World, a: Alias, mark: string, v: World, self: Id, filesets: seq<string>,
      st: State)
    requires Rewrites(w, a, mark, v) && Good(w, st)
    ensures Gather(w, a, self, filesets, st) == Gather(v, map[], self, filesets, st)
    decreases Room(w, st), 3, 0
  {
    if Named(w, self) {
      MappedGood(w, self, st);
      assert Mapped(v, self, st) == Mapped(w, self, st);
      SameGatherList(w, a, mark, v, self, filesets, Mapped(w, self, st));
    }
  }

  lemma {:induction false} SameGatherList(w: World, a: Alias, mark: string, v: World, self: Id, filesets: seq<string>,
      st: State)
    requires Rewrites(w, a, mark, v) && Good(w, st) && Named(w, self) && w[self].name.value in st.mapping
    ensures GatherList(w, a, self, filesets, st) == GatherList(v, map[], self, filesets, st)
    decreases Room(w, st), 2, |filesets|
  {
    if filesets != [] {
      SameVisit(w, a, mark, v, self, filesets[0], st);
      var r := Visit(w, a, self, filesets[0], st);
      if r.Done? {
        VisitAdds(w, a, self, filesets[0], st);
        RoomShrinks(w, st, r.state);
        SameGatherList(w, a, mark, v, self, filesets[1..], r.state);
      }
    }
  }

  lemma {:induction false} SameVisit(w: World, a: Alias, mark: string, v: World, self: Id, fileset: string, st: State)
    requires Rewrites(w, a, mark, v) && Good(w, st) && Named(w, self) && w[self].name.value in st.mapping
    ensures Visit(w, a, self, fileset, st) == Visit(v, map[], self, fileset, st)
    decreases Room(w, st), 1, 0
  {
    var u := Unit(self, fileset);
    assert Units(v) == Units(w) && KeyOf(v, u) == KeyOf(w, u) && Within(v, st) && Named(v, self);
    VisitIs(w, a, self, fileset, st);
    VisitIs(v, map[], self, fileset, st);
    if u in Units(w) && KeyOf(w, u) !in st.visited {
      WrittenRefs(w, a, mark, v, self, fileset);
      VisitedGood(w, self, fileset, st);
      hide *;
      SameGatherRefs(w, a, mark, v, self, w[self].filesets[fileset], st.(visited := st.visited + {KeyOf(w, u)}));
    }
  }

  lemma VisitIs(w: World, a: Alias, self: Id, fileset: string, st: State)
    requires Within(w, st) && Named(w, self)
    ensures var u := Unit(self, fileset);
      if u !in Units(w) then Visit(w, a, self, fileset, st) == Failed
      else if KeyOf(w, u) in st.visited then Visit(w, a, self, fileset, st) == Done(st)
      else
        && Within(w, st.(visited := st.visited + {KeyOf(w, u)}))
        && var r := GatherRefs(w, a, self, w[self].filesets[fileset], st.(visited := st.visited + {KeyOf(w, u)}));
           Visit(w, a, self, fileset, st)
             == if r.Failed? then Failed else Done(r.state.(filelist := r.state.filelist + [KeyOf(w, u)]))
  {
    hide GatherRefs;
    if Unit(self, fileset) in Units(w) {
      KeyInKeys(w, Unit(self, fileset));
    }
  }

  lemma VisitedGood(w: World, self: Id, fileset: string, st: State)
    requires Good(w, st) && Named(w, self) && w[self].name.value in st.mapping
    requires Unit(self, fileset) in Units(w) && KeyOf(w, Unit(self, fileset)) !in st.visited
    ensures var st1 := st.(visited := st.visited + {KeyOf(w, Unit(self, fileset))});
      Good(w, st1) && 0 <= Room(w, st1) < Room(w, st)
  {
    KeyInKeys(w, Unit(self, fileset));
    RoomShrinks(w, st, st.(visited := st.visited + {KeyOf(w, Unit(self, fileset))}));
  }

  lemma WrittenRefs(w: World, a: Alias, mark: string, v: World, self: Id, fileset: string)
    requires Rewrites(w, a, mark, v) && Unit(self, fileset) in Units(w)
    ensures Unit(self, fileset) in Units(v)
      && v[self].filesets[fileset] == RewriteAll(a, mark, w[self].filesets[fileset])
    ensures forall r :: r in w[self].filesets[fileset] ==> !(mark <= r.dep)
  {
  }

  lemma {:induction false} SameGatherRefs(w: World, a: Alias, mark: string, v: World, self: Id, refs: seq<Ref>,
      st: State)
    requires Rewrites(w, a, mark, v) && Good(w, st) && Named(w, self) && forall r :: r in refs ==> !(mark <= r.dep)
    ensures GatherRefs(w, a, self, refs, st) == GatherRefs(v, map[], self, RewriteAll(a, mark, refs), st)
    decreases Room(w, st), 4, |refs|
  {
    if refs != [] {
      SameTarget(w, a, mark, v, self, refs[0], st);
      GatherRefsJoin(v, map[], self, Rewrite(a, mark, refs[0]), RewriteAll(a, mark, refs[1..]), st);
      var r := GatherTarget(w, a, Resolve(w, a, self, refs[0]), st);
      if r.Done? {
        GatherTargetAdds(w, a, Resolve(w, a, self, refs[0]), st);
        RoomShrinks(w, st, r.state);
        SameGatherRefs(w, a, mark, v, self, refs[1..], r.state);
      }
    }
  }

  /** Following a reference is following what is written for it. */
  lemma {:induction false} SameTarget(w: World, a: Alias, mark: string, v: World, self: Id, r: Ref, st: State)
    requires Rewrites(w, a, mark, v) && Good(w, st) && Named(w, self) && !(mark <= r.dep)
    ensures GatherTarget(w, a, Resolve(w, a, self, r), st) == GatherRefs(v, map[], self, Rewrite(a, mark, r), st)
    decreases Room(w, st), 4, 0
  {
    var t := Resolve(w, a, self, r);
    assert Within(w, st) && Within(v, st) && Named(v, self);
    hide Rewrites, Resolve, Good, GatherTarget, GatherRefs, Rewrite, SameResult;
    if t.To? {
      SameGather(w, a, mark, v, t.design, t.filesets, st);
      SameVisited(w, a, mark, v, t, st);
    }
    TargetSame(w, a, v, t, st);
    if r in a && a[r].Many? {
      ManyWritten(w, a, mark, v, self, r, st);
    } else {
      SingleWritten(w, a, mark, v, self, r, st);
    }
  }


  /** Following the target has the same result in both worlds. */
  ghost predicate SameResult(w: World, a: Alias, v: World, t: Target, st: State)
    requires Within(w, st) && Within(v, st)
  {
    GatherTarget(w, a, t, st) == GatherTarget(v, map[], t, st)
  }

  lemma TargetSame(w: World, a: Alias, v: World, t: Target, st: State)
    requires Within(w, st) && Within(v, st)
    requires t.To? ==>
      && Gather(w, a, t.design, t.filesets, st) == Gather(v, map[], t.design, t.filesets, st)
      && AlreadyVisited(v, t, st) == AlreadyVisited(w, t, st)
    ensures SameResult(w, a, v, t, st)
  {
    hide Gather, AlreadyVisited;
  }

  lemma SingleWritten(w: World, a: Alias, mark: string, v: World, self: Id, r: Ref, st: State)
    requires Rewrites(w, a, mark, v) && Within(w, st) && Within(v, st) && Named(w, self) && !(mark <= r.dep)
    requires !(r in a && a[r].Many?) && SameResult(w, a, v, Resolve(w, a, self, r), st)
    ensures Named(v, self)
    ensures GatherTarget(w, a, Resolve(w, a, self, r), st) == GatherRefs(v, map[], self, Rewrite(a, mark, r), st)
  {
    hide Gather, GatherTarget, Rewritten, Good, AlreadyVisited;
    if r !in a {
      OthersResolve(w, a, mark, self, r);
      OneTarget(v, self, r, st);
    } else if !a[r].Deleted? {
      var f := if a[r].One? then a[r].fileset else r.fileset;
      LinkResolves(w, a, mark, self, r, f);
      OneTarget(v, self, Ref(Link(mark, a[r].design), f), st);
    } else {
      DroppedIs(w, a, st);
    }
  }

  lemma DroppedIs(w: World, a: Alias, st: State)
    requires Within(w, st)
    ensures GatherTarget(w, a, Dropped, st) == Done(st)
  {
  }

  lemma ManyWritten(w: World, a: Alias, mark: string, v: World, self: Id, r: Ref, st: State)
    requires Rewrites(w, a, mark, v) && Good(w, st) && Within(v, st) && Named(w, self)
    requires r in a && a[r].Many? && SameResult(w, a, v, Resolve(w, a, self, r), st)
    ensures Named(v, self)
    ensures GatherTarget(w, a, Resolve(w, a, self, r), st) == GatherRefs(v, map[], self, Rewrite(a, mark, r), st)
  {
    ManyTargets(w, a, mark, v, self, r, a[r].filesets, st);
    hide Gather, GatherRefs, LinkAll, Rewritten, Good;
  }

  lemma SameVisited(w: World, a: Alias, mark: string, v: World, t: Target, st: State)
    requires Rewrites(w, a, mark, v) && t.To?
    ensures AlreadyVisited(v, t, st) == AlreadyVisited(w, t, st)
  {
    hide Rewritten;
  }

  lemma OneTarget(w: World, self: Id, r: Ref, st: State)
    requires Within(w, st) && Named(w, self)
    ensures GatherRefs(w, map[], self, [r], st) == GatherTarget(w, map[], Resolve(w, map[], self, r), st)
  {
    assert [r][1..] == [];
  }

  /** A list of filesets is gone through as so many references to one fileset. */
  lemma {:induction false} ManyTargets(w: World, a: Alias, mark: string, v: World, self: Id, r: Ref,
      filesets: seq<string>, st: State)
    requires Rewrites(w, a, mark, v) && Good(w, st) && Named(w, self) && r in a && a[r].Many?
    requires forall f :: f in filesets ==> f in a[r].filesets
    requires filesets != [] || (Named(w, a[r].design) && w[a[r].design].name.value in st.mapping)
    ensures Gather(v, map[], a[r].design, filesets, st)
      == GatherRefs(v, map[], self, LinkAll(mark, a[r].design, filesets), st)
    decreases |filesets|
  {
    var d := a[r].design;
    assert Named(v, d) == Named(w, d) && Named(v, self) && Within(v, st);
    if filesets == [] {
      assert Mapped(v, d, st) == st;
    } else {
      LinkAllFirst(mark, d, filesets);
      LinkResolves(w, a, mark, self, r, filesets[0]);
      GatherFirst(v, d, filesets, st);
      RefsFirst(v, self, LinkAll(mark, d, filesets), st);
      if Named(w, d) {
        OneOfMany(w, a, mark, v, r, filesets[0], st);
        var next := Visit(v, map[], d, filesets[0], Mapped(v, d, st));
        hide *;
        if next.Done? {
          ManyTargets(w, a, mark, v, self, r, filesets[1..], next.state);
          GatherNamed(v, d, filesets[1..], next.state);
        }
      }
    }
  }

  lemma LinkAllFirst(mark: string, d: Id, filesets: seq<string>)
    requires filesets != []
    ensures var refs := LinkAll(mark, d, filesets);
      refs != [] && refs[0] == Ref(Link(mark, d), filesets[0]) && refs[1..] == LinkAll(mark, d, filesets[1..])
  {
  }

  lemma GatherNamed(w: World, d: Id, filesets: seq<string>, st: State)
    requires Within(w, st) && Named(w, d) && Mapped(w, d, st) == st
    ensures Gather(w, map[], d, filesets, st) == GatherList(w, map[], d, filesets, st)
  {
  }

  lemma GatherFirst(w: World, d: Id, filesets: seq<string>, st: State)
    requires Within(w, st) && filesets != []
    ensures Gather(w, map[], d, filesets, st) ==
      if !Named(w, d) then Failed
      else
        var r := Visit(w, map[], d, filesets[0], Mapped(w, d, st));
        if r.Failed? then Failed else GatherList(w, map[], d, filesets[1..], r.state)
  {
  }

  lemma RefsFirst(w: World, self: Id, refs: seq<Ref>, st: State)
    requires Within(w, st) && Named(w, self) && refs != []
    ensures GatherRefs(w, map[], self, refs, st) ==
      var r := GatherTarget(w, map[], Resolve(w, map[], self, refs[0]), st);
      if r.Failed? then Failed else GatherRefs(w, map[], self, refs[1..], r.state)
  {
  }

  /** A reference to one fileset that is defined visits it, or finds it visited. */
  lemma SingleVisits(w: World, d: Id, f: string, st: State)
    requires Good(w, st) && Unit(d, f) in Units(w)
    ensures GatherTarget(w, map[], To(d, [f], true), st) == Visit(w, map[], d, f, Mapped(w, d, st))
  {
    if AlreadyVisited(w, To(d, [f], true), st) {
      assert Mapped(w, d, st) == st;
    } else {
      assert [f][1..] == [];
      GatherFirst(w, d, [f], st);
    }
  }

  /** One of the filesets of a list: found visited or entered, it ends in the same state. */
  lemma OneOfMany(w: World, a: Alias, mark: string, v: World, r: Ref, f: string, st: State)
    requires Rewrites(w, a, mark, v) && Good(w, st) && r in a && a[r].Many? && f in a[r].filesets
    requires Named(w, a[r].design)
    ensures var d := a[r].design;
      && Within(v, st) && Named(v, d)
      && var next := Visit(v, map[], d, f, Mapped(v, d, st));
         && GatherTarget(v, map[], To(d, [f], true), st) == next
         && (next.Done? ==>
           && Good(w, next.state) && w[d].name.value in next.state.mapping && Mapped(v, d, next.state) == next.state)
  {
    var d := a[r].design;
    var st0 := Mapped(v, d, st);
    MappedGood(w, d, st);
    assert v[d].name == w[d].name && Unit(d, f) in Units(v);
    SameGood(w, a, mark, v, st);
    SingleVisits(v, d, f, st);
    if Visit(v, map[], d, f, st0).Done? {
      hide Visit, GatherTarget, GatherList, Rewritten;
      SameGood(w, a, mark, v, st0);
      VisitAdds(v, map[], d, f, st0);
      SameGood(w, a, mark, v, Visit(v, map[], d, f, st0).state);
    }
  }

  lemma SameGood(w: World, a: Alias, mark: string, v: World, st: State)
    requires Rewrites(w, a, mark, v)
    ensures Good(v, st) <==> Good(w, st)
  {
    assert forall d :: Named(w, d) ==> v[d].name == w[d].name;
    hide Rewrites, Rewritten;
  }

  /**
   * Resolving under an alias gives the answer of resolving, without one, the world whose references are
   * rewritten; the lists an alias gives have to be non-empty and defined.
   */
  lemma AliasesRewrite(w: World, a: Alias, mark: string, self: Id, filesets: seq<string>)
    requires IsMark(w, mark) && ListsDefined(w, a)
    ensures GetFileset(w, a, self, filesets) == GetFileset(Rewritten(w, a, mark), map[], self, filesets)
  {
    SameUnits(w, a, mark);
    SameGather(w, a, mark, Rewritten(w, a, mark), self, filesets, START);
  }

  // ------------------------------------------------------------ a swapped library

  /** A design that refers to a library, and another library with two filesets. */
  function TwoLibraries(): World {
    map[
      0 := Design(Some("top"), map["lib" := 1], map["rtl" := [Ref("lib", "rtl")]]),
      1 := Design(Some("lib"), map[], map["rtl" := []]),
      2 := Design(Some("fastlib"), map[], map["rtl" := [], "fast" := []])]
  }

  function Swapped(s: Substitute): Alias {
    map[Ref("lib", "rtl") := s]
  }

  /** The answer is what following the one reference adds, and then the fileset itself. */
  lemma TopAnswer(a: Alias, st: State, units: seq<Unit>)
    requires var w, st1 := TwoLibraries(), State({TOP}, [], map["top" := 0]);
      && Within(w, st1) && Within(w, st)
      && GatherTarget(w, a, Resolve(w, a, 0, Ref("lib", "rtl")), st1) == Done(st)
    requires "top" in st.mapping && forall i :: 0 <= i < |st.filelist| ==> st.filelist[i].design in st.mapping
    requires units == Objects(st.filelist + [TOP], st.mapping)
    ensures GetFileset(TwoLibraries(), a, 0, ["rtl"]) == Some(units)
  {
    var w := TwoLibraries();
    assert Unit(0, "rtl") in Units(w) && KeyOf(w, Unit(0, "rtl")) == TOP;
    KeyInKeys(w, Unit(0, "rtl"));
    SearchVisits(w, a, 0, "rtl");
    var st0, st1 := Mapped(w, 0, START), State({TOP}, [], map["top" := 0]);
    assert st0.(visited := st0.visited + {TOP}) == st1;
    OneRef(w, a, 0, Ref("lib", "rtl"), st1, st);
    VisitRefs(w, a, 0, "rtl", st0, st);
  }

  lemma LeafAnswer(a: Alias, d: Id, f: string)
    requires d != 0 && Named(TwoLibraries(), d) && Unit(d, f) in Units(TwoLibraries())
    requires Resolve(TwoLibraries(), a, 0, Ref("lib", "rtl")) == To(d, [f], true)
    ensures GetFileset(TwoLibraries(), a, 0, ["rtl"]) == Some([Unit(d, f), Unit(0, "rtl")])
  {
    var w, k := TwoLibraries(), KeyOf(TwoLibraries(), Unit(d, f));
    assert Unit(0, "rtl") in Units(w) && KeyOf(w, Unit(0, "rtl")) == TOP;
    KeyInKeys(w, Unit(0, "rtl"));
    KeyInKeys(w, Unit(d, f));
    var st1 := State({TOP}, [], map["top" := 0]);
    LeafTarget(w, a, d, f, st1);
    var st := State({TOP, k}, [k], map["top" := 0, w[d].name.value := d]);
    assert Listed(Mapped(w, d, st1), k) == st;
    assert Objects([k] + [TOP], st.mapping) == [Unit(d, f), Unit(0, "rtl")];
    TopAnswer(a, st, [Unit(d, f), Unit(0, "rtl")]);
  }

  lemma NoAnswer(a: Alias)
    requires Resolve(TwoLibraries(), a, 0, Ref("lib", "rtl")) == Dropped
    ensures GetFileset(TwoLibraries(), a, 0, ["rtl"]) == Some([Unit(0, "rtl")])
  {
    var w, st := TwoLibraries(), State({TOP}, [], map["top" := 0]);
    assert Unit(0, "rtl") in Units(w) && KeyOf(w, Unit(0, "rtl")) == TOP;
    KeyInKeys(w, Unit(0, "rtl"));
    assert Objects([] + [TOP], st.mapping) == [Unit(0, "rtl")];
    TopAnswer(a, st, [Unit(0, "rtl")]);
  }

  /** An alias can put in another fileset of another library, keep the fileset's name, or delete the reference. */
  lemma LibrarySwapped()
    ensures var w := TwoLibraries();
      && GetFileset(w, map[], 0, ["rtl"]) == Some([Unit(1, "rtl"), Unit(0, "rtl")])
      && GetFileset(w, Swapped(One(2, "fast")), 0, ["rtl"]) == Some([Unit(2, "fast"), Unit(0, "rtl")])
      && GetFileset(w, Swapped(Keep(2)), 0, ["rtl"]) == Some([Unit(2, "rtl"), Unit(0, "rtl")])
      && GetFileset(w, Swapped(Deleted), 0, ["rtl"]) == Some([Unit(0, "rtl")])
  {
    var w := TwoLibraries();
    assert Unit(1, "rtl") in Units(w) && Unit(2, "rtl") in Units(w) && Unit(2, "fast") in Units(w);
    hide GetFileset;
    LeafAnswer(map[], 1, "rtl");
    LeafAnswer(Swapped(One(2, "fast")), 2, "fast");
    LeafAnswer(Swapped(Keep(2)), 2, "rtl");
    NoAnswer(Swapped(Deleted));
  }
}
