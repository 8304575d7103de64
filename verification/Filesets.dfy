/** Resolving a design's filesets through dependencies and aliases. */
module Filesets {
  import opened Ordering
  import opened Digraphs

  /** Identity of a design object. */
  type Id = nat

  /** A reference to a fileset of a dependency, by name. */
  datatype Ref = Ref(dep: string, fileset: string)

  datatype Design = Design(name: Option<string>, deps: map<string, Id>, filesets: map<string, seq<Ref>>)

  /** All design objects there are. */
  type World = map<Id, Design>

  /** What an alias puts in the place of a reference: nothing, or filesets of another object. */
  datatype Substitute = Deleted | Keep(design: Id) | One(design: Id, fileset: string)
    | Many(design: Id, filesets: seq<string>)

  type Alias = map<Ref, Substitute>

  /** A fileset of a design object. */
  datatype Unit = Unit(design: Id, fileset: string)

  /** What visited filesets are remembered by: the design's name, not the object. */
  datatype Key = Key(design: string, fileset: string)

  predicate Named(w: World, d: Id) {
    d in w && w[d].name.Some?
  }

  function Units(w: World): set<Unit> {
    set d, fs | d in w && fs in w[d].filesets && Named(w, d) :: Unit(d, fs)
  }

  function KeyOf(w: World, u: Unit): Key {
    Key(if Named(w, u.design) then w[u.design].name.value else "", u.fileset)
  }

  function Keys(w: World): set<Key> {
    set u | u in Units(w) :: KeyOf(w, u)
  }

  datatype Target = Missing | Dropped | To(design: Id, filesets: seq<string>, single: bool)

  /** Where a reference in one of `self`'s filesets leads. */
  function Resolve(w: World, a: Alias, self: Id, r: Ref): Target
    requires Named(w, self)
  {
    if r in a then
      match a[r]
      case Deleted => Dropped
      case Keep(d) => To(d, [r.fileset], true)
      case One(d, f) => To(d, [f], true)
      case Many(d, fs) => To(d, fs, false)
    else if r.dep == w[self].name.value then To(self, [r.fileset], true)
    else if r.dep != "" && r.dep in w[self].deps then To(w[self].deps[r.dep], [r.fileset], true)
    else Missing
  }

  ghost function TargetUnits(t: Target): set<Unit> {
    if t.To? then RootUnits(t.design, t.filesets) else {}
  }

  ghost function RootUnits(self: Id, filesets: seq<string>): set<Unit> {
    set f | f in filesets :: Unit(self, f)
  }

  ghost function RefUnits(w: World, a: Alias, self: Id, refs: seq<Ref>): set<Unit>
    requires Named(w, self)
  {
    set r, u | r in refs && u in TargetUnits(Resolve(w, a, self, r)) :: u
  }

  /** Each defined fileset with the filesets its references lead to. */
  ghost function Edges(w: World, a: Alias): Graph<Unit> {
    map u | u in Units(w) :: RefUnits(w, a, u.design, w[u.design].filesets[u.fileset])
  }

  ghost predicate BadRef(w: World, a: Alias, self: Id, r: Ref)
    requires Named(w, self)
  {
    var t := Resolve(w, a, self, r);
    t.Missing? || (t.To? && !Named(w, t.design))
  }

  /** A fileset whose resolution raises: undefined, or with a reference that cannot be followed. */
  ghost predicate Faulty(w: World, a: Alias, u: Unit) {
    u !in Units(w) || exists r :: r in w[u.design].filesets[u.fileset] && BadRef(w, a, u.design, r)
  }

  // --------------------------------------------------------------- the search

  /** The sets and lists the recursion shares. */
  datatype State = State(visited: set<Key>, filelist: seq<Key>, mapping: map<string, Id>)

  datatype Outcome = Failed | Done(state: State)

  ghost function Room(w: World, st: State): int {
    |Keys(w)| - |st.visited|
  }

  ghost predicate Within(w: World, st: State) {
    st.visited <= Keys(w)
  }

  ghost predicate Grown(w: World, st: State, r: Outcome) {
    r.Done? ==> Within(w, r.state) && st.visited <= r.state.visited
  }

  lemma RoomShrinks(w: World, st: State, st': State)
    requires Within(w, st') && st.visited <= st'.visited
    ensures 0 <= Room(w, st') <= Room(w, st)
    ensures st.visited != st'.visited ==> Room(w, st') < Room(w, st)
  {
    SubsetSize(st.visited, st'.visited);
    SubsetSize(st'.visited, Keys(w));
  }

  lemma KeyInKeys(w: World, u: Unit)
    requires u in Units(w)
    ensures KeyOf(w, u) in Keys(w)
  {
  }

  /** One call of the recursive resolution on a design object. */
  ghost function Gather(w: World, a: Alias, self: Id, filesets: seq<string>, st: State): (r: Outcome)
    requires Within(w, st)
    ensures Grown(w, st, r)
    decreases Room(w, st), 3, 0
  {
    if !Named(w, self) then Failed
    else GatherList(w, a, self, filesets, Mapped(w, self, st))
  }

  /** The design's name is mapped to the first object that has it. */
  ghost function Mapped(w: World, self: Id, st: State): (r: State)
    requires Named(w, self)
    ensures r.visited == st.visited && r.filelist == st.filelist
  {
    var name := w[self].name.value;
    if name in st.mapping then st else st.(mapping := st.mapping[name := self])
  }

  ghost function GatherList(w: World, a: Alias, self: Id, filesets: seq<string>, st: State): (r: Outcome)
    requires Within(w, st) && Named(w, self)
    ensures Grown(w, st, r)
    decreases Room(w, st), 2, |filesets|
  {
    if filesets == [] then Done(st)
    else
      var r := Visit(w, a, self, filesets[0], st);
      if r.Failed? then Failed
      else
        RoomShrinks(w, st, r.state);
        GatherList(w, a, self, filesets[1..], r.state)
  }

  ghost function Visit(w: World, a: Alias, self: Id, fileset: string, st: State): (r: Outcome)
    requires Within(w, st) && Named(w, self)
    ensures Grown(w, st, r)
    decreases Room(w, st), 1, 0
  {
    var u := Unit(self, fileset);
    if u !in Units(w) then Failed
    else if KeyOf(w, u) in st.visited then Done(st)
    else
      KeyInKeys(w, u);
      var st1 := st.(visited := st.visited + {KeyOf(w, u)});
      RoomShrinks(w, st, st1);
      var r := GatherRefs(w, a, self, w[self].filesets[fileset], st1);
      if r.Failed? then Failed else Done(r.state.(filelist := r.state.filelist + [KeyOf(w, u)]))
  }

  ghost function GatherRefs(w: World, a: Alias, self: Id, refs: seq<Ref>, st: State): (r: Outcome)
    requires Within(w, st) && Named(w, self)
    ensures Grown(w, st, r)
    decreases Room(w, st), 4, |refs|
  {
    if refs == [] then Done(st)
    else
      var r := GatherTarget(w, a, Resolve(w, a, self, refs[0]), st);
      if r.Failed? then Failed
      else
        RoomShrinks(w, st, r.state);
        GatherRefs(w, a, self, refs[1..], r.state)
  }

  /** A target given by a single fileset is not entered again. */
  predicate AlreadyVisited(w: World, t: Target, st: State)
    requires t.To?
  {
    t.single && Named(w, t.design) && t.filesets != [] && KeyOf(w, Unit(t.design, t.filesets[0])) in st.visited
  }

  ghost function GatherTarget(w: World, a: Alias, t: Target, st: State): (r: Outcome)
    requires Within(w, st)
    ensures Grown(w, st, r)
    decreases Room(w, st), 4, 0
  {
    match t
    case Missing => Failed
    case Dropped => Done(st)
    case To(d, filesets, single) =>
      if AlreadyVisited(w, t, st) then Done(st)
      else Gather(w, a, d, filesets, st)
  }

  // -------------------------------------------------------- what a call adds

  ghost predicate Good(w: World, st: State) {
    && Within(w, st) && Distinct(st.filelist) && Elements(st.filelist) <= st.visited
    && (forall k :: k in st.visited ==> k.design in st.mapping)
    && (forall n :: n in st.mapping ==> Named(w, st.mapping[n]) && w[st.mapping[n]].name.value == n)
  }

  /** Visited but not yet listed: the filesets whose references are being followed. */
  ghost function Open(st: State): set<Key> {
    st.visited - Elements(st.filelist)
  }

  /** `u` lies ahead of one of the roots. */
  ghost predicate Ahead(g: Graph<Unit>, roots: set<Unit>, u: Unit) {
    exists r :: r in roots && Reaches(g, r, u)
  }

  ghost predicate FromRoots(w: World, a: Alias, roots: set<Unit>, k: Key) {
    exists u :: u in Units(w) && KeyOf(w, u) == k && Ahead(Edges(w, a), roots, u)
  }

  /** What a part of the search that starts from `roots` and goes through adds to the state. */
  ghost predicate Adds(w: World, a: Alias, st: State, st': State, roots: set<Unit>) {
    && Good(w, st') && st.filelist <= st'.filelist && st.visited <= st'.visited
    && Open(st') == Open(st)
    && (forall n :: n in st.mapping ==> n in st'.mapping && st'.mapping[n] == st.mapping[n])
    && (forall k :: k in st'.visited - st.visited ==> FromRoots(w, a, roots, k))
  }

  lemma AheadThrough(g: Graph<Unit>, roots: set<Unit>, more: set<Unit>, u: Unit)
    requires forall v :: v in roots ==> Ahead(g, more, v)
    requires Ahead(g, roots, u)
    ensures Ahead(g, more, u)
  {
    var r :| r in roots && Reaches(g, r, u);
    var m :| m in more && Reaches(g, m, r);
    ReachesTransitive(g, m, r, u);
  }

  lemma AddsThen(w: World, a: Alias, st: State, mid: State, st': State, r1: set<Unit>, r2: set<Unit>, roots: set<Unit>)
    requires Good(w, st) && Adds(w, a, st, mid, r1) && Adds(w, a, mid, st', r2)
    requires forall v :: v in r1 + r2 ==> Ahead(Edges(w, a), roots, v)
    ensures Adds(w, a, st, st', roots)
  {
    forall k | k in st'.visited - st.visited
      ensures FromRoots(w, a, roots, k)
    {
      var part := if k in mid.visited then r1 else r2;
      assert FromRoots(w, a, part, k);
      var u :| u in Units(w) && KeyOf(w, u) == k && Ahead(Edges(w, a), part, u);
      AheadThrough(Edges(w, a), part, roots, u);
    }
  }

  lemma RootsAhead(g: Graph<Unit>, roots: set<Unit>)
    ensures forall v :: v in roots ==> Ahead(g, roots, v)
  {
    forall v | v in roots
      ensures Ahead(g, roots, v)
    {
      ReachesSelf(g, v);
    }
  }

  lemma AddsNothing(w: World, a: Alias, st: State, roots: set<Unit>)
    requires Good(w, st)
    ensures Adds(w, a, st, st, roots)
  {
  }

  lemma MappedGood(w: World, self: Id, st: State)
    requires Good(w, st) && Named(w, self)
    ensures Good(w, Mapped(w, self, st)) && Open(Mapped(w, self, st)) == Open(st)
    ensures w[self].name.value in Mapped(w, self, st).mapping
    ensures forall n :: n in st.mapping ==>
      n in Mapped(w, self, st).mapping && Mapped(w, self, st).mapping[n] == st.mapping[n]
  {
  }

  lemma AddsMapped(w: World, a: Alias, self: Id, st: State, st': State, roots: set<Unit>)
    requires Good(w, st) && Named(w, self) && Adds(w, a, Mapped(w, self, st), st', roots)
    ensures Adds(w, a, st, st', roots)
  {
    MappedGood(w, self, st);
  }

  lemma {:induction false} GatherAdds(w: World, a: Alias, self: Id, filesets: seq<string>, st: State)
    requires Good(w, st) && Gather(w, a, self, filesets, st).Done?
    ensures Adds(w, a, st, Gather(w, a, self, filesets, st).state, RootUnits(self, filesets))
    decreases Room(w, st), 3, 0
  {
    MappedGood(w, self, st);
    GatherListAdds(w, a, self, filesets, Mapped(w, self, st));
    AddsMapped(w, a, self, st, Gather(w, a, self, filesets, st).state, RootUnits(self, filesets));
  }

  lemma {:induction false} GatherListAdds(w: World, a: Alias, self: Id, filesets: seq<string>, st: State)
    requires Good(w, st) && Named(w, self) && w[self].name.value in st.mapping
    requires GatherList(w, a, self, filesets, st).Done?
    ensures Adds(w, a, st, GatherList(w, a, self, filesets, st).state, RootUnits(self, filesets))
    decreases Room(w, st), 2, |filesets|
  {
    if filesets == [] {
      AddsNothing(w, a, st, RootUnits(self, filesets));
    } else {
      hide Edges, Visit;
      var u := Unit(self, filesets[0]);
      VisitAdds(w, a, self, filesets[0], st);
      var mid := Visit(w, a, self, filesets[0], st).state;
      RoomShrinks(w, st, mid);
      GatherListAdds(w, a, self, filesets[1..], mid);
      var roots := RootUnits(self, filesets);
      RootsAhead(Edges(w, a), roots);
      assert {u} + RootUnits(self, filesets[1..]) == roots by {
        assert filesets == [filesets[0]] + filesets[1..];
      }
      AddsThen(w, a, st, mid, GatherList(w, a, self, filesets, st).state, {u}, RootUnits(self, filesets[1..]), roots);
    }
  }

  lemma {:induction false} VisitAdds(w: World, a: Alias, self: Id, fileset: string, st: State)
    requires Good(w, st) && Named(w, self) && w[self].name.value in st.mapping
    requires Visit(w, a, self, fileset, st).Done?
    ensures Adds(w, a, st, Visit(w, a, self, fileset, st).state, {Unit(self, fileset)})
    decreases Room(w, st), 1, 0
  {
    var u := Unit(self, fileset);
    var k := KeyOf(w, u);
    if k in st.visited {
      AddsNothing(w, a, st, {u});
    } else {
      KeyInKeys(w, u);
      var st1 := st.(visited := st.visited + {k});
      RoomShrinks(w, st, st1);
      var refs := w[self].filesets[fileset];
      GatherRefsAdds(w, a, self, refs, st1);
      Closes(w, a, st, u, GatherRefs(w, a, self, refs, st1).state);
    }
  }

  /** Following a fileset's references and then listing it adds what lies ahead of it. */
  lemma Closes(w: World, a: Alias, st: State, u: Unit, st2: State)
    requires Good(w, st) && u in Units(w) && KeyOf(w, u) !in st.visited
    requires Adds(w, a, st.(visited := st.visited + {KeyOf(w, u)}), st2, Edges(w, a)[u])
    ensures Adds(w, a, st, st2.(filelist := st2.filelist + [KeyOf(w, u)]), {u})
  {
    var g, k := Edges(w, a), KeyOf(w, u);
    var st1 := st.(visited := st.visited + {k});
    var st3 := st2.(filelist := st2.filelist + [k]);
    assert k in Open(st1) && k in Open(st2);
    assert k !in st2.filelist;
    assert Elements(st3.filelist) == Elements(st2.filelist) + {k};
    assert Open(st3) == Open(st2) - {k} == Open(st);
    forall x | x in st3.visited - st.visited
      ensures FromRoots(w, a, {u}, x)
    {
      if x == k {
        ReachesSelf(g, u);
      } else {
        assert FromRoots(w, a, g[u], x);
        var v :| v in Units(w) && KeyOf(w, v) == x && Ahead(g, g[u], v);
        forall y | y in g[u]
          ensures Ahead(g, {u}, y)
        {
          ReachesStep(g, u, y);
        }
        AheadThrough(g, g[u], {u}, v);
      }
    }
  }

  lemma {:induction false} GatherRefsAdds(w: World, a: Alias, self: Id, refs: seq<Ref>, st: State)
    requires Good(w, st) && Named(w, self) && GatherRefs(w, a, self, refs, st).Done?
    ensures Adds(w, a, st, GatherRefs(w, a, self, refs, st).state, RefUnits(w, a, self, refs))
    decreases Room(w, st), 4, |refs|
  {
    if refs == [] {
      AddsNothing(w, a, st, RefUnits(w, a, self, refs));
    } else {
      var t := Resolve(w, a, self, refs[0]);
      GatherTargetAdds(w, a, t, st);
      var mid := GatherTarget(w, a, t, st).state;
      RoomShrinks(w, st, mid);
      GatherRefsAdds(w, a, self, refs[1..], mid);
      var roots := RefUnits(w, a, self, refs);
      RootsAhead(Edges(w, a), roots);
      RefUnitsSplit(w, a, self, refs);
      AddsThen(w, a, st, mid, GatherRefs(w, a, self, refs, st).state, TargetUnits(t), RefUnits(w, a, self, refs[1..]),
        roots);
    }
  }

  lemma RefUnitsSplit(w: World, a: Alias, self: Id, refs: seq<Ref>)
    requires Named(w, self) && refs != []
    ensures RefUnits(w, a, self, refs) == TargetUnits(Resolve(w, a, self, refs[0])) + RefUnits(w, a, self, refs[1..])
  {
    assert refs == [refs[0]] + refs[1..];
    assert forall r :: r in refs <==> r == refs[0] || r in refs[1..];
  }

  lemma {:induction false} GatherTargetAdds(w: World, a: Alias, t: Target, st: State)
    requires Good(w, st) && GatherTarget(w, a, t, st).Done?
    ensures Adds(w, a, st, GatherTarget(w, a, t, st).state, TargetUnits(t))
    decreases Room(w, st), 4, 0
  {
    if t.To? && !AlreadyVisited(w, t, st) {
      GatherAdds(w, a, t.design, t.filesets, st);
    } else {
      AddsNothing(w, a, st, TargetUnits(t));
    }
  }

  // ----------------------------------------------------------- completeness

  /** The filesets a search may come to, and the designs it may enter. */
  datatype Scope = Scope(units: iset<Unit>, designs: iset<Id>)

  /** References lead out of the scope neither to filesets nor to designs. */
  ghost predicate ScopeClosed(w: World, a: Alias, s: Scope) {
    && (forall u, v :: u in s.units && u in Units(w) && v in Edges(w, a)[u] ==> v in s.units)
    && (forall u, r :: u in s.units && u in Units(w) && r in w[u.design].filesets[u.fileset] ==>
      Enters(w, a, s, u.design, r))
  }

  ghost predicate Enters(w: World, a: Alias, s: Scope, self: Id, r: Ref)
    requires Named(w, self)
  {
    var t := Resolve(w, a, self, r);
    t.To? ==> t.design in s.designs
  }

  /** What filesets are remembered by tells those of the scope apart. */
  ghost predicate KeysApart(w: World, s: Scope) {
    forall u, v ::
      (u in s.units && v in s.units && Named(w, u.design) && Named(w, v.design) && KeyOf(w, u) == KeyOf(w, v)) ==>
        u == v
  }

  ghost predicate Fits(w: World, a: Alias, s: Scope) {
    ScopeClosed(w, a, s) && KeysApart(w, s)
  }

  /** Only filesets of the scope have been visited. */
  ghost predicate Known(w: World, s: Scope, st: State) {
    forall k :: k in st.visited ==> KeyKnown(w, s, k)
  }

  ghost predicate KeyKnown(w: World, s: Scope, k: Key) {
    exists v :: v in s.units && v in Units(w) && KeyOf(w, v) == k
  }

  ghost predicate UnitsIn(roots: set<Unit>, s: Scope) {
    forall r :: r in roots ==> r in s.units
  }

  lemma {:induction false} WalkInScope(w: World, a: Alias, s: Scope, p: seq<Unit>, i: nat)
    requires ScopeClosed(w, a, s) && IsWalk(Edges(w, a), p) && p[0] in s.units && i < |p|
    ensures p[i] in s.units
  {
    if i > 0 {
      WalkInScope(w, a, s, p, i - 1);
      assert p[i - 1] in Edges(w, a) && p[i - 1 + 1] in Edges(w, a)[p[i - 1]];
    }
  }

  lemma KnownGrows(w: World, a: Alias, s: Scope, st: State, st': State, roots: set<Unit>)
    requires ScopeClosed(w, a, s) && Known(w, s, st) && Adds(w, a, st, st', roots) && UnitsIn(roots, s)
    ensures Known(w, s, st')
  {
    forall k | k in st'.visited
      ensures KeyKnown(w, s, k)
    {
      if k !in st.visited {
        assert FromRoots(w, a, roots, k);
        var u :| u in Units(w) && KeyOf(w, u) == k && Ahead(Edges(w, a), roots, u);
        var r :| r in roots && Reaches(Edges(w, a), r, u);
        var p :| WalkBetween(Edges(w, a), p, r, u);
        WalkInScope(w, a, s, p, |p| - 1);
      }
    }
  }

  /**
   * Everything the visited filesets refer to is visited as well, nothing of it is faulty, and only
   * designs of the scope were entered.
   */
  ghost predicate Covers(w: World, a: Alias, s: Scope, st: State, st': State, roots: set<Unit>) {
    && (forall r :: r in roots ==> r in Units(w) && KeyOf(w, r) in st'.visited)
    && (forall u :: u in s.units && u in Units(w) && KeyOf(w, u) in st'.visited - st.visited ==> Followed(w, a, st', u))
    && (forall n :: n in st'.mapping && n !in st.mapping ==> st'.mapping[n] in s.designs)
  }

  ghost predicate Followed(w: World, a: Alias, st: State, u: Unit)
    requires u in Units(w)
  {
    !Faulty(w, a, u) && forall v :: v in Edges(w, a)[u] ==> v in Units(w) && KeyOf(w, v) in st.visited
  }

  lemma KeyDeterminesUnit(w: World, s: Scope, u: Unit, v: Unit)
    requires KeysApart(w, s) && u in s.units && v in s.units
    requires Named(w, u.design) && Named(w, v.design) && KeyOf(w, u) == KeyOf(w, v)
    ensures u == v
  {
  }

  /** What was visited stays visited, and every name keeps the design it was given. */
  ghost predicate Extends(st: State, st': State) {
    && st.visited <= st'.visited
    && forall n :: n in st.mapping ==> n in st'.mapping && st'.mapping[n] == st.mapping[n]
  }

  lemma AddsExtends(w: World, a: Alias, st: State, st': State, roots: set<Unit>)
    requires Adds(w, a, st, st', roots)
    ensures Extends(st, st') && Good(w, st')
  {
  }

  lemma CoversThen(w: World, a: Alias, s: Scope, st: State, mid: State, st': State, r1: set<Unit>, r2: set<Unit>)
    requires Covers(w, a, s, st, mid, r1) && Covers(w, a, s, mid, st', r2) && Extends(mid, st')
    ensures Covers(w, a, s, st, st', r1 + r2)
  {
    forall u | u in s.units && u in Units(w) && KeyOf(w, u) in st'.visited - st.visited
      ensures Followed(w, a, st', u)
    {
      if KeyOf(w, u) in mid.visited {
        assert Followed(w, a, mid, u);
      }
    }
  }

  lemma CoversMapping(w: World, a: Alias, s: Scope, self: Id, st: State, st': State, roots: set<Unit>)
    requires Named(w, self) && self in s.designs && Covers(w, a, s, Mapped(w, self, st), st', roots)
      && Extends(Mapped(w, self, st), st')
    ensures Covers(w, a, s, st, st', roots)
  {
    var st0 := Mapped(w, self, st);
    forall n | n in st'.mapping && n !in st.mapping
      ensures st'.mapping[n] in s.designs
    {
      if n in st0.mapping {
        assert st'.mapping[n] == st0.mapping[n] == self;
      }
    }
  }

  lemma {:induction false} GatherCovers(w: World, a: Alias, s: Scope, self: Id, filesets: seq<string>, st: State)
    requires Fits(w, a, s) && Good(w, st) && Known(w, s, st) && Gather(w, a, self, filesets, st).Done?
    requires self in s.designs && UnitsIn(RootUnits(self, filesets), s)
    ensures Covers(w, a, s, st, Gather(w, a, self, filesets, st).state, RootUnits(self, filesets))
    decreases Room(w, st), 3, 0
  {
    var st0 := Mapped(w, self, st);
    MappedGood(w, self, st);
    GatherListCovers(w, a, s, self, filesets, st0);
    GatherListAdds(w, a, self, filesets, st0);
    hide Covers, Adds, Good, Fits, UnitsIn, Known;
    AddsExtends(w, a, st0, GatherList(w, a, self, filesets, st0).state, RootUnits(self, filesets));
    CoversMapping(w, a, s, self, st, GatherList(w, a, self, filesets, st0).state, RootUnits(self, filesets));
  }

  lemma CoversNothing(w: World, a: Alias, s: Scope, st: State)
    ensures Covers(w, a, s, st, st, {})
  {
  }

  lemma RootUnitsSplit(self: Id, filesets: seq<string>, s: Scope)
    requires filesets != []
    ensures RootUnits(self, filesets) == {Unit(self, filesets[0])} + RootUnits(self, filesets[1..])
    ensures UnitsIn(RootUnits(self, filesets), s) ==>
      Unit(self, filesets[0]) in s.units && UnitsIn(RootUnits(self, filesets[1..]), s)
  {
    assert filesets == [filesets[0]] + filesets[1..];
    assert Unit(self, filesets[0]) in RootUnits(self, filesets);
  }

  lemma {:induction false} GatherListCovers(w: World, a: Alias, s: Scope, self: Id, filesets: seq<string>, st: State)
    requires Fits(w, a, s) && Good(w, st) && Known(w, s, st) && Named(w, self) && w[self].name.value in st.mapping
    requires GatherList(w, a, self, filesets, st).Done? && UnitsIn(RootUnits(self, filesets), s)
    ensures Covers(w, a, s, st, GatherList(w, a, self, filesets, st).state, RootUnits(self, filesets))
    decreases Room(w, st), 2, |filesets|
  {
    hide Covers, Visit, KeysApart, ScopeClosed, Known, UnitsIn, FromRoots;
    if filesets == [] {
      CoversNothing(w, a, s, st);
      assert RootUnits(self, filesets) == {};
    } else {
      var u := Unit(self, filesets[0]);
      RootUnitsSplit(self, filesets, s);
      VisitAdds(w, a, self, filesets[0], st);
      VisitCovers(w, a, s, self, filesets[0], st);
      var mid := Visit(w, a, self, filesets[0], st).state;
      AddsExtends(w, a, st, mid, {u});
      OneIn(u, s);
      KnownGrows(w, a, s, st, mid, {u});
      RoomShrinks(w, st, mid);
      GatherListAdds(w, a, self, filesets[1..], mid);
      GatherListCovers(w, a, s, self, filesets[1..], mid);
      CoversThen(w, a, s, st, mid, GatherList(w, a, self, filesets, st).state, {u}, RootUnits(self, filesets[1..]));
    }
  }

  lemma OneIn(u: Unit, s: Scope)
    requires u in s.units
    ensures UnitsIn({u}, s)
  {
  }

  lemma {:induction false} VisitCovers(w: World, a: Alias, s: Scope, self: Id, fileset: string, st: State)
    requires Fits(w, a, s) && Good(w, st) && Known(w, s, st) && Named(w, self) && w[self].name.value in st.mapping
    requires Visit(w, a, self, fileset, st).Done? && Unit(self, fileset) in s.units
    ensures Covers(w, a, s, st, Visit(w, a, self, fileset, st).state, {Unit(self, fileset)})
    decreases Room(w, st), 1, 0
  {
    var u := Unit(self, fileset);
    var k := KeyOf(w, u);
    hide GatherRefs, Ordered, OpenLeadTo, Covers, KeysApart, ScopeClosed, Known, FromRoots, Enters, UnitsIn, BadRef,
      Adds, Edges;
    if k in st.visited {
      VisitedCovers(w, a, s, st, u);
    } else {
      KeyInKeys(w, u);
      var st1 := st.(visited := st.visited + {k});
      RoomShrinks(w, st, st1);
      var refs := w[self].filesets[fileset];
      var st2 := GatherRefs(w, a, self, refs, st1).state;
      VisitScope(w, a, s, st, u);
      GatherRefsAdds(w, a, self, refs, st1);
      AddsExtends(w, a, st1, st2, RefUnits(w, a, self, refs));
      GatherRefsCovers(w, a, s, self, refs, st1);
      GatherRefsFollowed(w, a, self, refs, st1);
      EdgesKeys(w, a);
      CoversClose(w, a, s, st, u, st2);
    }
  }

  lemma VisitedCovers(w: World, a: Alias, s: Scope, st: State, u: Unit)
    requires u in Units(w) && KeyOf(w, u) in st.visited
    ensures Covers(w, a, s, st, st, {u})
  {
  }

  /** Entering a fileset of the scope keeps the search in it. */
  lemma VisitScope(w: World, a: Alias, s: Scope, st: State, u: Unit)
    requires ScopeClosed(w, a, s) && Known(w, s, st) && u in Units(w) && u in s.units
    ensures Known(w, s, st.(visited := st.visited + {KeyOf(w, u)}))
    ensures Edges(w, a)[u] == RefUnits(w, a, u.design, w[u.design].filesets[u.fileset]) && UnitsIn(Edges(w, a)[u], s)
    ensures forall r :: r in w[u.design].filesets[u.fileset] ==> Enters(w, a, s, u.design, r)
  {
    assert KeyKnown(w, s, KeyOf(w, u));
  }

  lemma CoversClose(w: World, a: Alias, s: Scope, st: State, u: Unit, st2: State)
    requires Fits(w, a, s) && u in Units(w) && u in s.units && KeyOf(w, u) !in st.visited
    requires st.visited + {KeyOf(w, u)} <= st2.visited
    requires Covers(w, a, s, st.(visited := st.visited + {KeyOf(w, u)}), st2, Edges(w, a)[u])
    requires forall r :: r in w[u.design].filesets[u.fileset] ==> !BadRef(w, a, u.design, r)
    ensures Covers(w, a, s, st, st2.(filelist := st2.filelist + [KeyOf(w, u)]), {u})
  {
    var st3 := st2.(filelist := st2.filelist + [KeyOf(w, u)]);
    assert Followed(w, a, st3, u);
    hide Edges, BadRef;
    forall x | x in s.units && x in Units(w) && KeyOf(w, x) in st3.visited - st.visited
      ensures Followed(w, a, st3, x)
    {
      if KeyOf(w, x) == KeyOf(w, u) {
        KeyDeterminesUnit(w, s, x, u);
      } else {
        assert Followed(w, a, st2, x);
      }
    }
  }

  lemma RefsScope(w: World, a: Alias, s: Scope, self: Id, refs: seq<Ref>)
    requires Named(w, self) && refs != [] && UnitsIn(RefUnits(w, a, self, refs), s)
    requires forall r :: r in refs ==> Enters(w, a, s, self, r)
    ensures var t := Resolve(w, a, self, refs[0]);
      UnitsIn(TargetUnits(t), s) && (t.To? ==> t.design in s.designs)
    ensures UnitsIn(RefUnits(w, a, self, refs[1..]), s)
    ensures forall r :: r in refs[1..] ==> Enters(w, a, s, self, r)
  {
    RefUnitsSplit(w, a, self, refs);
    assert Enters(w, a, s, self, refs[0]);
  }

  lemma {:induction false} GatherRefsCovers(w: World, a: Alias, s: Scope, self: Id, refs: seq<Ref>, st: State)
    requires Fits(w, a, s) && Good(w, st) && Known(w, s, st) && Named(w, self) && GatherRefs(w, a, self, refs, st).Done?
    requires UnitsIn(RefUnits(w, a, self, refs), s) && forall r :: r in refs ==> Enters(w, a, s, self, r)
    ensures Covers(w, a, s, st, GatherRefs(w, a, self, refs, st).state, RefUnits(w, a, self, refs))
    decreases Room(w, st), 4, |refs|
  {
    hide Covers, KeysApart, ScopeClosed, Known, UnitsIn, FromRoots, Enters, Resolve;
    if refs == [] {
      CoversNothing(w, a, s, st);
      assert RefUnits(w, a, self, refs) == {};
    } else {
      var t := Resolve(w, a, self, refs[0]);
      RefsScope(w, a, s, self, refs);
      ResolveSingle(w, a, self, refs[0]);
      GatherTargetAdds(w, a, t, st);
      GatherTargetCovers(w, a, s, t, st);
      var mid := GatherTarget(w, a, t, st).state;
      AddsExtends(w, a, st, mid, TargetUnits(t));
      KnownGrows(w, a, s, st, mid, TargetUnits(t));
      RoomShrinks(w, st, mid);
      GatherRefsAdds(w, a, self, refs[1..], mid);
      GatherRefsCovers(w, a, s, self, refs[1..], mid);
      RefUnitsSplit(w, a, self, refs);
      CoversThen(w, a, s, st, mid, GatherRefs(w, a, self, refs, st).state, TargetUnits(t),
        RefUnits(w, a, self, refs[1..]));
    }
  }

  lemma ResolveSingle(w: World, a: Alias, self: Id, r: Ref)
    requires Named(w, self)
    ensures SingleTarget(Resolve(w, a, self, r))
  {
  }

  ghost predicate SingleTarget(t: Target) {
    t.To? && t.single ==> |t.filesets| == 1
  }

  lemma TargetFollowed(w: World, a: Alias, t: Target, st: State)
    requires Within(w, st) && GatherTarget(w, a, t, st).Done?
    ensures !t.Missing? && (t.To? ==> Named(w, t.design))
  {
    if t.To? && !AlreadyVisited(w, t, st) {
      assert GatherTarget(w, a, t, st) == Gather(w, a, t.design, t.filesets, st);
    }
  }

  lemma {:induction false} GatherRefsFollowed(w: World, a: Alias, self: Id, refs: seq<Ref>, st: State)
    requires Within(w, st) && Named(w, self) && GatherRefs(w, a, self, refs, st).Done?
    ensures forall r :: r in refs ==> !BadRef(w, a, self, r)
    decreases |refs|
  {
    if refs != [] {
      var mid := GatherTarget(w, a, Resolve(w, a, self, refs[0]), st).state;
      GatherRefsFollowed(w, a, self, refs[1..], mid);
      TargetFollowed(w, a, Resolve(w, a, self, refs[0]), st);
      assert refs == [refs[0]] + refs[1..];
    }
  }

  lemma {:induction false} GatherTargetCovers(w: World, a: Alias, s: Scope, t: Target, st: State)
    requires Fits(w, a, s) && Good(w, st) && Known(w, s, st) && GatherTarget(w, a, t, st).Done?
    requires SingleTarget(t) && UnitsIn(TargetUnits(t), s) && (t.To? ==> t.design in s.designs)
    ensures Covers(w, a, s, st, GatherTarget(w, a, t, st).state, TargetUnits(t))
    decreases Room(w, st), 4, 0
  {
    if t.To? {
      if AlreadyVisited(w, t, st) {
        VisitedTarget(w, s, t, st);
      } else {
        GatherCovers(w, a, s, t.design, t.filesets, st);
      }
    }
  }

  /** A target remembered as visited is the fileset that was visited. */
  lemma VisitedTarget(w: World, s: Scope, t: Target, st: State)
    requires KeysApart(w, s) && Known(w, s, st) && SingleTarget(t) && UnitsIn(TargetUnits(t), s)
    requires t.To? && AlreadyVisited(w, t, st)
    ensures TargetUnits(t) == {Unit(t.design, t.filesets[0])} && Unit(t.design, t.filesets[0]) in Units(w)
  {
    var u := Unit(t.design, t.filesets[0]);
    assert KeyKnown(w, s, KeyOf(w, u));
    var v :| v in s.units && v in Units(w) && KeyOf(w, v) == KeyOf(w, u);
    assert u in TargetUnits(t);
    KeyDeterminesUnit(w, s, u, v);
  }

  // ---------------------------------------------------------------- failures

  ghost predicate FaultAhead(w: World, a: Alias, roots: set<Unit>) {
    exists u :: Faulty(w, a, u) && Ahead(Edges(w, a), roots, u)
  }

  lemma FaultFurther(w: World, a: Alias, roots: set<Unit>, more: set<Unit>)
    requires forall v :: v in roots ==> Ahead(Edges(w, a), more, v)
    requires FaultAhead(w, a, roots)
    ensures FaultAhead(w, a, more)
  {
    var u :| Faulty(w, a, u) && Ahead(Edges(w, a), roots, u);
    AheadThrough(Edges(w, a), roots, more, u);
  }

  lemma FaultInMore(w: World, a: Alias, roots: set<Unit>, more: set<Unit>)
    requires roots <= more && FaultAhead(w, a, roots)
    ensures FaultAhead(w, a, more)
  {
    RootsAhead(Edges(w, a), more);
    FaultFurther(w, a, roots, more);
  }

  lemma {:induction false} GatherFails(w: World, a: Alias, self: Id, filesets: seq<string>, st: State)
    requires Within(w, st) && Gather(w, a, self, filesets, st).Failed?
    ensures !Named(w, self) || FaultAhead(w, a, RootUnits(self, filesets))
    decreases Room(w, st), 3, 0
  {
    if Named(w, self) {
      GatherListFails(w, a, self, filesets, Mapped(w, self, st));
    }
  }

  lemma {:induction false} GatherListFails(w: World, a: Alias, self: Id, filesets: seq<string>, st: State)
    requires Within(w, st) && Named(w, self) && GatherList(w, a, self, filesets, st).Failed?
    ensures FaultAhead(w, a, RootUnits(self, filesets))
    decreases Room(w, st), 2, |filesets|
  {
    var r := Visit(w, a, self, filesets[0], st);
    assert filesets == [filesets[0]] + filesets[1..];
    if r.Failed? {
      VisitFails(w, a, self, filesets[0], st);
      FaultInMore(w, a, {Unit(self, filesets[0])}, RootUnits(self, filesets));
    } else {
      RoomShrinks(w, st, r.state);
      GatherListFails(w, a, self, filesets[1..], r.state);
      FaultInMore(w, a, RootUnits(self, filesets[1..]), RootUnits(self, filesets));
    }
  }

  lemma {:induction false} VisitFails(w: World, a: Alias, self: Id, fileset: string, st: State)
    requires Within(w, st) && Named(w, self) && Visit(w, a, self, fileset, st).Failed?
    ensures FaultAhead(w, a, {Unit(self, fileset)})
    decreases Room(w, st), 1, 0
  {
    var u := Unit(self, fileset);
    var g := Edges(w, a);
    RootsAhead(g, {u});
    if u in Units(w) {
      KeyInKeys(w, u);
      var st1 := st.(visited := st.visited + {KeyOf(w, u)});
      RoomShrinks(w, st, st1);
      GatherRefsFails(w, a, self, w[self].filesets[fileset], st1);
      if !Faulty(w, a, u) {
        forall v | v in g[u]
          ensures Ahead(g, {u}, v)
        {
          ReachesStep(g, u, v);
        }
        FaultFurther(w, a, g[u], {u});
      }
    }
  }

  lemma {:induction false} GatherRefsFails(w: World, a: Alias, self: Id, refs: seq<Ref>, st: State)
    requires Within(w, st) && Named(w, self) && GatherRefs(w, a, self, refs, st).Failed?
    ensures (exists r :: r in refs && BadRef(w, a, self, r)) || FaultAhead(w, a, RefUnits(w, a, self, refs))
    decreases Room(w, st), 4, |refs|
  {
    var t := Resolve(w, a, self, refs[0]);
    var r := GatherTarget(w, a, t, st);
    RefUnitsSplit(w, a, self, refs);
    assert refs == [refs[0]] + refs[1..];
    if r.Failed? {
      GatherTargetFails(w, a, t, st);
      if !BadRef(w, a, self, refs[0]) {
        FaultInMore(w, a, TargetUnits(t), RefUnits(w, a, self, refs));
      } else {
        assert refs[0] in refs;
      }
    } else {
      RoomShrinks(w, st, r.state);
      GatherRefsFails(w, a, self, refs[1..], r.state);
      if FaultAhead(w, a, RefUnits(w, a, self, refs[1..])) {
        FaultInMore(w, a, RefUnits(w, a, self, refs[1..]), RefUnits(w, a, self, refs));
      } else {
        var x :| x in refs[1..] && BadRef(w, a, self, x);
        assert x in refs;
      }
    }
  }

  lemma {:induction false} GatherTargetFails(w: World, a: Alias, t: Target, st: State)
    requires Within(w, st) && GatherTarget(w, a, t, st).Failed?
    ensures t.Missing? || (t.To? && !Named(w, t.design)) || FaultAhead(w, a, TargetUnits(t))
    decreases Room(w, st), 4, 0
  {
    if t.To? {
      GatherFails(w, a, t.design, t.filesets, st);
    }
  }

  // ------------------------------------------------------- dependencies first

  /** Every open fileset leads to the roots about to be searched. */
  ghost predicate OpenLeadTo(w: World, a: Alias, s: Scope, st: State, roots: set<Unit>) {
    forall x, r :: x in s.units && x in Units(w) && KeyOf(w, x) in Open(st) && r in roots ==> Reaches(Edges(w, a), x, r)
  }

  /** What was listed at `i` comes after `v`, or `v` leads back to it. */
  ghost predicate Precedes(w: World, a: Alias, st: State, i: nat, u: Unit, v: Unit)
    requires i < |st.filelist|
  {
    KeyOf(w, v) in st.filelist[..i] || Reaches(Edges(w, a), v, u)
  }

  /** Whatever was listed in between comes after everything it refers to that does not lead back to it. */
  ghost predicate Ordered(w: World, a: Alias, s: Scope, st: State, st': State) {
    forall i: nat, u, v ::
      |st.filelist| <= i < |st'.filelist| && u in s.units && u in Units(w) && KeyOf(w, u) == st'.filelist[i]
        && v in Edges(w, a)[u] ==>
        Precedes(w, a, st', i, u, v)
  }

  lemma OrderedThen(w: World, a: Alias, s: Scope, st: State, mid: State, st': State)
    requires st.filelist <= mid.filelist <= st'.filelist
    requires Ordered(w, a, s, st, mid) && Ordered(w, a, s, mid, st')
    ensures Ordered(w, a, s, st, st')
  {
    hide Edges, Reaches;
    assert Edges(w, a).Keys == Units(w) by {
      EdgesKeys(w, a);
    }
    forall i: nat, u, v | |st.filelist| <= i < |st'.filelist| && u in s.units && u in Units(w)
      && KeyOf(w, u) == st'.filelist[i] && v in Edges(w, a)[u]
      ensures Precedes(w, a, st', i, u, v)
    {
      if i < |mid.filelist| {
        assert mid.filelist[i] == st'.filelist[i];
        assert mid.filelist[..i] == st'.filelist[..i];
        assert Precedes(w, a, mid, i, u, v);
      }
    }
  }

  lemma EdgesKeys(w: World, a: Alias)
    ensures Edges(w, a).Keys == Units(w)
  {
  }

  lemma OrderedMapped(w: World, a: Alias, s: Scope, self: Id, st: State, st': State, roots: set<Unit>)
    requires Good(w, st) && Named(w, self)
    ensures OpenLeadTo(w, a, s, st, roots) ==> OpenLeadTo(w, a, s, Mapped(w, self, st), roots)
    ensures Ordered(w, a, s, Mapped(w, self, st), st') ==> Ordered(w, a, s, st, st')
  {
    MappedGood(w, self, st);
    hide Edges, Precedes, Units;
  }

  lemma {:induction false} GatherOrdered(w: World, a: Alias, s: Scope, self: Id, filesets: seq<string>, st: State)
    requires Fits(w, a, s) && Good(w, st) && Known(w, s, st) && Gather(w, a, self, filesets, st).Done?
    requires self in s.designs && UnitsIn(RootUnits(self, filesets), s)
    requires OpenLeadTo(w, a, s, st, RootUnits(self, filesets))
    ensures Ordered(w, a, s, st, Gather(w, a, self, filesets, st).state)
    decreases Room(w, st), 3, 0
  {
    hide Ordered, OpenLeadTo, KeysApart, ScopeClosed, UnitsIn;
    MappedGood(w, self, st);
    OrderedMapped(w, a, s, self, st, GatherList(w, a, self, filesets, Mapped(w, self, st)).state,
      RootUnits(self, filesets));
    GatherListOrdered(w, a, s, self, filesets, Mapped(w, self, st));
  }

  lemma {:induction false} GatherListOrdered(w: World, a: Alias, s: Scope, self: Id, filesets: seq<string>, st: State)
    requires Fits(w, a, s) && Good(w, st) && Known(w, s, st) && Named(w, self) && w[self].name.value in st.mapping
    requires UnitsIn(RootUnits(self, filesets), s)
    requires GatherList(w, a, self, filesets, st).Done? && OpenLeadTo(w, a, s, st, RootUnits(self, filesets))
    ensures Ordered(w, a, s, st, GatherList(w, a, self, filesets, st).state)
    decreases Room(w, st), 2, |filesets|
  {
    hide Ordered, OpenLeadTo, KeysApart, ScopeClosed, UnitsIn, Visit, Known, FromRoots;
    if filesets == [] {
      NothingOrdered(w, a, s, st);
    } else {
      var u := Unit(self, filesets[0]);
      RootUnitsSplit(self, filesets, s);
      VisitAdds(w, a, self, filesets[0], st);
      var mid := Visit(w, a, self, filesets[0], st).state;
      OpenLeadParts(w, a, s, st, mid, {u}, RootUnits(self, filesets[1..]));
      VisitOrdered(w, a, s, self, filesets[0], st);
      OneIn(u, s);
      KnownGrows(w, a, s, st, mid, {u});
      RoomShrinks(w, st, mid);
      GatherListAdds(w, a, self, filesets[1..], mid);
      GatherListOrdered(w, a, s, self, filesets[1..], mid);
      OrderedThen(w, a, s, st, mid, GatherList(w, a, self, filesets, st).state);
    }
  }

  lemma NothingOrdered(w: World, a: Alias, s: Scope, st: State)
    ensures Ordered(w, a, s, st, st)
  {
  }

  lemma OpenLeadParts(w: World, a: Alias, s: Scope, st: State, mid: State, r1: set<Unit>, r2: set<Unit>)
    requires OpenLeadTo(w, a, s, st, r1 + r2) && Open(mid) == Open(st)
    ensures OpenLeadTo(w, a, s, st, r1) && OpenLeadTo(w, a, s, mid, r2)
  {
    hide Edges, Reaches, Units, Open;
  }

  lemma {:induction false} VisitOrdered(w: World, a: Alias, s: Scope, self: Id, fileset: string, st: State)
    requires Fits(w, a, s) && Good(w, st) && Known(w, s, st) && Named(w, self) && w[self].name.value in st.mapping
    requires Unit(self, fileset) in s.units
    requires Visit(w, a, self, fileset, st).Done? && OpenLeadTo(w, a, s, st, {Unit(self, fileset)})
    ensures Ordered(w, a, s, st, Visit(w, a, self, fileset, st).state)
    decreases Room(w, st), 1, 0
  {
    var u := Unit(self, fileset);
    var k := KeyOf(w, u);
    hide GatherRefs, Ordered, OpenLeadTo, Covers, KeysApart, ScopeClosed, Known, FromRoots, Enters, UnitsIn, Edges;
    if k in st.visited {
      NothingOrdered(w, a, s, st);
    } else {
      KeyInKeys(w, u);
      var st1 := st.(visited := st.visited + {k});
      RoomShrinks(w, st, st1);
      var refs := w[self].filesets[fileset];
      EdgesKeys(w, a);
      VisitScope(w, a, s, st, u);
      OpenLeadFurther(w, a, s, st, u);
      GatherRefsAdds(w, a, self, refs, st1);
      GatherRefsCovers(w, a, s, self, refs, st1);
      GatherRefsOrdered(w, a, s, self, refs, st1);
      OrderedClose(w, a, s, st, u, GatherRefs(w, a, self, refs, st1).state);
    }
  }

  lemma OpenLeadFurther(w: World, a: Alias, s: Scope, st: State, u: Unit)
    requires Fits(w, a, s) && u in Units(w) && u in s.units && OpenLeadTo(w, a, s, st, {u})
    ensures OpenLeadTo(w, a, s, st.(visited := st.visited + {KeyOf(w, u)}), Edges(w, a)[u])
  {
    var g := Edges(w, a);
    var st1 := st.(visited := st.visited + {KeyOf(w, u)});
    hide Reaches;
    forall x, v | x in s.units && x in Units(w) && KeyOf(w, x) in Open(st1) && v in g[u]
      ensures Reaches(g, x, v)
    {
      ReachesStep(g, u, v);
      if KeyOf(w, x) == KeyOf(w, u) {
        KeyDeterminesUnit(w, s, x, u);
      } else {
        assert KeyOf(w, x) in Open(st);
        ReachesTransitive(g, x, u, v);
      }
    }
  }

  /** What a fileset refers to is listed by the time its references have been followed, unless it leads back. */
  lemma RefsListed(w: World, a: Alias, s: Scope, st: State, u: Unit, st2: State, v: Unit)
    requires Fits(w, a, s) && u in Units(w) && u in s.units && v in Edges(w, a)[u]
    requires OpenLeadTo(w, a, s, st, {u})
    requires Open(st2) == Open(st.(visited := st.visited + {KeyOf(w, u)}))
    requires Covers(w, a, s, st.(visited := st.visited + {KeyOf(w, u)}), st2, Edges(w, a)[u])
    ensures KeyOf(w, v) in st2.filelist || Reaches(Edges(w, a), v, u)
  {
    var g, k := Edges(w, a), KeyOf(w, u);
    assert g.Keys == Units(w) && v in Units(w) && v in s.units && KeyOf(w, v) in st2.visited;
    hide Edges, Covers, Reaches;
    if KeyOf(w, v) !in st2.filelist {
      assert KeyOf(w, v) in Open(st2);
      if KeyOf(w, v) == k {
        KeyDeterminesUnit(w, s, v, u);
        ReachesSelf(g, u);
      } else {
        assert KeyOf(w, v) in Open(st);
      }
    }
  }

  lemma OrderedClose(w: World, a: Alias, s: Scope, st: State, u: Unit, st2: State)
    requires Fits(w, a, s) && u in Units(w) && u in s.units && KeyOf(w, u) !in st.visited
    requires OpenLeadTo(w, a, s, st, {u})
    requires Good(w, st) && Good(w, st2) && st.filelist <= st2.filelist
      && Open(st2) == Open(st.(visited := st.visited + {KeyOf(w, u)}))
    requires Covers(w, a, s, st.(visited := st.visited + {KeyOf(w, u)}), st2, Edges(w, a)[u])
    requires Ordered(w, a, s, st.(visited := st.visited + {KeyOf(w, u)}), st2)
    ensures Ordered(w, a, s, st, st2.(filelist := st2.filelist + [KeyOf(w, u)]))
  {
    var g, k := Edges(w, a), KeyOf(w, u);
    EdgesKeys(w, a);
    hide Edges, Good, Covers, OpenLeadTo, Open, Reaches, ScopeClosed;
    var st3 := st2.(filelist := st2.filelist + [k]);
    forall i: nat, x, v | |st.filelist| <= i < |st3.filelist| && x in s.units && x in Units(w)
      && KeyOf(w, x) == st3.filelist[i] && v in g[x]
      ensures Precedes(w, a, st3, i, x, v)
    {
      assert st3.filelist[..i] == st2.filelist[..i];
      if i == |st2.filelist| {
        KeyDeterminesUnit(w, s, x, u);
        RefsListed(w, a, s, st, u, st2, v);
        assert st2.filelist[..i] == st2.filelist;
      } else {
        assert st3.filelist[i] == st2.filelist[i];
        assert Precedes(w, a, st2, i, x, v);
      }
    }
  }

  lemma {:induction false} GatherRefsOrdered(w: World, a: Alias, s: Scope, self: Id, refs: seq<Ref>, st: State)
    requires Fits(w, a, s) && Good(w, st) && Known(w, s, st) && Named(w, self) && GatherRefs(w, a, self, refs, st).Done?
    requires UnitsIn(RefUnits(w, a, self, refs), s) && forall r :: r in refs ==> Enters(w, a, s, self, r)
    requires OpenLeadTo(w, a, s, st, RefUnits(w, a, self, refs))
    ensures Ordered(w, a, s, st, GatherRefs(w, a, self, refs, st).state)
    decreases Room(w, st), 4, |refs|
  {
    hide Ordered, OpenLeadTo, KeysApart, ScopeClosed, UnitsIn, Known, FromRoots, Enters, Resolve;
    if refs == [] {
      NothingOrdered(w, a, s, st);
    } else {
      var t := Resolve(w, a, self, refs[0]);
      RefsScope(w, a, s, self, refs);
      RefUnitsSplit(w, a, self, refs);
      GatherTargetAdds(w, a, t, st);
      var mid := GatherTarget(w, a, t, st).state;
      OpenLeadParts(w, a, s, st, mid, TargetUnits(t), RefUnits(w, a, self, refs[1..]));
      GatherTargetOrdered(w, a, s, t, st);
      KnownGrows(w, a, s, st, mid, TargetUnits(t));
      RoomShrinks(w, st, mid);
      GatherRefsAdds(w, a, self, refs[1..], mid);
      GatherRefsOrdered(w, a, s, self, refs[1..], mid);
      OrderedThen(w, a, s, st, mid, GatherRefs(w, a, self, refs, st).state);
    }
  }

  lemma {:induction false} GatherTargetOrdered(w: World, a: Alias, s: Scope, t: Target, st: State)
    requires Fits(w, a, s) && Good(w, st) && Known(w, s, st) && GatherTarget(w, a, t, st).Done?
    requires UnitsIn(TargetUnits(t), s) && (t.To? ==> t.design in s.designs)
    requires OpenLeadTo(w, a, s, st, TargetUnits(t))
    ensures Ordered(w, a, s, st, GatherTarget(w, a, t, st).state)
    decreases Room(w, st), 4, 0
  {
    var r := GatherTarget(w, a, t, st);
    if t.To? && !AlreadyVisited(w, t, st) {
      assert r == Gather(w, a, t.design, t.filesets, st);
      GatherOrdered(w, a, s, t.design, t.filesets, st);
    } else {
      assert r == Done(st);
      NothingOrdered(w, a, s, st);
    }
  }

  // -------------------------------------------------------------- get_fileset

  ghost const START: State := State({}, [], map[])

  ghost function Search(w: World, a: Alias, self: Id, filesets: seq<string>): Outcome {
    Gather(w, a, self, filesets, START)
  }

  lemma NoneLeftOpen(st: State)
    requires Elements(st.filelist) <= st.visited && Open(st) == Open(START)
    ensures Elements(st.filelist) == st.visited
  {
    assert Open(st) == {};
    assert forall k :: k in st.visited ==> k in Elements(st.filelist) || k in Open(st);
  }

  /** A design the search enters: the first one, and every one that a reached fileset's references lead to. */
  ghost predicate Entered(w: World, a: Alias, self: Id, filesets: seq<string>, d: Id) {
    d == self || exists u, r :: EnteredFrom(w, a, self, filesets, d, u, r)
  }

  ghost predicate EnteredFrom(w: World, a: Alias, self: Id, filesets: seq<string>, d: Id, u: Unit, r: Ref) {
    && u in Units(w) && Ahead(Edges(w, a), RootUnits(self, filesets), u) && r in w[u.design].filesets[u.fileset]
    && var t := Resolve(w, a, u.design, r); t.To? && t.design == d
  }

  /** Everything that can be reached, with the designs that are entered on the way. */
  ghost function Reached(w: World, a: Alias, self: Id, filesets: seq<string>): Scope {
    Scope(iset u | Ahead(Edges(w, a), RootUnits(self, filesets), u), iset d | Entered(w, a, self, filesets, d))
  }

  lemma ReachedDesigns(w: World, a: Alias, self: Id, filesets: seq<string>, u: Unit, r: Ref)
    requires Ahead(Edges(w, a), RootUnits(self, filesets), u) && u in Units(w) && r in w[u.design].filesets[u.fileset]
    ensures Enters(w, a, Reached(w, a, self, filesets), u.design, r)
  {
    var t := Resolve(w, a, u.design, r);
    hide Edges, Ahead, Resolve;
    if t.To? {
      assert EnteredFrom(w, a, self, filesets, t.design, u, r);
    }
  }

  lemma ReachedClosed(w: World, a: Alias, self: Id, filesets: seq<string>)
    ensures var s := Reached(w, a, self, filesets);
      ScopeClosed(w, a, s) && self in s.designs && UnitsIn(RootUnits(self, filesets), s) && Known(w, s, START)
  {
    var s := Reached(w, a, self, filesets);
    EdgesKeys(w, a);
    RootsAhead(Edges(w, a), RootUnits(self, filesets));
    hide Edges, Ahead, EnteredFrom, Enters;
    forall u, v | u in s.units && u in Units(w) && v in Edges(w, a)[u]
      ensures v in s.units
    {
      ReferenceAhead(w, a, self, filesets, u, v);
    }
    forall u, r | u in s.units && u in Units(w) && r in w[u.design].filesets[u.fileset]
      ensures Enters(w, a, s, u.design, r)
    {
      ReachedDesigns(w, a, self, filesets, u, r);
    }
  }

  lemma ReferenceAhead(w: World, a: Alias, self: Id, filesets: seq<string>, u: Unit, v: Unit)
    requires u in Units(w) && v in Edges(w, a)[u] && Ahead(Edges(w, a), RootUnits(self, filesets), u)
    ensures Ahead(Edges(w, a), RootUnits(self, filesets), v)
  {
    var r :| r in RootUnits(self, filesets) && Reaches(Edges(w, a), r, u);
    ReachesStep(Edges(w, a), u, v);
    ReachesTransitive(Edges(w, a), r, u, v);
  }

  lemma FollowedOn(w: World, a: Alias, s: Scope, st: State, roots: set<Unit>, u: Unit)
    requires ScopeClosed(w, a, s) && Covers(w, a, s, START, st, roots) && u in s.units && u in Units(w)
      && KeyOf(w, u) in st.visited
    ensures !Faulty(w, a, u)
    ensures u in Edges(w, a) && forall v :: v in Edges(w, a)[u] ==>
      v in s.units && v in Units(w) && KeyOf(w, v) in st.visited
  {
    EdgesKeys(w, a);
    assert Followed(w, a, st, u);
  }

  lemma {:induction false} VisitedAhead(w: World, a: Alias, s: Scope, st: State, roots: set<Unit>, p: seq<Unit>, i: nat)
    requires IsWalk(Edges(w, a), p) && i < |p|
    requires ScopeClosed(w, a, s) && UnitsIn(roots, s) && Covers(w, a, s, START, st, roots) && p[0] in roots
    ensures p[i] in s.units && p[i] in Units(w) && KeyOf(w, p[i]) in st.visited && !Faulty(w, a, p[i])
  {
    if i > 0 {
      VisitedAhead(w, a, s, st, roots, p, i - 1);
      assert p[i - 1] in Edges(w, a) && p[i - 1 + 1] in Edges(w, a)[p[i - 1]];
      hide Covers, ScopeClosed, Edges, Faulty;
      FollowedOn(w, a, s, st, roots, p[i - 1]);
      FollowedOn(w, a, s, st, roots, p[i]);
    } else {
      FollowedOn(w, a, s, st, roots, p[0]);
    }
  }

  lemma AheadIsVisited(w: World, a: Alias, s: Scope, st: State, roots: set<Unit>, u: Unit)
    requires ScopeClosed(w, a, s) && UnitsIn(roots, s)
    requires Covers(w, a, s, START, st, roots) && Ahead(Edges(w, a), roots, u)
    ensures u in Units(w) && KeyOf(w, u) in st.visited && !Faulty(w, a, u)
  {
    var r :| r in roots && Reaches(Edges(w, a), r, u);
    var p :| WalkBetween(Edges(w, a), p, r, u);
    hide Covers, ScopeClosed, Edges, Faulty;
    VisitedAhead(w, a, s, st, roots, p, |p| - 1);
  }

  /**
   * When keys tell the reached filesets apart, every reached fileset is listed, and only entered designs
   * are mapped.
   */
  lemma SearchListsReached(w: World, a: Alias, self: Id, filesets: seq<string>)
    requires KeysApart(w, Reached(w, a, self, filesets)) && Search(w, a, self, filesets).Done?
    ensures var st := Search(w, a, self, filesets).state;
      && (forall u :: Ahead(Edges(w, a), RootUnits(self, filesets), u) ==>
        u in Units(w) && KeyOf(w, u) in st.filelist && !Faulty(w, a, u))
      && (forall n :: n in st.mapping ==> Entered(w, a, self, filesets, st.mapping[n]))
  {
    var st, s, roots := Search(w, a, self, filesets).state, Reached(w, a, self, filesets), RootUnits(self, filesets);
    ReachedClosed(w, a, self, filesets);
    GatherAdds(w, a, self, filesets, START);
    GatherCovers(w, a, s, self, filesets, START);
    NoneLeftOpen(st);
    forall u | Ahead(Edges(w, a), roots, u)
      ensures u in Units(w) && KeyOf(w, u) in st.filelist && !Faulty(w, a, u)
    {
      AheadIsVisited(w, a, s, st, roots, u);
      assert KeyOf(w, u) in Elements(st.filelist);
    }
  }

  lemma {:induction false} GatherListSplit(w: World, a: Alias, self: Id, xs: seq<string>, ys: seq<string>, st: State)
    requires Within(w, st) && Named(w, self)
    ensures GatherList(w, a, self, xs + ys, st) ==
      (var r := GatherList(w, a, self, xs, st); if r.Failed? then Failed else GatherList(w, a, self, ys, r.state))
    decreases |xs|
  {
    if xs == [] {
      assert xs + ys == ys;
    } else {
      assert (xs + ys)[0] == xs[0] && (xs + ys)[1..] == xs[1..] + ys;
      var r := Visit(w, a, self, xs[0], st);
      if r.Done? {
        GatherListSplit(w, a, self, xs[1..], ys, r.state);
      }
    }
  }

  // ------------------------------------------------- the resolved list

  /** The list with every design name replaced by the object first seen under it. */
  function Objects(filelist: seq<Key>, mapping: map<string, Id>): (r: seq<Unit>)
    requires forall i :: 0 <= i < |filelist| ==> filelist[i].design in mapping
    ensures |r| == |filelist|
    ensures forall i :: 0 <= i < |r| ==> r[i] == Unit(mapping[filelist[i].design], filelist[i].fileset)
  {
    seq(|filelist|, i requires 0 <= i < |filelist| => Unit(mapping[filelist[i].design], filelist[i].fileset))
  }

  lemma ListedMapped(w: World, st: State)
    requires Good(w, st)
    ensures forall i :: 0 <= i < |st.filelist| ==> st.filelist[i].design in st.mapping
  {
    assert forall i :: 0 <= i < |st.filelist| ==> st.filelist[i] in Elements(st.filelist);
  }

  /** What `get_fileset` returns. */
  ghost function GetFileset(w: World, a: Alias, self: Id, filesets: seq<string>): (r: Option<seq<Unit>>)
  {
    var out := Search(w, a, self, filesets);
    if out.Failed? then None
    else
      GatherAdds(w, a, self, filesets, START);
      ListedMapped(w, out.state);
      Some(Objects(out.state.filelist, out.state.mapping))
  }

  /** Asking for more filesets only adds to the end of the answer. */
  lemma MoreFilesetsExtend(w: World, a: Alias, self: Id, xs: seq<string>, ys: seq<string>)
    requires GetFileset(w, a, self, xs + ys).Some?
    ensures GetFileset(w, a, self, xs).Some?
      && GetFileset(w, a, self, xs).value <= GetFileset(w, a, self, xs + ys).value
  {
    var st0 := Mapped(w, self, START);
    MappedGood(w, self, START);
    GatherListSplit(w, a, self, xs, ys, st0);
    GatherAdds(w, a, self, xs, START);
    GatherListAdds(w, a, self, ys, GatherList(w, a, self, xs, st0).state);
    var short, long := Search(w, a, self, xs).state, Search(w, a, self, xs + ys).state;
    ListedMapped(w, short);
    assert short.filelist <= long.filelist;
    assert forall i :: 0 <= i < |short.filelist| ==> long.filelist[i] == short.filelist[i];
  }

  lemma ObjectAt(w: World, a: Alias, self: Id, filesets: seq<string>, i: nat)
    requires GetFileset(w, a, self, filesets).Some? && i < |GetFileset(w, a, self, filesets).value|
    ensures var list, st := GetFileset(w, a, self, filesets).value, Search(w, a, self, filesets).state;
      && |list| == |st.filelist| && KeyOf(w, list[i]) == st.filelist[i] && Distinct(st.filelist)
      && st.filelist[i].design in st.mapping && list[i].design == st.mapping[st.filelist[i].design]
  {
    var st := Search(w, a, self, filesets).state;
    GatherAdds(w, a, self, filesets, START);
    ListedMapped(w, st);
    var k := st.filelist[i];
    assert k in Elements(st.filelist);
    assert k in Keys(w);
    var v :| v in Units(w) && KeyOf(w, v) == k;
  }

  lemma SameLength(w: World, a: Alias, self: Id, filesets: seq<string>)
    requires GetFileset(w, a, self, filesets).Some?
    ensures |GetFileset(w, a, self, filesets).value| == |Search(w, a, self, filesets).state.filelist|
  {
    GatherAdds(w, a, self, filesets, START);
    ListedMapped(w, Search(w, a, self, filesets).state);
  }

  /** Whatever the names, nothing is returned twice. */
  lemma FilesetDistinct(w: World, a: Alias, self: Id, filesets: seq<string>)
    requires GetFileset(w, a, self, filesets).Some?
    ensures Distinct(GetFileset(w, a, self, filesets).value)
  {
    var list := GetFileset(w, a, self, filesets).value;
    forall i, j | 0 <= i < j < |list|
      ensures list[i] != list[j]
    {
      ObjectAt(w, a, self, filesets, i);
      ObjectAt(w, a, self, filesets, j);
    }
  }

  /**
   * The answer holds exactly the filesets that can be reached from the roots along references, with
   * aliases substituted and deleted aliases cut.
   */
  ghost predicate IsExact(w: World, a: Alias, self: Id, filesets: seq<string>)
    requires GetFileset(w, a, self, filesets).Some?
  {
    forall u :: u in GetFileset(w, a, self, filesets).value <==> Ahead(Edges(w, a), RootUnits(self, filesets), u)
  }

  /** Of all designs entered, the design of `u` was the first one of its name. */
  ghost predicate EnteredFirst(w: World, a: Alias, self: Id, filesets: seq<string>, u: Unit)
    requires Search(w, a, self, filesets).Done?
  {
    var m := Search(w, a, self, filesets).state.mapping;
    Named(w, u.design) ==> w[u.design].name.value in m && m[w[u.design].name.value] == u.design
  }

  /** `get_fileset` is exact exactly when every reached design was the first one of its name to be entered. */
  lemma FilesetExactIff(w: World, a: Alias, self: Id, filesets: seq<string>)
    requires GetFileset(w, a, self, filesets).Some?
    ensures IsExact(w, a, self, filesets)
      <==> forall u :: Ahead(Edges(w, a), RootUnits(self, filesets), u) ==> EnteredFirst(w, a, self, filesets, u)
  {
    var roots, list := RootUnits(self, filesets), GetFileset(w, a, self, filesets).value;
    if IsExact(w, a, self, filesets) {
      forall u | Ahead(Edges(w, a), roots, u)
        ensures EnteredFirst(w, a, self, filesets, u)
      {
        var i :| 0 <= i < |list| && list[i] == u;
        ObjectAt(w, a, self, filesets, i);
      }
    }
    if forall u :: Ahead(Edges(w, a), roots, u) ==> EnteredFirst(w, a, self, filesets, u) {
      FirstIsExact(w, a, self, filesets);
    }
  }

  /** No two designs of filesets that can be reached have the same name. */
  ghost predicate ReachedApart(w: World, a: Alias, self: Id, filesets: seq<string>) {
    forall u, v ::
      (Ahead(Edges(w, a), RootUnits(self, filesets), u) && Ahead(Edges(w, a), RootUnits(self, filesets), v)
        && Named(w, u.design) && Named(w, v.design) && w[u.design].name == w[v.design].name) ==> u.design == v.design
  }

  /** In every world `get_fileset` is exact only if the designs of all reached filesets have different names. */
  lemma FilesetExactOnlyIf(w: World, a: Alias, self: Id, filesets: seq<string>)
    requires GetFileset(w, a, self, filesets).Some? && IsExact(w, a, self, filesets)
    ensures ReachedApart(w, a, self, filesets)
  {
    FilesetExactIff(w, a, self, filesets);
    hide GetFileset, Edges, Ahead, Search;
    forall u, v | Ahead(Edges(w, a), RootUnits(self, filesets), u) && Ahead(Edges(w, a), RootUnits(self, filesets), v)
      && Named(w, u.design) && Named(w, v.design) && w[u.design].name == w[v.design].name
      ensures u.design == v.design
    {
      assert EnteredFirst(w, a, self, filesets, u) && EnteredFirst(w, a, self, filesets, v);
    }
  }

  lemma FirstIsExact(w: World, a: Alias, self: Id, filesets: seq<string>)
    requires GetFileset(w, a, self, filesets).Some?
    requires forall u :: Ahead(Edges(w, a), RootUnits(self, filesets), u) ==> EnteredFirst(w, a, self, filesets, u)
    ensures IsExact(w, a, self, filesets)
  {
    var list, st, g := GetFileset(w, a, self, filesets).value, Search(w, a, self, filesets).state, Edges(w, a);
    var roots := RootUnits(self, filesets);
    KeysFromFirst(w, a, self, filesets);
    SearchListsReached(w, a, self, filesets);
    SameLength(w, a, self, filesets);
    hide Edges, Ahead, KeysApart, Reached, Search;
    forall u | Ahead(g, roots, u)
      ensures u in list
    {
      assert EnteredFirst(w, a, self, filesets, u);
      var i :| 0 <= i < |st.filelist| && st.filelist[i] == KeyOf(w, u);
      ObjectAt(w, a, self, filesets, i);
      assert list[i] == u;
    }
    forall i | 0 <= i < |list|
      ensures Ahead(g, roots, list[i])
    {
      ListedReached(w, a, self, filesets, i);
    }
  }

  lemma KeysFromFirst(w: World, a: Alias, self: Id, filesets: seq<string>)
    requires Search(w, a, self, filesets).Done?
    requires forall u :: Ahead(Edges(w, a), RootUnits(self, filesets), u) ==> EnteredFirst(w, a, self, filesets, u)
    ensures KeysApart(w, Reached(w, a, self, filesets))
  {
    hide Edges, Ahead, Search;
    var s := Reached(w, a, self, filesets);
    forall u, v | u in s.units && v in s.units && Named(w, u.design) && Named(w, v.design) && KeyOf(w, u) == KeyOf(w, v)
      ensures u == v
    {
      assert EnteredFirst(w, a, self, filesets, u) && EnteredFirst(w, a, self, filesets, v);
    }
  }

  /** What is listed stems from something reached, and is it if its design was entered first. */
  lemma ListedReached(w: World, a: Alias, self: Id, filesets: seq<string>, i: nat)
    requires GetFileset(w, a, self, filesets).Some? && i < |GetFileset(w, a, self, filesets).value|
    requires forall u :: Ahead(Edges(w, a), RootUnits(self, filesets), u) ==> EnteredFirst(w, a, self, filesets, u)
    ensures Ahead(Edges(w, a), RootUnits(self, filesets), GetFileset(w, a, self, filesets).value[i])
  {
    var list, st := GetFileset(w, a, self, filesets).value, Search(w, a, self, filesets).state;
    ObjectAt(w, a, self, filesets, i);
    GatherAdds(w, a, self, filesets, START);
    var k := st.filelist[i];
    assert k in Elements(st.filelist);
    assert FromRoots(w, a, RootUnits(self, filesets), k);
    var v :| v in Units(w) && KeyOf(w, v) == k && Ahead(Edges(w, a), RootUnits(self, filesets), v);
    assert EnteredFirst(w, a, self, filesets, v);
    hide Search, Edges, Ahead, Adds, Good;
    assert list[i] == v;
  }

  /** No two designs the search enters have the same name. */
  ghost predicate EnteredApart(w: World, a: Alias, self: Id, filesets: seq<string>) {
    forall d, e ::
      Entered(w, a, self, filesets, d) && Entered(w, a, self, filesets, e) && Named(w, d) && Named(w, e)
        && w[d].name == w[e].name ==>
        d == e
  }

  lemma ReachedEntered(w: World, a: Alias, self: Id, filesets: seq<string>, u: Unit)
    requires Ahead(Edges(w, a), RootUnits(self, filesets), u)
    ensures Entered(w, a, self, filesets, u.design)
  {
    var g, roots := Edges(w, a), RootUnits(self, filesets);
    var r :| r in roots && Reaches(g, r, u);
    var p :| WalkBetween(g, p, r, u);
    if |p| > 1 {
      var x := p[|p| - 2];
      assert p[|p| - 2] in g && p[|p| - 2 + 1] in g[p[|p| - 2]];
      WalkSlice(g, p, 0, |p| - 2);
      assert WalkBetween(g, p[0..|p| - 2 + 1], r, x);
      assert Ahead(g, roots, x);
      var ref :| ref in w[x.design].filesets[x.fileset] && u in TargetUnits(Resolve(w, a, x.design, ref));
      assert EnteredFrom(w, a, self, filesets, u.design, x, ref);
    }
  }

  lemma ApartKeys(w: World, a: Alias, self: Id, filesets: seq<string>)
    requires EnteredApart(w, a, self, filesets)
    ensures KeysApart(w, Reached(w, a, self, filesets))
  {
    hide Edges, Ahead, Entered;
    var s := Reached(w, a, self, filesets);
    forall u, v | u in s.units && v in s.units && Named(w, u.design) && Named(w, v.design) && KeyOf(w, u) == KeyOf(w, v)
      ensures u == v
    {
      ReachedEntered(w, a, self, filesets, u);
      ReachedEntered(w, a, self, filesets, v);
    }
  }

  /**
   * `get_fileset` returns, each once, exactly the filesets that can be reached, if no two designs it
   * enters have the same name; other designs may.
   */
  lemma FilesetIsReachability(w: World, a: Alias, self: Id, filesets: seq<string>)
    requires GetFileset(w, a, self, filesets).Some? && EnteredApart(w, a, self, filesets)
    ensures Distinct(GetFileset(w, a, self, filesets).value) && IsExact(w, a, self, filesets)
  {
    var st, roots := Search(w, a, self, filesets).state, RootUnits(self, filesets);
    FilesetDistinct(w, a, self, filesets);
    ApartKeys(w, a, self, filesets);
    SearchListsReached(w, a, self, filesets);
    GatherAdds(w, a, self, filesets, START);
    hide Edges, Ahead, Search, Entered, Adds;
    forall u | Ahead(Edges(w, a), roots, u) && Named(w, u.design)
      ensures EnteredFirst(w, a, self, filesets, u)
    {
      var k, n := KeyOf(w, u), w[u.design].name.value;
      assert k in Elements(st.filelist);
      assert n in st.mapping;
      ReachedEntered(w, a, self, filesets, u);
    }
    FirstIsExact(w, a, self, filesets);
  }

  /** No reached reference is aliased to an empty list of filesets. */
  ghost predicate NoEmptyTarget(w: World, a: Alias, self: Id, filesets: seq<string>) {
    forall u, r ::
      (u in Units(w) && Ahead(Edges(w, a), RootUnits(self, filesets), u) && r in w[u.design].filesets[u.fileset]) ==>
        NotEmpty(Resolve(w, a, u.design, r))
  }

  predicate NotEmpty(t: Target) {
    t.To? ==> t.filesets != []
  }

  /** A design that is entered for some fileset is the design of a reached fileset. */
  lemma EnteredReached(w: World, a: Alias, self: Id, filesets: seq<string>, d: Id) returns (u: Unit)
    requires filesets != [] && NoEmptyTarget(w, a, self, filesets) && Entered(w, a, self, filesets, d)
    ensures Ahead(Edges(w, a), RootUnits(self, filesets), u) && u.design == d
  {
    if d == self {
      u := Unit(self, filesets[0]);
      RootsAhead(Edges(w, a), RootUnits(self, filesets));
      assert u in RootUnits(self, filesets);
    } else {
      var x, r :| EnteredFrom(w, a, self, filesets, d, x, r);
      var t := Resolve(w, a, x.design, r);
      assert NotEmpty(t);
      u := Unit(d, t.filesets[0]);
      assert u in TargetUnits(t);
      assert u in Edges(w, a)[x];
      ReferenceAhead(w, a, self, filesets, x, u);
    }
  }

  lemma NothingReached(w: World, a: Alias, self: Id)
    ensures EnteredApart(w, a, self, []) && forall u :: !Ahead(Edges(w, a), RootUnits(self, []), u)
  {
    forall d | Entered(w, a, self, [], d)
      ensures d == self
    {
    }
  }

  /**
   * Where no reference is aliased to an empty list, `get_fileset` is exact exactly when no two
   * designs it enters have the same name.
   */
  lemma FilesetExactIffApart(w: World, a: Alias, self: Id, filesets: seq<string>)
    requires GetFileset(w, a, self, filesets).Some? && NoEmptyTarget(w, a, self, filesets)
    ensures IsExact(w, a, self, filesets) <==> EnteredApart(w, a, self, filesets)
  {
    if EnteredApart(w, a, self, filesets) {
      FilesetIsReachability(w, a, self, filesets);
    }
    if IsExact(w, a, self, filesets) {
      if filesets == [] {
        NothingReached(w, a, self);
      } else {
        FilesetExactIff(w, a, self, filesets);
        forall d, e | Entered(w, a, self, filesets, d) && Entered(w, a, self, filesets, e)
          && Named(w, d) && Named(w, e) && w[d].name == w[e].name
          ensures d == e
        {
          var u := EnteredReached(w, a, self, filesets, d);
          var v := EnteredReached(w, a, self, filesets, e);
          assert EnteredFirst(w, a, self, filesets, u) && EnteredFirst(w, a, self, filesets, v);
        }
      }
    }
  }

  lemma SearchOrdered(w: World, a: Alias, self: Id, filesets: seq<string>)
    requires KeysApart(w, Reached(w, a, self, filesets)) && Search(w, a, self, filesets).Done?
    ensures Ordered(w, a, Reached(w, a, self, filesets), START, Search(w, a, self, filesets).state)
  {
    var s := Reached(w, a, self, filesets);
    ReachedClosed(w, a, self, filesets);
    assert OpenLeadTo(w, a, s, START, RootUnits(self, filesets));
    hide Edges, Reached, KeysApart, ScopeClosed, Known, OpenLeadTo, Ordered, UnitsIn;
    GatherOrdered(w, a, s, self, filesets, START);
  }

  /**
   * Where `get_fileset` is exact, a fileset comes after everything it refers to that does not lead
   * back to it; without cycles, after everything it refers to.
   */
  lemma DependenciesPrecede(w: World, a: Alias, self: Id, filesets: seq<string>, i: nat, v: Unit)
    requires GetFileset(w, a, self, filesets).Some? && IsExact(w, a, self, filesets)
    requires i < |GetFileset(w, a, self, filesets).value|
    ensures GetFileset(w, a, self, filesets).value[i] in Units(w)
    ensures var u := GetFileset(w, a, self, filesets).value[i];
      v in Edges(w, a)[u] ==> v in GetFileset(w, a, self, filesets).value[..i] || Reaches(Edges(w, a), v, u)
  {
    var list, st, s := GetFileset(w, a, self, filesets).value, Search(w, a, self, filesets).state,
      Reached(w, a, self, filesets);
    var u := list[i];
    assert u in list;
    assert Search(w, a, self, filesets).Done?;
    hide Edges, Ahead, Reaches, Search, KeysApart, GetFileset;
    FilesetExactIff(w, a, self, filesets);
    KeysFromFirst(w, a, self, filesets);
    SearchListsReached(w, a, self, filesets);
    EdgesKeys(w, a);
    assert Ahead(Edges(w, a), RootUnits(self, filesets), u) && u in s.units;
    if v in Edges(w, a)[u] && !Reaches(Edges(w, a), v, u) {
      SearchOrdered(w, a, self, filesets);
      ReferenceAhead(w, a, self, filesets, u, v);
      ObjectAt(w, a, self, filesets, i);
      assert Precedes(w, a, st, i, u, v);
      var j :| 0 <= j < i && st.filelist[j] == KeyOf(w, v);
      ObjectAt(w, a, self, filesets, j);
      assert EnteredFirst(w, a, self, filesets, v);
      assert list[..i][j] == v;
    }
  }

  /** Of two filesets with the same name in designs of the same name at most one is ever returned. */
  lemma NameClashLosesOne(w: World, a: Alias, self: Id, filesets: seq<string>, u: Unit, v: Unit)
    requires GetFileset(w, a, self, filesets).Some? && u != v && KeyOf(w, u) == KeyOf(w, v)
    ensures !(u in GetFileset(w, a, self, filesets).value && v in GetFileset(w, a, self, filesets).value)
  {
    var list := GetFileset(w, a, self, filesets).value;
    if u in list && v in list {
      var i :| 0 <= i < |list| && list[i] == u;
      var j :| 0 <= j < |list| && list[j] == v;
      ObjectAt(w, a, self, filesets, i);
      ObjectAt(w, a, self, filesets, j);
      assert false;
    }
  }

  /**
   * `get_fileset` raises only when the design has no name or something faulty can be reached, and
   * always then if keys tell the reached filesets apart; else a faulty fileset may pass for a visited one.
   */
  lemma FilesetFailsIff(w: World, a: Alias, self: Id, filesets: seq<string>)
    ensures GetFileset(w, a, self, filesets).None? ==> !Named(w, self) || FaultAhead(w, a, RootUnits(self, filesets))
    ensures KeysApart(w, Reached(w, a, self, filesets)) ==>
      (GetFileset(w, a, self, filesets).None? <==> !Named(w, self) || FaultAhead(w, a, RootUnits(self, filesets)))
  {
    if Search(w, a, self, filesets).Failed? {
      GatherFails(w, a, self, filesets, START);
    } else if KeysApart(w, Reached(w, a, self, filesets)) {
      SearchListsReached(w, a, self, filesets);
    }
  }

  // ------------------------------------------------ what a reference means

  /** The design a reference in `self` is to: the alias's, its own, or the dependency of that name. */
  ghost predicate Opens(w: World, a: Alias, self: Id, r: Ref, d: Id)
    requires Named(w, self)
  {
    if r in a then !a[r].Deleted? && a[r].design == d
    else if r.dep == w[self].name.value then d == self
    else r.dep != "" && r.dep in w[self].deps && w[self].deps[r.dep] == d
  }

  /** A reference means the fileset it names, unless an alias names others. */
  ghost predicate Means(w: World, a: Alias, self: Id, r: Ref, v: Unit)
    requires Named(w, self)
  {
    && Opens(w, a, self, r, v.design)
    && if r in a && a[r].One? then v.fileset == a[r].fileset
       else if r in a && a[r].Many? then v.fileset in a[r].filesets
       else v.fileset == r.fileset
  }

  ghost predicate IsDefined(w: World, u: Unit) {
    Named(w, u.design) && u.fileset in w[u.design].filesets
  }

  ghost predicate Refers(w: World, a: Alias, u: Unit, v: Unit) {
    IsDefined(w, u) && exists r :: r in w[u.design].filesets[u.fileset] && Means(w, a, u.design, r, v)
  }

  /** Filesets each of which has a reference that means the next one. */
  ghost predicate IsChain(w: World, a: Alias, p: seq<Unit>) {
    p != [] && forall i :: 0 < i < |p| ==> Refers(w, a, p[i - 1], p[i])
  }

  /** A chain from one of the filesets asked for. */
  ghost predicate ChainTo(w: World, a: Alias, self: Id, filesets: seq<string>, u: Unit, p: seq<Unit>) {
    IsChain(w, a, p) && p[0].design == self && p[0].fileset in filesets && p[|p| - 1] == u
  }

  /** A chain of references leads from one of the filesets asked for to `u`. */
  ghost predicate Follows(w: World, a: Alias, self: Id, filesets: seq<string>, u: Unit) {
    exists p :: ChainTo(w, a, self, filesets, u, p)
  }

  /** A reference that a chain comes to is to design `d`. */
  ghost predicate OpenedFrom(w: World, a: Alias, self: Id, filesets: seq<string>, d: Id, u: Unit, r: Ref) {
    && Follows(w, a, self, filesets, u) && IsDefined(w, u) && r in w[u.design].filesets[u.fileset]
    && Opens(w, a, u.design, r, d)
  }

  ghost predicate Opened(w: World, a: Alias, self: Id, filesets: seq<string>, d: Id) {
    d == self || exists u, r :: OpenedFrom(w, a, self, filesets, d, u, r)
  }

  /** No two designs that are opened have the same name. */
  ghost predicate OpenedApart(w: World, a: Alias, self: Id, filesets: seq<string>) {
    forall d, e ::
      Opened(w, a, self, filesets, d) && Opened(w, a, self, filesets, e) && Named(w, d) && Named(w, e)
        && w[d].name == w[e].name ==>
        d == e
  }

  /** An undefined fileset, or one with a reference that is neither deleted nor to a design with a name. */
  ghost predicate CannotFollow(w: World, a: Alias, u: Unit) {
    !IsDefined(w, u) || exists r ::
      && r in w[u.design].filesets[u.fileset] && !(r in a && a[r].Deleted?)
      && forall d :: Opens(w, a, u.design, r, d) ==> !Named(w, d)
  }

  lemma MeansIff(w: World, a: Alias, self: Id, r: Ref, v: Unit)
    requires Named(w, self)
    ensures v in TargetUnits(Resolve(w, a, self, r)) <==> Means(w, a, self, r, v)
  {
  }

  lemma OpensIff(w: World, a: Alias, self: Id, r: Ref, d: Id)
    requires Named(w, self)
    ensures var t := Resolve(w, a, self, r); t.To? && t.design == d <==> Opens(w, a, self, r, d)
  {
  }

  lemma BadRefIff(w: World, a: Alias, self: Id, r: Ref)
    requires Named(w, self)
    ensures BadRef(w, a, self, r)
      <==> !(r in a && a[r].Deleted?) && forall d :: Opens(w, a, self, r, d) ==> !Named(w, d)
  {
    var t := Resolve(w, a, self, r);
    if t.To? {
      OpensIff(w, a, self, r, t.design);
    }
  }

  lemma IsDefinedIff(w: World, u: Unit)
    ensures IsDefined(w, u) <==> u in Units(w)
  {
    assert u == Unit(u.design, u.fileset);
  }

  /** The edges of the search are what references mean. */
  lemma RefersIff(w: World, a: Alias, u: Unit, v: Unit)
    ensures Refers(w, a, u, v) <==> u in Edges(w, a) && v in Edges(w, a)[u]
  {
    IsDefinedIff(w, u);
    if IsDefined(w, u) {
      forall r
        ensures v in TargetUnits(Resolve(w, a, u.design, r)) <==> Means(w, a, u.design, r, v)
      {
        MeansIff(w, a, u.design, r, v);
      }
    }
  }

  lemma IsChainIff(w: World, a: Alias, p: seq<Unit>)
    ensures IsChain(w, a, p) <==> IsWalk(Edges(w, a), p)
  {
    hide Edges, Refers;
    forall i | 0 < i < |p|
      ensures Refers(w, a, p[i - 1], p[i]) <==> p[i - 1] in Edges(w, a) && p[i] in Edges(w, a)[p[i - 1]]
    {
      RefersIff(w, a, p[i - 1], p[i]);
    }
    if IsChain(w, a, p) {
      forall i | 0 <= i < |p| - 1
        ensures p[i] in Edges(w, a) && p[i + 1] in Edges(w, a)[p[i]]
      {
        assert Refers(w, a, p[i + 1 - 1], p[i + 1]);
      }
    }
    if IsWalk(Edges(w, a), p) {
      forall i | 0 < i < |p|
        ensures Refers(w, a, p[i - 1], p[i])
      {
        assert p[i - 1] in Edges(w, a) && p[i - 1 + 1] in Edges(w, a)[p[i - 1]];
      }
    }
  }

  /** Chains of references come to exactly what lies ahead of the filesets asked for. */
  lemma FollowsIff(w: World, a: Alias, self: Id, filesets: seq<string>, u: Unit)
    ensures Follows(w, a, self, filesets, u) <==> Ahead(Edges(w, a), RootUnits(self, filesets), u)
  {
    hide Edges, IsChain;
    if p: seq<Unit> :| ChainTo(w, a, self, filesets, u, p) {
      IsChainIff(w, a, p);
      assert p[0] == Unit(self, p[0].fileset) && p[0] in RootUnits(self, filesets);
      assert WalkBetween(Edges(w, a), p, p[0], u);
      assert Reaches(Edges(w, a), p[0], u);
    }
    if Ahead(Edges(w, a), RootUnits(self, filesets), u) {
      var r :| r in RootUnits(self, filesets) && Reaches(Edges(w, a), r, u);
      var p :| WalkBetween(Edges(w, a), p, r, u);
      IsChainIff(w, a, p);
      assert ChainTo(w, a, self, filesets, u, p);
    }
  }

  lemma OpenedIff(w: World, a: Alias, self: Id, filesets: seq<string>, d: Id)
    ensures Opened(w, a, self, filesets, d) <==> Entered(w, a, self, filesets, d)
  {
    hide Edges, Follows, Ahead, Units, Resolve, Opens, IsDefined, RootUnits;
    if u, r :| OpenedFrom(w, a, self, filesets, d, u, r) {
      OpenedFromIff(w, a, self, filesets, d, u, r);
    }
    if u, r :| EnteredFrom(w, a, self, filesets, d, u, r) {
      OpenedFromIff(w, a, self, filesets, d, u, r);
    }
  }

  lemma OpenedFromIff(w: World, a: Alias, self: Id, filesets: seq<string>, d: Id, u: Unit, r: Ref)
    ensures OpenedFrom(w, a, self, filesets, d, u, r) <==> EnteredFrom(w, a, self, filesets, d, u, r)
  {
    hide Edges, Follows, Ahead, RootUnits;
    FollowsIff(w, a, self, filesets, u);
    IsDefinedIff(w, u);
    if IsDefined(w, u) {
      OpensIff(w, a, u.design, r, d);
    }
  }

  lemma CannotFollowIff(w: World, a: Alias, u: Unit)
    ensures CannotFollow(w, a, u) <==> Faulty(w, a, u)
  {
    IsDefinedIff(w, u);
    if IsDefined(w, u) {
      hide BadRef, Opens, Units;
      forall r
        ensures BadRef(w, a, u.design, r)
          <==> !(r in a && a[r].Deleted?) && forall d :: Opens(w, a, u.design, r, d) ==> !Named(w, d)
      {
        BadRefIff(w, a, u.design, r);
      }
    }
  }

  /**
   * If no two designs that are opened have the same name, `get_fileset` raises exactly when the design
   * has no name or a chain of references comes to something that cannot be followed, and else returns
   * exactly what such chains come to.
   */
  lemma AnswerIsFollowed(w: World, a: Alias, self: Id, filesets: seq<string>)
    requires OpenedApart(w, a, self, filesets)
    ensures GetFileset(w, a, self, filesets).None?
      <==> !Named(w, self) || exists u :: Follows(w, a, self, filesets, u) && CannotFollow(w, a, u)
    ensures GetFileset(w, a, self, filesets).Some? ==>
      && Distinct(GetFileset(w, a, self, filesets).value)
      && forall u :: u in GetFileset(w, a, self, filesets).value <==> Follows(w, a, self, filesets, u)
  {
    hide *;
    EnteredApartIff(w, a, self, filesets);
    ApartKeys(w, a, self, filesets);
    FilesetFailsIff(w, a, self, filesets);
    FaultAheadIff(w, a, self, filesets);
    if GetFileset(w, a, self, filesets).Some? {
      FilesetIsReachability(w, a, self, filesets);
      ExactIff(w, a, self, filesets);
    }
  }

  lemma EnteredApartIff(w: World, a: Alias, self: Id, filesets: seq<string>)
    ensures EnteredApart(w, a, self, filesets) <==> OpenedApart(w, a, self, filesets)
  {
    hide Opened, Entered;
    forall d
      ensures Opened(w, a, self, filesets, d) <==> Entered(w, a, self, filesets, d)
    {
      OpenedIff(w, a, self, filesets, d);
    }
  }

  lemma FaultAheadIff(w: World, a: Alias, self: Id, filesets: seq<string>)
    ensures FaultAhead(w, a, RootUnits(self, filesets))
      <==> exists u :: Follows(w, a, self, filesets, u) && CannotFollow(w, a, u)
  {
    hide Follows, CannotFollow, Faulty, Ahead, Edges, RootUnits;
    forall u
      ensures Follows(w, a, self, filesets, u) <==> Ahead(Edges(w, a), RootUnits(self, filesets), u)
      ensures CannotFollow(w, a, u) <==> Faulty(w, a, u)
    {
      FollowsIff(w, a, self, filesets, u);
      CannotFollowIff(w, a, u);
    }
  }

  lemma ExactIff(w: World, a: Alias, self: Id, filesets: seq<string>)
    requires GetFileset(w, a, self, filesets).Some?
    ensures IsExact(w, a, self, filesets)
      <==> forall u :: u in GetFileset(w, a, self, filesets).value <==> Follows(w, a, self, filesets, u)
  {
    hide Follows, Ahead, Edges, RootUnits, GetFileset;
    forall u
      ensures Follows(w, a, self, filesets, u) <==> Ahead(Edges(w, a), RootUnits(self, filesets), u)
    {
      FollowsIff(w, a, self, filesets, u);
    }
  }

  // ------------------------------------------------------- the recursive method

  /** The set, list and map that the recursion shares and updates in place. */
  class Resolution {
    var visited: set<Key>
    var filelist: seq<Key>
    var mapping: map<string, Id>

    ghost function Contents(): State
      reads this
    {
      State(visited, filelist, mapping)
    }

    constructor ()
      ensures Contents() == START
    {
      visited, filelist, mapping := {}, [], map[];
    }

    /** The recursive call on a design object; `false` stands for the exception that ends it. */
    method Collect(w: World, a: Alias, self: Id, filesets: seq<string>) returns (ok: bool)
      requires Within(w, Contents())
      modifies this
      ensures ok <==> Gather(w, a, self, filesets, old(Contents())).Done?
      ensures ok ==> Contents() == Gather(w, a, self, filesets, old(Contents())).state
      decreases Room(w, Contents()), 3
    {
      if !Named(w, self) {
        return false;
      }
      ghost var r := Gather(w, a, self, filesets, Contents());
      RoomShrinks(w, Contents(), Contents());
      if w[self].name.value !in mapping {
        mapping := mapping[w[self].name.value := self];
      }
      var i := 0;
      assert filesets[0..] == filesets;
      while i < |filesets|
        invariant i <= |filesets| && Within(w, Contents())
        invariant Room(w, Contents()) <= Room(w, old(Contents()))
        invariant r == GatherList(w, a, self, filesets[i..], Contents())
      {
        assert filesets[i..][0] == filesets[i] && filesets[i..][1..] == filesets[i + 1..];
        ok := VisitFileset(w, a, self, filesets[i]);
        if !ok {
          return false;
        }
        i := i + 1;
      }
      return true;
    }

    /** One fileset: marked as visited, its references followed, then listed. */
    method VisitFileset(w: World, a: Alias, self: Id, fileset: string) returns (ok: bool)
      requires Within(w, Contents()) && Named(w, self)
      modifies this
      ensures ok <==> Visit(w, a, self, fileset, old(Contents())).Done?
      ensures ok ==> Contents() == Visit(w, a, self, fileset, old(Contents())).state
      ensures ok ==> Room(w, Contents()) <= Room(w, old(Contents()))
      decreases Room(w, Contents()), 2
    {
      ghost var st := Contents();
      if fileset !in w[self].filesets {
        return false;
      }
      var key := Key(w[self].name.value, fileset);
      assert Unit(self, fileset) in Units(w) && key == KeyOf(w, Unit(self, fileset));
      if key in visited {
        return true;
      }
      KeyInKeys(w, Unit(self, fileset));
      visited := visited + {key};
      RoomShrinks(w, st, Contents());
      ok := FollowRefs(w, a, self, w[self].filesets[fileset]);
      if ok {
        filelist := filelist + [key];
        RoomShrinks(w, st, Contents());
      }
    }

    method FollowRefs(w: World, a: Alias, self: Id, refs: seq<Ref>) returns (ok: bool)
      requires Within(w, Contents()) && Named(w, self)
      modifies this
      ensures ok <==> GatherRefs(w, a, self, refs, old(Contents())).Done?
      ensures ok ==> Contents() == GatherRefs(w, a, self, refs, old(Contents())).state
      decreases Room(w, Contents()), 5
    {
      ghost var r := GatherRefs(w, a, self, refs, Contents());
      RoomShrinks(w, Contents(), Contents());
      var i := 0;
      assert refs[0..] == refs;
      while i < |refs|
        invariant i <= |refs| && Within(w, Contents())
        invariant Room(w, Contents()) <= Room(w, old(Contents()))
        invariant r == GatherRefs(w, a, self, refs[i..], Contents())
      {
        assert refs[i..][0] == refs[i] && refs[i..][1..] == refs[i + 1..];
        ok := FollowTarget(w, a, Resolve(w, a, self, refs[i]));
        if !ok {
          return false;
        }
        i := i + 1;
      }
      return true;
    }

    method FollowTarget(w: World, a: Alias, t: Target) returns (ok: bool)
      requires Within(w, Contents())
      modifies this
      ensures ok <==> GatherTarget(w, a, t, old(Contents())).Done?
      ensures ok ==> Contents() == GatherTarget(w, a, t, old(Contents())).state
      ensures ok ==> Room(w, Contents()) <= Room(w, old(Contents()))
      decreases Room(w, Contents()), 4
    {
      ghost var st := Contents();
      match t
      case Missing => ok := false;
      case Dropped => ok := true;
      case To(d, filesets, single) =>
        if AlreadyVisited(w, t, State(visited, filelist, mapping)) {
          ok := true;
        } else {
          ok := Collect(w, a, d, filesets);
          if ok {
            RoomShrinks(w, st, Contents());
          }
        }
    }
  }

  /** The public entry point: fresh shared state, the search, and the names mapped back to objects. */
  method ResolveFilesets(w: World, a: Alias, self: Id, filesets: seq<string>) returns (r: Option<seq<Unit>>)
    ensures r == GetFileset(w, a, self, filesets)
    ensures OpenedApart(w, a, self, filesets) ==>
      (r.None? <==> !Named(w, self) || exists u :: Follows(w, a, self, filesets, u) && CannotFollow(w, a, u))
    ensures OpenedApart(w, a, self, filesets) && r.Some? ==>
      Distinct(r.value) && forall u :: u in r.value <==> Follows(w, a, self, filesets, u)
  {
    hide OpenedApart, Follows, CannotFollow;
    if OpenedApart(w, a, self, filesets) {
      AnswerIsFollowed(w, a, self, filesets);
    }
    var shared := new Resolution();
    var ok := shared.Collect(w, a, self, filesets);
    if !ok {
      return None;
    }
    var filelist, mapping := shared.filelist, shared.mapping;
    ghost var st := shared.Contents();
    GatherAdds(w, a, self, filesets, START);
    ListedMapped(w, st);
    var finalMap: seq<Unit> := [];
    for i := 0 to |filelist|
      invariant finalMap == Objects(filelist[..i], mapping)
    {
      var unit := Unit(mapping[filelist[i].design], filelist[i].fileset);
      NotYetMapped(w, st, i, unit);
      if unit !in finalMap {
        finalMap := finalMap + [unit];
      }
    }
    assert filelist[..|filelist|] == filelist;
    return Some(finalMap);
  }

  lemma NotYetMapped(w: World, st: State, i: nat, unit: Unit)
    requires Good(w, st) && i < |st.filelist|
    requires forall i :: 0 <= i < |st.filelist| ==> st.filelist[i].design in st.mapping
    requires unit == Unit(st.mapping[st.filelist[i].design], st.filelist[i].fileset)
    ensures unit !in Objects(st.filelist[..i], st.mapping)
  {
    var list := Objects(st.filelist[..i], st.mapping);
    forall j | 0 <= j < i
      ensures list[j] != unit
    {
      assert st.filelist[j] != st.filelist[i];
    }
  }
}
