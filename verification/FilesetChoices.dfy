/** What `get_fileset` returns when design names do not tell designs apart. */
module FilesetChoices {
  import opened Ordering
  import opened Digraphs
  import opened Filesets

  /** `u` was followed under the key `k`: it is not faulty, and the keys of all it refers to were visited. */
  ghost predicate Backs(w: World, a: Alias, s: Scope, visited: set<Key>, k: Key, u: Unit) {
    && u in s.units && u in Units(w) && KeyOf(w, u) == k && !Faulty(w, a, u)
    && forall v :: v in Edges(w, a)[u] ==> KeyOf(w, v) in visited
  }

  ghost predicate Backed(w: World, a: Alias, s: Scope, visited: set<Key>, k: Key) {
    exists u :: Backs(w, a, s, visited, k, u)
  }

  /** The keys of the roots were visited, and everything visited on the way is backed by a fileset of the scope. */
  ghost predicate Backing(w: World, a: Alias, s: Scope, before: set<Key>, after: set<Key>, roots: set<Unit>) {
    && before <= after && (forall r :: r in roots ==> KeyOf(w, r) in after)
    && forall k :: k in after - before ==> Backed(w, a, s, after, k)
  }

  lemma BackedStays(w: World, a: Alias, s: Scope, visited: set<Key>, more: set<Key>, k: Key)
    requires Backed(w, a, s, visited, k) && visited <= more
    ensures Backed(w, a, s, more, k)
  {
    var u :| Backs(w, a, s, visited, k, u);
    assert Backs(w, a, s, more, k, u);
  }

  lemma BackingThen(w: World, a: Alias, s: Scope, before: set<Key>, mid: set<Key>, after: set<Key>, r1: set<Unit>,
      r2: set<Unit>)
    requires Backing(w, a, s, before, mid, r1) && Backing(w, a, s, mid, after, r2)
    ensures Backing(w, a, s, before, after, r1 + r2)
  {
    hide Backed;
    forall k | k in after - before
      ensures Backed(w, a, s, after, k)
    {
      if k in mid {
        BackedStays(w, a, s, mid, after, k);
      }
    }
  }

  lemma {:induction false} GatherBacking(w: World, a: Alias, s: Scope, self: Id, filesets: seq<string>, st: State)
    requires ScopeClosed(w, a, s) && Within(w, st) && Gather(w, a, self, filesets, st).Done?
    requires UnitsIn(RootUnits(self, filesets), s)
    ensures Backing(w, a, s, st.visited, Gather(w, a, self, filesets, st).state.visited, RootUnits(self, filesets))
    decreases Room(w, st), 3, 0
  {
    ListBacking(w, a, s, self, filesets, Mapped(w, self, st));
  }

  lemma {:induction false} ListBacking(w: World, a: Alias, s: Scope, self: Id, filesets: seq<string>, st: State)
    requires ScopeClosed(w, a, s) && Within(w, st) && Named(w, self) && GatherList(w, a, self, filesets, st).Done?
    requires UnitsIn(RootUnits(self, filesets), s)
    ensures Backing(w, a, s, st.visited, GatherList(w, a, self, filesets, st).state.visited, RootUnits(self, filesets))
    decreases Room(w, st), 2, |filesets|
  {
    hide Backing, ScopeClosed, UnitsIn, Visit;
    if filesets == [] {
      NothingBacking(w, a, s, st.visited);
      assert RootUnits(self, filesets) == {};
    } else {
      var mid := Visit(w, a, self, filesets[0], st).state;
      RootUnitsSplit(self, filesets, s);
      VisitBacking(w, a, s, self, filesets[0], st);
      RoomShrinks(w, st, mid);
      ListBacking(w, a, s, self, filesets[1..], mid);
      BackingThen(w, a, s, st.visited, mid.visited, GatherList(w, a, self, filesets, st).state.visited,
        {Unit(self, filesets[0])}, RootUnits(self, filesets[1..]));
    }
  }

  lemma NothingBacking(w: World, a: Alias, s: Scope, visited: set<Key>)
    ensures Backing(w, a, s, visited, visited, {})
  {
  }

  lemma {:induction false} VisitBacking(w: World, a: Alias, s: Scope, self: Id, fileset: string, st: State)
    requires ScopeClosed(w, a, s) && Within(w, st) && Named(w, self) && Visit(w, a, self, fileset, st).Done?
    requires Unit(self, fileset) in s.units
    ensures Backing(w, a, s, st.visited, Visit(w, a, self, fileset, st).state.visited, {Unit(self, fileset)})
    decreases Room(w, st), 1, 0
  {
    var u := Unit(self, fileset);
    if KeyOf(w, u) in st.visited {
      assert Visit(w, a, self, fileset, st) == Done(st);
    } else {
      KeyInKeys(w, u);
      var st1 := st.(visited := st.visited + {KeyOf(w, u)});
      RoomShrinks(w, st, st1);
      var refs := w[self].filesets[fileset];
      var st2 := GatherRefs(w, a, self, refs, st1).state;
      ScopeRefs(w, a, s, u);
      hide GatherRefs, ScopeClosed, UnitsIn, Backing, BadRef, Edges;
      RefsBacking(w, a, s, self, refs, st1);
      GatherRefsFollowed(w, a, self, refs, st1);
      CloseBacking(w, a, s, st.visited, st2.visited, u);
    }
  }

  lemma ScopeRefs(w: World, a: Alias, s: Scope, u: Unit)
    requires ScopeClosed(w, a, s) && u in Units(w) && u in s.units
    ensures u in Edges(w, a) && Edges(w, a)[u] == RefUnits(w, a, u.design, w[u.design].filesets[u.fileset])
    ensures UnitsIn(Edges(w, a)[u], s)
  {
  }

  lemma CloseBacking(w: World, a: Alias, s: Scope, before: set<Key>, after: set<Key>, u: Unit)
    requires u in s.units && u in Units(w) && u in Edges(w, a) && KeyOf(w, u) !in before
    requires Backing(w, a, s, before + {KeyOf(w, u)}, after, Edges(w, a)[u])
    requires forall r :: r in w[u.design].filesets[u.fileset] ==> !BadRef(w, a, u.design, r)
    ensures Backing(w, a, s, before, after, {u})
  {
    assert Backs(w, a, s, after, KeyOf(w, u), u);
  }

  lemma {:induction false} RefsBacking(w: World, a: Alias, s: Scope, self: Id, refs: seq<Ref>, st: State)
    requires ScopeClosed(w, a, s) && Within(w, st) && Named(w, self) && GatherRefs(w, a, self, refs, st).Done?
    requires UnitsIn(RefUnits(w, a, self, refs), s)
    ensures Backing(w, a, s, st.visited, GatherRefs(w, a, self, refs, st).state.visited, RefUnits(w, a, self, refs))
    decreases Room(w, st), 4, |refs|
  {
    hide Backing, ScopeClosed, Resolve;
    if refs == [] {
      NothingBacking(w, a, s, st.visited);
      assert RefUnits(w, a, self, refs) == {};
    } else {
      var t := Resolve(w, a, self, refs[0]);
      RefUnitsSplit(w, a, self, refs);
      ResolveSingle(w, a, self, refs[0]);
      var mid := GatherTarget(w, a, t, st).state;
      TargetBacking(w, a, s, t, st);
      RoomShrinks(w, st, mid);
      RefsBacking(w, a, s, self, refs[1..], mid);
      BackingThen(w, a, s, st.visited, mid.visited, GatherRefs(w, a, self, refs, st).state.visited,
        TargetUnits(t), RefUnits(w, a, self, refs[1..]));
    }
  }

  lemma {:induction false} TargetBacking(w: World, a: Alias, s: Scope, t: Target, st: State)
    requires ScopeClosed(w, a, s) && Within(w, st) && GatherTarget(w, a, t, st).Done?
    requires SingleTarget(t) && UnitsIn(TargetUnits(t), s)
    ensures Backing(w, a, s, st.visited, GatherTarget(w, a, t, st).state.visited, TargetUnits(t))
    decreases Room(w, st), 4, 0
  {
    if t.To? {
      if AlreadyVisited(w, t, st) {
        assert TargetUnits(t) == {Unit(t.design, t.filesets[0])};
      } else {
        GatherBacking(w, a, s, t.design, t.filesets, st);
      }
    }
  }

  // ------------------------------------------------------------------ choices

  function KeysOf(w: World, units: set<Unit>): set<Key> {
    set u | u in units :: KeyOf(w, u)
  }

  /**
   * One reached fileset for every key, none of them faulty, with the keys of all that was asked for and
   * of all that the chosen filesets refer to.
   */
  ghost predicate IsChoice(w: World, a: Alias, self: Id, filesets: seq<string>, chosen: set<Unit>) {
    && (forall u :: u in chosen ==>
      u in Units(w) && Ahead(Edges(w, a), RootUnits(self, filesets), u) && !Faulty(w, a, u))
    && (forall u, v :: u in chosen && v in chosen && KeyOf(w, u) == KeyOf(w, v) ==> u == v)
    && (forall r :: r in RootUnits(self, filesets) ==> KeyOf(w, r) in KeysOf(w, chosen))
    && (forall u, v :: u in chosen && u in Units(w) && v in Edges(w, a)[u] ==> KeyOf(w, v) in KeysOf(w, chosen))
  }

  ghost function ChosenFor(w: World, a: Alias, s: Scope, visited: set<Key>, k: Key): (u: Unit)
    requires Backed(w, a, s, visited, k)
    ensures Backs(w, a, s, visited, k, u)
  {
    var u :| Backs(w, a, s, visited, k, u);
    u
  }

  ghost function Chosen(w: World, a: Alias, s: Scope, visited: set<Key>): (chosen: set<Unit>)
    requires forall k :: k in visited ==> Backed(w, a, s, visited, k)
    ensures forall k :: k in visited ==> ChosenFor(w, a, s, visited, k) in chosen
    ensures forall u :: u in chosen ==> exists k :: k in visited && u == ChosenFor(w, a, s, visited, k)
  {
    set k | k in visited :: ChosenFor(w, a, s, visited, k)
  }

  lemma ChosenKeys(w: World, a: Alias, s: Scope, visited: set<Key>)
    requires forall k :: k in visited ==> Backed(w, a, s, visited, k)
    ensures KeysOf(w, Chosen(w, a, s, visited)) == visited
    ensures forall u :: u in Chosen(w, a, s, visited) ==>
      KeyOf(w, u) in visited && u == ChosenFor(w, a, s, visited, KeyOf(w, u))
  {
    hide Backs, Chosen, Backed;
    forall k | k in visited
      ensures KeyOf(w, ChosenFor(w, a, s, visited, k)) == k
    {
      BacksKey(w, a, s, visited, k);
    }
  }

  lemma BacksKey(w: World, a: Alias, s: Scope, visited: set<Key>, k: Key)
    requires Backed(w, a, s, visited, k)
    ensures KeyOf(w, ChosenFor(w, a, s, visited, k)) == k
  {
  }

  lemma SearchBacked(w: World, a: Alias, self: Id, filesets: seq<string>)
    requires Search(w, a, self, filesets).Done?
    ensures var st, s := Search(w, a, self, filesets).state, Reached(w, a, self, filesets);
      && Elements(st.filelist) == st.visited
      && (forall k :: k in st.visited ==> Backed(w, a, s, st.visited, k))
      && (forall r :: r in RootUnits(self, filesets) ==> KeyOf(w, r) in st.visited)
  {
    ReachedClosed(w, a, self, filesets);
    GatherAdds(w, a, self, filesets, START);
    NoneLeftOpen(Search(w, a, self, filesets).state);
    GatherBacking(w, a, Reached(w, a, self, filesets), self, filesets, START);
  }

  lemma AnswerKeys(w: World, a: Alias, self: Id, filesets: seq<string>)
    requires GetFileset(w, a, self, filesets).Some?
    ensures KeysOf(w, Elements(GetFileset(w, a, self, filesets).value))
      == Elements(Search(w, a, self, filesets).state.filelist)
  {
    var list, filelist := GetFileset(w, a, self, filesets).value, Search(w, a, self, filesets).state.filelist;
    SameLength(w, a, self, filesets);
    forall i | 0 <= i < |list|
      ensures KeyOf(w, list[i]) == filelist[i] && list[i] in Elements(list)
    {
      ObjectAt(w, a, self, filesets, i);
    }
    hide GetFileset, Search;
    forall k | k in Elements(filelist)
      ensures k in KeysOf(w, Elements(list))
    {
      var i :| 0 <= i < |filelist| && filelist[i] == k;
      assert KeyOf(w, list[i]) == k;
    }
  }

  /**
   * In every world, whatever designs share a name: up to the objects behind the names, the answer is
   * that of some choice of one reached, faultless fileset for every key.
   */
  lemma AnswerIsChoice(w: World, a: Alias, self: Id, filesets: seq<string>) returns (chosen: set<Unit>)
    requires GetFileset(w, a, self, filesets).Some?
    ensures IsChoice(w, a, self, filesets, chosen)
    ensures KeysOf(w, chosen) == KeysOf(w, Elements(GetFileset(w, a, self, filesets).value))
  {
    assert Search(w, a, self, filesets).Done?;
    var st, s := Search(w, a, self, filesets).state, Reached(w, a, self, filesets);
    hide Search, GetFileset, Reached;
    SearchBacked(w, a, self, filesets);
    AnswerKeys(w, a, self, filesets);
    chosen := Chosen(w, a, s, st.visited);
    ChosenKeys(w, a, s, st.visited);
    ChosenIsChoice(w, a, self, filesets, st.visited);
  }

  lemma ChosenIsChoice(w: World, a: Alias, self: Id, filesets: seq<string>, visited: set<Key>)
    requires var s := Reached(w, a, self, filesets); forall k :: k in visited ==> Backed(w, a, s, visited, k)
    requires forall r :: r in RootUnits(self, filesets) ==> KeyOf(w, r) in visited
    ensures IsChoice(w, a, self, filesets, Chosen(w, a, Reached(w, a, self, filesets), visited))
  {
    var s := Reached(w, a, self, filesets);
    var chosen := Chosen(w, a, s, visited);
    ChosenKeys(w, a, s, visited);
    EdgesKeys(w, a);
    hide Chosen, Reached, Faulty, Edges, Ahead, Backed, KeysOf, Backs;
    forall u | u in chosen
      ensures u in Units(w) && Ahead(Edges(w, a), RootUnits(self, filesets), u) && !Faulty(w, a, u)
      ensures forall v :: v in Edges(w, a)[u] ==> KeyOf(w, v) in visited
    {
      ChosenOne(w, a, self, filesets, visited, u);
    }
  }

  lemma ChosenOne(w: World, a: Alias, self: Id, filesets: seq<string>, visited: set<Key>, u: Unit)
    requires Backed(w, a, Reached(w, a, self, filesets), visited, KeyOf(w, u))
    requires u == ChosenFor(w, a, Reached(w, a, self, filesets), visited, KeyOf(w, u))
    ensures u in Units(w) && u in Edges(w, a) && Ahead(Edges(w, a), RootUnits(self, filesets), u) && !Faulty(w, a, u)
    ensures forall v :: v in Edges(w, a)[u] ==> KeyOf(w, v) in visited
  {
    assert Backs(w, a, Reached(w, a, self, filesets), visited, KeyOf(w, u), u);
    EdgesKeys(w, a);
    hide Faulty, Edges, Ahead;
  }

  /** No other fileset that can be reached is remembered by the same key. */
  ghost predicate HasOwnKey(w: World, a: Alias, self: Id, filesets: seq<string>, u: Unit) {
    forall v :: v in Units(w) && Ahead(Edges(w, a), RootUnits(self, filesets), v) && KeyOf(w, v) == KeyOf(w, u) ==>
      v == u
  }

  lemma OwnKeyChosen(w: World, a: Alias, self: Id, filesets: seq<string>, chosen: set<Unit>, x: Unit)
    requires IsChoice(w, a, self, filesets, chosen) && HasOwnKey(w, a, self, filesets, x)
      && KeyOf(w, x) in KeysOf(w, chosen)
    ensures x in chosen && x in Edges(w, a) && forall v :: v in Edges(w, a)[x] ==> KeyOf(w, v) in KeysOf(w, chosen)
  {
    EdgesKeys(w, a);
    hide Edges, Ahead, Faulty, RootUnits;
    var u :| u in chosen && KeyOf(w, u) == KeyOf(w, x);
  }

  lemma {:induction false} OwnKeysChosen(w: World, a: Alias, self: Id, filesets: seq<string>, chosen: set<Unit>,
      p: seq<Unit>, i: nat)
    requires IsChoice(w, a, self, filesets, chosen) && IsWalk(Edges(w, a), p) && p[0] in RootUnits(self, filesets)
      && i < |p|
    requires forall j :: 0 <= j < |p| ==> HasOwnKey(w, a, self, filesets, p[j])
    ensures p[i] in chosen && p[i] in Edges(w, a)
    ensures forall v :: v in Edges(w, a)[p[i]] ==> KeyOf(w, v) in KeysOf(w, chosen)
  {
    assert KeyOf(w, p[0]) in KeysOf(w, chosen);
    hide Edges, HasOwnKey, IsChoice, RootUnits, KeysOf;
    if i > 0 {
      OwnKeysChosen(w, a, self, filesets, chosen, p, i - 1);
      assert p[i - 1] in Edges(w, a) && p[i - 1 + 1] in Edges(w, a)[p[i - 1]];
    }
    OwnKeyChosen(w, a, self, filesets, chosen, p[i]);
  }

  /**
   * A fault is never missed that can be reached past filesets whose keys are their own, whatever
   * other designs share a name.
   */
  lemma OwnKeysRaise(w: World, a: Alias, self: Id, filesets: seq<string>, p: seq<Unit>)
    requires IsWalk(Edges(w, a), p) && p[0] in RootUnits(self, filesets) && Faulty(w, a, p[|p| - 1])
    requires forall j :: 0 <= j < |p| ==> HasOwnKey(w, a, self, filesets, p[j])
    ensures GetFileset(w, a, self, filesets).None?
  {
    assert |p| > 0;
    hide Faulty, Edges, GetFileset, HasOwnKey, RootUnits;
    if GetFileset(w, a, self, filesets).Some? {
      var chosen := AnswerIsChoice(w, a, self, filesets);
      OwnKeysChosen(w, a, self, filesets, chosen, p, |p| - 1);
    }
  }
}
