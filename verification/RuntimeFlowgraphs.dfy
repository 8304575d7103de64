/** The runtime view of a flowgraph: what to run, where it starts and ends, and in which order. */
module RuntimeFlowgraphs {
  import opened Ordering
  import opened Digraphs
  import opened Flows
  import opened Edits
  import opened Scheduling
  import opened Flowgraphs
  import opened RunViews
  import opened Skipping

  // ------------------------------------------------------------- the options

  /** Run one step or node, or the span between some steps with some nodes pruned. */
  datatype Options =
    | Single(step: string, index: Option<string>)
    | Span(fromSteps: set<string>, toSteps: set<string>, prune: set<Node>)

  ghost predicate Defined(f: Flow, o: Options) {
    match o
    case Single(step, None) => step in Steps(f)
    case Single(step, Some(index)) => Node(step, index) in f
    case Span(fromSteps, toSteps, _) => fromSteps <= Steps(f) && toSteps <= Steps(f)
  }

  function NodesOfSteps(f: Flow, steps: set<string>): set<Node> {
    set v | v in f && v.step in steps
  }

  function Pruned(o: Options): set<Node> {
    if o.Single? then {} else o.prune
  }

  ghost function Starts(f: Flow, o: Options): set<Node> {
    (match o
     case Single(step, None) => NodesOf(f, step)
     case Single(step, Some(index)) => {Node(step, index)}
     case Span(fromSteps, _, _) => if fromSteps == {} then Entries(f) else NodesOfSteps(f, fromSteps)) - Pruned(o)
  }

  ghost function Ends(f: Flow, o: Options): set<Node> {
    (match o
     case Single(step, None) => NodesOf(f, step)
     case Single(step, Some(index)) => {Node(step, index)}
     case Span(_, toSteps, _) => if toSteps == {} then Exits(f) else NodesOfSteps(f, toSteps)) - Pruned(o)
  }

  /** The nodes to run under the given options. */
  ghost function Viewed(f: Flow, o: Options): set<Node>
    requires Ends(f, o) <= f.Keys
  {
    View(f, Starts(f, o), Ends(f, o), Pruned(o))
  }

  lemma DefinedIff(f: Flow, o: Options)
    ensures o.Single? ==>
      (Defined(f, o) <==> exists v :: v in f && v.step == o.step && (o.index == None || o.index == Some(v.index)))
    ensures o.Span? ==>
      (Defined(f, o) <==> forall step :: step in o.fromSteps + o.toSteps ==> exists v :: v in f && v.step == step)
  {
    if o.Span? {
      assert Defined(f, o) <==> forall step :: step in o.fromSteps + o.toSteps ==> step in Steps(f);
    }
    if o.Single? && o.index.Some? && Defined(f, o) {
      assert Node(o.step, o.index.value) in f;
    }
  }

  lemma EndsDefined(f: Flow, o: Options)
    requires Defined(f, o)
    ensures Starts(f, o) <= f.Keys && Ends(f, o) <= f.Keys
  {
  }

  // ------------------------------------------------- what the options ask for

  /** A node to start from: of a named step, or without inputs if no step is named. */
  ghost predicate ToStart(f: Flow, steps: set<string>, v: Node)
    requires v in f
  {
    if steps == {} then f[v].input == [] else v.step in steps
  }

  /** A node to end at: of a named step, or without consumers if no step is named. */
  ghost predicate ToEnd(f: Flow, steps: set<string>, v: Node) {
    if steps == {} then forall w :: w in f ==> v !in f[w].input else v.step in steps
  }

  /** A path from a node to start from to a node to end at, without pruned nodes and further starts. */
  ghost predicate AskedPath(f: Flow, fromSteps: set<string>, toSteps: set<string>, prune: set<Node>, p: seq<Node>) {
    && p != [] && (forall v :: v in p ==> v in f && v !in prune)
    && (forall i :: 0 < i < |p| ==> p[i - 1] in f[p[i]].input)
    && (forall i :: 0 <= i < |p| ==> (ToStart(f, fromSteps, p[i]) <==> i == 0))
    && ToEnd(f, toSteps, p[|p| - 1])
  }

  /** What the options ask to be run. */
  ghost predicate Asked(f: Flow, o: Options, v: Node) {
    match o
    case Single(step, None) => v in f && v.step == step
    case Single(step, Some(index)) => v == Node(step, index)
    case Span(fromSteps, toSteps, prune) => exists p :: AskedPath(f, fromSteps, toSteps, prune, p) && v in p
  }

  /** An unpruned path leads from `v` to an end, and one leads there from a start. */
  ghost predicate Connects(f: Flow, o: Options, v: Node)
    requires o.Span?
  {
    exists s, t :: s in f && ToStart(f, o.fromSteps, s) && ToEnd(f, o.toSteps, t)
      && LeadsUnpruned(f, o.prune, v, t) && LeadsUnpruned(f, o.prune, s, t)
  }

  lemma ViewIsConnected(f: Flow, o: Options, v: Node)
    requires o.Span? && Defined(f, o) && Ends(f, o) <= f.Keys && v in Viewed(f, o)
    ensures Connects(f, o, v)
  {
    ViewConnects(f, Starts(f, o), Ends(f, o), o.prune, v);
    hide View, LeadsUnpruned;
  }

  lemma SimplePathShown(f: Flow, o: Options, p: seq<Node>, v: Node)
    requires o.Span? && Defined(f, o) && Ends(f, o) <= f.Keys
    requires AskedPath(f, o.fromSteps, o.toSteps, o.prune, p) && Distinct(p) && v in p
    ensures v in Viewed(f, o)
  {
    EndsDefined(f, o);
    AskedPathIs(f, o, p);
    assert Pruned(o) == o.prune;
    hide View, RunPath, AskedPath, Starts, Ends, Defined;
    SimplePathInView(f, Starts(f, o), Ends(f, o), o.prune, p, v);
  }

  lemma SingleView(f: Flow, s: set<Node>)
    requires s <= f.Keys
    ensures View(f, s, s, {}) == s
  {
    forall t | t in s
      ensures Contribution(f, s, {}, t) == {t}
    {
      assert Explore(Wired(f), s, {}, t, []) == Elements([] + [t]) == {t};
      assert t in {t} * s;
    }
  }

  lemma AskedPathIs(f: Flow, o: Options, p: seq<Node>)
    requires o.Span?
    ensures AskedPath(f, o.fromSteps, o.toSteps, o.prune, p) <==> RunPath(f, Starts(f, o), Ends(f, o), o.prune, p)
  {
    if AskedPath(f, o.fromSteps, o.toSteps, o.prune, p) {
      forall i | 0 <= i < |p| - 1
        ensures p[i] in Outputs(f) && p[i + 1] in Outputs(f)[p[i]]
      {
        assert p[i] in p && p[i + 1] in p && p[i + 1 - 1] in f[p[i + 1]].input;
      }
      assert forall i :: 0 <= i < |p| ==> p[i] in p;
    }
    if RunPath(f, Starts(f, o), Ends(f, o), o.prune, p) {
      forall i | 0 < i < |p|
        ensures p[i] in f && p[i - 1] in f[p[i]].input
      {
        assert p[i - 1] in Outputs(f) && p[i - 1 + 1] in Outputs(f)[p[i - 1]];
      }
    }
  }

  /** On an acyclic flow the view is what the options ask for; a single step or node is, on any flow. */
  lemma ViewIsAsked(f: Flow, o: Options, v: Node)
    requires Defined(f, o) && Ends(f, o) <= f.Keys && (o.Span? ==> Acyclic(Wired(f)))
    ensures v in Viewed(f, o) <==> Asked(f, o, v)
  {
    EndsDefined(f, o);
    if o.Span? {
      hide View, Acyclic, RunPath, AskedPath, Starts, Ends, Defined;
      ViewIsRunPaths(f, Starts(f, o), Ends(f, o), o.prune, v);
      forall p
        ensures AskedPath(f, o.fromSteps, o.toSteps, o.prune, p) <==> RunPath(f, Starts(f, o), Ends(f, o), o.prune, p)
      {
        AskedPathIs(f, o, p);
      }
    } else {
      assert Starts(f, o) == Ends(f, o);
      SingleView(f, Starts(f, o));
    }
  }

  // -------------------------------------------------------- the filtered order

  /** The levels of `order` cut down to the view, empty ones dropped; `at` says where each came from. */
  ghost predicate IsFiltered(order: seq<seq<Node>>, view: set<Node>, levels: seq<seq<Node>>, at: seq<nat>, n: nat) {
    && |at| == |levels| && n <= |order|
    && (forall i :: 0 <= i < |at| ==> at[i] < n)
    && (forall i, j :: 0 <= i < j < |at| ==> at[i] < at[j])
    && (forall i :: 0 <= i < |levels| ==> levels[i] != [] && Elements(levels[i]) == Elements(order[at[i]]) * view)
    && (forall k :: 0 <= k < n ==> Elements(order[k]) * view == {} || k in at)
  }

  method KeepIn(s: seq<Node>, keep: set<Node>) returns (r: seq<Node>)
    requires Distinct(s)
    ensures Elements(r) == Elements(s) * keep && Distinct(r)
    ensures Increasing(s, NodeLess) ==> Increasing(r, NodeLess)
  {
    r := [];
    ghost var at: seq<nat> := [];
    for i := 0 to |s|
      invariant |at| == |r|
      invariant forall k :: 0 <= k < |r| ==> at[k] < i && r[k] == s[at[k]]
      invariant forall j, k :: 0 <= j < k < |r| ==> at[j] < at[k]
      invariant Elements(r) == Elements(s[..i]) * keep
    {
      assert Elements(s[..i + 1]) == Elements(s[..i]) + {s[i]};
      if s[i] in keep {
        assert Elements(r + [s[i]]) == Elements(r) + {s[i]};
        r, at := r + [s[i]], at + [i];
      }
    }
    assert s[..|s|] == s;
  }

  method FilterOrder(order: seq<seq<Node>>, view: set<Node>) returns (levels: seq<seq<Node>>, ghost at: seq<nat>)
    requires forall k :: 0 <= k < |order| ==> Distinct(order[k])
    ensures IsFiltered(order, view, levels, at, |order|)
    ensures forall i :: 0 <= i < |levels| ==> Distinct(levels[i])
  {
    levels, at := [], [];
    for k := 0 to |order|
      invariant IsFiltered(order, view, levels, at, k)
      invariant forall i :: 0 <= i < |levels| ==> Distinct(levels[i])
    {
      var level := KeepIn(order[k], view);
      if level != [] {
        levels, at := levels + [level], at + [k];
        assert at[|at| - 1] == k;
      } else {
        assert Elements(level) == {};
      }
    }
  }

  /**
   * A schedule of the view: its levels hold every node of the view and no other, each in one
   * level, no level is empty, and every edge inside the view leads to a strictly later level.
   */
  ghost predicate IsSchedule(g: Graph<Node>, view: set<Node>, levels: seq<seq<Node>>) {
    && (forall i :: 0 <= i < |levels| ==> levels[i] != [] && Distinct(levels[i]))
    && (forall v :: v in view <==> exists i :: 0 <= i < |levels| && v in levels[i])
    && (forall i, j, v :: 0 <= i < |levels| && 0 <= j < |levels| && v in levels[i] && v in levels[j] ==> i == j)
    && (forall i, j, u, v ::
      0 <= i < |levels| && 0 <= j < |levels| && u in levels[i] && v in levels[j] && v in g && u in g[v] ==> i < j)
  }

  lemma FilteredFrom(order: seq<seq<Node>>, view: set<Node>, levels: seq<seq<Node>>, at: seq<nat>, i: nat, v: Node)
    requires IsFiltered(order, view, levels, at, |order|) && i < |levels|
    ensures v in levels[i] <==> v in view && v in order[at[i]]
  {
    assert v in levels[i] <==> v in Elements(levels[i]);
  }

  lemma AtMonotone(order: seq<seq<Node>>, view: set<Node>, levels: seq<seq<Node>>, at: seq<nat>, i: nat, j: nat)
    requires IsFiltered(order, view, levels, at, |order|) && i < |levels| && j < |levels|
    ensures at[i] < at[j] <==> i < j
    ensures at[i] == at[j] <==> i == j
  {
  }

  lemma InFiltered(order: seq<seq<Node>>, view: set<Node>, levels: seq<seq<Node>>, at: seq<nat>, k: nat, v: Node)
    requires IsFiltered(order, view, levels, at, |order|) && k < |order| && v in order[k] && v in view
    ensures exists i :: 0 <= i < |levels| && v in levels[i]
  {
    assert v in Elements(order[k]) * view;
    var i :| 0 <= i < |at| && at[i] == k;
    FilteredFrom(order, view, levels, at, i, v);
  }

  /** What is in a level is in the view and was scheduled, and the other way round. */
  lemma InLevelsIff(g: Graph<Node>, view: set<Node>, levels: seq<seq<Node>>, at: seq<nat>, v: Node)
    requires Schedulable(g) && view <= g.Keys
    requires IsFiltered(ExecutionOrder(g), view, levels, at, |ExecutionOrder(g)|)
    ensures (exists i :: 0 <= i < |levels| && v in levels[i]) <==> v in view && DependsOnSource(g, v)
  {
    var order := ExecutionOrder(g);
    hide Schedulable, DependsOnSource, ExecutionOrder;
    if v in view {
      ScheduledIff(g, v);
    }
    if v in view && DependsOnSource(g, v) {
      var k :| 0 <= k < |order| && v in order[k];
      InFiltered(order, view, levels, at, k, v);
    }
    if i :| 0 <= i < |levels| && v in levels[i] {
      FilteredFrom(order, view, levels, at, i, v);
      assert at[i] < |order|;
    }
  }

  /**
   * The filtered order is a schedule of the view exactly when there is an entry behind every node of
   * the view, as there is on every acyclic flow without undefined inputs.
   */
  lemma FilteredIsSchedule(g: Graph<Node>, view: set<Node>, levels: seq<seq<Node>>, at: seq<nat>)
    requires Schedulable(g) && view <= g.Keys
    requires IsFiltered(ExecutionOrder(g), view, levels, at, |ExecutionOrder(g)|)
    requires forall i :: 0 <= i < |levels| ==> Distinct(levels[i])
    ensures IsSchedule(g, view, levels) <==> forall v :: v in view ==> DependsOnSource(g, v)
    ensures Closed(g) && Acyclic(g) ==> IsSchedule(g, view, levels)
  {
    forall v
      ensures (exists i :: 0 <= i < |levels| && v in levels[i]) <==> v in view && DependsOnSource(g, v)
    {
      InLevelsIff(g, view, levels, at, v);
    }
    if Closed(g) && Acyclic(g) {
      forall v | v in view
        ensures DependsOnSource(g, v)
      {
        EveryNodeScheduled(g, v);
        InLevel(g, Height(g, v), v);
        SettledDependOnSource(g, Height(g, v) + 1, v);
      }
    }
    FilteredInOrder(g, view, levels, at);
  }

  /** No node is in two levels, and edges inside the view lead to later ones. */
  lemma FilteredInOrder(g: Graph<Node>, view: set<Node>, levels: seq<seq<Node>>, at: seq<nat>)
    requires IsFiltered(ExecutionOrder(g), view, levels, at, |ExecutionOrder(g)|)
    ensures forall i, j, v :: 0 <= i < |levels| && 0 <= j < |levels| && v in levels[i] && v in levels[j] ==> i == j
    ensures forall i, j, u, v ::
      0 <= i < |levels| && 0 <= j < |levels| && u in levels[i] && v in levels[j] && v in g && u in g[v] ==> i < j
  {
    var order := ExecutionOrder(g);
    forall i, j, v | 0 <= i < |levels| && 0 <= j < |levels| && v in levels[i] && v in levels[j]
      ensures i == j
    {
      FilteredFrom(order, view, levels, at, i, v);
      FilteredFrom(order, view, levels, at, j, v);
      ScheduledOnce(g, v, at[i], at[j]);
      AtMonotone(order, view, levels, at, i, j);
    }
    forall i, j, u, v | 0 <= i < |levels| && 0 <= j < |levels| && u in levels[i] && v in levels[j] && v in g
      && u in g[v]
      ensures i < j
    {
      FilteredFrom(order, view, levels, at, i, u);
      FilteredFrom(order, view, levels, at, j, v);
      DependenciesFirst(g, v, u, at[i], at[j]);
      AtMonotone(order, view, levels, at, i, j);
    }
  }

  // ------------------------------------------------------------ the walks

  /** What the walk follows: the defined inputs, or the consumers. */
  function Edges(f: Flow, reverse: bool): (g: Graph<Node>)
    ensures Closed(g) && g.Keys == f.Keys
  {
    WiredBack(f);
    if reverse then Wired(f) else Outputs(f)
  }

  /** The recursive walk, against the edges or along them. */
  method WalkGraph(base: Flowgraph, stops: set<Node>, prune: set<Node>, v: Node, path: seq<Node>, reverse: bool)
    returns (r: set<Node>)
    requires base.Coherent() && stops <= base.nodes.Keys && (v in base.nodes || reverse)
    requires SimplePath(Edges(base.nodes, reverse), path)
    modifies base`cacheNodes, base`cacheOutputs
    ensures base.Coherent()
    ensures r == if v in base.nodes then Explore(Edges(base.nodes, reverse), stops, prune, v, path) else {}
    decreases |base.nodes| - |path|, v in base.nodes
  {
    ghost var g := Edges(base.nodes, reverse);
    assert g.Keys == base.nodes.Keys && |g.Keys| == |g| == |base.nodes|;
    if v in prune {
      return {};
    }
    if v in path {
      return Elements(path);
    }
    var here := path + [v];
    if v in stops {
      return Elements(here);
    }
    var next := Neighbours(base, v, reverse);
    if v !in base.nodes {
      assert next == [];
      return {};
    }
    PathExtends(g, path, v);
    r := {};
    ghost var seen: set<Node> := {};
    for i := 0 to |next|
      invariant base.Coherent()
      invariant seen == Elements(next[..i])
      invariant r == set w, x | w in seen && w in g && x in Explore(g, stops, prune, w, here) :: x
    {
      assert next[i] in Elements(next);
      assert Elements(next[..i + 1]) == seen + {next[i]};
      var part := WalkGraph(base, stops, prune, next[i], here, reverse);
      r := r + part;
      seen := seen + {next[i]};
    }
    assert next[..|next|] == next;
    ExploreUnion(g, stops, prune, v, path, r);
  }

  lemma ExploreUnion(g: Graph<Node>, stops: set<Node>, prune: set<Node>, v: Node, path: seq<Node>, r: set<Node>)
    requires Closed(g) && v in g && SimplePath(g, path) && v !in prune && v !in path && v !in stops
    requires SimplePath(g, path + [v])
    requires r == set w, x | w in g[v] && x in Explore(g, stops, prune, w, path + [v]) :: x
    ensures r == Explore(g, stops, prune, v, path)
  {
    forall x
      ensures x in r <==> x in Explore(g, stops, prune, v, path)
    {
      InExplore(g, stops, prune, v, path, x);
    }
  }

  /** The inputs of a node, or its consumers; an undefined node has no inputs, as the schema's default says. */
  method Neighbours(base: Flowgraph, v: Node, reverse: bool) returns (next: seq<Node>)
    requires base.Coherent() && (v in base.nodes || reverse)
    modifies base`cacheNodes, base`cacheOutputs
    ensures base.Coherent()
    ensures !reverse ==> Elements(next) <= base.nodes.Keys
    ensures if v in base.nodes then Elements(next) * base.nodes.Keys == Edges(base.nodes, reverse)[v] else next == []
  {
    if reverse {
      next := if v in base.nodes then base.nodes[v].input else [];
    } else {
      var outputs := base.GetNodeOutputs(v);
      next := outputs.value;
      assert OutputSet(base.nodes, v) == Outputs(base.nodes)[v];
    }
  }

  // -------------------------------------------------------------- the view

  /** The view of a flow under some options: its nodes, its ends and its schedule. */
  class RuntimeFlowgraph {
    const base: Flowgraph
    var fromNodes: seq<Node>
    var toNodes: seq<Node>
    var prune: set<Node>
    var nodes: seq<Node>
    var order: seq<seq<Node>>

    /** What the view of flow `f` under options `o` has to be. */
    ghost predicate Shows(f: Flow, o: Options)
      reads this
    {
      && Defined(f, o) && Ends(f, o) <= f.Keys
      && prune == Pruned(o)
      && Lists(nodes, Viewed(f, o), NodeLess)
      && Lists(fromNodes, Starts(f, o) * Sources(f, Viewed(f, o)), NodeLess)
      && Lists(toNodes, Sinks(f, Viewed(f, o)), NodeLess)
      && exists at :: IsFiltered(ExecutionOrder(Inputs(f)), Viewed(f, o), order, at, |ExecutionOrder(Inputs(f))|)
    }

    /**
     * The same in terms of the flow and the options alone. On any flow no pruned node is run, every node
     * on a simple path that the options ask for is, and every node that is run leads to an end that a
     * start leads to as well; the end nodes are those that feed no other node that is run. On an acyclic
     * flow, and for a single step or node on any flow, what is run is what the options ask for, and the
     * start nodes are those that no other node that is run feeds.
     */
    ghost predicate Answers(f: Flow, o: Options)
      reads this
    {
      && prune == (if o.Span? then o.prune else {})
      && (forall v :: v in nodes ==> v in f && v !in prune && (o.Span? ==> Connects(f, o, v)))
      && (o.Span? ==> forall p, v ::
        AskedPath(f, o.fromSteps, o.toSteps, o.prune, p) && Distinct(p) && v in p ==> v in nodes)
      && (forall v :: v in toNodes <==> v in nodes && forall w :: w in nodes ==> v !in f[w].input)
      && ((o.Span? ==> Acyclic(Wired(f))) ==>
        && (forall v :: v in nodes <==> Asked(f, o, v))
        && (forall v :: v in fromNodes <==> v in nodes && forall u :: u in f[v].input ==> u !in nodes))
    }

    constructor (base: Flowgraph)
      ensures this.base == base
    {
      this.base := base;
      fromNodes, toNodes, prune, nodes, order := [], [], {}, [], [];
    }

    /**
     * Resolves the options and computes the view; an undefined step or index is refused. On an acyclic
     * flow the nodes are those the options ask for, and the reported ends those without an input or a
     * consumer among them. The base flow is left as it is.
     */
    method Initialise(o: Options) returns (ok: bool)
      requires base.Coherent() && Schedulable(Inputs(base.nodes))
      modifies this, base
      ensures base.Coherent() && base.nodes == old(base.nodes)
      ensures o.Single? ==>
        (ok <==> exists v :: v in base.nodes && v.step == o.step && (o.index == None || o.index == Some(v.index)))
      ensures o.Span? ==>
        (ok <==> forall step :: step in o.fromSteps + o.toSteps ==> exists v :: v in base.nodes && v.step == step)
      ensures ok ==> Shows(base.nodes, o) && Answers(base.nodes, o)
      ensures ok ==> (IsSchedule(Inputs(base.nodes), Elements(nodes), order)
        <==> forall v :: v in nodes ==> DependsOnSource(Inputs(base.nodes), v))
    {
      hide *;
      ghost var f := base.nodes;
      DefinedIff(f, o);
      ok := CheckDefined(o);
      if !ok {
        return;
      }
      EndsDefined(f, o);
      var starts, ends := ResolveEnds(o);
      prune := Pruned(o);
      fromNodes := SortNodes(starts - prune);
      toNodes := SortNodes(ends - prune);
      ComputeGraph(o);
      ShownIsAsked(this, f, o);
    }

    method CheckDefined(o: Options) returns (ok: bool)
      ensures ok <==> Defined(base.nodes, o)
    {
      match o
      case Single(step, None) => ok := step in Steps(base.nodes);
      case Single(step, Some(index)) => ok := Node(step, index) in base.nodes;
      case Span(fromSteps, toSteps, _) => ok := fromSteps <= Steps(base.nodes) && toSteps <= Steps(base.nodes);
    }

    method ResolveEnds(o: Options) returns (starts: set<Node>, ends: set<Node>)
      requires base.Coherent() && Defined(base.nodes, o)
      modifies base`cacheNodes, base`cacheEntry, base`cacheExit
      ensures base.Coherent()
      ensures starts - Pruned(o) == Starts(base.nodes, o)
      ensures ends - Pruned(o) == Ends(base.nodes, o)
    {
      match o
      case Single(step, None) =>
        starts := NodesOf(base.nodes, step);
        ends := starts;
      case Single(step, Some(index)) =>
        starts := {Node(step, index)};
        ends := starts;
      case Span(fromSteps, toSteps, _) =>
        if fromSteps != {} {
          starts := NodesOfSteps(base.nodes, fromSteps);
        } else {
          var entries := base.GetEntryNodes();
          starts := Elements(entries);
        }
        if toSteps != {} {
          ends := NodesOfSteps(base.nodes, toSteps);
        } else {
          var exits := base.GetExitNodes();
          ends := Elements(exits);
        }
    }

    /** Computes nodes, ends and order from the resolved start and end nodes. */
    method ComputeGraph(ghost o: Options)
      requires base.Coherent() && Schedulable(Inputs(base.nodes))
      requires Defined(base.nodes, o) && Ends(base.nodes, o) <= base.nodes.Keys && prune == Pruned(o)
      requires fromNodes == SortedNodes(Starts(base.nodes, o)) && toNodes == SortedNodes(Ends(base.nodes, o))
      modifies this, base
      ensures base.Coherent() && base.nodes == old(base.nodes)
      ensures Shows(base.nodes, o)
      ensures IsSchedule(Inputs(base.nodes), Viewed(base.nodes, o), order)
        <==> forall v :: v in Viewed(base.nodes, o) ==> DependsOnSource(Inputs(base.nodes), v)
    {
      hide IsSchedule, DependsOnSource, SortedNodes, ExecutionOrder, Starts, Ends, View, Sources, Sinks, Schedulable;
      ghost var f := base.nodes;
      ghost var view := Viewed(f, o);
      var found := CollectNodes(o);
      SinksAreEnds(f, Starts(f, o), Ends(f, o), Pruned(o));
      nodes := SortNodes(found);
      SortedNodesList(found);
      fromNodes := KeepStarts(found, view, o);
      toNodes := KeepEnds(found, view, o);
      var all := base.GetExecutionOrder(false);
      ghost var at;
      OrderDistinct(f);
      order, at := FilterOrder(all, found);
      FilteredIsSchedule(Inputs(f), view, order, at);
    }

    /** The union of the backward walks that meet a start node. */
    method CollectNodes(ghost o: Options) returns (found: set<Node>)
      requires base.Coherent()
      requires Ends(base.nodes, o) <= base.nodes.Keys && prune == Pruned(o)
      requires fromNodes == SortedNodes(Starts(base.nodes, o)) && toNodes == SortedNodes(Ends(base.nodes, o))
      modifies base`cacheNodes, base`cacheOutputs
      ensures base.Coherent()
      ensures found == Viewed(base.nodes, o)
    {
      ghost var f, from := base.nodes, Starts(base.nodes, o);
      var starts := Elements(fromNodes);
      found := {};
      ghost var seen: set<Node> := {};
      for i := 0 to |toNodes|
        invariant base.Coherent()
        invariant seen == Elements(toNodes[..i]) <= Ends(f, o)
        invariant found == View(f, from, seen, prune)
      {
        var t := toNodes[i];
        assert t in Elements(toNodes);
        assert Elements(toNodes[..i + 1]) == seen + {t};
        var path := WalkGraph(base, starts, prune, t, [], true);
        ViewOneMore(f, from, seen, prune, t, path);
        if exists n :: n in path && n in starts {
          ghost var n :| n in path && n in starts;
          assert n in path * from;
          found := found + path;
        } else {
          assert path * from == {};
        }
        seen := seen + {t};
      }
      assert toNodes[..|toNodes|] == toNodes;
    }

    method KeepStarts(found: set<Node>, ghost view: set<Node>, ghost o: Options) returns (r: seq<Node>)
      requires found == view <= base.nodes.Keys
      requires fromNodes == SortedNodes(Starts(base.nodes, o))
      ensures Lists(r, Starts(base.nodes, o) * Sources(base.nodes, view), NodeLess)
    {
      var sources := set v | v in found && v in base.nodes && forall u :: u in base.nodes[v].input ==> u !in found;
      SourcesListed(base.nodes, found, sources);
      r := KeepIn(fromNodes, sources);
    }

    method KeepEnds(found: set<Node>, ghost view: set<Node>, ghost o: Options) returns (r: seq<Node>)
      requires base.Coherent() && found == view <= base.nodes.Keys
      requires toNodes == SortedNodes(Ends(base.nodes, o)) && Ends(base.nodes, o) <= base.nodes.Keys
      requires Sinks(base.nodes, view) <= Ends(base.nodes, o)
      modifies base`cacheNodes, base`cacheOutputs
      ensures base.Coherent()
      ensures Lists(r, Sinks(base.nodes, view), NodeLess)
    {
      var sinks: set<Node> := {};
      for i := 0 to |toNodes|
        invariant base.Coherent()
        invariant sinks == Elements(toNodes[..i]) * Sinks(base.nodes, view)
      {
        var t := toNodes[i];
        assert t in Elements(toNodes);
        assert Elements(toNodes[..i + 1]) == Elements(toNodes[..i]) + {t};
        var next := Neighbours(base, t, false);
        if t in found && Elements(next) !! found {
          sinks := sinks + {t};
        }
      }
      assert toNodes[..|toNodes|] == toNodes;
      r := KeepIn(toNodes, sinks);
      assert Elements(r) == Sinks(base.nodes, view);
    }

    // --------------------------------------------------------------- queries

    /** The nodes that start at `v`: refused outside the view, else the forward walk to the end nodes. */
    method GetNodesStartingAt(v: Node, ghost o: Options) returns (r: Option<seq<Node>>)
      requires base.Coherent() && Shows(base.nodes, o)
      modifies base`cacheNodes, base`cacheOutputs
      ensures base.Coherent()
      ensures r.Some? <==> v in nodes
      ensures r.Some? ==> Distinct(r.value) && Increasing(r.value, NodeLess)
      ensures r.Some? ==> forall w :: w in r.value ==> LeadsUnpruned(base.nodes, prune, v, w)
      ensures r.Some? && Acyclic(Wired(base.nodes)) ==> forall w :: w in r.value <==>
        exists q :: StopWalk(Outputs(base.nodes), Elements(toNodes), prune, q) && q[0] == v && w in q
      ensures r.Some? ==> forall w :: ReachesInside(base.nodes, Elements(nodes), v, w) ==> w in r.value
      ensures r.Some? && Acyclic(Wired(base.nodes)) ==>
        ((forall w :: w in r.value <==> ReachesInside(base.nodes, Elements(nodes), v, w))
          <==> forall x, y :: !StraysAt(base.nodes, Elements(nodes), prune, v, x, y))
    {
      ghost var f := base.nodes;
      SinksAreEnds(f, Starts(f, o), Ends(f, o), Pruned(o));
      assert v in nodes <==> v in Elements(nodes);
      if v !in nodes {
        return None;
      }
      var walked := WalkGraph(base, Elements(toNodes), prune, v, [], false);
      var sorted := SortNodes(walked);
      SortedNodesList(walked);
      ReportWalks(f, Elements(toNodes), prune, v, sorted);
      ReportIs(f, o, v, sorted);
      r := Some(sorted);
    }

    /** The inputs of a node of the view, looking through nodes recorded as skipped. */
    method GetNodeInputs(v: Node, skipped: Option<set<Node>>, ghost o: Options) returns (r: Option<seq<Node>>)
      requires base.Coherent() && Shows(base.nodes, o)
      requires skipped.Some? ==> NoLoopIn(Cut(base.nodes, prune), skipped.value * Elements(nodes))
      modifies base`cacheNodes
      ensures base.Coherent()
      ensures r.Some? <==> v in nodes
      ensures r.Some? ==> v in base.nodes
      ensures r.Some? ==> Distinct(r.value) && Increasing(r.value, NodeLess)
      ensures r.Some? && skipped.None? ==>
        forall u :: u in r.value <==> u in base.nodes[v].input && u in base.nodes && u !in prune
      ensures r.Some? && skipped.Some? ==>
        Elements(r.value) == Resolved(Cut(base.nodes, prune), Elements(nodes), skipped.value, v)
    {
      ghost var f := base.nodes;
      SinksAreEnds(f, Starts(f, o), Ends(f, o), Pruned(o));
      CutIsClosed(f, prune);
      assert v in nodes <==> v in Elements(nodes);
      if v !in nodes {
        return None;
      }
      var all := base.GetNodes();
      var found;
      if skipped.None? {
        found := DirectInputs(base.nodes, prune, v);
      } else {
        found := ResolveInputs(base.nodes, prune, v, skipped.value, Elements(nodes));
      }
      var sorted := SortNodes(found);
      SortedNodesList(found);
      assert forall u :: u in sorted <==> u in Elements(sorted);
      r := Some(sorted);
    }
  }

  /** What a view shows, in terms of the flow and the options alone. */
  lemma ShownIsAsked(r: RuntimeFlowgraph, f: Flow, o: Options)
    requires r.Shows(f, o)
    ensures Elements(r.nodes) == Viewed(f, o) && (forall v :: v in r.nodes <==> v in Viewed(f, o)) && r.Answers(f, o)
  {
    var view := Viewed(f, o);
    EndsDefined(f, o);
    SinksAreEnds(f, Starts(f, o), Ends(f, o), Pruned(o));
    ListedShown(r, f, o);
    hide *;
    ViewAnswers(r, f, o);
  }

  lemma ListedShown(r: RuntimeFlowgraph, f: Flow, o: Options)
    requires r.Shows(f, o)
    ensures Elements(r.nodes) == Viewed(f, o) && (forall v :: v in r.nodes <==> v in Viewed(f, o))
    ensures forall v :: v in r.fromNodes <==> v in Starts(f, o) && v in Sources(f, Viewed(f, o))
    ensures forall v :: v in r.toNodes <==> v in Sinks(f, Viewed(f, o))
    ensures r.prune == if o.Span? then o.prune else {}
  {
    hide Viewed, Starts, Ends, Defined, Sources, Sinks, Increasing, Distinct, IsFiltered;
    assert forall v :: v in r.nodes <==> v in Elements(r.nodes);
    assert forall v :: v in r.fromNodes <==> v in Elements(r.fromNodes);
    assert forall v :: v in r.toNodes <==> v in Elements(r.toNodes);
  }

  lemma ViewAnswers(r: RuntimeFlowgraph, f: Flow, o: Options)
    requires Defined(f, o) && Ends(f, o) <= f.Keys && Viewed(f, o) <= f.Keys && Viewed(f, o) !! r.prune
    requires forall v :: v in r.nodes <==> v in Viewed(f, o)
    requires forall v :: v in r.fromNodes <==> v in Starts(f, o) && v in Sources(f, Viewed(f, o))
    requires forall v :: v in r.toNodes <==> v in Sinks(f, Viewed(f, o))
    requires r.prune == if o.Span? then o.prune else {}
    ensures r.Answers(f, o)
  {
    hide Viewed, Starts, Ends, Defined, Sources, Sinks, Asked, Acyclic, Connects, AskedPath, Distinct;
    EndsShown(f, Viewed(f, o));
    if o.Span? {
      forall v | v in Viewed(f, o)
        ensures Connects(f, o, v)
      {
        ViewIsConnected(f, o, v);
      }
      forall p, v | AskedPath(f, o.fromSteps, o.toSteps, o.prune, p) && Distinct(p) && v in p
        ensures v in Viewed(f, o)
      {
        SimplePathShown(f, o, p, v);
      }
    }
    if o.Span? ==> Acyclic(Wired(f)) {
      forall v
        ensures v in r.nodes <==> Asked(f, o, v)
      {
        ViewIsAsked(f, o, v);
      }
      SourcesShown(f, o);
    }
  }

  lemma EndsShown(f: Flow, view: set<Node>)
    requires view <= f.Keys
    ensures forall v :: v in Sources(f, view) <==> v in view && forall u :: u in f[v].input ==> u !in view
    ensures forall v :: v in Sinks(f, view) <==> v in view && forall w :: w in view ==> v !in f[w].input
  {
    forall v | v in view
      ensures v in Sources(f, view) <==> forall u :: u in f[v].input ==> u !in view
      ensures v in Sinks(f, view) <==> forall w :: w in view ==> v !in f[w].input
    {
      assert forall u :: u in f[v].input <==> u in Inputs(f)[v];
      assert forall w :: w in f ==> (w in Outputs(f)[v] <==> v in f[w].input);
    }
  }

  lemma SourcesShown(f: Flow, o: Options)
    requires Defined(f, o) && Ends(f, o) <= f.Keys && (o.Span? ==> Acyclic(Wired(f)))
    ensures Sources(f, Viewed(f, o)) <= Starts(f, o)
  {
    if o.Span? {
      EndsAreViewEnds(f, o);
    } else {
      EndsDefined(f, o);
      assert Starts(f, o) == Ends(f, o);
      SingleView(f, Starts(f, o));
    }
  }

  /** The report of the forward walk: what unpruned walks to a first stop go through. */
  lemma ReportWalks(f: Flow, stops: set<Node>, prune: set<Node>, v: Node, sorted: seq<Node>)
    requires v in f && Elements(sorted) == Explore(Edges(f, false), stops, prune, v, [])
    ensures forall w :: w in sorted ==> LeadsUnpruned(f, prune, v, w)
    ensures Acyclic(Wired(f)) ==> forall w :: w in sorted <==>
      exists q :: StopWalk(Outputs(f), stops, prune, q) && q[0] == v && w in q
  {
    WiredBack(f);
    assert forall w :: w in sorted <==> w in Elements(sorted);
    hide Explore, StopWalk, Acyclic, Elements;
    forall w | w in sorted
      ensures LeadsUnpruned(f, prune, v, w)
    {
      TrailLeads(f, stops, prune, v, w);
    }
    if Acyclic(Wired(f)) {
      AcyclicReversed(Wired(f));
      forall w
        ensures w in sorted <==> exists q :: StopWalk(Outputs(f), stops, prune, q) && q[0] == v && w in q
      {
        ExploreIs(Outputs(f), stops, prune, v, w);
      }
    }
  }

  lemma TrailLeads(f: Flow, stops: set<Node>, prune: set<Node>, v: Node, w: Node)
    requires v in f && w in Explore(Edges(f, false), stops, prune, v, [])
    ensures LeadsUnpruned(f, prune, v, w)
  {
    WiredBack(f);
    assert IsWalk(Outputs(f), [] + [v]);
    var q := ExploreTrail(Outputs(f), stops, prune, v, [], w);
    WalkStays(Outputs(f), q);
    assert WalkBetween(Outputs(f), q, v, w);
  }

  lemma ReportIs(f: Flow, o: Options, v: Node, sorted: seq<Node>)
    requires Defined(f, o) && Ends(f, o) <= f.Keys && v in f && v in Viewed(f, o)
    requires Elements(sorted) == StartingAt(f, Starts(f, o), Ends(f, o), Pruned(o), v)
    ensures forall w :: ReachesInside(f, Viewed(f, o), v, w) ==> w in sorted
    ensures Acyclic(Wired(f)) ==>
      ((forall w :: w in sorted <==> ReachesInside(f, Viewed(f, o), v, w))
        <==> forall x, y :: !StraysAt(f, Viewed(f, o), Pruned(o), v, x, y))
  {
    EndsDefined(f, o);
    assert forall w :: w in sorted <==> w in Elements(sorted);
    hide Starts, Ends, Defined, View, Explore, Sinks, ReachesInside, StraysAt, Acyclic;
    forall w | ReachesInside(f, Viewed(f, o), v, w)
      ensures w in sorted
    {
      StartingAtComplete(f, Starts(f, o), Ends(f, o), Pruned(o), v, w);
    }
    if Acyclic(Wired(f)) {
      StartingAtExactIff(f, Starts(f, o), Ends(f, o), Pruned(o), v);
    }
  }

  // --------------------------------------------------------- resolving inputs

  /** The inputs of a node that are defined and not pruned. */
  method DirectInputs(f: Flow, prune: set<Node>, v: Node) returns (r: set<Node>)
    requires v in f
    ensures r == Cut(f, prune)[v]
  {
    var inputs := f[v].input;
    r := {};
    for i := 0 to |inputs|
      invariant r == (Elements(inputs[..i]) * f.Keys) - prune
    {
      assert Elements(inputs[..i + 1]) == Elements(inputs[..i]) + {inputs[i]};
      if inputs[i] in f && inputs[i] !in prune {
        r := r + {inputs[i]};
      }
    }
    assert inputs[..|inputs|] == inputs;
  }

  method ResolveInputs(f: Flow, prune: set<Node>, v: Node, skipped: set<Node>, view: set<Node>) returns (r: set<Node>)
    requires v in f && NoLoopIn(Cut(f, prune), skipped * view)
    ensures r == Resolved(Cut(f, prune), view, skipped, v)
    decreases Top(skipped * view, v), Depth(Cut(f, prune), skipped * view, v), 1
  {
    var direct := DirectInputs(f, prune, v);
    InputsLower(Cut(f, prune), skipped * view, v);
    r := ResolveEach(f, prune, direct, skipped, view, Cut(f, prune), Top(skipped * view, v),
      Depth(Cut(f, prune), skipped * view, v));
    ResolvedIsBehindAll(Cut(f, prune), view, skipped, v);
  }

  /** What the given inputs stand for together. */
  method ResolveEach(f: Flow, prune: set<Node>, direct: set<Node>, skipped: set<Node>, view: set<Node>,
                     ghost g: Graph<Node>, ghost top: nat, ghost bound: nat)
    returns (r: set<Node>)
    requires g == Cut(f, prune) && NoLoopIn(g, skipped * view)
    requires forall u :: u in direct ==> u in f && u in g && (top == 0 ==> Depth(g, skipped * view, u) < bound)
    ensures r == BehindAll(g, view, skipped, direct)
    decreases top, bound, 0
  {
    assert BehindAll(g, view, skipped, {}) == {};
    hide *;
    r := {};
    var todo := direct;
    ghost var seen: set<Node> := {};
    while todo != {}
      invariant todo <= direct && seen == direct - todo
      invariant r == BehindAll(g, view, skipped, seen)
      decreases |todo|
    {
      var u :| u in todo;
      var part := ResolveInput(f, prune, u, skipped, view);
      BehindOneMore(g, view, skipped, seen, u);
      r := r + part;
      todo, seen := todo - {u}, seen + {u};
    }
    assert seen == direct;
  }

  /** What one input stands for. */
  method ResolveInput(f: Flow, prune: set<Node>, u: Node, skipped: set<Node>, view: set<Node>) returns (r: set<Node>)
    requires u in f && NoLoopIn(Cut(f, prune), skipped * view)
    ensures r == Behind(Cut(f, prune), view, skipped, u)
    decreases 0, Depth(Cut(f, prune), skipped * view, u), 2
  {
    if u !in skipped {
      r := {u};
    } else if u !in view {
      r := DirectInputs(f, prune, u);
    } else {
      r := ResolveInputs(f, prune, u, skipped, view);
    }
  }

  ghost function BehindAll(g: Graph<Node>, view: set<Node>, skipped: set<Node>, s: set<Node>): set<Node>
    requires NoLoopIn(g, skipped * view)
  {
    set u, w | u in s && u in g && w in Behind(g, view, skipped, u) :: w
  }

  lemma BehindOneMore(g: Graph<Node>, view: set<Node>, skipped: set<Node>, s: set<Node>, u: Node)
    requires NoLoopIn(g, skipped * view) && u in g
    ensures BehindAll(g, view, skipped, s + {u}) == BehindAll(g, view, skipped, s) + Behind(g, view, skipped, u)
  {
  }

  lemma ResolvedIsBehindAll(g: Graph<Node>, view: set<Node>, skipped: set<Node>, v: Node)
    requires NoLoopIn(g, skipped * view) && v in g
    ensures Resolved(g, view, skipped, v) == BehindAll(g, view, skipped, g[v])
  {
    forall w
      ensures w in BehindAll(g, view, skipped, g[v]) <==> w in Resolved(g, view, skipped, v)
    {
      InResolved(g, view, skipped, v, w);
    }
  }

  lemma ViewOneMore(f: Flow, from: set<Node>, to: set<Node>, prune: set<Node>, t: Node, path: set<Node>)
    requires to <= f.Keys && t in f
    requires path == Explore(Wired(f), from, prune, t, [])
    ensures View(f, from, to + {t}, prune) == View(f, from, to, prune) + if path * from != {} then path else {}
  {
    forall x
      ensures x in View(f, from, to + {t}, prune)
        <==> x in View(f, from, to, prune) || x in Contribution(f, from, prune, t)
    {
    }
  }

  lemma SourcesListed(f: Flow, found: set<Node>, sources: set<Node>)
    requires sources == set v | v in found && v in f && forall u :: u in f[v].input ==> u !in found
    ensures sources == Sources(f, found)
  {
    forall v | v in f
      ensures (forall u :: u in f[v].input ==> u !in found) <==> Inputs(f)[v] !! found
    {
      assert forall u :: u in f[v].input <==> u in Inputs(f)[v];
    }
  }

  lemma OrderDistinct(f: Flow)
    ensures forall k :: 0 <= k < |ExecutionOrder(Inputs(f))| ==> Distinct(ExecutionOrder(Inputs(f))[k])
  {
  }

  /** On an acyclic flow the reported entries and exits are exactly the view's sources and sinks. */
  lemma EndsAreViewEnds(f: Flow, o: Options)
    requires Acyclic(Wired(f)) && Defined(f, o)
    ensures Ends(f, o) <= f.Keys
    ensures Starts(f, o) * Sources(f, Viewed(f, o)) == Sources(f, Viewed(f, o))
    ensures Ends(f, o) * Sinks(f, Viewed(f, o)) == Sinks(f, Viewed(f, o))
  {
    EndsDefined(f, o);
    SourcesAreStarts(f, Starts(f, o), Ends(f, o), Pruned(o));
    SinksAreEnds(f, Starts(f, o), Ends(f, o), Pruned(o));
  }

  /** A flow a -> b -> c of three steps. */
  ghost predicate Chain(f: Flow, a: Node, b: Node, c: Node) {
    && f.Keys == {a, b, c} && a.step != b.step && b.step != c.step && a.step != c.step
    && f[a].input == [] && f[b].input == [a] && f[c].input == [b]
  }

  /**
   * Run from the last step of a chain alone, with the two steps before it skipped earlier: the first
   * of them remains among the inputs, though it was skipped.
   */
  lemma SkippedLeaks(f: Flow, a: Node, b: Node, c: Node)
    requires Chain(f, a, b, c)
    ensures var o := Span({c.step}, {}, {});
      && Defined(f, o) && Ends(f, o) <= f.Keys && c in Viewed(f, o)
      && NoLoopIn(Cut(f, {}), {a, b} * Viewed(f, o))
      && a in Resolved(Cut(f, {}), Viewed(f, o), {a, b}, c)
  {
    ChainEnds(f, a, b, c);
    ChainView(f, a, b, c);
    CutNothing(f);
    ChainLeaks(Inputs(f), a, b, c);
  }

  lemma ChainLeaks(g: Graph<Node>, a: Node, b: Node, c: Node)
    requires g.Keys == {a, b, c} && a != b && b != c && a != c && g[a] == {} && g[b] == {a} && g[c] == {b}
    ensures NoLoopIn(g, {a, b} * {c}) && a in Resolved(g, {c}, {a, b}, c)
  {
    RankedAcyclic(g, map[a := 0, b := 1, c := 2]);
    AcyclicNoLoop(g, {a, b} * {c});
    hide Acyclic, NoLoopIn, Depth, Top;
    InResolved(g, {c}, {a, b}, c, a);
    assert a in Behind(g, {c}, {a, b}, b);
  }

  lemma ChainView(f: Flow, a: Node, b: Node, c: Node)
    requires Chain(f, a, b, c) && Exits(f) == {c} && NoDangling(f)
    ensures var o := Span({c.step}, {}, {});
      Defined(f, o) && Ends(f, o) == {c} && Viewed(f, o) == {c}
  {
    var o := Span({c.step}, {}, {});
    assert c.step in Steps(f) && Starts(f, o) == {c};
    assert Explore(Wired(f), {c}, {}, c, []) == Elements([] + [c]) == {c};
    assert Contribution(f, {c}, {}, c) == {c};
  }

  lemma ChainEnds(f: Flow, a: Node, b: Node, c: Node)
    requires Chain(f, a, b, c)
    ensures Exits(f) == {c} && NoDangling(f)
    ensures Inputs(f)[a] == {} && Inputs(f)[b] == {a} && Inputs(f)[c] == {b}
  {
    assert a in f[b].input && b in f[c].input;
    assert Inputs(f)[a] == {} && Inputs(f)[b] == {a} && Inputs(f)[c] == {b};
  }

  // --------------------------------------------------------- concrete flows

  function At(step: string): Node {
    Node(step, "0")
  }

  function Task(input: seq<Node>): NodeData {
    NodeData(input, Binding("builtin", "nop", "siliconcompiler.tools.builtin/Nop"), map[])
  }

  /** A flow a -> c -> u -> b -> t with a second edge c -> t. */
  function DetourFlow(): Flow {
    map[At("a") := Task([]), At("c") := Task([At("a")]), At("u") := Task([At("c")]),
      At("b") := Task([At("u")]), At("t") := Task([At("c"), At("b")])]
  }

  lemma DetourFlowIs()
    ensures Detour(DetourFlow(), At("a"), At("c"), At("u"), At("b"), At("t"))
  {
  }

  lemma DetourEnds(f: Flow)
    requires Detour(f, At("a"), At("c"), At("u"), At("b"), At("t"))
    ensures var o := Span({"a", "b"}, {}, {});
      Defined(f, o) && Starts(f, o) == {At("a"), At("b")} && Ends(f, o) == {At("t")} && Pruned(o) == {}
  {
    var o := Span({"a", "b"}, {}, {});
    assert "a" in Steps(f) && "b" in Steps(f) by {
      assert At("a") in f && At("b") in f;
    }
    assert Starts(f, o) == {At("a"), At("b")};
    assert At("a") in Elements(f[At("c")].input) && At("c") in Elements(f[At("u")].input);
    assert At("u") in Elements(f[At("b")].input) && At("b") in Elements(f[At("t")].input);
    forall v | v in f
      ensures v in Exits(f) <==> v == At("t")
    {
      assert forall w :: w in f ==> At("t") !in Elements(f[w].input);
    }
  }

  /** Run from `a` and from `b`, the node `u` between them is reported as starting at `c`, and is not run. */
  lemma ReportLeavesView()
    ensures var f, o := DetourFlow(), Span({"a", "b"}, {}, {});
      && Defined(f, o) && Ends(f, o) <= f.Keys && At("c") in f && At("c") in Viewed(f, o)
      && At("u") in StartingAt(f, Starts(f, o), Ends(f, o), Pruned(o), At("c")) && At("u") !in Viewed(f, o)
  {
    DetourFlowIs();
    DetourEnds(DetourFlow());
    StartingAtLeavesView(DetourFlow(), At("a"), At("c"), At("u"), At("b"), At("t"));
  }

  /** A flow a -> b -> c. */
  function ChainFlow(): Flow {
    map[At("a") := Task([]), At("b") := Task([At("a")]), At("c") := Task([At("b")])]
  }

  /** Run from `c` alone with `a` and `b` skipped earlier, `a` remains among the inputs of `c`. */
  lemma InputLeaks()
    ensures var f, o, skipped := ChainFlow(), Span({"c"}, {}, {}), {At("a"), At("b")};
      && Defined(f, o) && Ends(f, o) <= f.Keys && At("c") in f && At("c") in Viewed(f, o)
      && NoLoopIn(Cut(f, {}), skipped * Viewed(f, o))
      && At("a") in Resolved(Cut(f, {}), Viewed(f, o), skipped, At("c"))
  {
    SkippedLeaks(ChainFlow(), At("a"), At("b"), At("c"));
  }
}
