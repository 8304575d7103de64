/** The part of a flow to run: path-based walks between start, end and pruned nodes. */
module RunViews {
  import opened Ordering
  import opened Digraphs
  import opened Flows
  import opened Scheduling

  // ----------------------------------------------------------------- walking

  ghost predicate SimplePath(g: Graph<Node>, path: seq<Node>) {
    Distinct(path) && forall i :: 0 <= i < |path| ==> path[i] in g
  }

  /** The union of the paths the recursive walk returns. */
  ghost function Explore(g: Graph<Node>, stops: set<Node>, prune: set<Node>, v: Node, path: seq<Node>): set<Node>
    requires Closed(g) && v in g && SimplePath(g, path)
    decreases |g| - |path|
  {
    if v in prune then {}
    else if v in path then Elements(path)
    else if v in stops then Elements(path + [v])
    else
      DistinctFits(path + [v], g.Keys);
      set w, x | w in g[v] && x in Explore(g, stops, prune, w, path + [v]) :: x
  }

  /** A walk that ends at its first stop and meets no pruned node. */
  ghost predicate StopWalk(g: Graph<Node>, stops: set<Node>, prune: set<Node>, q: seq<Node>) {
    && IsWalk(g, q) && q[|q| - 1] in stops
    && (forall i :: 0 <= i < |q| - 1 ==> q[i] !in stops)
    && (forall i :: 0 <= i < |q| ==> q[i] !in prune)
  }

  lemma PathExtends(g: Graph<Node>, path: seq<Node>, v: Node)
    requires SimplePath(g, path) && v in g && v !in path
    ensures SimplePath(g, path + [v]) && |path| + 1 <= |g|
  {
    DistinctFits(path + [v], g.Keys);
  }

  lemma InExplore(g: Graph<Node>, stops: set<Node>, prune: set<Node>, v: Node, path: seq<Node>, x: Node)
    requires Closed(g) && v in g && SimplePath(g, path)
    requires v !in prune && v !in path && v !in stops
    ensures SimplePath(g, path + [v])
    ensures x in Explore(g, stops, prune, v, path)
      <==> exists w :: w in g[v] && x in Explore(g, stops, prune, w, path + [v])
  {
    PathExtends(g, path, v);
  }

  lemma StopWalkTail(g: Graph<Node>, stops: set<Node>, prune: set<Node>, q: seq<Node>)
    requires StopWalk(g, stops, prune, q) && |q| > 1
    ensures StopWalk(g, stops, prune, q[1..]) && q[0] in g && q[1] in g[q[0]]
  {
    WalkFirstStep(g, q);
    WalkSlice(g, q, 1, |q| - 1);
    assert q[1..|q| - 1 + 1] == q[1..];
  }

  lemma StopWalkCons(g: Graph<Node>, stops: set<Node>, prune: set<Node>, v: Node, q: seq<Node>)
    requires StopWalk(g, stops, prune, q) && v in g && q[0] in g[v] && v !in stops && v !in prune
    ensures StopWalk(g, stops, prune, [v] + q)
  {
    assert WalkBetween(g, [v, q[0]], v, q[0]);
    WalkJoin(g, [v, q[0]], q, v, q[0], q[|q| - 1]);
    assert [v, q[0]] + q[1..] == [v] + q;
  }

  /** Every stop walk from `v` is among the paths the recursion returns, unless it meets the path so far. */
  lemma {:induction false} ExploreComplete(g: Graph<Node>, stops: set<Node>, prune: set<Node>, v: Node, path: seq<Node>,
      q: seq<Node>)
    requires Closed(g) && v in g && SimplePath(g, path)
    requires StopWalk(g, stops, prune, q) && q[0] == v && Distinct(path + q)
    ensures Elements(path + q) <= Explore(g, stops, prune, v, path)
    decreases |q|
  {
    assert (path + q)[|path|] == v;
    assert v !in path by {
      assert forall i :: 0 <= i < |path| ==> (path + q)[i] == path[i];
    }
    if |q| == 1 {
      assert q == [v];
    } else {
      assert v !in stops;
      StopWalkTail(g, stops, prune, q);
      PathExtends(g, path, v);
      assert (path + [v]) + q[1..] == path + q;
      ExploreComplete(g, stops, prune, q[1], path + [v], q[1..]);
      forall x | x in Elements(path + q)
        ensures x in Explore(g, stops, prune, v, path)
      {
        InExplore(g, stops, prune, v, path, x);
      }
    }
  }

  /** In an acyclic graph the recursion returns nothing but stop walks. */
  lemma {:induction false} ExploreSound(g: Graph<Node>, stops: set<Node>, prune: set<Node>, v: Node, path: seq<Node>,
      x: Node) returns (q: seq<Node>)
    requires Closed(g) && Acyclic(g) && v in g && SimplePath(g, path) && IsWalk(g, path + [v])
    requires x in Explore(g, stops, prune, v, path)
    ensures StopWalk(g, stops, prune, q) && q[0] == v && x in path + q
    decreases |g| - |path|
  {
    AcyclicWalkDistinct(g, path + [v]);
    assert v !in path by {
      assert forall i :: 0 <= i < |path| ==> (path + [v])[i] == path[i];
      assert (path + [v])[|path|] == v;
    }
    if v in stops {
      q := [v];
    } else {
      InExplore(g, stops, prune, v, path, x);
      PathExtends(g, path, v);
      hide Explore, SimplePath;
      var w :| w in g[v] && x in Explore(g, stops, prune, w, path + [v]);
      assert IsWalk(g, (path + [v]) + [w]);
      var s := ExploreSound(g, stops, prune, w, path + [v], x);
      StopWalkCons(g, stops, prune, v, s);
      q := [v] + s;
      assert (path + [v]) + s == path + q;
    }
  }

  /** On an acyclic graph the walk finds exactly the nodes on unpruned walks to a first stop. */
  lemma ExploreIs(g: Graph<Node>, stops: set<Node>, prune: set<Node>, v: Node, x: Node)
    requires Closed(g) && Acyclic(g) && v in g
    ensures x in Explore(g, stops, prune, v, []) <==> exists q :: StopWalk(g, stops, prune, q) && q[0] == v && x in q
  {
    if x in Explore(g, stops, prune, v, []) {
      assert IsWalk(g, [] + [v]);
      var q := ExploreSound(g, stops, prune, v, [], x);
      assert [] + q == q;
    }
    if q :| StopWalk(g, stops, prune, q) && q[0] == v && x in q {
      AcyclicWalkDistinct(g, q);
      assert [] + q == q;
      ExploreComplete(g, stops, prune, v, [], q);
      assert x in Elements([] + q);
    }
  }

  lemma WalkUpTo(g: Graph<Node>, p: seq<Node>, x: Node) returns (q: seq<Node>)
    requires IsWalk(g, p) && x in p
    ensures IsWalk(g, q) && q[0] == p[0] && q[|q| - 1] == x && Elements(q) <= Elements(p)
  {
    var i :| 0 <= i < |p| && p[i] == x;
    WalkSlice(g, p, 0, i);
    q := p[0..i + 1];
    assert forall j :: 0 <= j < |q| ==> q[j] == p[j];
  }

  /** On any graph, whatever the walk returns it returns together with an unpruned walk to it from the start. */
  lemma {:induction false} ExploreTrail(g: Graph<Node>, stops: set<Node>, prune: set<Node>, v: Node, path: seq<Node>,
      x: Node) returns (q: seq<Node>)
    requires Closed(g) && v in g && SimplePath(g, path) && IsWalk(g, path + [v])
    requires forall i :: 0 <= i < |path| ==> path[i] !in prune
    requires x in Explore(g, stops, prune, v, path)
    ensures IsWalk(g, q) && q[0] == (path + [v])[0] && q[|q| - 1] == x
    ensures Elements(q) <= Explore(g, stops, prune, v, path)
    ensures forall y :: y in q ==> y !in prune
    decreases |g| - |path|
  {
    if v in path || v in stops {
      var full := if v in path then path else path + [v];
      assert Explore(g, stops, prune, v, path) == Elements(full);
      assert full == (path + [v])[..|full|];
      hide Explore, SimplePath;
      q := WalkUpTo(g, full, x);
      assert forall j :: 0 <= j < |q| ==> q[j] in Elements(q);
    } else {
      InExplore(g, stops, prune, v, path, x);
      PathExtends(g, path, v);
      var w :| w in g[v] && x in Explore(g, stops, prune, w, path + [v]);
      assert IsWalk(g, (path + [v]) + [w]);
      q := ExploreTrail(g, stops, prune, w, path + [v], x);
      forall y | y in Elements(q)
        ensures y in Explore(g, stops, prune, v, path)
      {
        InExplore(g, stops, prune, v, path, y);
      }
    }
  }

  // ------------------------------------------------------------------ the view

  /** The nodes the backward walk from one end node contributes. */
  ghost function Contribution(f: Flow, from: set<Node>, prune: set<Node>, t: Node): set<Node>
    requires t in f
  {
    var path := Explore(Wired(f), from, prune, t, []);
    if path * from != {} then path else {}
  }

  /** The nodes to run, for start and end nodes that are not pruned. */
  ghost function View(f: Flow, from: set<Node>, to: set<Node>, prune: set<Node>): set<Node>
    requires to <= f.Keys
  {
    set t, x | t in to && x in Contribution(f, from, prune, t) :: x
  }

  /** A path of the flow from a start node to an end node, unpruned, with no start node after its first. */
  ghost predicate RunPath(f: Flow, from: set<Node>, to: set<Node>, prune: set<Node>, p: seq<Node>) {
    && IsWalk(Outputs(f), p) && p[0] in from && p[|p| - 1] in to
    && (forall i :: 0 < i < |p| ==> p[i] !in from)
    && (forall i :: 0 <= i < |p| ==> p[i] !in prune)
  }

  lemma RunPathBackwards(f: Flow, from: set<Node>, to: set<Node>, prune: set<Node>, p: seq<Node>)
    requires RunPath(f, from, to, prune, p) && p[0] in f
    ensures StopWalk(Wired(f), from, prune, Backwards(p)) && Backwards(p)[0] in to
  {
    WiredBack(f);
    WalkReversed(Outputs(f), p, p[0], p[|p| - 1]);
  }

  lemma StopWalkForwards(f: Flow, from: set<Node>, to: set<Node>, prune: set<Node>, q: seq<Node>)
    requires StopWalk(Wired(f), from, prune, q) && q[0] in to && q[0] in f
    ensures RunPath(f, from, to, prune, Backwards(q))
  {
    WalkReversed(Wired(f), q, q[0], q[|q| - 1]);
  }

  lemma InBackwards(p: seq<Node>, x: Node)
    ensures x in Backwards(p) <==> x in p
  {
    var r := Backwards(p);
    if x in p {
      var i :| 0 <= i < |p| && p[i] == x;
      assert r[|p| - 1 - i] == x;
    }
    if x in r {
      var i :| 0 <= i < |r| && r[i] == x;
      assert p[|p| - 1 - i] == x;
    }
  }

  /**
   * On an acyclic flow the view is exactly the set of nodes on unpruned paths from a start node to
   * an end node that meet no other start node after their first.
   */
  lemma ViewIsRunPaths(f: Flow, from: set<Node>, to: set<Node>, prune: set<Node>, x: Node)
    requires Acyclic(Wired(f)) && from <= f.Keys && to <= f.Keys
    ensures x in View(f, from, to, prune) <==> exists p :: RunPath(f, from, to, prune, p) && x in p
  {
    var g := Wired(f);
    if x in View(f, from, to, prune) {
      var t :| t in to && x in Contribution(f, from, prune, t);
      ExploreIs(g, from, prune, t, x);
      var q :| StopWalk(g, from, prune, q) && q[0] == t && x in q;
      StopWalkForwards(f, from, to, prune, q);
      InBackwards(q, x);
    }
    if p :| RunPath(f, from, to, prune, p) && x in p {
      RunPathBackwards(f, from, to, prune, p);
      InBackwards(p, x);
      var q := Backwards(p);
      var t := q[0];
      ExploreIs(g, from, prune, t, x);
      ExploreIs(g, from, prune, t, p[0]);
      InBackwards(p, p[0]);
      assert p[0] in Explore(g, from, prune, t, []) * from;
      assert x in Contribution(f, from, prune, t);
    }
  }

  lemma BackwardsDistinct(p: seq<Node>)
    requires Distinct(p)
    ensures Distinct(Backwards(p))
  {
    var q := Backwards(p);
    forall i, j | 0 <= i < j < |q|
      ensures q[i] != q[j]
    {
      assert p[|p| - 1 - j] != p[|p| - 1 - i];
    }
  }

  /** On any flow the view holds every unpruned path from start to end that meets no node twice and no start again. */
  lemma SimplePathInView(f: Flow, from: set<Node>, to: set<Node>, prune: set<Node>, p: seq<Node>, x: Node)
    requires from <= f.Keys && to <= f.Keys && RunPath(f, from, to, prune, p) && Distinct(p) && x in p
    ensures x in View(f, from, to, prune)
  {
    RunPathBackwards(f, from, to, prune, p);
    InBackwards(p, x);
    BackwardsDistinct(p);
    hide *;
    SimpleStopWalk(f, from, to, prune, Backwards(p), x);
  }

  lemma SimpleStopWalk(f: Flow, from: set<Node>, to: set<Node>, prune: set<Node>, q: seq<Node>, x: Node)
    requires from <= f.Keys && to <= f.Keys && StopWalk(Wired(f), from, prune, q) && Distinct(q) && q[0] in to && x in q
    ensures x in View(f, from, to, prune)
  {
    var path := Explore(Wired(f), from, prune, q[0], []);
    assert [] + q == q;
    assert q[|q| - 1] in Elements(q) && x in Elements(q);
    ExploreComplete(Wired(f), from, prune, q[0], [], q);
    hide Explore, Distinct, Wired;
    assert q[|q| - 1] in path * from;
    assert x in Contribution(f, from, prune, q[0]);
  }

  /** An unpruned path leads from `v` to `t`. */
  ghost predicate LeadsUnpruned(f: Flow, prune: set<Node>, v: Node, t: Node) {
    exists p :: WalkBetween(Outputs(f), p, v, t) && forall x :: x in p ==> x in f && x !in prune
  }

  lemma TrailForwards(f: Flow, from: set<Node>, prune: set<Node>, t: Node, x: Node)
    requires t in f && x in Explore(Wired(f), from, prune, t, [])
    ensures LeadsUnpruned(f, prune, x, t)
  {
    var g := Wired(f);
    assert IsWalk(g, [] + [t]);
    var q := ExploreTrail(g, from, prune, t, [], x);
    hide Explore;
    WalkStays(g, q);
    WalkReversed(g, q, t, x);
    var p := Backwards(q);
    forall y | y in p
      ensures y in f && y !in prune
    {
      InBackwards(q, y);
    }
    assert WalkBetween(Outputs(f), p, x, t);
  }

  /** On any flow every node of the view leads to an end node, to which a start node leads too. */
  lemma ViewConnects(f: Flow, from: set<Node>, to: set<Node>, prune: set<Node>, v: Node)
    requires to <= f.Keys && v in View(f, from, to, prune)
    ensures exists s, t ::
      s in from && t in to && LeadsUnpruned(f, prune, v, t) && LeadsUnpruned(f, prune, s, t)
  {
    var t :| t in to && v in Contribution(f, from, prune, t);
    var path := Explore(Wired(f), from, prune, t, []);
    var s :| s in path * from;
    TrailForwards(f, from, prune, t, v);
    TrailForwards(f, from, prune, t, s);
  }

  /** The view shrinks as more nodes are pruned. */
  lemma ViewMonotone(f: Flow, from: set<Node>, to: set<Node>, prune: set<Node>, more: set<Node>)
    requires Acyclic(Wired(f)) && from <= f.Keys && to <= f.Keys && prune <= more
    ensures View(f, from - more, to - more, more) <= View(f, from - prune, to - prune, prune)
  {
    forall x | x in View(f, from - more, to - more, more)
      ensures x in View(f, from - prune, to - prune, prune)
    {
      ViewIsRunPaths(f, from - more, to - more, more, x);
      var p :| RunPath(f, from - more, to - more, more, p) && x in p;
      assert RunPath(f, from - prune, to - prune, prune, p);
      ViewIsRunPaths(f, from - prune, to - prune, prune, x);
    }
  }

  // ------------------------------------------------------- entries and exits

  ghost function Sources(f: Flow, view: set<Node>): set<Node> {
    set v | v in view && v in f && Inputs(f)[v] !! view
  }

  ghost function Sinks(f: Flow, view: set<Node>): set<Node> {
    set v | v in view && v in f && Outputs(f)[v] !! view
  }

  lemma RunPathInView(f: Flow, from: set<Node>, to: set<Node>, prune: set<Node>, p: seq<Node>)
    requires Acyclic(Wired(f)) && from <= f.Keys && to <= f.Keys
    requires RunPath(f, from, to, prune, p)
    ensures forall i :: 0 <= i < |p| ==> p[i] in View(f, from, to, prune)
  {
    forall i | 0 <= i < |p|
      ensures p[i] in View(f, from, to, prune)
    {
      ViewIsRunPaths(f, from, to, prune, p[i]);
    }
  }

  lemma StartOrInput(f: Flow, from: set<Node>, to: set<Node>, prune: set<Node>, v: Node)
    requires Acyclic(Wired(f)) && from <= f.Keys && to <= f.Keys
    requires v in View(f, from, to, prune) && v in f
    ensures v in from || exists u :: u in Inputs(f)[v] && u in View(f, from, to, prune)
  {
    ViewIsRunPaths(f, from, to, prune, v);
    var p :| RunPath(f, from, to, prune, p) && v in p;
    RunPathInView(f, from, to, prune, p);
    var i :| 0 <= i < |p| && p[i] == v;
    if i > 0 {
      assert p[i - 1] in Outputs(f) && p[i - 1 + 1] in Outputs(f)[p[i - 1]];
      assert p[i - 1] in Inputs(f)[v] && p[i - 1] in View(f, from, to, prune);
    }
  }

  /** Every node of the view without an input in the view is a start node. */
  lemma SourcesAreStarts(f: Flow, from: set<Node>, to: set<Node>, prune: set<Node>)
    requires Acyclic(Wired(f)) && from <= f.Keys && to <= f.Keys
    ensures Sources(f, View(f, from, to, prune)) <= from
  {
    forall v | v in Sources(f, View(f, from, to, prune))
      ensures v in from
    {
      StartOrInput(f, from, to, prune, v);
    }
  }

  lemma EndOrConsumer(f: Flow, from: set<Node>, to: set<Node>, prune: set<Node>, v: Node)
    requires to <= f.Keys && v in View(f, from, to, prune)
    ensures v in f && v !in prune
    ensures v in to || exists y :: y in Outputs(f)[v] && y in View(f, from, to, prune)
  {
    var g := Wired(f);
    var t :| t in to && v in Contribution(f, from, prune, t);
    assert IsWalk(g, [] + [t]);
    var q := ExploreTrail(g, from, prune, t, [], v);
    WalkStays(g, q);
    if |q| > 1 {
      var y := q[|q| - 2];
      assert q[|q| - 2] in g && q[|q| - 2 + 1] in g[q[|q| - 2]];
      assert y in Elements(q);
      assert y in Outputs(f)[v] && y in View(f, from, to, prune);
    }
  }

  /** On any flow, every node of the view without a consumer in the view is an end node. */
  lemma SinksAreEnds(f: Flow, from: set<Node>, to: set<Node>, prune: set<Node>)
    requires to <= f.Keys
    ensures Sinks(f, View(f, from, to, prune)) <= to
    ensures View(f, from, to, prune) <= f.Keys && View(f, from, to, prune) !! prune
  {
    forall v | v in View(f, from, to, prune)
      ensures v in f && v !in prune && (v in Sinks(f, View(f, from, to, prune)) ==> v in to)
    {
      EndOrConsumer(f, from, to, prune, v);
    }
  }

  // --------------------------------------------------------- default options

  lemma WalkToSink(g: Graph<Node>, v: Node) returns (p: seq<Node>)
    requires Closed(g) && Acyclic(g) && v in g
    ensures IsWalk(g, p) && p[0] == v && p[|p| - 1] in g && g[p[|p| - 1]] == {}
  {
    var k := Height(g, v);
    HeightIsLongestWalk(g, v);
    p :| IsWalk(g, p) && p[0] == v && |p| == k + 1;
    ClosedInside(g, v);
    LongestWalkEnds(g, v, k, p);
  }

  lemma NoEntryAfterStep(f: Flow, p: seq<Node>, i: nat)
    requires IsWalk(Outputs(f), p) && 0 < i < |p|
    ensures p[i] !in Entries(f)
  {
    assert p[i - 1] in Outputs(f) && p[i - 1 + 1] in Outputs(f)[p[i - 1]];
    assert p[i - 1] in f[p[i]].input;
  }

  lemma WiredWalk(f: Flow, p: seq<Node>)
    requires IsWalk(Inputs(f), p) && p[|p| - 1] in f
    ensures IsWalk(Wired(f), p)
  {
    forall i | 0 <= i < |p| - 1
      ensures p[i] in Wired(f) && p[i + 1] in Wired(f)[p[i]]
    {
      assert p[i] in Inputs(f) && p[i + 1] in Inputs(f)[p[i]];
      if i + 1 < |p| - 1 {
        assert p[i + 1] in Inputs(f);
      }
    }
  }

  /** From an entry and through a node the flow runs on to an exit. */
  lemma EntryRuns(f: Flow, v: Node, b: seq<Node>)
    requires Acyclic(Wired(f)) && v in f
    requires IsWalk(Wired(f), b) && b[0] == v && b[|b| - 1] in Entries(f)
    ensures v in View(f, Entries(f), Exits(f), {})
  {
    WiredBack(f);
    AcyclicReversed(Wired(f));
    ExitsAreSinks(f);
    var e := b[|b| - 1];
    WalkReversed(Wired(f), b, v, e);
    var q := WalkToSink(Outputs(f), v);
    WalkJoin(Outputs(f), Backwards(b), q, e, v, q[|q| - 1]);
    var p := Backwards(b) + q[1..];
    forall i | 0 < i < |p|
      ensures p[i] !in Entries(f)
    {
      NoEntryAfterStep(f, p, i);
    }
    assert p[|b| - 1] == v;
    assert RunPath(f, Entries(f), Exits(f), {}, p);
    ViewIsRunPaths(f, Entries(f), Exits(f), {}, v);
  }

  lemma RunsFromEntry(f: Flow, v: Node)
    requires Acyclic(Wired(f)) && v in View(f, Entries(f), Exits(f), {})
    ensures v in f && DependsOnSource(Inputs(f), v)
  {
    WiredBack(f);
    EntriesAreSources(f);
    SinksAreEnds(f, Entries(f), Exits(f), {});
    ViewIsRunPaths(f, Entries(f), Exits(f), {}, v);
    var p :| RunPath(f, Entries(f), Exits(f), {}, p) && v in p;
    var i :| 0 <= i < |p| && p[i] == v;
    WalkSlice(Outputs(f), p, 0, i);
    WalkReversed(Outputs(f), p[0..i + 1], p[0], v);
    var r := Backwards(p[0..i + 1]);
    assert IsWalk(Inputs(f), r);
    assert WalkBetween(Inputs(f), r, v, p[0]);
  }

  lemma EntryLeads(f: Flow, v: Node)
    requires Acyclic(Wired(f)) && v in f && DependsOnSource(Inputs(f), v)
    ensures v in View(f, Entries(f), Exits(f), {})
  {
    EntriesAreSources(f);
    var e :| e in Inputs(f) && Inputs(f)[e] == {} && Reaches(Inputs(f), v, e);
    var b :| WalkBetween(Inputs(f), b, v, e);
    WiredWalk(f, b);
    EntryRuns(f, v, b);
  }

  lemma EntryBehind(f: Flow, v: Node)
    requires NoDangling(f) && Acyclic(Wired(f)) && v in f
    ensures DependsOnSource(Inputs(f), v)
  {
    CutNothing(f);
    var b := WalkToSink(Inputs(f), v);
    assert WalkBetween(Inputs(f), b, v, b[|b| - 1]);
  }

  /**
   * With all entries as start, all exits as end and nothing pruned, the view of an acyclic flow is
   * every node an entry leads to.
   */
  lemma DefaultViewIs(f: Flow, v: Node)
    requires Acyclic(Wired(f))
    ensures Exits(f) <= f.Keys
    ensures v in View(f, Entries(f), Exits(f), {}) <==> v in f && DependsOnSource(Inputs(f), v)
  {
    hide View, Acyclic, DependsOnSource;
    if v in View(f, Entries(f), Exits(f), {}) {
      RunsFromEntry(f, v);
    }
    if v in f && DependsOnSource(Inputs(f), v) {
      EntryLeads(f, v);
    }
  }

  /** Without undefined inputs that is the whole flow. */
  lemma DefaultViewIsAll(f: Flow)
    requires NoDangling(f) && Acyclic(Wired(f))
    ensures Exits(f) <= f.Keys
    ensures View(f, Entries(f), Exits(f), {}) == f.Keys
  {
    assert Exits(f) <= f.Keys;
    hide View, Acyclic, DependsOnSource, NoDangling, Entries, Exits;
    forall v
      ensures v in View(f, Entries(f), Exits(f), {}) <==> v in f.Keys
    {
      DefaultViewIs(f, v);
      if v in f {
        EntryBehind(f, v);
      }
    }
  }

  // ------------------------------------------------------- nodes starting at

  /** `w` can be reached from `v` without leaving the view. */
  ghost predicate ReachesInside(f: Flow, view: set<Node>, v: Node, w: Node) {
    exists p :: WalkBetween(Outputs(f), p, v, w) && Elements(p) <= view
  }

  /** Along a simple path inside the view the forward walk returns the whole path and more. */
  lemma {:induction false} PathReturned(h: Graph<Node>, view: set<Node>, stops: set<Node>, prune: set<Node>,
      q: seq<Node>)
    requires Closed(h) && SimplePath(h, q) && IsWalk(h, q) && Elements(q) <= view
    requires view !! prune && view <= h.Keys
    requires forall v :: v in view && h[v] !! view ==> v in stops
    ensures Elements(q) <= Explore(h, stops, prune, q[|q| - 1], q[..|q| - 1])
    decreases |h| - |q|
  {
    var v, path := q[|q| - 1], q[..|q| - 1];
    assert q == path + [v] && v in Elements(q);
    assert v !in path;
    if v !in stops {
      var w :| w in h[v] && w in view;
      PathExtends(h, path, v);
      if w in q {
        assert Explore(h, stops, prune, w, q) == Elements(q);
      } else {
        PathExtends(h, q, w);
        assert IsWalk(h, q + [w]);
        assert Elements(q + [w]) == Elements(q) + {w};
        PathReturned(h, view, stops, prune, q + [w]);
        assert (q + [w])[..|q|] == q;
      }
      forall x | x in Elements(q)
        ensures x in Explore(h, stops, prune, v, path)
      {
        InExplore(h, stops, prune, v, path, x);
      }
    }
  }

  /** What the walk returns from further along a path it also returns from the start of the path. */
  lemma {:induction false} ExploreAlong(h: Graph<Node>, stops: set<Node>, prune: set<Node>, q: seq<Node>, i: nat)
    requires Closed(h) && SimplePath(h, q) && IsWalk(h, q) && i < |q|
    requires forall j :: 0 <= j < i ==> q[j] !in stops && q[j] !in prune
    ensures Explore(h, stops, prune, q[i], q[..i]) <= Explore(h, stops, prune, q[0], [])
    decreases i
  {
    if i == 0 {
      assert q[..0] == [];
    } else {
      ExploreAlong(h, stops, prune, q, i - 1);
      assert q[i - 1] in h && q[i - 1 + 1] in h[q[i - 1]];
      assert q[..i - 1] + [q[i - 1]] == q[..i];
      assert q[i - 1] !in q[..i - 1];
      forall x | x in Explore(h, stops, prune, q[i], q[..i])
        ensures x in Explore(h, stops, prune, q[i - 1], q[..i - 1])
      {
        InExplore(h, stops, prune, q[i - 1], q[..i - 1], x);
      }
    }
  }

  /**
   * On any flow, the nodes reported as starting at `v` include every node that can be reached from
   * `v` inside the view.
   */
  lemma StartingAtComplete(f: Flow, from: set<Node>, to: set<Node>, prune: set<Node>, v: Node, w: Node)
    requires to <= f.Keys && v in View(f, from, to, prune)
    requires ReachesInside(f, View(f, from, to, prune), v, w)
    ensures v in f && Closed(Outputs(f))
    ensures w in Explore(Outputs(f), Sinks(f, View(f, from, to, prune)), prune, v, [])
  {
    var h, view := Outputs(f), View(f, from, to, prune);
    WiredBack(f);
    SinksAreEnds(f, from, to, prune);
    var stops := Sinks(f, view);
    var p :| WalkBetween(h, p, v, w) && Elements(p) <= view;
    var q := SimpleWalk(h, p, v, w);
    assert Elements(q) <= view by {
      assert forall x :: x in Elements(q) ==> x in Elements(p);
    }
    assert forall i :: 0 <= i < |q| ==> q[i] in Elements(q);
    PathReturned(h, view, stops, prune, q);
    forall j | 0 <= j < |q| - 1
      ensures q[j] !in stops && q[j] !in prune
    {
      assert q[j + 1] in h[q[j]] * view;
    }
    ExploreAlong(h, stops, prune, q, |q| - 1);
    assert w in Elements(q);
  }

  ghost predicate OnwardWalk(f: Flow, from: set<Node>, to: set<Node>, prune: set<Node>, w: Node, p: seq<Node>) {
    && IsWalk(Outputs(f), p) && p[0] == w && p[|p| - 1] in to
    && (forall i :: 0 < i < |p| ==> p[i] !in from)
    && (forall i :: 0 <= i < |p| ==> p[i] !in prune)
  }

  /** An unpruned walk leads from `w` to an end node and meets no start node on the way. */
  ghost predicate LeadsOn(f: Flow, from: set<Node>, to: set<Node>, prune: set<Node>, w: Node) {
    exists p :: OnwardWalk(f, from, to, prune, w, p)
  }

  /** What is left of a run path from one of its nodes on. */
  lemma RestOfRun(f: Flow, from: set<Node>, to: set<Node>, prune: set<Node>, p: seq<Node>, i: nat)
    requires RunPath(f, from, to, prune, p) && i < |p|
    ensures OnwardWalk(f, from, to, prune, p[i], p[i..])
  {
    hide Outputs;
    WalkSlice(Outputs(f), p, i, |p| - 1);
    assert p[i..|p| - 1 + 1] == p[i..];
  }

  /** From every node of the view the run goes on to an end node. */
  lemma ViewLeadsOn(f: Flow, from: set<Node>, to: set<Node>, prune: set<Node>, x: Node)
    requires Acyclic(Wired(f)) && from <= f.Keys && to <= f.Keys && x in View(f, from, to, prune)
    ensures LeadsOn(f, from, to, prune, x)
  {
    ViewIsRunPaths(f, from, to, prune, x);
    hide View, Acyclic, Wired, Outputs;
    var p :| RunPath(f, from, to, prune, p) && x in p;
    var i :| 0 <= i < |p| && p[i] == x;
    hide RunPath, OnwardWalk;
    RestOfRun(f, from, to, prune, p, i);
  }

  /** A run path up to `x`, a step on to `y` and an onward walk from there make up a run path. */
  lemma RunGoesOn(f: Flow, from: set<Node>, to: set<Node>, prune: set<Node>, p: seq<Node>, i: nat, q: seq<Node>)
    returns (r: seq<Node>)
    requires RunPath(f, from, to, prune, p) && i < |p| && p[i] in Outputs(f)
    requires IsWalk(Outputs(f), q) && q[0] in Outputs(f)[p[i]] && q[0] !in from
      && OnwardWalk(f, from, to, prune, q[0], q)
    ensures RunPath(f, from, to, prune, r) && q[0] in r
  {
    hide Outputs;
    var h := Outputs(f);
    WalkSlice(h, p, 0, i);
    assert WalkBetween(h, [p[i], q[0]], p[i], q[0]);
    WalkJoin(h, [p[i], q[0]], q, p[i], q[0], q[|q| - 1]);
    assert [p[i], q[0]] + q[1..] == [p[i]] + q;
    WalkJoin(h, p[0..i + 1], [p[i]] + q, p[0], p[i], q[|q| - 1]);
    assert ([p[i]] + q)[1..] == q;
    r := p[0..i + 1] + q;
    assert r[i + 1] == q[0];
  }

  /** The next node on from a node of the view is in the view exactly when the run goes on from it. */
  lemma NextInView(f: Flow, from: set<Node>, to: set<Node>, prune: set<Node>, x: Node, y: Node)
    requires Acyclic(Wired(f)) && from <= f.Keys && to <= f.Keys && x in View(f, from, to, prune)
    requires x in Outputs(f) && y in Outputs(f)[x] && LeadsOn(f, from, to, prune, y)
    ensures y in View(f, from, to, prune)
  {
    ViewIsRunPaths(f, from, to, prune, x);
    ViewIsRunPaths(f, from, to, prune, y);
    hide View, Acyclic, Wired, Outputs;
    var q :| OnwardWalk(f, from, to, prune, y, q);
    if y in from {
      assert RunPath(f, from, to, prune, q) && y in q;
    } else {
      var p :| RunPath(f, from, to, prune, p) && x in p;
      var i :| 0 <= i < |p| && p[i] == x;
      var r := RunGoesOn(f, from, to, prune, p, i, q);
    }
  }

  /** A walk from a node of the view stays in the view exactly when the run goes on from each of its nodes. */
  lemma {:induction false} WalkInViewIff(f: Flow, from: set<Node>, to: set<Node>, prune: set<Node>, p: seq<Node>,
      n: nat)
    requires Acyclic(Wired(f)) && from <= f.Keys && to <= f.Keys
    requires IsWalk(Outputs(f), p) && p[0] in View(f, from, to, prune) && n < |p|
    ensures (forall i :: 0 <= i <= n ==> p[i] in View(f, from, to, prune))
      <==> forall i :: 0 <= i <= n ==> LeadsOn(f, from, to, prune, p[i])
  {
    hide View, LeadsOn, Acyclic;
    if n == 0 {
      ViewLeadsOn(f, from, to, prune, p[0]);
    } else {
      WalkInViewIff(f, from, to, prune, p, n - 1);
      assert p[n - 1] in Outputs(f) && p[n - 1 + 1] in Outputs(f)[p[n - 1]];
      if p[n] in View(f, from, to, prune) {
        ViewLeadsOn(f, from, to, prune, p[n]);
      }
      if p[n - 1] in View(f, from, to, prune) && LeadsOn(f, from, to, prune, p[n]) {
        NextInView(f, from, to, prune, p[n - 1], p[n]);
      }
    }
  }

  /** The nodes reported as starting at `v`. */
  ghost function StartingAt(f: Flow, from: set<Node>, to: set<Node>, prune: set<Node>, v: Node): set<Node>
    requires to <= f.Keys && v in f
  {
    WiredBack(f);
    Explore(Outputs(f), Sinks(f, View(f, from, to, prune)), prune, v, [])
  }

  /** A walk from `v` inside the view can go on past `x` to a node outside and come to a sink of the view from there. */
  ghost predicate StraysAt(f: Flow, view: set<Node>, prune: set<Node>, v: Node, x: Node, y: Node) {
    && ReachesInside(f, view, v, x) && x !in Sinks(f, view)
    && x in Outputs(f) && y in Outputs(f)[x] && y !in view
    && ComesToStop(Outputs(f), Sinks(f, view), prune, y)
  }

  /** An unpruned walk leads from `y` to a stop. */
  ghost predicate ComesToStop(g: Graph<Node>, stops: set<Node>, prune: set<Node>, y: Node) {
    exists q :: StopWalk(g, stops, prune, q) && q[0] == y
  }

  lemma StopWalkFrom(g: Graph<Node>, stops: set<Node>, prune: set<Node>, q: seq<Node>, i: nat)
    requires StopWalk(g, stops, prune, q) && i < |q|
    ensures StopWalk(g, stops, prune, q[i..])
  {
    WalkSlice(g, q, i, |q| - 1);
    assert q[i..|q| - 1 + 1] == q[i..];
  }

  /** A walk that meets neither a stop nor a pruned node, a step further and then a stop walk make a stop walk. */
  lemma StopWalkAfter(g: Graph<Node>, stops: set<Node>, prune: set<Node>, p: seq<Node>, q: seq<Node>)
    requires IsWalk(g, p) && StopWalk(g, stops, prune, q)
    requires forall i :: 0 <= i < |p| ==> p[i] !in stops && p[i] !in prune
    requires p[|p| - 1] in g && q[0] in g[p[|p| - 1]]
    ensures StopWalk(g, stops, prune, p + q)
  {
    var x := p[|p| - 1];
    StopWalkCons(g, stops, prune, x, q);
    WalkJoin(g, p, [x] + q, p[0], x, q[|q| - 1]);
    assert ([x] + q)[1..] == q;
  }

  /** A walk inside the view that does not end at a sink of it meets none, nor anything pruned. */
  lemma NoSinkBefore(f: Flow, view: set<Node>, prune: set<Node>, p: seq<Node>)
    requires IsWalk(Outputs(f), p) && Elements(p) <= view && view !! prune && p[|p| - 1] !in Sinks(f, view)
    ensures forall i :: 0 <= i < |p| ==> p[i] !in Sinks(f, view) && p[i] !in prune
  {
    hide Outputs;
    forall i | 0 <= i < |p|
      ensures p[i] !in Sinks(f, view) && p[i] !in prune
    {
      assert p[i] in Elements(p);
      if i < |p| - 1 {
        assert p[i + 1] in Elements(p) && p[i + 1] in Outputs(f)[p[i]] * view;
      }
    }
  }

  /** A node at which the walk strays is reported and cannot be reached inside the view. */
  lemma StrayReported(f: Flow, from: set<Node>, to: set<Node>, prune: set<Node>, v: Node, x: Node, y: Node)
    requires Acyclic(Wired(f)) && to <= f.Keys && v in f && StraysAt(f, View(f, from, to, prune), prune, v, x, y)
    ensures y in StartingAt(f, from, to, prune, v) && !ReachesInside(f, View(f, from, to, prune), v, y)
  {
    var h, view := Outputs(f), View(f, from, to, prune);
    var stops := Sinks(f, view);
    WiredBack(f);
    AcyclicReversed(Wired(f));
    hide View, Acyclic, Wired, Sinks, Outputs, StopWalk, Explore;
    SinksAreEnds(f, from, to, prune);
    var p :| WalkBetween(h, p, v, x) && Elements(p) <= view;
    var q :| StopWalk(h, stops, prune, q) && q[0] == y;
    NoSinkBefore(f, view, prune, p);
    StopWalkAfter(h, stops, prune, p, q);
    assert (p + q)[0] == v && (p + q)[|p|] == y;
    ExploreIs(h, stops, prune, v, y);
    InsideOnly(f, view, v, y);
  }

  lemma InsideOnly(f: Flow, view: set<Node>, v: Node, w: Node)
    ensures ReachesInside(f, view, v, w) ==> w in view
  {
    if p :| WalkBetween(Outputs(f), p, v, w) && Elements(p) <= view {
      assert w in Elements(p);
    }
  }

  lemma InsideUpTo(f: Flow, view: set<Node>, q: seq<Node>, i: nat)
    requires IsWalk(Outputs(f), q) && 0 < i <= |q| && Elements(q[..i]) <= view
    ensures ReachesInside(f, view, q[0], q[i - 1])
  {
    hide Outputs;
    WalkSlice(Outputs(f), q, 0, i - 1);
    assert q[0..i - 1 + 1] == q[..i];
  }

  lemma {:induction false} FirstOutside(q: seq<Node>, view: set<Node>, n: nat) returns (i: nat)
    requires n < |q| && q[0] in view && !(Elements(q[..n + 1]) <= view)
    ensures 0 < i <= n && q[i] !in view && Elements(q[..i]) <= view
  {
    assert q[..n + 1] == q[..n] + [q[n]];
    i := n;
    if !(Elements(q[..n]) <= view) {
      i := FirstOutside(q, view, n - 1);
    }
  }

  /** What is reported and cannot be reached inside the view is reported because the walk strays somewhere. */
  lemma ReportedStrays(f: Flow, from: set<Node>, to: set<Node>, prune: set<Node>, v: Node, w: Node)
    returns (x: Node, y: Node)
    requires Acyclic(Wired(f)) && to <= f.Keys && v in f && v in View(f, from, to, prune)
    requires w in StartingAt(f, from, to, prune, v) && !ReachesInside(f, View(f, from, to, prune), v, w)
    ensures StraysAt(f, View(f, from, to, prune), prune, v, x, y)
  {
    var h, view := Outputs(f), View(f, from, to, prune);
    var stops := Sinks(f, view);
    WiredBack(f);
    AcyclicReversed(Wired(f));
    ExploreIs(h, stops, prune, v, w);
    var q :| StopWalk(h, stops, prune, q) && q[0] == v && w in q;
    var n :| 0 <= n < |q| && q[n] == w;
    hide View, Acyclic, Wired, Sinks, Outputs, Explore, ReachesInside, StartingAt;
    if Elements(q[..n + 1]) <= view {
      InsideUpTo(f, view, q, n + 1);
    }
    var i := FirstOutside(q, view, n);
    InsideUpTo(f, view, q, i);
    x, y := q[i - 1], q[i];
    assert q[i - 1] in h && q[i - 1 + 1] in h[q[i - 1]];
    StopWalkFrom(h, stops, prune, q, i);
    assert ComesToStop(h, stops, prune, y);
  }

  /**
   * On an acyclic flow the nodes reported as starting at `v` are exactly those that can be reached
   * from it inside the view if and only if the walk cannot stray: no edge leads from a part of the
   * view that `v` reaches to a node outside from which an unpruned walk comes to a sink of the view.
   */
  lemma StartingAtExactIff(f: Flow, from: set<Node>, to: set<Node>, prune: set<Node>, v: Node)
    requires Acyclic(Wired(f)) && to <= f.Keys && v in f && v in View(f, from, to, prune)
    ensures (forall w :: w in StartingAt(f, from, to, prune, v) <==> ReachesInside(f, View(f, from, to, prune), v, w))
      <==> forall x, y :: !StraysAt(f, View(f, from, to, prune), prune, v, x, y)
  {
    var view, report := View(f, from, to, prune), StartingAt(f, from, to, prune, v);
    forall w | ReachesInside(f, view, v, w)
      ensures w in report
    {
      StartingAtComplete(f, from, to, prune, v, w);
    }
    hide View, Acyclic, Wired, StartingAt, ReachesInside, StraysAt;
    if forall x, y :: !StraysAt(f, View(f, from, to, prune), prune, v, x, y) {
      forall w | w in report
        ensures ReachesInside(f, view, v, w)
      {
        if !ReachesInside(f, view, v, w) {
          var x, y := ReportedStrays(f, from, to, prune, v, w);
          assert false;
        }
      }
    }
    if x, y :| StraysAt(f, View(f, from, to, prune), prune, v, x, y) {
      StrayReported(f, from, to, prune, v, x, y);
    }
  }

  /** From every node that the walk from `v` to a sink of the view passes, the run goes on. */
  ghost predicate AllLeadOn(f: Flow, from: set<Node>, to: set<Node>, prune: set<Node>, v: Node)
    requires to <= f.Keys
  {
    forall q, i :: StopWalk(Outputs(f), Sinks(f, View(f, from, to, prune)), prune, q) && q[0] == v && 0 <= i < |q| ==>
      LeadsOn(f, from, to, prune, q[i])
  }

  lemma AllLeadOnIff(f: Flow, from: set<Node>, to: set<Node>, prune: set<Node>, v: Node)
    requires Acyclic(Wired(f)) && to <= f.Keys && v in f
    ensures AllLeadOn(f, from, to, prune, v)
      <==> forall w :: w in StartingAt(f, from, to, prune, v) ==> LeadsOn(f, from, to, prune, w)
  {
    var h, stops := Outputs(f), Sinks(f, View(f, from, to, prune));
    WiredBack(f);
    AcyclicReversed(Wired(f));
    hide View, Acyclic, Wired, Sinks, Outputs, Explore, LeadsOn, StopWalk;
    forall w
      ensures w in StartingAt(f, from, to, prune, v)
        <==> exists q :: StopWalk(h, stops, prune, q) && q[0] == v && w in q
    {
      ExploreIs(h, stops, prune, v, w);
    }
  }

  /**
   * The same by the walks themselves: the report is exact if and only if the run goes on to an end node
   * from every node on the way from `v` to a sink of the view.
   */
  lemma StartingAtExactWalks(f: Flow, from: set<Node>, to: set<Node>, prune: set<Node>, v: Node)
    requires Acyclic(Wired(f)) && from <= f.Keys && to <= f.Keys && v in f && v in View(f, from, to, prune)
    ensures (forall w :: w in StartingAt(f, from, to, prune, v) <==> ReachesInside(f, View(f, from, to, prune), v, w))
      <==> AllLeadOn(f, from, to, prune, v)
  {
    var view, report := View(f, from, to, prune), StartingAt(f, from, to, prune, v);
    AllLeadOnIff(f, from, to, prune, v);
    forall w | ReachesInside(f, view, v, w)
      ensures w in report && LeadsOn(f, from, to, prune, w)
    {
      StartingAtComplete(f, from, to, prune, v, w);
      var p :| WalkBetween(Outputs(f), p, v, w) && Elements(p) <= view;
      assert w in Elements(p);
      ViewLeadsOn(f, from, to, prune, w);
    }
    hide AllLeadOn, View, StartingAt, LeadsOn, ReachesInside, Acyclic;
    if forall w :: w in report ==> LeadsOn(f, from, to, prune, w) {
      forall w | w in report
        ensures ReachesInside(f, view, v, w)
      {
        ReportedInside(f, from, to, prune, v, w);
      }
    }
  }

  /** What is reported is on a walk to a sink of the view, and so is everything on the way to it. */
  lemma ReportedInside(f: Flow, from: set<Node>, to: set<Node>, prune: set<Node>, v: Node, w: Node)
    requires Acyclic(Wired(f)) && from <= f.Keys && to <= f.Keys && v in f && v in View(f, from, to, prune)
    requires forall x :: x in StartingAt(f, from, to, prune, v) ==> LeadsOn(f, from, to, prune, x)
    requires w in StartingAt(f, from, to, prune, v)
    ensures ReachesInside(f, View(f, from, to, prune), v, w)
  {
    var h, view := Outputs(f), View(f, from, to, prune);
    var stops := Sinks(f, view);
    WiredBack(f);
    AcyclicReversed(Wired(f));
    ExploreIs(h, stops, prune, v, w);
    var q :| StopWalk(h, stops, prune, q) && q[0] == v && w in q;
    forall i | 0 <= i < |q|
      ensures LeadsOn(f, from, to, prune, q[i])
    {
      ExploreIs(h, stops, prune, v, q[i]);
    }
    WalkInViewIff(f, from, to, prune, q, |q| - 1);
    var i :| 0 <= i < |q| && q[i] == w;
    WalkSlice(h, q, 0, i);
    assert forall k :: 0 <= k <= i ==> q[0..i + 1][k] == q[k];
    assert Elements(q[0..i + 1]) <= view;
  }

  /** No start node but `v` itself lies ahead of `v`. */
  ghost predicate NoStartAhead(f: Flow, from: set<Node>, v: Node) {
    forall u :: u in from && Reaches(Outputs(f), v, u) ==> u == v
  }

  /**
   * In particular, with no other start node ahead of `v` the report is exactly what can be reached
   * inside the view.
   */
  lemma StartingAtExact(f: Flow, from: set<Node>, to: set<Node>, prune: set<Node>, v: Node, w: Node)
    requires Acyclic(Wired(f)) && from <= f.Keys && to <= f.Keys && v in f && v in View(f, from, to, prune)
    requires NoStartAhead(f, from, v)
    ensures w in StartingAt(f, from, to, prune, v) <==> ReachesInside(f, View(f, from, to, prune), v, w)
  {
    forall x | x in StartingAt(f, from, to, prune, v)
      ensures LeadsOn(f, from, to, prune, x)
    {
      AheadLeadsOn(f, from, to, prune, v, x);
    }
    AllLeadOnIff(f, from, to, prune, v);
    StartingAtExactWalks(f, from, to, prune, v);
  }

  lemma AheadLeadsOn(f: Flow, from: set<Node>, to: set<Node>, prune: set<Node>, v: Node, x: Node)
    requires Acyclic(Wired(f)) && to <= f.Keys && v in f && NoStartAhead(f, from, v)
    requires x in StartingAt(f, from, to, prune, v)
    ensures LeadsOn(f, from, to, prune, x)
  {
    var h, stops := Outputs(f), Sinks(f, View(f, from, to, prune));
    WiredBack(f);
    AcyclicReversed(Wired(f));
    SinksAreEnds(f, from, to, prune);
    hide View, Explore, Acyclic, LeadsOn, NoStartAhead, Sinks;
    ExploreIs(h, stops, prune, v, x);
    var q :| StopWalk(h, stops, prune, q) && q[0] == v && x in q;
    var i :| 0 <= i < |q| && q[i] == x;
    AcyclicWalkDistinct(h, q);
    WalkLeadsOn(f, from, to, prune, v, q, i);
  }

  lemma WalkLeadsOn(f: Flow, from: set<Node>, to: set<Node>, prune: set<Node>, v: Node, q: seq<Node>, i: nat)
    requires NoStartAhead(f, from, v) && IsWalk(Outputs(f), q) && q[0] == v && Distinct(q) && i < |q|
    requires q[|q| - 1] in to && forall k :: 0 <= k < |q| ==> q[k] !in prune
    ensures LeadsOn(f, from, to, prune, q[i])
  {
    var h := Outputs(f);
    WalkSlice(h, q, i, |q| - 1);
    var p := q[i..|q| - 1 + 1];
    forall k | 0 < k < |p|
      ensures p[k] !in from
    {
      WalkSlice(h, q, 0, i + k);
      assert Reaches(h, v, q[i + k]) && q[i + k] != q[0];
    }
    assert OnwardWalk(f, from, to, prune, q[i], p);
  }

  /** With the default start nodes nothing else is ahead: entries have no inputs. */
  lemma DefaultStartNotAhead(f: Flow, prune: set<Node>, v: Node)
    ensures NoStartAhead(f, Entries(f) - prune, v)
  {
    forall u | u in Entries(f) - prune && Reaches(Outputs(f), v, u)
      ensures u == v
    {
      var p :| WalkBetween(Outputs(f), p, v, u);
      if |p| > 1 {
        NoEntryAfterStep(f, p, |p| - 1);
      }
    }
  }

  /** A flow a -> c -> u -> b -> t with a second edge c -> t. */
  ghost predicate Detour(f: Flow, a: Node, c: Node, u: Node, b: Node, t: Node) {
    && f.Keys == {a, c, u, b, t}
    && a != c && a != u && a != b && a != t && c != u && c != b && c != t && u != b && u != t && b != t
    && Elements(f[a].input) == {} && Elements(f[c].input) == {a} && Elements(f[u].input) == {c}
    && Elements(f[b].input) == {u} && Elements(f[t].input) == {c, b}
  }

  lemma DetourShape(f: Flow, a: Node, c: Node, u: Node, b: Node, t: Node)
    requires Detour(f, a, c, u, b, t)
    ensures Acyclic(Wired(f)) && Closed(Outputs(f)) && Acyclic(Outputs(f)) && Outputs(f).Keys == f.Keys
    ensures Outputs(f)[a] == {c} && Outputs(f)[c] == {u, t} && Outputs(f)[u] == {b} && Outputs(f)[b] == {t}
      && Outputs(f)[t] == {}
  {
    var g := Wired(f);
    assert g[a] == {} && g[c] == {a} && g[u] == {c} && g[b] == {u} && g[t] == {c, b};
    DetourGraph(g, a, c, u, b, t);
    ReverseTwice(g);
    AcyclicReversed(g);
  }

  lemma DetourGraph(g: Graph<Node>, a: Node, c: Node, u: Node, b: Node, t: Node)
    requires g.Keys == {a, c, u, b, t}
    requires a != c && a != u && a != b && a != t && c != u && c != b && c != t && u != b && u != t && b != t
    requires g[a] == {} && g[c] == {a} && g[u] == {c} && g[b] == {u} && g[t] == {c, b}
    ensures Closed(g) && Acyclic(g)
    ensures Reverse(g)[a] == {c} && Reverse(g)[c] == {u, t} && Reverse(g)[u] == {b} && Reverse(g)[b] == {t}
      && Reverse(g)[t] == {}
  {
    RankedAcyclic(g, map[a := 0, c := 1, u := 2, b := 3, t := 4]);
  }

  lemma DetourStops(f: Flow, a: Node, c: Node, u: Node, b: Node, t: Node)
    requires Detour(f, a, c, u, b, t) && Acyclic(Wired(f))
    requires Outputs(f).Keys == f.Keys && Outputs(f)[a] == {c} && Outputs(f)[c] == {u, t} && Outputs(f)[u] == {b}
      && Outputs(f)[t] == {}
    ensures var view := View(f, {a, b}, {t}, {});
      c in view && u !in view && Sinks(f, view) == {t}
  {
    var p := [a, c, t];
    assert RunPath(f, {a, b}, {t}, {}, p);
    RunPathInView(f, {a, b}, {t}, {}, p);
    assert p[1] == c && p[2] == t;
    UNotOnRunPath(f, a, u, b, t);
    SinksAreEnds(f, {a, b}, {t}, {});
  }

  /** With another start node ahead, a node outside the view can be reported. */
  lemma StartingAtLeavesView(f: Flow, a: Node, c: Node, u: Node, b: Node, t: Node)
    requires Detour(f, a, c, u, b, t)
    ensures Acyclic(Wired(f)) && Closed(Outputs(f))
    ensures var view := View(f, {a, b}, {t}, {});
      c in view && u !in view && u in Explore(Outputs(f), Sinks(f, view), {}, c, [])
  {
    DetourShape(f, a, c, u, b, t);
    DetourStops(f, a, c, u, b, t);
    var q := [c, u, b, t];
    assert StopWalk(Outputs(f), {t}, {}, q);
    assert q[1] == u;
    ExploreIs(Outputs(f), {t}, {}, c, u);
  }

  lemma UNotOnRunPath(f: Flow, a: Node, u: Node, b: Node, t: Node)
    requires Acyclic(Wired(f)) && {a, b, t, u} <= f.Keys && u !in {a, b, t}
    requires Outputs(f)[u] == {b}
    ensures u !in View(f, {a, b}, {t}, {})
  {
    ViewIsRunPaths(f, {a, b}, {t}, {}, u);
    forall p | RunPath(f, {a, b}, {t}, {}, p)
      ensures u !in p
    {
      forall i | 0 <= i < |p|
        ensures p[i] != u
      {
        if i + 1 < |p| {
          assert p[i] in Outputs(f) && p[i + 1] in Outputs(f)[p[i]];
        }
      }
    }
  }
}
