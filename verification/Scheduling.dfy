/** The level-by-level execution order of a flow. */
module Scheduling {
  import opened Ordering
  import opened Digraphs
  import opened Flows

  // ---------------------------------------------------------- specification

  /** The nodes whose longest chain of dependencies has exactly `k` edges. */
  ghost function Layer(g: Graph<Node>, k: nat): set<Node> {
    Settled(g, k + 1) - Settled(g, k)
  }

  /** The first round from `k` on after which nothing more settles. */
  ghost function LastRound(g: Graph<Node>, k: nat): (r: nat)
    ensures k <= r && Settled(g, r) == Settled(g, r + 1)
    ensures forall j :: k <= j < r ==> Settled(g, j) != Settled(g, j + 1)
    decreases if k <= |g| then |g| - k else 0
  {
    hide Settled;
    if Settled(g, k) == Settled(g, k + 1) then k
    else
      SettledCount(g, k);
      SubsetSize(Settled(g, k + 1), g.Keys);
      LastRound(g, k + 1)
  }

  /** What the scheduler computes for a graph of dependencies. */
  ghost function ExecutionOrder(g: Graph<Node>): (r: seq<seq<Node>>)
    ensures |r| == LastRound(g, 1)
    ensures forall k :: 0 <= k < |r| ==> r[k] == SortedNodes(Layer(g, k))
  {
    seq(LastRound(g, 1), k requires 0 <= k => SortedNodes(Layer(g, k)))
  }

  lemma InLevel(g: Graph<Node>, k: nat, v: Node)
    requires k < |ExecutionOrder(g)|
    ensures v in ExecutionOrder(g)[k] <==> v in Settled(g, k + 1) && v !in Settled(g, k)
  {
    assert v in ExecutionOrder(g)[k] <==> v in Elements(SortedNodes(Layer(g, k)));
  }

  /**
   * Position `k` of the order lists, in sorted order, exactly the nodes whose longest chain of
   * dependencies has `k` edges, where no chain ends at an undefined node.
   */
  lemma LevelIsLongestChain(g: Graph<Node>, k: nat, v: Node)
    requires k < |ExecutionOrder(g)|
    ensures v in ExecutionOrder(g)[k] <==> v in g && Inside(g, v) && LongestWalk(g, v, k)
    ensures Closed(g) && v in g ==> Inside(g, v)
  {
    InLevel(g, k, v);
    if v in g {
      RoundIsLongestWalk(g, v, k);
      if Closed(g) {
        ClosedInside(g, v);
      }
    }
  }

  /** Each level is listed in increasing order. */
  lemma LevelSorted(g: Graph<Node>, k: nat)
    requires k < |ExecutionOrder(g)|
    ensures Increasing(ExecutionOrder(g)[k], NodeLess) && Distinct(ExecutionOrder(g)[k])
  {
    NodeOrder();
  }

  /** No level of a non-empty acyclic graph is empty. */
  lemma LevelsNonEmpty(g: Graph<Node>, k: nat)
    requires Closed(g) && Acyclic(g) && g != map[] && k < |ExecutionOrder(g)|
    ensures ExecutionOrder(g)[k] != []
  {
    SettledGrows(g, k, k + 1);
    if k == 0 {
      AcyclicSettles(g);
      if Settled(g, k) == Settled(g, k + 1) {
        SettledStable(g, k, |g|);
        assert false;
      }
    }
    var v :| v in Settled(g, k + 1) && v !in Settled(g, k);
    InLevel(g, k, v);
  }

  /** Every node of an acyclic graph is scheduled, at its height. */
  lemma EveryNodeScheduled(g: Graph<Node>, v: Node)
    requires Closed(g) && Acyclic(g) && v in g
    ensures Height(g, v) < |ExecutionOrder(g)| && v in ExecutionOrder(g)[Height(g, v)]
  {
    var h := Height(g, v);
    var last := |ExecutionOrder(g)|;
    if h >= last {
      SettledStable(g, last, h);
      assert false;
    }
    InLevel(g, h, v);
  }

  /** A node occurs at one level only. */
  lemma ScheduledOnce(g: Graph<Node>, v: Node, i: nat, j: nat)
    requires i < |ExecutionOrder(g)| && j < |ExecutionOrder(g)|
    requires v in ExecutionOrder(g)[i] && v in ExecutionOrder(g)[j]
    ensures i == j
  {
    InLevel(g, i, v);
    InLevel(g, j, v);
    if i < j {
      SettledGrows(g, i + 1, j);
    } else if j < i {
      SettledGrows(g, j + 1, i);
    }
  }

  /** Every node comes at a strictly later level than everything it depends on. */
  lemma DependenciesFirst(g: Graph<Node>, v: Node, u: Node, i: nat, j: nat)
    requires i < |ExecutionOrder(g)| && j < |ExecutionOrder(g)|
    requires v in g && u in g[v] && u in ExecutionOrder(g)[i] && v in ExecutionOrder(g)[j]
    ensures i < j
  {
    InLevel(g, i, u);
    InLevel(g, j, v);
    assert u in Settled(g, j);
    if j <= i {
      SettledGrows(g, j, i);
    }
  }

  // -------------------------------------------------- when the loop comes to an end

  /** The node depends, directly or not, on a node without dependencies. */
  ghost predicate DependsOnSource(g: Graph<Node>, v: Node) {
    exists e :: e in g && g[e] == {} && Reaches(g, v, e)
  }

  /** No cycle and no undefined node feeds a node that is also fed by an entry. */
  ghost predicate Schedulable(g: Graph<Node>) {
    forall v, c :: v in g && DependsOnSource(g, v) && Reaches(g, v, c) ==> c in g && !OnCycle(g, c)
  }

  lemma SchedulableSettles(g: Graph<Node>)
    ensures Schedulable(g) <==> forall v :: v in g && DependsOnSource(g, v) ==> v in Settled(g, |g|)
  {
    forall v | v in g
      ensures v in Settled(g, |g|) <==> forall c :: Reaches(g, v, c) ==> c in g && !OnCycle(g, c)
    {
      SettlesIff(g, v);
    }
  }

  lemma AcyclicSchedulable(g: Graph<Node>)
    requires Closed(g) && Acyclic(g)
    ensures Schedulable(g)
  {
    AcyclicSettles(g);
    SchedulableSettles(g);
  }

  lemma {:induction false} SettledDependOnSource(g: Graph<Node>, k: nat, v: Node)
    requires v in Settled(g, k)
    ensures DependsOnSource(g, v)
  {
    if w :| w in g[v] {
      SettledDependOnSource(g, k - 1, w);
      var e :| e in g && g[e] == {} && Reaches(g, w, e);
      ReachesStep(g, v, w);
      ReachesTransitive(g, v, w, e);
    } else {
      ReachesSelf(g, v);
    }
  }

  /** The set the scheduler works on in round `k`: the entries, then whatever waits behind a settled node. */
  ghost function Frontier(g: Graph<Node>, k: nat): (s: set<Node>)
    ensures s <= g.Keys
  {
    if k == 0 then set v | v in g && g[v] == {}
    else set v | v in g && v !in Settled(g, k) && g[v] * Settled(g, k) != {}
  }

  /** The nodes of round `k` that settle in it are those of layer `k`. */
  lemma FrontierReady(g: Graph<Node>, k: nat)
    ensures (set v | v in Frontier(g, k) && g[v] <= Settled(g, k)) == Layer(g, k)
  {
    forall v | v in Layer(g, k)
      ensures v in Frontier(g, k)
    {
      if k > 0 {
        SettledGrows(g, 1, k);
      }
      if w :| w in g[v] {
        assert w in g[v] * Settled(g, k);
      }
    }
    if k > 0 {
      assert forall v :: v in Frontier(g, k) ==> v !in Settled(g, k);
    }
  }

  ghost function ConsumersOf(g: Graph<Node>, s: set<Node>): set<Node> {
    set v | v in g && g[v] * s != {}
  }

  /** Round `k + 1` works on the consumers of layer `k` and on what round `k` deferred. */
  lemma FrontierNext(g: Graph<Node>, k: nat)
    ensures Frontier(g, k + 1) == (Frontier(g, k) - Layer(g, k)) + ConsumersOf(g, Layer(g, k))
  {
    SettledGrows(g, k, k + 1);
    FrontierReady(g, k);
    forall v | v in g
      ensures v in Frontier(g, k + 1) <==> v in Frontier(g, k) - Layer(g, k) || v in ConsumersOf(g, Layer(g, k))
    {
      if v in Frontier(g, k + 1) {
        var u :| u in g[v] * Settled(g, k + 1);
        if u in Settled(g, k) {
          assert u in g[v] * Settled(g, k);
          assert v in Frontier(g, k);
        } else {
          assert u in g[v] * Layer(g, k);
        }
      }
      if v in Frontier(g, k) - Layer(g, k) {
        assert k > 0;
        var u :| u in g[v] * Settled(g, k);
        assert u in g[v] * Settled(g, k + 1);
      }
      if u :| u in g[v] * Layer(g, k) {
        assert u in g[v] * Settled(g, k + 1);
      }
    }
  }

  lemma FrontierDependsOnSource(g: Graph<Node>, k: nat, v: Node)
    requires v in Frontier(g, k)
    ensures DependsOnSource(g, v)
  {
    if k == 0 {
      ReachesSelf(g, v);
    } else {
      var u :| u in g[v] * Settled(g, k);
      SettledDependOnSource(g, k, u);
      var e :| e in g && g[e] == {} && Reaches(g, u, e);
      ReachesStep(g, v, u);
      ReachesTransitive(g, v, u, e);
    }
  }

  lemma FrontierSettles(g: Graph<Node>, k: nat, v: Node)
    requires Schedulable(g) && v in Frontier(g, k)
    ensures v in Settled(g, |g|)
  {
    FrontierDependsOnSource(g, k, v);
    SettlesIff(g, v);
  }

  /** Under `Schedulable` a round beyond the last one has nothing left to do. */
  lemma FrontierEnds(g: Graph<Node>, k: nat)
    requires Schedulable(g) && k > 0
    ensures Frontier(g, k) == {} <==> Settled(g, k) == Settled(g, k + 1)
    ensures Frontier(g, k) != {} ==> k < |g|
  {
    if Frontier(g, k) != {} {
      var v :| v in Frontier(g, k);
      FrontierSettles(g, k, v);
      if k >= |g| {
        SettledGrows(g, |g|, k);
      } else if Settled(g, k) == Settled(g, k + 1) {
        SettledStable(g, k, |g|);
      }
    } else {
      SettledGrows(g, k, k + 1);
      FrontierReady(g, k);
      assert Layer(g, k) == {};
      assert forall v :: v in Settled(g, k + 1) && v !in Settled(g, k) ==> v in Layer(g, k);
    }
  }

  /**
   * When a cycle or an undefined node feeds a node that an entry also feeds, no round is ever empty:
   * the scheduler's loop does not come to an end.
   */
  lemma NeverEnds(g: Graph<Node>, k: nat)
    requires !Schedulable(g)
    ensures Frontier(g, k) != {}
  {
    SchedulableSettles(g);
    var v :| v in g && DependsOnSource(g, v) && v !in Settled(g, |g|);
    var e :| e in g && g[e] == {} && Reaches(g, v, e);
    if k == 0 {
      assert e in Frontier(g, 0);
    } else {
      if k >= |g| {
        SettledByCount(g, k);
      } else {
        SettledGrows(g, k, |g|);
      }
      SettledGrows(g, 1, k);
      var p :| WalkBetween(g, p, v, e);
      BoundaryOnWalk(g, k, p);
    }
  }

  /** A walk from an unsettled to a settled node crosses the frontier. */
  lemma {:induction false} BoundaryOnWalk(g: Graph<Node>, k: nat, p: seq<Node>)
    requires k > 0 && IsWalk(g, p) && p[0] !in Settled(g, k) && p[|p| - 1] in Settled(g, k)
    ensures Frontier(g, k) != {}
    decreases |p|
  {
    WalkFirstStep(g, p);
    if p[1] in Settled(g, k) {
      assert p[1] in g[p[0]] * Settled(g, k);
      assert p[0] in Frontier(g, k);
    } else {
      WalkSlice(g, p, 1, |p| - 1);
      assert p[1..|p| - 1 + 1] == p[1..];
      BoundaryOnWalk(g, k, p[1..]);
    }
  }

  // ------------------------------------------------------------ the scheduler

  /**
   * What each node waits for. Forward, an undefined input is waited for in vain; reversed, it is a
   * node like any other, which waits for its consumers.
   */
  function Waits(f: Flow, reverse: bool): Graph<Node> {
    if reverse then map v | v in Mentioned(f) :: set u | u in f && v in f[u].input else Inputs(f)
  }

  /** On a flow without undefined inputs these are the edges of the flow. */
  lemma WaitsDefined(f: Flow, reverse: bool)
    requires NoDangling(f)
    ensures Waits(f, reverse) == Dependencies(f, reverse)
  {
    if reverse {
      forall u | u in Referenced(f)
        ensures u in f
      {
        var v :| v in f && u in f[v].input;
        assert u in Inputs(f)[v];
      }
      assert Mentioned(f) == f.Keys;
      forall v | v in f
        ensures Waits(f, true)[v] == Outputs(f)[v]
      {
        assert forall u :: u in f ==> (v in f[u].input <==> v in Inputs(f)[u]);
      }
      assert Waits(f, true).Keys == Outputs(f).Keys;
    }
  }

  ghost predicate Has(m: map<Node, set<Node>>, a: Node, b: Node) {
    a in m && b in m[a]
  }

  ghost predicate NoEmptyEntry(m: map<Node, set<Node>>) {
    forall u :: u in m ==> m[u] != {}
  }

  /** `setdefault(k, set()).add(v)` */
  function AddTo(m: map<Node, set<Node>>, k: Node, v: Node): (r: map<Node, set<Node>>)
    ensures NoEmptyEntry(m) ==> NoEmptyEntry(r)
    ensures forall a, b :: Has(r, a, b) <==> Has(m, a, b) || (a == k && b == v)
  {
    m[k := (if k in m then m[k] else {}) + {v}]
  }

  /** `b` runs after `a` because of an edge into a node of `done`. */
  ghost predicate Linked(f: Flow, reverse: bool, done: set<Node>, a: Node, b: Node) {
    if reverse then a in done && a in f && b in f[a].input else b in done && b in f && a in f[b].input
  }

  /** The nodes of a set in sorted order, where a loop does not depend on the order. */
  method Listing(s: set<Node>) returns (nodes: seq<Node>)
    ensures Elements(nodes) == s && Distinct(nodes)
  {
    nodes := SortNodes(s);
  }

  method EdgesInto(f: Flow, reverse: bool, v: Node, exMap: map<Node, set<Node>>) returns (r: map<Node, set<Node>>)
    requires v in f && NoEmptyEntry(exMap)
    ensures NoEmptyEntry(r)
    ensures forall a, b :: Has(r, a, b) <==> Has(exMap, a, b) || Linked(f, reverse, {v}, a, b)
  {
    r := exMap;
    var inputs := f[v].input;
    for j := 0 to |inputs|
      invariant NoEmptyEntry(r)
      invariant reverse ==> forall a, b :: Has(r, a, b) <==> Has(exMap, a, b) || (a == v && b in inputs[..j])
      invariant !reverse ==> forall a, b :: Has(r, a, b) <==> Has(exMap, a, b) || (b == v && a in inputs[..j])
    {
      assert forall x :: x in inputs[..j + 1] <==> x in inputs[..j] || x == inputs[j];
      r := if reverse then AddTo(r, v, inputs[j]) else AddTo(r, inputs[j], v);
    }
    assert inputs[..|inputs|] == inputs;
  }

  method EdgeMap(f: Flow, reverse: bool) returns (exMap: map<Node, set<Node>>)
    ensures NoEmptyEntry(exMap)
    ensures forall a, b :: Has(exMap, a, b) <==> Linked(f, reverse, f.Keys, a, b)
  {
    exMap := map[];
    var nodes := Listing(f.Keys);
    ghost var done: set<Node> := {};
    for i := 0 to |nodes|
      invariant done == Elements(nodes[..i]) <= f.Keys
      invariant NoEmptyEntry(exMap)
      invariant forall a, b :: Has(exMap, a, b) <==> Linked(f, reverse, done, a, b)
    {
      var v := nodes[i];
      assert v in Elements(nodes);
      exMap := EdgesInto(f, reverse, v, exMap);
      assert Elements(nodes[..i + 1]) == done + {v};
      assert forall a, b ::
        Linked(f, reverse, done + {v}, a, b) <==> Linked(f, reverse, done, a, b) || Linked(f, reverse, {v}, a, b);
      done := done + {v};
    }
    assert nodes[..|nodes|] == nodes;
  }

  method ReverseMap(exMap: map<Node, set<Node>>) returns (revMap: map<Node, set<Node>>)
    ensures NoEmptyEntry(revMap)
    ensures forall a, b :: Has(revMap, b, a) <==> Has(exMap, a, b)
  {
    revMap := map[];
    var todo := exMap.Keys;
    while todo != {}
      invariant todo <= exMap.Keys && NoEmptyEntry(revMap)
      invariant forall a, b :: Has(revMap, b, a) <==> Has(exMap, a, b) && a !in todo
      decreases |todo|
    {
      var node :| node in todo;
      var edges := exMap[node];
      while edges != {}
        invariant edges <= exMap[node] && NoEmptyEntry(revMap)
        invariant forall a, b :: Has(revMap, b, a) <==> Has(exMap, a, b) && (a !in todo || (a == node && b !in edges))
        decreases |edges|
      {
        var s :| s in edges;
        revMap := AddTo(revMap, s, node);
        edges := edges - {s};
      }
      todo := todo - {node};
    }
  }

  /** The edge map agrees with the graph, the nodes of `done` taken out. */
  ghost predicate Consumers(g: Graph<Node>, exMap: map<Node, set<Node>>, done: set<Node>) {
    && NoEmptyEntry(exMap)
    && forall a, b {:trigger Has(exMap, a, b)} :: Has(exMap, a, b) <==> a !in done && b in g && a in g[b]
  }

  ghost predicate Suppliers(g: Graph<Node>, revMap: map<Node, set<Node>>) {
    NoEmptyEntry(revMap) && forall a, b {:trigger Has(revMap, b, a)} :: Has(revMap, b, a) <==> b in g && a in g[b]
  }

  lemma LinkedInGraph(f: Flow, reverse: bool, a: Node, b: Node)
    ensures Linked(f, reverse, f.Keys, a, b) <==> b in Waits(f, reverse) && a in Waits(f, reverse)[b]
  {
  }

  lemma SupplierSet(g: Graph<Node>, revMap: map<Node, set<Node>>, v: Node)
    requires Suppliers(g, revMap) && v in g
    ensures v in revMap <==> g[v] != {}
    ensures v in revMap ==> revMap[v] == g[v]
  {
    forall a
      ensures Has(revMap, v, a) <==> a in g[v]
    {
    }
    if a :| a in g[v] {
      assert Has(revMap, v, a);
    }
    if v in revMap {
      var a :| a in revMap[v];
      assert Has(revMap, v, a);
    }
  }

  /** `ex_map.pop(n)` yields the consumers of `n`, and takes `n` out of the map. */
  lemma PopConsumers(g: Graph<Node>, exMap: map<Node, set<Node>>, done: set<Node>, n: Node)
    requires Consumers(g, exMap, done) && n !in done
    ensures (if n in exMap then exMap[n] else {}) == ConsumersOf(g, {n})
    ensures Consumers(g, if n in exMap then exMap - {n} else exMap, done + {n})
  {
    forall v
      ensures Has(exMap, n, v) <==> v in g && n in g[v]
    {
    }
    forall v
      ensures v in ConsumersOf(g, {n}) <==> v in g && n in g[v]
    {
      if v in g && n in g[v] {
        assert n in g[v] * {n};
      }
    }
    var popped := if n in exMap then exMap - {n} else exMap;
    forall a, b
      ensures Has(popped, a, b) <==> a !in done + {n} && b in g && a in g[b]
    {
      assert Has(exMap, a, b) <==> a !in done && b in g && a in g[b];
    }
  }

  ghost function Ready(g: Graph<Node>, level: set<Node>, visited: set<Node>): set<Node> {
    set v | v in level && v in g && g[v] <= visited
  }

  /** Visits one node: collects its consumers if its dependencies have all been visited, else defers it. */
  method VisitNode(ghost g: Graph<Node>, n: Node, visited: set<Node>, nextLevel: set<Node>,
      ghost nextVisited: set<Node>,
                   exMap: map<Node, set<Node>>, revMap: map<Node, set<Node>>)
    returns (valid: bool, nextLevel': set<Node>, exMap': map<Node, set<Node>>)
    requires n in g && n !in visited + nextVisited
    requires Consumers(g, exMap, visited + nextVisited) && Suppliers(g, revMap)
    ensures valid <==> g[n] <= visited
    ensures nextLevel' == nextLevel + if valid then ConsumersOf(g, {n}) else {n}
    ensures Consumers(g, exMap', visited + (nextVisited + if valid then {n} else {}))
  {
    nextLevel', exMap' := nextLevel, exMap;
    SupplierSet(g, revMap, n);
    valid := n !in revMap || revMap[n] <= visited;
    if valid {
      PopConsumers(g, exMap, visited + nextVisited, n);
      if n in exMap {
        nextLevel' := nextLevel + exMap[n];
        exMap' := exMap - {n};
      }
    } else {
      nextLevel' := nextLevel + {n};
    }
    assert visited + (nextVisited + if valid then {n} else {}) == (visited + nextVisited) + if valid then {n} else {};
  }

  /**
   * One pass of the scheduler's loop: visits the nodes of the level whose dependencies have all
   * been visited, collects their consumers and defers the rest.
   */
  method VisitLevel(ghost g: Graph<Node>, level: set<Node>, visited: set<Node>,
                    exMap: map<Node, set<Node>>, revMap: map<Node, set<Node>>)
    returns (nextLevel: set<Node>, nextVisited: set<Node>, exMap': map<Node, set<Node>>)
    requires level <= g.Keys - visited
    requires Consumers(g, exMap, visited) && Suppliers(g, revMap)
    ensures nextVisited == Ready(g, level, visited)
    ensures nextLevel == (level - nextVisited) + ConsumersOf(g, nextVisited)
    ensures Consumers(g, exMap', visited + nextVisited)
  {
    nextLevel, nextVisited, exMap' := {}, {}, exMap;
    assert visited + nextVisited == visited;
    var nodes := Listing(level);
    ghost var done: set<Node>, deferred: set<Node>, fed: set<Node> := {}, {}, {};
    for i := 0 to |nodes|
      invariant done == Elements(nodes[..i]) <= level
      invariant nextVisited == Ready(g, done, visited)
      invariant deferred == done - nextVisited
      invariant fed == ConsumersOf(g, nextVisited)
      invariant nextLevel == deferred + fed
      invariant Consumers(g, exMap', visited + nextVisited)
    {
      var n := nodes[i];
      assert n in Elements(nodes);
      assert Elements(nodes[..i + 1]) == done + {n};
      FreshInList(nodes, i);
      ReadyGrows(g, done, n, visited);
      ConsumersGrow(g, nextVisited, n);
      var valid;
      valid, nextLevel, exMap' := VisitNode(g, n, visited, nextLevel, nextVisited, exMap', revMap);
      if valid {
        nextVisited := nextVisited + {n};
        fed := fed + ConsumersOf(g, {n});
      } else {
        deferred := deferred + {n};
      }
      done := done + {n};
    }
    assert nodes[..|nodes|] == nodes;
  }

  /** On round `k`'s frontier a pass of the loop yields round `k + 1`'s. */
  lemma RoundDone(g: Graph<Node>, k: nat)
    ensures Frontier(g, k) <= g.Keys - Settled(g, k)
    ensures Settled(g, k) + Ready(g, Frontier(g, k), Settled(g, k)) == Settled(g, k + 1)
    ensures var ready := Ready(g, Frontier(g, k), Settled(g, k));
      Frontier(g, k + 1) == (Frontier(g, k) - ready) + ConsumersOf(g, ready)
  {
    FrontierReady(g, k);
    assert Ready(g, Frontier(g, k), Settled(g, k)) == Layer(g, k);
    SettledGrows(g, k, k + 1);
    FrontierNext(g, k);
  }

  lemma ReadyGrows(g: Graph<Node>, done: set<Node>, n: Node, visited: set<Node>)
    requires n in g && n !in done
    ensures Ready(g, done + {n}, visited) == Ready(g, done, visited) + if g[n] <= visited then {n} else {}
    ensures n !in Ready(g, done, visited)
  {
  }

  lemma ConsumersGrow(g: Graph<Node>, s: set<Node>, n: Node)
    ensures ConsumersOf(g, s + {n}) == ConsumersOf(g, s) + ConsumersOf(g, {n})
  {
    forall v | v in g
      ensures g[v] * (s + {n}) == g[v] * s + g[v] * {n}
    {
    }
  }

  lemma FreshInList(nodes: seq<Node>, i: nat)
    requires i < |nodes| && Distinct(nodes)
    ensures nodes[i] !in Elements(nodes[..i])
  {
  }

  /** What is left of round `k` once the rounds after it are taken out is layer `k`. */
  lemma FilteredLevel(g: Graph<Node>, k: nat, used: set<Node>)
    requires used !! Settled(g, k + 1) && Frontier(g, k + 1) <= used
    ensures Frontier(g, k) - used == Layer(g, k)
    ensures used + Frontier(g, k) !! Settled(g, k)
  {
    SettledGrows(g, k, k + 1);
    FrontierReady(g, k);
    FrontierNext(g, k);
    RoundDone(g, k);
  }

  /** The sets the scheduler's loop has worked on. */
  ghost predicate AreRounds(g: Graph<Node>, order: seq<set<Node>>) {
    forall j :: 0 <= j < |order| ==> order[j] == Frontier(g, j)
  }

  /** Something new settled in every round before the `n`-th. */
  ghost predicate StillSettling(g: Graph<Node>, n: nat) {
    forall j :: 1 <= j < n ==> Settled(g, j) != Settled(g, j + 1)
  }

  lemma OneMoreRound(g: Graph<Node>, order: seq<set<Node>>, next: set<Node>)
    requires AreRounds(g, order) && next == Frontier(g, |order|)
    ensures AreRounds(g, order + [next])
  {
    hide Frontier;
  }

  lemma RoundAt(g: Graph<Node>, order: seq<set<Node>>, k: nat)
    requires AreRounds(g, order) && k < |order|
    ensures order[k] == Frontier(g, k)
  {
  }

  lemma SettlingOn(g: Graph<Node>, n: nat)
    requires n > 0 && StillSettling(g, n) && Settled(g, n) != Settled(g, n + 1)
    ensures StillSettling(g, n + 1)
  {
    hide Settled;
  }

  /** The level the backward pass keeps of round `i`. */
  lemma KeptLevel(g: Graph<Node>, i: nat, used: set<Node>)
    requires i < LastRound(g, 1) && used !! Settled(g, i + 1) && Frontier(g, i + 1) <= used
    ensures i < |ExecutionOrder(g)| && SortedNodes(Frontier(g, i) - used) == ExecutionOrder(g)[i]
    ensures used + Frontier(g, i) !! Settled(g, i)
  {
    FilteredLevel(g, i, used);
  }

  /** Keeps of every level only the nodes that occur in no later one. */
  method FilterDuplicates(ghost g: Graph<Node>, order: seq<set<Node>>) returns (ordering: seq<seq<Node>>)
    requires AreRounds(g, order) && |order| == LastRound(g, 1) && Frontier(g, |order|) == {}
    ensures ordering == ExecutionOrder(g)
  {
    hide *;
    var used: set<Node> := {};
    ordering := [];
    var i := |order|;
    while i > 0
      invariant 0 <= i <= |order| == |ExecutionOrder(g)|
      invariant used !! Settled(g, i) && Frontier(g, i) <= used
      invariant ordering == ExecutionOrder(g)[i..]
    {
      i := i - 1;
      RoundAt(g, order, i);
      KeptLevel(g, i, used);
      var level := SortNodes(order[i] - used);
      ordering := [level] + ordering;
      used := used + order[i];
    }
  }

  /** The lookup maps the scheduler starts from. */
  method LookupMaps(f: Flow, reverse: bool) returns (exMap: map<Node, set<Node>>, revMap: map<Node, set<Node>>)
    ensures Consumers(Waits(f, reverse), exMap, {})
    ensures Suppliers(Waits(f, reverse), revMap)
  {
    exMap := EdgeMap(f, reverse);
    revMap := ReverseMap(exMap);
    forall a, b
      ensures Has(exMap, a, b) <==> b in Waits(f, reverse) && a in Waits(f, reverse)[b]
    {
      LinkedInGraph(f, reverse, a, b);
    }
  }

  /** Round by round, until a round leaves nothing to do. */
  method Rounds(ghost g: Graph<Node>, start: set<Node>, ex: map<Node, set<Node>>, revMap: map<Node, set<Node>>)
    returns (order: seq<set<Node>>)
    requires Schedulable(g) && start == Frontier(g, 0)
    requires Consumers(g, ex, {}) && Suppliers(g, revMap)
    ensures AreRounds(g, order) && |order| == LastRound(g, 1) && Frontier(g, |order|) == {}
  {
    assert Settled(g, 0) == {} && AreRounds(g, [start]) && StillSettling(g, 1);
    hide *;
    order := [start];
    var exMap := ex;
    var visited: set<Node> := {};
    while true
      invariant |order| > 0 && AreRounds(g, order) && StillSettling(g, |order|)
      invariant visited == Settled(g, |order| - 1)
      invariant Consumers(g, exMap, visited)
      decreases |g| + 1 - |order|
    {
      RoundAt(g, order, |order| - 1);
      RoundDone(g, |order| - 1);
      var nextLevel, nextVisited;
      nextLevel, nextVisited, exMap := VisitLevel(g, order[|order| - 1], visited, exMap, revMap);
      visited := visited + nextVisited;
      FrontierEnds(g, |order|);
      if nextLevel == {} {
        break;
      }
      SettlingOn(g, |order|);
      OneMoreRound(g, order, nextLevel);
      order := order + [nextLevel];
    }
    LastRoundUnique(g, |order|);
  }

  lemma LastRoundUnique(g: Graph<Node>, n: nat)
    requires n > 0 && Settled(g, n) == Settled(g, n + 1) && StillSettling(g, n)
    ensures n == LastRound(g, 1)
  {
    hide Settled;
  }

  /**
   * The scheduler, on any flow. Its loop ends exactly where no cycle and no undefined node feeds a
   * node that an entry also feeds (see `NeverEnds`), and there it computes the execution order.
   */
  method ComputeOrder(f: Flow, reverse: bool, start: set<Node>) returns (ordering: seq<seq<Node>>)
    requires Schedulable(Waits(f, reverse))
    requires start == Frontier(Waits(f, reverse), 0)
    ensures ordering == ExecutionOrder(Waits(f, reverse))
  {
    ghost var g := Waits(f, reverse);
    var exMap, revMap := LookupMaps(f, reverse);
    var order := Rounds(g, start, exMap, revMap);
    ordering := FilterDuplicates(g, order);
  }

  /** A defined node that an entry and an undefined node feed stalls the forward scheduler for good. */
  lemma UndefinedInputStalls(f: Flow, v: Node, u: Node, k: nat)
    requires v in f && DependsOnSource(Inputs(f), v) && u in f[v].input && u !in f
    ensures !Schedulable(Waits(f, false)) && Frontier(Waits(f, false), k) != {}
  {
    var g := Waits(f, false);
    assert u in g[v];
    ReachesStep(g, v, u);
    NeverEnds(g, k);
  }

  /** The nodes that are scheduled are those behind which there is an entry; the others never come up. */
  lemma ScheduledIff(g: Graph<Node>, v: Node)
    requires Schedulable(g) && v in g
    ensures (exists k :: 0 <= k < |ExecutionOrder(g)| && v in ExecutionOrder(g)[k]) <==> DependsOnSource(g, v)
  {
    var last := |ExecutionOrder(g)|;
    if k :| 0 <= k < last && v in ExecutionOrder(g)[k] {
      InLevel(g, k, v);
      SettledDependOnSource(g, k + 1, v);
    }
    if DependsOnSource(g, v) {
      SchedulableSettles(g);
      if last <= |g| {
        SettledStable(g, last, |g|);
      } else {
        SettledGrows(g, |g|, last);
      }
      var h := RoundOf(g, v, last);
      InLevel(g, h, v);
    }
  }
}
