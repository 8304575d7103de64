/** Checking a flow: undefined nodes, repeated edges, unset fields and loops. */
module Validation {
  import opened Ordering
  import opened Digraphs
  import opened Flows
  import opened Scheduling

  // ------------------------------------------------------------------- loops

  /** The sorted consumers of every node, as the memoised `get_node_outputs` serves them. */
  ghost predicate Serves(outs: map<Node, seq<Node>>, g: Graph<Node>) {
    g.Keys <= outs.Keys && forall v :: v in g ==> Elements(outs[v]) == g[v]
  }

  /** A walk that ends where it has been before. */
  ghost predicate IsLoop(g: Graph<Node>, p: seq<Node>) {
    IsWalk(g, p) && exists i :: 0 <= i < |p| - 1 && p[i] == p[|p| - 1]
  }

  /** Nothing on `path`, and nothing twice, can be met from `v` on. */
  ghost predicate NoRepeatAhead(g: Graph<Node>, path: seq<Node>, v: Node) {
    forall q :: IsWalk(g, q) && q[0] == v ==> Distinct(path + q)
  }

  /** Depth-first search for a loop among the continuations of `path + [v]`. */
  method FindLoops(ghost g: Graph<Node>, outs: map<Node, seq<Node>>, v: Node, path: seq<Node>)
    returns (loop: Option<seq<Node>>)
    requires Closed(g) && Serves(outs, g) && v in g
    requires Distinct(path) && IsWalk(g, path + [v]) && forall i :: 0 <= i < |path| ==> path[i] in g
    ensures loop.Some? ==> IsLoop(g, loop.value) && path + [v] <= loop.value
    ensures loop.None? ==> NoRepeatAhead(g, path, v)
    decreases |g| - |path|
  {
    DistinctFits(path, g.Keys);
    if v in path {
      var i :| 0 <= i < |path| && path[i] == v;
      assert (path + [v])[i] == (path + [v])[|path|];
      return Some(path + [v]);
    }
    var here := path + [v];
    DistinctFits(here, g.Keys);
    var outputs := outs[v];
    for k := 0 to |outputs|
      invariant forall j :: 0 <= j < k ==> NoRepeatAhead(g, here, outputs[j])
    {
      assert outputs[k] in Elements(outputs);
      ExtendWalk(g, here, outputs[k]);
      loop := FindLoops(g, outs, outputs[k], here);
      if loop.Some? {
        assert here + [outputs[k]] <= loop.value;
        return;
      }
    }
    NoneFound(g, path, v, outputs);
    return None;
  }

  lemma ExtendWalk(g: Graph<Node>, p: seq<Node>, w: Node)
    requires IsWalk(g, p) && p[|p| - 1] in g && w in g[p[|p| - 1]]
    ensures IsWalk(g, p + [w])
  {
  }

  lemma NoneFound(g: Graph<Node>, path: seq<Node>, v: Node, outputs: seq<Node>)
    requires v in g && Elements(outputs) == g[v] && Distinct(path) && v !in path
    requires forall j :: 0 <= j < |outputs| ==> NoRepeatAhead(g, path + [v], outputs[j])
    ensures NoRepeatAhead(g, path, v)
  {
    forall q | IsWalk(g, q) && q[0] == v
      ensures Distinct(path + q)
    {
      if |q| > 1 {
        WalkFirstStep(g, q);
        assert q[1] in Elements(outputs);
        var j :| 0 <= j < |outputs| && outputs[j] == q[1];
        WalkSlice(g, q, 1, |q| - 1);
        assert q[1..|q| - 1 + 1] == q[1..];
        assert NoRepeatAhead(g, path + [v], outputs[j]);
        assert path + q == (path + [v]) + q[1..];
      } else {
        assert q == [v];
      }
    }
  }

  lemma LoopGivesCycle(g: Graph<Node>, p: seq<Node>) returns (c: Node)
    requires IsLoop(g, p)
    ensures Reaches(g, p[0], c) && OnCycle(g, c)
  {
    var i :| 0 <= i < |p| - 1 && p[i] == p[|p| - 1];
    RepeatGivesCycle(g, p, i, |p| - 1);
    WalkSlice(g, p, 0, i);
    c := p[i];
  }

  lemma CycleAheadRepeats(g: Graph<Node>, v: Node, c: Node)
    requires Reaches(g, v, c) && OnCycle(g, c)
    ensures !NoRepeatAhead(g, [], v)
  {
    var p :| WalkBetween(g, p, v, c);
    var q :| |q| >= 2 && WalkBetween(g, q, c, c);
    WalkJoin(g, p, q, v, c, c);
    RepeatAhead(g, p + q[1..], v, |p| - 1, |p| + |q| - 2);
  }

  lemma RepeatAhead(g: Graph<Node>, r: seq<Node>, v: Node, i: nat, j: nat)
    requires IsWalk(g, r) && r[0] == v && i < j < |r| && r[i] == r[j]
    ensures !NoRepeatAhead(g, [], v)
  {
    assert [] + r == r;
    assert !Distinct(r);
  }

  /** No cycle can be reached from `v`. */
  ghost predicate LoopFree(g: Graph<Node>, v: Node) {
    forall c :: Reaches(g, v, c) ==> !OnCycle(g, c)
  }

  /** The search from a start node finds a loop exactly when a cycle can be reached from it. */
  method FindLoopFrom(ghost g: Graph<Node>, outs: map<Node, seq<Node>>, v: Node) returns (loop: Option<seq<Node>>)
    requires Closed(g) && Serves(outs, g) && v in g
    ensures loop.Some? ==> IsLoop(g, loop.value) && loop.value[0] == v
    ensures loop.None? <==> LoopFree(g, v)
  {
    loop := FindLoops(g, outs, v, []);
    if loop.Some? {
      assert [] + [v] <= loop.value;
      var c := LoopGivesCycle(g, loop.value);
    } else {
      forall c | Reaches(g, v, c)
        ensures !OnCycle(g, c)
      {
        if OnCycle(g, c) {
          CycleAheadRepeats(g, v, c);
        }
      }
    }
  }

  // ---------------------------------------------------------------- validate

  function Count(s: seq<Node>, n: Node): nat {
    if s == [] then 0 else (if s[0] == n then 1 else 0) + Count(s[1..], n)
  }

  lemma {:induction false} CountPositive(s: seq<Node>, n: Node)
    ensures Count(s, n) > 0 <==> n in s
  {
    if s != [] {
      CountPositive(s[1..], n);
      assert s == [s[0]] + s[1..];
    }
  }

  lemma {:induction false} DistinctIffCounts(s: seq<Node>)
    ensures Distinct(s) <==> forall n :: n in s ==> Count(s, n) <= 1
  {
    if s != [] {
      var t := s[1..];
      assert s == [s[0]] + t;
      DistinctIffCounts(t);
      CountPositive(t, s[0]);
      assert forall i :: 0 <= i < |t| ==> t[i] == s[i + 1];
      if Distinct(s) {
        forall n | n in s
          ensures Count(s, n) <= 1
        {
          if n != s[0] {
            assert n in t;
          }
        }
      } else if s[0] in t {
        assert Count(s, s[0]) > 1;
      } else {
        assert !Distinct(t);
        var n :| n in t && Count(t, n) > 1;
        assert n in s && Count(s, n) > 1;
      }
    }
  }

  predicate FieldsSet(d: NodeData) {
    d.binding.tool != "" && d.binding.task != "" && d.binding.taskmodule != ""
  }

  /** What `validate` accepts. */
  ghost predicate Accepted(f: Flow) {
    && WellFormed(f)
    && (forall v :: v in f ==> FieldsSet(f[v]))
    && (forall e :: e in Entries(f) ==> LoopFree(Outputs(f), e))
  }

  /** The edge checks: no input listed twice, none undefined. */
  method CheckEdges(f: Flow, nodes: seq<Node>) returns (error: bool)
    requires Elements(nodes) == f.Keys
    ensures error <==> !WellFormed(f)
  {
    error := false;
    var checkNodes: set<Node> := {};
    for i := 0 to |nodes|
      invariant checkNodes == Elements(nodes[..i]) + set v, w | v in nodes[..i] && v in f
        && w in Elements(f[v].input) :: w
      invariant error <==> exists v :: v in nodes[..i] && v in f && !Distinct(f[v].input)
    {
      var v := nodes[i];
      assert v in Elements(nodes);
      var inputs := f[v].input;
      assert forall x :: x in nodes[..i + 1] <==> x in nodes[..i] || x == v;
      checkNodes := checkNodes + {v} + Elements(inputs);
      DistinctIffCounts(inputs);
      var repeated := set n | n in inputs && Count(inputs, n) > 1;
      assert repeated == {} <==> Distinct(inputs) by {
        if n :| n in inputs && Count(inputs, n) > 1 {
          assert n in repeated;
        }
      }
      if repeated != {} {
        error := true;
      }
    }
    assert nodes[..|nodes|] == nodes;
    assert forall v :: v in nodes <==> v in f;
    var diff := checkNodes - f.Keys;
    NothingMissing(f, checkNodes);
    if diff != {} {
      error := true;
    }
  }

  lemma NothingMissing(f: Flow, checkNodes: set<Node>)
    requires checkNodes == f.Keys + set v, w | v in f && w in Elements(f[v].input) :: w
    ensures checkNodes - f.Keys == {} <==> NoDangling(f)
  {
    if checkNodes - f.Keys == {} {
      forall v | v in f
        ensures Inputs(f)[v] <= f.Keys
      {
        forall w | w in Inputs(f)[v]
          ensures w in f
        {
          assert w in checkNodes;
          assert w !in checkNodes - f.Keys;
        }
      }
    } else {
      var w :| w in checkNodes - f.Keys;
      var v :| v in f && w in Elements(f[v].input);
      assert w in Inputs(f)[v];
    }
  }

  /** The field checks: every node has its task fields set. */
  method CheckFields(f: Flow, nodes: seq<Node>) returns (error: bool)
    requires Elements(nodes) == f.Keys
    ensures error <==> exists v :: v in f && !FieldsSet(f[v])
  {
    error := false;
    for i := 0 to |nodes|
      invariant error <==> exists j :: 0 <= j < i && nodes[j] in f && !FieldsSet(f[nodes[j]])
    {
      assert nodes[i] in Elements(nodes);
      if !FieldsSet(f[nodes[i]]) {
        error := true;
      }
    }
    if v :| v in f && !FieldsSet(f[v]) {
      assert v in Elements(nodes);
    }
  }

  /** No undefined and no repeated input, all fields set, and no entry leads to a cycle. */
  lemma AcceptedIff(f: Flow)
    ensures Accepted(f) <==>
      && (forall v, u :: v in f && u in f[v].input ==> u in f)
      && (forall v, i, j :: v in f && 0 <= i < j < |f[v].input| ==> f[v].input[i] != f[v].input[j])
      && (forall v :: v in f ==> f[v].binding.tool != "" && f[v].binding.task != "" && f[v].binding.taskmodule != "")
      && (forall e, c :: e in f && f[e].input == [] && Reaches(Outputs(f), e, c) ==> !OnCycle(Outputs(f), c))
  {
    WellFormedIff(f);
    hide Outputs, Reaches, OnCycle, WellFormed;
    assert forall e :: e in Entries(f) <==> e in f && f[e].input == [];
    assert forall e :: LoopFree(Outputs(f), e) <==> forall c :: Reaches(Outputs(f), e, c) ==> !OnCycle(Outputs(f), c);
    hide LoopFree;
  }

  lemma WellFormedIff(f: Flow)
    ensures WellFormed(f) <==>
      && (forall v, u :: v in f && u in f[v].input ==> u in f)
      && (forall v, i, j :: v in f && 0 <= i < j < |f[v].input| ==> f[v].input[i] != f[v].input[j])
  {
    forall v, u | NoDangling(f) && v in f && u in f[v].input
      ensures u in f
    {
      assert u in Inputs(f)[v];
    }
    assert NoDuplicates(f) <==> forall v :: v in f ==> Distinct(f[v].input);
  }

  /** `validate` accepts exactly the flows `Accepted` describes. */
  method Validate(f: Flow, nodes: seq<Node>, entries: seq<Node>, outs: map<Node, seq<Node>>) returns (valid: bool)
    requires Elements(nodes) == f.Keys && Elements(entries) == Entries(f) && Serves(outs, Outputs(f))
    ensures valid <==> Accepted(f)
    ensures valid <==>
      && (forall v, u :: v in f && u in f[v].input ==> u in f)
      && (forall v, i, j :: v in f && 0 <= i < j < |f[v].input| ==> f[v].input[i] != f[v].input[j])
      && (forall v :: v in f ==> f[v].binding.tool != "" && f[v].binding.task != "" && f[v].binding.taskmodule != "")
      && (forall e, c :: e in f && f[e].input == [] && Reaches(Outputs(f), e, c) ==> !OnCycle(Outputs(f), c))
  {
    AcceptedIff(f);
    hide WellFormed, LoopFree, FieldsSet, Outputs;
    var error := CheckEdges(f, nodes);
    var unset := CheckFields(f, nodes);
    error := error || unset;
    ghost var before := error;
    OutputsClosed(f);
    for i := 0 to |entries|
      invariant error <==> before || exists j :: 0 <= j < i && !LoopFree(Outputs(f), entries[j])
    {
      assert entries[i] in Elements(entries);
      var loop := FindLoopFrom(Outputs(f), outs, entries[i]);
      if loop.Some? {
        error := true;
      }
    }
    assert (exists j :: 0 <= j < |entries| && !LoopFree(Outputs(f), entries[j]))
      <==> exists e :: e in Entries(f) && !LoopFree(Outputs(f), e) by {
      if e :| e in Entries(f) && !LoopFree(Outputs(f), e) {
        assert e in Elements(entries);
      }
      assert forall j :: 0 <= j < |entries| ==> entries[j] in Elements(entries);
    }
    valid := !error;
  }

  lemma OutputsClosed(f: Flow)
    ensures Closed(Outputs(f)) && Outputs(f).Keys == f.Keys
  {
  }

  // --------------------------------------------------- what acceptance is worth

  /** Every node is fed, directly or not, by an entry. */
  ghost predicate EntryReachable(f: Flow) {
    forall v :: v in f ==> DependsOnSource(Inputs(f), v)
  }

  /** An accepted flow is acyclic exactly when every node can be reached from an entry. */
  lemma AcceptedAcyclicIff(f: Flow)
    requires Accepted(f)
    ensures Acyclic(Inputs(f)) <==> EntryReachable(f)
  {
    var g := Inputs(f);
    EntriesAreSources(f);
    if EntryReachable(f) {
      forall v | v in g
        ensures !OnCycle(g, v)
      {
        var e :| e in g && g[e] == {} && Reaches(g, v, e);
        ReachesReversed(g, v, e);
        assert e in Entries(f) && LoopFree(Outputs(f), e);
        CycleReversed(g, v);
      }
    }
    if Acyclic(g) {
      AcyclicSettles(g);
      forall v | v in f
        ensures DependsOnSource(g, v)
      {
        SettledDependOnSource(g, |g|, v);
      }
    }
  }

  /** Accepted flows with every node reachable from an entry can be scheduled, in both directions. */
  lemma AcceptedSchedulable(f: Flow, reverse: bool)
    requires Accepted(f) && EntryReachable(f)
    ensures Acyclic(Dependencies(f, reverse)) && Schedulable(Waits(f, reverse))
  {
    AcceptedAcyclicIff(f);
    AcyclicReversed(Inputs(f));
    ReverseTwice(Inputs(f));
    AcyclicSchedulable(Dependencies(f, reverse));
    WaitsDefined(f, reverse);
  }

  function UnreachableCycle(): Flow {
    var b := Binding("builtin", "nop", "siliconcompiler.tools.builtin/Nop");
    map[
      Node("start", "0") := NodeData([], b, map[]),
      Node("join", "0") := NodeData([Node("start", "0"), Node("loop", "0")], b, map[]),
      Node("loop", "0") := NodeData([Node("loop", "0")], b, map[])
    ]
  }

  lemma CycleBesideEntry(f: Flow, start: Node, join: Node, loop: Node)
    requires f.Keys == {start, join, loop} && start != join && join != loop && start != loop
    requires f[start].input == [] && f[join].input == [start, loop] && f[loop].input == [loop]
    ensures WellFormed(f) && Entries(f) == {start}
    ensures LoopFree(Outputs(f), start)
    ensures !Schedulable(Inputs(f))
  {
    var g, h := Inputs(f), Outputs(f);
    assert g[start] == {} && g[join] == {start, loop} && g[loop] == {loop};
    assert h[start] == {join} && h[join] == {};
    assert join in Settled(h, 1);
    forall c | Reaches(h, start, c)
      ensures !OnCycle(h, c)
    {
      var p :| WalkBetween(h, p, start, c);
      SettledAlong(h, 2, p);
      SettledNotOnCycle(h, 2 - |p| + 1, c);
    }
    ReachesStep(g, join, start);
    ReachesStep(g, join, loop);
    ReachesSelf(g, loop);
    CycleThrough(g, loop, loop);
    assert DependsOnSource(g, join);
  }

  /** A cycle no entry leads to is accepted even where it keeps the scheduler from ever ending. */
  lemma AcceptedNotSchedulable()
    ensures Accepted(UnreachableCycle()) && !Schedulable(Waits(UnreachableCycle(), false))
  {
    var start, join, loop := Node("start", "0"), Node("join", "0"), Node("loop", "0");
    CycleBesideEntry(UnreachableCycle(), start, join, loop);
  }
}
