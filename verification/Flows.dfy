/** Flowgraph values, the edits on them, and what each edit keeps. */
module Flows {
  import opened Ordering
  import opened Digraphs
  import opened Surgery

  /** A task instance of a flow: a step name and an index. */
  datatype Node = Node(step: string, index: string)

  /** The tool, task and taskmodule fields a node is bound to; unset fields are empty. */
  datatype Binding = Binding(tool: string, task: string, taskmodule: string)

  /** One node's schema: its ordered inputs, its binding, and its weights, goals and arguments. */
  datatype NodeData = NodeData(input: seq<Node>, binding: Binding, settings: map<string, string>)

  type Flow = map<Node, NodeData>

  // -------------------------------------------------------------- node order

  predicate NodeLess(a: Node, b: Node) {
    StringLess(a.step, b.step) || (a.step == b.step && StringLess(a.index, b.index))
  }

  lemma NodeOrder()
    ensures StrictTotalOrder(NodeLess)
  {
    StringOrder();
  }

  /** Nodes are sorted by step, and by index within a step. */
  lemma NodeLessIff(a: Node, b: Node)
    ensures NodeLess(a, b) <==>
      || (exists k: nat :: DiffersAt(a.step, b.step, k))
      || (a.step == b.step && exists k: nat :: DiffersAt(a.index, b.index, k))
  {
    StringLessIff(a.step, b.step);
    StringLessIff(a.index, b.index);
  }

  /** `sorted(set(...))` on nodes. */
  ghost function SortedNodes(s: set<Node>): (r: seq<Node>)
    ensures Elements(r) == s && Distinct(r)
  {
    NodeOrder();
    assert Lists(Sorted(s, NodeLess), s, NodeLess);
    var r :| Lists(r, s, NodeLess);
    r
  }

  lemma SortedNodesUnique(s: set<Node>, r: seq<Node>)
    requires Lists(r, s, NodeLess)
    ensures r == SortedNodes(s)
  {
    NodeOrder();
    SortedUnique(r, SortedNodes(s), s, NodeLess);
  }

  lemma SortedNodesList(s: set<Node>)
    ensures Lists(SortedNodes(s), s, NodeLess)
  {
  }

  method SortNodes(s: set<Node>) returns (r: seq<Node>)
    ensures r == SortedNodes(s)
  {
    NodeOrder();
    r := Sorted(s, NodeLess);
    SortedNodesUnique(s, r);
  }

  // ------------------------------------------------------------------ graphs

  /** Each node with the nodes it takes input from. */
  function Inputs(f: Flow): Graph<Node> {
    map v | v in f :: Elements(f[v].input)
  }

  /** Each node with the nodes that take input from it. */
  function Outputs(f: Flow): Graph<Node> {
    Reverse(Inputs(f))
  }

  /** Everything some node takes input from, defined or not. */
  function Referenced(f: Flow): set<Node> {
    set v, u | v in f && u in f[v].input :: u
  }

  /** All nodes of a flow and all nodes its input lists mention. */
  function Mentioned(f: Flow): set<Node> {
    f.Keys + Referenced(f)
  }

  /** Every edge comes from a defined node. */
  ghost predicate NoDangling(f: Flow) {
    Closed(Inputs(f))
  }

  ghost predicate NoDuplicates(f: Flow) {
    forall v :: v in f ==> Distinct(f[v].input)
  }

  ghost predicate WellFormed(f: Flow) {
    NoDangling(f) && NoDuplicates(f)
  }

  /** The graph walked in the direction of execution, or against it. */
  function Dependencies(f: Flow, reverse: bool): Graph<Node> {
    if reverse then Outputs(f) else Inputs(f)
  }

  /** Each node with its inputs that are defined and not pruned. */
  function Cut(f: Flow, prune: set<Node>): Graph<Node> {
    map v | v in f :: (Elements(f[v].input) * f.Keys) - prune
  }

  lemma CutIsClosed(f: Flow, prune: set<Node>)
    ensures Closed(Cut(f, prune)) && Cut(f, prune).Keys == f.Keys
  {
  }

  lemma CutNothing(f: Flow)
    requires NoDangling(f)
    ensures Cut(f, {}) == Inputs(f)
  {
    forall v | v in f
      ensures Cut(f, {})[v] == Inputs(f)[v]
    {
      assert Inputs(f)[v] <= f.Keys;
    }
  }

  /** The edges a walk can take: there is nothing behind an undefined input. */
  function Wired(f: Flow): (g: Graph<Node>)
    ensures Closed(g) && g.Keys == f.Keys
  {
    Cut(f, {})
  }

  /** Both ways, the edges between defined nodes. */
  lemma WiredBack(f: Flow)
    ensures Outputs(f) == Reverse(Wired(f)) && Reverse(Outputs(f)) == Wired(f)
    ensures Closed(Outputs(f)) && Outputs(f).Keys == f.Keys
  {
    forall v | v in f
      ensures Outputs(f)[v] == Reverse(Wired(f))[v]
    {
      assert forall u :: u in f ==> (v in Inputs(f)[u] <==> v in Wired(f)[u]);
    }
    assert Outputs(f).Keys == Reverse(Wired(f)).Keys;
    ReverseTwice(Wired(f));
  }

  function Steps(f: Flow): set<string> {
    set v | v in f :: v.step
  }

  function Entries(f: Flow): set<Node> {
    set v | v in f && f[v].input == []
  }

  function Exits(f: Flow): set<Node> {
    set v | v in f && forall w :: w in f ==> v !in f[w].input
  }

  lemma EntriesAreSources(f: Flow)
    ensures Entries(f) == set v | v in f && Inputs(f)[v] == {}
  {
    forall v | v in f
      ensures f[v].input == [] <==> Inputs(f)[v] == {}
    {
      if f[v].input != [] {
        assert f[v].input[0] in Inputs(f)[v];
      }
    }
  }

  lemma ExitsAreSinks(f: Flow)
    ensures Exits(f) == set v | v in f && Outputs(f)[v] == {}
  {
    forall v | v in f
      ensures (forall w :: w in f ==> v !in f[w].input) <==> Outputs(f)[v] == {}
    {
      if w :| w in f && v in f[w].input {
        assert w in Outputs(f)[v];
      }
      if w :| w in Outputs(f)[v] {
        assert v in f[w].input;
      }
    }
  }

  // -------------------------------------------------------------------- node

  function Bind(f: Flow, n: Node, b: Binding): Flow {
    f[n := if n in f then f[n].(binding := b) else NodeData([], b, map[])]
  }

  lemma BindKeepsEdges(f: Flow, n: Node, b: Binding)
    requires WellFormed(f)
    ensures WellFormed(Bind(f, n, b))
    ensures forall v :: v in f ==> Bind(f, n, b)[v].input == f[v].input
    ensures n !in f ==> Inputs(Bind(f, n, b)) == Inputs(f)[n := {}]
  {
    var g := Bind(f, n, b);
    assert n !in f ==> Inputs(g)[n] == {};
    forall v | v in g
      ensures Inputs(g)[v] <= g.Keys
    {
      if v in f {
        assert Inputs(g)[v] == Inputs(f)[v];
      }
    }
  }

  // -------------------------------------------------------------------- edge

  function AddEdge(f: Flow, tail: Node, head: Node): Flow
    requires head in f
  {
    if tail in f[head].input then f
    else f[head := f[head].(input := f[head].input + [tail])]
  }

  lemma AddEdgeKeeps(f: Flow, tail: Node, head: Node)
    requires WellFormed(f) && tail in f && head in f
    ensures WellFormed(AddEdge(f, tail, head))
    ensures Inputs(AddEdge(f, tail, head)) == Inputs(f)[head := Inputs(f)[head] + {tail}]
  {
    var g := AddEdge(f, tail, head);
    assert Elements(f[head].input + [tail]) == Elements(f[head].input) + {tail};
    forall v | v in g
      ensures Inputs(g)[v] == if v == head then Inputs(f)[head] + {tail} else Inputs(f)[v]
    {
    }
  }

  /** An edge closes a cycle exactly when its head already leads to its tail. */
  lemma AddEdgeAcyclic(f: Flow, tail: Node, head: Node)
    requires WellFormed(f) && tail in f && head in f && Acyclic(Inputs(f))
    ensures Acyclic(Inputs(AddEdge(f, tail, head))) <==> !Reaches(Inputs(f), tail, head)
  {
    var g := Inputs(f);
    var h := Inputs(AddEdge(f, tail, head));
    AddEdgeKeeps(f, tail, head);
    if Reaches(g, tail, head) {
      var p :| WalkBetween(g, p, tail, head);
      SubgraphWalk(g, h, p);
      assert WalkBetween(h, p, tail, head);
      CycleThrough(h, head, tail);
    }
    if !Acyclic(h) {
      var v :| v in h && OnCycle(h, v);
      NewCycleUsesEdge(g, h, tail, head, v);
    }
  }

  lemma SubgraphWalk(g: Graph<Node>, h: Graph<Node>, p: seq<Node>)
    requires forall v :: v in g ==> v in h && g[v] <= h[v]
    requires IsWalk(g, p)
    ensures IsWalk(h, p)
  {
  }

  lemma NewCycleUsesEdge(g: Graph<Node>, h: Graph<Node>, tail: Node, head: Node, v: Node)
    requires Acyclic(g) && head in g && h == g[head := g[head] + {tail}]
    requires OnCycle(h, v)
    ensures Reaches(g, tail, head)
  {
    var p :| |p| >= 2 && WalkBetween(h, p, v, v);
    if IsWalk(g, p) {
      assert p[0] in g && OnCycle(g, v);
      assert false;
    }
    if Reaches(h, tail, head) {
      var q :| WalkBetween(h, q, tail, head);
      AvoidEdge(g, h, tail, head, q, head);
    } else {
      var i :| 0 <= i < |p| - 1 && !(p[i] in g && p[i + 1] in g[p[i]]);
      assert p[i] in h && p[i + 1] in h[p[i]];
      WalkSlice(h, p, i + 1, |p| - 1);
      WalkSlice(h, p, 0, i);
      assert Reaches(h, tail, v) && Reaches(h, v, head);
      ReachesTransitive(h, tail, v, head);
    }
  }

  /** A walk from the tail to `w` can be cut to one that does not use the new edge. */
  lemma {:induction false} AvoidEdge(g: Graph<Node>, h: Graph<Node>, tail: Node, head: Node, q: seq<Node>, w: Node)
    requires head in g && h == g[head := g[head] + {tail}]
    requires WalkBetween(h, q, tail, w)
    ensures Reaches(g, tail, w)
    decreases |q|
  {
    if |q| == 1 {
      ReachesSelf(g, tail);
    } else {
      var x := q[|q| - 2];
      assert q[|q| - 2] in h && q[|q| - 2 + 1] in h[q[|q| - 2]];
      WalkSlice(h, q, 0, |q| - 2);
      assert WalkBetween(h, q[0..|q| - 2 + 1], tail, x);
      if w in g[x] {
        AvoidEdge(g, h, tail, head, q[0..|q| - 2 + 1], x);
        ReachesStep(g, x, w);
        ReachesTransitive(g, tail, x, w);
      } else {
        ReachesSelf(g, tail);
      }
    }
  }

  // ------------------------------------------------------------- remove_node

  function Without(s: seq<Node>, n: Node): seq<Node> {
    if s == [] then [] else (if s[0] == n then [] else [s[0]]) + Without(s[1..], n)
  }

  lemma {:induction false} WithoutElements(s: seq<Node>, n: Node)
    ensures Elements(Without(s, n)) == Elements(s) - {n}
  {
    if s != [] {
      WithoutElements(s[1..], n);
      assert s == [s[0]] + s[1..];
      assert Elements(s) == {s[0]} + Elements(s[1..]);
      assert Elements(Without(s, n)) == (if s[0] == n then {} else {s[0]}) + Elements(Without(s[1..], n));
    }
  }

  /** The input list of a consumer once `n` is replaced by the inputs `n` had. */
  ghost function Rewired(inputs: seq<Node>, n: Node, replacement: seq<Node>): seq<Node> {
    if n !in inputs then inputs else SortedNodes(Elements(Without(inputs, n) + replacement))
  }

  ghost function RemoveNode(f: Flow, n: Node): Flow
    requires n in f
  {
    map v | v in f && v != n :: f[v].(input := Rewired(f[v].input, n, f[n].input))
  }

  lemma RemoveContracts(f: Flow, n: Node)
    requires n in f
    ensures Inputs(RemoveNode(f, n)) == Contract(Inputs(f), n)
    ensures NoDuplicates(f) ==> NoDuplicates(RemoveNode(f, n))
  {
    var g := RemoveNode(f, n);
    forall v | v in g
      ensures Inputs(g)[v] == Contract(Inputs(f), n)[v]
    {
      WithoutElements(f[v].input, n);
      assert Elements(Without(f[v].input, n) + f[n].input)
          == Elements(Without(f[v].input, n)) + Elements(f[n].input);
    }
  }

  /** Removing a node leaves a dangling edge exactly when the node feeds itself and another node. */
  lemma RemoveDanglingIff(f: Flow, n: Node)
    requires WellFormed(f) && n in f
    ensures NoDuplicates(RemoveNode(f, n))
    ensures WellFormed(RemoveNode(f, n))
        <==> !(n in f[n].input && exists v :: v in f && v != n && n in f[v].input)
  {
    RemoveContracts(f, n);
    ContractClosed(Inputs(f), n);
    if v :| v in f && v != n && n in f[v].input {
      assert v in Inputs(f) && n in Inputs(f)[v];
    }
    if v :| v in Inputs(f) && v != n && n in Inputs(f)[v] {
      assert v in f && n in f[v].input;
    }
  }

  /**
   * Removing a node keeps every connection between the others, whatever the flow; if the node did not
   * feed itself, well-formedness too, and acyclicity both ways.
   */
  lemma RemoveKeepsConnections(f: Flow, n: Node)
    requires n in f
    ensures forall u, v :: u != n && v != n ==>
      (Reaches(Inputs(RemoveNode(f, n)), u, v) <==> Reaches(Inputs(f), u, v))
    ensures n !in f[n].input ==> (WellFormed(f) ==> WellFormed(RemoveNode(f, n)))
    ensures n !in f[n].input ==> (Acyclic(Inputs(RemoveNode(f, n))) <==> Acyclic(Inputs(f)))
  {
    if WellFormed(f) {
      RemoveDanglingIff(f, n);
    }
    RemoveContracts(f, n);
    forall u, v | u != n && v != n
      ensures Reaches(Inputs(RemoveNode(f, n)), u, v) <==> Reaches(Inputs(f), u, v)
    {
      ContractReaches(Inputs(f), n, u, v);
    }
    if n !in f[n].input {
      ContractAcyclic(Inputs(f), n);
    }
  }

  // ------------------------------------------------------------- insert_node

  /** `list.remove`: drops the first occurrence. */
  function RemoveFirst(s: seq<Node>, n: Node): seq<Node>
    requires n in s
  {
    if s[0] == n then s[1..] else [s[0]] + RemoveFirst(s[1..], n)
  }

  lemma {:induction false} RemoveFirstElements(s: seq<Node>, n: Node)
    requires n in s && Distinct(s)
    ensures Elements(RemoveFirst(s, n)) == Elements(s) - {n}
    ensures Distinct(RemoveFirst(s, n))
  {
    assert s == [s[0]] + s[1..];
    assert Elements(s) == {s[0]} + Elements(s[1..]);
    if s[0] != n {
      RemoveFirstElements(s[1..], n);
      var r := RemoveFirst(s[1..], n);
      assert Elements([s[0]] + r) == {s[0]} + Elements(r);
      assert s[0] !in Elements(r);
      assert forall i :: 0 <= i < |r| ==> r[i] in Elements(r);
    } else {
      assert forall i :: 0 <= i < |s[1..]| ==> s[1..][i] == s[i + 1];
    }
  }

  function Redirect(inputs: seq<Node>, n: Node, before: Node): seq<Node> {
    if before in inputs then RemoveFirst(inputs, before) + [n] else inputs
  }

  /** The new node takes over all consumers of `before` and has `before` as its one input. */
  function InsertNode(f: Flow, n: Node, b: Binding, before: Node): Flow {
    var g := Bind(f, n, b);
    var h := map v | v in g :: g[v].(input := Redirect(g[v].input, n, before));
    h[n := h[n].(input := [before])]
  }

  lemma RedirectElements(s: seq<Node>, n: Node, before: Node)
    requires Distinct(s)
    ensures Distinct(Redirect(s, n, before)) <==> !(before in s && n in s && n != before)
    ensures Elements(Redirect(s, n, before)) == if before in s then Elements(s) - {before} + {n} else Elements(s)
  {
    if before in s {
      RemoveFirstElements(s, before);
      var r := RemoveFirst(s, before);
      assert Elements(r + [n]) == Elements(r) + {n};
      assert forall i :: 0 <= i < |r| ==> r[i] in Elements(r);
      assert n in r <==> n in Elements(r);
      if n in r {
        var i :| 0 <= i < |r| && r[i] == n;
        assert (r + [n])[i] == (r + [n])[|r|];
      }
    }
  }

  lemma InsertNodes(f: Flow, n: Node, b: Binding, before: Node)
    requires before in f
    ensures var g := InsertNode(f, n, b, before);
      && g.Keys == f.Keys + {n} && g[n].input == [before]
      && forall v :: v in f && v != n ==> g[v].input == Redirect(f[v].input, n, before)
  {
    hide Redirect;
  }

  /** Inserting puts the node between `before` and its consumers, whether it is new or replaces an old one. */
  lemma InsertInterposes(f: Flow, n: Node, b: Binding, before: Node)
    requires WellFormed(f) && before in f
    ensures Inputs(InsertNode(f, n, b, before)) == Interpose(Inputs(f), n, before)
    ensures NoDangling(InsertNode(f, n, b, before))
  {
    InsertNodes(f, n, b, before);
    hide Redirect, InsertNode;
    var g := InsertNode(f, n, b, before);
    assert Elements([before]) == {before};
    forall v | v in g
      ensures Inputs(g)[v] == Interpose(Inputs(f), n, before)[v] <= g.Keys
    {
      if v != n {
        RedirectElements(f[v].input, n, before);
        assert Inputs(f)[v] <= f.Keys;
      }
    }
  }

  /** Insertion repeats an input exactly when the node is old and shares a consumer with `before`. */
  lemma InsertWellFormedIff(f: Flow, n: Node, b: Binding, before: Node)
    requires WellFormed(f) && before in f
    ensures WellFormed(InsertNode(f, n, b, before))
      <==> n == before || forall c :: c in f && c != n && before in f[c].input ==> n !in f[c].input
  {
    InsertInterposes(f, n, b, before);
    InsertNodes(f, n, b, before);
    hide Redirect, InsertNode;
    forall c | c in f && c != n
      ensures Distinct(Redirect(f[c].input, n, before)) <==> !(before in f[c].input && n in f[c].input && n != before)
    {
      RedirectElements(f[c].input, n, before);
    }
  }

  /**
   * What is connected after an insertion, among the other nodes: what was, without the inserted node,
   * and what led to that node with what `before` led to without it.
   */
  lemma InsertReachesIff(f: Flow, n: Node, b: Binding, before: Node, u: Node, v: Node)
    requires WellFormed(f) && before in f && u != n && v != n
    ensures var g := Inputs(f);
      Reaches(Inputs(InsertNode(f, n, b, before)), u, v) <==>
        ReachesAvoiding(g, u, v, n) || (Reaches(g, u, n) && ReachesAvoiding(g, before, v, n))
  {
    InsertInterposes(f, n, b, before);
    InterposeReachesIff(Inputs(f), n, before, u, v);
  }

  /**
   * No connection at all is lost exactly when everything the node took input from can be reached
   * from `before` without passing through the node; for a new node there is nothing to reach.
   */
  lemma InsertKeepsIff(f: Flow, n: Node, b: Binding, before: Node)
    requires WellFormed(f) && before in f
    ensures (forall u, v :: Reaches(Inputs(f), u, v) ==> Reaches(Inputs(InsertNode(f, n, b, before)), u, v))
      <==> (n in f ==> forall x :: x in f[n].input && x != n ==> ReachesAvoiding(Inputs(f), before, x, n))
  {
    InsertInterposes(f, n, b, before);
    InterposeKeepsIff(Inputs(f), n, before);
    assert n in f ==> forall x :: x in f[n].input <==> x in Inputs(f)[n];
  }

  /** An insertion into an acyclic flow closes a cycle exactly when `before` already depends on the node. */
  lemma InsertAcyclicIff(f: Flow, n: Node, b: Binding, before: Node)
    requires WellFormed(f) && before in f && Acyclic(Inputs(f))
    ensures Acyclic(Inputs(InsertNode(f, n, b, before))) <==> !Reaches(Inputs(f), before, n)
  {
    InsertInterposes(f, n, b, before);
    InterposeAcyclicIff(Inputs(f), n, before);
  }

  /** Inserting a new node keeps the flow well-formed and every connection between the old nodes. */
  lemma InsertKeepsConnections(f: Flow, n: Node, b: Binding, before: Node)
    requires WellFormed(f) && before in f && n !in f
    ensures WellFormed(InsertNode(f, n, b, before))
    ensures forall u, v :: u != n && v != n ==>
      (Reaches(Inputs(InsertNode(f, n, b, before)), u, v) <==> Reaches(Inputs(f), u, v))
    ensures Acyclic(Inputs(InsertNode(f, n, b, before))) <==> Acyclic(Inputs(f))
  {
    InsertWellFormedIff(f, n, b, before);
    assert forall c :: c in f ==> n !in Inputs(f)[c];
    InsertInterposes(f, n, b, before);
    forall u, v | u != n && v != n
      ensures Reaches(Inputs(InsertNode(f, n, b, before)), u, v) <==> Reaches(Inputs(f), u, v)
    {
      InterposeReaches(Inputs(f), n, before, u, v);
    }
    InterposeAcyclic(Inputs(f), n, before);
  }

  /** Removing the node just inserted gives back the edges; only consumers' lists are re-sorted. */
  lemma RemoveInserted(f: Flow, n: Node, b: Binding, before: Node)
    requires WellFormed(f) && before in f && n !in f
    ensures var g := RemoveNode(InsertNode(f, n, b, before), n);
      && Inputs(g) == Inputs(f) && g.Keys == f.Keys
      && forall v :: v in f ==>
        g[v] == f[v].(input := if before in f[v].input then SortedNodes(Elements(f[v].input)) else f[v].input)
  {
    var h := InsertNode(f, n, b, before);
    var g := RemoveNode(h, n);
    InsertInterposes(f, n, b, before);
    RemoveContracts(h, n);
    ContractInterposed(Inputs(f), n, before);
    assert h[n].input == [before];
    forall v | v in f
      ensures g[v] == f[v].(input := if before in f[v].input then SortedNodes(Elements(f[v].input)) else f[v].input)
    {
      assert n !in Inputs(f)[v];
      if before in f[v].input {
        assert h[v].input == RemoveFirst(f[v].input, before) + [n];
        assert n in h[v].input;
        assert Elements(g[v].input) == Inputs(g)[v] == Elements(f[v].input);
      } else {
        assert h[v].input == f[v].input;
      }
    }
  }

  /** A flow a -> b with a third node c. */
  function ThreeNodes(): Flow {
    var none := Binding("", "", "");
    map[Node("a", "0") := NodeData([], none, map[]), Node("b", "0") := NodeData([Node("a", "0")], none, map[]),
      Node("c", "0") := NodeData([], none, map[])]
  }

  lemma ThreeNodesAre()
    ensures var u, n, before, f := Node("a", "0"), Node("b", "0"), Node("c", "0"), ThreeNodes();
      && WellFormed(f) && f.Keys == {u, n, before} && Acyclic(Inputs(f)) && Reaches(Inputs(f), n, u)
      && var g := InsertNode(f, n, Binding("", "", ""), before);
         n in g && before in g && g[n].input == [before] && g[before].input == []
  {
    var u, n, before, f := Node("a", "0"), Node("b", "0"), Node("c", "0"), ThreeNodes();
    assert Inputs(f)[n] == {u} && Inputs(f)[u] == {} && Inputs(f)[before] == {};
    hide InsertNode, Acyclic;
    OneEdgeAcyclic(Inputs(f), u);
    ReachesStep(Inputs(f), n, u);
  }

  /** A node that already exists loses the inputs it had when it is inserted again. */
  lemma InsertExistingLosesInputs()
    ensures exists f: Flow, n: Node, b: Binding, before: Node ::
      && WellFormed(f) && before in f && n in f && n != before && Acyclic(Inputs(f))
      && exists u :: u in f && Reaches(Inputs(f), n, u) && !Reaches(Inputs(InsertNode(f, n, b, before)), n, u)
  {
    var none := Binding("", "", "");
    var u, n, before, f := Node("a", "0"), Node("b", "0"), Node("c", "0"), ThreeNodes();
    ThreeNodesAre();
    hide InsertNode, ThreeNodes, Acyclic, WellFormed;
    var g := Inputs(InsertNode(f, n, none, before));
    assert g[n] == {before} && g[before] == {};
    if p :| WalkBetween(g, p, n, u) {
      assert p[0] in g && p[0 + 1] in g[p[0]];
      WalkSlice(g, p, 1, |p| - 1);
      SourceReachesOnlyItself(g, before, u);
      assert false;
    }
  }

  lemma OneEdgeAcyclic(g: Graph<Node>, u: Node)
    requires u in g && g[u] == {} && forall v :: v in g ==> g[v] <= {u}
    ensures Acyclic(g)
  {
    forall v | v in g
      ensures !OnCycle(g, v)
    {
      if OnCycle(g, v) {
        var w := CycleFirstStep(g, v);
        SourceReachesOnlyItself(g, u, v);
      }
    }
  }

  lemma SourceReachesOnlyItself(g: Graph<Node>, u: Node, v: Node)
    requires u in g && g[u] == {} && Reaches(g, u, v)
    ensures u == v
  {
    var p :| WalkBetween(g, p, u, v);
    WalkFirstStep(g, p);
  }
}
