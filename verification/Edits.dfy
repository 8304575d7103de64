/** The editing interface of a flow as a function on flows, and what every run of edits keeps. */
module Edits {
  import opened Ordering
  import opened Digraphs
  import opened Surgery
  import opened Flows
  import opened Renaming
  import opened Composition

  predicate ValidStep(step: string) {
    && step != "*" && step != "default" && !("sc_" <= step) && '/' !in step
  }

  predicate ValidIndex(index: string) {
    index != "*" && index != "default" && '/' !in index
  }

  datatype Edit =
    | AddNode(node: Node, binding: Binding)
    | Connect(tail: Node, head: Node)
    | Remove(node: Node)
    | RemoveAll(step: string)
    | Insert(node: Node, binding: Binding, before: Node)
    | Rename(step: string, newStep: string)
    | Instantiate(sub: Flow, prefix: Prefix)

  /** The call goes through; otherwise it raises. */
  ghost predicate Accepts(f: Flow, e: Edit) {
    match e
    case AddNode(n, _) => ValidStep(n.step) && ValidIndex(n.index)
    case Connect(tail, head) => tail in f && head in f
    case Remove(n) => n in f
    case RemoveAll(step) => step in Steps(f)
    case Insert(n, _, before) => before in f && ValidStep(n.step) && ValidIndex(n.index)
    case Rename(step, newStep) => step in Steps(f) && (newStep == step || (ValidStep(newStep) && newStep !in Steps(f)))
    case Instantiate(sub, prefix) => StepsApart(f, sub, prefix)
  }

  ghost function RemoveSeq(f: Flow, nodes: seq<Node>): Flow {
    if nodes == [] then f
    else RemoveSeq(if nodes[0] in f then RemoveNode(f, nodes[0]) else f, nodes[1..])
  }

  function NodesOf(f: Flow, step: string): set<Node> {
    set v | v in f && v.step == step
  }

  /** The flow after an accepted call. */
  ghost function Apply(f: Flow, e: Edit): Flow
    requires Accepts(f, e)
  {
    match e
    case AddNode(n, b) => Bind(f, n, b)
    case Connect(tail, head) => AddEdge(f, tail, head)
    case Remove(n) => RemoveNode(f, n)
    case RemoveAll(step) => RemoveSeq(f, SortedNodes(NodesOf(f, step)))
    case Insert(n, b, before) => InsertNode(f, n, b, before)
    case Rename(step, newStep) => if newStep == step then f else RenameStep(f, step, newStep)
    case Instantiate(sub, prefix) => Graft(f, sub, prefix)
  }

  // --------------------------------------------------------- what edits do

  /** Nothing of the node but its inputs is changed. */
  ghost predicate SameTask(a: NodeData, b: NodeData) {
    a.binding == b.binding && a.settings == b.settings
  }

  /** The first `x` is gone, and `y` is at the end. */
  ghost predicate IsMoved(before: seq<Node>, x: Node, y: Node, after: seq<Node>) {
    exists i :: 0 <= i < |before| && before[i] == x && x !in before[..i]
      && after == before[..i] + before[i + 1..] + [y]
  }

  /** `v` is `u` with its step renamed. */
  ghost predicate IsRenamed(step: string, newStep: string, u: Node, v: Node) {
    v == if u.step == step then Node(newStep, u.index) else u
  }

  /** `v` is `u` under the name it has inside another flow. */
  ghost predicate IsPrefixed(prefix: Prefix, u: Node, v: Node) {
    v == match prefix
      case NoPrefix => u
      case Prefix(name) => Node(name + "." + u.step, u.index)
  }

  ghost function Renames(step: string, newStep: string): (Node, Node) -> bool {
    (u, v) => IsRenamed(step, newStep, u, v)
  }

  ghost function Prefixes(prefix: Prefix): (Node, Node) -> bool {
    (u, v) => IsPrefixed(prefix, u, v)
  }

  /** A copy of `a` whose inputs have the new names. */
  ghost predicate IsCopy(named: (Node, Node) -> bool, a: NodeData, b: NodeData) {
    SameTask(a, b) && |b.input| == |a.input| && forall i :: 0 <= i < |a.input| ==> named(a.input[i], b.input[i])
  }

  /** Every node of `f` has a copy under its new name, and there are no other nodes but those in `others`. */
  ghost predicate AreCopies(named: (Node, Node) -> bool, f: Flow, g: Flow, others: set<Node>) {
    && (forall u :: u in f ==> exists v :: v in g && named(u, v) && IsCopy(named, f[u], g[v]))
    && (forall v :: v in g ==> v in others || exists u :: u in f && named(u, v))
  }

  /** What a call does to the flow, read off the two flows. */
  ghost predicate Does(f: Flow, e: Edit, g: Flow)
    requires Accepts(f, e)
  {
    match e
    case AddNode(n, b) =>
      && g.Keys == f.Keys + {n} && (forall v :: v in f && v != n ==> g[v] == f[v])
      && g[n] == if n in f then NodeData(f[n].input, b, f[n].settings) else NodeData([], b, map[])
    case Connect(tail, head) =>
      && g.Keys == f.Keys && (forall v :: v in f && v != head ==> g[v] == f[v]) && SameTask(f[head], g[head])
      && g[head].input == f[head].input + if tail in f[head].input then [] else [tail]
    case Remove(n) =>
      && g.Keys == f.Keys - {n}
      && forall v :: v in g ==>
        && SameTask(f[v], g[v]) && (n !in f[v].input ==> g[v].input == f[v].input)
        && (n in f[v].input ==>
          && Increasing(g[v].input, NodeLess)
          && forall x :: x in g[v].input <==> (x in f[v].input && x != n) || x in f[n].input)
    case RemoveAll(step) =>
      && (forall v :: v in g <==> v in f && v.step != step)
      && forall v :: v in g ==>
        SameTask(f[v], g[v])
          && ((forall x :: x in f[v].input ==> x !in f || x.step != step) ==> g[v].input == f[v].input)
    case Insert(n, b, before) =>
      && g.Keys == f.Keys + {n} && g[n] == NodeData([before], b, if n in f then f[n].settings else map[])
      && forall v :: v in f && v != n ==>
        && SameTask(f[v], g[v])
        && if before in f[v].input then IsMoved(f[v].input, before, n, g[v].input) else g[v].input == f[v].input
    case Rename(step, newStep) => AreCopies(Renames(step, newStep), f, g, {})
    case Instantiate(sub, prefix) =>
      && (forall v :: v in f ==> v in g && g[v] == f[v])
      && AreCopies(Prefixes(prefix), sub, g, f.Keys)
  }

  lemma RewiredIs(inputs: seq<Node>, n: Node, replacement: seq<Node>, x: Node)
    requires n in inputs
    ensures Increasing(Rewired(inputs, n, replacement), NodeLess)
    ensures x in Rewired(inputs, n, replacement) <==> (x in inputs && x != n) || x in replacement
  {
    var rest := Without(inputs, n);
    var s := Elements(rest + replacement);
    SortedNodesList(s);
    WithoutElements(inputs, n);
    assert x in SortedNodes(s) <==> x in Elements(SortedNodes(s));
    assert x in rest <==> x in Elements(rest);
    assert x in rest + replacement <==> x in rest || x in replacement;
  }

  lemma RemoveDoes(f: Flow, n: Node)
    requires n in f
    ensures Does(f, Remove(n), Flows.RemoveNode(f, n))
  {
    var g := Flows.RemoveNode(f, n);
    assert forall v :: v in g ==> g[v] == f[v].(input := Rewired(f[v].input, n, f[n].input));
    assert forall v :: v in g && n !in f[v].input ==> g[v].input == f[v].input;
    hide Rewired, Flows.RemoveNode, Increasing;
    forall v | v in g && n in f[v].input
      ensures Increasing(g[v].input, NodeLess)
      ensures forall x :: x in g[v].input <==> (x in f[v].input && x != n) || x in f[n].input
    {
      forall x
        ensures Increasing(g[v].input, NodeLess)
        ensures x in g[v].input <==> (x in f[v].input && x != n) || x in f[n].input
      {
        RewiredIs(f[v].input, n, f[n].input, x);
      }
      RewiredIs(f[v].input, n, f[n].input, n);
    }
  }

  lemma {:induction false} RemoveSeqDoes(f: Flow, nodes: seq<Node>)
    ensures var g := RemoveSeq(f, nodes);
      && (forall v :: v in g <==> v in f && v !in nodes)
      && forall v :: v in g ==>
        SameTask(f[v], g[v]) && ((forall x :: x in f[v].input ==> x !in f || x !in nodes) ==> g[v].input == f[v].input)
  {
    if nodes != [] {
      var h := if nodes[0] in f then Flows.RemoveNode(f, nodes[0]) else f;
      RemoveSeqDoes(h, nodes[1..]);
      assert forall x :: x in nodes <==> x == nodes[0] || x in nodes[1..];
    }
  }

  lemma {:induction false} RemoveFirstAt(s: seq<Node>, x: Node) returns (i: nat)
    requires x in s
    ensures i < |s| && s[i] == x && x !in s[..i] && RemoveFirst(s, x) == s[..i] + s[i + 1..]
  {
    if s[0] == x {
      i := 0;
    } else {
      i := RemoveFirstAt(s[1..], x);
      assert s[..i + 1] == [s[0]] + s[1..][..i];
      i := i + 1;
    }
  }

  lemma RemoveFirstMoves(s: seq<Node>, x: Node, y: Node)
    requires x in s
    ensures IsMoved(s, x, y, RemoveFirst(s, x) + [y])
  {
    var i := RemoveFirstAt(s, x);
    assert s[i] == x;
  }

  lemma InsertDoes(f: Flow, n: Node, b: Binding, before: Node)
    requires before in f && ValidStep(n.step) && ValidIndex(n.index)
    ensures Does(f, Insert(n, b, before), Flows.InsertNode(f, n, b, before))
  {
    var g := Flows.InsertNode(f, n, b, before);
    forall v | v in f && v != n && before in f[v].input
      ensures IsMoved(f[v].input, before, n, g[v].input)
    {
      RemoveFirstMoves(f[v].input, before, n);
    }
  }

  /** A relabelled flow is a copy under the new names. */
  lemma RelabelCopies(f: Flow, r: Node -> Node, named: (Node, Node) -> bool, g: Flow, others: set<Node>)
    requires InjectiveOn(r, f.Keys) && forall u :: named(u, r(u))
    requires forall v :: v in Relabel(f, r) ==> v in g && g[v] == Relabel(f, r)[v]
    requires forall v :: v in g ==> v in others || v in Relabel(f, r)
    ensures AreCopies(named, f, g, others)
  {
    RelabelData(f, r);
    forall u | u in f
      ensures exists v :: v in g && named(u, v) && IsCopy(named, f[u], g[v])
    {
      assert IsCopy(named, f[u], g[r(u)]);
    }
    forall v | v in g && v !in others
      ensures exists u :: u in f && named(u, v)
    {
      var u :| u in f && r(u) == v;
    }
  }

  lemma SameStepDoes(f: Flow, step: string)
    requires step in Steps(f)
    ensures Does(f, Rename(step, step), f)
  {
    var named := Renames(step, step);
    forall u | u in f
      ensures named(u, u) && IsCopy(named, f[u], f[u])
    {
    }
    hide IsCopy, IsRenamed;
  }

  lemma RenamerNames(f: Flow, step: string, newStep: string)
    requires newStep !in Steps(f)
    ensures InjectiveOn(Renamer(step, newStep), f.Keys)
    ensures RenameStep(f, step, newStep) == Relabel(f, Renamer(step, newStep))
    ensures forall u :: IsRenamed(step, newStep, u, Renamer(step, newStep)(u))
  {
    RenamerInjective(f, step, newStep);
  }

  lemma RenamedCopies(f: Flow, step: string, newStep: string)
    requires newStep !in Steps(f)
    ensures AreCopies(Renames(step, newStep), f, RenameStep(f, step, newStep), {})
  {
    hide Relabel, Renamer, RenameStep, AreCopies, IsRenamed;
    RenamerNames(f, step, newStep);
    assert forall u :: Renames(step, newStep)(u, Renamer(step, newStep)(u));
    RelabelCopies(f, Renamer(step, newStep), Renames(step, newStep), RenameStep(f, step, newStep), {});
  }

  lemma CopiesDo(f: Flow, e: Edit, g: Flow)
    requires e.Rename? && Accepts(f, e) && AreCopies(Renames(e.step, e.newStep), f, g, {})
    ensures Does(f, e, g)
  {
    hide AreCopies, Renames, Steps, ValidStep;
  }

  lemma RenameDoes(f: Flow, step: string, newStep: string)
    requires Accepts(f, Rename(step, newStep)) && newStep != step
    ensures Does(f, Rename(step, newStep), Apply(f, Rename(step, newStep)))
  {
    hide Steps, ValidStep, RenameStep, AreCopies, Renames, Does;
    RenamedCopies(f, step, newStep);
    CopiesDo(f, Rename(step, newStep), RenameStep(f, step, newStep));
  }

  lemma InstantiateDoes(f: Flow, sub: Flow, prefix: Prefix)
    requires StepsApart(f, sub, prefix)
    ensures Does(f, Instantiate(sub, prefix), Graft(f, sub, prefix))
  {
    InstanceApart(f, sub, prefix);
    PrefixerInjective(prefix, sub.Keys);
    RelabelCopies(sub, Prefixer(prefix), Prefixes(prefix), Graft(f, sub, prefix), f.Keys);
  }

  lemma RemoveAllDoes(f: Flow, step: string)
    requires step in Steps(f)
    ensures Does(f, RemoveAll(step), RemoveSeq(f, SortedNodes(NodesOf(f, step))))
  {
    var nodes := SortedNodes(NodesOf(f, step));
    assert forall v :: v in nodes <==> v in Elements(nodes);
    RemoveSeqDoes(f, nodes);
  }

  lemma ConnectDoes(f: Flow, tail: Node, head: Node)
    requires tail in f && head in f
    ensures Does(f, Connect(tail, head), Flows.AddEdge(f, tail, head))
  {
  }

  lemma AddNodeDoes(f: Flow, n: Node, b: Binding)
    requires ValidStep(n.step) && ValidIndex(n.index)
    ensures Does(f, AddNode(n, b), Bind(f, n, b))
  {
  }

  /** Every accepted call does to the flow what it is for. */
  lemma EditDoes(f: Flow, e: Edit)
    requires Accepts(f, e)
    ensures Does(f, e, Apply(f, e))
  {
    hide Does, RemoveSeq, NodesOf, Bind, Flows.InsertNode, RenameStep, Graft, Steps, ValidStep, ValidIndex, StepsApart;
    match e
    case AddNode(n, b) => AddNodeDoes(f, n, b);
    case Connect(tail, head) => ConnectDoes(f, tail, head);
    case Remove(n) => RemoveDoes(f, n);
    case RemoveAll(step) => RemoveAllDoes(f, step);
    case Insert(n, b, before) => InsertDoes(f, n, b, before);
    case Rename(step, newStep) =>
      if newStep == step {
        SameStepDoes(f, step);
      } else {
        RenameDoes(f, step, newStep);
      }
    case Instantiate(sub, prefix) => InstantiateDoes(f, sub, prefix);
  }

  // --------------------------------------------------- what is refused

  /** A name that stands for all names, or one that cannot be a directory name. */
  ghost predicate IsReserved(name: string) {
    name == "*" || name == "default" || exists a, b :: name == a + "/" + b
  }

  lemma SlashIff(s: string)
    ensures '/' in s <==> exists a, b :: s == a + "/" + b
  {
    if '/' in s {
      var i :| 0 <= i < |s| && s[i] == '/';
      assert s == s[..i] + "/" + s[i + 1..];
    }
    if a, b :| s == a + "/" + b {
      assert s[|a|] == '/';
    }
  }

  lemma ValidIff(s: string)
    ensures ValidStep(s) <==> !IsReserved(s) && forall t :: s != "sc_" + t
    ensures ValidIndex(s) <==> !IsReserved(s)
  {
    SlashIff(s);
    if "sc_" <= s {
      assert s == "sc_" + s[3..];
    }
  }

  /** What is accepted, read off the flow and the names. */
  lemma AcceptsIff(f: Flow, e: Edit)
    ensures Accepts(f, e) <==>
      match e
      case AddNode(n, _) => !IsReserved(n.step) && !IsReserved(n.index) && forall t :: n.step != "sc_" + t
      case Connect(tail, head) => tail in f && head in f
      case Remove(n) => n in f
      case RemoveAll(step) => exists v :: v in f && v.step == step
      case Insert(n, _, before) =>
        before in f && !IsReserved(n.step) && !IsReserved(n.index) && forall t :: n.step != "sc_" + t
      case Rename(step, newStep) =>
        && (exists v :: v in f && v.step == step)
        && (newStep != step ==>
          !IsReserved(newStep) && (forall t :: newStep != "sc_" + t) && forall v :: v in f ==> v.step != newStep)
      case Instantiate(sub, prefix) =>
        forall u, v, w :: u in sub && w in f && IsPrefixed(prefix, u, v) ==> v.step != w.step
  {
    match e
    case AddNode(n, _) =>
      ValidIff(n.step);
      ValidIff(n.index);
      hide ValidStep, ValidIndex, IsReserved;
    case Insert(n, _, _) =>
      ValidIff(n.step);
      ValidIff(n.index);
      hide ValidStep, ValidIndex, IsReserved;
    case Rename(step, newStep) =>
      ValidIff(newStep);
      hide ValidStep, IsReserved;
    case Instantiate(sub, prefix) =>
      ApartIff(f, sub, prefix);
    case _ =>
  }

  lemma PrefixedIs(prefix: Prefix, u: Node, v: Node)
    ensures IsPrefixed(prefix, u, v) <==> v == Node(NewStep(prefix, u.step), u.index)
  {
  }

  lemma ApartIff(f: Flow, sub: Flow, prefix: Prefix)
    ensures StepsApart(f, sub, prefix)
      <==> forall u, v, w :: u in sub && w in f && IsPrefixed(prefix, u, v) ==> v.step != w.step
  {
    forall u, v
      ensures IsPrefixed(prefix, u, v) <==> v == Node(NewStep(prefix, u.step), u.index)
    {
      PrefixedIs(prefix, u, v);
    }
    hide IsPrefixed, NewStep;
    if StepsApart(f, sub, prefix) {
      forall u, v, w | u in sub && w in f && IsPrefixed(prefix, u, v)
        ensures v.step != w.step
      {
        assert u.step in Steps(sub) && w.step in Steps(f);
      }
    } else {
      var step :| step in Steps(sub) && NewStep(prefix, step) in Steps(f);
      var u :| u in sub && u.step == step;
      var w :| w in f && w.step == NewStep(prefix, step);
      assert IsPrefixed(prefix, u, Node(NewStep(prefix, u.step), u.index));
    }
  }

  /** On flows, contracting is removing nodes. */
  lemma {:induction false} RemoveSeqContracts(f: Flow, nodes: seq<Node>)
    ensures Inputs(RemoveSeq(f, nodes)) == ContractAll(Inputs(f), nodes)
  {
    if nodes != [] {
      if nodes[0] in f {
        RemoveContracts(f, nodes[0]);
      }
      RemoveSeqContracts(if nodes[0] in f then RemoveNode(f, nodes[0]) else f, nodes[1..]);
    }
  }

  lemma {:induction false} RemoveSeqNoDuplicates(f: Flow, nodes: seq<Node>)
    requires NoDuplicates(f)
    ensures NoDuplicates(RemoveSeq(f, nodes))
    decreases |nodes|
  {
    if nodes != [] {
      if nodes[0] in f {
        RemoveContracts(f, nodes[0]);
      }
      RemoveSeqNoDuplicates(if nodes[0] in f then RemoveNode(f, nodes[0]) else f, nodes[1..]);
    }
  }

  /** A node that stays takes input from removed nodes that lead into a cycle of removed nodes. */
  ghost predicate LoopLeftBehind(f: Flow, removed: set<Node>) {
    exists v, w, c :: LoopBehind(f, removed, v, w, c)
  }

  ghost predicate LoopBehind(f: Flow, removed: set<Node>, v: Node, w: Node, c: Node) {
    && v in f && v !in removed && w in f[v].input && w in removed
    && Reaches(Among(Inputs(f), removed), w, c) && OnCycle(Among(Inputs(f), removed), c)
  }

  lemma EscapesIff(f: Flow, removed: set<Node>, v: Node)
    requires WellFormed(f) && v in f && v !in removed
    ensures v in Inputs(f) && (Escapes(Inputs(f), removed, v) <==> forall w, c :: !LoopBehind(f, removed, v, w, c))
  {
    var g := Inputs(f);
    assert forall w :: w in f[v].input <==> w in g[v];
    hide Escapes, Among, OnCycle, Reaches;
    LeavesIffNoCycle(g, removed, v);
    var a := Among(g, removed);
    forall w, c
      ensures LoopBehind(f, removed, v, w, c) <==> w in g[v] && w in removed && Reaches(a, w, c) && OnCycle(a, c)
    {
    }
  }

  /** Removing many nodes leaves a dangling edge exactly when it leaves a loop behind. */
  lemma RemoveSeqWellFormedIff(f: Flow, nodes: seq<Node>)
    requires WellFormed(f) && Distinct(nodes) && Elements(nodes) <= f.Keys
    ensures WellFormed(RemoveSeq(f, nodes)) <==> !LoopLeftBehind(f, Elements(nodes))
  {
    var g, removed := Inputs(f), Elements(nodes);
    assert NoDuplicates(f) && g.Keys == f.Keys;
    hide RemoveSeq, ContractAll, Escapes, Inputs, NoDuplicates, LoopBehind, Closed;
    RemoveSeqContracts(f, nodes);
    RemoveSeqNoDuplicates(f, nodes);
    ContractAllClosedIff(g, nodes);
    forall v | v in f && v !in removed
      ensures Escapes(g, removed, v) <==> forall w, c :: !LoopBehind(f, removed, v, w, c)
    {
      EscapesIff(f, removed, v);
    }
    forall v, w, c | LoopBehind(f, removed, v, w, c)
      ensures v in f && v !in removed
    {
      LoopBehindStays(f, removed, v, w, c);
    }
    assert forall v :: v in nodes <==> v in removed;
  }

  lemma LoopBehindStays(f: Flow, removed: set<Node>, v: Node, w: Node, c: Node)
    requires LoopBehind(f, removed, v, w, c)
    ensures v in f && v !in removed
  {
  }

  /**
   * What keeps the flow free of undefined and repeated inputs: no node that feeds itself and another
   * is removed, no loop of removed nodes is left behind, an old node is not inserted beside itself,
   * and every input of an instantiated flow is found.
   */
  ghost predicate Tidy(f: Flow, e: Edit) {
    match e
    case Remove(n) => !(n in f && n in f[n].input && exists v :: v in f && v != n && n in f[v].input)
    case RemoveAll(step) => !LoopLeftBehind(f, NodesOf(f, step))
    case Insert(n, _, before) => n == before || forall c :: c in f && c != n && before in f[c].input ==>
      n !in f[c].input
    case Instantiate(sub, prefix) => NoDuplicates(sub) && InputsFound(f, sub, prefix)
    case _ => true
  }

  /** Whatever the flow and the list, removing many nodes keeps the connections between all others. */
  lemma {:induction false} RemoveSeqKeeps(f: Flow, nodes: seq<Node>)
    ensures RemoveSeq(f, nodes).Keys == f.Keys - Elements(nodes)
    ensures forall u, v :: u !in nodes && v !in nodes ==>
      (Reaches(Inputs(RemoveSeq(f, nodes)), u, v) <==> Reaches(Inputs(f), u, v))
    ensures Acyclic(Inputs(f)) ==> Acyclic(Inputs(RemoveSeq(f, nodes)))
    ensures WellFormed(f) && Acyclic(Inputs(f)) ==> WellFormed(RemoveSeq(f, nodes))
    decreases |nodes|
  {
    hide Inputs, RemoveNode, Acyclic, WellFormed;
    if nodes != [] {
      var n := nodes[0];
      var g := if n in f then RemoveNode(f, n) else f;
      if n in f {
        RemovedKeys(f, n);
        RemoveKeepsConnections(f, n);
        if Acyclic(Inputs(f)) {
          NoSelfFeed(f, n);
        }
      }
      RemoveSeqKeeps(g, nodes[1..]);
      assert nodes == [n] + nodes[1..];
      assert Elements(nodes) == {n} + Elements(nodes[1..]);
      forall u, v | u !in nodes && v !in nodes
        ensures Reaches(Inputs(RemoveSeq(f, nodes)), u, v) <==> Reaches(Inputs(f), u, v)
      {
        assert u !in nodes[1..] && v !in nodes[1..] && u != n && v != n;
      }
    }
  }

  lemma RemovedKeys(f: Flow, n: Node)
    requires n in f
    ensures RemoveNode(f, n).Keys == f.Keys - {n}
  {
  }

  lemma NoSelfFeed(f: Flow, n: Node)
    requires Acyclic(Inputs(f)) && n in f
    ensures n !in f[n].input
  {
    if n in f[n].input {
      ReachesSelf(Inputs(f), n);
      CycleThrough(Inputs(f), n, n);
    }
  }

  lemma RemoveAllWellFormedIff(f: Flow, step: string)
    requires WellFormed(f)
    ensures WellFormed(RemoveSeq(f, SortedNodes(NodesOf(f, step)))) <==> !LoopLeftBehind(f, NodesOf(f, step))
  {
    var nodes := SortedNodes(NodesOf(f, step));
    hide SortedNodes;
    RemoveSeqWellFormedIff(f, nodes);
  }

  /** An accepted edit of a well-formed flow leaves it well-formed exactly when it is tidy. */
  lemma EditWellFormedIff(f: Flow, e: Edit)
    requires WellFormed(f) && Accepts(f, e)
    ensures WellFormed(Apply(f, e)) <==> Tidy(f, e)
  {
    hide WellFormed, RemoveSeq, RemoveNode, InsertNode, Graft, Relabel, LoopLeftBehind, NoDuplicates, InputsFound;
    match e
    case AddNode(n, b) => BindKeepsEdges(f, n, b);
    case Connect(tail, head) => AddEdgeKeeps(f, tail, head);
    case Remove(n) => RemoveDanglingIff(f, n);
    case RemoveAll(step) => RemoveAllWellFormedIff(f, step);
    case Insert(n, b, before) => InsertWellFormedIff(f, n, b, before);
    case Rename(step, newStep) =>
      if newStep != step {
        RenamerInjective(f, step, newStep);
        RenamerApart(f, step, newStep);
        RelabelWellFormed(f, Renamer(step, newStep));
      }
    case Instantiate(sub, prefix) => GraftWellFormedIff(f, sub, prefix);
  }

  /**
   * What keeps an acyclic flow acyclic: no edge and no insertion closes a cycle, and an instantiated
   * flow has none itself.
   */
  ghost predicate Forward(f: Flow, e: Edit) {
    match e
    case Connect(tail, head) => !Reaches(Inputs(f), tail, head)
    case Insert(n, _, before) => !Reaches(Inputs(f), before, n)
    case Instantiate(sub, _) => Acyclic(Inputs(sub))
    case _ => true
  }

  /** An accepted edit of a well-formed acyclic flow leaves it acyclic exactly when it is forward. */
  lemma EditAcyclicIff(f: Flow, e: Edit)
    requires WellFormed(f) && Acyclic(Inputs(f)) && Accepts(f, e)
    ensures Acyclic(Inputs(Apply(f, e))) <==> Forward(f, e)
  {
    hide WellFormed, RemoveSeq, RemoveNode, InsertNode, Graft, Relabel, Acyclic, Reaches;
    match e
    case AddNode(n, b) => BindAcyclic(f, n, b);
    case Connect(tail, head) => AddEdgeAcyclic(f, tail, head);
    case Remove(n) =>
      NoSelfFeed(f, n);
      RemoveKeepsConnections(f, n);
    case RemoveAll(step) => RemoveSeqKeeps(f, SortedNodes(NodesOf(f, step)));
    case Insert(n, b, before) => InsertAcyclicIff(f, n, b, before);
    case Rename(step, newStep) =>
      if newStep != step {
        RenamerInjective(f, step, newStep);
        RenamerApart(f, step, newStep);
        RelabelAcyclic(f, Renamer(step, newStep));
      }
    case Instantiate(sub, prefix) => GraftAcyclic(f, sub, prefix);
  }

  lemma BindAcyclic(f: Flow, n: Node, b: Binding)
    requires WellFormed(f) && Acyclic(Inputs(f))
    ensures Acyclic(Inputs(Bind(f, n, b)))
  {
    BindKeepsEdges(f, n, b);
    var g, h := Inputs(f), Inputs(Bind(f, n, b));
    forall v | v in h
      ensures !OnCycle(h, v)
    {
      if v in g {
        PartUnchanged(g, h, v);
      } else if OnCycle(h, v) {
        var w := CycleFirstStep(h, v);
        assert false;
      }
    }
  }

  // -------------------------------------------------------------- runs of edits

  ghost predicate Step(f: Flow, e: Edit, g: Flow) {
    Accepts(f, e) && g == Apply(f, e)
  }

  /** The flows a sequence of accepted calls passes through. */
  ghost predicate IsRun(flows: seq<Flow>, edits: seq<Edit>) {
    |flows| == |edits| + 1 && forall i :: 0 <= i < |edits| ==> Step(flows[i], edits[i], flows[i + 1])
  }

  /**
   * Over every sequence of accepted calls: no flow on the way has an undefined or repeated input
   * exactly when every call was tidy, and none has a cycle either exactly when every call was tidy
   * and forward.
   */
  lemma {:induction false} RunKeepsIff(flows: seq<Flow>, edits: seq<Edit>, n: nat)
    requires IsRun(flows, edits) && n <= |edits| && WellFormed(flows[0])
    ensures (forall i :: 0 <= i <= n ==> WellFormed(flows[i])) <==> forall j :: 0 <= j < n ==> Tidy(flows[j], edits[j])
    ensures Acyclic(Inputs(flows[0])) ==>
      ((forall i :: 0 <= i <= n ==> WellFormed(flows[i]) && Acyclic(Inputs(flows[i])))
        <==> forall j :: 0 <= j < n ==> Tidy(flows[j], edits[j]) && Forward(flows[j], edits[j]))
  {
    hide WellFormed, Acyclic, Tidy, Forward, Accepts, Apply;
    if n > 0 {
      RunKeepsIff(flows, edits, n - 1);
      var f, e := flows[n - 1], edits[n - 1];
      assert Step(f, e, flows[n - 1 + 1]);
      if WellFormed(f) {
        EditWellFormedIff(f, e);
        if Acyclic(Inputs(f)) {
          EditAcyclicIff(f, e);
        }
      }
    }
  }
}
