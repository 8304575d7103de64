/** The mutable flowgraph: edits in place, memoised queries, and the memo fields kept coherent. */
module Flowgraphs {
  import opened Ordering
  import opened Digraphs
  import opened Surgery
  import opened Flows
  import opened Renaming
  import opened Composition
  import opened Edits
  import opened Scheduling
  import opened Validation

  // ------------------------------------------- what every query recomputes

  ghost function AllNodes(f: Flow): seq<Node> {
    SortedNodes(f.Keys)
  }

  ghost function EntryNodes(f: Flow): seq<Node> {
    SortedNodes(Entries(f))
  }

  ghost function ExitNodes(f: Flow): seq<Node> {
    SortedNodes(Exits(f))
  }

  function OutputSet(f: Flow, n: Node): set<Node> {
    set w | w in f && n in f[w].input
  }

  ghost predicate AreOutputs(f: Flow, m: map<Node, seq<Node>>) {
    m.Keys == Mentioned(f) && forall v :: v in m ==> m[v] == SortedNodes(OutputSet(f, v))
  }

  lemma OutputsServe(f: Flow, m: map<Node, seq<Node>>)
    requires AreOutputs(f, m)
    ensures Serves(m, Outputs(f))
  {
    forall v | v in f
      ensures Elements(m[v]) == Outputs(f)[v]
    {
      assert OutputSet(f, v) == Outputs(f)[v];
    }
  }

  class Flowgraph {
    var nodes: Flow
    var cacheNodes: Option<seq<Node>>
    var cacheEntry: Option<seq<Node>>
    var cacheExit: Option<seq<Node>>
    var cacheForward: Option<seq<seq<Node>>>
    var cacheReverse: Option<seq<seq<Node>>>
    var cacheOutputs: Option<map<Node, seq<Node>>>

    /** Every filled memo field holds what the query would compute from the flow as it is now. */
    ghost predicate Coherent()
      reads this
    {
      && (cacheNodes.Some? ==> cacheNodes.value == AllNodes(nodes))
      && (cacheEntry.Some? ==> cacheEntry.value == EntryNodes(nodes))
      && (cacheExit.Some? ==> cacheExit.value == ExitNodes(nodes))
      && (cacheForward.Some? ==> cacheForward.value == ExecutionOrder(Waits(nodes, false)))
      && (cacheReverse.Some? ==> cacheReverse.value == ExecutionOrder(Waits(nodes, true)))
      && (cacheOutputs.Some? ==> AreOutputs(nodes, cacheOutputs.value))
    }

    constructor ()
      ensures nodes == map[] && Coherent()
    {
      nodes := map[];
      cacheNodes, cacheEntry, cacheExit := None, None, None;
      cacheForward, cacheReverse, cacheOutputs := None, None, None;
    }

    method ClearCache()
      modifies this
      ensures Coherent() && nodes == old(nodes)
      ensures cacheNodes.None? && cacheEntry.None? && cacheExit.None?
      ensures cacheForward.None? && cacheReverse.None? && cacheOutputs.None?
    {
      cacheNodes, cacheEntry, cacheExit := None, None, None;
      cacheForward, cacheReverse, cacheOutputs := None, None, None;
    }

    // ---------------------------------------------------------------- queries

    method GetNodes() returns (r: seq<Node>)
      requires Coherent()
      modifies this`cacheNodes
      ensures Coherent() && r == AllNodes(nodes) && Lists(r, nodes.Keys, NodeLess)
    {
      if cacheNodes.None? {
        var sorted := SortNodes(nodes.Keys);
        cacheNodes := Some(sorted);
      }
      r := cacheNodes.value;
      SortedNodesList(nodes.Keys);
    }

    method GetEntryNodes() returns (r: seq<Node>)
      requires Coherent()
      modifies this`cacheNodes, this`cacheEntry
      ensures Coherent() && r == EntryNodes(nodes)
      ensures Lists(r, (set v | v in nodes && nodes[v].input == []), NodeLess)
    {
      if cacheEntry.None? {
        var all := GetNodes();
        var found: set<Node> := {};
        for i := 0 to |all|
          invariant Coherent()
          invariant found == set v | v in all[..i] && v in nodes && nodes[v].input == []
        {
          assert all[i] in Elements(all);
          assert forall x :: x in all[..i + 1] <==> x in all[..i] || x == all[i];
          if nodes[all[i]].input == [] {
            found := found + {all[i]};
          }
        }
        assert all[..|all|] == all;
        assert forall v :: v in all <==> v in Elements(all);
        assert found == Entries(nodes);
        var sorted := SortNodes(found);
        cacheEntry := Some(sorted);
      }
      r := cacheEntry.value;
      SortedNodesList(Entries(nodes));
    }

    method GetExitNodes() returns (r: seq<Node>)
      requires Coherent()
      modifies this`cacheNodes, this`cacheExit
      ensures Coherent() && r == ExitNodes(nodes)
      ensures Lists(r, (set v | v in nodes && forall w :: w in nodes ==> v !in nodes[w].input), NodeLess)
    {
      if cacheExit.None? {
        var all := GetNodes();
        var inputNodes: set<Node> := {};
        for i := 0 to |all|
          invariant Coherent()
          invariant inputNodes == set v, w | v in all[..i] && v in nodes && w in Elements(nodes[v].input) :: w
        {
          assert all[i] in Elements(all);
          assert forall x :: x in all[..i + 1] <==> x in all[..i] || x == all[i];
          inputNodes := inputNodes + Elements(nodes[all[i]].input);
        }
        assert all[..|all|] == all;
        assert forall v :: v in all <==> v in Elements(all);
        var found: set<Node> := {};
        for i := 0 to |all|
          invariant Coherent()
          invariant found == set v | v in all[..i] && v !in inputNodes
        {
          assert forall x :: x in all[..i + 1] <==> x in all[..i] || x == all[i];
          if all[i] !in inputNodes {
            found := found + {all[i]};
          }
        }
        assert all[..|all|] == all;
        ExitsNotInputs(nodes, inputNodes);
        assert found == Exits(nodes);
        var sorted := SortNodes(found);
        cacheExit := Some(sorted);
      }
      r := cacheExit.value;
      SortedNodesList(Exits(nodes));
    }

    /** The execution order; asking for it needs a flow the scheduler's loop comes to an end on. */
    method GetExecutionOrder(reverse: bool) returns (r: seq<seq<Node>>)
      requires Coherent()
      requires Schedulable(Waits(nodes, reverse))
      modifies this
      ensures Coherent() && nodes == old(nodes)
      ensures r == ExecutionOrder(Waits(nodes, reverse))
    {
      if reverse && cacheReverse.Some? {
        return cacheReverse.value;
      }
      if !reverse && cacheForward.Some? {
        return cacheForward.value;
      }
      var start: seq<Node>;
      if reverse {
        start := GetExitNodes();
      } else {
        start := GetEntryNodes();
      }
      StartOfOrder(nodes, reverse);
      r := ComputeOrder(nodes, reverse, Elements(start));
      if reverse {
        cacheReverse := Some(r);
      } else {
        cacheForward := Some(r);
      }
    }

    /** Fills the memo of consumers. */
    method FillOutputs()
      requires Coherent() && cacheOutputs.None?
      modifies this`cacheNodes, this`cacheOutputs
      ensures Coherent() && cacheOutputs.Some?
    {
      var all := GetNodes();
      var m: map<Node, set<Node>> := map[];
      for i := 0 to |all|
        invariant Coherent()
        invariant m.Keys == Elements(all[..i]) && forall v :: v in m ==> m[v] == {}
      {
        m := m[all[i] := {}];
        assert Elements(all[..i + 1]) == Elements(all[..i]) + {all[i]};
      }
      assert all[..|all|] == all;
      m := CollectOutputs(nodes, all, m);
      CollectedAll(nodes, m);
      var sorted := SortOutputs(nodes, m);
      cacheOutputs := Some(sorted);
    }

    /** The sorted consumers of a node, or a refusal if it is not defined. */
    method GetNodeOutputs(n: Node) returns (r: Option<seq<Node>>)
      requires Coherent()
      modifies this`cacheNodes, this`cacheOutputs
      ensures Coherent()
      ensures r == if n in nodes then Some(SortedNodes(OutputSet(nodes, n))) else None
      ensures r.Some? ==> Lists(r.value, (set w | w in nodes && n in nodes[w].input), NodeLess)
    {
      var all := GetNodes();
      assert n in all <==> n in Elements(all);
      if n !in all {
        return None;
      }
      if cacheOutputs.None? {
        FillOutputs();
      }
      r := Some(cacheOutputs.value[n]);
      SortedNodesList(OutputSet(nodes, n));
    }

    method ValidateFlow() returns (valid: bool)
      requires Coherent()
      modifies this`cacheNodes, this`cacheEntry, this`cacheOutputs
      ensures Coherent()
      ensures valid <==> Accepted(nodes)
      ensures valid ==> forall v :: v in nodes ==>
        nodes[v].binding.tool != "" && nodes[v].binding.task != "" && nodes[v].binding.taskmodule != ""
    {
      var all := GetNodes();
      var entries := GetEntryNodes();
      if cacheOutputs.None? {
        FillOutputs();
      }
      OutputsServe(nodes, cacheOutputs.value);
      valid := Validate(nodes, all, entries, cacheOutputs.value);
    }

    // ------------------------------------------------------------------ edits

    method AddNode(n: Node, b: Binding) returns (ok: bool)
      requires Coherent()
      modifies this
      ensures Coherent()
      ensures ok <==> Accepts(old(nodes), Edit.AddNode(n, b))
      ensures nodes == if ok then Apply(old(nodes), Edit.AddNode(n, b)) else old(nodes)
    {
      if !ValidStep(n.step) || !ValidIndex(n.index) {
        return false;
      }
      if n in nodes {
        nodes := nodes[n := nodes[n].(binding := b)];
      } else {
        nodes := nodes[n := NodeData([], b, map[])];
      }
      ClearCache();
      return true;
    }

    method AddEdge(tail: Node, head: Node) returns (ok: bool)
      requires Coherent()
      modifies this
      ensures Coherent()
      ensures ok <==> Accepts(old(nodes), Connect(tail, head))
      ensures nodes == if ok then Apply(old(nodes), Connect(tail, head)) else old(nodes)
    {
      if head !in nodes || tail !in nodes {
        return false;
      }
      var all := GetNodes();
      if tail in nodes[head].input {
        return true;
      }
      nodes := nodes[head := nodes[head].(input := nodes[head].input + [tail])];
      ClearCache();
      return true;
    }

    method RemoveNode(n: Node) returns (ok: bool)
      requires Coherent()
      modifies this
      ensures Coherent()
      ensures ok <==> Accepts(old(nodes), Remove(n))
      ensures nodes == if ok then Apply(old(nodes), Remove(n)) else old(nodes)
    {
      hide SortedNodes, Distinct, ExecutionOrder, Waits, AreOutputs, Entries, Exits;
      if n !in nodes {
        return false;
      }
      var all := GetNodes();
      var nodeInputs := nodes[n].input;
      nodes := nodes - {n};
      ghost var start := nodes;
      var keys := Listing(nodes.Keys);
      for i := 0 to |keys|
        invariant nodes.Keys == start.Keys
        invariant forall v :: v in nodes ==>
          nodes[v] == if v in keys[..i] then start[v].(input := Rewired(start[v].input, n, nodeInputs)) else start[v]
      {
        var v := keys[i];
        assert v in Elements(keys);
        assert v !in keys[..i];
        var inputs := nodes[v].input;
        if n in inputs {
          var rest := Filter(inputs, n);
          var rewired := SortNodes(Elements(rest + nodeInputs));
          nodes := nodes[v := nodes[v].(input := rewired)];
        }
        assert forall x :: x in keys[..i + 1] <==> x in keys[..i] || x == v;
      }
      assert keys[..|keys|] == keys;
      assert forall v :: v in keys <==> v in Elements(keys);
      ClearCache();
      return true;
    }

    method RemoveStep(step: string) returns (ok: bool)
      requires Coherent()
      modifies this
      ensures Coherent()
      ensures ok <==> Accepts(old(nodes), RemoveAll(step))
      ensures nodes == if ok then Apply(old(nodes), RemoveAll(step)) else old(nodes)
    {
      if step !in Steps(nodes) {
        return false;
      }
      var indices := SortNodes(NodesOf(nodes, step));
      for i := 0 to |indices|
        invariant Coherent()
        invariant RemoveSeq(nodes, indices[i..]) == RemoveSeq(old(nodes), indices)
      {
        assert indices[i..][0] == indices[i] && indices[i..][1..] == indices[i + 1..];
        var removed := RemoveNode(indices[i]);
      }
      return true;
    }

    method InsertNode(n: Node, b: Binding, before: Node) returns (ok: bool)
      requires Coherent()
      modifies this
      ensures Coherent()
      ensures ok <==> Accepts(old(nodes), Insert(n, b, before))
      ensures nodes == if ok then Apply(old(nodes), Insert(n, b, before)) else old(nodes)
    {
      hide SortedNodes, Distinct, ValidStep, ValidIndex;
      var all := GetNodes();
      assert before in all <==> before in Elements(all);
      if before !in all {
        return false;
      }
      ok := AddNode(n, b);
      if !ok {
        return;
      }
      ghost var start := nodes;
      var outputs := GetNodeOutputs(before);
      var consumers := outputs.value;
      assert Elements(consumers) == OutputSet(start, before);
      assert forall v :: v in consumers <==> v in Elements(consumers);
      RedirectConsumers(consumers, n, before);
      nodes := nodes[n := nodes[n].(input := [before])];
      ClearCache();
    }

    /** Every consumer takes input from `n` where it took input from `before`. */
    method RedirectConsumers(consumers: seq<Node>, n: Node, before: Node)
      requires Distinct(consumers)
      requires forall c :: c in consumers ==> c in nodes && before in nodes[c].input
      modifies this`nodes
      ensures nodes.Keys == old(nodes).Keys
      ensures forall v :: v in nodes ==>
        nodes[v] == if v in consumers then old(nodes)[v].(input := Redirect(old(nodes)[v].input, n, before))
          else old(nodes)[v]
    {
      for i := 0 to |consumers|
        invariant nodes.Keys == old(nodes).Keys
        invariant forall v :: v in nodes ==>
          nodes[v] == if v in consumers[..i] then old(nodes)[v].(input := Redirect(old(nodes)[v].input, n, before))
            else old(nodes)[v]
      {
        var c := consumers[i];
        assert c !in consumers[..i];
        nodes := nodes[c := nodes[c].(input := RemoveFirst(nodes[c].input, before) + [n])];
        assert forall x :: x in consumers[..i + 1] <==> x in consumers[..i] || x == c;
      }
      assert consumers[..|consumers|] == consumers;
    }

    method RenameNode(step: string, newStep: string) returns (ok: bool)
      requires Coherent()
      modifies this
      ensures Coherent()
      ensures ok <==> Accepts(old(nodes), Rename(step, newStep))
      ensures nodes == if ok then Apply(old(nodes), Rename(step, newStep)) else old(nodes)
    {
      if step !in Steps(nodes) {
        return false;
      }
      if newStep == step {
        return true;
      }
      if !ValidStep(newStep) || newStep in Steps(nodes) {
        return false;
      }
      ghost var start := nodes;
      MoveStep(step, newStep);
      RewireStep(step, newStep);
      RenamedFlow(start, step, newStep, nodes);
      ClearCache();
      return true;
    }

    /** Copies the nodes of a step of `src` to a new step name. */
    method CopyStep(src: Flow, step: string, newStep: string)
      requires newStep !in Steps(nodes)
      modifies this`nodes
      ensures forall w :: w in nodes <==> w in old(nodes) || (w.step == newStep && Node(step, w.index) in src)
      ensures forall v :: v in old(nodes) ==> nodes[v] == old(nodes)[v]
      ensures forall v :: v in src && v.step == step ==>
        Node(newStep, v.index) in nodes && nodes[Node(newStep, v.index)] == src[v]
    {
      ghost var start := nodes;
      var moved := Listing(NodesOf(src, step));
      assert forall v :: v in moved <==> v in Elements(moved);
      for i := 0 to |moved|
        invariant forall w :: w in nodes <==> w in start || (w.step == newStep && Node(step, w.index) in moved[..i])
        invariant forall v :: v in start ==> nodes[v] == start[v]
        invariant forall v :: v in moved[..i] ==>
          v in src && v.step == step && Node(newStep, v.index) in nodes && nodes[Node(newStep, v.index)] == src[v]
      {
        var v := moved[i];
        assert v in moved;
        FreshStep(start, newStep, v.index);
        nodes := nodes[Node(newStep, v.index) := src[v]];
        assert forall x :: x in moved[..i + 1] <==> x in moved[..i] || x == v;
      }
      assert moved[..|moved|] == moved;
    }

    /** Copies the step's nodes to their new names and drops the old ones. */
    method MoveStep(step: string, newStep: string)
      requires newStep !in Steps(nodes)
      modifies this`nodes
      ensures nodes.Keys == Image(Renamer(step, newStep), old(nodes).Keys)
      ensures forall v :: v in old(nodes) ==>
        Renamer(step, newStep)(v) in nodes && nodes[Renamer(step, newStep)(v)] == old(nodes)[v]
    {
      ghost var start := nodes;
      forall index: string
        ensures Node(newStep, index) !in start
      {
        FreshStep(start, newStep, index);
      }
      var moving := NodesOf(nodes, step);
      CopyStep(nodes, step, newStep);
      nodes := nodes - moving;
      MovedKeys(start, step, newStep, nodes.Keys);
    }

    /** Rewrites every input list that mentions the old step. */
    method RewireStep(step: string, newStep: string)
      modifies this`nodes
      ensures nodes.Keys == old(nodes).Keys
      ensures forall v :: v in nodes ==>
        nodes[v] == old(nodes)[v].(input := MapSeq(Renamer(step, newStep), old(nodes)[v].input))
    {
      ghost var start := nodes;
      var keys := Listing(nodes.Keys);
      for i := 0 to |keys|
        invariant nodes.Keys == start.Keys
        invariant forall v :: v in nodes ==>
          nodes[v] == if v in keys[..i] then start[v].(input := MapSeq(Renamer(step, newStep), start[v].input))
            else start[v]
      {
        var v := keys[i];
        assert v in Elements(keys);
        assert v !in keys[..i];
        var inputs := nodes[v].input;
        if exists j :: 0 <= j < |inputs| && inputs[j].step == step {
          nodes := nodes[v := nodes[v].(input := MapSeq(Renamer(step, newStep), inputs))];
        } else {
          assert MapSeq(Renamer(step, newStep), inputs) == inputs;
        }
        assert forall x :: x in keys[..i + 1] <==> x in keys[..i] || x == v;
      }
      assert keys[..|keys|] == keys;
      assert forall v :: v in keys <==> v in Elements(keys);
    }

    /**
     * Copies a sub-flow in, step by step. A step whose new name is taken stops the copy with an
     * error; the steps copied before it stay.
     */
    method Instantiate(sub: Flowgraph, prefix: Prefix) returns (ok: bool)
      requires Coherent()
      modifies this
      ensures Coherent()
      ensures ok <==> StepsApart(old(nodes), old(sub.nodes), prefix)
      ensures ok ==> nodes == Graft(old(nodes), old(sub.nodes), prefix)
      ensures !ok ==> PartlyInstantiated(old(nodes), old(sub.nodes), prefix, nodes)
    {
      ghost var host := nodes;
      var subNodes := sub.nodes;
      var steps := SortSteps(Steps(subNodes));
      ghost var m;
      var count;
      count, m := ImportSteps(subNodes, steps, prefix);
      ok := count == |steps|;
      ApartIffAll(host, subNodes, prefix, steps, count);
      assert steps[..|steps|] == steps;
      ImportedSteps(host, subNodes, prefix, steps, count);
      InstantiateDone(host, subNodes, prefix, Elements(steps[..count]), m);
      ClearCache();
    }

    /** Imports steps until one of them is already defined. */
    method ImportSteps(sub: Flow, steps: seq<string>, prefix: Prefix) returns (count: nat, ghost m: Flow)
      requires Coherent() && Distinct(steps)
      modifies this
      ensures Coherent() && count <= |steps|
      ensures forall j :: 0 <= j < count ==> NewStep(prefix, steps[j]) !in Steps(old(nodes))
      ensures count < |steps| ==> NewStep(prefix, steps[count]) in Steps(old(nodes))
      ensures nodes == old(nodes) + m && IsRelabelling(OfSteps(sub, Elements(steps[..count])), Prefixer(prefix), m)
    {
      NothingImported(sub, prefix);
      assert Elements(steps[..0]) == {};
      hide *;
      ghost var host := nodes;
      ghost var done: set<string> := {};
      count, m := 0, map[];
      while count < |steps|
        invariant Coherent() && count <= |steps|
        invariant forall j :: 0 <= j < count ==> NewStep(prefix, steps[j]) !in Steps(host)
        invariant done == Elements(steps[..count]) && nodes == host + m
        invariant IsRelabelling(OfSteps(sub, done), Prefixer(prefix), m)
      {
        StepFresh(steps, count);
        StepTaken(host, OfSteps(sub, done), prefix, m, steps[count]);
        if NewStep(prefix, steps[count]) in Steps(nodes) {
          return;
        }
        ghost var one := ImportStep(sub, steps[count], prefix);
        PartGrows(host, sub, prefix, done, steps[count], m, one);
        m := m + one;
        done := done + {steps[count]};
        count := count + 1;
      }
    }

    /** Copies one step of a sub-flow, then puts the prefix on the inputs of its nodes. */
    method ImportStep(sub: Flow, step: string, prefix: Prefix) returns (ghost m: Flow)
      requires Coherent()
      requires NewStep(prefix, step) !in Steps(nodes)
      modifies this
      ensures Coherent()
      ensures nodes == old(nodes) + m && IsRelabelling(OfSteps(sub, {step}), Prefixer(prefix), m)
    {
      hide *;
      ghost var host := nodes;
      ghost var copied := CopyAndPrefix(sub, step, prefix);
      OneStep(sub, step);
      m := InstanceOf(OfSteps(sub, {step}), prefix);
      ImportedNodes(host, sub, OfSteps(sub, {step}), step, prefix, copied, nodes, m);
    }

    method CopyAndPrefix(sub: Flow, step: string, prefix: Prefix) returns (ghost copied: Flow)
      requires NewStep(prefix, step) !in Steps(nodes)
      modifies this
      ensures Coherent() && StepImported(old(nodes), sub, step, prefix, copied, nodes)
    {
      hide SortedNodes, MapSeq, Distinct, Prefixer, ExecutionOrder, Waits, AreOutputs, Entries, Exits;
      var newStep := NewStep(prefix, step);
      CopyStep(sub, step, newStep);
      copied := nodes;
      ClearCache();
      if prefix.Prefix? {
        PrefixInputs(newStep, prefix);
      }
    }

    /** Puts the prefix on every input of every node of a step. */
    method PrefixInputs(newStep: string, prefix: Prefix)
      requires Coherent() && cacheEntry.None? && cacheExit.None?
      requires cacheForward.None? && cacheReverse.None? && cacheOutputs.None?
      modifies this
      ensures Coherent()
      ensures nodes.Keys == old(nodes).Keys
      ensures forall v :: v in nodes ==>
        nodes[v] == old(nodes)[v].(input := if v.step == newStep then MapSeq(Prefixer(prefix), old(nodes)[v].input)
          else old(nodes)[v].input)
    {
      hide SortedNodes, MapSeq, Distinct, Prefixer, ExecutionOrder, Waits, AreOutputs, Entries, Exits;
      ghost var start := nodes;
      var keys := Listing(NodesOf(nodes, newStep));
      for i := 0 to |keys|
        invariant Coherent() && cacheEntry.None? && cacheExit.None?
        invariant cacheForward.None? && cacheReverse.None? && cacheOutputs.None?
        invariant nodes.Keys == start.Keys
        invariant forall v :: v in nodes ==>
          nodes[v] == if v in keys[..i] then start[v].(input := MapSeq(Prefixer(prefix), start[v].input)) else start[v]
      {
        var v := keys[i];
        assert v in Elements(keys);
        assert v !in keys[..i];
        var all := GetNodes();
        var inputs := nodes[v].input;
        ghost var before := nodes;
        ResetInputs(v, inputs, prefix);
        assert nodes.Keys == before.Keys;
        assert forall x :: x in keys[..i + 1] <==> x in keys[..i] || x == v;
      }
      assert keys[..|keys|] == keys;
      assert forall v :: v in keys <==> v in Elements(keys);
    }

    /** Clears a node's inputs and adds them again, one by one, under their prefixed names. */
    method ResetInputs(v: Node, inputs: seq<Node>, prefix: Prefix)
      requires v in nodes
      modifies this`nodes
      ensures nodes == old(nodes)[v := old(nodes)[v].(input := MapSeq(Prefixer(prefix), inputs))]
    {
      nodes := nodes[v := nodes[v].(input := [])];
      for j := 0 to |inputs|
        invariant nodes == old(nodes)[v := old(nodes)[v].(input := MapSeq(Prefixer(prefix), inputs[..j]))]
      {
        var newIn := Node(NewStep(prefix, inputs[j].step), inputs[j].index);
        nodes := nodes[v := nodes[v].(input := nodes[v].input + [newIn])];
        assert MapSeq(Prefixer(prefix), inputs[..j + 1]) == MapSeq(Prefixer(prefix), inputs[..j]) + [newIn];
      }
      assert inputs[..|inputs|] == inputs;
    }
  }

  // ------------------------------------------------------- rename_node and graph

  lemma FreshStep(f: Flow, step: string, index: string)
    requires step !in Steps(f)
    ensures Node(step, index) !in f
  {
    assert Node(step, index) in f ==> Node(step, index).step in Steps(f);
  }

  lemma MovedKeys(f: Flow, step: string, newStep: string, keys: set<Node>)
    requires newStep !in Steps(f)
    requires forall w :: w in keys <==> (w in f && w.step != step) || (w.step == newStep && Node(step, w.index) in f)
    ensures keys == Image(Renamer(step, newStep), f.Keys)
  {
    var r := Renamer(step, newStep);
    forall w | w in keys
      ensures w in Image(r, f.Keys)
    {
      var v := if w in f && w.step != step then w else Node(step, w.index);
      assert r(v) == w;
    }
  }

  lemma RenamedFlow(f: Flow, step: string, newStep: string, g: Flow)
    requires newStep !in Steps(f)
    requires IsRelabelling(f, Renamer(step, newStep), g)
    ensures g == RenameStep(f, step, newStep)
  {
    RenamerInjective(f, step, newStep);
    RelabelData(f, Renamer(step, newStep));
    RelabellingUnique(f, Renamer(step, newStep), g, Relabel(f, Renamer(step, newStep)));
  }

  /** The part of a flow that consists of the given steps. */
  ghost function OfSteps(f: Flow, steps: set<string>): Flow {
    map v | v in f && v.step in steps :: f[v]
  }

  /** Steps of the sub-flow whose new names are free in the host. */
  ghost predicate Importable(host: Flow, sub: Flow, prefix: Prefix, steps: set<string>) {
    forall step :: step in steps ==> step in Steps(sub) && NewStep(prefix, step) !in Steps(host)
  }

  /** The host, with some but not all steps of the sub-flow copied in beside it. */
  ghost predicate PartlyInstantiated(host: Flow, sub: Flow, prefix: Prefix, f: Flow) {
    && (forall v :: v in host ==> v in f && f[v] == host[v])
    && exists done: set<string> ::
      && Importable(host, sub, prefix, done) && done != Steps(sub)
      && f == host + Instance(OfSteps(sub, done), prefix)
  }

  lemma InstanceData(sub: Flow, prefix: Prefix)
    ensures IsRelabelling(sub, Prefixer(prefix), Instance(sub, prefix))
  {
    PrefixerInjective(prefix, sub.Keys);
    RelabelData(sub, Prefixer(prefix));
  }

  lemma InstanceOf(sub: Flow, prefix: Prefix) returns (m: Flow)
    ensures IsRelabelling(sub, Prefixer(prefix), m)
  {
    InstanceData(sub, prefix);
    m := Instance(sub, prefix);
  }

  lemma StepFresh(steps: seq<string>, i: nat)
    requires Distinct(steps) && i < |steps|
    ensures steps[i] !in Elements(steps[..i])
    ensures Elements(steps[..i + 1]) == Elements(steps[..i]) + {steps[i]}
  {
  }

  lemma NothingImported(sub: Flow, prefix: Prefix)
    ensures IsRelabelling(OfSteps(sub, {}), Prefixer(prefix), map[])
  {
  }

  lemma PartGrows(host: Flow, sub: Flow, prefix: Prefix, done: set<string>, step: string, m: Flow, one: Flow)
    requires step !in done
    requires IsRelabelling(OfSteps(sub, done), Prefixer(prefix), m)
    requires IsRelabelling(OfSteps(sub, {step}), Prefixer(prefix), one)
    ensures IsRelabelling(OfSteps(sub, done + {step}), Prefixer(prefix), m + one)
    ensures (host + m) + one == host + (m + one)
  {
    OfStepsUnion(sub, done, step);
    PrefixerInjective(prefix, OfSteps(sub, done + {step}).Keys);
    RelabellingUnion(OfSteps(sub, done), OfSteps(sub, {step}), Prefixer(prefix), m, one);
    AddedTwice(host, m, one);
  }

  lemma OfStepsUnion(sub: Flow, done: set<string>, step: string)
    requires step !in done
    ensures OfSteps(sub, done).Keys !! OfSteps(sub, {step}).Keys
    ensures OfSteps(sub, done) + OfSteps(sub, {step}) == OfSteps(sub, done + {step})
  {
  }

  lemma AddedTwice(host: Flow, x: Flow, y: Flow)
    ensures (host + x) + y == host + (x + y)
  {
  }

  lemma ApartIffAll(host: Flow, sub: Flow, prefix: Prefix, steps: seq<string>, count: nat)
    requires Elements(steps) == Steps(sub) && count <= |steps|
    requires forall j :: 0 <= j < count ==> NewStep(prefix, steps[j]) !in Steps(host)
    requires count < |steps| ==> NewStep(prefix, steps[count]) in Steps(host)
    ensures StepsApart(host, sub, prefix) <==> count == |steps|
  {
    if count < |steps| {
      assert steps[count] in Elements(steps);
    } else {
      forall step | step in Elements(steps)
        ensures NewStep(prefix, step) !in Steps(host)
      {
        var j :| 0 <= j < |steps| && steps[j] == step;
      }
    }
  }

  lemma ImportedSteps(host: Flow, sub: Flow, prefix: Prefix, steps: seq<string>, count: nat)
    requires Elements(steps) == Steps(sub) && Distinct(steps) && count <= |steps|
    requires forall j :: 0 <= j < count ==> NewStep(prefix, steps[j]) !in Steps(host)
    ensures Importable(host, sub, prefix, Elements(steps[..count]))
    ensures count < |steps| ==> Elements(steps[..count]) != Steps(sub)
  {
    forall step | step in Elements(steps[..count])
      ensures step in Steps(sub) && NewStep(prefix, step) !in Steps(host)
    {
      var j :| 0 <= j < count && steps[..count][j] == step;
      assert steps[j] == step && step in Elements(steps);
    }
    if count < |steps| {
      StepFresh(steps, count);
      assert steps[count] in Elements(steps);
    }
  }

  lemma InstantiateDone(host: Flow, sub: Flow, prefix: Prefix, done: set<string>, m: Flow)
    requires IsRelabelling(OfSteps(sub, done), Prefixer(prefix), m) && Importable(host, sub, prefix, done)
    ensures done != Steps(sub) ==> PartlyInstantiated(host, sub, prefix, host + m)
    ensures done == Steps(sub) ==> host + m == Graft(host, sub, prefix)
  {
    var part := OfSteps(sub, done);
    InstanceData(part, prefix);
    RelabellingUnique(part, Prefixer(prefix), m, Instance(part, prefix));
    if done == Steps(sub) {
      AllSteps(sub);
    } else {
      forall step | step in Steps(part)
        ensures NewStep(prefix, step) !in Steps(host)
      {
        assert step in done;
      }
      InstanceApart(host, part, prefix);
    }
  }

  lemma AllSteps(sub: Flow)
    ensures OfSteps(sub, Steps(sub)) == sub
  {
  }

  /** A step's new name is taken exactly when the host has it: the steps copied before differ. */
  lemma StepTaken(host: Flow, a: Flow, prefix: Prefix, m: Flow, step: string)
    requires step !in Steps(a) && IsRelabelling(a, Prefixer(prefix), m)
    ensures NewStep(prefix, step) in Steps(host + m) <==> NewStep(prefix, step) in Steps(host)
  {
    forall w | w in m
      ensures w.step != NewStep(prefix, step)
    {
      var v :| v in a && Prefixer(prefix)(v) == w;
      assert v.step in Steps(a);
      if w.step == NewStep(prefix, step) {
        NewStepInjective(prefix, v.step, step);
      }
    }
    if NewStep(prefix, step) in Steps(host) {
      var v :| v in host && v.step == NewStep(prefix, step);
      assert v in host + m;
    }
    if NewStep(prefix, step) in Steps(host + m) {
      var v :| v in host + m && v.step == NewStep(prefix, step);
      assert v in host;
    }
  }

  lemma OneStep(sub: Flow, step: string)
    ensures OfSteps(sub, {step}).Keys == NodesOf(sub, step)
    ensures forall v :: v in OfSteps(sub, {step}) ==> v in sub && OfSteps(sub, {step})[v] == sub[v]
  {
  }

  lemma PrefixNothing(s: seq<Node>)
    ensures MapSeq(Prefixer(NoPrefix), s) == s
  {
  }

  /** One step of the sub-flow was copied to its new name, and its inputs were then prefixed. */
  ghost predicate StepImported(host: Flow, sub: Flow, step: string, prefix: Prefix, copied: Flow, g: Flow) {
    && NewStep(prefix, step) !in Steps(host)
    && (forall w :: w in copied <==> w in host || (w.step == NewStep(prefix, step) && Node(step, w.index) in sub))
    && (forall v :: v in host ==> copied[v] == host[v])
    && (forall v :: v in NodesOf(sub, step) ==>
      Node(NewStep(prefix, step), v.index) in copied && copied[Node(NewStep(prefix, step), v.index)] == sub[v])
    && g.Keys == copied.Keys
    && (prefix.NoPrefix? ==> g == copied)
    && (prefix.Prefix? ==> forall v :: v in g ==>
      g[v] == copied[v].(input := if v.step == NewStep(prefix, step) then MapSeq(Prefixer(prefix), copied[v].input)
        else copied[v].input))
  }

  lemma ImportedNode(host: Flow, sub: Flow, step: string, prefix: Prefix, copied: Flow, g: Flow, v: Node)
    requires StepImported(host, sub, step, prefix, copied, g) && v in NodesOf(sub, step)
    ensures var w := Prefixer(prefix)(v);
      w !in host && w in g && v in sub && g[w] == sub[v].(input := MapSeq(Prefixer(prefix), sub[v].input))
  {
    FreshStep(host, NewStep(prefix, step), v.index);
    hide MapSeq;
    if prefix.NoPrefix? {
      PrefixNothing(sub[v].input);
    }
  }

  lemma HostNode(host: Flow, sub: Flow, step: string, prefix: Prefix, copied: Flow, g: Flow, w: Node)
    requires StepImported(host, sub, step, prefix, copied, g) && w in host
    ensures w in g && g[w] == host[w]
  {
    hide MapSeq, NewStep;
    assert w.step in Steps(host);
  }

  lemma AddedNode(host: Flow, sub: Flow, step: string, prefix: Prefix, copied: Flow, g: Flow, w: Node)
    requires StepImported(host, sub, step, prefix, copied, g) && w in g && w !in host
    ensures w in Image(Prefixer(prefix), NodesOf(sub, step))
  {
    hide MapSeq, Steps;
    assert Prefixer(prefix)(Node(step, w.index)) == w;
    assert Node(step, w.index) in NodesOf(sub, step);
  }

  lemma ImportedNodes(host: Flow, sub: Flow, a: Flow, step: string, prefix: Prefix, copied: Flow, g: Flow, m: Flow)
    requires StepImported(host, sub, step, prefix, copied, g)
    requires a.Keys == NodesOf(sub, step) && forall v :: v in a ==> v in sub && a[v] == sub[v]
    requires IsRelabelling(a, Prefixer(prefix), m)
    ensures g == host + m
  {
    hide StepImported, MapSeq, NewStep, Prefixer, NodesOf;
    forall w | w in m
      ensures w !in host && w in g && g[w] == m[w]
    {
      var v :| v in a && Prefixer(prefix)(v) == w;
      ImportedNode(host, sub, step, prefix, copied, g, v);
    }
    forall w | w in g
      ensures if w in host then g[w] == host[w] else w in m
    {
      if w in host {
        HostNode(host, sub, step, prefix, copied, g, w);
      } else {
        AddedNode(host, sub, step, prefix, copied, g, w);
      }
    }
    forall w | w in host
      ensures w in g
    {
      HostNode(host, sub, step, prefix, copied, g, w);
    }
  }

  method SortSteps(s: set<string>) returns (r: seq<string>)
    ensures Lists(r, s, StringLess)
  {
    StringOrder();
    r := Sorted(s, StringLess);
  }

  // ------------------------------------------------------------ helper methods

  method Filter(s: seq<Node>, n: Node) returns (r: seq<Node>)
    ensures r == Without(s, n)
  {
    r := [];
    var i := |s|;
    while i > 0
      invariant 0 <= i <= |s| && r == Without(s[i..], n)
    {
      i := i - 1;
      assert s[i..][0] == s[i] && s[i..][1..] == s[i + 1..];
      if s[i] != n {
        r := [s[i]] + r;
      }
    }
  }

  lemma ExitsNotInputs(f: Flow, inputNodes: set<Node>)
    requires inputNodes == set v, w | v in f && w in Elements(f[v].input) :: w
    ensures Exits(f) == set v | v in f && v !in inputNodes
  {
    forall v | v in f
      ensures v in inputNodes <==> exists w :: w in f && v in f[w].input
    {
      if w :| w in f && v in f[w].input {
        assert v in Elements(f[w].input);
      }
    }
  }

  lemma StartOfOrder(f: Flow, reverse: bool)
    ensures Frontier(Waits(f, reverse), 0) == if reverse then Exits(f) else Entries(f)
  {
    EntriesAreSources(f);
    var g := Waits(f, true);
    forall v | v in g
      ensures g[v] == {} <==> v in Exits(f)
    {
      assert forall w :: w in g[v] <==> w in f && v in f[w].input;
      if v !in f {
        var w :| w in f && v in f[w].input;
        assert w in g[v];
      } else if w :| w in g[v] {
        assert v in f[w].input;
      }
    }
  }

  method AddSource(m: map<Node, set<Node>>, inputs: seq<Node>, src: Node) returns (r: map<Node, set<Node>>)
    ensures r.Keys == m.Keys + Elements(inputs)
    ensures forall v :: v in r ==> r[v] == (if v in m then m[v] else {}) + if v in inputs then {src} else {}
  {
    r := m;
    for j := 0 to |inputs|
      invariant r.Keys == m.Keys + Elements(inputs[..j])
      invariant forall v :: v in r ==> r[v] == (if v in m then m[v] else {}) + if v in inputs[..j] then {src} else {}
    {
      assert forall x :: x in inputs[..j + 1] <==> x in inputs[..j] || x == inputs[j];
      assert Elements(inputs[..j + 1]) == Elements(inputs[..j]) + {inputs[j]};
      r := AddTo(r, inputs[j], src);
    }
    assert inputs[..|inputs|] == inputs;
  }

  /** The outputs as far as the nodes of `done` contribute to them. */
  ghost predicate Collected(f: Flow, done: set<Node>, m: map<Node, set<Node>>) {
    && (forall v :: v in m <==> v in f || OutputSet(f, v) * done != {})
    && (forall v :: v in m ==> m[v] == OutputSet(f, v) * done)
  }

  lemma CollectStep(f: Flow, done: set<Node>, src: Node, before: map<Node, set<Node>>, m: map<Node, set<Node>>)
    requires Collected(f, done, before) && src in f
    requires m.Keys == before.Keys + Elements(f[src].input)
    requires forall v :: v in m ==>
      m[v] == (if v in before then before[v] else {}) + if v in f[src].input then {src} else {}
    ensures Collected(f, done + {src}, m)
  {
    forall v
      ensures v in m <==> v in f || OutputSet(f, v) * (done + {src}) != {}
      ensures v in m ==> m[v] == OutputSet(f, v) * (done + {src})
    {
      OutputsGrow(f, done, src, v);
      var old', new' := OutputSet(f, v) * done, OutputSet(f, v) * (done + {src});
      assert v in before <==> v in f || old' != {};
      if v in f[src].input {
        assert src in new';
        assert v in Elements(f[src].input);
      } else {
        assert v !in Elements(f[src].input);
        assert new' == old';
      }
    }
  }

  lemma OutputsGrow(f: Flow, done: set<Node>, src: Node, v: Node)
    requires src in f
    ensures OutputSet(f, v) * (done + {src}) == (OutputSet(f, v) * done) + if v in f[src].input then {src} else {}
  {
  }

  /** Adds every node to the outputs of each of its inputs. */
  lemma CollectStart(f: Flow, empty: map<Node, set<Node>>)
    requires empty.Keys == f.Keys && forall v :: v in empty ==> empty[v] == {}
    ensures Collected(f, {}, empty)
  {
  }

  method CollectOutputs(f: Flow, all: seq<Node>, empty: map<Node, set<Node>>) returns (m: map<Node, set<Node>>)
    requires Elements(all) == f.Keys
    requires empty.Keys == f.Keys && forall v :: v in empty ==> empty[v] == {}
    ensures Collected(f, f.Keys, m)
  {
    CollectStart(f, empty);
    hide Collected;
    m := empty;
    ghost var done: set<Node> := {};
    for i := 0 to |all|
      invariant done == Elements(all[..i]) <= f.Keys
      invariant Collected(f, done, m)
    {
      var src := all[i];
      assert src in Elements(all);
      ghost var before := m;
      m := AddSource(m, f[src].input, src);
      CollectStep(f, done, src, before, m);
      assert Elements(all[..i + 1]) == done + {src};
      done := done + {src};
    }
    assert all[..|all|] == all;
  }

  lemma CollectedAll(f: Flow, m: map<Node, set<Node>>)
    requires Collected(f, f.Keys, m)
    ensures m.Keys == Mentioned(f)
    ensures forall v :: v in m ==> m[v] == OutputSet(f, v)
  {
    forall v
      ensures OutputSet(f, v) * f.Keys == OutputSet(f, v)
      ensures v in m <==> v in Mentioned(f)
    {
      if w :| w in OutputSet(f, v) * f.Keys {
        assert v in Elements(f[w].input);
      }
      if v in Mentioned(f) && v !in f {
        var w :| w in f && v in f[w].input;
        assert w in OutputSet(f, v) * f.Keys;
      }
    }
  }

  method SortOutputs(f: Flow, m: map<Node, set<Node>>) returns (r: map<Node, seq<Node>>)
    requires m.Keys == Mentioned(f)
    requires forall v :: v in m ==> m[v] == OutputSet(f, v)
    ensures AreOutputs(f, r)
  {
    r := map[];
    var todo := m.Keys;
    while todo != {}
      invariant todo <= m.Keys
      invariant r.Keys == m.Keys - todo
      invariant forall v :: v in r ==> r[v] == SortedNodes(OutputSet(f, v))
      decreases |todo|
    {
      var v :| v in todo;
      var outputs := SortNodes(m[v]);
      r := r[v := outputs];
      todo := todo - {v};
    }
  }
}
