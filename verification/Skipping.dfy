/** Resolving inputs through skipped nodes, and why that is contraction. */
module Skipping {
  import opened Ordering
  import opened Digraphs
  import opened Surgery
  import opened Flows
  import opened Edits

  /** No cycle consists of nodes of `s`: looking through them comes to an end. */
  ghost predicate NoLoopIn(g: Graph<Node>, s: set<Node>) {
    Closed(g) && Acyclic(Among(g, s))
  }

  lemma AcyclicNoLoop(g: Graph<Node>, s: set<Node>)
    requires Closed(g) && Acyclic(g)
    ensures NoLoopIn(g, s)
  {
    forall v | v in Among(g, s)
      ensures !OnCycle(Among(g, s), v)
    {
      if OnCycle(Among(g, s), v) {
        AmongOnCycle(g, s, v);
      }
    }
  }

  lemma AmongClosed(g: Graph<Node>, s: set<Node>)
    requires Closed(g)
    ensures Closed(Among(g, s))
  {
    forall u | u in Among(g, s)
      ensures Among(g, s)[u] <= Among(g, s).Keys
    {
      assert g[u] <= g.Keys;
    }
  }

  /** How many nodes of `s` can follow one another from a node of `s` on; 0 for other nodes. */
  ghost function Depth(g: Graph<Node>, s: set<Node>, u: Node): nat
    requires NoLoopIn(g, s)
  {
    AmongClosed(g, s);
    if u in g && u in s then Height(Among(g, s), u) + 1 else 0
  }

  function Top(s: set<Node>, v: Node): nat {
    if v in s then 0 else 1
  }

  lemma InputsLower(g: Graph<Node>, s: set<Node>, v: Node)
    requires NoLoopIn(g, s) && v in g
    ensures forall u :: u in g[v] ==> u in g && (v in s ==> Depth(g, s, u) < Depth(g, s, v))
  {
    AmongClosed(g, s);
    assert g[v] <= g.Keys;
    forall u | u in g[v] && v in s
      ensures Depth(g, s, u) < Depth(g, s, v)
    {
      if u in s {
        HeightDrops(Among(g, s), v, u);
      }
    }
  }

  /** What one input stands for: itself, or what is found behind it if it was skipped. */
  ghost function Behind(g: Graph<Node>, view: set<Node>, skipped: set<Node>, u: Node): set<Node>
    requires NoLoopIn(g, skipped * view) && u in g
    decreases 0, Depth(g, skipped * view, u), 1
  {
    if u !in skipped then {u}
    else if u !in view then g[u]
    else Resolved(g, view, skipped, u)
  }

  /** The inputs of `v`, looking through skipped nodes. */
  ghost function Resolved(g: Graph<Node>, view: set<Node>, skipped: set<Node>, v: Node): set<Node>
    requires NoLoopIn(g, skipped * view) && v in g
    decreases Top(skipped * view, v), Depth(g, skipped * view, v), 0
  {
    InputsLower(g, skipped * view, v);
    set u, w | u in g[v] && w in Behind(g, view, skipped, u) :: w
  }

  // ----------------------------------------------------------- contraction

  lemma ContractKeepsNoLoop(g: Graph<Node>, skipped: set<Node>, n: Node)
    requires NoLoopIn(g, skipped) && n in g && n in skipped
    ensures n !in g[n] && NoLoopIn(Contract(g, n), skipped - {n})
  {
    var a := Among(g, skipped);
    AmongClosed(g, skipped);
    if n in g[n] {
      ReachesSelf(a, n);
      CycleThrough(a, n, n);
    }
    ContractClosed(g, n);
    ContractAcyclic(a, n);
    forall u | u in a && u != n
      ensures Among(Contract(g, n), skipped - {n})[u] == Contract(a, n)[u]
    {
    }
    assert Among(Contract(g, n), skipped - {n}) == Contract(a, n);
  }

  // ------------------------------------- looking through skipped nodes alone

  /** The inputs of `v` with every skipped one replaced, all the way, by the inputs behind it. */
  ghost function Through(g: Graph<Node>, skipped: set<Node>, v: Node): set<Node>
    requires NoLoopIn(g, skipped) && v in g
    decreases Top(skipped, v), Depth(g, skipped, v), 0
  {
    InputsLower(g, skipped, v);
    set u, w | u in g[v] && w in Stands(g, skipped, u) :: w
  }

  ghost function Stands(g: Graph<Node>, skipped: set<Node>, u: Node): set<Node>
    requires NoLoopIn(g, skipped) && u in g
    decreases 0, Depth(g, skipped, u), 1
  {
    if u in skipped then Through(g, skipped, u) else {u}
  }

  lemma InThrough(g: Graph<Node>, skipped: set<Node>, v: Node, w: Node)
    requires NoLoopIn(g, skipped) && v in g
    ensures w in Through(g, skipped, v) <==> exists u :: u in g[v] && w in Stands(g, skipped, u)
  {
  }

  /** Contracting one skipped node does not change what is found behind the others. */
  lemma {:induction false} StandsAfterContract(g: Graph<Node>, skipped: set<Node>, s: Node, u: Node)
    requires NoLoopIn(g, skipped) && u in g && s in g && u != s && s in skipped
    ensures NoLoopIn(Contract(g, s), skipped - {s})
    ensures Stands(Contract(g, s), skipped - {s}, u) == Stands(g, skipped, u)
    decreases 0, Depth(g, skipped, u), 1
  {
    ContractKeepsNoLoop(g, skipped, s);
    if u in skipped {
      ThroughAfterContract(g, skipped, s, u);
    }
  }

  lemma {:induction false} ThroughAfterContract(g: Graph<Node>, skipped: set<Node>, s: Node, v: Node)
    requires NoLoopIn(g, skipped) && v in g && s in g && v != s && s in skipped
    ensures NoLoopIn(Contract(g, s), skipped - {s})
    ensures Through(Contract(g, s), skipped - {s}, v) == Through(g, skipped, v)
    decreases Top(skipped, v), Depth(g, skipped, v), 0
  {
    ContractKeepsNoLoop(g, skipped, s);
    InputsLower(g, skipped, v);
    InputsLower(g, skipped, s);
    var h, rest := Contract(g, s), skipped - {s};
    forall u | u in g[v] && u != s
      ensures Stands(h, rest, u) == Stands(g, skipped, u)
    {
      StandsAfterContract(g, skipped, s, u);
    }
    if s in g[v] {
      forall u | u in g[s]
        ensures Stands(h, rest, u) == Stands(g, skipped, u)
      {
        StandsAfterContract(g, skipped, s, u);
      }
    }
    forall w
      ensures w in Through(h, rest, v) <==> w in Through(g, skipped, v)
    {
      ThroughStep(g, h, skipped, rest, s, v, w);
    }
  }

  lemma ThroughStep(g: Graph<Node>, h: Graph<Node>, skipped: set<Node>, rest: set<Node>, s: Node, v: Node, w: Node)
    requires NoLoopIn(g, skipped) && v in g && s in g && v != s && s in skipped && s !in g[s]
    requires h == Contract(g, s) && rest == skipped - {s} && NoLoopIn(h, rest)
    requires forall u :: u in g[v] && u != s ==> u in h && Stands(h, rest, u) == Stands(g, skipped, u)
    requires s in g[v] ==> forall u :: u in g[s] ==> u in h && Stands(h, rest, u) == Stands(g, skipped, u)
    ensures w in Through(h, rest, v) <==> w in Through(g, skipped, v)
  {
    InThrough(g, skipped, v, w);
    InThrough(h, rest, v, w);
    InThrough(g, skipped, s, w);
    if w in Through(h, rest, v) {
      var u :| u in h[v] && w in Stands(h, rest, u);
      if u in g[v] {
        assert w in Stands(g, skipped, u);
      } else {
        assert w in Stands(g, skipped, s);
      }
    }
    if w in Through(g, skipped, v) {
      var u :| u in g[v] && w in Stands(g, skipped, u);
      if u == s {
        var x :| x in g[s] && w in Stands(g, skipped, x);
        assert x in h[v];
      } else {
        assert u in h[v];
      }
    }
  }

  /** Looking through skipped nodes is contracting them, in whatever order. */
  lemma {:induction false} ThroughIsContraction(g: Graph<Node>, skipped: set<Node>, order: seq<Node>, v: Node)
    requires NoLoopIn(g, skipped) && v in g && v !in skipped
    requires Distinct(order) && Elements(order) == skipped * g.Keys
    ensures v in ContractAll(g, order) && ContractAll(g, order)[v] == Through(g, skipped, v)
    decreases |order|
  {
    if order == [] {
      forall u | u in g[v]
        ensures Stands(g, skipped, u) == {u}
      {
        assert u !in skipped * g.Keys;
      }
      forall w
        ensures w in Through(g, skipped, v) <==> w in g[v]
      {
        InThrough(g, skipped, v, w);
      }
    } else {
      var s := order[0];
      assert s in Elements(order);
      ThroughAfterContract(g, skipped, s, v);
      var h := Contract(g, s);
      assert order == [s] + order[1..];
      assert Elements(order[1..]) == (skipped - {s}) * h.Keys by {
        assert forall i :: 0 <= i < |order[1..]| ==> order[1..][i] == order[i + 1];
        assert Elements(order) == {s} + Elements(order[1..]);
      }
      ThroughIsContraction(h, skipped - {s}, order[1..], v);
    }
  }

  // ------------------------------------------------- the runtime's resolution

  lemma InResolved(g: Graph<Node>, view: set<Node>, skipped: set<Node>, v: Node, w: Node)
    requires NoLoopIn(g, skipped * view) && v in g
    ensures w in Resolved(g, view, skipped, v) <==> exists u :: u in g[v] && w in Behind(g, view, skipped, u)
  {
  }

  /** The nodes a set stands for when its skipped members are expanded by one level only. */
  ghost function OneLevel(g: Graph<Node>, outside: set<Node>, s: set<Node>): set<Node>
    requires Closed(g)
  {
    (s - outside) + set u, w | u in s && u in outside && u in g && w in g[u] :: w
  }

  lemma {:induction false} BehindIsThrough(g: Graph<Node>, view: set<Node>, skipped: set<Node>, u: Node)
    requires NoLoopIn(g, skipped * view) && u in g
    ensures Behind(g, view, skipped, u) == OneLevel(g, skipped - view, Stands(g, skipped * view, u))
    decreases 0, Depth(g, skipped * view, u), 1
  {
    if u in skipped && u in view {
      ResolvedIsThrough(g, view, skipped, u);
    }
  }

  /**
   * The runtime's inputs of `v`: skipped nodes of the view are looked through all the way; a
   * skipped node met outside the view is replaced by its direct inputs, whatever their status.
   * Cycles elsewhere do no harm.
   */
  lemma {:induction false} ResolvedIsThrough(g: Graph<Node>, view: set<Node>, skipped: set<Node>, v: Node)
    requires NoLoopIn(g, skipped * view) && v in g
    ensures Resolved(g, view, skipped, v) == OneLevel(g, skipped - view, Through(g, skipped * view, v))
    decreases Top(skipped * view, v), Depth(g, skipped * view, v), 0
  {
    var outside := skipped - view;
    InputsLower(g, skipped * view, v);
    forall u | u in g[v]
      ensures Behind(g, view, skipped, u) == OneLevel(g, outside, Stands(g, skipped * view, u))
    {
      BehindIsThrough(g, view, skipped, u);
    }
    forall w
      ensures w in Resolved(g, view, skipped, v) <==> w in OneLevel(g, outside, Through(g, skipped * view, v))
    {
      ExpandUnion(g, view, skipped, v, w);
    }
  }

  lemma ExpandUnion(g: Graph<Node>, view: set<Node>, skipped: set<Node>, v: Node, w: Node)
    requires NoLoopIn(g, skipped * view) && v in g
    requires forall u :: u in g[v] ==>
      Behind(g, view, skipped, u) == OneLevel(g, skipped - view, Stands(g, skipped * view, u))
    ensures w in Resolved(g, view, skipped, v) <==> w in OneLevel(g, skipped - view, Through(g, skipped * view, v))
  {
    var outside, inside := skipped - view, skipped * view;
    InResolved(g, view, skipped, v, w);
    if w in Resolved(g, view, skipped, v) {
      var u :| u in g[v] && w in Behind(g, view, skipped, u);
      var x :| x in Stands(g, inside, u) && (if x in outside then x in g && w in g[x] else w == x);
      InThrough(g, inside, v, x);
    }
    if w in OneLevel(g, outside, Through(g, inside, v)) {
      var x :| x in Through(g, inside, v) && (if x in outside then x in g && w in g[x] else w == x);
      InThrough(g, inside, v, x);
      var u :| u in g[v] && x in Stands(g, inside, u);
      assert w in OneLevel(g, outside, Stands(g, inside, u));
    }
  }

  /**
   * Skipping is contraction: when no skipped node is outside the view, the resolved inputs of a
   * node that was not skipped are its direct inputs after contracting every skipped node.
   */
  lemma SkippingIsContraction(g: Graph<Node>, view: set<Node>, skipped: set<Node>, order: seq<Node>, v: Node)
    requires NoLoopIn(g, skipped * view) && v in g && v !in skipped
    requires skipped * g.Keys <= view
    requires Distinct(order) && Elements(order) == skipped * g.Keys
    ensures v in ContractAll(g, order) && Resolved(g, view, skipped, v) == ContractAll(g, order)[v]
    ensures Resolved(g, view, skipped, v) !! skipped
  {
    var inside := skipped * view;
    assert inside * g.Keys == skipped * g.Keys;
    ThroughIsContraction(g, inside, order, v);
    ThroughStaysIn(g, inside, v);
    ResolvedIsThrough(g, view, skipped, v);
    OneLevelNothing(g, skipped - view, Through(g, inside, v));
  }

  lemma OneLevelNothing(g: Graph<Node>, outside: set<Node>, s: set<Node>)
    requires Closed(g) && s !! outside
    ensures OneLevel(g, outside, s) == s
  {
  }

  lemma {:induction false} ThroughStaysIn(g: Graph<Node>, skipped: set<Node>, v: Node)
    requires NoLoopIn(g, skipped) && v in g
    ensures Through(g, skipped, v) <= g.Keys - skipped
    decreases Top(skipped, v), Depth(g, skipped, v)
  {
    InputsLower(g, skipped, v);
    forall w | w in Through(g, skipped, v)
      ensures w in g && w !in skipped
    {
      InThrough(g, skipped, v, w);
      var u :| u in g[v] && w in Stands(g, skipped, u);
      if u in skipped {
        ThroughStaysIn(g, skipped, u);
      }
    }
  }

  /** A skipped node is left among the inputs exactly when it is an input of a skipped node met outside the view. */
  lemma LeakIff(g: Graph<Node>, view: set<Node>, skipped: set<Node>, v: Node, w: Node)
    requires NoLoopIn(g, skipped * view) && v in g && w in skipped
    ensures w in Resolved(g, view, skipped, v)
      <==> exists u :: u in Through(g, skipped * view, v) && u in skipped && u !in view && u in g && w in g[u]
  {
    ResolvedIsThrough(g, view, skipped, v);
    ThroughStaysIn(g, skipped * view, v);
  }

  // ------------------------------------------------- contraction is remove_node

  /**
   * With nothing pruned and every node in view, the resolved inputs of a node that was not skipped
   * are its inputs once `remove_node` has been applied to every skipped node, in any order.
   */
  lemma SkippingIsRemoval(f: Flow, skipped: set<Node>, order: seq<Node>, v: Node)
    requires NoDangling(f) && NoLoopIn(Inputs(f), skipped) && v in f && v !in skipped
    requires Distinct(order) && Elements(order) == skipped * f.Keys
    ensures NoLoopIn(Cut(f, {}), skipped * f.Keys)
    ensures v in RemoveSeq(f, order)
    ensures Resolved(Cut(f, {}), f.Keys, skipped, v) == Elements(RemoveSeq(f, order)[v].input)
  {
    hide Through, Resolved, RemoveSeq, ContractAll, Among, Acyclic;
    CutNothing(f);
    assert Inputs(f).Keys == f.Keys;
    AmongKeys(Inputs(f), skipped);
    SkippingIsContraction(Inputs(f), f.Keys, skipped, order, v);
    RemoveSeqContracts(f, order);
    assert v in Inputs(RemoveSeq(f, order));
  }
}
