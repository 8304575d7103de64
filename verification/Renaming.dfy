/** Renaming the nodes of a flow, and when that leaves the graph as it was. */
module Renaming {
  import opened Ordering
  import opened Digraphs
  import opened Surgery
  import opened Flows

  /** Every node of `f` under its new name, with its inputs under their new names. */
  function Relabel(f: Flow, r: Node -> Node): Flow
    requires InjectiveOn(r, f.Keys)
  {
    map v | v in f :: r(v) := f[v].(input := MapSeq(r, f[v].input))
  }

  lemma MapSeqElements(r: Node -> Node, s: seq<Node>)
    ensures Elements(MapSeq(r, s)) == Image(r, Elements(s))
  {
    var t := MapSeq(r, s);
    forall x | x in Elements(t)
      ensures x in Image(r, Elements(s))
    {
      var i :| 0 <= i < |t| && t[i] == x;
      assert s[i] in Elements(s);
    }
    forall x | x in Image(r, Elements(s))
      ensures x in Elements(t)
    {
      var y :| y in s && r(y) == x;
      var i :| 0 <= i < |s| && s[i] == y;
      assert t[i] == x;
    }
  }

  lemma MapSeqDistinctIff(r: Node -> Node, s: seq<Node>)
    requires InjectiveOn(r, Elements(s))
    ensures Distinct(MapSeq(r, s)) <==> Distinct(s)
  {
    assert forall i :: 0 <= i < |s| ==> s[i] in Elements(s) && MapSeq(r, s)[i] == r(s[i]);
  }

  ghost predicate IsRelabelling(f: Flow, r: Node -> Node, g: Flow) {
    && g.Keys == Image(r, f.Keys)
    && forall v :: v in f ==> r(v) in g && g[r(v)] == f[v].(input := MapSeq(r, f[v].input))
  }

  lemma RelabelData(f: Flow, r: Node -> Node)
    requires InjectiveOn(r, f.Keys)
    ensures IsRelabelling(f, r, Relabel(f, r))
  {
  }

  lemma RelabellingUnique(f: Flow, r: Node -> Node, g: Flow, h: Flow)
    requires IsRelabelling(f, r, g) && IsRelabelling(f, r, h)
    ensures g == h
  {
    forall w | w in g
      ensures w in h && g[w] == h[w]
    {
      var v :| v in f && r(v) == w;
    }
  }

  /** Relabelling two disjoint flows separately is relabelling them together. */
  lemma RelabellingUnion(a: Flow, b: Flow, r: Node -> Node, x: Flow, y: Flow)
    requires InjectiveOn(r, (a + b).Keys) && a.Keys !! b.Keys
    requires IsRelabelling(a, r, x) && IsRelabelling(b, r, y)
    ensures IsRelabelling(a + b, r, x + y)
  {
    forall w | w in y
      ensures w !in x
    {
      var u :| u in b && r(u) == w;
      assert u in a + b;
      assert forall v :: v in a ==> v in a + b;
    }
    forall v | v in a + b
      ensures r(v) in x + y && (x + y)[r(v)] == (a + b)[v].(input := MapSeq(r, (a + b)[v].input))
    {
    }
    assert (x + y).Keys == Image(r, a.Keys) + Image(r, b.Keys) == Image(r, (a + b).Keys);
  }

  lemma MentionedDefined(f: Flow)
    requires NoDangling(f)
    ensures Mentioned(f) == f.Keys
  {
    forall u | u in Referenced(f)
      ensures u in f
    {
      var v :| v in f && u in f[v].input;
      assert u in Inputs(f)[v];
    }
  }

  lemma InputsMentioned(f: Flow, v: Node)
    requires v in f
    ensures Inputs(f)[v] <= Mentioned(f)
  {
  }

  lemma RelabelledInputs(f: Flow, r: Node -> Node, v: Node)
    requires InjectiveOn(r, f.Keys) && v in f
    ensures var h := Inputs(Relabel(f, r)); r(v) in h && h[r(v)] == Image(r, Inputs(f)[v])
    ensures Inputs(Relabel(f, r)).Keys == Image(r, f.Keys)
  {
    RelabelData(f, r);
    MapSeqElements(r, f[v].input);
  }

  lemma InjectiveOnPart(r: Node -> Node, s: set<Node>, t: set<Node>)
    requires InjectiveOn(r, t) && s <= t
    ensures InjectiveOn(r, s)
  {
  }

  lemma FillRelabelled(g: Graph<Node>, h: Graph<Node>, r: Node -> Node, names: set<Node>)
    requires InjectiveOn(r, names) && g.Keys <= names && h.Keys == Image(r, g.Keys)
    requires forall v :: v in g ==> g[v] <= names && r(v) in h && h[r(v)] == Image(r, g[v])
    ensures Closed(Fill(g, names)) && Relabelled(Fill(g, names), Fill(h, Image(r, names)), r)
  {
    assert g.Keys + names == names && h.Keys + Image(r, names) == Image(r, names);
  }

  /** Where no two names the flow mentions become one, it is the same graph under the new names. */
  lemma RelabelFlow(f: Flow, r: Node -> Node)
    requires InjectiveOn(r, Mentioned(f))
    ensures InjectiveOn(r, f.Keys)
    ensures var g, h := Inputs(f), Inputs(Relabel(f, r));
      Closed(Fill(g, Mentioned(f))) && Relabelled(Fill(g, Mentioned(f)), Fill(h, Image(r, Mentioned(f))), r)
  {
    KeysMentioned(f);
    InjectiveOnPart(r, f.Keys, Mentioned(f));
    RelabelData(f, r);
    var g, h := Inputs(f), Inputs(Relabel(f, r));
    assert g.Keys == f.Keys && h.Keys == Relabel(f, r).Keys == Image(r, f.Keys);
    hide *;
    forall v | v in f
      ensures g[v] <= Mentioned(f) && r(v) in h && h[r(v)] == Image(r, g[v])
    {
      InputsMentioned(f, v);
      RelabelledInputs(f, r, v);
    }
    FillRelabelled(g, h, r, Mentioned(f));
  }

  lemma RelabelledNode(f: Flow, r: Node -> Node, v: Node)
    requires InjectiveOn(r, Mentioned(f)) && v in f
    ensures InjectiveOn(r, f.Keys)
    ensures var h := Relabel(f, r);
      && h.Keys == Image(r, f.Keys) && r(v) in h
      && (Distinct(h[r(v)].input) <==> Distinct(f[v].input))
      && (Inputs(h)[r(v)] <= h.Keys <==> Inputs(f)[v] <= f.Keys)
  {
    RelabelData(f, r);
    InputsMentioned(f, v);
    hide Relabel, MapSeq, Distinct, Mentioned, Image;
    assert f.Keys <= Mentioned(f) by {
      KeysMentioned(f);
    }
    MapSeqDistinctIff(r, f[v].input);
    MapSeqElements(r, f[v].input);
    ImageWithin(r, Inputs(f)[v], f.Keys, Mentioned(f));
  }

  lemma KeysMentioned(f: Flow)
    ensures f.Keys <= Mentioned(f)
  {
  }

  lemma WellFormedIs(f: Flow)
    ensures WellFormed(f) <==> forall v :: v in f ==> Inputs(f)[v] <= f.Keys && Distinct(f[v].input)
  {
    assert Inputs(f).Keys == f.Keys;
    hide Inputs, Distinct;
  }

  lemma WellFormedImage(f: Flow, h: Flow, r: Node -> Node)
    requires h.Keys == Image(r, f.Keys)
    ensures forall v :: v in f ==> r(v) in h
    ensures WellFormed(h) <==> forall v :: v in f ==> Inputs(h)[r(v)] <= h.Keys && Distinct(h[r(v)].input)
  {
    WellFormedIs(h);
    hide Inputs, Distinct, WellFormed;
    assert forall w :: w in h ==> exists v :: v in f && r(v) == w;
  }

  /** Renaming neither repeats nor loses an input, nor takes one away from the flow. */
  lemma RelabelWellFormed(f: Flow, r: Node -> Node)
    requires InjectiveOn(r, Mentioned(f))
    ensures InjectiveOn(r, f.Keys)
    ensures WellFormed(Relabel(f, r)) <==> WellFormed(f)
  {
    KeysMentioned(f);
    var h := Relabel(f, r);
    RelabelData(f, r);
    assert h.Keys == Image(r, f.Keys);
    hide *;
    WellFormedIs(f);
    WellFormedImage(f, h, r);
    forall v | v in f
      ensures Inputs(h)[r(v)] <= h.Keys && Distinct(h[r(v)].input) <==> Inputs(f)[v] <= f.Keys && Distinct(f[v].input)
    {
      RelabelledNode(f, r, v);
    }
  }

  lemma ImageWithin(r: Node -> Node, s: set<Node>, t: set<Node>, names: set<Node>)
    requires InjectiveOn(r, names) && s <= names && t <= names
    ensures Image(r, s) <= Image(r, t) <==> s <= t
  {
    if Image(r, s) <= Image(r, t) {
      forall x | x in s
        ensures x in t
      {
        assert r(x) in Image(r, t);
      }
    }
  }

  /** The same for the edges between defined nodes. */
  lemma RelabelWired(f: Flow, r: Node -> Node)
    requires InjectiveOn(r, Mentioned(f))
    ensures InjectiveOn(r, f.Keys) && Relabelled(Wired(f), Wired(Relabel(f, r)), r)
  {
    var h := Relabel(f, r);
    RelabelData(f, r);
    forall v | v in f
      ensures Wired(h)[r(v)] == Image(r, Wired(f)[v])
    {
      InputsMentioned(f, v);
      MapSeqElements(r, f[v].input);
      ImageMeets(r, Elements(f[v].input), f.Keys, Mentioned(f));
    }
  }

  lemma ImageMeets(r: Node -> Node, s: set<Node>, t: set<Node>, names: set<Node>)
    requires InjectiveOn(r, names) && s <= names && t <= names
    ensures Image(r, s) * Image(r, t) == Image(r, s * t)
  {
    forall w | w in Image(r, s) * Image(r, t)
      ensures w in Image(r, s * t)
    {
      var x :| x in s && r(x) == w;
      var y :| y in t && r(y) == w;
    }
  }

  lemma RelabelledReverse(g: Graph<Node>, h: Graph<Node>, r: Node -> Node)
    requires Closed(g) && Relabelled(g, h, r)
    ensures Closed(h) && Relabelled(Reverse(g), Reverse(h), r)
  {
    forall v | v in g
      ensures Reverse(h)[r(v)] == Image(r, Reverse(g)[v])
    {
      forall w | w in Reverse(h)[r(v)]
        ensures w in Image(r, Reverse(g)[v])
      {
        var u :| u in g && r(u) == w;
        assert r(v) in Image(r, g[u]);
      }
      forall w | w in Image(r, Reverse(g)[v])
        ensures w in Reverse(h)[r(v)]
      {
        var u :| u in Reverse(g)[v] && r(u) == w;
        assert r(v) in Image(r, g[u]);
      }
    }
    forall w | w in h
      ensures h[w] <= h.Keys
    {
      var v :| v in g && r(v) == w;
      assert h[w] == Image(r, g[v]);
    }
  }

  /**
   * A relabelled flow is the same graph, connections and levels carry over in both directions, where
   * no two names that the flow mentions become one.
   */
  lemma RelabelIsomorphic(f: Flow, r: Node -> Node, reverse: bool, u: Node)
    requires InjectiveOn(r, Mentioned(f)) && u in f
    ensures InjectiveOn(r, f.Keys)
    ensures var g, h := Dependencies(f, reverse), Dependencies(Relabel(f, r), reverse);
      && (forall v :: v in f ==> (Reaches(h, r(u), r(v)) <==> Reaches(g, u, v)))
      && (OnCycle(h, r(u)) <==> OnCycle(g, u))
      && (forall k: nat :: LongestWalk(h, r(u), k) <==> LongestWalk(g, u, k))
  {
    RelabelFlow(f, r);
    if reverse {
      OutputsRelabelled(f, r);
      RelabelledSame(Outputs(f), Outputs(Relabel(f, r)), r, u);
    } else {
      FilledSame(Inputs(f), Inputs(Relabel(f, r)), r, Mentioned(f), u);
    }
  }

  lemma RelabelAcyclic(f: Flow, r: Node -> Node)
    requires InjectiveOn(r, Mentioned(f))
    ensures InjectiveOn(r, f.Keys)
    ensures Acyclic(Inputs(Relabel(f, r))) <==> Acyclic(Inputs(f))
  {
    var g, h := Inputs(f), Inputs(Relabel(f, r));
    RelabelData(f, r);
    hide Relabel, Inputs, OnCycle, LongestWalk, Reaches;
    assert g.Keys == f.Keys && h.Keys == Image(r, f.Keys);
    forall u | u in g
      ensures OnCycle(h, r(u)) <==> OnCycle(g, u)
    {
      RelabelIsomorphic(f, r, false, u);
    }
    assert forall w :: w in h ==> exists v :: v in g && r(v) == w;
  }

  lemma OutputsRelabelled(f: Flow, r: Node -> Node)
    requires InjectiveOn(r, Mentioned(f))
    ensures InjectiveOn(r, f.Keys)
    ensures Closed(Outputs(f)) && Outputs(f).Keys == f.Keys && Relabelled(Outputs(f), Outputs(Relabel(f, r)), r)
  {
    RelabelWired(f, r);
    hide *;
    WiredBack(f);
    WiredBack(Relabel(f, r));
    RelabelledReverse(Wired(f), Wired(Relabel(f, r)), r);
  }

  lemma EntriesRelabelled(f: Flow, r: Node -> Node)
    requires InjectiveOn(r, f.Keys)
    ensures Entries(Relabel(f, r)) == Image(r, Entries(f))
  {
    RelabelData(f, r);
  }

  lemma RelabelEnds(f: Flow, r: Node -> Node)
    requires InjectiveOn(r, Mentioned(f))
    ensures InjectiveOn(r, f.Keys)
    ensures Entries(Relabel(f, r)) == Image(r, Entries(f))
    ensures Exits(Relabel(f, r)) == Image(r, Exits(f))
  {
    KeysMentioned(f);
    InjectiveOnPart(r, f.Keys, Mentioned(f));
    hide *;
    EntriesRelabelled(f, r);
    OutputsRelabelled(f, r);
    ExitsAreSinks(f);
    ExitsAreSinks(Relabel(f, r));
    SourcesRelabelled(Outputs(f), Outputs(Relabel(f, r)), r);
  }

  lemma SourcesRelabelled(g: Graph<Node>, h: Graph<Node>, r: Node -> Node)
    requires Relabelled(g, h, r)
    ensures (set w | w in h && h[w] == {}) == Image(r, set v | v in g && g[v] == {})
  {
    forall v | v in g
      ensures h[r(v)] == {} <==> g[v] == {}
    {
      if x :| x in g[v] {
        assert r(x) in Image(r, g[v]);
      }
    }
  }

  /** An input that is not defined itself gets the new name of a defined node. */
  ghost predicate Collides(f: Flow, r: Node -> Node, c: Node, y: Node, x: Node) {
    c in f && y in f[c].input && y !in f && x in f && r(y) == r(x)
  }

  lemma RelabelledForward(f: Flow, r: Node -> Node, p: seq<Node>)
    requires InjectiveOn(r, f.Keys) && IsWalk(Inputs(f), p)
    ensures IsWalk(Inputs(Relabel(f, r)), MapSeq(r, p))
  {
    var g, h, q := Inputs(f), Inputs(Relabel(f, r)), MapSeq(r, p);
    RelabelData(f, r);
    forall i | 0 <= i < |q| - 1
      ensures q[i] in h && q[i + 1] in h[q[i]]
    {
      assert p[i] in g && p[i + 1] in g[p[i]];
      MapSeqElements(r, f[p[i]].input);
      assert r(p[i + 1]) in Image(r, g[p[i]]);
    }
  }

  /** A step of the relabelled flow is one of the flow, or goes through a name that collides. */
  lemma RelabelledStep(f: Flow, r: Node -> Node, u: Node, x: Node)
    requires InjectiveOn(r, f.Keys) && u in f && x in f && r(x) in Inputs(Relabel(f, r))[r(u)]
    requires forall c, y, z :: Collides(f, r, c, y, z) ==> Reaches(Inputs(f), c, z)
    ensures Reaches(Inputs(f), u, x)
  {
    RelabelData(f, r);
    MapSeqElements(r, f[u].input);
    var y :| y in f[u].input && r(y) == r(x);
    if y in f {
      assert y in Inputs(f)[u];
      ReachesStep(Inputs(f), u, x);
    } else {
      assert Collides(f, r, u, y, x);
    }
  }

  lemma {:induction false} RelabelledBack(f: Flow, r: Node -> Node, q: seq<Node>, u: Node, v: Node)
    requires InjectiveOn(r, f.Keys) && u in f && v in f && WalkBetween(Inputs(Relabel(f, r)), q, r(u), r(v))
    requires forall c, y, z :: Collides(f, r, c, y, z) ==> Reaches(Inputs(f), c, z)
    ensures Reaches(Inputs(f), u, v)
    decreases |q|
  {
    var h := Inputs(Relabel(f, r));
    if |q| == 1 {
      ReachesSelf(Inputs(f), u);
    } else {
      WalkFirstStep(h, q);
      WalkSlice(h, q, 1, |q| - 1);
      assert q[1..|q| - 1 + 1] == q[1..];
      var x := if |q| == 2 then v else NodeNamed(f, r, q[1]);
      if |q| > 2 {
        assert q[1] in h && q[1 + 1] in h[q[1]];
      }
      RelabelledStep(f, r, u, x);
      RelabelledBack(f, r, q[1..], x, v);
      ReachesTransitive(Inputs(f), u, x, v);
    }
  }

  ghost function NodeNamed(f: Flow, r: Node -> Node, w: Node): (v: Node)
    ensures InjectiveOn(r, f.Keys) && w in Relabel(f, r) ==> v in f && r(v) == w
  {
    if v :| v in f && r(v) == w then v else w
  }

  /**
   * The connections between the nodes are the same under the new names exactly when every input that
   * gets the name of a defined node leads there already.
   */
  lemma RelabelReachesIff(f: Flow, r: Node -> Node)
    requires InjectiveOn(r, f.Keys)
    ensures (forall u, v :: u in f && v in f ==>
      (Reaches(Inputs(Relabel(f, r)), r(u), r(v)) <==> Reaches(Inputs(f), u, v)))
      <==> forall c, y, x :: Collides(f, r, c, y, x) ==> Reaches(Inputs(f), c, x)
  {
    var g, h := Inputs(f), Inputs(Relabel(f, r));
    if forall c, y, x :: Collides(f, r, c, y, x) ==> Reaches(g, c, x) {
      forall u, v | u in f && v in f
        ensures Reaches(h, r(u), r(v)) <==> Reaches(g, u, v)
      {
        if p :| WalkBetween(g, p, u, v) {
          RelabelledForward(f, r, p);
          assert WalkBetween(h, MapSeq(r, p), r(u), r(v));
        }
        if q :| WalkBetween(h, q, r(u), r(v)) {
          RelabelledBack(f, r, q, u, v);
        }
      }
    }
    if forall u, v :: u in f && v in f ==> (Reaches(h, r(u), r(v)) <==> Reaches(g, u, v)) {
      forall c, y, x | Collides(f, r, c, y, x)
        ensures Reaches(g, c, x)
      {
        CollisionConnects(f, r, c, y, x);
      }
    }
  }

  lemma CollisionConnects(f: Flow, r: Node -> Node, c: Node, y: Node, x: Node)
    requires InjectiveOn(r, f.Keys) && Collides(f, r, c, y, x)
    ensures Reaches(Inputs(Relabel(f, r)), r(c), r(x))
  {
    RelabelData(f, r);
    MapSeqElements(r, f[c].input);
    ReachesStep(Inputs(Relabel(f, r)), r(c), r(x));
  }

  // -------------------------------------------------------------- rename_node

  function Renamer(step: string, newStep: string): Node -> Node {
    (v: Node) => if v.step == step then Node(newStep, v.index) else v
  }

  lemma RenamerInjective(f: Flow, step: string, newStep: string)
    requires newStep !in Steps(f)
    ensures InjectiveOn(Renamer(step, newStep), f.Keys)
  {
    var r := Renamer(step, newStep);
    forall x, y | x in f && y in f && r(x) == r(y)
      ensures x == y
    {
      assert x.step in Steps(f) && y.step in Steps(f);
    }
  }

  function RenameStep(f: Flow, step: string, newStep: string): Flow
    requires newStep !in Steps(f)
  {
    RenamerInjective(f, step, newStep);
    Relabel(f, Renamer(step, newStep))
  }

  /** No two names become one exactly when nothing mentioned under the old step is referred to under the new one. */
  lemma RenamerApartIff(f: Flow, step: string, newStep: string)
    requires step != newStep && newStep !in Steps(f)
    ensures InjectiveOn(Renamer(step, newStep), Mentioned(f))
      <==> forall x :: x in Mentioned(f) && x.step == step ==> Node(newStep, x.index) !in Referenced(f)
  {
    var r := Renamer(step, newStep);
    assert forall x :: x in f ==> x.step in Steps(f);
    if x :| x in Mentioned(f) && x.step == step && Node(newStep, x.index) in Referenced(f) {
      assert r(x) == r(Node(newStep, x.index)) && Node(newStep, x.index) in Mentioned(f);
    }
  }

  /** On a flow without undefined inputs no two names become one. */
  lemma RenamerApart(f: Flow, step: string, newStep: string)
    requires WellFormed(f) && newStep !in Steps(f)
    ensures InjectiveOn(Renamer(step, newStep), Mentioned(f))
  {
    MentionedDefined(f);
    RenamerInjective(f, step, newStep);
  }

  /**
   * Renaming a step keeps which nodes reach each other exactly when every node that takes input from
   * an undefined node of the new name depends on the renamed one already.
   */
  lemma RenameReachesIff(f: Flow, step: string, newStep: string)
    requires newStep !in Steps(f)
    ensures var r := Renamer(step, newStep);
      (forall u, v :: u in f && v in f ==>
        (Reaches(Inputs(RenameStep(f, step, newStep)), r(u), r(v)) <==> Reaches(Inputs(f), u, v)))
        <==> forall c, x :: c in f && x in f && x.step == step && Node(newStep, x.index) in f[c].input ==>
          Reaches(Inputs(f), c, x)
  {
    var r := Renamer(step, newStep);
    RenamerInjective(f, step, newStep);
    RelabelReachesIff(f, r);
    assert RenameStep(f, step, newStep) == Relabel(f, r);
    hide *;
    forall c, y, x
      ensures Collides(f, r, c, y, x)
        <==> c in f && x in f && x.step == step && y == Node(newStep, x.index) && y in f[c].input
    {
      RenamedCollision(f, step, newStep, c, y, x);
    }
    assert forall c, x :: c in f && x in f && x.step == step && Node(newStep, x.index) in f[c].input ==>
      Collides(f, r, c, Node(newStep, x.index), x);
  }

  lemma RenamedCollision(f: Flow, step: string, newStep: string, c: Node, y: Node, x: Node)
    requires newStep !in Steps(f)
    ensures Collides(f, Renamer(step, newStep), c, y, x)
      <==> c in f && x in f && x.step == step && y == Node(newStep, x.index) && y in f[c].input
  {
    if x in f {
      NotAStep(f, step, newStep, x);
    }
  }

  lemma NotAStep(f: Flow, step: string, newStep: string, x: Node)
    requires newStep !in Steps(f) && x in f
    ensures x.step != newStep && Node(newStep, x.index) !in f
  {
    assert x.step in Steps(f);
    assert Node(newStep, x.index) in f ==> Node(newStep, x.index).step in Steps(f);
  }

  /** A flow of two nodes, one of which takes input from an undefined node `x`. */
  function TwoNodes(): Flow {
    var none := Binding("", "", "");
    map[Node("a", "0") := NodeData([Node("x", "0")], none, map[]), Node("b", "0") := NodeData([], none, map[])]
  }

  lemma TwoApart()
    ensures !Reaches(Inputs(TwoNodes()), Node("a", "0"), Node("b", "0"))
  {
    var g, a, b := Inputs(TwoNodes()), Node("a", "0"), Node("b", "0");
    assert g.Keys == {a, b} && g[a] == {Node("x", "0")} && g[b] == {};
    hide Inputs, TwoNodes;
    if p :| WalkBetween(g, p, a, b) {
      WalkFirstStep(g, p);
      if |p| > 2 {
        assert p[1] in g && p[1 + 1] in g[p[1]];
      }
    }
  }

  /** On a concrete flow with an undefined input, renaming the other node to that name connects the two. */
  lemma RenameConnects()
    ensures var f := TwoNodes();
      && "x" !in Steps(f) && !Reaches(Inputs(f), Node("a", "0"), Node("b", "0"))
      && Reaches(Inputs(RenameStep(f, "b", "x")), Node("a", "0"), Node("x", "0"))
  {
    var f, a, b, x := TwoNodes(), Node("a", "0"), Node("b", "0"), Node("x", "0");
    assert f.Keys == {a, b};
    assert "x" !in Steps(f);
    TwoApart();
    var r := Renamer("b", "x");
    RenamerInjective(f, "b", "x");
    assert Collides(f, r, a, x, b) && r(a) == a && r(b) == x;
    hide Reaches, Inputs, Collides, TwoNodes, Steps, Relabel, Renamer;
    CollisionConnects(f, r, a, x, b);
  }

  lemma RenameBackSeq(s: seq<Node>, step: string, newStep: string)
    requires step != newStep
    ensures MapSeq(Renamer(newStep, step), MapSeq(Renamer(step, newStep), s)) == s
      <==> forall x :: x in s ==> x.step != newStep
  {
    var t := MapSeq(Renamer(newStep, step), MapSeq(Renamer(step, newStep), s));
    forall i | 0 <= i < |s|
      ensures t[i] == s[i] <==> s[i].step != newStep
    {
    }
    if t == s {
      forall x | x in s
        ensures x.step != newStep
      {
        var i :| 0 <= i < |s| && s[i] == x;
        assert t[i] == s[i];
      }
    }
    if forall x :: x in s ==> x.step != newStep {
      assert forall i :: 0 <= i < |s| ==> s[i] in s && t[i] == s[i];
    }
  }

  lemma RenamedAway(f: Flow, step: string, newStep: string)
    requires step in Steps(f) && newStep !in Steps(f)
    ensures step !in Steps(RenameStep(f, step, newStep))
  {
    var r := Renamer(step, newStep);
    RenamerInjective(f, step, newStep);
    RelabelData(f, r);
    forall w | w in RenameStep(f, step, newStep)
      ensures w.step != step
    {
      var v :| v in f && r(v) == w;
    }
  }

  lemma NodeRenamedBack(f: Flow, step: string, newStep: string, v: Node)
    requires newStep !in Steps(f) && v in f
    ensures Renamer(newStep, step)(Renamer(step, newStep)(v)) == v
  {
    assert v.step in Steps(f);
  }

  /** The flow after a step was renamed and renamed back: its nodes, each with its list mapped twice. */
  lemma RenamedTwice(f: Flow, step: string, newStep: string)
    requires step in Steps(f) && newStep !in Steps(f)
    ensures step !in Steps(RenameStep(f, step, newStep))
    ensures var r, back, h := Renamer(step, newStep), Renamer(newStep, step),
      RenameStep(RenameStep(f, step, newStep), newStep, step);
      h.Keys == f.Keys && forall v :: v in f ==> h[v] == f[v].(input := MapSeq(back, MapSeq(r, f[v].input)))
  {
    var r, back := Renamer(step, newStep), Renamer(newStep, step);
    var g := RenameStep(f, step, newStep);
    RenamedAway(f, step, newStep);
    RenamerInjective(f, step, newStep);
    RelabelData(f, r);
    RenamerInjective(g, newStep, step);
    RelabelData(g, back);
    var h := RenameStep(g, newStep, step);
    assert IsRelabelling(f, r, g) && IsRelabelling(g, back, h);
    hide RenameStep, Relabel, MapSeq, Renamer;
    forall v | v in f
      ensures r(v) in g && back(r(v)) == v && v in h && h[v] == f[v].(input := MapSeq(back, MapSeq(r, f[v].input)))
    {
      NodeRenamedBack(f, step, newStep, v);
    }
    forall x | x in h
      ensures x in f
    {
      var w :| w in g && back(w) == x;
      var v :| v in f && r(v) == w;
    }
    assert h.Keys == f.Keys;
  }

  lemma SameFlow(f: Flow, h: Flow)
    requires h.Keys == f.Keys
    ensures h == f <==> forall v :: v in f ==> h[v] == f[v]
  {
  }

  /** No input of `v` is of the step. */
  predicate TakesNothingFrom(f: Flow, v: Node, step: string)
    requires v in f
  {
    forall x :: x in f[v].input ==> x.step != step
  }

  lemma ReferencedStep(f: Flow, step: string)
    ensures (forall x :: x in Referenced(f) ==> x.step != step) <==> forall v :: v in f ==> TakesNothingFrom(f, v, step)
  {
    if forall x :: x in Referenced(f) ==> x.step != step {
      assert forall v, x :: v in f && x in f[v].input ==> x in Referenced(f);
    }
  }

  lemma NodeSame(f: Flow, h: Flow, step: string, newStep: string, v: Node)
    requires step != newStep && v in f && v in h
    requires h[v] == f[v].(input := MapSeq(Renamer(newStep, step), MapSeq(Renamer(step, newStep), f[v].input)))
    ensures h[v] == f[v] <==> TakesNothingFrom(f, v, newStep)
  {
    RenameBackSeq(f[v].input, step, newStep);
    hide MapSeq, Renamer;
  }

  /**
   * Renaming a step and renaming it back gives the flow back, list order included, exactly when no
   * input list spoke of the new name before.
   */
  lemma RenameInverse(f: Flow, step: string, newStep: string)
    requires step in Steps(f) && newStep !in Steps(f)
    ensures step !in Steps(RenameStep(f, step, newStep))
    ensures RenameStep(RenameStep(f, step, newStep), newStep, step) == f
      <==> forall x :: x in Referenced(f) ==> x.step != newStep
  {
    hide *;
    RenamedTwice(f, step, newStep);
    var h := RenameStep(RenameStep(f, step, newStep), newStep, step);
    forall v | v in f
      ensures h[v] == f[v] <==> TakesNothingFrom(f, v, newStep)
    {
      NodeSame(f, h, step, newStep, v);
    }
    SameFlow(f, h);
    ReferencedStep(f, newStep);
  }
}
