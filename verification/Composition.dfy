/** Instantiating one flow inside another. */
module Composition {
  import opened Ordering
  import opened Digraphs
  import opened Surgery
  import opened Flows
  import opened Renaming

  datatype Prefix = NoPrefix | Prefix(name: string)

  function NewStep(prefix: Prefix, step: string): string {
    match prefix
    case NoPrefix => step
    case Prefix(name) => name + "." + step
  }

  function Prefixer(prefix: Prefix): Node -> Node {
    (v: Node) => Node(NewStep(prefix, v.step), v.index)
  }

  lemma NewStepInjective(prefix: Prefix, a: string, b: string)
    requires NewStep(prefix, a) == NewStep(prefix, b)
    ensures a == b
  {
    if prefix.Prefix? {
      var head := prefix.name + ".";
      assert a == NewStep(prefix, a)[|head|..];
      assert b == NewStep(prefix, b)[|head|..];
    }
  }

  lemma PrefixerInjective(prefix: Prefix, s: set<Node>)
    ensures InjectiveOn(Prefixer(prefix), s)
  {
    var r := Prefixer(prefix);
    forall x, y | x in s && y in s && r(x) == r(y)
      ensures x == y
    {
      NewStepInjective(prefix, x.step, y.step);
    }
  }

  function Instance(sub: Flow, prefix: Prefix): Flow {
    PrefixerInjective(prefix, sub.Keys);
    Relabel(sub, Prefixer(prefix))
  }

  /** The host together with a renamed copy of the sub-flow. */
  function Graft(f: Flow, sub: Flow, prefix: Prefix): Flow {
    f + Instance(sub, prefix)
  }

  ghost predicate StepsApart(f: Flow, sub: Flow, prefix: Prefix) {
    forall step :: step in Steps(sub) ==> NewStep(prefix, step) !in Steps(f)
  }

  lemma InstanceApart(f: Flow, sub: Flow, prefix: Prefix)
    requires StepsApart(f, sub, prefix)
    ensures f.Keys !! Instance(sub, prefix).Keys
  {
    var r := Prefixer(prefix);
    PrefixerInjective(prefix, sub.Keys);
    RelabelData(sub, r);
    forall v | v in Instance(sub, prefix)
      ensures v !in f
    {
      var u :| u in sub && r(u) == v;
      assert u.step in Steps(sub) && v.step !in Steps(f);
    }
  }

  lemma InstanceInputs(f: Flow, sub: Flow, prefix: Prefix, v: Node)
    requires StepsApart(f, sub, prefix) && v in sub
    ensures var w := Prefixer(prefix)(v);
      && w !in f && w in Graft(f, sub, prefix)
      && Graft(f, sub, prefix)[w].input == MapSeq(Prefixer(prefix), sub[v].input)
  {
    InstanceApart(f, sub, prefix);
    PrefixerInjective(prefix, sub.Keys);
    RelabelData(sub, Prefixer(prefix));
  }

  lemma GraftKeys(f: Flow, sub: Flow, prefix: Prefix)
    requires StepsApart(f, sub, prefix)
    ensures Graft(f, sub, prefix).Keys == f.Keys + Image(Prefixer(prefix), sub.Keys)
    ensures f.Keys !! Image(Prefixer(prefix), sub.Keys)
    ensures forall v :: v in f ==> Graft(f, sub, prefix)[v] == f[v]
  {
    var m := Instance(sub, prefix);
    assert Graft(f, sub, prefix) == f + m;
    hide *;
    InstanceApart(f, sub, prefix);
    InstanceKeys(sub, prefix);
  }

  lemma InstanceKeys(sub: Flow, prefix: Prefix)
    ensures Instance(sub, prefix).Keys == Image(Prefixer(prefix), sub.Keys)
  {
    PrefixerInjective(prefix, sub.Keys);
    RelabelData(sub, Prefixer(prefix));
  }

  // ------------------------------------------------------- ends of the union

  lemma ExitsAre(f: Flow)
    ensures Exits(f) == f.Keys - Referenced(f)
  {
    forall v | v in f
      ensures v in Referenced(f) <==> exists w :: w in f && v in f[w].input
    {
    }
  }

  lemma InstanceReferenced(sub: Flow, prefix: Prefix)
    ensures Referenced(Instance(sub, prefix)) == Image(Prefixer(prefix), Referenced(sub))
  {
    var r, m := Prefixer(prefix), Instance(sub, prefix);
    PrefixerInjective(prefix, sub.Keys);
    RelabelData(sub, r);
    hide Instance, Prefixer;
    forall u | u in sub
      ensures Elements(m[r(u)].input) == Image(r, Elements(sub[u].input))
    {
      MapSeqElements(r, sub[u].input);
    }
    forall x | x in Referenced(m)
      ensures x in Image(r, Referenced(sub))
    {
      var w :| w in m && x in m[w].input;
      var u :| u in sub && r(u) == w;
      assert x in Image(r, Elements(sub[u].input));
    }
    forall x | x in Image(r, Referenced(sub))
      ensures x in Referenced(m)
    {
      var y :| y in Referenced(sub) && r(y) == x;
      var u :| u in sub && y in sub[u].input;
      assert x in Elements(m[r(u)].input);
    }
  }

  lemma ReferencedUnion(f: Flow, m: Flow)
    requires f.Keys !! m.Keys
    ensures Referenced(f + m) == Referenced(f) + Referenced(m)
  {
    var h := f + m;
    forall x | x in Referenced(f)
      ensures x in Referenced(h)
    {
      var v :| v in f && x in f[v].input;
      assert v in h && h[v] == f[v];
    }
    forall x | x in Referenced(m)
      ensures x in Referenced(h)
    {
      var v :| v in m && x in m[v].input;
      assert v in h && h[v] == m[v];
    }
  }

  lemma GraftReferenced(f: Flow, sub: Flow, prefix: Prefix)
    requires StepsApart(f, sub, prefix)
    ensures Referenced(Graft(f, sub, prefix)) == Referenced(f) + Image(Prefixer(prefix), Referenced(sub))
  {
    assert Graft(f, sub, prefix) == f + Instance(sub, prefix);
    hide *;
    InstanceApart(f, sub, prefix);
    InstanceReferenced(sub, prefix);
    ReferencedUnion(f, Instance(sub, prefix));
  }

  lemma ImageDiffers(prefix: Prefix, s: set<Node>, t: set<Node>)
    ensures Image(Prefixer(prefix), s - t) == Image(Prefixer(prefix), s) - Image(Prefixer(prefix), t)
  {
    PrefixerInjective(prefix, s + t);
  }

  lemma GraftExits(f: Flow, sub: Flow, prefix: Prefix)
    requires StepsApart(f, sub, prefix)
    ensures var r := Prefixer(prefix);
      Exits(Graft(f, sub, prefix)) == (Exits(f) - Image(r, Referenced(sub))) + (Image(r, Exits(sub)) - Referenced(f))
  {
    hide *;
    ExitsAre(f);
    ExitsAre(sub);
    ExitsAre(Graft(f, sub, prefix));
    GraftKeys(f, sub, prefix);
    GraftReferenced(f, sub, prefix);
    ImageDiffers(prefix, sub.Keys, Referenced(sub));
  }

  lemma EntriesUnion(f: Flow, m: Flow)
    requires f.Keys !! m.Keys
    ensures Entries(f + m) == Entries(f) + Entries(m)
  {
  }

  lemma GraftEntries(f: Flow, sub: Flow, prefix: Prefix)
    requires StepsApart(f, sub, prefix)
    ensures Entries(Graft(f, sub, prefix)) == Entries(f) + Image(Prefixer(prefix), Entries(sub))
  {
    PrefixerInjective(prefix, sub.Keys);
    assert Graft(f, sub, prefix) == f + Instance(sub, prefix);
    assert Instance(sub, prefix) == Relabel(sub, Prefixer(prefix));
    hide *;
    InstanceApart(f, sub, prefix);
    EntriesUnion(f, Instance(sub, prefix));
    EntriesRelabelled(sub, Prefixer(prefix));
  }

  /**
   * Nodes and ends after a sub-flow was instantiated, whatever undefined inputs the two flows have:
   * a node ends to be an exit when the other flow refers to it.
   */
  lemma GraftNodes(f: Flow, sub: Flow, prefix: Prefix)
    requires StepsApart(f, sub, prefix)
    ensures var h, r := Graft(f, sub, prefix), Prefixer(prefix);
      && f.Keys !! Image(r, sub.Keys) && h.Keys == f.Keys + Image(r, sub.Keys)
      && Entries(h) == Entries(f) + Image(r, Entries(sub))
      && Exits(h) == (Exits(f) - Image(r, Referenced(sub))) + (Image(r, Exits(sub)) - Referenced(f))
  {
    hide *;
    GraftKeys(f, sub, prefix);
    GraftEntries(f, sub, prefix);
    GraftExits(f, sub, prefix);
  }

  // ------------------------------------------------ connections of the union

  /** No undefined input of the host is a node of the instantiated flow. */
  ghost predicate HostApart(f: Flow, sub: Flow, prefix: Prefix) {
    Referenced(f) !! Image(Prefixer(prefix), sub.Keys)
  }

  /** No undefined input of the instantiated flow is a node of the host. */
  ghost predicate SubApart(f: Flow, sub: Flow, prefix: Prefix) {
    Image(Prefixer(prefix), Referenced(sub)) !! f.Keys
  }

  /** Without undefined inputs there is nothing to cross over. */
  lemma DefinedApart(f: Flow, sub: Flow, prefix: Prefix)
    requires StepsApart(f, sub, prefix)
    ensures NoDangling(f) ==> HostApart(f, sub, prefix)
    ensures NoDangling(sub) ==> SubApart(f, sub, prefix)
  {
    GraftKeys(f, sub, prefix);
    if NoDangling(f) {
      MentionedDefined(f);
    }
    if NoDangling(sub) {
      MentionedDefined(sub);
    }
  }

  /** A part of a flow that takes nothing from the rest keeps its connections, cycles and levels. */
  lemma PartKept(f: Flow, h: Flow, u: Node)
    requires u in f && (forall v :: v in f ==> v in h && h[v] == f[v]) && Referenced(f) * h.Keys <= f.Keys
    ensures forall v :: Reaches(Inputs(h), u, v) <==> Reaches(Inputs(f), u, v)
    ensures forall v :: Reaches(Inputs(h), u, v) ==> v in Mentioned(f)
    ensures OnCycle(Inputs(h), u) <==> OnCycle(Inputs(f), u)
    ensures forall k: nat :: LongestWalk(Inputs(h), u, k) <==> LongestWalk(Inputs(f), u, k)
  {
    var a, b := Fill(Inputs(f), Mentioned(f)), Fill(Inputs(h), Mentioned(f));
    FilledPart(f, h);
    hide Fill, Inputs, Reaches, OnCycle, LongestWalk, Closed, Mentioned;
    PartUnchanged(a, b, u);
    FillSame(Inputs(f), Mentioned(f), u);
    FillSame(Inputs(h), Mentioned(f), u);
    ClosedInside(a, u);
  }

  lemma FilledPart(f: Flow, h: Flow)
    requires (forall v :: v in f ==> v in h && h[v] == f[v]) && Referenced(f) * h.Keys <= f.Keys
    ensures ClosedPart(Fill(Inputs(f), Mentioned(f)), Fill(Inputs(h), Mentioned(f)))
    ensures Fill(Inputs(f), Mentioned(f)).Keys == Mentioned(f)
  {
    forall v | v in f
      ensures Inputs(h)[v] == Inputs(f)[v] <= Mentioned(f)
    {
      InputsMentioned(f, v);
    }
  }

  /** A part of a flow that the rest takes nothing from keeps them against the direction of the edges. */
  lemma PartKeptBack(f: Flow, h: Flow, u: Node)
    requires u in f && forall v :: v in f ==> v in h && h[v] == f[v]
    requires forall w, x :: w in h && w !in f && x in h[w].input ==> x !in f
    ensures forall v :: Reaches(Outputs(h), u, v) <==> Reaches(Outputs(f), u, v)
    ensures forall v :: Reaches(Outputs(h), u, v) ==> v in f
    ensures OnCycle(Outputs(h), u) <==> OnCycle(Outputs(f), u)
    ensures forall k: nat :: LongestWalk(Outputs(h), u, k) <==> LongestWalk(Outputs(f), u, k)
  {
    WiredBack(f);
    forall v | v in f
      ensures Outputs(h)[v] == Outputs(f)[v]
    {
      assert forall w :: w in h ==> (v in Inputs(h)[w] <==> v in h[w].input);
      assert forall w :: w in f ==> (v in Inputs(f)[w] <==> v in f[w].input);
    }
    assert ClosedPart(Outputs(f), Outputs(h));
    hide Outputs, Reaches, OnCycle, LongestWalk;
    PartUnchanged(Outputs(f), Outputs(h), u);
    ClosedInside(Outputs(f), u);
  }

  /** What the nodes of the union take input from. */
  lemma GraftTakes(f: Flow, sub: Flow, prefix: Prefix, w: Node, x: Node)
    requires StepsApart(f, sub, prefix) && w in Graft(f, sub, prefix) && x in Graft(f, sub, prefix)[w].input
    ensures w in f ==> x in Referenced(f)
    ensures w !in f ==> x in Image(Prefixer(prefix), Referenced(sub))
  {
    GraftKeys(f, sub, prefix);
    InstanceApart(f, sub, prefix);
    InstanceReferenced(sub, prefix);
    hide Instance, Prefixer, StepsApart;
    if w !in f {
      var m := Instance(sub, prefix);
      assert w in m && m[w] == Graft(f, sub, prefix)[w];
      assert x in Referenced(m);
    }
  }

  /**
   * The host keeps connections, cycles and levels: along its inputs if it takes nothing from the
   * instantiated flow, and along its consumers if that takes nothing from it.
   */
  lemma GraftKeepsHost(f: Flow, sub: Flow, prefix: Prefix, reverse: bool, u: Node)
    requires StepsApart(f, sub, prefix) && u in f
    requires if reverse then SubApart(f, sub, prefix) else HostApart(f, sub, prefix)
    ensures var g, h := Dependencies(f, reverse), Dependencies(Graft(f, sub, prefix), reverse);
      && (forall v :: Reaches(h, u, v) <==> Reaches(g, u, v))
      && (OnCycle(h, u) <==> OnCycle(g, u))
      && (forall k: nat :: LongestWalk(h, u, k) <==> LongestWalk(g, u, k))
  {
    GraftKeys(f, sub, prefix);
    var h := Graft(f, sub, prefix);
    if reverse {
      forall w, x | w in h && w !in f && x in h[w].input
        ensures x !in f
      {
        GraftTakes(f, sub, prefix, w, x);
      }
      hide *;
      PartKeptBack(f, h, u);
    } else {
      PartKept(f, h, u);
    }
  }

  /** The instantiated flow keeps them under its new names on the corresponding conditions. */
  lemma GraftKeepsSub(f: Flow, sub: Flow, prefix: Prefix, reverse: bool, u: Node)
    requires StepsApart(f, sub, prefix) && u in sub
    requires if reverse then HostApart(f, sub, prefix) else SubApart(f, sub, prefix)
    ensures var g, h, r := Dependencies(sub, reverse), Dependencies(Graft(f, sub, prefix), reverse), Prefixer(prefix);
      && (forall v :: v in sub ==> (Reaches(h, r(u), r(v)) <==> Reaches(g, u, v)))
      && (forall w :: Reaches(h, r(u), w) ==> w in Image(r, Mentioned(sub)))
      && (OnCycle(h, r(u)) <==> OnCycle(g, u))
      && (forall k: nat :: LongestWalk(h, r(u), k) <==> LongestWalk(g, u, k))
  {
    var r, m, h := Prefixer(prefix), Instance(sub, prefix), Graft(f, sub, prefix);
    PrefixerInjective(prefix, Mentioned(sub));
    RelabelIsomorphic(sub, r, reverse, u);
    InstancePart(f, sub, prefix);
    assert r(u) in Image(r, sub.Keys);
    if reverse {
      forall w, x | w in h && w !in m && x in h[w].input
        ensures x !in m
      {
        GraftTakes(f, sub, prefix, w, x);
      }
      hide *;
      PartKeptBack(m, h, r(u));
    } else {
      hide *;
      PartKept(m, h, r(u));
    }
  }

  lemma InstancePart(f: Flow, sub: Flow, prefix: Prefix)
    requires StepsApart(f, sub, prefix)
    ensures var r, m, h := Prefixer(prefix), Instance(sub, prefix), Graft(f, sub, prefix);
      && m.Keys == Image(r, sub.Keys) && Mentioned(m) == Image(r, Mentioned(sub))
      && (forall v :: v in m ==> v in h && h[v] == m[v])
      && (forall v :: v in h && v !in m ==> v in f)
      && (SubApart(f, sub, prefix) ==> Referenced(m) * h.Keys <= m.Keys)
      && (HostApart(f, sub, prefix) ==> Referenced(f) !! m.Keys)
  {
    var r, m := Prefixer(prefix), Instance(sub, prefix);
    assert Graft(f, sub, prefix) == f + m;
    hide Instance, Graft, Prefixer, StepsApart, Referenced;
    InstanceKeys(sub, prefix);
    InstanceApart(f, sub, prefix);
    InstanceReferenced(sub, prefix);
    ImageJoined(r, sub.Keys, Referenced(sub));
    hide Image;
  }

  lemma ImageJoined(r: Node -> Node, s: set<Node>, t: set<Node>)
    ensures Image(r, s + t) == Image(r, s) + Image(r, t)
  {
  }

  /** What `d` stands for in the union is `w`, or is a node of the host that leads to `w`. */
  ghost predicate LeadsOver(f: Flow, sub: Flow, prefix: Prefix, d: Node, w: Node) {
    var r := Prefixer(prefix);
    r(d) == w || (d !in sub && r(d) in f && Reaches(Inputs(f), r(d), w))
  }

  /**
   * Exactly what an instantiated node leads to, whatever undefined inputs the sub-flow has: what it led
   * to, under the new names, and behind every input found in the host what the host leads to from there.
   */
  lemma GraftReachesSub(f: Flow, sub: Flow, prefix: Prefix, u: Node, w: Node)
    requires StepsApart(f, sub, prefix) && HostApart(f, sub, prefix) && u in sub
    ensures Reaches(Inputs(Graft(f, sub, prefix)), Prefixer(prefix)(u), w)
      <==> exists d :: Reaches(Inputs(sub), u, d) && LeadsOver(f, sub, prefix, d, w)
  {
    var r, g, h := Prefixer(prefix), Inputs(sub), Inputs(Graft(f, sub, prefix));
    hide Graft, Prefixer, StepsApart, Inputs;
    if q :| WalkBetween(h, q, r(u), w) {
      var d := GraftedWalk(f, sub, prefix, u, q);
    }
    if d :| Reaches(g, u, d) && LeadsOver(f, sub, prefix, d, w) {
      var p :| WalkBetween(g, p, u, d);
      InstanceWalk(f, sub, prefix, p);
      assert WalkBetween(h, MapSeq(r, p), r(u), r(d));
      if r(d) != w {
        GraftKeepsHost(f, sub, prefix, false, r(d));
        ReachesTransitive(h, r(u), r(d), w);
      }
    }
  }

  lemma InstanceEdge(f: Flow, sub: Flow, prefix: Prefix, u: Node)
    requires StepsApart(f, sub, prefix) && u in sub
    ensures var r, h := Prefixer(prefix), Inputs(Graft(f, sub, prefix));
      r(u) in h && h[r(u)] == Image(r, Inputs(sub)[u])
  {
    InstanceInputs(f, sub, prefix, u);
    hide Graft, Prefixer, StepsApart;
    MapSeqElements(Prefixer(prefix), sub[u].input);
  }

  lemma InstanceWalk(f: Flow, sub: Flow, prefix: Prefix, p: seq<Node>)
    requires StepsApart(f, sub, prefix) && IsWalk(Inputs(sub), p)
    ensures IsWalk(Inputs(Graft(f, sub, prefix)), MapSeq(Prefixer(prefix), p))
  {
    var r, g, h := Prefixer(prefix), Inputs(sub), Inputs(Graft(f, sub, prefix));
    var q := MapSeq(r, p);
    assert g.Keys == sub.Keys;
    hide Graft, Prefixer, StepsApart, Inputs;
    forall i | 0 <= i < |q| - 1
      ensures q[i] in h && q[i + 1] in h[q[i]]
    {
      assert p[i] in g && p[i + 1] in g[p[i]];
      InstanceEdge(f, sub, prefix, p[i]);
    }
  }

  /** A walk on from an input that the sub-flow does not define goes on in the host, if at all. */
  lemma OverTheBorder(f: Flow, sub: Flow, prefix: Prefix, x: Node, q: seq<Node>)
    requires StepsApart(f, sub, prefix) && HostApart(f, sub, prefix) && x !in sub
    requires IsWalk(Inputs(Graft(f, sub, prefix)), q) && q[0] == Prefixer(prefix)(x)
    ensures LeadsOver(f, sub, prefix, x, q[|q| - 1])
  {
    var r, h := Prefixer(prefix), Inputs(Graft(f, sub, prefix));
    if |q| > 1 {
      GraftKeys(f, sub, prefix);
      assert h.Keys == f.Keys + Image(r, sub.Keys);
      hide Graft, StepsApart, Inputs, Prefixer, HostApart, Image;
      WalkFirstStep(h, q);
      ImageHas(prefix, sub.Keys, x);
      assert WalkBetween(h, q, r(x), q[|q| - 1]);
      GraftKeepsHost(f, sub, prefix, false, r(x));
    }
  }

  lemma FromImage(r: Node -> Node, s: set<Node>, w: Node) returns (x: Node)
    requires w in Image(r, s)
    ensures x in s && r(x) == w
  {
    x :| x in s && r(x) == w;
  }

  lemma GraftedStep(f: Flow, sub: Flow, prefix: Prefix, u: Node, q: seq<Node>) returns (x: Node)
    requires StepsApart(f, sub, prefix) && u in sub && |q| > 1
    requires IsWalk(Inputs(Graft(f, sub, prefix)), q) && q[0] == Prefixer(prefix)(u)
    ensures Reaches(Inputs(sub), u, x) && q[1] == Prefixer(prefix)(x) && IsWalk(Inputs(Graft(f, sub, prefix)), q[1..])
  {
    assert Inputs(sub).Keys == sub.Keys;
    hide *;
    InstanceEdge(f, sub, prefix, u);
    WalkTail(Inputs(Graft(f, sub, prefix)), q);
    x := FromImage(Prefixer(prefix), Inputs(sub)[u], q[1]);
    ReachesStep(Inputs(sub), u, x);
  }

  lemma LeadsHere(f: Flow, sub: Flow, prefix: Prefix, u: Node)
    ensures Reaches(Inputs(sub), u, u) && LeadsOver(f, sub, prefix, u, Prefixer(prefix)(u))
  {
    ReachesSelf(Inputs(sub), u);
  }

  lemma {:induction false} GraftedWalk(f: Flow, sub: Flow, prefix: Prefix, u: Node, q: seq<Node>) returns (d: Node)
    requires StepsApart(f, sub, prefix) && HostApart(f, sub, prefix) && u in sub
    requires |q| > 0 && IsWalk(Inputs(Graft(f, sub, prefix)), q) && q[0] == Prefixer(prefix)(u)
    ensures Reaches(Inputs(sub), u, d) && LeadsOver(f, sub, prefix, d, q[|q| - 1])
    decreases |q|
  {
    hide *;
    if |q| == 1 {
      LeadsHere(f, sub, prefix, u);
      d := u;
    } else {
      var x := GraftedStep(f, sub, prefix, u, q);
      if x in sub {
        d := GraftedWalk(f, sub, prefix, x, q[1..]);
        ReachesTransitive(Inputs(sub), u, x, d);
      } else {
        OverTheBorder(f, sub, prefix, x, q[1..]);
        d := x;
      }
    }
  }

  /** An input of the sub-flow that it does not define itself: its new name may be a node of the host. */
  predicate InputsFound(f: Flow, sub: Flow, prefix: Prefix) {
    forall v, d :: v in sub && d in sub[v].input ==> d in sub || Prefixer(prefix)(d) in f
  }

  lemma ImageHas(prefix: Prefix, s: set<Node>, d: Node)
    ensures Prefixer(prefix)(d) in Image(Prefixer(prefix), s) <==> d in s
  {
    PrefixerInjective(prefix, s + {d});
  }

  /** The union is well-formed exactly when the sub-flow repeats no input and every input is found. */
  lemma GraftWellFormedIff(f: Flow, sub: Flow, prefix: Prefix)
    requires WellFormed(f) && StepsApart(f, sub, prefix)
    ensures WellFormed(Graft(f, sub, prefix)) <==> NoDuplicates(sub) && InputsFound(f, sub, prefix)
  {
    var h, r := Graft(f, sub, prefix), Prefixer(prefix);
    GraftKeys(f, sub, prefix);
    forall v | v in sub
      ensures r(v) in h && (Distinct(h[r(v)].input) <==> Distinct(sub[v].input))
      ensures Inputs(h)[r(v)] <= h.Keys <==> forall d :: d in sub[v].input ==> d in sub || r(d) in f
    {
      InstanceInputs(f, sub, prefix, v);
      PrefixerInjective(prefix, Elements(sub[v].input));
      MapSeqDistinctIff(r, sub[v].input);
      MapSeqElements(r, sub[v].input);
      forall d | d in sub[v].input
        ensures r(d) in h <==> d in sub || r(d) in f
      {
        ImageHas(prefix, sub.Keys, d);
      }
    }
    forall v | v in f
      ensures Inputs(h)[v] <= h.Keys && Distinct(h[v].input)
    {
      assert Inputs(f)[v] <= f.Keys;
    }
    WellFormedParts(h, f, sub, r);
  }

  /** The union is well-formed when it is at the host's nodes and at the sub-flow's. */
  lemma WellFormedParts(h: Flow, f: Flow, sub: Flow, r: Node -> Node)
    requires h.Keys == f.Keys + Image(r, sub.Keys)
    ensures forall v :: v in sub ==> r(v) in h
    ensures WellFormed(h) <==>
      && (forall v :: v in f ==> Inputs(h)[v] <= h.Keys && Distinct(h[v].input))
      && (forall v :: v in sub ==> Inputs(h)[r(v)] <= h.Keys && Distinct(h[r(v)].input))
  {
    assert Inputs(h).Keys == h.Keys;
    hide Distinct, Inputs;
  }

  lemma AmongWalk(g: Graph<Node>, s: set<Node>, p: seq<Node>)
    requires forall i :: 0 <= i < |p| ==> p[i] in s
    ensures IsWalk(Among(g, s), p) <==> IsWalk(g, p)
  {
  }

  lemma ImageMeet(prefix: Prefix, s: set<Node>, t: set<Node>)
    ensures Image(Prefixer(prefix), s) * Image(Prefixer(prefix), t) == Image(Prefixer(prefix), s * t)
  {
    var r := Prefixer(prefix);
    PrefixerInjective(prefix, s + t);
    forall w | w in Image(r, s) * Image(r, t)
      ensures w in Image(r, s * t)
    {
      var x :| x in s && r(x) == w;
      var y :| y in t && r(y) == w;
    }
  }

  lemma InstanceStep(f: Flow, sub: Flow, prefix: Prefix, v: Node)
    requires StepsApart(f, sub, prefix) && v in sub
    ensures var r, h := Prefixer(prefix), Inputs(Graft(f, sub, prefix));
      r(v) in h && h[r(v)] * Image(r, sub.Keys) == Image(r, Inputs(sub)[v] * sub.Keys)
  {
    InstanceInputs(f, sub, prefix, v);
    hide StepsApart, Graft, MapSeq, Prefixer, Image;
    MapSeqElements(Prefixer(prefix), sub[v].input);
    ImageMeet(prefix, Elements(sub[v].input), sub.Keys);
  }

  lemma InstanceRelabelled(f: Flow, sub: Flow, prefix: Prefix)
    requires StepsApart(f, sub, prefix)
    ensures Relabelled(Among(Inputs(sub), sub.Keys),
      Among(Inputs(Graft(f, sub, prefix)), Image(Prefixer(prefix), sub.Keys)), Prefixer(prefix))
  {
    var r, h := Prefixer(prefix), Inputs(Graft(f, sub, prefix));
    assert Inputs(sub).Keys == sub.Keys;
    hide *;
    PrefixerInjective(prefix, sub.Keys);
    forall v | v in sub
      ensures r(v) in h && h[r(v)] * Image(r, sub.Keys) == Image(r, Inputs(sub)[v] * sub.Keys)
    {
      InstanceStep(f, sub, prefix, v);
    }
    CutRelabelled(Inputs(sub), h, r, Image(r, sub.Keys));
  }

  /** A cycle all of whose nodes are among `s` is a cycle of the graph cut down to `s`. */
  lemma AmongCycle(g: Graph<Node>, s: set<Node>, v: Node)
    requires forall p :: |p| >= 2 && WalkBetween(g, p, v, v) ==> forall i :: 0 <= i < |p| ==> p[i] in s
    ensures OnCycle(Among(g, s), v) <==> OnCycle(g, v)
  {
    if p :| |p| >= 2 && WalkBetween(g, p, v, v) {
      AmongWalk(g, s, p);
      assert WalkBetween(Among(g, s), p, v, v);
    }
    if p :| |p| >= 2 && WalkBetween(Among(g, s), p, v, v) {
      SubgraphWalk(Among(g, s), g, p);
      assert WalkBetween(g, p, v, v);
    }
  }

  lemma OwnCycle(g: Graph<Node>, v: Node)
    ensures OnCycle(Among(g, g.Keys), v) <==> OnCycle(g, v)
  {
    forall p | |p| >= 2 && WalkBetween(g, p, v, v)
      ensures forall i :: 0 <= i < |p| ==> p[i] in g.Keys
    {
      assert forall i :: 0 <= i < |p| - 1 ==> p[i] in g && p[i + 1] in g[p[i]];
    }
    AmongCycle(g, g.Keys, v);
  }

  lemma InstanceCycle(f: Flow, sub: Flow, prefix: Prefix, w: Node)
    requires WellFormed(f) && StepsApart(f, sub, prefix) && w !in f
    ensures var h := Inputs(Graft(f, sub, prefix));
      OnCycle(Among(h, Image(Prefixer(prefix), sub.Keys)), w) <==> OnCycle(h, w)
  {
    hide Graft, Prefixer, Image, OnCycle, WellFormed, StepsApart, Among;
    var h, m := Inputs(Graft(f, sub, prefix)), Image(Prefixer(prefix), sub.Keys);
    forall p | |p| >= 2 && WalkBetween(h, p, w, w)
      ensures forall i :: 0 <= i < |p| ==> p[i] in m
    {
      OutsideHost(f, sub, prefix, p);
    }
    AmongCycle(h, m, w);
  }

  /** A cycle through a node of the sub-flow is a cycle of the sub-flow. */
  lemma GraftCycle(f: Flow, sub: Flow, prefix: Prefix, v: Node)
    requires WellFormed(f) && StepsApart(f, sub, prefix) && v in sub
    ensures OnCycle(Inputs(Graft(f, sub, prefix)), Prefixer(prefix)(v)) <==> OnCycle(Inputs(sub), v)
  {
    var r, g, h := Prefixer(prefix), Inputs(sub), Inputs(Graft(f, sub, prefix));
    assert g.Keys == sub.Keys;
    hide *;
    CutClosed(g);
    InstanceInputs(f, sub, prefix, v);
    InstanceRelabelled(f, sub, prefix);
    RelabelledSame(Among(g, g.Keys), Among(h, Image(r, sub.Keys)), r, v);
    OwnCycle(g, v);
    InstanceCycle(f, sub, prefix, r(v));
  }

  lemma SamePart(f: Flow, h: Flow)
    requires NoDangling(f) && forall v :: v in f ==> v in h && h[v] == f[v]
    ensures ClosedPart(Inputs(f), Inputs(h)) && Inputs(f).Keys == f.Keys && Inputs(h).Keys == h.Keys
  {
  }

  lemma CyclesOfParts(h: Graph<Node>, g: Graph<Node>, s: Graph<Node>, r: Node -> Node)
    requires h.Keys == g.Keys + Image(r, s.Keys)
    requires forall v :: v in g ==> (OnCycle(h, v) <==> OnCycle(g, v))
    requires forall v :: v in s ==> (OnCycle(h, r(v)) <==> OnCycle(s, v))
    ensures Acyclic(h) <==> Acyclic(g) && Acyclic(s)
  {
    hide OnCycle;
    assert forall v :: v in s ==> r(v) in h;
  }

  /** The host leads nowhere but to the host. */
  lemma OutsideHost(f: Flow, sub: Flow, prefix: Prefix, p: seq<Node>)
    requires WellFormed(f) && StepsApart(f, sub, prefix)
    requires IsWalk(Inputs(Graft(f, sub, prefix)), p) && |p| >= 2 && p[0] == p[|p| - 1] && p[0] !in f
    ensures forall i :: 0 <= i < |p| ==> p[i] in Image(Prefixer(prefix), sub.Keys)
  {
    var h := Inputs(Graft(f, sub, prefix));
    GraftKeys(f, sub, prefix);
    forall i | 0 <= i < |p|
      ensures p[i] !in f && p[i] in h
    {
      if p[i] in f {
        WalkSlice(h, p, i, |p| - 1);
        PartWalkStays(Inputs(f), h, p[i..|p| - 1 + 1], |p| - 1 - i);
      }
      assert i < |p| - 1 ==> p[i] in h;
      assert p[0] in h && p[0 + 1] in h[p[0]];
    }
  }

  /** The union is acyclic exactly when both flows are, even if the sub-flow takes input from the host. */
  lemma GraftAcyclic(f: Flow, sub: Flow, prefix: Prefix)
    requires WellFormed(f) && StepsApart(f, sub, prefix)
    ensures Acyclic(Inputs(Graft(f, sub, prefix))) <==> Acyclic(Inputs(f)) && Acyclic(Inputs(sub))
  {
    var r, g, h := Prefixer(prefix), Inputs(f), Inputs(Graft(f, sub, prefix));
    assert NoDangling(f) && Inputs(sub).Keys == sub.Keys;
    hide *;
    GraftKeys(f, sub, prefix);
    SamePart(f, Graft(f, sub, prefix));
    forall v | v in g
      ensures OnCycle(h, v) <==> OnCycle(g, v)
    {
      PartUnchanged(g, h, v);
    }
    forall v | v in Inputs(sub)
      ensures OnCycle(h, r(v)) <==> OnCycle(Inputs(sub), v)
    {
      GraftCycle(f, sub, prefix, v);
    }
    CyclesOfParts(h, g, Inputs(sub), r);
  }
}
