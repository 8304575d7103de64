/** Edits of a directed graph and what they leave alone: reachability, cycles, longest walks. */
module Surgery {
  import opened Ordering
  import opened Digraphs

  // ----------------------------------------------------------- contraction

  /** Takes `n` out and joins whatever led to it with whatever it led to. */
  function Contract<V(==)>(g: Graph<V>, n: V): Graph<V>
    requires n in g
  {
    map v | v in g && v != n :: if n in g[v] then (g[v] - {n}) + g[n] else g[v]
  }

  lemma ContractClosed<V(!new)>(g: Graph<V>, n: V)
    requires Closed(g) && n in g
    ensures Closed(Contract(g, n)) <==> !(n in g[n] && exists v :: v in g && v != n && n in g[v])
  {
    var h := Contract(g, n);
    if n in g[n] {
      if v :| v in g && v != n && n in g[v] {
        assert n in h[v];
      }
    }
  }

  /** A walk that does not linger at `n` survives the contraction of `n`. */
  lemma {:induction false} ContractedWalk<V(!new)>(g: Graph<V>, n: V, p: seq<V>, u: V, v: V)
    requires n in g && u != n && v != n
    requires WalkBetween(g, p, u, v)
    requires forall i :: 0 <= i < |p| - 1 ==> !(p[i] == n && p[i + 1] == n)
    ensures Reaches(Contract(g, n), u, v)
    ensures |p| >= 2 ==> exists w :: w in Contract(g, n)[u] && Reaches(Contract(g, n), w, v)
    decreases |p|
  {
    var h := Contract(g, n);
    if |p| == 1 {
      ReachesSelf(h, u);
    } else {
      assert p[0] in g && p[0 + 1] in g[p[0]];
      var k := if p[1] == n then 2 else 1;
      if k == 2 {
        assert p[1] in g && p[1 + 1] in g[p[1]];
        assert !(p[1] == n && p[1 + 1] == n);
      }
      WalkSlice(g, p, k, |p| - 1);
      assert p[k..|p| - 1 + 1] == p[k..];
      forall i | 0 <= i < |p[k..]| - 1
        ensures !(p[k..][i] == n && p[k..][i + 1] == n)
      {
        assert !(p[k + i] == n && p[k + i + 1] == n);
      }
      ContractedWalk(g, n, p[k..], p[k], v);
      assert p[k] in h[u];
      ReachesStep(h, u, p[k]);
      ReachesTransitive(h, u, p[k], v);
    }
  }

  lemma ContractedStep<V(!new)>(g: Graph<V>, n: V, u: V, v: V)
    requires n in g && u in Contract(g, n) && v in Contract(g, n)[u]
    ensures exists w :: w in g[u] && Reaches(g, w, v)
  {
    if v in g[u] {
      ReachesSelf(g, v);
    } else {
      ReachesStep(g, n, v);
      assert n in g[u];
    }
  }

  lemma {:induction false} UncontractedWalk<V(!new)>(g: Graph<V>, n: V, p: seq<V>, u: V, v: V)
    requires n in g && WalkBetween(Contract(g, n), p, u, v)
    ensures Reaches(g, u, v)
    decreases |p|
  {
    var h := Contract(g, n);
    if |p| == 1 {
      ReachesSelf(g, u);
    } else {
      assert p[0] in h && p[0 + 1] in h[p[0]];
      ContractedStep(g, n, u, p[1]);
      var w :| w in g[u] && Reaches(g, w, p[1]);
      ReachesStep(g, u, w);
      ReachesTransitive(g, u, w, p[1]);
      WalkSlice(h, p, 1, |p| - 1);
      assert p[1..|p| - 1 + 1] == p[1..];
      UncontractedWalk(g, n, p[1..], p[1], v);
      ReachesTransitive(g, u, p[1], v);
    }
  }

  /** Contraction keeps who can reach whom among the remaining nodes. */
  lemma ContractReaches<V(!new)>(g: Graph<V>, n: V, u: V, v: V)
    requires n in g && u != n && v != n
    ensures Reaches(Contract(g, n), u, v) <==> Reaches(g, u, v)
  {
    if p :| WalkBetween(g, p, u, v) {
      var q := SimpleWalk(g, p, u, v);
      ContractedWalk(g, n, q, u, v);
    }
    if p :| WalkBetween(Contract(g, n), p, u, v) {
      UncontractedWalk(g, n, p, u, v);
    }
  }

  lemma ContractCycle<V(!new)>(g: Graph<V>, n: V, v: V)
    requires n in g && n !in g[n] && v != n
    ensures OnCycle(Contract(g, n), v) <==> OnCycle(g, v)
  {
    var h := Contract(g, n);
    if OnCycle(g, v) {
      var p :| |p| >= 2 && WalkBetween(g, p, v, v);
      assert forall i :: 0 <= i < |p| - 1 ==> p[i] in g && p[i + 1] in g[p[i]];
      ContractedWalk(g, n, p, v, v);
      assert p[0] in g;
      var w :| w in h[v] && Reaches(h, w, v);
      CycleThrough(h, v, w);
    }
    if OnCycle(h, v) {
      var w := CycleFirstStep(h, v);
      ContractedStep(g, n, v, w);
      var x :| x in g[v] && Reaches(g, x, w);
      ContractReaches(g, n, w, v);
      ReachesTransitive(g, x, w, v);
      CycleThrough(g, v, x);
    }
  }

  /** Contraction neither makes nor breaks cycles. */
  lemma ContractAcyclic<V(!new)>(g: Graph<V>, n: V)
    requires n in g && n !in g[n]
    ensures Acyclic(Contract(g, n)) <==> Acyclic(g)
  {
    var h := Contract(g, n);
    forall v | v in h
      ensures OnCycle(h, v) <==> OnCycle(g, v)
    {
      ContractCycle(g, n, v);
    }
    if OnCycle(g, n) {
      // a cycle through n also passes through the node after n
      var w := CycleFirstStep(g, n);
      var x := LastStep(g, w, n);
      ReachesStep(g, n, w);
      ReachesTransitive(g, n, w, x);
      CycleThrough(g, x, n);
      assert x != n && x in h;
    }
  }

  lemma LastStep<V(!new)>(g: Graph<V>, u: V, v: V) returns (x: V)
    requires u != v && Reaches(g, u, v)
    ensures x in g && v in g[x] && Reaches(g, u, x)
  {
    var p :| WalkBetween(g, p, u, v);
    x := p[|p| - 2];
    assert p[|p| - 2] in g && p[|p| - 2 + 1] in g[p[|p| - 2]];
    WalkSlice(g, p, 0, |p| - 2);
    assert WalkBetween(g, p[0..|p| - 2 + 1], u, x);
  }

  // ---------------------------------------------------------- interposition

  /** Puts a new node `n` between `b` and everything that led to `b`. */
  function Interpose<V(==)>(g: Graph<V>, n: V, b: V): Graph<V> {
    (map v | v in g :: if b in g[v] then (g[v] - {b}) + {n} else g[v])[n := {b}]
  }

  lemma ContractInterposed<V(!new)>(g: Graph<V>, n: V, b: V)
    requires Closed(g) && n !in g && b in g
    ensures Closed(Interpose(g, n, b)) && n !in Interpose(g, n, b)[n]
    ensures Contract(Interpose(g, n, b), n) == g
  {
    var h := Interpose(g, n, b);
    forall v | v in g
      ensures Contract(h, n)[v] == g[v]
    {
      assert n !in g[v];
    }
  }

  lemma InterposeReaches<V(!new)>(g: Graph<V>, n: V, b: V, u: V, v: V)
    requires Closed(g) && n !in g && b in g && u != n && v != n
    ensures Reaches(Interpose(g, n, b), u, v) <==> Reaches(g, u, v)
  {
    ContractInterposed(g, n, b);
    ContractReaches(Interpose(g, n, b), n, u, v);
  }

  lemma InterposeAcyclic<V(!new)>(g: Graph<V>, n: V, b: V)
    requires Closed(g) && n !in g && b in g
    ensures Acyclic(Interpose(g, n, b)) <==> Acyclic(g)
  {
    ContractInterposed(g, n, b);
    ContractAcyclic(Interpose(g, n, b), n);
  }

  // -------------------------------------------------- interposing an old node

  /** There is a walk that never passes through `n`. */
  ghost predicate ReachesAvoiding<V(!new)>(g: Graph<V>, u: V, v: V, n: V) {
    exists p :: WalkBetween(g, p, u, v) && n !in p
  }

  /** A walk to `v` meets `n` for the first time, or not at all. */
  lemma FirstVisit<V(!new)>(g: Graph<V>, u: V, n: V) returns (p: seq<V>)
    requires Reaches(g, u, n)
    ensures WalkBetween(g, p, u, n) && Distinct(p)
    ensures forall i :: 0 <= i < |p| - 1 ==> p[i] != n
  {
    var q :| WalkBetween(g, q, u, n);
    p := SimpleWalk(g, q, u, n);
    assert p[|p| - 1] == n;
  }

  /** An edge that does not start or end in `n` is there after the interposition, or leads round by `n`. */
  lemma InterposedEdge<V(!new)>(g: Graph<V>, n: V, b: V, u: V, v: V)
    requires u in g && u != n && v in g[u]
    ensures v != b || v == n ==> u in Interpose(g, n, b) && v in Interpose(g, n, b)[u]
    ensures Reaches(Interpose(g, n, b), u, v)
  {
    var h := Interpose(g, n, b);
    if v != b || v == n {
      ReachesStep(h, u, v);
    } else {
      ReachesStep(h, u, n);
      ReachesStep(h, n, b);
      ReachesTransitive(h, u, n, b);
    }
  }

  /** A walk whose steps do not start in `n` is still a connection. */
  lemma {:induction false} InterposedWalk<V(!new)>(g: Graph<V>, n: V, b: V, p: seq<V>, k: nat)
    requires IsWalk(g, p) && k < |p| && forall i :: 0 <= i < k ==> p[i] != n
    ensures Reaches(Interpose(g, n, b), p[0], p[k])
  {
    var h := Interpose(g, n, b);
    if k == 0 {
      ReachesSelf(h, p[0]);
    } else {
      InterposedWalk(g, n, b, p, k - 1);
      assert p[k - 1] in g && p[k - 1 + 1] in g[p[k - 1]];
      InterposedEdge(g, n, b, p[k - 1], p[k]);
      ReachesTransitive(h, p[0], p[k - 1], p[k]);
    }
  }

  lemma AvoidingStays<V(!new)>(g: Graph<V>, n: V, b: V, u: V, v: V)
    requires ReachesAvoiding(g, u, v, n)
    ensures Reaches(Interpose(g, n, b), u, v)
  {
    var p :| WalkBetween(g, p, u, v) && n !in p;
    InterposedWalk(g, n, b, p, |p| - 1);
  }

  /** Steps between other nodes are old ones. */
  lemma InterposedWalkBack<V(!new)>(g: Graph<V>, n: V, b: V, p: seq<V>)
    requires IsWalk(Interpose(g, n, b), p) && n !in p
    ensures IsWalk(g, p)
  {
    var h := Interpose(g, n, b);
    forall i | 0 <= i < |p| - 1
      ensures p[i] in g && p[i + 1] in g[p[i]]
    {
      assert p[i] in h && p[i + 1] in h[p[i]];
      assert p[i] in p && p[i + 1] in p;
    }
  }

  /** What reached `n` after the interposition reached `n` or `b` before, and not through `n`. */
  lemma InterposedInto<V(!new)>(g: Graph<V>, n: V, b: V, u: V)
    requires Reaches(Interpose(g, n, b), u, n) && u != n
    ensures Reaches(g, u, n) || ReachesAvoiding(g, u, b, n)
    ensures Reaches(g, u, n) || exists c :: ReachesAvoiding(g, u, c, n) && c in g && b in g[c]
  {
    var h := Interpose(g, n, b);
    var p := FirstVisit(h, u, n);
    var k := |p| - 2;
    var c, q := p[k], p[..k + 1];
    assert p[k] in h && p[k + 1] in h[p[k]];
    WalkSlice(h, p, 0, k);
    assert p[0..k + 1] == q;
    assert n !in q;
    InterposedWalkBack(g, n, b, q);
    assert WalkBetween(g, q, u, c);
    if n in g[c] {
      ReachesStep(g, c, n);
      ReachesTransitive(g, u, c, n);
    } else {
      assert ReachesAvoiding(g, u, c, n) && b in g[c];
      if b != n {
        assert WalkBetween(g, [c, b], c, b);
        WalkJoin(g, q, [c, b], u, c, b);
        assert n !in q + [c, b][1..];
      }
    }
  }

  /** What `n` reaches after the interposition, besides itself, `b` reaches without it. */
  lemma InterposedFrom<V(!new)>(g: Graph<V>, n: V, b: V, v: V)
    requires Reaches(Interpose(g, n, b), n, v) && v != n
    ensures ReachesAvoiding(g, b, v, n)
  {
    var h := Interpose(g, n, b);
    var p :| WalkBetween(h, p, n, v);
    var q := SimpleWalk(h, p, n, v);
    assert q[0] in h && q[0 + 1] in h[q[0]];
    WalkSlice(h, q, 1, |q| - 1);
    assert q[1..|q| - 1 + 1] == q[1..];
    assert n !in q[1..];
    InterposedWalkBack(g, n, b, q[1..]);
    assert WalkBetween(g, q[1..], b, v);
  }

  /**
   * Whether `n` is new or not, exactly this connects two other nodes: a walk that avoided `n`, or
   * one that led to `n` together with one from `b` that avoids `n`.
   */
  lemma InterposeReachesIff<V(!new)>(g: Graph<V>, n: V, b: V, u: V, v: V)
    requires u != n && v != n
    ensures Reaches(Interpose(g, n, b), u, v)
      <==> ReachesAvoiding(g, u, v, n) || (Reaches(g, u, n) && ReachesAvoiding(g, b, v, n))
  {
    var h := Interpose(g, n, b);
    if Reaches(h, u, v) {
      ThroughOrPast(g, n, b, u, v);
    }
    if ReachesAvoiding(g, u, v, n) {
      AvoidingStays(g, n, b, u, v);
    }
    if Reaches(g, u, n) && ReachesAvoiding(g, b, v, n) {
      var p := FirstVisit(g, u, n);
      InterposedWalk(g, n, b, p, |p| - 1);
      ReachesStep(h, n, b);
      AvoidingStays(g, n, b, b, v);
      ReachesTransitive(h, u, n, b);
      ReachesTransitive(h, u, b, v);
    }
  }

  lemma ThroughOrPast<V(!new)>(g: Graph<V>, n: V, b: V, u: V, v: V)
    requires u != n && v != n && Reaches(Interpose(g, n, b), u, v)
    ensures ReachesAvoiding(g, u, v, n) || (Reaches(g, u, n) && ReachesAvoiding(g, b, v, n))
  {
    var h := Interpose(g, n, b);
    var p :| WalkBetween(h, p, u, v);
    if n !in p {
      InterposedWalkBack(g, n, b, p);
    } else {
      var i :| 0 <= i < |p| && p[i] == n;
      WalkSlice(h, p, 0, i);
      WalkSlice(h, p, i, |p| - 1);
      InterposedInto(g, n, b, u);
      InterposedFrom(g, n, b, v);
      if !Reaches(g, u, n) {
        var q :| WalkBetween(g, q, u, b) && n !in q;
        var r :| WalkBetween(g, r, b, v) && n !in r;
        WalkJoin(g, q, r, u, b, v);
        assert n !in q + r[1..];
      }
    }
  }

  /**
   * No connection is lost exactly when everything the node led to directly can be reached from `b`
   * without passing through it.
   */
  lemma InterposeKeepsIff<V(!new)>(g: Graph<V>, n: V, b: V)
    ensures (forall u, v :: Reaches(g, u, v) ==> Reaches(Interpose(g, n, b), u, v))
      <==> (n in g ==> forall x :: x in g[n] && x != n ==> ReachesAvoiding(g, b, x, n))
  {
    var h := Interpose(g, n, b);
    if forall u, v :: Reaches(g, u, v) ==> Reaches(h, u, v) {
      if n in g {
        forall x | x in g[n] && x != n
          ensures ReachesAvoiding(g, b, x, n)
        {
          ReachesStep(g, n, x);
          assert Reaches(h, n, x);
          InterposedFrom(g, n, b, x);
        }
      }
    }
    if n in g ==> forall x :: x in g[n] && x != n ==> ReachesAvoiding(g, b, x, n) {
      forall u, v | Reaches(g, u, v)
        ensures Reaches(h, u, v)
      {
        var p :| WalkBetween(g, p, u, v);
        AllStay(g, n, b, p, |p| - 1);
      }
    }
  }

  lemma {:induction false} AllStay<V(!new)>(g: Graph<V>, n: V, b: V, p: seq<V>, k: nat)
    requires n in g ==> forall x :: x in g[n] && x != n ==> ReachesAvoiding(g, b, x, n)
    requires IsWalk(g, p) && k < |p|
    ensures Reaches(Interpose(g, n, b), p[0], p[k])
  {
    var h := Interpose(g, n, b);
    if k == 0 {
      ReachesSelf(h, p[0]);
    } else {
      AllStay(g, n, b, p, k - 1);
      var u, v := p[k - 1], p[k - 1 + 1];
      assert u in g && v in g[u];
      if u != n {
        InterposedEdge(g, n, b, u, v);
      } else if v == n {
        ReachesSelf(h, n);
      } else {
        ReachesStep(h, n, b);
        AvoidingStays(g, n, b, b, v);
        ReachesTransitive(h, n, b, v);
      }
      ReachesTransitive(h, p[0], u, v);
    }
  }

  /** No cycle arises exactly when `b` did not lead to `n`. */
  lemma InterposeAcyclicIff<V(!new)>(g: Graph<V>, n: V, b: V)
    requires Acyclic(g)
    ensures Acyclic(Interpose(g, n, b)) <==> !Reaches(g, b, n)
  {
    var h := Interpose(g, n, b);
    if Reaches(g, b, n) {
      var p := FirstVisit(g, b, n);
      InterposedWalk(g, n, b, p, |p| - 1);
      CycleThrough(h, n, b);
    } else {
      forall c | c in h
        ensures !OnCycle(h, c)
      {
        if OnCycle(h, c) {
          InterposedCycle(g, n, b, c);
        }
      }
    }
  }

  lemma InterposedCycle<V(!new)>(g: Graph<V>, n: V, b: V, c: V)
    requires Acyclic(g) && OnCycle(Interpose(g, n, b), c)
    ensures Reaches(g, b, n)
  {
    var h := Interpose(g, n, b);
    var p :| |p| >= 2 && WalkBetween(h, p, c, c);
    if n !in p {
      InterposedWalkBack(g, n, b, p);
      WalkFirstStep(g, p);
      assert WalkBetween(g, p, c, c);
      assert false;
    } else {
      var i :| 0 <= i < |p| && p[i] == n;
      WalkSlice(h, p, 0, i);
      WalkSlice(h, p, i, |p| - 1);
      ReachesTransitive(h, n, c, n);
      if b != n && !Reaches(g, b, n) {
        CycleAtNew(g, n, b, c, p, i);
        InterposedInto(g, n, b, b);
        var d :| ReachesAvoiding(g, b, d, n) && d in g && b in g[d];
        var q :| WalkBetween(g, q, b, d) && n !in q;
        CycleThrough(g, d, b);
        assert false;
      } else if b == n {
        ReachesSelf(g, n);
      }
    }
  }

  lemma CycleAtNew<V(!new)>(g: Graph<V>, n: V, b: V, c: V, p: seq<V>, i: nat)
    requires i < |p| && p[i] == n && |p| >= 2 && WalkBetween(Interpose(g, n, b), p, c, c)
    ensures Reaches(Interpose(g, n, b), b, n)
  {
    var h := Interpose(g, n, b);
    var w: V;
    if i + 1 < |p| {
      assert p[i] in h && p[i + 1] in h[p[i]];
      WalkSlice(h, p, i + 1, |p| - 1);
      WalkSlice(h, p, 0, i);
      ReachesTransitive(h, b, c, n);
    } else {
      assert p[0] in h && p[0 + 1] in h[p[0]];
      WalkSlice(h, p, 1, |p| - 1);
    }
  }

  // ------------------------------------------------ contracting many nodes

  /** One node after the other is contracted; nodes that are not there are passed over. */
  ghost function ContractAll<V>(g: Graph<V>, nodes: seq<V>): Graph<V> {
    if nodes == [] then g
    else ContractAll(if nodes[0] in g then Contract(g, nodes[0]) else g, nodes[1..])
  }

  /** Every way from `v` through nodes of `s` comes to nodes of the graph outside `s` within `k` nodes. */
  ghost predicate Leaves<V(!new)>(g: Graph<V>, s: set<V>, v: V, k: nat)
    requires v in g
  {
    forall w :: w in g[v] ==> w in g && (w in s ==> k > 0 && Leaves(g, s, w, k - 1))
  }

  /** Every way from `v` through `s` comes out of `s`, and never out of the graph. */
  ghost predicate Escapes<V(!new)>(g: Graph<V>, s: set<V>, v: V)
    requires v in g
  {
    exists k: nat :: Leaves(g, s, v, k)
  }

  lemma {:induction false} LeavesLater<V(!new)>(g: Graph<V>, s: set<V>, v: V, j: nat, k: nat)
    requires v in g && j <= k && Leaves(g, s, v, j)
    ensures Leaves(g, s, v, k)
    decreases k
  {
    forall w | w in g[v]
      ensures w in g && (w in s ==> k > 0 && Leaves(g, s, w, k - 1))
    {
      if w in s {
        LeavesLater(g, s, w, j - 1, k - 1);
      }
    }
  }

  lemma {:induction false} LeavesNoLoop<V(!new)>(g: Graph<V>, s: set<V>, n: V, k: nat)
    requires n in g && n in s && Leaves(g, s, n, k)
    ensures n !in g[n]
    decreases k
  {
    if n in g[n] {
      LeavesNoLoop(g, s, n, k - 1);
    }
  }

  lemma {:induction false} LeavesContracted<V(!new)>(g: Graph<V>, n: V, s: set<V>, v: V, k: nat)
    requires n in g && n in s && v in g && v != n && Leaves(g, s, v, k)
    ensures Leaves(Contract(g, n), s - {n}, v, k)
    decreases k
  {
    var h := Contract(g, n);
    forall w | w in h[v]
      ensures w in h && (w in s - {n} ==> k > 0 && Leaves(h, s - {n}, w, k - 1))
    {
      if w in g[v] && w != n {
        if w in s {
          LeavesContracted(g, n, s, w, k - 1);
        }
      } else {
        assert n in g[v] && w in g[n];
        LeavesNoLoop(g, s, n, k - 1);
        if w in s {
          LeavesContracted(g, n, s, w, k - 2);
          LeavesLater(h, s - {n}, w, k - 2, k - 1);
        }
      }
    }
  }

  lemma {:induction false} LeavesUncontracted<V(!new)>(g: Graph<V>, n: V, s: set<V>, v: V, k: nat)
    requires n in g && n in s && v in g && v != n && Leaves(Contract(g, n), s - {n}, v, k)
    ensures Leaves(g, s, v, 2 * k + 1)
    decreases k
  {
    var h := Contract(g, n);
    forall w | w in g[v]
      ensures w in g && (w in s ==> Leaves(g, s, w, 2 * k))
    {
      if w != n {
        assert w in h[v];
        if w in s {
          LeavesUncontracted(g, n, s, w, k - 1);
          LeavesLater(g, s, w, 2 * k - 1, 2 * k);
        }
      } else {
        forall x | x in g[n]
          ensures x in g && (x in s ==> 2 * k > 0 && Leaves(g, s, x, 2 * k - 1))
        {
          assert x in h[v];
          if x in s {
            LeavesUncontracted(g, n, s, x, k - 1);
          }
        }
      }
    }
  }

  lemma ContractLeavesIff<V(!new)>(g: Graph<V>, n: V, s: set<V>, v: V)
    requires n in g && n in s && v in g && v != n
    ensures Escapes(g, s, v) <==> Escapes(Contract(g, n), s - {n}, v)
  {
    if Escapes(g, s, v) {
      var k: nat :| Leaves(g, s, v, k);
      LeavesContracted(g, n, s, v, k);
    }
    if Escapes(Contract(g, n), s - {n}, v) {
      var k: nat :| Leaves(Contract(g, n), s - {n}, v, k);
      LeavesUncontracted(g, n, s, v, k);
    }
  }

  /** After contracting many nodes no step leads out of the graph exactly when every way through them leaves them. */
  lemma {:induction false} ContractAllClosedIff<V(!new)>(g: Graph<V>, nodes: seq<V>)
    requires Distinct(nodes) && Elements(nodes) <= g.Keys
    ensures Closed(ContractAll(g, nodes)) <==> forall v :: v in g && v !in nodes ==> Escapes(g, Elements(nodes), v)
    decreases |nodes|
  {
    var s := Elements(nodes);
    if nodes == [] {
      forall v | v in g
        ensures g[v] <= g.Keys <==> Escapes(g, s, v)
      {
        if g[v] <= g.Keys {
          assert Leaves(g, s, v, 0);
        }
      }
    } else {
      var n, rest := nodes[0], nodes[1..];
      var h := Contract(g, n);
      assert nodes == [n] + rest;
      assert n in nodes && n in s && n !in rest && Elements(rest) == s - {n};
      ContractAllClosedIff(h, rest);
      forall v | v in g && v !in nodes
        ensures Escapes(g, s, v) <==> Escapes(h, s - {n}, v)
      {
        ContractLeavesIff(g, n, s, v);
      }
      assert forall v :: v in h && v !in rest <==> v in g && v !in nodes;
    }
  }

  /** The graph cut down to some of its nodes. */
  function Among<V(==)>(g: Graph<V>, s: set<V>): Graph<V> {
    map u | u in g && u in s :: g[u] * s
  }

  lemma {:induction false} LeavesSettled<V(!new)>(g: Graph<V>, s: set<V>, u: V, k: nat)
    requires Closed(g) && u in g && u in s
    ensures Leaves(g, s, u, k) <==> u in Settled(Among(g, s), k + 1)
    decreases k
  {
    var a := Among(g, s);
    assert g[u] <= g.Keys;
    forall w | w in g[u] && w in s
      ensures (k > 0 && Leaves(g, s, w, k - 1)) <==> w in Settled(a, k)
    {
      if k > 0 {
        LeavesSettled(g, s, w, k - 1);
      }
    }
  }

  /** In a closed graph what keeps a way from leaving is a cycle of the nodes it may pass. */
  lemma LeavesIffNoCycle<V(!new)>(g: Graph<V>, s: set<V>, v: V)
    requires Closed(g) && v in g
    ensures Escapes(g, s, v)
      <==> forall w, c :: w in g[v] && w in s && Reaches(Among(g, s), w, c) ==> !OnCycle(Among(g, s), c)
  {
    var a := Among(g, s);
    assert g[v] <= g.Keys;
    if Escapes(g, s, v) {
      var k: nat :| Leaves(g, s, v, k);
      forall w, c | w in g[v] && w in s && Reaches(a, w, c)
        ensures !OnCycle(a, c)
      {
        LeavesSettled(g, s, w, k - 1);
        var p :| WalkBetween(a, p, w, c);
        SettledAlong(a, k, p);
        SettledNotOnCycle(a, k - |p| + 1, c);
      }
    }
    if forall w, c :: w in g[v] && w in s && Reaches(a, w, c) ==> !OnCycle(a, c) {
      forall w | w in g[v] && w in s
        ensures Leaves(g, s, w, |a|)
      {
        SettlesIffNoCycleAhead(a, w);
        SettledGrows(a, |a|, |a| + 1);
        LeavesSettled(g, s, w, |a|);
      }
      assert Leaves(g, s, v, |a| + 1);
    }
  }

  // ---------------------------------------------------------- closed parts

  /** `g` is a part of `h` no step of which leads out of it. */
  ghost predicate ClosedPart<V>(g: Graph<V>, h: Graph<V>) {
    Closed(g) && forall v :: v in g ==> v in h && h[v] == g[v]
  }

  lemma PartWalk<V(!new)>(g: Graph<V>, h: Graph<V>, p: seq<V>)
    requires ClosedPart(g, h) && |p| > 0 && p[0] in g
    ensures IsWalk(g, p) <==> IsWalk(h, p)
    ensures IsWalk(h, p) ==> p[|p| - 1] in g
  {
    if IsWalk(h, p) {
      PartWalkStays(g, h, p, |p| - 1);
      forall i | 0 <= i < |p| - 1
        ensures p[i] in g && p[i + 1] in g[p[i]]
      {
        PartWalkStays(g, h, p, i);
      }
    }
  }

  lemma {:induction false} PartWalkStays<V(!new)>(g: Graph<V>, h: Graph<V>, p: seq<V>, i: nat)
    requires ClosedPart(g, h) && i < |p| && p[0] in g && IsWalk(h, p)
    ensures p[i] in g
  {
    if i > 0 {
      PartWalkStays(g, h, p, i - 1);
      assert p[i - 1] in h && p[i - 1 + 1] in h[p[i - 1]];
    }
  }

  /** Inside a closed part everything about walks is as if the rest were not there. */
  lemma PartUnchanged<V(!new)>(g: Graph<V>, h: Graph<V>, u: V)
    requires ClosedPart(g, h) && u in g
    ensures forall v :: Reaches(h, u, v) <==> v in g && Reaches(g, u, v)
    ensures OnCycle(h, u) <==> OnCycle(g, u)
    ensures forall k: nat :: LongestWalk(h, u, k) <==> LongestWalk(g, u, k)
  {
    forall p: seq<V> | |p| > 0 && p[0] == u
      ensures IsWalk(g, p) <==> IsWalk(h, p)
      ensures IsWalk(h, p) ==> p[|p| - 1] in g
    {
      PartWalk(g, h, p);
    }
    forall v
      ensures Reaches(h, u, v) <==> v in g && Reaches(g, u, v)
    {
      if p :| WalkBetween(h, p, u, v) {
        assert WalkBetween(g, p, u, v);
      }
      if p :| WalkBetween(g, p, u, v) {
        assert WalkBetween(h, p, u, v);
      }
    }
    if p :| |p| >= 2 && WalkBetween(h, p, u, u) {
      assert WalkBetween(g, p, u, u);
    }
    if p :| |p| >= 2 && WalkBetween(g, p, u, u) {
      assert WalkBetween(h, p, u, u);
    }
    forall k: nat
      ensures LongestWalk(h, u, k) <==> LongestWalk(g, u, k)
    {
    }
  }

  // ------------------------------------------------------------- relabelling

  ghost predicate InjectiveOn<V(!new)>(r: V -> V, s: set<V>) {
    forall x, y :: x in s && y in s && r(x) == r(y) ==> x == y
  }

  function Image<V(==)>(r: V -> V, s: set<V>): set<V> {
    set x | x in s :: r(x)
  }

  function MapSeq<V>(r: V -> V, p: seq<V>): (q: seq<V>)
    ensures |q| == |p| && forall i :: 0 <= i < |p| ==> q[i] == r(p[i])
  {
    seq(|p|, i requires 0 <= i < |p| => r(p[i]))
  }

  /** `h` is `g` with every node replaced by its image. */
  ghost predicate Relabelled<V(!new)>(g: Graph<V>, h: Graph<V>, r: V -> V) {
    && InjectiveOn(r, g.Keys)
    && h.Keys == Image(r, g.Keys)
    && forall v :: v in g ==> r(v) in h && h[r(v)] == Image(r, g[v])
  }

  lemma RelabelledWalk<V(!new)>(g: Graph<V>, h: Graph<V>, r: V -> V, p: seq<V>)
    requires Closed(g) && Relabelled(g, h, r) && |p| > 0 && p[0] in g && IsWalk(g, p)
    ensures IsWalk(h, MapSeq(r, p))
  {
    WalkStays(g, p);
    var q := MapSeq(r, p);
    forall i | 0 <= i < |q| - 1
      ensures q[i] in h && q[i + 1] in h[q[i]]
    {
      assert p[i] in g && p[i + 1] in g[p[i]];
      assert r(p[i + 1]) in Image(r, g[p[i]]);
    }
  }

  lemma {:induction false} UnlabelledWalk<V(!new)>(g: Graph<V>, h: Graph<V>, r: V -> V, u: V, q: seq<V>)
    returns (p: seq<V>)
    requires Closed(g) && Relabelled(g, h, r) && u in g && |q| > 0 && q[0] == r(u) && IsWalk(h, q)
    ensures IsWalk(g, p) && p[0] == u && MapSeq(r, p) == q
    decreases |q|
  {
    if |q| == 1 {
      p := [u];
    } else {
      assert q[0] in h && q[0 + 1] in h[q[0]];
      var w :| w in g[u] && r(w) == q[1];
      WalkSlice(h, q, 1, |q| - 1);
      assert q[1..|q| - 1 + 1] == q[1..];
      var s := UnlabelledWalk(g, h, r, w, q[1..]);
      p := [u] + s;
      assert forall i :: 0 <= i < |p| - 1 ==> p[i + 1] == s[i];
      forall i | 0 <= i < |p| - 1
        ensures p[i] in g && p[i + 1] in g[p[i]]
      {
        if i > 0 {
          assert p[i] == s[i - 1] && p[i + 1] == s[i - 1 + 1];
        }
      }
    }
  }

  /** A relabelled graph has the same walks, up to the new names. */
  lemma RelabelledSame<V(!new)>(g: Graph<V>, h: Graph<V>, r: V -> V, u: V)
    requires Closed(g) && Relabelled(g, h, r) && u in g
    ensures Closed(h)
    ensures forall v :: v in g ==> (Reaches(h, r(u), r(v)) <==> Reaches(g, u, v))
    ensures OnCycle(h, r(u)) <==> OnCycle(g, u)
    ensures forall k: nat :: LongestWalk(h, r(u), k) <==> LongestWalk(g, u, k)
  {
    forall v | v in g
      ensures Reaches(h, r(u), r(v)) <==> Reaches(g, u, v)
    {
      RelabelledReaches(g, h, r, u, v);
    }
    if p :| |p| >= 2 && WalkBetween(g, p, u, u) {
      RelabelledWalk(g, h, r, p);
      assert WalkBetween(h, MapSeq(r, p), r(u), r(u));
    }
    if q :| |q| >= 2 && WalkBetween(h, q, r(u), r(u)) {
      var p := UnlabelledWalk(g, h, r, u, q);
      WalkStays(g, p);
      assert q[|q| - 1] == r(p[|p| - 1]);
      assert WalkBetween(g, p, u, u);
    }
    forall k: nat
      ensures LongestWalk(h, r(u), k) <==> LongestWalk(g, u, k)
    {
      RelabelledLongest(g, h, r, u, k);
    }
  }

  lemma RelabelledReaches<V(!new)>(g: Graph<V>, h: Graph<V>, r: V -> V, u: V, v: V)
    requires Closed(g) && Relabelled(g, h, r) && u in g && v in g
    ensures Reaches(h, r(u), r(v)) <==> Reaches(g, u, v)
  {
    if p :| WalkBetween(g, p, u, v) {
      RelabelledWalk(g, h, r, p);
      assert WalkBetween(h, MapSeq(r, p), r(u), r(v));
    }
    if q :| WalkBetween(h, q, r(u), r(v)) {
      var p := UnlabelledWalk(g, h, r, u, q);
      WalkStays(g, p);
      assert q[|q| - 1] == r(p[|p| - 1]);
      assert WalkBetween(g, p, u, v);
    }
  }

  lemma RelabelledLongest<V(!new)>(g: Graph<V>, h: Graph<V>, r: V -> V, u: V, k: nat)
    requires Closed(g) && Relabelled(g, h, r) && u in g
    ensures LongestWalk(h, r(u), k) <==> LongestWalk(g, u, k)
  {
    if LongestWalk(g, u, k) {
      var p :| IsWalk(g, p) && p[0] == u && |p| == k + 1;
      RelabelledWalk(g, h, r, p);
      assert MapSeq(r, p)[0] == r(u);
      forall q | IsWalk(h, q) && q[0] == r(u)
        ensures |q| <= k + 1
      {
        var s := UnlabelledWalk(g, h, r, u, q);
      }
    }
    if LongestWalk(h, r(u), k) {
      var q :| IsWalk(h, q) && q[0] == r(u) && |q| == k + 1;
      var s := UnlabelledWalk(g, h, r, u, q);
      forall p | IsWalk(g, p) && p[0] == u
        ensures |p| <= k + 1
      {
        RelabelledWalk(g, h, r, p);
        assert MapSeq(r, p)[0] == r(u);
      }
    }
  }

  /** The graph with the nodes of `s` that it lacks, without a step of their own. */
  function Fill<V(==)>(g: Graph<V>, s: set<V>): Graph<V> {
    map v | v in g.Keys + s :: if v in g then g[v] else {}
  }

  lemma FillWalk<V(!new)>(g: Graph<V>, s: set<V>, p: seq<V>)
    ensures IsWalk(Fill(g, s), p) <==> IsWalk(g, p)
  {
    var h := Fill(g, s);
    if IsWalk(h, p) {
      forall i | 0 <= i < |p| - 1
        ensures p[i] in g && p[i + 1] in g[p[i]]
      {
        assert p[i] in h && p[i + 1] in h[p[i]];
      }
    }
  }

  /** Nodes without a step change nothing. */
  lemma FillSame<V(!new)>(g: Graph<V>, s: set<V>, u: V)
    ensures forall v :: Reaches(Fill(g, s), u, v) <==> Reaches(g, u, v)
    ensures OnCycle(Fill(g, s), u) <==> OnCycle(g, u)
    ensures forall k: nat :: LongestWalk(Fill(g, s), u, k) <==> LongestWalk(g, u, k)
  {
    var h := Fill(g, s);
    forall p: seq<V>
      ensures IsWalk(h, p) <==> IsWalk(g, p)
    {
      FillWalk(g, s, p);
    }
    hide Fill, IsWalk;
    forall v
      ensures Reaches(h, u, v) <==> Reaches(g, u, v)
      ensures OnCycle(h, v) <==> OnCycle(g, v)
    {
      assert forall p, w :: WalkBetween(h, p, v, w) <==> WalkBetween(g, p, v, w);
      assert forall p, w :: WalkBetween(h, p, u, w) <==> WalkBetween(g, p, u, w);
    }
  }

  /** Two graphs that are the same up to their names, the names of `s` included that they do not define. */
  lemma FilledSame<V(!new)>(g: Graph<V>, h: Graph<V>, r: V -> V, s: set<V>, u: V)
    requires Closed(Fill(g, s)) && Relabelled(Fill(g, s), Fill(h, Image(r, s)), r) && u in g.Keys + s
    ensures forall v :: v in g.Keys + s ==> (Reaches(h, r(u), r(v)) <==> Reaches(g, u, v))
    ensures OnCycle(h, r(u)) <==> OnCycle(g, u)
    ensures forall k: nat :: LongestWalk(h, r(u), k) <==> LongestWalk(g, u, k)
  {
    assert Fill(g, s).Keys == g.Keys + s;
    RelabelledSame(Fill(g, s), Fill(h, Image(r, s)), r, u);
    FillSame(g, s, u);
    FillSame(h, Image(r, s), r(u));
  }

  lemma CutRelabelled<V(!new)>(g: Graph<V>, h: Graph<V>, r: V -> V, m: set<V>)
    requires InjectiveOn(r, g.Keys) && m == Image(r, g.Keys)
    requires forall v :: v in g ==> r(v) in h && h[r(v)] * m == Image(r, g[v] * g.Keys)
    ensures Relabelled(Among(g, g.Keys), Among(h, m), r)
  {
  }

  lemma CutClosed<V(!new)>(g: Graph<V>)
    ensures Closed(Among(g, g.Keys)) && Among(g, g.Keys).Keys == g.Keys
  {
  }

  lemma AmongOnCycle<V(!new)>(g: Graph<V>, s: set<V>, v: V)
    requires OnCycle(Among(g, s), v)
    ensures OnCycle(g, v)
  {
    var p :| |p| >= 2 && WalkBetween(Among(g, s), p, v, v);
    assert WalkBetween(g, p, v, v);
  }

  lemma AmongKeys<V(!new)>(g: Graph<V>, s: set<V>)
    requires Closed(g)
    ensures Among(g, s * g.Keys) == Among(g, s)
  {
    forall u | u in g && u in s
      ensures g[u] * (s * g.Keys) == g[u] * s
    {
      assert g[u] <= g.Keys;
    }
  }
}
