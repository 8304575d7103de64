/** Finite directed graphs: walks, cycles and the order in which nodes settle. */
module Digraphs {
  import opened Ordering

  /** Each node with the set of nodes one step away from it. */
  type Graph<V> = map<V, set<V>>

  /** Every step leads to a node of the graph. */
  ghost predicate Closed<V>(g: Graph<V>) {
    forall u :: u in g ==> g[u] <= g.Keys
  }

  ghost predicate IsWalk<V>(g: Graph<V>, p: seq<V>) {
    |p| > 0 && forall i :: 0 <= i < |p| - 1 ==> p[i] in g && p[i + 1] in g[p[i]]
  }

  ghost predicate WalkBetween<V>(g: Graph<V>, p: seq<V>, u: V, v: V) {
    IsWalk(g, p) && p[0] == u && p[|p| - 1] == v
  }

  ghost predicate Reaches<V(!new)>(g: Graph<V>, u: V, v: V) {
    exists p :: WalkBetween(g, p, u, v)
  }

  ghost predicate OnCycle<V(!new)>(g: Graph<V>, v: V) {
    exists p :: |p| >= 2 && WalkBetween(g, p, v, v)
  }

  ghost predicate Acyclic<V(!new)>(g: Graph<V>) {
    forall v :: v in g ==> !OnCycle(g, v)
  }

  // ---------------------------------------------------------------- walks

  lemma WalkJoin<V>(g: Graph<V>, p: seq<V>, q: seq<V>, u: V, v: V, w: V)
    requires WalkBetween(g, p, u, v) && WalkBetween(g, q, v, w)
    ensures WalkBetween(g, p + q[1..], u, w)
    ensures |p + q[1..]| == |p| + |q| - 1
  {
    var r := p + q[1..];
    forall i | 0 <= i < |r| - 1
      ensures r[i] in g && r[i + 1] in g[r[i]]
    {
      if i >= |p| - 1 {
        assert r[i] == q[i - |p| + 1];
        assert r[i + 1] == q[i - |p| + 2];
      }
    }
  }

  lemma ReachesTransitive<V(!new)>(g: Graph<V>, u: V, v: V, w: V)
    requires Reaches(g, u, v) && Reaches(g, v, w)
    ensures Reaches(g, u, w)
  {
    var p :| WalkBetween(g, p, u, v);
    var q :| WalkBetween(g, q, v, w);
    WalkJoin(g, p, q, u, v, w);
  }

  lemma ReachesSelf<V(!new)>(g: Graph<V>, u: V)
    ensures Reaches(g, u, u)
  {
    assert WalkBetween(g, [u], u, u);
  }

  lemma WalkFirstStep<V>(g: Graph<V>, p: seq<V>)
    requires IsWalk(g, p)
    ensures |p| == 1 || (p[0] in g && p[1] in g[p[0]])
  {
    assert |p| == 1 || p[0 + 1] in g[p[0]];
  }

  lemma WalkTail<V>(g: Graph<V>, p: seq<V>)
    requires IsWalk(g, p) && |p| > 1
    ensures p[0] in g && p[1] in g[p[0]] && IsWalk(g, p[1..])
  {
    WalkFirstStep(g, p);
    WalkSlice(g, p, 1, |p| - 1);
    assert p[1..|p| - 1 + 1] == p[1..];
  }

  lemma ReachesStep<V(!new)>(g: Graph<V>, u: V, v: V)
    requires u in g && v in g[u]
    ensures Reaches(g, u, v)
  {
    assert WalkBetween(g, [u, v], u, v);
  }

  /** A step followed by a walk back to where it started is a cycle. */
  lemma CycleThrough<V(!new)>(g: Graph<V>, u: V, v: V)
    requires u in g && v in g[u] && Reaches(g, v, u)
    ensures OnCycle(g, u)
  {
    var q :| WalkBetween(g, q, v, u);
    WalkJoin(g, [u, v], q, u, v, u);
    assert WalkBetween(g, [u, v] + q[1..], u, u);
  }

  /** Conversely a cycle starts with a step to a node that leads back. */
  lemma CycleFirstStep<V(!new)>(g: Graph<V>, u: V) returns (v: V)
    requires OnCycle(g, u)
    ensures u in g && v in g[u] && Reaches(g, v, u)
  {
    var p :| |p| >= 2 && WalkBetween(g, p, u, u);
    v := p[1];
    assert p[0] in g;
    assert WalkBetween(g, p[1..], v, u);
  }

  lemma WalkSlice<V>(g: Graph<V>, p: seq<V>, i: nat, j: nat)
    requires IsWalk(g, p) && i <= j < |p|
    ensures WalkBetween(g, p[i..j + 1], p[i], p[j])
  {
    var s := p[i..j + 1];
    forall k | 0 <= k < |s| - 1
      ensures s[k] in g && s[k + 1] in g[s[k]]
    {
      assert s[k] == p[i + k] && s[k + 1] == p[i + k + 1];
    }
  }

  lemma WalkStays<V>(g: Graph<V>, p: seq<V>)
    requires Closed(g) && IsWalk(g, p) && p[0] in g
    ensures forall i :: 0 <= i < |p| ==> p[i] in g
  {
    forall i | 0 <= i < |p|
      ensures p[i] in g
    {
      if i > 0 {
        assert p[i - 1] in g && p[(i - 1) + 1] in g[p[i - 1]];
      }
    }
  }

  /** A walk that visits a node twice contains a cycle through it. */
  lemma RepeatGivesCycle<V(!new)>(g: Graph<V>, p: seq<V>, i: nat, j: nat)
    requires IsWalk(g, p) && i < j < |p| && p[i] == p[j]
    ensures OnCycle(g, p[i])
  {
    WalkSlice(g, p, i, j);
    assert |p[i..j + 1]| >= 2;
  }

  /** In an acyclic graph no walk repeats a node. */
  lemma AcyclicWalkDistinct<V(!new)>(g: Graph<V>, p: seq<V>)
    requires Acyclic(g) && IsWalk(g, p)
    ensures Distinct(p)
  {
    forall i, j | 0 <= i < j < |p|
      ensures p[i] != p[j]
    {
      if p[i] == p[j] {
        RepeatGivesCycle(g, p, i, j);
      }
    }
  }

  /** Every walk can be shortened to one that repeats no node. */
  lemma {:induction false} SimpleWalk<V(!new)>(g: Graph<V>, p: seq<V>, u: V, v: V) returns (q: seq<V>)
    requires WalkBetween(g, p, u, v)
    ensures WalkBetween(g, q, u, v) && Distinct(q)
    ensures forall x :: x in q ==> x in p
    decreases |p|
  {
    if Distinct(p) {
      q := p;
    } else {
      var i, j :| 0 <= i < j < |p| && p[i] == p[j];
      WalkSlice(g, p, 0, i);
      WalkSlice(g, p, j, |p| - 1);
      WalkJoin(g, p[0..i + 1], p[j..|p| - 1 + 1], u, p[i], v);
      q := SimpleWalk(g, p[0..i + 1] + p[j..|p| - 1 + 1][1..], u, v);
    }
  }

  ghost predicate IsRank<V(!new)>(g: Graph<V>, rank: map<V, nat>) {
    forall u, v :: u in g && v in g[u] ==> u in rank && v in rank && rank[v] < rank[u]
  }

  /** A graph whose steps all go down in some rank has no cycle. */
  lemma RankedAcyclic<V(!new)>(g: Graph<V>, rank: map<V, nat>)
    requires IsRank(g, rank)
    ensures Acyclic(g)
  {
    forall c | c in g
      ensures !OnCycle(g, c)
    {
      if p :| |p| >= 2 && WalkBetween(g, p, c, c) {
        WalkFirstStep(g, p);
        RankFalls(g, rank, p, |p| - 1);
        assert false;
      }
    }
  }

  lemma {:induction false} RankFalls<V(!new)>(g: Graph<V>, rank: map<V, nat>, p: seq<V>, i: nat)
    requires IsRank(g, rank)
    requires IsWalk(g, p) && 0 < i < |p|
    ensures p[0] in rank && p[i] in rank && rank[p[i]] < rank[p[0]]
  {
    var u, v := p[i - 1], p[i - 1 + 1];
    assert u in g && v in g[u];
    assert rank[v] < rank[u];
    if i > 1 {
      RankFalls(g, rank, p, i - 1);
    }
  }

  // -------------------------------------------------------------- reversal

  function Reverse<V(==)>(g: Graph<V>): Graph<V> {
    map v | v in g :: set u | u in g && v in g[u]
  }

  function Backwards<T>(p: seq<T>): (r: seq<T>)
    ensures |r| == |p|
    ensures forall i :: 0 <= i < |p| ==> r[i] == p[|p| - 1 - i]
  {
    seq(|p|, i requires 0 <= i < |p| => p[|p| - 1 - i])
  }

  lemma ReverseTwice<V>(g: Graph<V>)
    requires Closed(g)
    ensures Closed(Reverse(g)) && Reverse(g).Keys == g.Keys
    ensures Reverse(Reverse(g)) == g
  {
    forall v | v in g
      ensures Reverse(Reverse(g))[v] == g[v]
    {
      assert forall u :: u in Reverse(Reverse(g))[v] <==> u in Reverse(g) && v in Reverse(g)[u];
    }
  }

  lemma WalkReversed<V>(g: Graph<V>, p: seq<V>, u: V, v: V)
    requires Closed(g) && u in g && WalkBetween(g, p, u, v)
    ensures WalkBetween(Reverse(g), Backwards(p), v, u)
  {
    WalkStays(g, p);
    var r := Backwards(p);
    forall i | 0 <= i < |r| - 1
      ensures r[i] in Reverse(g) && r[i + 1] in Reverse(g)[r[i]]
    {
      var k := |p| - 2 - i;
      assert r[i] == p[k + 1] && r[i + 1] == p[k];
    }
  }

  lemma ReachesReversed<V(!new)>(g: Graph<V>, u: V, v: V)
    requires Closed(g) && u in g && v in g
    ensures Reaches(g, u, v) <==> Reaches(Reverse(g), v, u)
  {
    ReverseTwice(g);
    if p :| WalkBetween(g, p, u, v) {
      WalkReversed(g, p, u, v);
    }
    if p :| WalkBetween(Reverse(g), p, v, u) {
      WalkReversed(Reverse(g), p, v, u);
    }
  }

  lemma CycleReversed<V(!new)>(g: Graph<V>, v: V)
    requires Closed(g)
    ensures OnCycle(g, v) ==> OnCycle(Reverse(g), v)
  {
    if p :| |p| >= 2 && WalkBetween(g, p, v, v) {
      assert p[0] in g;
      WalkReversed(g, p, v, v);
      assert |Backwards(p)| >= 2;
    }
  }

  lemma AcyclicReversed<V(!new)>(g: Graph<V>)
    requires Closed(g)
    ensures Acyclic(g) <==> Acyclic(Reverse(g))
  {
    ReverseTwice(g);
    forall v
      ensures OnCycle(g, v) <==> OnCycle(Reverse(g), v)
    {
      CycleReversed(g, v);
      CycleReversed(Reverse(g), v);
    }
  }

  // -------------------------------------------------------------- settling

  /** The nodes every walk from which ends within fewer than `k` steps. */
  ghost function Settled<V>(g: Graph<V>, k: nat): (s: set<V>)
    ensures s <= g.Keys
  {
    if k == 0 then {} else set v | v in g && g[v] <= Settled(g, k - 1)
  }

  lemma {:induction false} SettledGrows<V>(g: Graph<V>, j: nat, k: nat)
    requires j <= k
    ensures Settled(g, j) <= Settled(g, k)
    decreases k
  {
    if 0 < j {
      SettledGrows(g, j - 1, k - 1);
    }
  }

  lemma {:induction false} SettledStable<V>(g: Graph<V>, j: nat, k: nat)
    requires j <= k && Settled(g, j) == Settled(g, j + 1)
    ensures Settled(g, j) == Settled(g, k)
    decreases k
  {
    if j < k {
      SettledStable(g, j, k - 1);
      assert Settled(g, k) == Settled(g, j + 1);
    }
  }

  /** Until nothing more settles, each round settles at least one more node. */
  lemma {:induction false} SettledCount<V>(g: Graph<V>, k: nat)
    ensures Settled(g, k) == Settled(g, k + 1) || |Settled(g, k + 1)| >= k + 1
  {
    SettledGrows(g, k, k + 1);
    if Settled(g, k) != Settled(g, k + 1) {
      if k > 0 {
        SettledCount(g, k - 1);
      }
      SubsetSize(Settled(g, k), Settled(g, k + 1));
    }
  }

  lemma SettledByCount<V>(g: Graph<V>, k: nat)
    requires k >= |g|
    ensures Settled(g, k) == Settled(g, |g|) == Settled(g, k + 1)
  {
    SettledCount(g, |g|);
    SubsetSize(Settled(g, |g| + 1), g.Keys);
    assert |g.Keys| == |g|;
    SettledStable(g, |g|, k);
    SettledStable(g, |g|, k + 1);
  }

  /** Along a walk from a settled node each step is settled one round earlier. */
  lemma {:induction false} SettledAlong<V>(g: Graph<V>, k: nat, p: seq<V>)
    requires IsWalk(g, p) && p[0] in Settled(g, k)
    ensures |p| <= k && p[|p| - 1] in Settled(g, k - |p| + 1)
  {
    if |p| > 1 {
      assert p[0] in g && p[0 + 1] in g[p[0]];
      assert IsWalk(g, p[1..]) by {
        WalkSlice(g, p, 1, |p| - 1);
        assert p[1..|p| - 1 + 1] == p[1..];
      }
      SettledAlong(g, k - 1, p[1..]);
    }
  }

  lemma {:induction false} SettledNotOnCycle<V(!new)>(g: Graph<V>, k: nat, v: V)
    requires v in Settled(g, k)
    ensures !OnCycle(g, v)
    decreases k
  {
    if p :| |p| >= 2 && WalkBetween(g, p, v, v) {
      SettledAlong(g, k, p);
      SettledNotOnCycle(g, k - |p| + 1, v);
      assert false;
    }
  }

  /** From an unsettled node there are walks of any length over unsettled nodes, or one that leaves the graph. */
  lemma {:induction false} UnsettledWalk<V>(g: Graph<V>, v: V, n: nat) returns (p: seq<V>)
    requires v in g && v !in Settled(g, |g|)
    ensures IsWalk(g, p) && p[0] == v
    ensures p[|p| - 1] !in g || (|p| == n + 1 && p[n] !in Settled(g, |g|) && forall i :: 0 <= i < |p| ==> p[i] in g)
  {
    if n == 0 {
      p := [v];
    } else {
      p := UnsettledWalk(g, v, n - 1);
      var last := p[|p| - 1];
      if last in g {
        SettledByCount(g, |g|);
        assert last !in Settled(g, |g| + 1);
        var next :| next in g[last] && next !in Settled(g, |g|);
        p := p + [next];
      }
    }
  }

  /** An unsettled node leads to a cycle, or out of the graph. */
  lemma UnsettledLeads<V(!new)>(g: Graph<V>, v: V) returns (c: V)
    requires v in g && v !in Settled(g, |g|)
    ensures Reaches(g, v, c) && (c in g ==> OnCycle(g, c))
  {
    var p := UnsettledWalk(g, v, |g|);
    c := p[|p| - 1];
    assert WalkBetween(g, p, v, c);
    if c in g {
      if Distinct(p) {
        DistinctFits(p, g.Keys);
        assert false;
      }
      var i, j :| 0 <= i < j < |p| && p[i] == p[j];
      RepeatGivesCycle(g, p, i, j);
      WalkSlice(g, p, 0, i);
      c := p[i];
    }
  }

  /** Nothing outside the graph can be reached from the node. */
  ghost predicate Inside<V(!new)>(g: Graph<V>, v: V) {
    forall c :: Reaches(g, v, c) ==> c in g
  }

  lemma ClosedInside<V(!new)>(g: Graph<V>, v: V)
    requires Closed(g) && v in g
    ensures Inside(g, v)
  {
    forall c | Reaches(g, v, c)
      ensures c in g
    {
      var p :| WalkBetween(g, p, v, c);
      WalkStays(g, p);
    }
  }

  lemma InsideStep<V(!new)>(g: Graph<V>, v: V, w: V)
    requires Inside(g, v) && v in g && w in g[v]
    ensures w in g && Inside(g, w)
  {
    ReachesStep(g, v, w);
    forall c | Reaches(g, w, c)
      ensures c in g
    {
      ReachesTransitive(g, v, w, c);
    }
  }

  /** A node settles exactly when neither a cycle nor anything outside the graph can be reached from it. */
  lemma SettlesIff<V(!new)>(g: Graph<V>, v: V)
    requires v in g
    ensures v in Settled(g, |g|) <==> forall c :: Reaches(g, v, c) ==> c in g && !OnCycle(g, c)
  {
    if v in Settled(g, |g|) {
      forall c | Reaches(g, v, c)
        ensures c in g && !OnCycle(g, c)
      {
        var p :| WalkBetween(g, p, v, c);
        SettledAlong(g, |g|, p);
        SettledNotOnCycle(g, |g| - |p| + 1, c);
      }
    } else {
      var c := UnsettledLeads(g, v);
    }
  }

  /** A node of a closed graph settles exactly when no cycle can be reached from it. */
  lemma SettlesIffNoCycleAhead<V(!new)>(g: Graph<V>, v: V)
    requires Closed(g) && v in g
    ensures v in Settled(g, |g|) <==> forall c :: Reaches(g, v, c) ==> !OnCycle(g, c)
  {
    SettlesIff(g, v);
    ClosedInside(g, v);
  }

  lemma AcyclicSettles<V(!new)>(g: Graph<V>)
    requires Closed(g)
    ensures Acyclic(g) <==> Settled(g, |g|) == g.Keys
  {
    if Acyclic(g) {
      forall v | v in g
        ensures v in Settled(g, |g|)
      {
        if v !in Settled(g, |g|) {
          var c := UnsettledLeads(g, v);
          ClosedInside(g, v);
        }
      }
    }
    if Settled(g, |g|) == g.Keys {
      forall v | v in g
        ensures !OnCycle(g, v)
      {
        SettledNotOnCycle(g, |g|, v);
      }
    }
  }

  // ---------------------------------------------------------- longest walks

  /** `k` is the number of steps of the longest walk from `v`. */
  ghost predicate LongestWalk<V(!new)>(g: Graph<V>, v: V, k: nat) {
    && (exists p :: IsWalk(g, p) && p[0] == v && |p| == k + 1)
    && (forall p :: IsWalk(g, p) && p[0] == v ==> |p| <= k + 1)
  }

  /** A walk as long as the round in which its first node settles. */
  lemma {:induction false} WalkOfRound<V(!new)>(g: Graph<V>, v: V, k: nat) returns (p: seq<V>)
    requires Inside(g, v) && v in g && v !in Settled(g, k)
    ensures IsWalk(g, p) && p[0] == v && |p| == k + 1
  {
    if k == 0 {
      p := [v];
    } else {
      var next :| next in g[v] && next !in Settled(g, k - 1);
      InsideStep(g, v, next);
      var q := WalkOfRound(g, next, k - 1);
      p := [v] + q;
      assert WalkBetween(g, [v, next], v, next);
      WalkJoin(g, [v, next], q, v, next, q[|q| - 1]);
      assert [v, next] + q[1..] == p;
    }
  }

  lemma SettledInside<V(!new)>(g: Graph<V>, v: V, k: nat)
    requires v in Settled(g, k)
    ensures Inside(g, v)
  {
    forall c | Reaches(g, v, c)
      ensures c in g
    {
      var p :| WalkBetween(g, p, v, c);
      SettledAlong(g, k, p);
    }
  }

  /** Settling in round `k + 1` and no earlier is having a longest walk of `k` steps, and none that leaves the graph. */
  lemma RoundIsLongestWalk<V(!new)>(g: Graph<V>, v: V, k: nat)
    requires v in g
    ensures v in Settled(g, k + 1) && v !in Settled(g, k) <==> Inside(g, v) && LongestWalk(g, v, k)
  {
    if v in Settled(g, k + 1) && v !in Settled(g, k) {
      SettledInside(g, v, k + 1);
      var p := WalkOfRound(g, v, k);
      forall q | IsWalk(g, q) && q[0] == v
        ensures |q| <= k + 1
      {
        SettledAlong(g, k + 1, q);
      }
    }
    if Inside(g, v) && LongestWalk(g, v, k) {
      var p :| IsWalk(g, p) && p[0] == v && |p| == k + 1;
      if v in Settled(g, k) {
        SettledAlong(g, k, p);
        assert false;
      }
      if v !in Settled(g, k + 1) {
        var q := WalkOfRound(g, v, k + 1);
        assert false;
      }
    }
  }

  /** The longest walk from a node stops at a node without any step. */
  lemma LongestWalkEnds<V(!new)>(g: Graph<V>, v: V, k: nat, p: seq<V>)
    requires Inside(g, v) && LongestWalk(g, v, k)
    requires IsWalk(g, p) && p[0] == v && |p| == k + 1
    ensures p[k] in g && g[p[k]] == {}
  {
    assert WalkBetween(g, p, v, p[k]);
    if w :| w in g[p[k]] {
      assert IsWalk(g, p + [w]);
      assert false;
    }
  }

  /** How many steps the longest walk from a node of an acyclic graph has. */
  ghost function Height<V(!new)>(g: Graph<V>, v: V): (h: nat)
    requires Closed(g) && Acyclic(g) && v in g
    ensures h < |g|
    ensures v in Settled(g, h + 1) && v !in Settled(g, h)
  {
    AcyclicSettles(g);
    RoundOf(g, v, |g|)
  }

  ghost function RoundOf<V>(g: Graph<V>, v: V, k: nat): (h: nat)
    requires v in Settled(g, k)
    ensures h < k && v in Settled(g, h + 1) && v !in Settled(g, h)
  {
    if v in Settled(g, k - 1) then RoundOf(g, v, k - 1) else k - 1
  }

  lemma HeightIsLongestWalk<V(!new)>(g: Graph<V>, v: V)
    requires Closed(g) && Acyclic(g) && v in g
    ensures LongestWalk(g, v, Height(g, v))
  {
    RoundIsLongestWalk(g, v, Height(g, v));
  }

  lemma HeightDrops<V(!new)>(g: Graph<V>, u: V, v: V)
    requires Closed(g) && Acyclic(g) && u in g && v in g[u]
    ensures Height(g, v) < Height(g, u)
  {
    assert v in Settled(g, Height(g, u));
    if Height(g, v) >= Height(g, u) {
      SettledGrows(g, Height(g, u), Height(g, v));
    }
  }
}
