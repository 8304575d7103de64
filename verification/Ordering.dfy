/** Sorted listings of finite sets, as Python's `sorted(set(...))` produces them. */
module Ordering {

  datatype Option<+T> = None | Some(value: T)

  ghost predicate StrictTotalOrder<T(!new)>(less: (T, T) -> bool) {
    && (forall x :: !less(x, x))
    && (forall x, y :: x == y || less(x, y) || less(y, x))
    && (forall x, y, z :: less(x, y) && less(y, z) ==> less(x, z))
  }

  ghost predicate Distinct<T>(s: seq<T>) {
    forall i, j :: 0 <= i < j < |s| ==> s[i] != s[j]
  }

  function Elements<T(==)>(s: seq<T>): set<T> {
    set x | x in s
  }

  ghost predicate Increasing<T(!new)>(s: seq<T>, less: (T, T) -> bool) {
    forall i, j {:trigger less(s[i], s[j])} :: 0 <= i < j < |s| ==> less(s[i], s[j])
  }

  /** `r` lists the elements of `s`, each once, in increasing order. */
  ghost predicate Lists<T(!new)>(r: seq<T>, s: set<T>, less: (T, T) -> bool) {
    Elements(r) == s && Distinct(r) && Increasing(r, less)
  }

  /** A duplicate-free sequence over a finite set is no longer than the set is large. */
  lemma {:induction false} DistinctFits<T>(p: seq<T>, s: set<T>)
    requires Distinct(p)
    requires forall i :: 0 <= i < |p| ==> p[i] in s
    ensures |p| <= |s|
  {
    if p != [] {
      var last := p[|p| - 1];
      DistinctFits(p[..|p| - 1], s - {last});
    }
  }

  lemma {:induction false} DistinctSize<T>(p: seq<T>)
    requires Distinct(p)
    ensures |p| == |Elements(p)|
  {
    if p != [] {
      var last := p[|p| - 1];
      DistinctSize(p[..|p| - 1]);
      assert Elements(p) == Elements(p[..|p| - 1]) + {last};
    }
  }

  lemma SubsetSize<T>(a: set<T>, b: set<T>)
    requires a <= b
    ensures |a| <= |b| && (a != b ==> |a| < |b|)
  {
    assert b == a + (b - a);
    assert |b| == |a| + |b - a|;
    assert b - a == {} ==> a == b;
  }

  /** The elements in the order of their first occurrences. */
  function Firsts<T(==)>(s: seq<T>): seq<T> {
    if s == [] then []
    else
      var front, last := Firsts(s[..|s| - 1]), s[|s| - 1];
      if last in front then front else front + [last]
  }

  lemma {:induction false} FirstsSame<T>(s: seq<T>)
    ensures Elements(Firsts(s)) == Elements(s) && Distinct(Firsts(s))
  {
    if s != [] {
      var front, last := s[..|s| - 1], s[|s| - 1];
      FirstsSame(front);
      assert Elements(s) == Elements(front) + {last};
      assert last in Elements(front) <==> last in Firsts(front);
      if last !in Firsts(front) {
        assert Elements(Firsts(s)) == Elements(Firsts(front)) + {last};
      }
    }
  }

  lemma {:induction false} LeastExists<T(!new)>(s: set<T>, less: (T, T) -> bool)
    requires StrictTotalOrder(less) && s != {}
    ensures exists x :: x in s && forall y :: y in s && y != x ==> less(x, y)
  {
    var a :| a in s;
    var rest := s - {a};
    if rest == {} {
      assert s == {a};
    } else {
      LeastExists(rest, less);
      var b :| b in rest && forall y :: y in rest && y != b ==> less(b, y);
      var least := if less(a, b) then a else b;
      forall y | y in s && y != least
        ensures less(least, y)
      {
        assert y == a || y in rest;
      }
    }
  }

  /** The sorted listing of a set. */
  function Sorted<T(==,!new)>(s: set<T>, less: (T, T) -> bool): (r: seq<T>)
    requires StrictTotalOrder(less)
    ensures Lists(r, s, less)
  {
    if s == {} then []
    else
      LeastExists(s, less);
      var x :| x in s && forall y :: y in s && y != x ==> less(x, y);
      var r := Sorted(s - {x}, less);
      assert forall i :: 0 <= i < |r| ==> r[i] in Elements(r);
      assert Elements([x] + r) == {x} + Elements(r);
      [x] + r
  }

  /** There is only one sorted listing of a set. */
  lemma {:induction false} SortedUnique<T(!new)>(a: seq<T>, b: seq<T>, s: set<T>, less: (T, T) -> bool)
    requires StrictTotalOrder(less)
    requires Lists(a, s, less) && Lists(b, s, less)
    ensures a == b
  {
    DistinctSize(a);
    DistinctSize(b);
    if a != [] {
      HeadIsLeast(a, s, less, b[0]);
      HeadIsLeast(b, s, less, a[0]);
      ListsTail(a, s, less);
      ListsTail(b, s, less);
      SortedUnique(a[1..], b[1..], s - {a[0]}, less);
      assert a == [a[0]] + a[1..];
      assert b == [b[0]] + b[1..];
    }
  }

  lemma HeadIsLeast<T(!new)>(a: seq<T>, s: set<T>, less: (T, T) -> bool, y: T)
    requires Lists(a, s, less) && a != []
    ensures a[0] in s
    ensures y in s ==> y == a[0] || less(a[0], y)
  {
    assert a[0] in Elements(a);
    if y in s {
      assert y in Elements(a);
      var i :| 0 <= i < |a| && a[i] == y;
      assert i == 0 || less(a[0], a[i]);
    }
  }

  lemma ListsTail<T(!new)>(a: seq<T>, s: set<T>, less: (T, T) -> bool)
    requires Lists(a, s, less) && a != []
    ensures Lists(a[1..], s - {a[0]}, less)
  {
    var t := a[1..];
    assert forall i :: 0 <= i < |t| ==> t[i] == a[i + 1];
    assert Elements(a) == {a[0]} + Elements(t);
    forall i, j | 0 <= i < j < |t|
      ensures less(t[i], t[j])
    {
      assert less(a[i + 1], a[j + 1]);
    }
  }

  /** Python's order on strings: code point by code point, a proper prefix first. */
  predicate StringLess(a: string, b: string) {
    if b == [] then false
    else if a == [] then true
    else a[0] < b[0] || (a[0] == b[0] && StringLess(a[1..], b[1..]))
  }

  lemma {:induction false} StringLessTransitive(a: string, b: string, c: string)
    requires StringLess(a, b) && StringLess(b, c)
    ensures StringLess(a, c)
  {
    if a != [] && a[0] == b[0] == c[0] {
      StringLessTransitive(a[1..], b[1..], c[1..]);
    }
  }

  lemma {:induction false} StringLessTotal(a: string, b: string)
    ensures !StringLess(a, a)
    ensures a == b || StringLess(a, b) || StringLess(b, a)
  {
    if a != [] {
      StringLessTotal(a[1..], if b == [] then [] else b[1..]);
      if b != [] && a[0] == b[0] && a[1..] == b[1..] {
        assert a == [a[0]] + a[1..] == b;
      }
    }
  }

  lemma StringOrder()
    ensures StrictTotalOrder(StringLess)
  {
    forall a: string, b: string
      ensures !StringLess(a, a)
      ensures a == b || StringLess(a, b) || StringLess(b, a)
    {
      StringLessTotal(a, b);
    }
    forall a: string, b: string, c: string | StringLess(a, b) && StringLess(b, c)
      ensures StringLess(a, c)
    {
      StringLessTransitive(a, b, c);
    }
  }

  /** At `k` the strings differ for the first time: the one is over, or has the smaller character. */
  ghost predicate DiffersAt(a: string, b: string, k: nat) {
    k <= |a| && k < |b| && a[..k] == b[..k] && (k == |a| || a[k] < b[k])
  }

  lemma SameFirst(a: string, b: string, k: nat)
    requires DiffersAt(a, b, k) && k > 0
    ensures a != [] && b != [] && a[0] == b[0]
  {
    assert a[..k][0] == b[..k][0];
  }

  /** The first difference decides. */
  lemma {:induction false} StringLessIff(a: string, b: string)
    ensures StringLess(a, b) <==> exists k: nat :: DiffersAt(a, b, k)
  {
    if a != [] && b != [] && a[0] == b[0] {
      StringLessIff(a[1..], b[1..]);
      if k: nat :| DiffersAt(a[1..], b[1..], k) {
        assert a[..k + 1] == [a[0]] + a[1..][..k] && b[..k + 1] == [b[0]] + b[1..][..k];
        assert DiffersAt(a, b, k + 1);
      }
      if k: nat :| DiffersAt(a, b, k) {
        assert k > 0;
        assert a[1..][..k - 1] == a[..k][1..] && b[1..][..k - 1] == b[..k][1..];
        assert DiffersAt(a[1..], b[1..], k - 1);
      }
    } else if StringLess(a, b) {
      assert DiffersAt(a, b, 0);
    } else if k: nat :| DiffersAt(a, b, k) {
      if k > 0 {
        SameFirst(a, b, k);
      }
    }
  }
}
