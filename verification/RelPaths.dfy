/** Relative paths: where a path leads, and the way there from a directory. */
module RelPaths {
  predicate IsAbsolute(p: string) {
    p != "" && p[0] == '/'
  }

  function Join(a: string, b: string): string {
    if IsAbsolute(b) then b
    else if a == "" || a[|a| - 1] == '/' then a + b
    else a + "/" + b
  }

  /** The components of a path between its slashes. */
  function Split(s: string): (r: seq<string>)
    ensures r != []
  {
    if s == "" then [""]
    else
      var front, c := Split(s[..|s| - 1]), s[|s| - 1];
      if c == '/' then front + [""] else front[..|front| - 1] + [front[|front| - 1] + [c]]
  }

  /** Following one component from a directory; there is nothing above the root. */
  function Step(at: seq<string>, c: string): seq<string> {
    if c == "" || c == "." then at
    else if c == ".." then if at == [] then [] else at[..|at| - 1]
    else at + [c]
  }

  function Follow(at: seq<string>, comps: seq<string>): seq<string> {
    if comps == [] then at else Step(Follow(at, comps[..|comps| - 1]), comps[|comps| - 1])
  }

  /** Where an absolute path leads. */
  function Location(p: string): seq<string> {
    Follow([], Split(p))
  }

  /** How many directories two places share. */
  function Common(a: seq<string>, b: seq<string>): (n: nat)
    ensures n <= |a| && n <= |b| && a[..n] == b[..n]
  {
    if a == [] || b == [] || a[0] != b[0] then 0 else Common(a[1..], b[1..]) + 1
  }

  function Ups(n: nat): seq<string> {
    if n == 0 then [] else Ups(n - 1) + [".."]
  }

  /** Up to the common directory and down again. */
  function Way(start: seq<string>, end: seq<string>): seq<string> {
    var n := Common(start, end);
    Ups(|start| - n) + end[n..]
  }

  function Joined(comps: seq<string>): string
    requires comps != []
  {
    if |comps| == 1 then comps[0] else Joined(comps[..|comps| - 1]) + "/" + comps[|comps| - 1]
  }

  /** `os.path.relpath` for absolute paths. */
  function RelPath(path: string, start: string): string {
    var way := Way(Location(start), Location(path));
    if way == [] then "." else Joined(way)
  }

  // --------------------------------------------------------------- splitting

  /** A component of a path that names something. */
  predicate Plain(c: string) {
    c != "" && c != "." && c != ".." && '/' !in c
  }

  /** The components after one more character. */
  function WithChar(comps: seq<string>, c: char): seq<string>
    requires comps != []
  {
    if c == '/' then comps + [""] else comps[..|comps| - 1] + [comps[|comps| - 1] + [c]]
  }

  lemma SplitNext(s: string, c: char)
    ensures Split(s + [c]) == WithChar(Split(s), c)
  {
    assert (s + [c])[..|s|] == s;
  }

  lemma WithCharBehind(x: seq<string>, y: seq<string>, c: char)
    requires y != []
    ensures WithChar(x + y, c) == x + WithChar(y, c)
  {
    assert (x + y)[..|x + y| - 1] == x + y[..|y| - 1];
  }

  lemma {:induction false} SplitJoin(a: string, b: string)
    ensures Split(a + "/" + b) == Split(a) + Split(b)
  {
    if b == "" {
      assert a + "/" + b == a + ['/'];
      SplitNext(a, '/');
    } else {
      var front, c := b[..|b| - 1], b[|b| - 1];
      SplitJoin(a, front);
      assert b == front + [c] && a + "/" + b == (a + "/" + front) + [c];
      hide Split, WithChar;
      SplitNext(front, c);
      SplitNext(a + "/" + front, c);
      WithCharBehind(Split(a), Split(front), c);
    }
  }

  lemma {:induction false} SplitWhole(c: string)
    requires '/' !in c
    ensures Split(c) == [c]
  {
    if c != "" {
      SplitWhole(c[..|c| - 1]);
      assert c[..|c| - 1] + [c[|c| - 1]] == c;
    }
  }

  lemma {:induction false} SplitHasNoSlash(s: string, i: nat)
    requires i < |Split(s)|
    ensures '/' !in Split(s)[i]
  {
    if s != "" {
      var front := Split(s[..|s| - 1]);
      if i < |front| {
        SplitHasNoSlash(s[..|s| - 1], i);
      }
    }
  }

  lemma {:induction false} SplitJoined(comps: seq<string>)
    requires comps != [] && forall c :: c in comps ==> '/' !in c
    ensures Split(Joined(comps)) == comps
  {
    var last := comps[|comps| - 1];
    SplitWhole(last);
    if |comps| > 1 {
      SplitJoined(comps[..|comps| - 1]);
      SplitJoin(Joined(comps[..|comps| - 1]), last);
      assert comps[..|comps| - 1] + [last] == comps;
    }
  }

  // --------------------------------------------------------------- following

  lemma {:induction false} FollowOn(at: seq<string>, x: seq<string>, y: seq<string>)
    ensures Follow(at, x + y) == Follow(Follow(at, x), y)
  {
    if y == [] {
      assert x + y == x;
    } else {
      FollowOn(at, x, y[..|y| - 1]);
      assert (x + y)[..|x + y| - 1] == x + y[..|y| - 1];
    }
  }

  lemma {:induction false} FollowUp(at: seq<string>, n: nat)
    requires n <= |at|
    ensures Follow(at, Ups(n)) == at[..|at| - n]
  {
    if n > 0 {
      FollowUp(at, n - 1);
      assert Ups(n)[..n - 1] == Ups(n - 1) by {
        UpsSize(n);
        UpsSize(n - 1);
      }
      UpsSize(n);
    } else {
      assert at[..|at|] == at;
    }
  }

  lemma {:induction false} UpsSize(n: nat)
    ensures |Ups(n)| == n && forall c :: c in Ups(n) ==> c == ".."
  {
    if n > 0 {
      UpsSize(n - 1);
    }
  }

  lemma {:induction false} FollowDown(at: seq<string>, comps: seq<string>)
    requires forall c :: c in comps ==> Plain(c)
    ensures Follow(at, comps) == at + comps
  {
    if comps == [] {
      assert at + comps == at;
    } else {
      var front, last := comps[..|comps| - 1], comps[|comps| - 1];
      FollowDown(at, front);
      assert Plain(last);
      assert at + front + [last] == at + comps;
    }
  }

  lemma {:induction false} FollowPlain(at: seq<string>, comps: seq<string>, c: string)
    requires (forall x :: x in at ==> Plain(x)) && (forall x :: x in comps ==> '/' !in x) && c in Follow(at, comps)
    ensures Plain(c)
  {
    if comps != [] {
      var before := Follow(at, comps[..|comps| - 1]);
      if c in before {
        FollowPlain(at, comps[..|comps| - 1], c);
      }
    }
  }

  lemma LocationPlain(p: string, c: string)
    requires c in Location(p)
    ensures Plain(c)
  {
    forall x | x in Split(p)
      ensures '/' !in x
    {
      var i :| 0 <= i < |Split(p)| && Split(p)[i] == x;
      SplitHasNoSlash(p, i);
    }
    FollowPlain([], Split(p), c);
  }

  // --------------------------------------------------------------- the round trip

  lemma UpAndDown(start: seq<string>, n: nat, down: seq<string>)
    requires n <= |start| && forall c :: c in down ==> Plain(c)
    ensures Follow(start, Ups(|start| - n) + down) == start[..n] + down
  {
    hide *;
    FollowOn(start, Ups(|start| - n), down);
    FollowUp(start, |start| - n);
    assert start[..|start| - (|start| - n)] == start[..n];
    FollowDown(start[..n], down);
  }

  lemma WayLeads(start: seq<string>, end: seq<string>)
    requires forall c :: c in end ==> Plain(c)
    ensures Follow(start, Way(start, end)) == end
  {
    var n := Common(start, end);
    assert Way(start, end) == Ups(|start| - n) + end[n..];
    hide *;
    UpAndDown(start, n, end[n..]);
    assert end[..n] + end[n..] == end;
  }

  /** Every step of the way is a component. */
  lemma WayComponents(start: seq<string>, end: seq<string>, c: string)
    requires (forall x :: x in end ==> Plain(x)) && c in Way(start, end)
    ensures c != "" && '/' !in c
  {
    var n := Common(start, end);
    UpsSize(|start| - n);
    if c !in Ups(|start| - n) {
      assert c in end[n..];
      assert c in end;
    }
  }

  lemma {:induction false} JoinedRelative(comps: seq<string>)
    requires comps != [] && forall c :: c in comps ==> '/' !in c && c != ""
    ensures Joined(comps) != "" && !IsAbsolute(Joined(comps))
  {
    if |comps| > 1 {
      JoinedRelative(comps[..|comps| - 1]);
      assert Joined(comps)[0] == Joined(comps[..|comps| - 1])[0];
    } else {
      assert comps[0] in comps;
      assert comps[0][0] in comps[0];
    }
  }

  lemma SplitBelow(root: string, rel: string)
    requires root != "" && !IsAbsolute(rel)
    ensures Location(Join(root, rel)) == Follow(Location(root), Split(rel))
  {
    if root[|root| - 1] == '/' {
      var front := root[..|root| - 1];
      assert root == front + "/" + "" && root + rel == front + "/" + rel;
      assert Follow(Location(front), [""]) == Location(front);
      hide Split, Follow;
      SplitJoin(front, "");
      assert Split("") == [""] by {
        SplitWhole("");
      }
      SplitJoin(front, rel);
      FollowOn([], Split(front), Split(rel));
      FollowOn([], Split(front), [""]);
    } else {
      hide Split, Follow;
      SplitJoin(root, rel);
      FollowOn([], Split(root), Split(rel));
    }
  }

  // ------------------------------------------------------------- the shortest way

  /** The steps between two places, up and down. */
  function Distance(a: seq<string>, b: seq<string>): nat {
    |a| + |b| - 2 * Common(a, b)
  }

  lemma {:induction false} CommonMost(a: seq<string>, b: seq<string>, n: nat)
    requires n <= |a| && n <= |b| && a[..n] == b[..n]
    ensures n <= Common(a, b)
  {
    if n > 0 {
      assert a[0] == a[..n][0] && b[0] == b[..n][0];
      assert a[1..][..n - 1] == a[..n][1..] && b[1..][..n - 1] == b[..n][1..];
      CommonMost(a[1..], b[1..], n - 1);
    }
  }

  /** One component takes a step at most. */
  lemma OneStep(start: seq<string>, at: seq<string>, c: string)
    ensures Distance(start, Step(at, c)) <= Distance(start, at) + 1
  {
    var n, next := Common(start, at), Step(at, c);
    if n <= |next| {
      assert next[..n] == at[..n];
      CommonMost(start, next, n);
    } else {
      assert n == |at| && next == at[..n - 1] && next[..n - 1] == start[..n][..n - 1];
      CommonMost(start, next, n - 1);
    }
  }

  lemma {:induction false} NoShorter(start: seq<string>, way: seq<string>)
    ensures Distance(start, Follow(start, way)) <= |way|
  {
    if way == [] {
      assert start[..|start|] == start;
      CommonMost(start, start, |start|);
    } else {
      NoShorter(start, way[..|way| - 1]);
      OneStep(start, Follow(start, way[..|way| - 1]), way[|way| - 1]);
    }
  }

  /** No way between two places has fewer components. */
  lemma WayIsShortest(start: seq<string>, end: seq<string>, way: seq<string>)
    requires Follow(start, way) == end
    ensures |Way(start, end)| <= |way|
  {
    UpsSize(|start| - Common(start, end));
    NoShorter(start, way);
  }

  /** From a directory its relative path leads back to the place. */
  lemma RelPathLeads(path: string, root: string)
    requires root != ""
    ensures !IsAbsolute(RelPath(path, root)) && RelPath(path, root) != ""
    ensures Location(Join(root, RelPath(path, root))) == Location(path)
  {
    var start, end := Location(root), Location(path);
    var way := Way(start, end);
    forall c | c in end
      ensures Plain(c)
    {
      LocationPlain(path, c);
    }
    WayLeads(start, end);
    forall c | c in way
      ensures c != "" && '/' !in c
    {
      WayComponents(start, end, c);
    }
    if way == [] {
      SplitWhole(".");
      SplitBelow(root, ".");
      assert Follow(start, ["."]) == start;
    } else {
      SplitJoined(way);
      JoinedRelative(way);
      SplitBelow(root, Joined(way));
    }
  }

  /** No relative path that leads there has fewer components. */
  lemma RelPathIsShortest(path: string, root: string, rel: string)
    requires root != "" && !IsAbsolute(rel) && Location(Join(root, rel)) == Location(path)
    ensures |Split(RelPath(path, root))| <= |Split(rel)|
  {
    var start, end := Location(root), Location(path);
    var way := Way(start, end);
    SplitBelow(root, rel);
    WayIsShortest(start, end, Split(rel));
    forall c | c in end
      ensures Plain(c)
    {
      LocationPlain(path, c);
    }
    forall c | c in way
      ensures c != "" && '/' !in c
    {
      WayComponents(start, end, c);
    }
    if way == [] {
      SplitWhole(".");
    } else {
      SplitJoined(way);
    }
  }
}
