/** The data roots of a file list: a prefix cover of its directories. */
module DataRoots {
  import opened Decimals
  import opened Ordering
  import opened FileLists
  import opened RelPaths

  // ------------------------------------------------------------------ dirname

  function AfterLastSlash(p: string): (i: nat)
    ensures i <= |p|
  {
    if p == "" then 0 else if p[|p| - 1] == '/' then |p| else AfterLastSlash(p[..|p| - 1])
  }

  predicate OnlySlashes(s: string) {
    forall i :: 0 <= i < |s| ==> s[i] == '/'
  }

  function StripSlashes(s: string): string {
    if s != "" && s[|s| - 1] == '/' then StripSlashes(s[..|s| - 1]) else s
  }

  function DirName(p: string): string {
    var head := p[..AfterLastSlash(p)];
    if OnlySlashes(head) then head else StripSlashes(head)
  }

  lemma {:induction false} StripSlashesPrefix(s: string)
    ensures StripSlashes(s) <= s
  {
    if s != "" && s[|s| - 1] == '/' {
      StripSlashesPrefix(s[..|s| - 1]);
    }
  }

  /** The directory of a path is a prefix of it. */
  lemma DirNamePrefix(p: string)
    ensures DirName(p) <= p
  {
    StripSlashesPrefix(p[..AfterLastSlash(p)]);
  }

  /** The path up to its last slash, without slashes at the end unless there is nothing else. */
  ghost predicate IsDirName(p: string, d: string) {
    exists i: nat :: i <= |p| && (i > 0 ==> p[i - 1] == '/') && '/' !in p[i..] && IsHead(p[..i], d)
  }

  ghost predicate IsHead(head: string, d: string) {
    && d <= head && (forall k :: |d| <= k < |head| ==> head[k] == '/')
    && if forall k :: 0 <= k < |head| ==> head[k] == '/' then d == head else d != "" && d[|d| - 1] != '/'
  }

  lemma {:induction false} LastSlash(p: string)
    ensures var i := AfterLastSlash(p); (i > 0 ==> p[i - 1] == '/') && '/' !in p[i..]
  {
    if p != "" && p[|p| - 1] != '/' {
      LastSlash(p[..|p| - 1]);
      var i := AfterLastSlash(p);
      assert p[i..] == p[..|p| - 1][i..] + [p[|p| - 1]];
    }
  }

  lemma {:induction false} SlashesOff(s: string)
    requires !OnlySlashes(s)
    ensures IsHead(s, StripSlashes(s))
  {
    if s[|s| - 1] == '/' {
      SlashesOff(s[..|s| - 1]);
    } else {
      assert s[|s| - 1] != '/';
    }
  }

  lemma DirNameIs(p: string)
    ensures IsDirName(p, DirName(p))
  {
    LastSlash(p);
    var head := p[..AfterLastSlash(p)];
    if !OnlySlashes(head) {
      SlashesOff(head);
    }
  }

  lemma DirNameOnce(p: string, d: string, e: string)
    requires IsDirName(p, d) && IsDirName(p, e)
    ensures d == e
  {
    var i: nat :| i <= |p| && (i > 0 ==> p[i - 1] == '/') && '/' !in p[i..] && IsHead(p[..i], d);
    var j: nat :| j <= |p| && (j > 0 ==> p[j - 1] == '/') && '/' !in p[j..] && IsHead(p[..j], e);
    assert forall k :: i <= k < |p| ==> p[k] == p[i..][k - i];
    assert forall k :: j <= k < |p| ==> p[k] == p[j..][k - j];
    assert i == j;
    var head := p[..i];
    assert d == head[..|d|] && e == head[..|e|];
    hide IsDirName;
    if exists k :: 0 <= k < |head| && head[k] != '/' {
      assert head[|d| - 1] == d[|d| - 1] && head[|e| - 1] == e[|e| - 1];
    }
  }

  lemma {:induction false} SlashesLeadNowhere(s: string)
    ensures Location(StripSlashes(s)) == Location(s)
  {
    if s != "" && s[|s| - 1] == '/' {
      SlashesLeadNowhere(s[..|s| - 1]);
      SlashLeadsNowhere(s[..|s| - 1]);
      assert s == s[..|s| - 1] + "/";
    }
  }

  lemma SlashLeadsNowhere(s: string)
    ensures Location(s + "/") == Location(s)
  {
    SplitJoin(s, "");
    SplitWhole("");
    assert s + "/" + "" == s + "/";
    FollowOn([], Split(s), [""]);
    assert Follow(Location(s), [""]) == Location(s);
  }

  /** A path leads where its last component leads from its directory. */
  lemma DirNameLeads(p: string)
    requires '/' in p
    ensures Location(p) == Follow(Location(DirName(p)), [p[AfterLastSlash(p)..]])
  {
    hide *;
    var front, name := FrontAndName(p);
    DirNameLocation(p);
    SlashLeadsNowhere(front);
    NameLeads(front, name);
  }

  lemma FrontAndName(p: string) returns (front: string, name: string)
    requires '/' in p
    ensures p[..AfterLastSlash(p)] == front + "/" && p == front + "/" + name
    ensures name == p[AfterLastSlash(p)..] && '/' !in name
  {
    hide AfterLastSlash;
    LastSlash(p);
    var i := AfterLastSlash(p);
    assert i > 0 by {
      assert p[0..] == p;
    }
    front, name := p[..i - 1], p[i..];
  }

  lemma NameLeads(front: string, name: string)
    requires '/' !in name
    ensures Location(front + "/" + name) == Follow(Location(front), [name])
  {
    hide Split, Follow;
    SplitJoin(front, name);
    SplitWhole(name);
    FollowOn([], Split(front), [name]);
  }

  lemma DirNameLocation(p: string)
    ensures Location(DirName(p)) == Location(p[..AfterLastSlash(p)])
  {
    hide Location, OnlySlashes;
    SlashesLeadNowhere(p[..AfterLastSlash(p)]);
  }

  // --------------------------------------------------------------- the roots

  predicate Covered(roots: seq<string>, path: string) {
    exists r :: r in roots && r <= path
  }

  /** Each directory becomes a root unless an earlier root is a prefix of it. */
  function Roots(dirs: seq<string>): seq<string> {
    if dirs == [] then []
    else
      var front, last := Roots(dirs[..|dirs| - 1]), dirs[|dirs| - 1];
      if Covered(front, last) then front else front + [last]
  }

  lemma {:induction false} RootsGrow(dirs: seq<string>, i: nat)
    requires i <= |dirs|
    ensures Roots(dirs[..i]) <= Roots(dirs)
  {
    if i == |dirs| {
      assert dirs[..i] == dirs;
    } else {
      RootsGrow(dirs[..|dirs| - 1], i);
      assert dirs[..|dirs| - 1][..i] == dirs[..i];
    }
  }

  // ------------------------------------------------------------- their names

  /** A registered data root; `tag` is a version, which file lists do not give. */
  datatype Dataroot = Dataroot(path: string, tag: Option<string>)

  /** The generated name of the `k`-th root. */
  function RootName(base: string, k: nat): string {
    base + "-" + Decimal(k)
  }

  /** The name stands for something else already. */
  predicate Taken(known: map<string, Dataroot>, name: string, path: string) {
    name in known && known[name] != Dataroot(path, None)
  }

  /** The data roots known once `roots` have been added under their generated names. */
  function Registered(known: map<string, Dataroot>, base: string, roots: seq<string>): map<string, Dataroot> {
    if roots == [] then known
    else
      var k := |roots| - 1;
      Registered(known, base, roots[..k])[RootName(base, k) := Dataroot(roots[k], None)]
  }

  lemma {:induction false} RegisteredAt(known: map<string, Dataroot>, base: string, roots: seq<string>)
    ensures forall k :: 0 <= k < |roots| ==>
      RootName(base, k) in Registered(known, base, roots)
        && Registered(known, base, roots)[RootName(base, k)] == Dataroot(roots[k], None)
    ensures forall n :: (forall k :: 0 <= k < |roots| ==> n != RootName(base, k)) ==>
      (n in Registered(known, base, roots) <==> n in known)
        && (n in known ==> Registered(known, base, roots)[n] == known[n])
  {
    if roots != [] {
      var last := |roots| - 1;
      RegisteredAt(known, base, roots[..last]);
      forall k | 0 <= k < last
        ensures RootName(base, k) != RootName(base, last)
      {
        NumbersDiffer(base + "-", k, last);
      }
    }
  }

  /** Nothing that was known is lost or changed if no name was taken. */
  lemma RegisteredKeeps(known: map<string, Dataroot>, base: string, roots: seq<string>, n: string)
    requires AllFree(known, base, roots)
    ensures n in known ==> n in Registered(known, base, roots) && Registered(known, base, roots)[n] == known[n]
  {
    RegisteredAt(known, base, roots);
    if k :| 0 <= k < |roots| && n == RootName(base, k) {
      assert !Taken(known, RootName(base, k), roots[k]);
    }
  }

  lemma NextName(known: map<string, Dataroot>, base: string, roots: seq<string>, path: string)
    ensures var name := RootName(base, |roots|);
      && Taken(Registered(known, base, roots), name, path) == Taken(known, name, path)
      && Registered(known, base, roots + [path]) == Registered(known, base, roots)[name := Dataroot(path, None)]
  {
    RegisteredAt(known, base, roots);
    forall k | 0 <= k < |roots|
      ensures RootName(base, |roots|) != RootName(base, k)
    {
      NumbersDiffer(base + "-", |roots|, k);
    }
    assert (roots + [path])[..|roots|] == roots;
  }

  lemma RootsStep(dirs: seq<string>, i: nat)
    requires i < |dirs|
    ensures var roots := Roots(dirs[..i]);
      Roots(dirs[..i + 1]) == (if Covered(roots, dirs[i]) then roots else roots + [dirs[i]])
        && Roots(dirs[..i + 1]) <= Roots(dirs)
  {
    RootsGrow(dirs, i + 1);
    assert dirs[..i + 1][..i] == dirs[..i];
  }

  /** No name of the roots chosen so far is taken. */
  ghost predicate AllFree(known: map<string, Dataroot>, base: string, roots: seq<string>) {
    forall k :: 0 <= k < |roots| ==> !Taken(known, RootName(base, k), roots[k])
  }

  lemma OneMoreFree(known: map<string, Dataroot>, base: string, roots: seq<string>, path: string)
    requires AllFree(known, base, roots)
    ensures AllFree(known, base, roots + [path]) <==> !Taken(known, RootName(base, |roots|), path)
  {
    hide Taken, RootName;
    assert (roots + [path])[|roots|] == path;
  }

  lemma FreePrefix(known: map<string, Dataroot>, base: string, roots: seq<string>, more: seq<string>)
    requires roots <= more && AllFree(known, base, more)
    ensures AllFree(known, base, roots)
  {
    hide Taken, RootName;
    assert forall k :: 0 <= k < |roots| ==> roots[k] == more[k];
  }

  /** Goes through the directories, and stops at the first root whose name is taken. */
  method ChooseRoots(dirs: seq<string>, base: string, known: map<string, Dataroot>)
    returns (ok: bool, roots: seq<string>, dataroots: map<string, Dataroot>)
    ensures dataroots == Registered(known, base, roots) && AllFree(known, base, roots)
    ensures ok <==> AllFree(known, base, Roots(dirs))
    ensures roots <= Roots(dirs) && (ok ==> roots == Roots(dirs))
    ensures !ok ==> |roots| < |Roots(dirs)| && Taken(known, RootName(base, |roots|), Roots(dirs)[|roots|])
  {
    assert Registered(known, base, []) == known && AllFree(known, base, []) && Roots(dirs[..0]) == [];
    hide *;
    ok, roots, dataroots := true, [], known;
    for i := 0 to |dirs|
      invariant roots == Roots(dirs[..i]) && dataroots == Registered(known, base, roots) && AllFree(known, base, roots)
    {
      RootsStep(dirs, i);
      var found := HasPrefix(roots, dirs[i]);
      if !found {
        var name := RootName(base, |roots|);
        NextName(known, base, roots, dirs[i]);
        OneMoreFree(known, base, roots, dirs[i]);
        if Taken(dataroots, name, dirs[i]) {
          if AllFree(known, base, Roots(dirs)) {
            FreePrefix(known, base, roots + [dirs[i]], Roots(dirs));
          }
          return false, roots, dataroots;
        }
        dataroots := dataroots[name := Dataroot(dirs[i], None)];
        roots := roots + [dirs[i]];
      }
    }
    assert dirs[..|dirs|] == dirs;
  }

  method HasPrefix(roots: seq<string>, path: string) returns (found: bool)
    ensures found == Covered(roots, path)
  {
    found := false;
    for i := 0 to |roots|
      invariant !Covered(roots[..i], path)
    {
      if roots[i] <= path {
        assert roots[i] in roots;
        return true;
      }
      assert roots[..i + 1] == roots[..i] + [roots[i]];
    }
    assert roots[..|roots|] == roots;
  }

  /** No other directory of the list is a prefix. */
  ghost predicate Minimal(dirs: seq<string>, d: string) {
    d in dirs && forall e :: e in dirs && e <= d ==> e == d
  }

  lemma {:induction false} RootsCover(dirs: seq<string>, d: string)
    requires d in dirs
    ensures Covered(Roots(dirs), d)
  {
    var front, last := dirs[..|dirs| - 1], dirs[|dirs| - 1];
    assert dirs == front + [last];
    if d in front {
      RootsCover(front, d);
      var r :| r in Roots(front) && r <= d;
      assert r in Roots(dirs);
    } else if !Covered(Roots(front), last) {
      assert d in Roots(dirs);
    }
  }

  lemma IncreasingFront(dirs: seq<string>)
    requires dirs != [] && Increasing(dirs, StringLess)
    ensures Increasing(dirs[..|dirs| - 1], StringLess)
  {
  }

  lemma {:induction false} LessNotExtends(a: string, b: string)
    requires StringLess(a, b)
    ensures !(b <= a)
  {
    if a != [] && a[0] == b[0] {
      assert b <= a ==> b[1..] <= a[1..];
      LessNotExtends(a[1..], b[1..]);
    }
  }

  /** In sorted order nothing that comes later is a prefix of what came before. */
  lemma NotPrefixOfEarlier(dirs: seq<string>, d: string)
    requires dirs != [] && Increasing(dirs, StringLess) && d in dirs[..|dirs| - 1]
    ensures !(dirs[|dirs| - 1] <= d)
  {
    var i :| 0 <= i < |dirs| - 1 && dirs[i] == d;
    assert StringLess(dirs[i], dirs[|dirs| - 1]);
    LessNotExtends(d, dirs[|dirs| - 1]);
  }

  /** The roots are exactly the directories that no other directory is a prefix of. */
  lemma {:induction false} RootsAreMinimal(dirs: seq<string>, d: string)
    requires Increasing(dirs, StringLess)
    ensures d in Roots(dirs) <==> Minimal(dirs, d)
    decreases |dirs|, 1
  {
    if dirs != [] {
      var front, last := dirs[..|dirs| - 1], dirs[|dirs| - 1];
      assert dirs == front + [last];
      IncreasingFront(dirs);
      RootsAreMinimal(front, d);
      if d in front {
        NotPrefixOfEarlier(dirs, d);
        assert forall e :: e in dirs <==> e in front || e == last;
        assert Minimal(dirs, d) <==> Minimal(front, d);
      } else if d == last {
        LastIsRoot(front, last);
      }
    }
  }

  lemma LastIsRoot(front: seq<string>, last: string)
    requires Increasing(front, StringLess) && last !in front
    ensures Covered(Roots(front), last) <==> !Minimal(front + [last], last)
    decreases |front|, 2
  {
    if Covered(Roots(front), last) {
      var r :| r in Roots(front) && r <= last;
      RootsAreMinimal(front, r);
      assert r in front + [last] && r != last;
    }
    if !Minimal(front + [last], last) {
      var e :| e in front + [last] && e <= last && e != last;
      RootsCover(front, e);
      var r :| r in Roots(front) && r <= e;
      assert r <= last;
    }
  }

  lemma PrefixesNest(a: string, b: string, path: string)
    requires a <= path && b <= path
    ensures a <= b || b <= a
  {
    assert a == path[..|a|] && b == path[..|b|];
  }

  /** Whatever the path, at most one root is a prefix of it. */
  lemma OneRoot(dirs: seq<string>, path: string, a: string, b: string)
    requires Increasing(dirs, StringLess)
    requires a in Roots(dirs) && b in Roots(dirs) && a <= path && b <= path
    ensures a == b
  {
    RootsAreMinimal(dirs, a);
    RootsAreMinimal(dirs, b);
    PrefixesNest(a, b, path);
  }

  // ------------------------------------------------------------- looking up

  /** The first root that is a prefix. */
  function RootOf(roots: seq<string>, path: string): Option<string> {
    if roots == [] then None else if roots[0] <= path then Some(roots[0]) else RootOf(roots[1..], path)
  }

  /** The position of the first root that is a prefix, or the end. */
  method GetDataroot(roots: seq<string>, path: string) returns (r: nat)
    ensures r == RootIndex(roots, path)
  {
    r := 0;
    assert roots[0..] == roots;
    while r < |roots| && !(roots[r] <= path)
      invariant r <= |roots| && r + RootIndex(roots[r..], path) == RootIndex(roots, path)
    {
      assert roots[r..][1..] == roots[r + 1..];
      r := r + 1;
    }
  }

  lemma {:induction false} RootOfFound(roots: seq<string>, path: string)
    ensures match RootOf(roots, path)
            case None => !Covered(roots, path)
            case Some(r) => r in roots && r <= path
  {
    if roots != [] && !(roots[0] <= path) {
      RootOfFound(roots[1..], path);
      assert forall r :: r in roots ==> r == roots[0] || r in roots[1..];
    }
  }

  /** The directories a file list speaks of, sorted. */
  function Dirs(p: Parsed): set<string> {
    Elements(p.idirs) + set f | f in p.files :: DirName(f)
  }

  /** Every include directory and every file lies under a root. */
  lemma EverythingCovered(p: Parsed, dirs: seq<string>, path: string)
    requires Elements(dirs) == Dirs(p) && (path in p.idirs || path in p.files)
    ensures Covered(Roots(dirs), path)
  {
    var d := if path in p.idirs then path else DirName(path);
    DirNamePrefix(path);
    assert d in Elements(dirs);
    RootsCover(dirs, d);
    var r :| r in Roots(dirs) && r <= d;
    assert r <= path;
  }

  /**
   * Each include directory and file belongs to exactly one root, and is given that root whatever
   * the order in which the roots are tried.
   */
  lemma RootIsUnique(p: Parsed, dirs: seq<string>, path: string, order: seq<string>)
    requires Lists(dirs, Dirs(p), StringLess) && (path in p.idirs || path in p.files)
    requires forall r :: r in order <==> r in Roots(dirs)
    ensures RootOf(order, path).Some? && RootOf(order, path) == RootOf(Roots(dirs), path)
    ensures forall r :: r in Roots(dirs) ==> (r <= path <==> Some(r) == RootOf(order, path))
  {
    EverythingCovered(p, dirs, path);
    RootOfFound(order, path);
    RootOfFound(Roots(dirs), path);
    var c :| c in Roots(dirs) && c <= path;
    assert Covered(order, path);
    var a, b := RootOf(order, path).value, RootOf(Roots(dirs), path).value;
    OneRoot(dirs, path, a, b);
    forall r | r in Roots(dirs) && r <= path
      ensures r == a
    {
      OneRoot(dirs, path, r, a);
    }
  }

  // -------------------------------------------------------------- the reader

  /** A path as it is stored: relative to its root, named, if it has one. */
  datatype Stored = Stored(path: string, root: Option<string>)

  /** Where the first root that is a prefix stands, or the end. */
  function RootIndex(roots: seq<string>, path: string): (i: nat)
    ensures i <= |roots|
    ensures i < |roots| ==> RootOf(roots, path) == Some(roots[i])
    ensures i == |roots| ==> RootOf(roots, path) == None
  {
    if roots == [] || roots[0] <= path then 0 else RootIndex(roots[1..], path) + 1
  }

  function Stow(roots: seq<string>, base: string, path: string): Stored {
    var i := RootIndex(roots, path);
    if i == |roots| then Stored(path, None) else Stored(RelPath(path, roots[i]), Some(RootName(base, i)))
  }

  method StoreAll(roots: seq<string>, base: string, paths: seq<string>) returns (stored: seq<Stored>)
    ensures |stored| == |paths|
    ensures forall i :: 0 <= i < |paths| ==> stored[i] == Stow(roots, base, paths[i])
  {
    stored := [];
    for i := 0 to |paths|
      invariant |stored| == i
      invariant forall k :: 0 <= k < i ==> stored[k] == Stow(roots, base, paths[k])
    {
      var path := paths[i];
      var r := GetDataroot(roots, path);
      if r < |roots| {
        stored := stored + [Stored(RelPath(path, roots[r]), Some(RootName(base, r)))];
      } else {
        stored := stored + [Stored(path, None)];
      }
    }
  }

  /** What is stored for a path: the name of the one root that is a prefix of it, and the way from there back to it. */
  ghost predicate Keeps(s: Stored, path: string, dataroots: map<string, Dataroot>, roots: seq<string>) {
    && s.root.Some? && s.root.value in dataroots && dataroots[s.root.value].path in roots
    && (forall r :: r in roots ==> (r <= path <==> r == dataroots[s.root.value].path))
    && !IsAbsolute(s.path) && Location(Join(dataroots[s.root.value].path, s.path)) == Location(path)
  }

  /** Every entry in order, each under its root. */
  ghost predicate IsStored(stored: seq<Stored>, paths: seq<string>, dataroots: map<string, Dataroot>,
      roots: seq<string>) {
    |stored| == |paths| && forall i :: 0 <= i < |paths| ==> Keeps(stored[i], paths[i], dataroots, roots)
  }

  /** Every path that is read is absolute, whatever the line says. */
  lemma {:induction false} ReadAbsolute(env: Env, lines: seq<string>, path: string)
    requires IsAbsolute(env.relPath)
    requires path in Parse(env, lines).idirs || path in Parse(env, lines).files
    ensures IsAbsolute(path)
  {
    var before := Parse(env, lines[..|lines| - 1]);
    if path in before.idirs || path in before.files {
      ReadAbsolute(env, lines[..|lines| - 1], path);
    } else {
      var line := Strip(lines[|lines| - 1]);
      assert path == ExpandPath(env, if "+incdir+" <= line then line[8..] else line);
    }
  }

  lemma {:induction false} SlashFound(p: string)
    requires IsAbsolute(p)
    ensures AfterLastSlash(p) > 0
  {
    if p[|p| - 1] != '/' {
      SlashFound(p[..|p| - 1]);
    }
  }

  lemma {:induction false} Stripped(s: string)
    requires !OnlySlashes(s)
    ensures StripSlashes(s) != ""
  {
    if s[|s| - 1] == '/' {
      Stripped(s[..|s| - 1]);
    }
  }

  lemma DirNameNonEmpty(p: string)
    requires IsAbsolute(p)
    ensures DirName(p) != ""
  {
    SlashFound(p);
    var head := p[..AfterLastSlash(p)];
    if !OnlySlashes(head) {
      Stripped(head);
    }
  }

  lemma {:induction false} RootsAmong(dirs: seq<string>, r: string)
    requires r in Roots(dirs)
    ensures r in dirs
  {
    if r in Roots(dirs[..|dirs| - 1]) {
      RootsAmong(dirs[..|dirs| - 1], r);
    }
  }

  lemma RootNonEmpty(env: Env, lines: seq<string>, dirs: seq<string>, r: string)
    requires IsAbsolute(env.relPath) && Elements(dirs) == Dirs(Parse(env, lines)) && r in Roots(dirs)
    ensures r != ""
  {
    var p := Parse(env, lines);
    RootsAmong(dirs, r);
    assert r in Elements(dirs);
    if r in p.idirs {
      ReadAbsolute(env, lines, r);
    } else {
      var f :| f in p.files && r == DirName(f);
      ReadAbsolute(env, lines, f);
      DirNameNonEmpty(f);
    }
  }

  lemma StoredKeeps(env: Env, lines: seq<string>, dirs: seq<string>, known: map<string, Dataroot>, base: string,
      path: string)
    requires IsAbsolute(env.relPath) && Lists(dirs, Dirs(Parse(env, lines)), StringLess)
    requires path in Parse(env, lines).idirs || path in Parse(env, lines).files
    ensures Keeps(Stow(Roots(dirs), base, path), path, Registered(known, base, Roots(dirs)), Roots(dirs))
  {
    hide Parse, Dirs, Roots, Location, RelPath, Registered, RootName;
    var p := Parse(env, lines);
    RootIsUnique(p, dirs, path, Roots(dirs));
    RootOfFound(Roots(dirs), path);
    var i := RootIndex(Roots(dirs), path);
    RootNonEmpty(env, lines, dirs, Roots(dirs)[i]);
    RelPathLeads(path, Roots(dirs)[i]);
    RegisteredAt(known, base, Roots(dirs));
  }

  lemma StoredAll(env: Env, lines: seq<string>, dirs: seq<string>, known: map<string, Dataroot>, base: string,
      paths: seq<string>, stored: seq<Stored>)
    requires IsAbsolute(env.relPath) && Lists(dirs, Dirs(Parse(env, lines)), StringLess)
    requires paths == Parse(env, lines).idirs || paths == Parse(env, lines).files
    requires |stored| == |paths| && forall i :: 0 <= i < |paths| ==> stored[i] == Stow(Roots(dirs), base, paths[i])
    ensures IsStored(stored, paths, Registered(known, base, Roots(dirs)), Roots(dirs))
  {
    hide Parse, Dirs, Roots, Lists, Stow, Keeps, Registered;
    forall i | 0 <= i < |paths|
      ensures Keeps(stored[i], paths[i], Registered(known, base, Roots(dirs)), Roots(dirs))
    {
      assert paths[i] in paths;
      StoredKeeps(env, lines, dirs, known, base, paths[i]);
    }
  }

  /** Exactly the directories that no other directory is a prefix of. */
  ghost predicate AreRoots(roots: seq<string>, dirs: set<string>) {
    forall d :: d in roots <==> d in dirs && forall e :: e in dirs && e <= d ==> e == d
  }

  lemma RootsAre(dirs: seq<string>, s: set<string>)
    requires Lists(dirs, s, StringLess)
    ensures AreRoots(Roots(dirs), s)
  {
    assert forall e :: e in dirs <==> e in s;
    forall d
      ensures d in Roots(dirs) <==> Minimal(dirs, d)
    {
      RootsAreMinimal(dirs, d);
    }
  }

  /** The roots of what a file list speaks of, in order. */
  function RootList(p: Parsed): (roots: seq<string>)
    ensures AreRoots(roots, Dirs(p))
  {
    StringOrder();
    RootsAre(Sorted(Dirs(p), StringLess), Dirs(p));
    Roots(Sorted(Dirs(p), StringLess))
  }

  /** The directories a file list speaks of. */
  ghost predicate IsDir(p: Parsed, d: string) {
    d in p.idirs || exists f :: f in p.files && IsDirName(f, d)
  }

  /** Exactly the directories that no other one is a prefix of, in order. */
  ghost predicate AreRootsOf(p: Parsed, roots: seq<string>) {
    && Increasing(roots, StringLess)
    && forall d :: d in roots <==> IsDir(p, d) && forall e :: IsDir(p, e) && e <= d ==> e == d
  }

  /** The known data roots and the new ones, numbered behind the base name. */
  ghost predicate AreRegistered(dataroots: map<string, Dataroot>, known: map<string, Dataroot>, base: string,
      roots: seq<string>) {
    && (forall n :: n in known ==> n in dataroots && dataroots[n] == known[n])
    && (forall n :: n in dataroots ==> n in known || exists k: nat :: k < |roots| && n == base + "-" + Decimal(k))
    && (forall k: nat :: k < |roots| ==>
      base + "-" + Decimal(k) in dataroots && dataroots[base + "-" + Decimal(k)] == Dataroot(roots[k], None))
  }

  /** No generated name stands for something else. */
  ghost predicate NamesFree(known: map<string, Dataroot>, base: string, roots: seq<string>) {
    forall k: nat :: k < |roots| && base + "-" + Decimal(k) in known ==>
      known[base + "-" + Decimal(k)] == Dataroot(roots[k], None)
  }

  lemma NamesFreeIff(known: map<string, Dataroot>, base: string, roots: seq<string>)
    ensures AllFree(known, base, roots) <==> NamesFree(known, base, roots)
  {
  }

  lemma RegisteredAre(known: map<string, Dataroot>, base: string, roots: seq<string>)
    requires AllFree(known, base, roots)
    ensures AreRegistered(Registered(known, base, roots), known, base, roots)
  {
    RegisteredAt(known, base, roots);
    forall n | n in known
      ensures n in Registered(known, base, roots) && Registered(known, base, roots)[n] == known[n]
    {
      RegisteredKeeps(known, base, roots, n);
    }
    assert forall k :: RootName(base, k) == base + "-" + Decimal(k);
  }

  lemma IsDirIff(p: Parsed, d: string)
    ensures d in Dirs(p) <==> IsDir(p, d)
  {
    forall f
      ensures IsDirName(f, d) <==> DirName(f) == d
    {
      DirNameIs(f);
      if IsDirName(f, d) {
        DirNameOnce(f, d, DirName(f));
      }
    }
  }

  lemma {:induction false} RootsIncreasing(dirs: seq<string>)
    requires Increasing(dirs, StringLess)
    ensures Increasing(Roots(dirs), StringLess)
  {
    if dirs != [] {
      var front, last := dirs[..|dirs| - 1], dirs[|dirs| - 1];
      IncreasingFront(dirs);
      RootsIncreasing(front);
      forall r | r in Roots(front)
        ensures StringLess(r, last)
      {
        RootsAmong(front, r);
        var i :| 0 <= i < |front| && front[i] == r;
        assert StringLess(dirs[i], dirs[|dirs| - 1]);
      }
      assert forall i :: 0 <= i < |Roots(front)| ==> Roots(front)[i] in Roots(front);
    }
  }

  lemma RootListIs(p: Parsed)
    ensures AreRootsOf(p, RootList(p))
  {
    StringOrder();
    RootsIncreasing(Sorted(Dirs(p), StringLess));
    hide Roots, Dirs, IsDir, Increasing;
    forall d
      ensures d in Dirs(p) <==> IsDir(p, d)
    {
      IsDirIff(p, d);
    }
  }

  /** What becomes of a list that is read as `p` and has the given roots. */
  ghost predicate IsFiled(p: Parsed, roots: seq<string>, base: string, known: map<string, Dataroot>, ok: bool,
      dataroots: map<string, Dataroot>, idirs: seq<Stored>, defines: seq<string>, files: seq<Stored>) {
    && (ok <==> NamesFree(known, base, roots))
    && (forall n :: n in known ==> n in dataroots && dataroots[n] == known[n])
    && (if ok then
          && AreRegistered(dataroots, known, base, roots) && defines == p.defines
          && IsStored(idirs, p.idirs, dataroots, roots) && IsStored(files, p.files, dataroots, roots)
        else idirs == [] && defines == [] && files == [])
  }

  /**
   * Reading a file list into a fileset, where `base` is what the names of its roots start with. The
   * roots are the minimal directories; the list is refused exactly when one of their names stands for
   * something else, and then nothing is stored. Otherwise every entry is stored under the one root that
   * is a prefix of it, as the way from there back to it. What was known before stays known.
   */
  method ReadFlist(env: Env, content: string, base: string, known: map<string, Dataroot>)
    returns (ok: bool, dataroots: map<string, Dataroot>, idirs: seq<Stored>, defines: seq<string>, files: seq<Stored>)
    requires IsAbsolute(env.relPath)
    ensures exists p, roots ::
      && IsRead(env, content, p) && AreRootsOf(p, roots)
      && IsFiled(p, roots, base, known, ok, dataroots, idirs, defines, files)
  {
    var p := ReadLines(env, content);
    StringOrder();
    RootListIs(p);
    var dirs := Sorted(Dirs(p), StringLess);
    assert RootList(p) == Roots(dirs);
    hide Parse, FileLines, IsStored, Dirs, Taken, Registered, RootList, Roots, AllFree, IsRead, AreRootsOf,
      AreRegistered, NamesFree;
    NamesFreeIff(known, base, Roots(dirs));
    var roots;
    ok, roots, dataroots := ChooseRoots(dirs, base, known);
    forall n | n in known
      ensures n in dataroots && dataroots[n] == known[n]
    {
      RegisteredKeeps(known, base, roots, n);
    }
    if !ok {
      return false, dataroots, [], [], [];
    }
    RegisteredAre(known, base, roots);
    idirs := StoreAll(roots, base, p.idirs);
    files := StoreAll(roots, base, p.files);
    defines := p.defines;
    StoredAll(env, FileLines(content), dirs, known, base, p.idirs, idirs);
    StoredAll(env, FileLines(content), dirs, known, base, p.files, files);
  }
}
