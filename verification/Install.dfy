/** Rebuilding tools: dependency closures, fingerprints and the resumable install loop. */
module Install {
  import opened Ordering

  // ----------------------------------------------------------- tool metadata

  /** A dependency field: absent, one name, or a list of names. */
  datatype Names = Absent | One(name: string) | Many(names: seq<string>)

  /** A tool's entry; `pinned` stands for version, commit and address. */
  datatype Entry = Entry(pinned: string, dockerDepends: Names, buildDepends: Names)

  type Tools = map<string, Entry>

  function Listed(n: Names): seq<string> {
    match n
    case Absent => []
    case One(name) => [name]
    case Many(names) => names
  }

  function Depends(data: Tools, tool: string): seq<string> {
    if tool in data then Listed(data[tool].dockerDepends) else []
  }

  // ----------------------------------------------------- dependency closures

  ghost predicate DependencyClosed(s: set<string>, data: Tools) {
    forall t, d :: t in s && d in Depends(data, t) ==> d in s
  }

  /** The smallest set that holds `names` and, with a tool, everything it depends on. */
  ghost predicate IsClosure(c: set<string>, names: set<string>, data: Tools) {
    && names <= c && DependencyClosed(c, data)
    && forall s :: names <= s && DependencyClosed(s, data) ==> c <= s
  }

  function Direct(s: set<string>, data: Tools): set<string> {
    set t, d | t in s && d in Depends(data, t) :: d
  }

  /** Every name the metadata mentions as a dependency. */
  function Mentioned(data: Tools): set<string> {
    Direct(data.Keys, data)
  }

  lemma DirectMentioned(s: set<string>, data: Tools)
    ensures Direct(s, data) <= Mentioned(data)
  {
    forall d | d in Direct(s, data)
      ensures d in Mentioned(data)
    {
      var t :| t in s && d in Depends(data, t);
      assert t in data.Keys;
    }
  }

  /** The closure, by adding direct dependencies until nothing is new. */
  function Closure(names: set<string>, data: Tools): set<string>
    decreases |Mentioned(data) - names|
  {
    if Direct(names, data) <= names then names
    else
      MoreNames(names, data);
      Closure(names + Direct(names, data), data)
  }

  lemma {:induction false} ClosureIs(names: set<string>, data: Tools)
    ensures IsClosure(Closure(names, data), names, data)
    decreases |Mentioned(data) - names|
  {
    if Direct(names, data) <= names {
      Saturated(names, data);
    } else {
      MoreNames(names, data);
      ClosureIs(names + Direct(names, data), data);
      GrownClosure(Closure(names, data), names, data);
    }
  }

  lemma Saturated(names: set<string>, data: Tools)
    requires Direct(names, data) <= names
    ensures IsClosure(names, names, data)
  {
    forall t, d | t in names && d in Depends(data, t)
      ensures d in names
    {
      assert d in Direct(names, data);
    }
  }

  lemma MoreNames(names: set<string>, data: Tools)
    requires !(Direct(names, data) <= names)
    ensures |Mentioned(data) - (names + Direct(names, data))| < |Mentioned(data) - names|
  {
    DirectMentioned(names, data);
    var d :| d in Direct(names, data) && d !in names;
    var before, after := Mentioned(data) - names, Mentioned(data) - (names + Direct(names, data));
    assert d in before && d !in after;
    SubsetSize(after, before);
  }

  lemma GrownClosure(c: set<string>, names: set<string>, data: Tools)
    requires IsClosure(c, names + Direct(names, data), data)
    ensures IsClosure(c, names, data)
  {
    forall s | names <= s && DependencyClosed(s, data)
      ensures c <= s
    {
      assert Direct(names, data) <= s;
    }
  }

  /** What the worklist has reached, with what is still pending. */
  ghost predicate Expanding(result: set<string>, pending: set<string>, names: set<string>, data: Tools) {
    && names <= result + pending <= Closure(names, data)
    && forall t, d :: t in result && d in Depends(data, t) ==> d in result + pending
  }

  lemma ExpandStep(result: set<string>, pending: set<string>, name: string, names: set<string>, data: Tools)
    requires Expanding(result, pending + {name}, names, data)
    ensures name in Closure(names, data)
    ensures Expanding(result + {name}, pending + Elements(Depends(data, name)), names, data)
  {
    ClosureIs(names, data);
    var c, direct := Closure(names, data), Elements(Depends(data, name));
    assert name in c;
    assert direct <= c;
    forall t, d | t in result + {name} && d in Depends(data, t)
      ensures d in result + {name} + (pending + direct)
    {
      if t == name {
        assert d in direct;
      } else {
        assert t in result;
        assert d in result + (pending + {name});
      }
    }
  }

  lemma ExpandKnown(result: set<string>, pending: set<string>, name: string, names: set<string>, data: Tools)
    requires Expanding(result, pending + {name}, names, data) && name in result
    ensures Expanding(result, pending, names, data)
  {
    assert result + (pending + {name}) == result + pending;
  }

  lemma ExpandEnd(result: set<string>, names: set<string>, data: Tools)
    requires Expanding(result, {}, names, data)
    ensures result == Closure(names, data)
  {
    ClosureIs(names, data);
    assert DependencyClosed(result, data);
  }

  lemma ExpandStart(names: set<string>, data: Tools)
    ensures Expanding({}, names, names, data)
  {
    ClosureIs(names, data);
  }

  lemma AppendedOne(a: seq<string>, x: string)
    ensures Elements(a + [x]) == Elements(a) + {x}
  {
  }

  lemma Appended(a: seq<string>, b: seq<string>)
    ensures Elements(a + b) == Elements(a) + Elements(b)
  {
  }

  /** The worklist, in any order of the starting names; cycles and unknown names included. */
  method ExpandDockerDepends(names: seq<string>, data: Tools) returns (result: set<string>)
    ensures result == Closure(Elements(names), data)
  {
    hide *;
    result := {};
    var stack := names;
    ghost var goal := Closure(Elements(names), data);
    ExpandStart(Elements(names), data);
    while stack != []
      invariant Expanding(result, Elements(stack), Elements(names), data)
      decreases goal - result, |stack|
    {
      var name, rest := stack[|stack| - 1], stack[..|stack| - 1];
      assert stack == rest + [name];
      AppendedOne(rest, name);
      stack := rest;
      if name in result {
        ExpandKnown(result, Elements(rest), name, Elements(names), data);
      } else {
        ExpandStep(result, Elements(rest), name, Elements(names), data);
        assert name in goal - result;
        result := result + {name};
        Appended(rest, Depends(data, name));
        stack := stack + Depends(data, name);
      }
    }
    NothingPending();
    ExpandEnd(result, Elements(names), data);
  }

  lemma NothingPending()
    ensures Elements<string>([]) == {}
  {
  }

  /** Closures agree when the entries they pass through agree. */
  lemma ClosureUnaffected(names: set<string>, data: Tools, data': Tools)
    requires forall t :: t in Closure(names, data) ==> Depends(data, t) == Depends(data', t)
    ensures Closure(names, data) == Closure(names, data')
  {
    var c, c' := Closure(names, data), Closure(names, data');
    ClosureIs(names, data);
    ClosureIs(names, data');
    assert DependencyClosed(c, data');
    assert c' <= c;
    assert DependencyClosed(c', data);
  }

  // ------------------------------------------------------------- fingerprints

  /** What an installer can read: scripts, the prerequisites script, the tool metadata and how they are printed. */
  datatype Sources = Sources(scripts: map<string, string>, prereqs: Option<string>, data: Option<Tools>,
    dumps: Tools -> string)

  /** Different metadata are printed differently. */
  ghost predicate PrintsApart(dumps: Tools -> string) {
    forall a, b :: dumps(a) == dumps(b) ==> a == b
  }

  function Roots(tool: string, data: Tools): seq<string> {
    [tool] + if tool in data then Listed(data[tool].buildDepends) else []
  }

  /** Everything whose entry goes into the fingerprint of a tool. */
  function Behind(tool: string, data: Tools): set<string> {
    Closure(Elements(Roots(tool, data)), data)
  }

  function Restrict(data: Tools, names: set<string>): Tools {
    map t | t in data && t in names :: data[t]
  }

  function Text(contents: Option<string>): string {
    if contents.Some? then contents.value else ""
  }

  /** The metadata as they go into the fingerprint of a tool. */
  function Metadata(tool: string, src: Sources): string {
    if src.data.Some? then src.dumps(Restrict(src.data.value, Behind(tool, src.data.value))) else ""
  }

  /** The text that is digested, one part behind the other; the digest is taken to tell texts apart. */
  function Fingerprint(tool: string, src: Sources): Option<string> {
    if tool !in src.scripts then None
    else Some(src.scripts[tool] + Text(src.prereqs) + Metadata(tool, src))
  }

  // ------------------------------------------- what goes into a fingerprint

  /** A dependency field speaks of a name, alone or in a list. */
  predicate Speaks(n: Names, x: string) {
    n == One(x) || (n.Many? && x in n.names)
  }

  predicate BuiltOn(data: Tools, t: string, d: string) {
    t in data && Speaks(data[t].dockerDepends, d)
  }

  /** Names each of which is a docker dependency of the one before. */
  ghost predicate IsDependencyChain(data: Tools, p: seq<string>) {
    p != [] && forall i :: 0 < i < |p| ==> BuiltOn(data, p[i - 1], p[i])
  }

  ghost predicate ChainTo(data: Tools, tool: string, x: string, p: seq<string>) {
    && IsDependencyChain(data, p) && p[|p| - 1] == x
    && (p[0] == tool || (tool in data && Speaks(data[tool].buildDepends, p[0])))
  }

  /** `x` is the tool, one of its build dependencies, or follows from one of these along docker dependencies. */
  ghost predicate GoesInto(data: Tools, tool: string, x: string) {
    exists p :: ChainTo(data, tool, x, p)
  }

  /** The entries that go into the fingerprint of a tool. */
  ghost predicate IsSubset(data: Tools, tool: string, subset: Tools) {
    forall t ::
      && (t in subset <==> t in data && GoesInto(data, tool, t))
      && (t in subset ==> subset[t] == data[t])
  }

  ghost predicate IsMetadata(tool: string, src: Sources, meta: string) {
    match src.data
    case None => meta == ""
    case Some(data) => exists subset :: IsSubset(data, tool, subset) && meta == src.dumps(subset)
  }

  /** The text to be digested: the script, the prerequisites if there are any, and the entries. */
  ghost predicate IsFingerprint(tool: string, src: Sources, text: string) {
    && tool in src.scripts
    && exists meta ::
      && IsMetadata(tool, src, meta)
      && text == src.scripts[tool] + (if src.prereqs.Some? then src.prereqs.value else "") + meta
  }

  lemma DependsIff(data: Tools, t: string, d: string)
    ensures d in Depends(data, t) <==> BuiltOn(data, t, d)
  {
  }

  lemma {:induction false} ClosureChain(names: set<string>, data: Tools, x: string) returns (p: seq<string>)
    requires x in Closure(names, data)
    ensures IsDependencyChain(data, p) && p[0] in names && p[|p| - 1] == x
    decreases |Mentioned(data) - names|
  {
    if Direct(names, data) <= names {
      p := [x];
    } else {
      MoreNames(names, data);
      p := ClosureChain(names + Direct(names, data), data, x);
      if p[0] !in names {
        var t :| t in names && p[0] in Depends(data, t);
        hide Closure, Direct, Depends;
        DependsIff(data, t, p[0]);
        LongerChain(data, t, p);
        p := [t] + p;
      }
    }
  }

  lemma LongerChain(data: Tools, t: string, p: seq<string>)
    requires IsDependencyChain(data, p) && BuiltOn(data, t, p[0])
    ensures IsDependencyChain(data, [t] + p)
  {
    var q := [t] + p;
    forall i | 0 < i < |q|
      ensures BuiltOn(data, q[i - 1], q[i])
    {
      if i > 1 {
        assert BuiltOn(data, p[i - 1 - 1], p[i - 1]);
      }
    }
  }

  lemma {:induction false} ChainInside(s: set<string>, data: Tools, p: seq<string>, i: nat)
    requires DependencyClosed(s, data) && IsDependencyChain(data, p) && p[0] in s && i < |p|
    ensures p[i] in s
  {
    if i > 0 {
      ChainInside(s, data, p, i - 1);
      DependsIff(data, p[i - 1], p[i]);
    }
  }

  lemma RootsIff(tool: string, data: Tools, x: string)
    ensures x in Elements(Roots(tool, data)) <==> x == tool || (tool in data && Speaks(data[tool].buildDepends, x))
  {
    var extra := if tool in data then Listed(data[tool].buildDepends) else [];
    assert x in [tool] + extra <==> x == tool || x in extra;
  }

  /** The entries behind a tool are those that go into its fingerprint. */
  lemma BehindIff(tool: string, data: Tools, x: string)
    ensures x in Behind(tool, data) <==> GoesInto(data, tool, x)
  {
    var roots := Elements(Roots(tool, data));
    hide Closure, Roots, Speaks, BuiltOn;
    if x in Behind(tool, data) {
      var p := ClosureChain(roots, data, x);
      RootsIff(tool, data, p[0]);
      assert ChainTo(data, tool, x, p);
    }
    if p :| ChainTo(data, tool, x, p) {
      RootsIff(tool, data, p[0]);
      ClosureIs(roots, data);
      ChainInside(Closure(roots, data), data, p, |p| - 1);
    }
  }

  lemma IsSubsetIff(data: Tools, tool: string, subset: Tools)
    ensures IsSubset(data, tool, subset) <==> subset == Restrict(data, Behind(tool, data))
  {
    hide Behind, GoesInto;
    forall t
      ensures t in Behind(tool, data) <==> GoesInto(data, tool, t)
    {
      BehindIff(tool, data, t);
    }
    if IsSubset(data, tool, subset) {
      assert subset == Restrict(data, Behind(tool, data));
    }
  }

  /** There is one fingerprint, and only for a script that can be read. */
  lemma IsFingerprintIff(tool: string, src: Sources, text: string)
    ensures IsFingerprint(tool, src, text) <==> Fingerprint(tool, src) == Some(text)
  {
    hide IsSubset, Restrict, Behind;
    if src.data.Some? {
      forall subset
        ensures IsSubset(src.data.value, tool, subset)
          <==> subset == Restrict(src.data.value, Behind(tool, src.data.value))
      {
        IsSubsetIff(src.data.value, tool, subset);
      }
    }
    assert IsMetadata(tool, src, Metadata(tool, src));
  }

  method ComputeFingerprint(tool: string, src: Sources) returns (f: Option<string>)
    ensures f == Fingerprint(tool, src)
    ensures if tool in src.scripts then f.Some? && IsFingerprint(tool, src, f.value) else f.None?
  {
    if tool in src.scripts {
      IsFingerprintIff(tool, src, Fingerprint(tool, src).value);
    }
    hide IsFingerprint;
    if tool !in src.scripts {
      return None;
    }
    var h := src.scripts[tool];
    if src.prereqs.Some? {
      h := h + src.prereqs.value;
    }
    assert h == src.scripts[tool] + Text(src.prereqs);
    ghost var head := h;
    if src.data.Some? {
      var data := src.data.value;
      var extra := if tool in data then Listed(data[tool].buildDepends) else [];
      var names := ExpandDockerDepends([tool] + extra, data);
      var subset := map t | t in data && t in names :: data[t];
      assert subset == Restrict(data, Behind(tool, data));
      h := h + src.dumps(subset);
    }
    assert h == head + Metadata(tool, src);
    f := Some(h);
  }

  lemma SameTail(a: string, b: string, tail: string)
    ensures a + tail == b + tail <==> a == b
  {
    if a + tail == b + tail {
      assert |a| == |b|;
      assert a == (a + tail)[..|a|] && b == (b + tail)[..|b|];
    }
  }

  lemma SameHead(head: string, a: string, b: string)
    ensures head + a == head + b <==> a == b
  {
    if head + a == head + b {
      assert a == (head + a)[|head|..] && b == (head + b)[|head|..];
    }
  }

  /**
   * With the metadata unchanged, the fingerprint sees the script and the prerequisites as one text:
   * it changes with either alone, but not when text moves from the end of one to the start of the other.
   */
  lemma FingerprintSeesText(tool: string, src: Sources, src': Sources)
    requires tool in src.scripts && tool in src'.scripts && src'.data == src.data && src'.dumps == src.dumps
    ensures Fingerprint(tool, src) == Fingerprint(tool, src') <==>
      src.scripts[tool] + Text(src.prereqs) == src'.scripts[tool] + Text(src'.prereqs)
    ensures src'.prereqs == src.prereqs ==>
      (Fingerprint(tool, src) == Fingerprint(tool, src') <==> src.scripts[tool] == src'.scripts[tool])
    ensures src'.scripts[tool] == src.scripts[tool] ==>
      (Fingerprint(tool, src) == Fingerprint(tool, src') <==> Text(src.prereqs) == Text(src'.prereqs))
  {
    assert Metadata(tool, src) == Metadata(tool, src');
    hide Metadata;
    SameTail(src.scripts[tool] + Text(src.prereqs), src'.scripts[tool] + Text(src'.prereqs), Metadata(tool, src));
    SameTail(src.scripts[tool], src'.scripts[tool], Text(src.prereqs));
    SameHead(src.scripts[tool], Text(src.prereqs), Text(src'.prereqs));
  }

  /** The metadata differ in the entry of `x`, and in nothing else. */
  ghost predicate ChangedAt(data: Tools, data': Tools, x: string) {
    && (x in data || x in data') && !(x in data && x in data' && data[x] == data'[x])
    && forall t :: t != x ==> (t in data <==> t in data') && (t in data ==> data[t] == data'[t])
  }

  lemma BehindUnaffected(tool: string, data: Tools, data': Tools, x: string)
    requires ChangedAt(data, data', x) && x !in Behind(tool, data)
    ensures Behind(tool, data) == Behind(tool, data')
    ensures Restrict(data, Behind(tool, data)) == Restrict(data', Behind(tool, data'))
  {
    hide Closure;
    var roots := Elements(Roots(tool, data));
    ClosureIs(roots, data);
    assert tool == Roots(tool, data)[0] && tool in roots;
    assert tool != x;
    forall t | t in Closure(roots, data)
      ensures Depends(data, t) == Depends(data', t)
    {
      assert t != x;
    }
    ClosureUnaffected(roots, data, data');
  }

  lemma ChangedBack(data: Tools, data': Tools, x: string)
    requires ChangedAt(data, data', x)
    ensures ChangedAt(data', data, x)
  {
  }

  /**
   * A changed entry changes the fingerprint of a tool exactly when it is the tool's own, that of one of
   * its build dependencies, or follows from one of these along docker dependencies.
   */
  lemma FingerprintChangesIff(tool: string, src: Sources, src': Sources, x: string)
    requires tool in src.scripts && src'.scripts == src.scripts && src'.prereqs == src.prereqs
    requires src'.dumps == src.dumps && PrintsApart(src.dumps)
    requires src.data.Some? && src'.data.Some? && ChangedAt(src.data.value, src'.data.value, x)
    ensures Fingerprint(tool, src) != Fingerprint(tool, src') <==> GoesInto(src.data.value, tool, x)
  {
    var data, data' := src.data.value, src'.data.value;
    BehindIff(tool, data, x);
    hide GoesInto;
    SameHead(src.scripts[tool] + Text(src.prereqs), Metadata(tool, src), Metadata(tool, src'));
    if x !in Behind(tool, data) {
      BehindUnaffected(tool, data, data', x);
    } else if x !in Behind(tool, data') {
      ChangedBack(data, data', x);
      BehindUnaffected(tool, data', data, x);
    } else {
      var a, b := Restrict(data, Behind(tool, data)), Restrict(data', Behind(tool, data'));
      assert x in data <==> x in a;
      assert x in data' <==> x in b;
      assert a != b;
    }
  }

  // ------------------------------------------------------------ install loop

  datatype Record = Record(fingerprint: string, prefix: string)

  type Manifest = map<string, Record>

  predicate UpToDate(tool: string, src: Sources, prefix: string, force: bool, manifest: Manifest) {
    var f := Fingerprint(tool, src);
    !force && f.Some? && tool in manifest && manifest[tool] == Record(f.value, prefix)
  }

  /** The tools to be rebuilt, in order. */
  function Stale(tools: seq<string>, src: Sources, prefix: string, force: bool, manifest: Manifest): seq<string> {
    if tools == [] then []
    else
      var front, last := Stale(tools[..|tools| - 1], src, prefix, force, manifest), tools[|tools| - 1];
      if UpToDate(last, src, prefix, force, manifest) then front else front + [last]
  }

  lemma {:induction false} StaleAre(tools: seq<string>, src: Sources, prefix: string, force: bool, manifest: Manifest,
      t: string)
    ensures t in Stale(tools, src, prefix, force, manifest)
      <==> t in tools && !UpToDate(t, src, prefix, force, manifest)
  {
    if tools != [] {
      var front, last := tools[..|tools| - 1], tools[|tools| - 1];
      StaleAre(front, src, prefix, force, manifest, t);
      assert tools == front + [last];
    }
  }

  /** The manifest with the built tools recorded; a tool without a fingerprint is never recorded. */
  function Recorded(manifest: Manifest, built: seq<string>, src: Sources, prefix: string): Manifest {
    manifest + map t | t in built && Fingerprint(t, src).Some? :: Record(Fingerprint(t, src).value, prefix)
  }

  datatype Outcome = Outcome(built: seq<string>, failed: Option<string>)

  /** Rebuilding goes through the stale tools in order and stops at the first one that fails. */
  ghost predicate IsOutcome(o: Outcome, stale: seq<string>, builds: string -> bool) {
    && (forall t :: t in o.built ==> builds(t))
    && o.built <= stale
    && match o.failed
       case None => o.built == stale
       case Some(t) => |o.built| < |stale| && t == stale[|o.built|] && !builds(t)
  }

  /** The requested tools before the `i`-th, without repeats. */
  function Handled(requested: seq<string>, i: nat): seq<string>
    requires i <= |requested|
  {
    Firsts(requested[..i])
  }

  lemma HandledNext(requested: seq<string>, i: nat, src: Sources, prefix: string, force: bool, manifest: Manifest)
    requires i < |requested|
    ensures var t, before, after := requested[i], Handled(requested, i), Handled(requested, i + 1);
      && after == (if t in before then before else before + [t])
      && var stale := Stale(before, src, prefix, force, manifest);
      t !in before ==>
        Stale(after, src, prefix, force, manifest) == if UpToDate(t, src, prefix, force, manifest) then stale
          else stale + [t]
  {
    assert requested[..i + 1][..i] == requested[..i];
    var t, before := requested[i], Handled(requested, i);
    if t !in before {
      assert (before + [t])[..|before|] == before;
    }
  }

  lemma {:induction false} StaleGrows(requested: seq<string>, i: nat, src: Sources, prefix: string, force: bool,
      manifest: Manifest)
    requires i <= |requested|
    ensures Stale(Handled(requested, i), src, prefix, force, manifest) <= Stale(Firsts(requested), src, prefix, force,
      manifest)
    decreases |requested| - i
  {
    if i == |requested| {
      assert requested[..i] == requested;
    } else {
      HandledNext(requested, i, src, prefix, force, manifest);
      StaleGrows(requested, i + 1, src, prefix, force, manifest);
    }
  }

  /** One run: what was asked for, on what sources, and which manifest it started from. */
  datatype Job = Job(requested: seq<string>, src: Sources, prefix: string, force: bool, start: Manifest)

  function AllStale(job: Job): seq<string> {
    Stale(Firsts(job.requested), job.src, job.prefix, job.force, job.start)
  }

  function StaleBefore(job: Job, i: nat): seq<string>
    requires i <= |job.requested|
  {
    Stale(Handled(job.requested, i), job.src, job.prefix, job.force, job.start)
  }

  /** The loop before the `i`-th request. */
  ghost predicate Underway(job: Job, i: nat, builds: string -> bool, built: seq<string>, skipped: set<string>,
      now: Manifest)
    requires i <= |job.requested|
  {
    && Elements(job.requested[..i]) == Elements(built) + skipped
    && built == StaleBefore(job, i) && (forall t :: t in built ==> builds(t))
    && (forall t :: t in skipped ==> UpToDate(t, job.src, job.prefix, job.force, job.start))
    && now == Recorded(job.start, built, job.src, job.prefix)
  }

  lemma UnderwayStart(job: Job, builds: string -> bool)
    ensures Underway(job, 0, builds, [], {}, job.start)
  {
    assert Elements(job.requested[..0]) == {};
  }

  /** A tool met for the first time is judged as the manifest at the start would judge it. */
  lemma JudgedAtStart(job: Job, i: nat, builds: string -> bool, built: seq<string>, skipped: set<string>, now: Manifest)
    requires i < |job.requested| && Underway(job, i, builds, built, skipped, now)
    requires job.requested[i] !in Elements(built) + skipped
    ensures var t := job.requested[i];
      UpToDate(t, job.src, job.prefix, job.force, now) == UpToDate(t, job.src, job.prefix, job.force, job.start)
  {
    assert job.requested[i] !in built;
  }

  lemma HandledAre(job: Job, i: nat)
    requires i < |job.requested|
    ensures job.requested[i] in Handled(job.requested, i) <==> job.requested[i] in Elements(job.requested[..i])
    ensures Elements(job.requested[..i + 1]) == Elements(job.requested[..i]) + {job.requested[i]}
  {
    FirstsSame(job.requested[..i]);
    assert job.requested[..i + 1] == job.requested[..i] + [job.requested[i]];
    assert job.requested[i] in Elements(Handled(job.requested, i)) <==> job.requested[i] in Handled(job.requested, i);
  }

  lemma StepRepeat(job: Job, i: nat, builds: string -> bool, built: seq<string>, skipped: set<string>, now: Manifest)
    requires i < |job.requested| && Underway(job, i, builds, built, skipped, now)
    requires job.requested[i] in Elements(built) + skipped
    ensures Underway(job, i + 1, builds, built, skipped, now)
  {
    HandledAre(job, i);
    HandledNext(job.requested, i, job.src, job.prefix, job.force, job.start);
  }

  lemma StepSkip(job: Job, i: nat, builds: string -> bool, built: seq<string>, skipped: set<string>, now: Manifest)
    requires i < |job.requested| && Underway(job, i, builds, built, skipped, now)
    requires job.requested[i] !in Elements(built) + skipped
    requires UpToDate(job.requested[i], job.src, job.prefix, job.force, now)
    ensures Underway(job, i + 1, builds, built, skipped + {job.requested[i]}, now)
  {
    JudgedAtStart(job, i, builds, built, skipped, now);
    HandledAre(job, i);
    HandledNext(job.requested, i, job.src, job.prefix, job.force, job.start);
  }

  lemma StaleNext(job: Job, i: nat, builds: string -> bool, built: seq<string>, skipped: set<string>, now: Manifest)
    requires i < |job.requested| && Underway(job, i, builds, built, skipped, now)
    requires job.requested[i] !in Elements(built) + skipped
    requires !UpToDate(job.requested[i], job.src, job.prefix, job.force, now)
    ensures StaleBefore(job, i + 1) == built + [job.requested[i]]
  {
    JudgedAtStart(job, i, builds, built, skipped, now);
    HandledAre(job, i);
    HandledNext(job.requested, i, job.src, job.prefix, job.force, job.start);
  }

  lemma StepBuild(job: Job, i: nat, builds: string -> bool, built: seq<string>, skipped: set<string>, now: Manifest)
    requires i < |job.requested| && Underway(job, i, builds, built, skipped, now)
    requires job.requested[i] !in Elements(built) + skipped && builds(job.requested[i])
    requires !UpToDate(job.requested[i], job.src, job.prefix, job.force, now)
    ensures var t, f := job.requested[i], Fingerprint(job.requested[i], job.src);
      Underway(job, i + 1, builds, built + [t], skipped, if f.Some? then now[t := Record(f.value, job.prefix)] else now)
  {
    var t := job.requested[i];
    StaleNext(job, i, builds, built, skipped, now);
    HandledAre(job, i);
    RecordedNext(job.start, built, t, job.src, job.prefix);
    AppendedOne(built, t);
  }

  /** The requested tools as the summary lists them. */
  ghost predicate Accounted(job: Job, o: Outcome, skipped: set<string>, notStarted: set<string>) {
    && Elements(job.requested)
      == Elements(o.built) + skipped + notStarted + (if o.failed.Some? then {o.failed.value} else {})
    && (forall t :: t in skipped ==> UpToDate(t, job.src, job.prefix, job.force, job.start))
    && (o.failed.None? ==> notStarted == {})
    && (o.failed.Some? ==> notStarted !! Elements(o.built) + skipped + {o.failed.value})
  }

  /** What a run leaves behind: what it built, what it reports, and the manifest. */
  ghost predicate RunEnds(job: Job, o: Outcome, skipped: set<string>, notStarted: set<string>, builds: string -> bool,
      after: Manifest) {
    && IsOutcome(o, AllStale(job), builds)
    && Accounted(job, o, skipped, notStarted)
    && after == Recorded(job.start, o.built, job.src, job.prefix)
  }

  lemma StepFail(job: Job, i: nat, builds: string -> bool, built: seq<string>, skipped: set<string>, now: Manifest)
    requires i < |job.requested| && Underway(job, i, builds, built, skipped, now)
    requires job.requested[i] !in Elements(built) + skipped && !builds(job.requested[i])
    requires !UpToDate(job.requested[i], job.src, job.prefix, job.force, now)
    ensures var t := job.requested[i];
      RunEnds(job, Outcome(built, Some(t)), skipped, Elements(job.requested) - Elements(built) - skipped - {t}, builds,
        now)
  {
    StaleNext(job, i, builds, built, skipped, now);
    StaleGrows(job.requested, i + 1, job.src, job.prefix, job.force, job.start);
    assert StaleBefore(job, i + 1) <= AllStale(job);
    HandledAre(job, i);
    assert Elements(job.requested[..i + 1]) <= Elements(job.requested);
  }

  lemma StepEnd(job: Job, builds: string -> bool, built: seq<string>, skipped: set<string>, now: Manifest)
    requires Underway(job, |job.requested|, builds, built, skipped, now)
    ensures RunEnds(job, Outcome(built, None), skipped, {}, builds, now)
  {
    assert job.requested[..|job.requested|] == job.requested;
  }

  lemma RecordedNext(manifest: Manifest, built: seq<string>, t: string, src: Sources, prefix: string)
    ensures var f, now := Fingerprint(t, src), Recorded(manifest, built, src, prefix);
      Recorded(manifest, built + [t], src, prefix) == if f.Some? then now[t := Record(f.value, prefix)] else now
  {
    hide Fingerprint;
  }

  lemma UpToDateIs(tool: string, src: Sources, prefix: string, force: bool, manifest: Manifest)
    ensures var f := Fingerprint(tool, src);
      UpToDate(tool, src, prefix, force, manifest)
        == (!force && f.Some? && tool in manifest && manifest[tool] == Record(f.value, prefix))
  {
  }

  // ------------------------------------------------- what a run does to each tool

  /** The manifest records the tool with the digest it has and the directory it is installed to. */
  ghost predicate IsRecorded(manifest: Manifest, tool: string, src: Sources, prefix: string) {
    && tool in manifest && IsFingerprint(tool, src, manifest[tool].fingerprint) && manifest[tool].prefix == prefix
  }

  /** `a` is asked for before `b`, each at its first occurrence. */
  ghost predicate AskedBefore(requested: seq<string>, a: string, b: string) {
    exists i :: 0 <= i < |requested| && requested[i] == a && b !in requested[..i + 1]
  }

  /**
   * Each requested tool is skipped, built, failed or not started. Tools that were recorded are skipped,
   * unless the run is forced; the others are built in the order in which they are asked for, and the
   * first that fails ends the run. Nothing but what was built with a script that can be read is recorded.
   */
  ghost predicate IsRun(job: Job, o: Outcome, skipped: set<string>, notStarted: set<string>, builds: string -> bool,
      after: Manifest) {
    AccountsFor(job, o, skipped, notStarted) && GoesInOrder(job, o, builds) && Records(job, o, after)
  }

  ghost predicate Records(job: Job, o: Outcome, after: Manifest) {
    && (forall t :: t in o.built && t in job.src.scripts ==> IsRecorded(after, t, job.src, job.prefix))
    && (forall t :: t !in o.built || t !in job.src.scripts ==>
      (t in after <==> t in job.start) && (t in after ==> after[t] == job.start[t]))
  }

  ghost predicate AccountsFor(job: Job, o: Outcome, skipped: set<string>, notStarted: set<string>) {
    && (forall t :: t in skipped ==>
      t in job.requested && !job.force && IsRecorded(job.start, t, job.src, job.prefix))
    && (forall t :: t in o.built || o.failed == Some(t) ==>
      t in job.requested && (job.force || !IsRecorded(job.start, t, job.src, job.prefix)))
    && (forall t :: t in notStarted ==> t in job.requested && t !in o.built && t !in skipped && o.failed != Some(t))
    && (forall t :: t in job.requested ==> t in skipped || t in o.built || o.failed == Some(t) || t in notStarted)
    && (o.failed.None? ==> notStarted == {})
  }

  ghost predicate GoesInOrder(job: Job, o: Outcome, builds: string -> bool) {
    && (forall t :: t in o.built ==> builds(t)) && (o.failed.Some? ==> !builds(o.failed.value))
    && (forall i, j :: 0 <= i < j < |o.built| ==> AskedBefore(job.requested, o.built[i], o.built[j]))
    && (o.failed.Some? ==>
      forall i :: 0 <= i < |o.built| ==> AskedBefore(job.requested, o.built[i], o.failed.value))
  }

  lemma IsRecordedIff(manifest: Manifest, tool: string, src: Sources, prefix: string, force: bool)
    ensures UpToDate(tool, src, prefix, force, manifest) <==> !force && IsRecorded(manifest, tool, src, prefix)
  {
    hide IsFingerprint, Fingerprint;
    if tool in manifest {
      IsFingerprintIff(tool, src, manifest[tool].fingerprint);
    }
  }

  lemma {:induction false} FirstsInOrder(s: seq<string>, i: nat, j: nat)
    requires i < j < |Firsts(s)|
    ensures AskedBefore(s, Firsts(s)[i], Firsts(s)[j])
  {
    var front, last := s[..|s| - 1], s[|s| - 1];
    var f := Firsts(front);
    FirstsSame(front);
    if j < |f| {
      FirstsInOrder(front, i, j);
      var k :| 0 <= k < |front| && front[k] == f[i] && f[j] !in front[..k + 1];
      assert front[..k + 1] == s[..k + 1];
      assert s[k] == f[i];
    } else {
      assert f[i] in Elements(f) && f[i] in Elements(front);
      var k :| 0 <= k < |front| && front[k] == f[i];
      assert last !in Elements(f);
      assert last !in front;
      assert forall x :: x in s[..k + 1] ==> x in front;
      assert s[k] == f[i];
    }
  }

  /** The stale tools keep the order. */
  lemma {:induction false} StaleInOrder(tools: seq<string>, src: Sources, prefix: string, force: bool,
      manifest: Manifest, i: nat, j: nat) returns (k: nat, l: nat)
    requires i < j < |Stale(tools, src, prefix, force, manifest)|
    ensures k < l < |tools|
    ensures tools[k] == Stale(tools, src, prefix, force, manifest)[i]
    ensures tools[l] == Stale(tools, src, prefix, force, manifest)[j]
  {
    var front, last := tools[..|tools| - 1], tools[|tools| - 1];
    var st := Stale(front, src, prefix, force, manifest);
    hide UpToDate;
    if j < |st| {
      k, l := StaleInOrder(front, src, prefix, force, manifest, i, j);
    } else {
      StaleAre(front, src, prefix, force, manifest, st[i]);
      k :| 0 <= k < |front| && front[k] == st[i];
      l := |tools| - 1;
    }
  }

  lemma StaleAsked(job: Job, i: nat, j: nat)
    requires i < j < |AllStale(job)|
    ensures AskedBefore(job.requested, AllStale(job)[i], AllStale(job)[j])
  {
    var k, l := StaleInOrder(Firsts(job.requested), job.src, job.prefix, job.force, job.start, i, j);
    FirstsInOrder(job.requested, k, l);
  }

  lemma AllStaleIff(job: Job, t: string)
    ensures t in AllStale(job)
      <==> t in job.requested && (job.force || !IsRecorded(job.start, t, job.src, job.prefix))
    ensures UpToDate(t, job.src, job.prefix, job.force, job.start)
      <==> !job.force && IsRecorded(job.start, t, job.src, job.prefix)
  {
    StaleAre(Firsts(job.requested), job.src, job.prefix, job.force, job.start, t);
    FirstsSame(job.requested);
    assert t in Elements(Firsts(job.requested)) <==> t in Elements(job.requested);
    IsRecordedIff(job.start, t, job.src, job.prefix, job.force);
  }

  lemma RunAccounts(job: Job, o: Outcome, skipped: set<string>, notStarted: set<string>, builds: string -> bool)
    requires IsOutcome(o, AllStale(job), builds) && Accounted(job, o, skipped, notStarted)
    ensures AccountsFor(job, o, skipped, notStarted)
  {
    hide AllStale, UpToDate, IsRecorded;
    forall t
      ensures t in AllStale(job)
        <==> t in job.requested && (job.force || !IsRecorded(job.start, t, job.src, job.prefix))
      ensures UpToDate(t, job.src, job.prefix, job.force, job.start)
        <==> !job.force && IsRecorded(job.start, t, job.src, job.prefix)
    {
      AllStaleIff(job, t);
    }
    assert forall t :: t in job.requested <==> t in Elements(job.requested);
    assert forall t :: t in o.built <==> t in Elements(o.built);
  }

  lemma RunInOrder(job: Job, o: Outcome, builds: string -> bool)
    requires IsOutcome(o, AllStale(job), builds)
    ensures GoesInOrder(job, o, builds)
  {
    hide AllStale, AskedBefore;
    var stale := AllStale(job);
    forall i, j | 0 <= i < j < |stale|
      ensures AskedBefore(job.requested, stale[i], stale[j])
    {
      StaleAsked(job, i, j);
    }
  }

  lemma RunIs(job: Job, o: Outcome, skipped: set<string>, notStarted: set<string>, builds: string -> bool,
      after: Manifest)
    requires RunEnds(job, o, skipped, notStarted, builds, after)
    ensures IsRun(job, o, skipped, notStarted, builds, after)
  {
    hide AccountsFor, GoesInOrder, Records, IsOutcome, Accounted, AllStale, Recorded;
    RunAccounts(job, o, skipped, notStarted, builds);
    RunInOrder(job, o, builds);
    RunRecords(job, o);
  }

  lemma RunRecords(job: Job, o: Outcome)
    ensures Records(job, o, Recorded(job.start, o.built, job.src, job.prefix))
  {
    hide Fingerprint, IsRecorded, Recorded;
    forall t
      ensures var after := Recorded(job.start, o.built, job.src, job.prefix);
        && (t in o.built && t in job.src.scripts ==> IsRecorded(after, t, job.src, job.prefix))
        && (t !in o.built || t !in job.src.scripts ==>
          (t in after <==> t in job.start) && (t in after ==> after[t] == job.start[t]))
    {
      RecordedAre(job.start, o.built, job.src, job.prefix, t);
    }
  }

  lemma RecordedAre(manifest: Manifest, built: seq<string>, src: Sources, prefix: string, t: string)
    ensures var after := Recorded(manifest, built, src, prefix);
      && (t in built && t in src.scripts ==> IsRecorded(after, t, src, prefix))
      && (t !in built || t !in src.scripts ==>
        (t in after <==> t in manifest) && (t in after ==> after[t] == manifest[t]))
  {
    FingerprintSome(t, src);
    hide Fingerprint, IsFingerprint;
    if t in src.scripts {
      IsFingerprintIff(t, src, Fingerprint(t, src).value);
    }
  }

  lemma FingerprintSome(tool: string, src: Sources)
    ensures Fingerprint(tool, src).Some? <==> tool in src.scripts
  {
  }

  /** The manifest file of one build directory. */
  class InstallManifest {
    var tools: Manifest

    constructor ()
      ensures tools == map[]
    {
      tools := map[];
    }

    /** One run of the installer; `builds` says which install scripts succeed. */
    method Run(requested: seq<string>, src: Sources, prefix: string, force: bool, builds: string -> bool)
      returns (code: int, outcome: Outcome, skipped: set<string>, notStarted: set<string>)
      modifies this
      ensures RunEnds(Job(requested, src, prefix, force, old(tools)), outcome, skipped, notStarted, builds, tools)
      ensures IsRun(Job(requested, src, prefix, force, old(tools)), outcome, skipped, notStarted, builds, tools)
      ensures code == if outcome.failed.None? then 0 else 1
    {
      hide *;
      ghost var job := Job(requested, src, prefix, force, tools);
      var handled: set<string> := {};
      var completed: seq<string> := [];
      skipped := {};
      UnderwayStart(job, builds);
      NothingPending();
      for i := 0 to |requested|
        invariant handled == Elements(completed) + skipped && Underway(job, i, builds, completed, skipped, tools)
      {
        var tool := requested[i];
        if tool in handled {
          StepRepeat(job, i, builds, completed, skipped, tools);
        } else {
          var fingerprint := ComputeFingerprint(tool, src);
          UpToDateIs(tool, src, prefix, force, tools);
          if !force && fingerprint.Some? && tool in tools && tools[tool] == Record(fingerprint.value, prefix) {
            StepSkip(job, i, builds, completed, skipped, tools);
            handled := handled + {tool};
            skipped := skipped + {tool};
          } else if !builds(tool) {
            StepFail(job, i, builds, completed, skipped, tools);
            handled := handled + {tool};
            notStarted := Elements(requested) - Elements(completed) - skipped - handled;
            assert notStarted == Elements(requested) - Elements(completed) - skipped - {tool};
            RunIs(job, Outcome(completed, Some(tool)), skipped, notStarted, builds, tools);
            return 1, Outcome(completed, Some(tool)), skipped, notStarted;
          } else {
            StepBuild(job, i, builds, completed, skipped, tools);
            AppendedOne(completed, tool);
            handled := handled + {tool};
            completed := completed + [tool];
            if fingerprint.Some? {
              tools := tools[tool := Record(fingerprint.value, prefix)];
            }
          }
        }
      }
      StepEnd(job, builds, completed, skipped, tools);
      RunIs(job, Outcome(completed, None), skipped, {}, builds, tools);
      return 0, Outcome(completed, None), skipped, {};
    }
  }

  // --------------------------------------------------------------- next run

  /** A run that has ended, as `InstallManifest.Run` leaves it. */
  datatype Run = Run(job: Job, outcome: Outcome, skipped: set<string>, notStarted: set<string>, builds: string -> bool,
    after: Manifest)

  ghost predicate Ended(r: Run) {
    RunEnds(r.job, r.outcome, r.skipped, r.notStarted, r.builds, r.after)
  }

  /** The install script of `t` was run, with or without success. */
  predicate Tried(r: Run, t: string) {
    t in r.outcome.built || r.outcome.failed == Some(t)
  }

  predicate StaleFor(job: Job, t: string) {
    t in job.requested && !UpToDate(t, job.src, job.prefix, job.force, job.start)
  }

  /** Only stale tools are tried, and all of them unless the run stopped before. */
  lemma TriedAre(r: Run, t: string)
    requires Ended(r)
    ensures Tried(r, t) ==> StaleFor(r.job, t)
    ensures StaleFor(r.job, t) ==> Tried(r, t) || t in r.notStarted
    ensures r.outcome.failed.None? ==> r.notStarted == {}
  {
    hide UpToDate;
    var job := r.job;
    StaleAre(Firsts(job.requested), job.src, job.prefix, job.force, job.start, t);
    FirstsSame(job.requested);
    assert t in Elements(Firsts(job.requested)) <==> t in Elements(job.requested);
  }

  /** A run leaves a record of every tool it built whose script it could read, and the manifest unchanged elsewhere. */
  lemma OnlyBuiltRecorded(r: Run, t: string)
    requires Ended(r)
    ensures t in r.outcome.built && t in r.job.src.scripts ==>
      t in r.after && r.after[t] == Record(Fingerprint(t, r.job.src).value, r.job.prefix)
    ensures t !in r.outcome.built || t !in r.job.src.scripts ==>
      (t in r.after <==> t in r.job.start) && (t in r.after ==> r.after[t] == r.job.start[t])
  {
  }

  /** After a successful run every requested tool with a fingerprint is recorded with it. */
  lemma SuccessRecordsAll(r: Run, t: string)
    requires Ended(r) && r.outcome.failed.None? && t in r.job.requested && t in r.job.src.scripts
    ensures t in r.after && r.after[t] == Record(Fingerprint(t, r.job.src).value, r.job.prefix)
  {
    TriedAre(r, t);
    hide Fingerprint, RunEnds;
    OnlyBuiltRecorded(r, t);
  }

  /**
   * After a successful run, a change to the entry of `x` makes the next unforced run rebuild
   * exactly the requested tools whose fingerprint `x` goes into, and those that have no fingerprint; the
   * ones it does not come to are those it reports as not started.
   */
  lemma RebuildsExactly(r: Run, next: Run, x: string, t: string)
    requires Ended(r) && r.outcome.failed.None? && Ended(next)
    requires next.job == Job(next.job.requested, next.job.src, r.job.prefix, false, r.after)
    requires var src, src' := r.job.src, next.job.src;
      && src'.scripts == src.scripts && src'.prereqs == src.prereqs && src'.dumps == src.dumps && PrintsApart(src.dumps)
      && src.data.Some? && src'.data.Some? && ChangedAt(src.data.value, src'.data.value, x)
    requires t in r.job.requested
    ensures var due := t in next.job.requested && (t !in r.job.src.scripts || GoesInto(r.job.src.data.value, t, x));
      && (Tried(next, t) ==> due)
      && (due ==> Tried(next, t) || t in next.notStarted)
      && (next.outcome.failed.None? ==> (t in next.outcome.built <==> due))
  {
    TriedAre(next, t);
    if t in r.job.src.scripts {
      SuccessRecordsAll(r, t);
      hide RunEnds, Fingerprint, GoesInto;
      FingerprintChangesIff(t, r.job.src, next.job.src, x);
    }
  }

  /** Two unforced runs one after the other on the same sources. */
  ghost predicate Follows(r: Run, next: Run) {
    next.job == Job(next.job.requested, r.job.src, r.job.prefix, false, r.after)
  }

  /**
   * A run stopped by a failure resumes: the next one builds what was out of date before and was not
   * built, or has no fingerprint; what it does not come to it reports as not started.
   */
  lemma ResumesAfterFailure(r: Run, next: Run, t: string)
    requires Ended(r) && Ended(next) && Follows(r, next)
    ensures var due := t in next.job.requested && !UpToDate(t, r.job.src, r.job.prefix, false, r.job.start)
        && (t !in r.outcome.built || t !in r.job.src.scripts);
      && (Tried(next, t) ==> due)
      && (due ==> Tried(next, t) || t in next.notStarted)
      && (next.outcome.failed.None? ==> (t in next.outcome.built <==> due))
  {
    TriedAre(next, t);
    OnlyBuiltRecorded(r, t);
    hide RunEnds;
  }

  /** Any number of unforced runs on the same sources, each from the manifest the one before left. */
  ghost predicate IsSeries(runs: seq<Run>) {
    && (forall i :: 0 <= i < |runs| ==> Ended(runs[i]))
    && (forall i :: 0 < i < |runs| ==> Follows(runs[i - 1], runs[i]))
  }

  lemma {:induction false} StaysUpToDate(runs: seq<Run>, i: nat, j: nat, t: string)
    requires IsSeries(runs) && i < j < |runs| && t in runs[i].outcome.built && t in runs[i].job.src.scripts
    ensures runs[j].job.src == runs[i].job.src && runs[j].job.prefix == runs[i].job.prefix && !runs[j].job.force
    ensures UpToDate(t, runs[j].job.src, runs[j].job.prefix, false, runs[j].job.start)
  {
    assert Ended(runs[j - 1]) && Follows(runs[j - 1], runs[j]);
    if i < j - 1 {
      StaysUpToDate(runs, i, j - 1, t);
    }
    OnlyBuiltRecorded(runs[j - 1], t);
    hide RunEnds, Fingerprint;
  }

  /** However often installing fails and is started again, no tool with a readable script is built twice. */
  lemma BuiltOnce(runs: seq<Run>, i: nat, j: nat, t: string)
    requires IsSeries(runs) && i < j < |runs| && t in runs[i].job.src.scripts
    ensures !(t in runs[i].outcome.built && Tried(runs[j], t))
  {
    if t in runs[i].outcome.built {
      assert Ended(runs[j]);
      hide Ended, UpToDate;
      StaysUpToDate(runs, i, j, t);
      TriedAre(runs[j], t);
    }
  }
}
