/**
 * The registry of viewer tasks: populated under one lock, with a completion marker written last,
 * while other threads run, builds abort and processes fork.
 */
module Registry {
  import opened Ordering

  /** The three registry categories. */
  datatype Category = Open | Show | Screenshot

  datatype Write = Write(category: Category, task: string)

  /** What building a category writes, in order; a build writes into its siblings as well. */
  type Work = Category -> seq<Write>

  /** The registered tasks, and the categories that carry the completion marker. */
  datatype Contents = Contents(tasks: set<Write>, marked: set<Category>)

  const EMPTY: Contents := Contents({}, {})

  /** Everything a build of `c` puts into `c` is there. */
  ghost predicate Complete(work: Work, s: Contents, c: Category) {
    forall w :: w in work(c) && w.category == c ==> w in s.tasks
  }

  ghost predicate Written(work: Work, s: Contents, c: Category, done: nat) {
    done <= |work(c)| && forall i :: 0 <= i < done ==> work(c)[i] in s.tasks
  }

  lemma WrittenComplete(work: Work, s: Contents, c: Category)
    requires Written(work, s, c, |work(c)|)
    ensures Complete(work, s, c)
  {
  }

  /** A marker is only ever found on a complete category. */
  ghost predicate MarkersHold(work: Work, s: Contents) {
    forall c :: c in s.marked ==> Complete(work, s, c)
  }

  /** Nothing is ever unregistered. */
  predicate Grows(s: Contents, s': Contents) {
    s.tasks <= s'.tasks && s.marked <= s'.marked
  }

  /** A build that is stopped before its `abort`-th write, if it has that many. */
  predicate Stops(work: Work, s: Contents, c: Category, abort: Option<nat>) {
    c !in s.marked && abort.Some? && abort.value <= |work(c)|
  }

  /**
   * What a population leaves: nothing new in a marked category, else all writes and the marker, or the
   * first writes.
   */
  function Populated(work: Work, s: Contents, c: Category, abort: Option<nat>): Contents {
    if c in s.marked then s
    else if Stops(work, s, c, abort) then Contents(s.tasks + Elements(work(c)[..abort.value]), s.marked)
    else Contents(s.tasks + Elements(work(c)), s.marked + {c})
  }

  // --------------------------------------------------- one thread on its own

  /** The registry as one thread sees it while it holds the lock. */
  class TaskRegistry {
    var tasks: set<Write>
    var marked: set<Category>

    ghost function Now(): Contents
      reads this
    {
      Contents(tasks, marked)
    }

    constructor (s: Contents)
      ensures Now() == s
    {
      tasks, marked := s.tasks, s.marked;
    }

    method RegisterTask(w: Write)
      modifies this
      ensures Now() == Contents(old(tasks) + {w}, old(marked))
    {
      tasks := tasks + {w};
    }

    /** The build stops with an exception before its `abort`-th write, if it has that many. */
    method BuildTasks(work: Work, c: Category, abort: Option<nat>) returns (built: bool)
      modifies this
      ensures built == (abort.None? || abort.value > |work(c)|)
      ensures var n := if built then |work(c)| else abort.value;
        Now() == Contents(old(tasks) + Elements(work(c)[..n]), old(marked))
    {
      var writes := work(c);
      for i := 0 to |writes|
        invariant abort.Some? ==> i <= abort.value
        invariant Now() == Contents(old(tasks) + Elements(writes[..i]), old(marked))
      {
        if abort == Some(i) {
          return false;
        }
        assert writes[..i + 1] == writes[..i] + [writes[i]];
        RegisterTask(writes[i]);
      }
      assert writes[..|writes|] == writes;
      return abort != Some(|writes|);
    }

    /** Whatever the registry held before, a population that is not aborted ends complete and marked. */
    method PopulateTasks(work: Work, c: Category, abort: Option<nat>) returns (returned: bool)
      requires MarkersHold(work, Now())
      modifies this
      ensures MarkersHold(work, Now()) && Grows(old(Now()), Now())
      ensures returned ==> c in marked && Complete(work, Now(), c)
      ensures returned <== abort.None?
      ensures c in old(marked) ==> returned && Now() == old(Now())
      ensures returned == !Stops(work, old(Now()), c, abort) && Now() == Populated(work, old(Now()), c, abort)
    {
      if c in marked {
        return true;
      }
      var built := BuildTasks(work, c, abort);
      if !built {
        return false;
      }
      assert work(c)[..|work(c)|] == work(c);
      marked := marked + {c};
      return true;
    }
  }

  // ------------------------------------------------------- all interleavings

  /** One call to populate a category, by where it stands inside the lock. */
  datatype Call =
    | Checking(category: Category)
    | Building(category: Category, done: nat)
    | Finished(category: Category)

  /**
   * A thread outside, waiting for the lock, or inside with the innermost call last. Its first `stale`
   * calls were entered before a fork: they hold the lock of the parent, which the child discarded.
   */
  datatype Thread =
    | Idle
    | Waiting(category: Category)
    | Inside(calls: seq<Call>, stale: nat)

  type Id = nat

  /** One process: registry, lock holder, threads, and the populations that returned in each thread. */
  datatype Process = Process(contents: Contents, owner: Option<Id>, threads: map<Id, Thread>,
    returned: set<(Id, Category)>)

  datatype Step =
    | Start(id: Id)
    | Ask(id: Id, category: Category)
    | Acquire(id: Id)
    | Check(id: Id)
    | Register(id: Id)
    | Mark(id: Id)
    | Leave(id: Id)
    | Nest(id: Id, category: Category)
    | Abort(id: Id)
    | Outside(id: Id, write: Write)
    | Fork(id: Id)

  predicate IsInside(t: Thread) {
    t.Inside? && t.calls != []
  }

  function Top(t: Thread): Call
    requires IsInside(t)
  {
    t.calls[|t.calls| - 1]
  }

  function WithTop(t: Thread, c: Call): Thread
    requires IsInside(t)
  {
    t.(calls := t.calls[..|t.calls| - 1] + [c])
  }

  /** A thread inside the lock of its own process. */
  predicate Holds(t: Thread) {
    t.Inside? && |t.calls| > t.stale
  }

  function WithoutTop(t: Thread): Thread
    requires IsInside(t)
  {
    var rest := t.calls[..|t.calls| - 1];
    if rest == [] then Idle else Inside(rest, if |rest| < t.stale then |rest| else t.stale)
  }

  /** A build that asks for a population itself. */
  function Nested(t: Thread, c: Category): Thread
    requires t.Inside?
  {
    t.(calls := t.calls + [Checking(c)])
  }

  /** The process after the innermost call of a thread ends; the call that took the lock releases it. */
  function Popped(p: Process, id: Id): Process
    requires id in p.threads && IsInside(p.threads[id])
  {
    var t := p.threads[id];
    p.(threads := p.threads[id := WithoutTop(t)], owner := if |t.calls| == t.stale + 1 then None else p.owner)
  }

  /** A thread as it finds itself in the child of a fork. */
  function Forked(t: Thread): Thread {
    if t.Inside? then t.(stale := |t.calls|) else t
  }

  /** The lock can be had: it is free, or held already, for it is re-entrant. */
  predicate MayEnter(p: Process, id: Id) {
    p.owner.None? || p.owner == Some(id)
  }

  /** Entries of `Open` are read and written under the lock of the family; the siblings have their own. */
  predicate MayTouch(p: Process, id: Id, c: Category) {
    c == Open ==> MayEnter(p, id)
  }

  /** Which steps a process can take; any thread may fork, wherever it stands. */
  predicate Enabled(work: Work, p: Process, s: Step) {
    match s
    case Start(id) => id !in p.threads
    case Ask(id, _) => id in p.threads && p.threads[id].Idle?
    case Acquire(id) => id in p.threads && p.threads[id].Waiting? && p.owner.None?
    case Check(id) => id in p.threads && IsInside(p.threads[id]) && Top(p.threads[id]).Checking?
      && MayTouch(p, id, Top(p.threads[id]).category)
    case Register(id) => id in p.threads && IsInside(p.threads[id])
      && Top(p.threads[id]).Building? && Top(p.threads[id]).done < |work(Top(p.threads[id]).category)|
      && MayTouch(p, id, work(Top(p.threads[id]).category)[Top(p.threads[id]).done].category)
    case Mark(id) => id in p.threads && IsInside(p.threads[id])
      && Top(p.threads[id]).Building? && Top(p.threads[id]).done == |work(Top(p.threads[id]).category)|
      && MayTouch(p, id, Top(p.threads[id]).category)
    case Leave(id) => id in p.threads && IsInside(p.threads[id]) && Top(p.threads[id]).Finished?
    case Nest(id, _) => id in p.threads && IsInside(p.threads[id]) && Top(p.threads[id]).Building? && MayEnter(p, id)
    case Abort(id) => id in p.threads && IsInside(p.threads[id])
    case Outside(id, w) => id in p.threads && p.threads[id].Idle? && MayTouch(p, id, w.category)
    case Fork(id) => id in p.threads
  }

  /** The next state; after a fork it is the child that is followed, where no lock is held. */
  function Next(work: Work, p: Process, s: Step): Process
    requires Enabled(work, p, s)
  {
    match s
    case Start(id) => p.(threads := p.threads[id := Idle])
    case Ask(id, c) => p.(threads := p.threads[id := Waiting(c)])
    case Acquire(id) => p.(threads := p.threads[id := Inside([Checking(p.threads[id].category)], 0)], owner := Some(id))
    case Check(id) =>
      var c := Top(p.threads[id]).category;
      p.(threads := p.threads[id := WithTop(p.threads[id], if c in p.contents.marked then Finished(c)
        else Building(c, 0))])
    case Register(id) =>
      var top := Top(p.threads[id]);
      p.(contents := p.contents.(tasks := p.contents.tasks + {work(top.category)[top.done]}),
         threads := p.threads[id := WithTop(p.threads[id], Building(top.category, top.done + 1))])
    case Mark(id) =>
      var c := Top(p.threads[id]).category;
      p.(contents := p.contents.(marked := p.contents.marked + {c}),
        threads := p.threads[id := WithTop(p.threads[id], Finished(c))])
    case Leave(id) => Popped(p, id).(returned := p.returned + {(id, Top(p.threads[id]).category)})
    case Nest(id, c) => p.(threads := p.threads[id := Nested(p.threads[id], c)], owner := Some(id))
    case Abort(id) => Popped(p, id)
    case Outside(_, w) => p.(contents := p.contents.(tasks := p.contents.tasks + {w}))
    case Fork(id) => p.(owner := None, threads := map[id := Forked(p.threads[id])], returned := set r | r in p.returned
      && r.0 == id)
  }

  const START: Process := Process(EMPTY, None, map[0 := Idle], {})

  ghost predicate IsRun(work: Work, run: seq<Process>, steps: seq<Step>) {
    && |run| == |steps| + 1
    && forall i :: 0 <= i < |steps| ==> Enabled(work, run[i], steps[i]) && run[i + 1] == Next(work, run[i], steps[i])
  }

  ghost predicate Reachable(work: Work, p: Process) {
    exists run, steps :: IsRun(work, run, steps) && run[0] == START && run[|steps|] == p
  }

  // ------------------------------------------------ the code as a run of steps

  /** The steps can be taken one after the other, and lead from `p` to `q`. */
  ghost predicate Walks(work: Work, p: Process, steps: seq<Step>, q: Process)
    decreases |steps|
  {
    if steps == [] then p == q
    else Enabled(work, p, steps[0]) && Walks(work, Next(work, p, steps[0]), steps[1..], q)
  }

  lemma {:induction false} WalksNext(work: Work, p: Process, steps: seq<Step>, q: Process, s: Step)
    requires Walks(work, p, steps, q) && Enabled(work, q, s)
    ensures Walks(work, p, steps + [s], Next(work, q, s))
    decreases |steps|
  {
    if steps == [] {
      assert [s][1..] == [];
    } else {
      WalksNext(work, Next(work, p, steps[0]), steps[1..], q, s);
      assert (steps + [s])[0] == steps[0] && (steps + [s])[1..] == steps[1..] + [s];
    }
  }

  /** The process with one thread elsewhere. */
  function With(p: Process, id: Id, s: Contents, owner: Option<Id>, t: Thread): Process {
    p.(contents := s, owner := owner, threads := p.threads[id := t])
  }

  lemma WithAgain(p: Process, id: Id, s: Contents, o: Option<Id>, t: Thread, s': Contents, o': Option<Id>, t': Thread)
    ensures With(With(p, id, s, o, t), id, s', o', t') == With(p, id, s', o', t')
  {
    assert p.threads[id := t][id := t'] == p.threads[id := t'];
  }

  /** The steps of one population, up to where it is stopped. */
  function PopulationSteps(work: Work, id: Id, c: Category, n: nat): seq<Step> {
    [Ask(id, c), Acquire(id), Check(id)] + seq(n, i => Register(id))
  }

  lemma EntersLock(work: Work, p: Process, id: Id, c: Category)
    requires id in p.threads && p.threads[id].Idle? && p.owner.None?
    ensures var call := if c in p.contents.marked then Finished(c) else Building(c, 0);
      Walks(work, p, PopulationSteps(work, id, c, 0), With(p, id, p.contents, Some(id), Inside([call], 0)))
  {
    var s := p.contents;
    var p1 := With(p, id, s, None, Waiting(c));
    var p2 := With(p, id, s, Some(id), Inside([Checking(c)], 0));
    assert Walks(work, p, [], p);
    WalksNext(work, p, [], p, Ask(id, c));
    assert Next(work, p, Ask(id, c)) == p1;
    WalksNext(work, p, [] + [Ask(id, c)], p1, Acquire(id));
    WithAgain(p, id, s, None, Waiting(c), s, Some(id), Inside([Checking(c)], 0));
    WalksNext(work, p, [] + [Ask(id, c)] + [Acquire(id)], p2, Check(id));
    var call := if c in s.marked then Finished(c) else Building(c, 0);
    WithAgain(p, id, s, Some(id), Inside([Checking(c)], 0), s, Some(id), Inside([call], 0));
    assert WithTop(Inside([Checking(c)], 0), call) == Inside([call], 0);
    assert [] + [Ask(id, c)] + [Acquire(id)] + [Check(id)] == PopulationSteps(work, id, c, 0);
  }

  /** Having written the first `n`. */
  lemma {:induction false} WritesOn(work: Work, p: Process, id: Id, c: Category, n: nat)
    requires id in p.threads && p.threads[id].Idle? && p.owner.None? && c !in p.contents.marked && n <= |work(c)|
    ensures var s := Contents(p.contents.tasks + Elements(work(c)[..n]), p.contents.marked);
      Walks(work, p, PopulationSteps(work, id, c, n), With(p, id, s, Some(id), Inside([Building(c, n)], 0)))
  {
    hide Walks;
    if n == 0 {
      EntersLock(work, p, id, c);
      assert Elements(work(c)[..0]) == {};
      assert p.contents.tasks + {} == p.contents.tasks;
    } else {
      WritesOn(work, p, id, c, n - 1);
      var s := Contents(p.contents.tasks + Elements(work(c)[..n - 1]), p.contents.marked);
      var s' := Contents(p.contents.tasks + Elements(work(c)[..n]), p.contents.marked);
      assert work(c)[..n] == work(c)[..n - 1] + [work(c)[n - 1]];
      assert s' == s.(tasks := s.tasks + {work(c)[n - 1]});
      var t, t' := Inside([Building(c, n - 1)], 0), Inside([Building(c, n)], 0);
      assert WithTop(t, Building(c, n)) == t';
      WalksNext(work, p, PopulationSteps(work, id, c, n - 1), With(p, id, s, Some(id), t), Register(id));
      WithAgain(p, id, s, Some(id), t, s', Some(id), t');
      assert PopulationSteps(work, id, c, n - 1) + [Register(id)] == PopulationSteps(work, id, c, n);
    }
  }

  /** The end of a population: the thread leaves the lock. */
  lemma LeavesLock(work: Work, p: Process, steps: seq<Step>, id: Id, c: Category, s: Contents)
    requires id in p.threads && p.threads[id].Idle? && p.owner.None?
    requires Walks(work, p, steps, With(p, id, s, Some(id), Inside([Finished(c)], 0)))
    ensures Walks(work, p, steps + [Leave(id)], p.(contents := s, returned := p.returned + {(id, c)}))
  {
    var q := With(p, id, s, Some(id), Inside([Finished(c)], 0));
    WalksNext(work, p, steps, q, Leave(id));
    WithAgain(p, id, s, Some(id), Inside([Finished(c)], 0), s, None, Idle);
    assert p.threads[id := Idle] == p.threads;
  }

  /**
   * What the code of one population does, stopped or not, is a run of steps of its thread: from any
   * process whose lock is free they lead to the process with what the population leaves.
   */
  lemma PopulationIsRun(work: Work, p: Process, id: Id, c: Category, abort: Option<nat>) returns (steps: seq<Step>)
    requires id in p.threads && p.threads[id].Idle? && p.owner.None?
    ensures Walks(work, p, steps, p.(contents := Populated(work, p.contents, c, abort),
      returned := p.returned + if Stops(work, p.contents, c, abort) then {} else {(id, c)}))
    ensures forall k :: 0 <= k < |steps| ==> steps[k].id == id && !steps[k].Outside? && !steps[k].Fork?
  {
    hide Walks;
    assert p.returned + {} == p.returned;
    if c in p.contents.marked {
      EntersLock(work, p, id, c);
      LeavesLock(work, p, PopulationSteps(work, id, c, 0), id, c, p.contents);
      steps := PopulationSteps(work, id, c, 0) + [Leave(id)];
    } else if Stops(work, p.contents, c, abort) {
      steps := StoppedRun(work, p, id, c, abort.value);
    } else {
      steps := WholeRun(work, p, id, c);
    }
  }

  lemma StoppedRun(work: Work, p: Process, id: Id, c: Category, n: nat) returns (steps: seq<Step>)
    requires id in p.threads && p.threads[id].Idle? && p.owner.None? && c !in p.contents.marked && n <= |work(c)|
    ensures Walks(work, p, steps,
      p.(contents := Contents(p.contents.tasks + Elements(work(c)[..n]), p.contents.marked)))
    ensures forall k :: 0 <= k < |steps| ==> steps[k].id == id && !steps[k].Outside? && !steps[k].Fork?
  {
    hide Walks;
    WritesOn(work, p, id, c, n);
    var s := Contents(p.contents.tasks + Elements(work(c)[..n]), p.contents.marked);
    var t := Inside([Building(c, n)], 0);
    WalksNext(work, p, PopulationSteps(work, id, c, n), With(p, id, s, Some(id), t), Abort(id));
    WithAgain(p, id, s, Some(id), t, s, None, Idle);
    assert p.threads[id := Idle] == p.threads;
    steps := PopulationSteps(work, id, c, n) + [Abort(id)];
  }

  lemma WholeRun(work: Work, p: Process, id: Id, c: Category) returns (steps: seq<Step>)
    requires id in p.threads && p.threads[id].Idle? && p.owner.None? && c !in p.contents.marked
    ensures Walks(work, p, steps,
      p.(contents := Contents(p.contents.tasks + Elements(work(c)), p.contents.marked + {c}),
        returned := p.returned + {(id, c)}))
    ensures forall k :: 0 <= k < |steps| ==> steps[k].id == id && !steps[k].Outside? && !steps[k].Fork?
  {
    hide Walks;
    var n := |work(c)|;
    WritesOn(work, p, id, c, n);
    assert work(c)[..n] == work(c);
    var s := Contents(p.contents.tasks + Elements(work(c)), p.contents.marked);
    var s' := Contents(s.tasks, s.marked + {c});
    var t, t' := Inside([Building(c, n)], 0), Inside([Finished(c)], 0);
    assert WithTop(t, Finished(c)) == t';
    WalksNext(work, p, PopulationSteps(work, id, c, n), With(p, id, s, Some(id), t), Mark(id));
    WithAgain(p, id, s, Some(id), t, s', Some(id), t');
    LeavesLock(work, p, PopulationSteps(work, id, c, n) + [Mark(id)], id, c, s');
    steps := PopulationSteps(work, id, c, n) + [Mark(id)] + [Leave(id)];
  }

  /**
   * What may happen at any time: threads start, register tasks from outside, nest a population in a
   * build at any depth, are stopped, and fork wherever they stand. Entries of `Open` are only touched
   * by a thread that has the lock or could have it.
   */
  lemma AnyTime(work: Work, p: Process, id: Id, c: Category, w: Write)
    ensures id !in p.threads ==>
      Enabled(work, p, Start(id)) && Next(work, p, Start(id)).threads == p.threads[id := Idle]
    ensures id in p.threads ==>
      && Enabled(work, p, Fork(id))
      && Next(work, p, Fork(id)).threads.Keys == {id} && Next(work, p, Fork(id)).contents == p.contents
    ensures id in p.threads && p.threads[id].Idle? ==>
      (Enabled(work, p, Outside(id, w)) <==> w.category != Open || p.owner.None? || p.owner.value == id)
    ensures id in p.threads && p.threads[id].Idle? && Enabled(work, p, Outside(id, w)) ==>
      Next(work, p, Outside(id, w)) == p.(contents := Contents(p.contents.tasks + {w}, p.contents.marked))
    ensures id in p.threads && p.threads[id].Inside? && p.threads[id].calls != [] ==>
      var calls := p.threads[id].calls;
      && Enabled(work, p, Abort(id))
      && (calls[|calls| - 1].Building? && (p.owner.None? || p.owner.value == id) ==>
        && Enabled(work, p, Nest(id, c)) && Next(work, p, Nest(id, c)).owner == Some(id)
        && Next(work, p, Nest(id, c)).threads[id] == p.threads[id].(calls := calls + [Checking(c)]))
  {
  }

  // --------------------------------------------------------------- invariants

  ghost predicate CallHolds(work: Work, s: Contents, call: Call) {
    match call
    case Checking(_) => true
    case Building(c, done) => Written(work, s, c, done)
    case Finished(c) => c in s.marked
  }

  ghost predicate ThreadHolds(work: Work, s: Contents, t: Thread) {
    t.Inside? ==> t.calls != [] && forall i :: 0 <= i < |t.calls| ==> CallHolds(work, s, t.calls[i])
  }

  /** What makes markers trustworthy; the lock plays no part in it. */
  ghost predicate Safe(work: Work, p: Process) {
    && MarkersHold(work, p.contents)
    && (forall id :: id in p.threads ==> ThreadHolds(work, p.contents, p.threads[id]))
    && (forall r :: r in p.returned ==> r.1 in p.contents.marked)
  }

  /** The lock is held exactly by the one thread that is inside. */
  ghost predicate Exclusive(p: Process) {
    && (forall id :: id in p.threads && p.threads[id].Inside? ==> p.threads[id].stale <= |p.threads[id].calls|)
    && (forall id :: id in p.threads && Holds(p.threads[id]) ==> p.owner == Some(id))
    && (p.owner.Some? ==> p.owner.value in p.threads && Holds(p.threads[p.owner.value]))
  }

  lemma MarkersGrow(work: Work, s: Contents, s': Contents)
    requires MarkersHold(work, s) && Grows(s, s') && s'.marked == s.marked
    ensures MarkersHold(work, s')
  {
  }

  lemma ThreadGrows(work: Work, s: Contents, s': Contents, t: Thread)
    requires ThreadHolds(work, s, t) && Grows(s, s')
    ensures ThreadHolds(work, s', t)
  {
    if t.Inside? {
      forall i | 0 <= i < |t.calls|
        ensures CallHolds(work, s', t.calls[i])
      {
        assert CallHolds(work, s, t.calls[i]);
      }
    }
  }

  lemma TopHolds(work: Work, s: Contents, t: Thread)
    requires ThreadHolds(work, s, t) && IsInside(t)
    ensures CallHolds(work, s, Top(t))
  {
  }

  lemma WithTopHolds(work: Work, s: Contents, t: Thread, c: Call)
    requires ThreadHolds(work, s, t) && IsInside(t) && CallHolds(work, s, c)
    ensures ThreadHolds(work, s, WithTop(t, c))
  {
    var calls := WithTop(t, c).calls;
    forall i | 0 <= i < |calls|
      ensures CallHolds(work, s, calls[i])
    {
      assert i < |calls| - 1 ==> calls[i] == t.calls[i];
    }
  }

  /** One thread moves on, whoever has the lock; what is registered only grows. */
  lemma MoveSafe(work: Work, p: Process, s: Contents, id: Id, t: Thread, owner: Option<Id>)
    requires Safe(work, p) && Grows(p.contents, s) && MarkersHold(work, s)
    requires ThreadHolds(work, s, t)
    ensures Safe(work, p.(contents := s, threads := p.threads[id := t], owner := owner))
  {
    forall i | i in p.threads
      ensures ThreadHolds(work, s, p.threads[i])
    {
      ThreadGrows(work, p.contents, s, p.threads[i]);
    }
  }

  lemma PoppedSafe(work: Work, p: Process, id: Id)
    requires Safe(work, p) && id in p.threads && IsInside(p.threads[id])
    ensures Safe(work, Popped(p, id))
  {
    var t := p.threads[id];
    var rest := t.calls[..|t.calls| - 1];
    assert forall i :: 0 <= i < |rest| ==> rest[i] == t.calls[i];
    MoveSafe(work, p, p.contents, id, WithoutTop(t), Popped(p, id).owner);
  }

  lemma RegisterSafe(work: Work, p: Process, id: Id)
    requires Safe(work, p) && Enabled(work, p, Register(id))
    ensures Safe(work, Next(work, p, Register(id)))
  {
    var t := p.threads[id];
    TopHolds(work, p.contents, t);
    var top := Top(t);
    var s := p.contents.(tasks := p.contents.tasks + {work(top.category)[top.done]});
    MarkersGrow(work, p.contents, s);
    ThreadGrows(work, p.contents, s, t);
    WithTopHolds(work, s, t, Building(top.category, top.done + 1));
    MoveSafe(work, p, s, id, WithTop(t, Building(top.category, top.done + 1)), p.owner);
  }

  lemma MarkSafe(work: Work, p: Process, id: Id)
    requires Safe(work, p) && Enabled(work, p, Mark(id))
    ensures Safe(work, Next(work, p, Mark(id)))
  {
    var t := p.threads[id];
    TopHolds(work, p.contents, t);
    var c := Top(t).category;
    var s := p.contents.(marked := p.contents.marked + {c});
    WrittenComplete(work, s, c);
    ThreadGrows(work, p.contents, s, t);
    WithTopHolds(work, s, t, Finished(c));
    MoveSafe(work, p, s, id, WithTop(t, Finished(c)), p.owner);
  }

  lemma LeaveSafe(work: Work, p: Process, id: Id)
    requires Safe(work, p) && Enabled(work, p, Leave(id))
    ensures Safe(work, Next(work, p, Leave(id)))
  {
    TopHolds(work, p.contents, p.threads[id]);
    PoppedSafe(work, p, id);
  }

  lemma NestSafe(work: Work, p: Process, id: Id, c: Category)
    requires Safe(work, p) && Enabled(work, p, Nest(id, c))
    ensures Safe(work, Next(work, p, Nest(id, c)))
  {
    MoveSafe(work, p, p.contents, id, Nested(p.threads[id], c), Some(id));
  }

  lemma CheckSafe(work: Work, p: Process, id: Id)
    requires Safe(work, p) && Enabled(work, p, Check(id))
    ensures Safe(work, Next(work, p, Check(id)))
  {
    var t, c := p.threads[id], Top(p.threads[id]).category;
    var call := if c in p.contents.marked then Finished(c) else Building(c, 0);
    WithTopHolds(work, p.contents, t, call);
    MoveSafe(work, p, p.contents, id, WithTop(t, call), p.owner);
  }

  lemma OutsideSafe(work: Work, p: Process, id: Id, w: Write)
    requires Safe(work, p) && Enabled(work, p, Outside(id, w))
    ensures Safe(work, Next(work, p, Outside(id, w)))
  {
    var s := p.contents.(tasks := p.contents.tasks + {w});
    MarkersGrow(work, p.contents, s);
    MoveSafe(work, p, s, id, p.threads[id], p.owner);
    assert p.threads[id := p.threads[id]] == p.threads;
  }

  lemma ForkSafe(work: Work, p: Process, id: Id)
    requires Safe(work, p) && Enabled(work, p, Fork(id))
    ensures Safe(work, Next(work, p, Fork(id)))
  {
  }

  lemma StepSafe(work: Work, p: Process, s: Step)
    requires Safe(work, p) && Enabled(work, p, s)
    ensures Safe(work, Next(work, p, s))
  {
    match s
    case Start(id) => MoveSafe(work, p, p.contents, id, Idle, p.owner);
    case Ask(id, c) => MoveSafe(work, p, p.contents, id, Waiting(c), p.owner);
    case Acquire(id) => MoveSafe(work, p, p.contents, id, Inside([Checking(p.threads[id].category)], 0), Some(id));
    case Check(id) => CheckSafe(work, p, id);
    case Register(id) => RegisterSafe(work, p, id);
    case Mark(id) => MarkSafe(work, p, id);
    case Leave(id) => LeaveSafe(work, p, id);
    case Nest(id, c) => NestSafe(work, p, id, c);
    case Abort(id) => PoppedSafe(work, p, id);
    case Outside(id, w) => OutsideSafe(work, p, id, w);
    case Fork(id) => ForkSafe(work, p, id);
  }

  /** Whatever a thread does, a fork included, the lock is held by one thread at most and not forgotten. */
  lemma StepExclusive(work: Work, p: Process, s: Step)
    requires Exclusive(p) && Enabled(work, p, s)
    ensures Exclusive(Next(work, p, s))
  {
    var q := Next(work, p, s);
    forall i | i in q.threads && Holds(q.threads[i])
      ensures q.owner == Some(i)
    {
      assert i in p.threads;
    }
  }

  lemma {:induction false} RunSafe(work: Work, run: seq<Process>, steps: seq<Step>, i: nat)
    requires IsRun(work, run, steps) && run[0] == START && i <= |steps|
    ensures Safe(work, run[i]) && Exclusive(run[i])
  {
    if i > 0 {
      RunSafe(work, run, steps, i - 1);
      StepSafe(work, run[i - 1], steps[i - 1]);
      StepExclusive(work, run[i - 1], steps[i - 1]);
    }
  }

  /**
   * In every state of every interleaving, with aborts and forks anywhere: a marker means a complete
   * category, a population that returned left a complete category, and one thread at most is inside
   * the lock of its process.
   */
  lemma ReachableSafe(work: Work, p: Process, c: Category, id: Id)
    requires Reachable(work, p)
    ensures c in p.contents.marked ==> Complete(work, p.contents, c)
    ensures (id, c) in p.returned ==> c in p.contents.marked && Complete(work, p.contents, c)
    ensures id in p.threads && Holds(p.threads[id]) ==> p.owner == Some(id)
  {
    var run, steps :| IsRun(work, run, steps) && run[0] == START && run[|steps|] == p;
    RunSafe(work, run, steps, |steps|);
  }

  // ----------------------------------------------------------------- progress

  /** The steps by which a thread gets through its populations when nothing interrupts it. */
  predicate IsOwnStep(s: Step, id: Id) {
    (s.Acquire? || s.Check? || s.Register? || s.Mark? || s.Leave?) && s.id == id
  }

  lemma CanMove(work: Work, p: Process, id: Id) returns (s: Step)
    requires Safe(work, p) && id in p.threads && !p.threads[id].Idle? && MayEnter(p, id)
    requires p.threads[id].Waiting? ==> p.owner.None?
    ensures IsOwnStep(s, id) && Enabled(work, p, s)
  {
    if p.threads[id].Waiting? {
      s := Acquire(id);
    } else {
      TopHolds(work, p.contents, p.threads[id]);
      match Top(p.threads[id])
      case Checking(_) => s := Check(id);
      case Building(c, done) => s := if done < |work(c)| then Register(id) else Mark(id);
      case Finished(_) => s := Leave(id);
    }
  }

  /** While some thread is not idle, some thread can move on without an abort: there is no deadlock. */
  lemma NoDeadlock(work: Work, p: Process, id: Id)
    requires Reachable(work, p) && id in p.threads && !p.threads[id].Idle?
    ensures exists s: Step, i: Id :: IsOwnStep(s, i) && Enabled(work, p, s)
  {
    var run, steps :| IsRun(work, run, steps) && run[0] == START && run[|steps|] == p;
    RunSafe(work, run, steps, |steps|);
    var i := if p.owner.Some? then p.owner.value else id;
    var s := CanMove(work, p, i);
    assert IsOwnStep(s, i) && Enabled(work, p, s);
  }

  /** How many of a thread's own steps are left. */
  function StepsLeft(work: Work, t: Thread): int {
    match t
    case Idle => 0
    case Waiting(c) => |work(c)| + 4
    case Inside(calls, _) => CallsLeft(work, calls)
  }

  function CallsLeft(work: Work, calls: seq<Call>): int {
    if calls == [] then 0
    else
      var top := calls[|calls| - 1];
      CallsLeft(work, calls[..|calls| - 1]) +
      match top
      case Checking(c) => |work(c)| + 3
      case Building(c, done) => |work(c)| - done + 2
      case Finished(_) => 1
  }

  /** A population of `c` that a thread waits for or is in the middle of. */
  predicate Pursues(t: Thread, c: Category) {
    match t
    case Idle => false
    case Waiting(d) => d == c
    case Inside(calls, _) => exists i :: 0 <= i < |calls| && calls[i].category == c
  }

  /** The one thread of a process is on its way through a population of `c`, or has returned from it. */
  ghost predicate OnItsWay(p: Process, id: Id, c: Category) {
    p.threads.Keys == {id} && (Pursues(p.threads[id], c) || (id, c) in p.returned)
  }

  lemma TopReplaced(t: Thread, call: Call, c: Category)
    requires IsInside(t) && call.category == Top(t).category && Pursues(t, c)
    ensures Pursues(WithTop(t, call), c)
  {
    var i :| 0 <= i < |t.calls| && t.calls[i].category == c;
    assert WithTop(t, call).calls[i].category == c;
  }

  lemma TopLeft(t: Thread, c: Category)
    requires IsInside(t) && Pursues(t, c)
    ensures Top(t).category == c || Pursues(WithoutTop(t), c)
  {
    var i :| 0 <= i < |t.calls| && t.calls[i].category == c;
    if i < |t.calls| - 1 {
      assert WithoutTop(t).calls[i].category == c;
    }
  }

  lemma OwnStepPursues(work: Work, p: Process, s: Step, id: Id, c: Category)
    requires OnItsWay(p, id, c) && IsOwnStep(s, id) && Enabled(work, p, s)
    ensures OnItsWay(Next(work, p, s), id, c)
  {
    var t, t' := p.threads[id], Next(work, p, s).threads[id];
    if Pursues(t, c) {
      if s.Acquire? {
        assert t'.calls[0].category == c;
      } else if s.Leave? {
        TopLeft(t, c);
      } else {
        TopReplaced(t, Top(t'), c);
      }
    }
  }

  lemma OwnStepCounts(work: Work, p: Process, s: Step, id: Id)
    requires Safe(work, p) && IsOwnStep(s, id) && Enabled(work, p, s)
    ensures StepsLeft(work, Next(work, p, s).threads[id]) < StepsLeft(work, p.threads[id])
  {
    var t, t' := p.threads[id], Next(work, p, s).threads[id];
    if s.Acquire? {
      assert t' == Inside([Checking(t.category)], 0) && t'.calls[..0] == [];
      assert CallsLeft(work, t'.calls) == |work(t.category)| + 3;
    } else if s.Leave? {
      var rest := t.calls[..|t.calls| - 1];
      assert StepsLeft(work, t') == CallsLeft(work, rest);
      assert StepsLeft(work, t) == CallsLeft(work, rest) + 1;
    } else {
      assert t'.calls[..|t'.calls| - 1] == t.calls[..|t.calls| - 1];
      assert t' == WithTop(t, Top(t'));
    }
  }

  lemma {:induction false} LeftNonNegative(work: Work, s: Contents, calls: seq<Call>)
    requires forall i :: 0 <= i < |calls| ==> CallHolds(work, s, calls[i])
    ensures CallsLeft(work, calls) >= 0
  {
    if calls != [] {
      LeftNonNegative(work, s, calls[..|calls| - 1]);
      assert CallHolds(work, s, calls[|calls| - 1]);
    }
  }

  /** The only thread of a process that can take no step of its own is idle. */
  lemma StuckIsDone(work: Work, p: Process, id: Id)
    requires Safe(work, p) && Exclusive(p) && p.threads.Keys == {id}
    requires forall s :: IsOwnStep(s, id) ==> !Enabled(work, p, s)
    ensures p.threads[id].Idle?
  {
    if !p.threads[id].Idle? {
      assert p.owner.Some? ==> p.owner.value in p.threads.Keys;
      var s := CanMove(work, p, id);
      assert false;
    }
  }

  lemma {:induction false} OwnRun(work: Work, run: seq<Process>, steps: seq<Step>, id: Id, i: nat)
    requires IsRun(work, run, steps) && Safe(work, run[0]) && Exclusive(run[0]) && run[0].threads.Keys == {id}
      && i <= |steps|
    requires forall k :: 0 <= k < |steps| ==> IsOwnStep(steps[k], id)
    ensures Safe(work, run[i]) && Exclusive(run[i]) && run[i].threads.Keys == {id}
    ensures i + StepsLeft(work, run[i].threads[id]) <= StepsLeft(work, run[0].threads[id])
    ensures forall c :: Pursues(run[0].threads[id], c) ==> OnItsWay(run[i], id, c)
  {
    if i > 0 {
      OwnRun(work, run, steps, id, i - 1);
      var p, s := run[i - 1], steps[i - 1];
      assert IsOwnStep(s, id) && Enabled(work, p, s) && run[i] == Next(work, p, s);
      StepSafe(work, p, s);
      StepExclusive(work, p, s);
      OwnStepCounts(work, p, s, id);
      forall c | Pursues(run[0].threads[id], c)
        ensures OnItsWay(run[i], id, c)
      {
        OwnStepPursues(work, p, s, id, c);
      }
    }
  }

  /** The child of a fork; a thread that was idle then asks for `c`. */
  function Child(work: Work, p: Process, id: Id, c: Category): Process
    requires Enabled(work, p, Fork(id))
  {
    var child := Next(work, p, Fork(id));
    if child.threads[id].Idle? then Next(work, child, Ask(id, c)) else child
  }

  lemma ChildSafe(work: Work, p: Process, id: Id, c: Category)
    requires Reachable(work, p) && id in p.threads
    ensures var child := Child(work, p, id, c); Safe(work, child) && Exclusive(child) && child.threads.Keys == {id}
  {
    var past, past' :| IsRun(work, past, past') && past[0] == START && past[|past'|] == p;
    RunSafe(work, past, past', |past'|);
    StepSafe(work, p, Fork(id));
    StepExclusive(work, p, Fork(id));
    var child := Next(work, p, Fork(id));
    if child.threads[id].Idle? {
      StepSafe(work, child, Ask(id, c));
      StepExclusive(work, child, Ask(id, c));
    }
  }

  /**
   * A child forked by any thread at any instant of any interleaving, in the middle of its own builds
   * too, and whatever it inherits, gets through every population its one thread waits for or is in
   * the middle of, within a bounded number of steps, and then has each of these categories complete.
   */
  lemma ChildEndsComplete(work: Work, p: Process, id: Id, c: Category, run: seq<Process>, steps: seq<Step>)
    requires Reachable(work, p) && id in p.threads
    requires IsRun(work, run, steps) && run[0] == Child(work, p, id, c)
    requires forall k :: 0 <= k < |steps| ==> IsOwnStep(steps[k], id)
    ensures |steps| <= StepsLeft(work, run[0].threads[id])
    ensures p.threads[id].Idle? ==>
      Pursues(run[0].threads[id], c) && StepsLeft(work, run[0].threads[id]) == |work(c)| + 4
    ensures forall d :: Pursues(p.threads[id], d) ==> Pursues(run[0].threads[id], d)
    ensures (forall s :: IsOwnStep(s, id) ==> !Enabled(work, run[|steps|], s)) ==>
      && id in run[|steps|].threads && run[|steps|].threads[id].Idle?
      && forall d :: Pursues(run[0].threads[id], d) ==>
        (id, d) in run[|steps|].returned && Complete(work, run[|steps|].contents, d)
  {
    var end := run[|steps|];
    ChildSafe(work, p, id, c);
    OwnRun(work, run, steps, id, |steps|);
    if IsInside(end.threads[id]) {
      LeftNonNegative(work, end.contents, end.threads[id].calls);
    }
    if forall s :: IsOwnStep(s, id) ==> !Enabled(work, end, s) {
      StuckIsDone(work, end, id);
    }
  }

  // ------------------------------------- why a category needs a marker at all

  lemma ReachableNext(work: Work, p: Process, s: Step)
    requires Reachable(work, p) && Enabled(work, p, s)
    ensures Reachable(work, Next(work, p, s))
  {
    var run, steps :| IsRun(work, run, steps) && run[0] == START && run[|steps|] == p;
    var run', steps' := run + [Next(work, p, s)], steps + [s];
    forall i | 0 <= i < |steps'|
      ensures Enabled(work, run'[i], steps'[i]) && run'[i + 1] == Next(work, run'[i], steps'[i])
    {
      if i < |steps| {
        assert Enabled(work, run[i], steps[i]) && run[i + 1] == Next(work, run[i], steps[i]);
      }
    }
    assert IsRun(work, run', steps') && run'[0] == START && run'[|steps'|] == Next(work, p, s);
  }

  /** The first thread building `Open`, `done` writes in. */
  function Midway(work: Work, done: nat): Process
    requires done <= |work(Open)|
  {
    Alone(Elements(work(Open)[..done]), Some(0), Inside([Building(Open, done)], 0))
  }

  /** The first thread of a fresh process, and nothing else. */
  function Alone(tasks: set<Write>, owner: Option<Id>, t: Thread): Process {
    Process(Contents(tasks, {}), owner, map[0 := t], {})
  }

  lemma AloneMoves(tasks: set<Write>, owner: Option<Id>, t: Thread, tasks': set<Write>, owner': Option<Id>, t': Thread)
    ensures Alone(tasks, owner, t).(contents := Contents(tasks', {}), owner := owner',
      threads := Alone(tasks, owner, t).threads[0 := t'])
      == Alone(tasks', owner', t')
  {
    assert map[0 := t][0 := t'] == map[0 := t'];
  }

  lemma AskFirst(work: Work)
    ensures Reachable(work, Alone({}, None, Waiting(Open)))
  {
    assert IsRun(work, [START], []) && Reachable(work, START);
    ReachableNext(work, START, Ask(0, Open));
    AloneMoves({}, None, Idle, {}, None, Waiting(Open));
  }

  lemma AcquireFirst(work: Work)
    ensures Reachable(work, Alone({}, Some(0), Inside([Checking(Open)], 0)))
  {
    AskFirst(work);
    var p := Alone({}, None, Waiting(Open));
    ReachableNext(work, p, Acquire(0));
    AloneMoves({}, None, Waiting(Open), {}, Some(0), Inside([Checking(Open)], 0));
  }

  lemma MidwayStart(work: Work)
    ensures Reachable(work, Midway(work, 0))
  {
    AcquireFirst(work);
    var p := Alone({}, Some(0), Inside([Checking(Open)], 0));
    ReachableNext(work, p, Check(0));
    AloneMoves({}, Some(0), Inside([Checking(Open)], 0), {}, Some(0), Inside([Building(Open, 0)], 0));
    assert WithTop(Inside([Checking(Open)], 0), Building(Open, 0)) == Inside([Building(Open, 0)], 0);
    assert Elements(work(Open)[..0]) == {};
  }

  lemma MidwayNext(work: Work, done: nat)
    requires done < |work(Open)|
    ensures Enabled(work, Midway(work, done), Register(0))
    ensures Next(work, Midway(work, done), Register(0)) == Midway(work, done + 1)
  {
    var p, p' := Midway(work, done), Midway(work, done + 1);
    assert work(Open)[..done + 1] == work(Open)[..done] + [work(Open)[done]];
    assert p'.contents.tasks == p.contents.tasks + {work(Open)[done]};
    assert WithTop(p.threads[0], Building(Open, done + 1)) == p'.threads[0];
    AloneMoves(p.contents.tasks, Some(0), p.threads[0], p'.contents.tasks, Some(0), p'.threads[0]);
  }

  lemma {:induction false} MidwayReachable(work: Work, done: nat)
    requires done <= |work(Open)|
    ensures Reachable(work, Midway(work, done))
  {
    if done == 0 {
      MidwayStart(work);
    } else {
      MidwayReachable(work, done - 1);
      MidwayNext(work, done - 1);
      ReachableNext(work, Midway(work, done - 1), Register(0));
    }
  }

  /**
   * A non-empty category need not be complete, even with no population under way: populating `Open`
   * leaves the viewers in `Show` and nothing else that belongs there.
   */
  lemma NonEmptyIsNotComplete(work: Work, viewer: Write, other: Write) returns (p: Process)
    requires viewer in work(Open) && viewer.category == Show
    requires other in work(Show) && other.category == Show && other !in work(Open)
    ensures Reachable(work, p) && p.owner.None?
    ensures viewer in p.contents.tasks && Show !in p.contents.marked && !Complete(work, p.contents, Show)
  {
    var n := |work(Open)|;
    MidwayReachable(work, n);
    p := Midway(work, n);
    assert work(Open)[..n] == work(Open);
    ReachableNext(work, p, Mark(0));
    p := Next(work, p, Mark(0));
    ReachableNext(work, p, Leave(0));
    p := Next(work, p, Leave(0));
  }
}
