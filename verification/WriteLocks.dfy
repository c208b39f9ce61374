/**
 * The write-lock coordinator: any number of tasks, each taking one lock per root it mutates, as a
 * state machine over single acquisitions.
 */
module WriteLocks {
  import opened Text

  type Roots = seq<nat>

  ghost predicate Increasing(s: Roots) {
    forall i, j :: 0 <= i < j < |s| ==> s[i] < s[j]
  }

  function InsertRoot(x: nat, s: Roots): Roots {
    if s == [] || x < s[0] then [x] + s
    else if x == s[0] then s
    else [s[0]] + InsertRoot(x, s[1..])
  }

  /** `sort_unstable` then `dedup`. */
  function Normalise(roots: Roots): Roots {
    if roots == [] then [] else InsertRoot(roots[0], Normalise(roots[1..]))
  }

  lemma {:induction false} InsertRootSorted(x: nat, s: Roots)
    requires Increasing(s)
    ensures Increasing(InsertRoot(x, s))
    ensures forall y :: y in InsertRoot(x, s) <==> y == x || y in s
    decreases |s|
  {
    if s != [] && s[0] < x {
      InsertRootSorted(x, s[1..]);
      assert forall y :: y in s <==> y == s[0] || y in s[1..];
    }
  }

  /** The lock order is strictly increasing and names exactly the requested roots. */
  lemma {:induction false} NormaliseOrders(roots: Roots)
    ensures Increasing(Normalise(roots))
    ensures forall y :: y in Normalise(roots) <==> y in roots
    decreases |roots|
  {
    if roots != [] {
      NormaliseOrders(roots[1..]);
      InsertRootSorted(roots[0], Normalise(roots[1..]));
      assert forall y :: y in roots <==> y == roots[0] || y in roots[1..];
    }
  }

  /** Any sorted, deduplicated arrangement of the same roots is this one. */
  lemma {:induction false} IncreasingIsUnique(a: Roots, b: Roots)
    requires Increasing(a) && Increasing(b) && forall y :: y in a <==> y in b
    ensures a == b
    decreases |a|
  {
    assert a != [] ==> a[0] in b;
    assert b != [] ==> b[0] in a;
    if a != [] {
      assert a[0] == b[0];
      forall y ensures y in a[1..] <==> y in b[1..] {
        assert y in a <==> y == a[0] || y in a[1..];
        assert y in b <==> y == b[0] || y in b[1..];
      }
      IncreasingIsUnique(a[1..], b[1..]);
    }
  }

  datatype Phase =
    | Acquiring(held: nat)
    | Critical
    | Released
    | Failed

  datatype Task = Task(order: Roots, phase: Phase)

  /** The mutexes (`owner` says which task holds a locked one) and the tasks. */
  datatype State = State(lockCount: nat, owner: map<nat, nat>, tasks: seq<Task>)

  function Init(lockCount: nat, requests: seq<Roots>): State {
    State(lockCount, map[],
      seq(|requests|, i requires 0 <= i < |requests| => Task(Normalise(requests[i]), Acquiring(0))))
  }

  /** The guards a task holds, in acquisition order. */
  function Guards(t: Task): Roots {
    match t.phase
    case Acquiring(held) => if held <= |t.order| then t.order[..held] else []
    case Critical => t.order
    case _ => []
  }

  function Unlock(owner: map<nat, nat>, guards: Roots): map<nat, nat> {
    map lock | lock in owner && lock !in guards :: owner[lock]
  }

  /** One step of task `i`, or `None` while it is blocked or finished. */
  function Step(s: State, i: nat): Option<State> {
    if i >= |s.tasks| then None
    else
      var t := s.tasks[i];
      match t.phase
      case Acquiring(held) =>
        if held >= |t.order| then Some(s.(tasks := s.tasks[i := t.(phase := Critical)]))
        else if t.order[held] >= s.lockCount then
          Some(State(s.lockCount, Unlock(s.owner, t.order[..held]), s.tasks[i := t.(phase := Failed)]))
        else if t.order[held] in s.owner then None
        else Some(State(s.lockCount, s.owner[t.order[held] := i], s.tasks[i := t.(phase := Acquiring(held + 1))]))
      case Critical => Some(State(s.lockCount, Unlock(s.owner, t.order), s.tasks[i := t.(phase := Released)]))
      case _ => None
  }

  /** The state after the tasks took steps in this order; `None` if one of them could not. */
  function Run(s: State, schedule: seq<nat>): Option<State>
    decreases |schedule|
  {
    if schedule == [] then Some(s)
    else match Step(s, schedule[0])
      case None => None
      case Some(next) => Run(next, schedule[1..])
  }

  ghost predicate Finished(t: Task) {
    t.phase.Released? || t.phase.Failed?
  }

  ghost predicate TaskOk(s: State, i: nat)
    requires i < |s.tasks|
  {
    var t := s.tasks[i];
    && Increasing(t.order)
    && (t.phase.Acquiring? ==> t.phase.held <= |t.order|)
    && (forall lock :: lock in Guards(t) ==> lock < s.lockCount && lock in s.owner && s.owner[lock] == i)
    && (t.phase.Failed? ==> exists lock :: lock in t.order && lock >= s.lockCount)
    && (t.phase.Critical? || t.phase.Released? ==> forall lock :: lock in t.order ==> lock < s.lockCount)
  }

  /** Every guard owns its lock, and every locked mutex is owned by a task that holds its guard. */
  ghost predicate Inv(s: State) {
    && (forall i :: 0 <= i < |s.tasks| ==> TaskOk(s, i))
    && (forall lock :: lock in s.owner ==> s.owner[lock] < |s.tasks| && lock in Guards(s.tasks[s.owner[lock]]))
  }

  lemma InitInv(lockCount: nat, requests: seq<Roots>)
    ensures Inv(Init(lockCount, requests))
  {
    var s := Init(lockCount, requests);
    forall i | 0 <= i < |s.tasks| ensures TaskOk(s, i) {
      NormaliseOrders(requests[i]);
    }
  }

  lemma GuardsAreExclusive(s: State, i: nat, j: nat, lock: nat)
    requires Inv(s) && i < |s.tasks| && j < |s.tasks| && i != j && lock in Guards(s.tasks[i])
    ensures lock !in Guards(s.tasks[j])
  {
    assert TaskOk(s, i) && TaskOk(s, j);
  }

  lemma StepKeepsInv(s: State, i: nat)
    requires Inv(s) && Step(s, i).Some?
    ensures Inv(Step(s, i).value)
  {
    var next, t := Step(s, i).value, s.tasks[i];
    assert TaskOk(s, i);
    forall j | 0 <= j < |next.tasks| ensures TaskOk(next, j) {
      assert TaskOk(s, j);
      if j == i {
        StepKeepsOwnTask(s, i);
      } else {
        forall lock | lock in Guards(s.tasks[j]) ensures lock in next.owner && next.owner[lock] == j {
          GuardsAreExclusive(s, j, i, lock);
        }
      }
    }
    forall lock | lock in next.owner
      ensures next.owner[lock] < |next.tasks| && lock in Guards(next.tasks[next.owner[lock]])
    {
      if lock in s.owner && s.owner[lock] == i {
        OwnGuardStays(s, i, lock);
      }
    }
  }

  lemma StepKeepsOwnTask(s: State, i: nat)
    requires Inv(s) && Step(s, i).Some?
    ensures TaskOk(Step(s, i).value, i)
  {
    var next, t := Step(s, i).value, s.tasks[i];
    assert TaskOk(s, i);
    if t.phase.Acquiring? && t.phase.held < |t.order| {
      var k := t.phase.held;
      assert t.order[k] in t.order;
      if t.order[k] < s.lockCount {
        assert t.order[..k + 1] == t.order[..k] + [t.order[k]];
      }
    } else if t.phase.Acquiring? {
      assert t.order[..t.phase.held] == t.order;
      assert Guards(t) == t.order;
    }
  }

  lemma OwnGuardStays(s: State, i: nat, lock: nat)
    requires Inv(s) && Step(s, i).Some? && lock in Step(s, i).value.owner
    requires lock in s.owner && s.owner[lock] == i
    ensures lock in Guards(Step(s, i).value.tasks[i])
  {
    var t := s.tasks[i];
    assert TaskOk(s, i);
    if t.phase.Acquiring? && t.phase.held < |t.order| {
      var k := t.phase.held;
      if t.order[k] < s.lockCount {
        assert t.order[..k + 1] == t.order[..k] + [t.order[k]];
      }
    } else if t.phase.Acquiring? {
      assert t.order[..t.phase.held] == t.order;
    }
  }

  /** A run keeps the invariant, the number of locks, and every task's request. */
  lemma {:induction false} RunKeepsInv(s: State, schedule: seq<nat>)
    requires Inv(s) && Run(s, schedule).Some?
    ensures var end := Run(s, schedule).value;
            && Inv(end) && end.lockCount == s.lockCount && |end.tasks| == |s.tasks|
            && forall i :: 0 <= i < |s.tasks| ==> end.tasks[i].order == s.tasks[i].order
    decreases |schedule|
  {
    if schedule != [] {
      StepKeepsInv(s, schedule[0]);
      RunKeepsInv(Step(s, schedule[0]).value, schedule[1..]);
    }
  }

  /** Mutual exclusion over every run: two tasks in their critical sections share no root. */
  lemma Exclusive(lockCount: nat, requests: seq<Roots>, schedule: seq<nat>, end: State, i: nat, j: nat)
    requires Run(Init(lockCount, requests), schedule) == Some(end)
    requires i < |end.tasks| && j < |end.tasks| && i != j
    requires end.tasks[i].phase.Critical? && end.tasks[j].phase.Critical?
    ensures i < |requests| && j < |requests| && forall root :: root in requests[i] ==> root !in requests[j]
  {
    var start := Init(lockCount, requests);
    InitInv(lockCount, requests);
    RunKeepsInv(start, schedule);
    NormaliseOrders(requests[i]);
    NormaliseOrders(requests[j]);
    forall root | root in requests[i] ensures root !in requests[j] {
      assert start.tasks[i].order == Normalise(requests[i]) && start.tasks[j].order == Normalise(requests[j]);
      GuardsAreExclusive(end, i, j, root);
    }
  }

  /** A finished task holds no lock; it failed only for a root that has no lock, and ran only if all have one. */
  lemma FinishedReleasesEverything(lockCount: nat, requests: seq<Roots>, schedule: seq<nat>, end: State, i: nat)
    requires Run(Init(lockCount, requests), schedule) == Some(end) && i < |end.tasks|
    ensures i < |requests|
    ensures Finished(end.tasks[i]) ==> forall lock :: lock in end.owner ==> end.owner[lock] != i
    ensures end.tasks[i].phase.Failed? ==> exists root :: root in requests[i] && root >= lockCount
    ensures end.tasks[i].phase.Critical? || end.tasks[i].phase.Released? ==>
              forall root :: root in requests[i] ==> root < lockCount
  {
    var start := Init(lockCount, requests);
    InitInv(lockCount, requests);
    RunKeepsInv(start, schedule);
    NormaliseOrders(requests[i]);
    assert start.tasks[i].order == Normalise(requests[i]);
    assert TaskOk(end, i);
  }

  /** Deadlock freedom, constructively: follow the owner of the awaited lock; awaited locks only grow. */
  lemma {:induction false} SomeoneCanStep(s: State, i: nat) returns (j: nat)
    requires Inv(s) && i < |s.tasks| && !Finished(s.tasks[i])
    ensures j < |s.tasks| && Step(s, j).Some?
    decreases s.lockCount - Awaited(s, i)
  {
    if Step(s, i).Some? {
      j := i;
    } else {
      assert TaskOk(s, i);
      var lock := s.tasks[i].order[s.tasks[i].phase.held];
      var owner := s.owner[lock];
      assert TaskOk(s, owner);
      var t := s.tasks[owner];
      if t.phase.Acquiring? && t.phase.held < |t.order| {
        var k :| 0 <= k < t.phase.held && t.order[k] == lock;
        assert lock < t.order[t.phase.held];
      }
      j := SomeoneCanStep(s, owner);
    }
  }

  /** The lock a task waits for, or a bound when it waits for none. */
  ghost function Awaited(s: State, i: nat): nat
    requires i < |s.tasks|
  {
    var t := s.tasks[i];
    if t.phase.Acquiring? && t.phase.held < |t.order| && t.order[t.phase.held] < s.lockCount
    then t.order[t.phase.held] else s.lockCount
  }

  /** In every reachable state with an unfinished task some task can take a step. */
  lemma NoDeadlock(lockCount: nat, requests: seq<Roots>, schedule: seq<nat>, end: State, i: nat)
    requires Run(Init(lockCount, requests), schedule) == Some(end)
    requires i < |end.tasks| && !Finished(end.tasks[i])
    ensures exists j :: 0 <= j < |end.tasks| && Step(end, j).Some?
  {
    InitInv(lockCount, requests);
    RunKeepsInv(Init(lockCount, requests), schedule);
    var j := SomeoneCanStep(end, i);
  }

  /** Steps a task can still take. */
  function Remaining(t: Task): nat {
    match t.phase
    case Acquiring(held) => if held <= |t.order| then |t.order| - held + 2 else 2
    case Critical => 1
    case _ => 0
  }

  function TotalRemaining(tasks: seq<Task>): nat {
    if tasks == [] then 0 else Remaining(tasks[0]) + TotalRemaining(tasks[1..])
  }

  lemma {:induction false} UpdateRemaining(tasks: seq<Task>, i: nat, t: Task)
    requires i < |tasks|
    ensures TotalRemaining(tasks[i := t]) == TotalRemaining(tasks) - Remaining(tasks[i]) + Remaining(t)
    decreases |tasks|
  {
    if i == 0 {
      assert tasks[0 := t][1..] == tasks[1..];
    } else {
      assert tasks[i := t][1..] == tasks[1..][i - 1 := t];
      UpdateRemaining(tasks[1..], i - 1, t);
    }
  }

  lemma StepUsesUpWork(s: State, i: nat)
    requires Inv(s) && Step(s, i).Some?
    ensures TotalRemaining(Step(s, i).value.tasks) < TotalRemaining(s.tasks)
  {
    assert TaskOk(s, i);
    UpdateRemaining(s.tasks, i, Step(s, i).value.tasks[i]);
  }

  /** Every run is finite: its length is bounded by the work the requests amount to. */
  lemma {:induction false} RunsAreFinite(s: State, schedule: seq<nat>)
    requires Inv(s) && Run(s, schedule).Some?
    ensures |schedule| + TotalRemaining(Run(s, schedule).value.tasks) <= TotalRemaining(s.tasks)
    decreases |schedule|
  {
    if schedule != [] {
      StepKeepsInv(s, schedule[0]);
      StepUsesUpWork(s, schedule[0]);
      RunsAreFinite(Step(s, schedule[0]).value, schedule[1..]);
    }
  }

  /** Whatever has happened so far, the tasks can all be run to the end. */
  lemma {:induction false} EveryRunCompletes(s: State) returns (schedule: seq<nat>)
    requires Inv(s)
    ensures Run(s, schedule).Some?
    ensures forall t :: t in Run(s, schedule).value.tasks ==> Finished(t)
    decreases TotalRemaining(s.tasks)
  {
    if i :| 0 <= i < |s.tasks| && !Finished(s.tasks[i]) {
      var j := SomeoneCanStep(s, i);
      StepKeepsInv(s, j);
      StepUsesUpWork(s, j);
      var rest := EveryRunCompletes(Step(s, j).value);
      schedule := [j] + rest;
      assert schedule[1..] == rest;
    } else {
      schedule := [];
    }
  }
}
