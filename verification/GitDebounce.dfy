/**
 * The debounced commit of one vault: staging calls, the timers they spawn, and explicit commits,
 * interleaved in any order, each step without a fault.
 */
module GitDebounce {
  import opened Text
  import opened GitPaths
  import GitPending

  /** One staging call: it stages, then reads the generation, then spawns a timer that carries it. */
  datatype Task =
    | HasStaged
    | HasRead(generation: nat, stages: nat)
    | TimerSet(generation: nat, stages: nat)
    | Finished

  /** `stages` counts the completed stagings; `commits` lists how many there were at each commit. */
  datatype State = State(generation: nat, pending: bool, stages: nat, tasks: seq<Task>, commits: seq<nat>)

  datatype Step = Stage | ReadGeneration(call: nat) | SpawnTimer(call: nat) | FireTimer(call: nat) | CommitNow

  const INITIAL := State(0, false, 0, [], [])

  predicate Enabled(s: State, step: Step) {
    match step
    case Stage => true
    case CommitNow => true
    case ReadGeneration(c) => c < |s.tasks| && s.tasks[c].HasStaged?
    case SpawnTimer(c) => c < |s.tasks| && s.tasks[c].HasRead?
    case FireTimer(c) => c < |s.tasks| && s.tasks[c].TimerSet?
  }

  /** A commit of a batch without paths does nothing. */
  function CommitIn(s: State): State {
    if s.pending then s.(pending := false, commits := s.commits + [s.stages]) else s
  }

  function Next(s: State, step: Step): State
    requires Enabled(s, step)
  {
    match step
    case Stage =>
      State(GitPending.NextGeneration(s.generation), true, s.stages + 1, s.tasks + [HasStaged], s.commits)
    case ReadGeneration(c) => s.(tasks := s.tasks[c := HasRead(s.generation, s.stages)])
    case SpawnTimer(c) => s.(tasks := s.tasks[c := TimerSet(s.tasks[c].generation, s.tasks[c].stages)])
    case FireTimer(c) =>
      var fired := s.(tasks := s.tasks[c := Finished]);
      if s.generation == s.tasks[c].generation then CommitIn(fired) else fired
    case CommitNow => CommitIn(s)
  }

  ghost predicate Run(trace: seq<State>, steps: seq<Step>) {
    && |trace| == |steps| + 1 && trace[0] == INITIAL
    && forall i :: 0 <= i < |steps| ==> Enabled(trace[i], steps[i]) && trace[i + 1] == Next(trace[i], steps[i])
  }

  function Capped(stages: nat): nat {
    if stages < U64_MAX then stages else U64_MAX
  }

  /** What a task remembers is the generation after as many stagings as it saw. */
  predicate Remembers(t: Task, stages: nat) {
    t.HasRead? || t.TimerSet? ==> t.stages <= stages && t.generation == Capped(t.stages)
  }

  /** A call that has seen the latest staging and will still act on it. */
  predicate WillCommit(t: Task, stages: nat) {
    t.HasStaged? || ((t.HasRead? || t.TimerSet?) && t.stages == stages)
  }

  ghost predicate Invariant(s: State) {
    && s.generation == Capped(s.stages)
    && (forall c :: 0 <= c < |s.tasks| ==> Remembers(s.tasks[c], s.stages))
    && (s.pending ==> exists c :: 0 <= c < |s.tasks| && WillCommit(s.tasks[c], s.stages))
  }

  lemma StepKeepsInvariant(s: State, step: Step)
    requires Invariant(s) && Enabled(s, step)
    ensures Invariant(Next(s, step))
  {
    var next := Next(s, step);
    if next.pending {
      if step.Stage? {
        assert WillCommit(next.tasks[|s.tasks|], next.stages);
      } else {
        var c :| 0 <= c < |s.tasks| && WillCommit(s.tasks[c], s.stages);
        assert WillCommit(next.tasks[c], next.stages);
      }
    }
  }

  lemma {:induction false} RunsKeepInvariant(trace: seq<State>, steps: seq<Step>, i: nat)
    requires Run(trace, steps) && i < |trace|
    ensures Invariant(trace[i])
    decreases i
  {
    hide Next, Enabled, Invariant;
    if i == 0 {
      InitialInvariant();
    } else {
      RunsKeepInvariant(trace, steps, i - 1);
      StepKeepsInvariant(trace[i - 1], steps[i - 1]);
    }
  }

  lemma InitialInvariant()
    ensures Invariant(INITIAL)
  {
  }

  /**
   * Whenever paths are pending, either a timer with the current generation is outstanding or a staging
   * call is still about to spawn one.
   */
  lemma PendingHasATimer(trace: seq<State>, steps: seq<Step>, i: nat)
    requires Run(trace, steps) && i < |trace| && trace[i].pending
    ensures exists c :: 0 <= c < |trace[i].tasks|
              && var t := trace[i].tasks[c];
                 t.HasStaged? || ((t.HasRead? || t.TimerSet?) && t.generation == trace[i].generation)
  {
    RunsKeepInvariant(trace, steps, i);
    var c :| 0 <= c < |trace[i].tasks| && WillCommit(trace[i].tasks[c], trace[i].stages);
    assert Remembers(trace[i].tasks[c], trace[i].stages);
  }

  /** Once every call has staged, read, spawned and fired, nothing stays uncommitted. */
  lemma QuiescentMeansCommitted(trace: seq<State>, steps: seq<Step>, i: nat)
    requires Run(trace, steps) && i < |trace| && forall c :: 0 <= c < |trace[i].tasks| ==> trace[i].tasks[c].Finished?
    ensures !trace[i].pending
  {
    RunsKeepInvariant(trace, steps, i);
  }

  /** A timer passes its check exactly when nothing was staged since its generation was read, or at saturation. */
  lemma TimerCommitsIff(trace: seq<State>, steps: seq<Step>, i: nat, c: nat)
    requires Run(trace, steps) && i < |trace| && c < |trace[i].tasks| && trace[i].tasks[c].TimerSet?
    ensures var s, t := trace[i], trace[i].tasks[c];
            && (s.generation == t.generation <==> s.stages == t.stages || t.stages >= U64_MAX)
            && Next(s, FireTimer(c)).commits
               == if s.pending && (s.stages == t.stages || t.stages >= U64_MAX) then s.commits + [s.stages]
                  else s.commits
  {
    RunsKeepInvariant(trace, steps, i);
    assert Remembers(trace[i].tasks[c], trace[i].stages);
  }

  // ---------- saturation ----------

  /** A run goes on with any enabled step. */
  lemma RunGoesOn(trace: seq<State>, steps: seq<Step>, step: Step)
    requires Run(trace, steps) && Enabled(trace[|steps|], step)
    ensures Run(trace + [Next(trace[|steps|], step)], steps + [step])
  {
    hide Next, Enabled;
    var longer, more := trace + [Next(trace[|steps|], step)], steps + [step];
    assert forall i :: 0 <= i < |trace| ==> longer[i] == trace[i];
    assert forall i :: 0 <= i < |steps| ==> more[i] == steps[i];
  }

  /** Any number of stagings in a row, none of which has read the generation yet. */
  lemma {:induction false} StageRepeatedly(n: nat) returns (trace: seq<State>, steps: seq<Step>)
    ensures Run(trace, steps) && |steps| == n
    ensures var s := trace[n];
            s.stages == n && (n > 0 ==> s.pending) && |s.tasks| == n && forall c :: 0 <= c < n ==> s.tasks[c].HasStaged?
    decreases n
  {
    if n == 0 {
      trace, steps := [INITIAL], [];
    } else {
      trace, steps := StageRepeatedly(n - 1);
      RunGoesOn(trace, steps, Stage);
      trace, steps := trace + [Next(trace[n - 1], Stage)], steps + [Stage];
    }
  }

  /** A timer set after `n` stagings that commits although something was staged since. */
  ghost predicate CommitsEarly(trace: seq<State>, steps: seq<Step>, i: nat, c: nat, n: nat) {
    && Run(trace, steps) && i < |trace| && c < |trace[i].tasks| && trace[i].tasks[c].TimerSet?
    && trace[i].tasks[c].stages == n && n < trace[i].stages
    && Next(trace[i], FireTimer(c)).commits == trace[i].commits + [trace[i].stages]
  }

  /** Some run has such a timer exactly when the generation had saturated by then. */
  lemma CommitsEarlyIff(n: nat)
    requires n > 0
    ensures n >= U64_MAX <==> exists trace, steps, i, c :: CommitsEarly(trace, steps, i, c, n)
  {
    if n >= U64_MAX {
      var trace, steps, i := SaturatedRun(n);
      assert CommitsEarly(trace, steps, i, 0, n);
    } else if exists trace, steps, i, c :: CommitsEarly(trace, steps, i, c, n) {
      var trace, steps, i, c :| CommitsEarly(trace, steps, i, c, n);
      TimerCommitsIff(trace, steps, i, c);
    }
  }

  lemma SaturatedRun(n: nat) returns (trace: seq<State>, steps: seq<Step>, i: nat)
    requires n >= U64_MAX
    ensures CommitsEarly(trace, steps, i, 0, n)
  {
    trace, steps := StageRepeatedly(n);
    var s := trace[n];
    var read := Next(s, ReadGeneration(0));
    var spawned := Next(read, SpawnTimer(0));
    var staged := Next(spawned, Stage);
    RunGoesOn(trace, steps, ReadGeneration(0));
    RunGoesOn(trace + [read], steps + [ReadGeneration(0)], SpawnTimer(0));
    RunGoesOn(trace + [read] + [spawned], steps + [ReadGeneration(0)] + [SpawnTimer(0)], Stage);
    trace := trace + [read] + [spawned] + [staged];
    steps, i := steps + [ReadGeneration(0)] + [SpawnTimer(0)] + [Stage], n + 3;
    assert trace[i] == staged;
    TimerCommitsIff(trace, steps, i, 0);
  }

  function Stagings(steps: seq<Step>, i: nat, j: nat): nat
    requires i <= j <= |steps|
  {
    if i == j then 0 else Stagings(steps, i, j - 1) + if steps[j - 1].Stage? then 1 else 0
  }

  /** Along a run the generation counts the stagings: each one raises it, nothing else touches it, until it
    * saturates. */
  lemma {:induction false} GenerationCountsStagings(trace: seq<State>, steps: seq<Step>, i: nat, j: nat)
    requires Run(trace, steps) && i <= j < |trace|
    ensures trace[i].generation <= trace[j].generation && trace[i].stages <= trace[j].stages
    ensures trace[j].stages <= U64_MAX ==>
              trace[j].generation - trace[i].generation == Stagings(steps, i, j)
    decreases j
  {
    hide Invariant;
    RunsKeepInvariant(trace, steps, i);
    RunsKeepInvariant(trace, steps, j);
    GenerationIsCapped(trace[i]);
    GenerationIsCapped(trace[j]);
    if i < j {
      GenerationCountsStagings(trace, steps, i, j - 1);
      RunsKeepInvariant(trace, steps, j - 1);
      GenerationIsCapped(trace[j - 1]);
    }
  }

  lemma GenerationIsCapped(s: State)
    requires Invariant(s)
    ensures s.generation == Capped(s.stages)
  {
  }

  /** The two fields of the batch the timers turn on. */
  ghost predicate Represents(s: State, b: GitPending.Batch) {
    s.generation == b.generation && (s.pending <==> b.pending != {})
  }

  /**
   * These steps are what staging an event with paths, committing, and a timer's guarded commit do to the
   * batch; each commit that has something to do is counted.
   */
  lemma StepsFollowBatch(s: State, b: GitPending.Batch, event: GitPending.Event, cleared: set<Path>, c: nat)
    requires Represents(s, b)
    ensures event.paths != [] ==> Represents(Next(s, Stage), GitPending.Staged(b, event))
    ensures var after := Next(s, CommitNow);
            && Represents(after, if b.pending == {} then b else GitPending.Committed(b, cleared))
            && after.commits == (if b.pending == {} then s.commits else s.commits + [s.stages])
            && after.tasks == s.tasks && after.stages == s.stages
    ensures Enabled(s, FireTimer(c)) ==>
              var after, due := Next(s, FireTimer(c)), b.generation == s.tasks[c].generation && b.pending != {};
              && Represents(after, if due then GitPending.Committed(b, cleared) else b)
              && after.commits == (if due then s.commits + [s.stages] else s.commits)
              && after.tasks[c].Finished? && after.stages == s.stages
  {
    hide Overlay, GitPending.Source;
    if event.paths != [] {
      assert event.paths[0] in GitPending.PathSet(event.paths);
    }
  }

  // ---------- progress ----------

  function Weight(t: Task): nat {
    match t case HasStaged => 3 case HasRead(_, _) => 2 case TimerSet(_, _) => 1 case Finished => 0
  }

  function Remaining(tasks: seq<Task>): nat {
    if tasks == [] then 0 else Weight(tasks[0]) + Remaining(tasks[1..])
  }

  lemma {:induction false} RemainingUpdate(tasks: seq<Task>, c: nat, t: Task)
    requires c < |tasks|
    ensures Remaining(tasks[c := t]) == Remaining(tasks) - Weight(tasks[c]) + Weight(t)
    decreases |tasks|
  {
    if c > 0 {
      RemainingUpdate(tasks[1..], c - 1, t);
      assert tasks[c := t][1..] == tasks[1..][c - 1 := t];
    } else {
      assert tasks[c := t][1..] == tasks[1..];
    }
  }

  lemma {:induction false} RemainingIsZeroIff(tasks: seq<Task>)
    ensures Remaining(tasks) == 0 <==> forall c :: 0 <= c < |tasks| ==> tasks[c].Finished?
    decreases |tasks|
  {
    if tasks != [] {
      RemainingIsZeroIff(tasks[1..]);
      assert forall c :: 1 <= c < |tasks| ==> tasks[c] == tasks[1..][c - 1];
    }
  }

  /** Every unfinished call has an enabled step, and each such step uses up remaining work. */
  lemma CallsProgress(s: State, c: nat)
    requires c < |s.tasks|
    ensures s.tasks[c].Finished?
      || exists step :: step in [ReadGeneration(c), SpawnTimer(c), FireTimer(c)] && Enabled(s, step)
    ensures forall step :: step in [ReadGeneration(c), SpawnTimer(c), FireTimer(c)] && Enabled(s, step) ==>
              Remaining(Next(s, step).tasks) == Remaining(s.tasks) - 1
  {
    hide Remaining;
    RemainingUpdate(s.tasks, c, HasRead(s.generation, s.stages));
    RemainingUpdate(s.tasks, c, Finished);
    match s.tasks[c]
    case HasStaged => assert Enabled(s, ReadGeneration(c))
      && ReadGeneration(c) in [ReadGeneration(c), SpawnTimer(c), FireTimer(c)];
    case HasRead(g, n) =>
      RemainingUpdate(s.tasks, c, TimerSet(g, n));
      assert Enabled(s, SpawnTimer(c)) && SpawnTimer(c) in [ReadGeneration(c), SpawnTimer(c), FireTimer(c)];
    case TimerSet(g, n) =>
      assert Enabled(s, FireTimer(c)) && FireTimer(c) in [ReadGeneration(c), SpawnTimer(c), FireTimer(c)];
    case Finished =>
  }

  /** Without new stagings a run of call steps ends after `Remaining` steps, with nothing pending. */
  lemma {:induction false} QuietRunsCommitEverything(trace: seq<State>, steps: seq<Step>, from: nat)
    requires Run(trace, steps) && from < |trace|
    requires forall k :: from <= k < |steps| ==> !steps[k].Stage? && !steps[k].CommitNow?
    ensures |steps| - from <= Remaining(trace[from].tasks)
    ensures |steps| - from == Remaining(trace[from].tasks) ==> !trace[|steps|].pending
    decreases |steps| - from
  {
    hide Next, Invariant, Remaining;
    if from == |steps| {
      RemainingIsZeroIff(trace[from].tasks);
      if Remaining(trace[from].tasks) == 0 {
        QuiescentMeansCommitted(trace, steps, from);
      }
    } else {
      var c := steps[from].call;
      CallsProgress(trace[from], c);
      QuietRunsCommitEverything(trace, steps, from + 1);
    }
  }
}
