/** Whole runs of the pending batch with crashes at any point, and what recovery then guarantees. */
module GitRecovery {
  import opened Text
  import opened GitPaths
  import opened GitCommit
  import opened GitPending

  /** The service's calls, complete or cut short, and everything outside it that changes the vault. */
  datatype Step =
    | StageAll(event: Event)
    | StageSome(event: Event, recorded: nat, processed: nat)
    | Commit(cleared: set<Path>)
    | Recover(stop: Stop)
    | Crash
    | Edit(worktree: Worktree)
    | OperatorStages(index: Tree)
    | OperatorCommits(head: Tree)

  /**
   * `owed` holds the paths the service staged at which HEAD has differed from the index ever since, and
   * `held` the files at or below a staged path other than the root of which the same is true.
   */
  datatype Tracked = Tracked(batch: Batch, owed: set<Path>, held: set<Path>)

  predicate Enabled(b: Batch, step: Step) {
    match step
    case StageAll(event) => AllStageable(event, event.paths, b.worktree, b.refuses)
    case StageSome(event, recorded, processed) =>
      && processed <= recorded <= |event.paths| && recorded <= processed + 1
      && AllStageable(event, event.paths[..processed], b.worktree, b.refuses)
    case Commit(cleared) => b.pending != {} && cleared <= b.pending
    case Recover(stop) => StopPossible(b, stop)
    case _ => true
  }

  ghost function After(b: Batch, step: Step): Batch
    requires Enabled(b, step)
  {
    match step
    case StageAll(event) => Staged(b, event)
    case StageSome(event, recorded, processed) => PartlyStaged(b, event, recorded, processed)
    case Commit(cleared) => Committed(b, cleared)
    case Recover(stop) => PartlyRecovered(b, stop)
    case Crash => b.(pending := {}, events := [], generation := 0)
    case Edit(worktree) => b.(worktree := worktree)
    case OperatorStages(index) => b.(index := index)
    case OperatorCommits(head) => b.(head := head)
  }

  /** Those of the paths whose staged state is not in HEAD. */
  function Uncommitted(b: Batch, paths: set<Path>): set<Path> {
    set p | p in paths && Lookup(b.head, p) != Lookup(b.index, p)
  }

  /** Files of HEAD or the index at or below one of the paths. */
  function FilesWithin(b: Batch, paths: set<Path>): set<Path> {
    set q | q in b.head.Keys + b.index.Keys && WithinAny(q, paths)
  }

  function StagedPaths(step: Step): set<Path> {
    if step.StageAll? then PathSet(step.event.paths) else {}
  }

  ghost function Next(t: Tracked, step: Step): Tracked
    requires Enabled(t.batch, step)
  {
    var b := After(t.batch, step);
    Tracked(b, Uncommitted(b, t.owed + StagedPaths(step)),
            Uncommitted(b, t.held + FilesWithin(b, StagedPaths(step) - {[]})))
  }

  ghost predicate Run(trace: seq<Tracked>, steps: seq<Step>) {
    && |trace| == |steps| + 1 && trace[0].owed == {} && trace[0].held == {}
    && forall i :: 0 <= i < |steps| ==> Enabled(trace[i].batch, steps[i]) && trace[i + 1] == Next(trace[i], steps[i])
  }

  // ---------- markers over whole runs ----------

  /** Every owed path without a backslash has its durable marker. */
  ghost predicate PlainOwedAreMarked(t: Tracked) {
    forall p :: p in t.owed && Plain(p) ==> p in t.batch.markers
  }

  /** A step never leaves a staged, uncommitted path without its durable marker, backslashes aside. */
  lemma StepKeepsMarkers(t: Tracked, step: Step)
    requires PlainOwedAreMarked(t) && Enabled(t.batch, step)
    ensures PlainOwedAreMarked(Next(t, step))
  {
    hide Overlay, Lookup, WithinAny, Files, Source, PathSet, Plain, CommittedTree, FilesWithin;
    match step
    case Commit(cleared) => CommitSettles(t.batch, cleared);
    case Recover(stop) => RecoverySettles(t.batch, stop);
    case _ =>
  }

  /** Once committed, a pending path without a backslash no longer differs from the index, and nothing below it does. */
  lemma CommitSettles(b: Batch, cleared: set<Path>)
    ensures forall p, q :: p in b.pending && p != [] && p <= q && Plain(q) ==>
              Lookup(Committed(b, cleared).head, q) == Lookup(b.index, q)
    ensures forall p :: p in b.pending && Plain(p) ==> Lookup(Committed(b, cleared).head, p) == Lookup(b.index, p)
  {
    hide Overlay, CommittedTree, EffectOf, WithinAny;
    forall p, q | p in b.pending && p != [] && p <= q && Plain(q)
      ensures Lookup(Committed(b, cleared).head, q) == Lookup(b.index, q)
    {
      PlainSettles(b.pending, p, q);
      CommittedTreeAt(b.head, b.index, b.pending, q);
    }
    forall p | p in b.pending && Plain(p) ensures p != [] && p <= p {
    }
  }

  lemma RecoverySettles(b: Batch, stop: Stop)
    requires StopPossible(b, stop)
    ensures var after := PartlyRecovered(b, stop);
            forall p :: p in b.markers && p !in after.markers && Plain(p)
              ==> Lookup(after.head, p) == Lookup(after.index, p)
  {
    hide Overlay, Lookup, WithinAny, Files, CommittedTree, Plain;
    var synced := Resynced(b);
    if stop.AfterCommit? {
      var adopted := Adopted(synced);
      CommitSettles(adopted, stop.cleared);
      forall p | p in Stale(synced) && Plain(p)
        ensures Lookup(Committed(adopted, stop.cleared).head, p) == Lookup(synced.index, p)
      {
        CommitKeepsSettled(adopted, p);
      }
    }
  }

  /** A commit without the root pending never unsettles a file without a backslash. */
  lemma CommitKeepsSettled(b: Batch, p: Path)
    requires Plain(p) && [] !in b.pending && Lookup(b.head, p) == Lookup(b.index, p)
    ensures Lookup(CommittedTree(b.head, b.index, b.pending), p) == Lookup(b.index, p)
  {
    hide CommittedTree, EffectOn, WithinAny;
    CommittedTreeAt(b.head, b.index, b.pending, p);
    PlainNeverDrops(Ascending(b.pending), p);
  }

  /** In every run, whatever is interrupted: each staged path without a backslash, not yet in HEAD, has a durable
    * marker. */
  lemma {:induction false} NothingIsLost(trace: seq<Tracked>, steps: seq<Step>, i: nat)
    requires Run(trace, steps) && i < |trace|
    ensures PlainOwedAreMarked(trace[i])
    decreases i
  {
    hide Next, Enabled, PlainOwedAreMarked;
    if i == 0 {
      NothingOwed(trace[0]);
    } else {
      NothingIsLost(trace, steps, i - 1);
      StepKeepsMarkers(trace[i - 1], steps[i - 1]);
    }
  }

  lemma NothingOwed(t: Tracked)
    requires t.owed == {}
    ensures PlainOwedAreMarked(t)
  {
  }

  /** A path and the directories above it. */
  function Ancestry(p: Path): set<Path> {
    set n | 0 < n <= |p| :: p[..n]
  }

  /** A file that stands in its directories, and nothing else. */
  function OneFile(p: Path, text: string): Worktree {
    map q | q in Ancestry(p) :: if q == p then File(Utf8(text)) else Directory
  }

  lemma OneFileIs(p: Path, text: string)
    requires p != []
    ensures ParentClosed(OneFile(p, text)) && Exists(OneFile(p, text), p)
    ensures Files(OneFile(p, text)) == map[p := Utf8(text)]
  {
    var w := OneFile(p, text);
    assert p[..|p|] == p;
    forall q, n | q in w && 0 < n < |q| ensures q[..n] in w && w[q[..n]].Directory? {
      assert q[..n] == p[..n];
    }
  }

  /** Staging one new file and committing it, with every storage step done. */
  ghost function StageAndCommit(p: Path): seq<Tracked> {
    var start := Tracked(Batch(map[], map[], OneFile(p, "x"), {}, {}, [], 0, RefusesNothing), {}, {});
    assert Enabled(start.batch, StageAll(Event(Change, [p]))) by {
      if p != [] { OneFileIs(p, "x"); }
    }
    var staged := Next(start, StageAll(Event(Change, [p])));
    assert Enabled(staged.batch, Commit({p})) by { assert [p][0] == p; assert p in PathSet([p]); }
    [start, staged, Next(staged, Commit({p}))]
  }

  /** A file with a backslash in its path, staged and committed: HEAD lacks it and its marker is gone. */
  lemma BackslashFileIsForgotten(p: Path)
    requires p != [] && !Plain(p)
    ensures var trace := StageAndCommit(p);
            && Run(trace, [StageAll(Event(Change, [p])), Commit({p})])
            && p in trace[2].owed && p !in trace[2].batch.markers
            && Lookup(trace[2].batch.head, p) == None && Lookup(trace[2].batch.index, p) == Some(Utf8("x"))
  {
    hide Overlay, CommittedTree, EffectOf, Files, OneFile, Plain, FilesWithin;
    var trace := StageAndCommit(p);
    assert [p][0] == p && PathSet([p]) == {p};
    OneFileIs(p, "x");
    var staged := trace[1].batch;
    OverlayAt(map[], Files(OneFile(p, "x")), {p}, p);
    SelfWithin(p, {p});
    assert Lookup(staged.index, p) == Some(Utf8("x"));
    assert staged.pending == {p};
    CommittedTreeAt(map[], staged.index, {p}, p);
    OddAloneIsDropped(p);
  }

  lemma OddAloneIsDropped(p: Path)
    requires p != [] && !Plain(p)
    ensures EffectOf({p}, p) == Dropped
  {
    hide EffectOn, Plain;
    var order := Ascending({p});
    AscendingIncreases({p});
    var i := LastOdd(order);
    assert order[i] in order;
    LastOddDropsItself(order, i);
  }

  /** In particular `a\b.md`. */
  lemma BackslashFileExample()
    ensures var p: Path := ["a\\b.md"];
            p != [] && !Plain(p) && Lookup(StageAndCommit(p)[2].batch.head, p) == None
            && p !in StageAndCommit(p)[2].batch.markers
  {
    var p: Path := ["a\\b.md"];
    assert p[0][1] == '\\';
    BackslashFileIsForgotten(p);
  }

  /** The exact condition: a path keeps its marker while it is owed, in all runs, just when it holds no backslash. */
  lemma MarkedIff(p: Path)
    requires p != []
    ensures Plain(p) <==>
            forall trace: seq<Tracked>, steps: seq<Step>, i: nat ::
              Run(trace, steps) && i < |trace| && p in trace[i].owed ==> p in trace[i].batch.markers
  {
    hide Run, Plain, StageAndCommit;
    if Plain(p) {
      forall trace: seq<Tracked>, steps: seq<Step>, i: nat | Run(trace, steps) && i < |trace| && p in trace[i].owed
        ensures p in trace[i].batch.markers
      {
        NothingIsLost(trace, steps, i);
      }
    } else {
      BackslashFileIsForgotten(p);
      assert |StageAndCommit(p)| == 3 by { TraceLength(p); }
    }
  }

  lemma TraceLength(p: Path)
    ensures |StageAndCommit(p)| == 3
  {
    hide Next;
  }

  // ---------- files below staged directories ----------

  /** Every held file without a backslash has a marker at or above it. */
  ghost predicate PlainHeldAreCovered(t: Tracked) {
    forall q :: q in t.held && Plain(q) ==> HasMarkerAbove(t.batch.markers, q)
  }

  ghost predicate HasMarkerAbove(markers: set<Path>, q: Path) {
    exists m :: m in markers && m != [] && m <= q
  }

  lemma StepKeepsCover(t: Tracked, step: Step)
    requires PlainHeldAreCovered(t) && Enabled(t.batch, step) && !step.Recover?
    ensures PlainHeldAreCovered(Next(t, step))
  {
    hide Overlay, Lookup, Files, Source, PathSet, Plain, CommittedTree;
    var next := Next(t, step);
    if step.Commit? {
      CommitSettles(t.batch, step.cleared);
    }
    forall q | q in next.held && Plain(q) ensures HasMarkerAbove(next.batch.markers, q) {
      if q in t.held {
        var m :| m in t.batch.markers && m != [] && m <= q;
        assert m in next.batch.markers;
      } else {
        var m :| m in StagedPaths(step) - {[]} && m <= q;
        assert m in next.batch.markers;
      }
    }
  }

  /**
   * In every run without a recovery, whatever is interrupted: each file without a backslash at or below a
   * staged path, as long as HEAD does not have its staged state, has a durable marker at or above it.
   */
  lemma {:induction false} NothingBelowIsLost(trace: seq<Tracked>, steps: seq<Step>, i: nat)
    requires Run(trace, steps) && i < |trace| && forall k :: 0 <= k < i ==> !steps[k].Recover?
    ensures PlainHeldAreCovered(trace[i])
    decreases i
  {
    hide Next, Enabled, HasMarkerAbove;
    if i > 0 {
      NothingBelowIsLost(trace, steps, i - 1);
      StepKeepsCover(trace[i - 1], steps[i - 1]);
    }
  }

  // ---------- one commit ----------

  /**
   * Where the commit follows its paths, it takes what was staged, and only within them: later edits do
   * not leak in, and what the operator staged elsewhere stays staged and uncommitted.
   */
  lemma CommitTakesStagedState(b: Batch, event: Event, edited: Worktree, cleared: set<Path>, q: Path)
    requires FollowsPaths(b.pending + PathSet(event.paths), q)
    ensures var after := Committed(Staged(b, event).(worktree := edited), cleared);
            && Lookup(after.head, q)
               == (if WithinAny(q, PathSet(event.paths)) then Lookup(Source(event, b.worktree), q)
                   else if WithinAny(q, b.pending) then Lookup(b.index, q)
                   else Lookup(b.head, q))
            && (!WithinAny(q, PathSet(event.paths)) ==> Lookup(after.index, q) == Lookup(b.index, q))
  {
    hide Overlay, Lookup, WithinAny, Source, PathSet, FollowsPaths, CommittedTree;
    var touched := PathSet(event.paths);
    var staged := Overlay(b.index, Source(event, b.worktree), touched);
    OverlayAt(b.index, Source(event, b.worktree), touched, q);
    FollowsPathsIff(b.pending + touched, q);
    assert Lookup(CommittedTree(b.head, staged, b.pending + touched), q)
      == Lookup(Overlay(b.head, staged, b.pending + touched), q);
    OverlayAt(b.head, staged, b.pending + touched, q);
    WithinUnion(q, b.pending, touched);
  }

  lemma WithinUnion(q: Path, some: set<Path>, more: set<Path>)
    ensures WithinAny(q, some + more) <==> WithinAny(q, some) || WithinAny(q, more)
  {
    forall p | p in some + more ensures p in some || p in more {
    }
  }

  // ---------- what a completed recovery does ----------

  /** The recorded paths that differ between HEAD and the working tree by their own entry: what a recovery commits. */
  function Changed(b: Batch): set<Path> {
    set r | r in b.markers && Lookup(b.head, r) != Lookup(Files(b.worktree), r)
  }

  lemma ResyncedAt(b: Batch, q: Path)
    ensures Lookup(Resynced(b).index, q)
      == if WithinAny(q, b.markers) then Lookup(Files(b.worktree), q) else Lookup(b.index, q)
  {
    hide Overlay, Lookup, WithinAny, Files;
    OverlayAt(b.index, Files(b.worktree), b.markers, q);
  }

  lemma AdoptedIsChanged(b: Batch)
    ensures Adopted(Resynced(b)).pending == Changed(b) && Stale(Resynced(b)) == b.markers - Changed(b)
  {
    hide Overlay, Lookup, Files, WithinAny;
    var synced := Resynced(b);
    forall r | r in b.markers ensures r in Stale(synced) <==> r !in Changed(b) {
      ResyncedAt(b, r);
      SelfWithin(r, b.markers);
    }
  }

  /** The exact effect of a completed recovery at every path: HEAD, the index and the working tree. */
  lemma RecoveryIs(b: Batch, stop: Stop, q: Path)
    requires StopPossible(b, stop) && Complete(b, stop)
    ensures var after := PartlyRecovered(b, stop);
            && Lookup(after.head, q) == CommittedAt(b.head, Resynced(b).index, Changed(b), q)
            && Lookup(after.index, q)
               == (if WithinAny(q, b.markers) then Lookup(Files(b.worktree), q) else Lookup(b.index, q))
            && after.worktree == b.worktree
  {
    hide Overlay, Lookup, Files, WithinAny, CommittedTree, CommittedAt;
    ResyncedAt(b, q);
    AdoptedIsChanged(b);
    var synced := Resynced(b);
    match stop
    case BeforeIndexWrite =>
      NoCommit(b.head, synced.index, q);
      NothingWithin(q);
      assert Changed(b) == {};
    case Clearing(removed) =>
      NoCommit(b.head, synced.index, q);
      assert Changed(b) == {};
    case BeforeCommit => assert false;
    case AfterCommit(cleared) => CommittedTreeAt(b.head, synced.index, Changed(b), q);
  }

  lemma NoCommit(head: Tree, index: Tree, q: Path)
    ensures CommittedAt(head, index, {}, q) == Lookup(head, q)
  {
    hide Lookup;
    NothingWithin(q);
  }

  /**
   * Within the recorded paths HEAD agrees with the working tree afterwards exactly when: a present file is
   * taken by the last recorded change that touches it, or is untouched and agreed before; an absent one
   * lies within a recorded change or was absent before.
   */
  lemma RecoveryAgreesIff(b: Batch, stop: Stop, q: Path)
    requires StopPossible(b, stop) && Complete(b, stop) && WithinAny(q, b.markers)
    ensures var here, effect := Lookup(Files(b.worktree), q), EffectOf(Changed(b), q);
            Lookup(PartlyRecovered(b, stop).head, q) == here <==>
            if here.Some? then effect == Taken || (effect == Untouched && Lookup(b.head, q) == here)
            else WithinAny(q, Changed(b)) || Lookup(b.head, q) == None
  {
    hide PartlyRecovered, Files, StopPossible, Complete, WithinAny, EffectOf, Resynced, Changed;
    RecoveryIs(b, stop, q);
    ResyncedAt(b, q);
  }

  /** A recorded path without a backslash always agrees afterwards. */
  lemma RecordedAgrees(b: Batch, stop: Stop, r: Path)
    requires StopPossible(b, stop) && Complete(b, stop) && r in b.markers && Plain(r)
    ensures Lookup(PartlyRecovered(b, stop).head, r) == Lookup(Files(b.worktree), r)
    ensures Lookup(PartlyRecovered(b, stop).index, r) == Lookup(Files(b.worktree), r)
  {
    hide PartlyRecovered, Lookup, Files, WithinAny, EffectOf, Resynced, Plain, Stale, Adopted;
    SelfWithin(r, b.markers);
    RecoveryAgreesIff(b, stop, r);
    RecoveryIs(b, stop, r);
    if r in Changed(b) {
      PlainRoot(r);
      PlainSettles(Changed(b), r, r);
    } else {
      CompleteIsReadable(b, stop);
      PlainKeeps(Changed(b), r);
    }
    WithinAbsent(b, r);
  }

  lemma PlainRoot(r: Path)
    requires Plain(r)
    ensures r != [] && r <= r
  {
  }

  lemma PlainKeeps(paths: set<Path>, r: Path)
    requires Plain(r) && [] !in paths
    ensures EffectOf(paths, r) != Dropped
  {
    hide EffectOn;
    PlainNeverDrops(Ascending(paths), r);
  }

  lemma CompleteIsReadable(b: Batch, stop: Stop)
    requires StopPossible(b, stop) && Complete(b, stop)
    ensures [] !in Changed(b) && MarkersReadable(b.markers)
  {
    hide Lookup, Files, Resynced, Stale;
  }

  lemma WithinAbsent(b: Batch, r: Path)
    requires r in b.markers
    ensures r in Changed(b) || Lookup(b.head, r) == Lookup(Files(b.worktree), r)
  {
  }

  /**
   * If no recorded path holds a backslash: within them HEAD agrees exactly when it did before or a recorded
   * path at or above is itself a changed file.
   */
  lemma PlainRecoveryAgreesIff(b: Batch, stop: Stop, q: Path)
    requires StopPossible(b, stop) && Complete(b, stop) && WithinAny(q, b.markers) && AllPlain(b.markers)
    ensures Lookup(PartlyRecovered(b, stop).head, q) == Lookup(Files(b.worktree), q) <==>
            Lookup(b.head, q) == Lookup(Files(b.worktree), q) || WithinAny(q, Changed(b))
  {
    hide PartlyRecovered, Lookup, Files, StopPossible, Complete, WithinAny, EffectOf, Resynced, Plain;
    RecoveryAgreesIff(b, stop, q);
    PlainFollows(Changed(b), q);
    AbsentIsNone(Lookup(Files(b.worktree), q));
  }

  lemma AbsentIsNone(here: Option<Blob>)
    ensures here.Some? || here == None
  {
  }

  /** The exact condition: a recorded path agrees after every completed recovery just when it holds no backslash. */
  lemma RecordedAgreesIff(r: Path)
    requires r != [] && r[0] != ".git"
    ensures Plain(r) <==>
            forall b: Batch, stop: Stop :: StopPossible(b, stop) && Complete(b, stop) && r in b.markers ==>
              Lookup(PartlyRecovered(b, stop).head, r) == Lookup(Files(b.worktree), r)
  {
    hide PartlyRecovered, Files, StopPossible, Complete, Plain;
    if Plain(r) {
      forall b: Batch, stop: Stop | StopPossible(b, stop) && Complete(b, stop) && r in b.markers
        ensures Lookup(PartlyRecovered(b, stop).head, r) == Lookup(Files(b.worktree), r)
      {
        RecordedAgrees(b, stop, r);
      }
    } else {
      BackslashIsNotRecovered(r);
    }
  }

  /** An interrupted new file with a backslash: the recovery completes without it. */
  lemma BackslashIsNotRecovered(r: Path)
    requires r != [] && r[0] != ".git" && !Plain(r)
    ensures var b := Batch(map[], map[], OneFile(r, "x"), {r}, {}, [], 0, RefusesNothing);
            && StopPossible(b, AfterCommit({r})) && Complete(b, AfterCommit({r}))
            && Lookup(PartlyRecovered(b, AfterCommit({r})).head, r) != Lookup(Files(b.worktree), r)
            && PartlyRecovered(b, AfterCommit({r})).markers == {}
  {
    hide Files, EffectOf, Plain, OneFile, Overlay, CommittedTree;
    var b := Batch(map[], map[], OneFile(r, "x"), {r}, {}, [], 0, RefusesNothing);
    OneFileIs(r, "x");
    AdoptedIsChanged(b);
    assert Changed(b) == {r};
    SelfWithin(r, b.markers);
    OddAloneIsDropped(r);
    RecoveryAgreesIff(b, AfterCommit({r}), r);
  }

  /**
   * Outside the recorded paths the index is as it was, and HEAD too, exactly unless some recorded change
   * captures the entry by its text and the operator's staged state differs from HEAD.
   */
  lemma OperatorStagingSurvivesIff(b: Batch, stop: Stop, q: Path)
    requires StopPossible(b, stop) && Complete(b, stop) && !WithinAny(q, b.markers)
    ensures Lookup(PartlyRecovered(b, stop).index, q) == Lookup(b.index, q)
    ensures Lookup(PartlyRecovered(b, stop).head, q) == Lookup(b.head, q) <==>
            q !in b.index || Lookup(b.index, q) == Lookup(b.head, q) || !exists p :: p in Changed(b) && Captures(p, q)
  {
    hide PartlyRecovered, Files, StopPossible, Complete, WithinAny, EffectOf, Resynced, Changed, Captures;
    RecoveryIs(b, stop, q);
    ResyncedAt(b, q);
    ChangedIsRecorded(b, q);
    OutsideIsCapturedIff(Changed(b), q);
  }

  lemma ChangedIsRecorded(b: Batch, q: Path)
    ensures WithinAny(q, Changed(b)) ==> WithinAny(q, b.markers)
  {
    hide Lookup, Files;
  }

  /** An entry outside the pending paths is taken just when one of them captures it by its text. */
  lemma OutsideIsCapturedIff(paths: set<Path>, q: Path)
    requires !WithinAny(q, paths)
    ensures EffectOf(paths, q) == if exists p :: p in paths && Captures(p, q) then Taken else Untouched
  {
    hide EffectOn, Captures;
    var order := Ascending(paths);
    forall p | p in order ensures !(p <= q) {
      assert p in paths;
    }
    OutsideEffect(order, q);
    if exists p :: p in order && Captures(p, q) {
      var p :| p in order && Captures(p, q);
      assert p in paths && Captures(p, q);
    }
  }

  lemma {:induction false} OutsideEffect(order: seq<Path>, q: Path)
    requires forall p :: p in order ==> !(p <= q)
    ensures EffectOn(order, q) == if exists p :: p in order && Captures(p, q) then Taken else Untouched
    decreases |order|
  {
    hide Captures;
    if order != [] {
      var shorter, last := order[..|order| - 1], order[|order| - 1];
      assert order == shorter + [last];
      assert last in order && forall p :: p in shorter ==> p in order;
      OutsideEffect(shorter, q);
      if exists p :: p in shorter && Captures(p, q) {
        var p :| p in shorter && Captures(p, q);
        assert p in order && Captures(p, q);
      }
    }
  }

  lemma SlashCapturesBackslash(p: Path, q: Path)
    requires p == ["a\\b"] && q == ["a", "b"]
    ensures Captures(p, q) && !(p <= q)
  {
    assert |p| == 1 && p[0] == "a\\b" && q[0] == "a" && |"a"| != |"a\\b"|;
    assert q[1..] == ["b"] && Render(["b"]) == "b";
    assert Render(q) == "a/b" && Render(p) == "a\\b";
    NormaliseIs("a\\b");
    assert Normalise("a\\b") == "a/b";
  }

  /** The operator's staged `a/b` is committed by the recovery of a new file named `a\b`. */
  lemma OperatorStagingCaptured()
    ensures var p: Path, q: Path := ["a\\b"], ["a", "b"];
            var head, index := map[q := Utf8("HEAD")], map[q := Utf8("index")];
            var b := Batch(head, index, OneFile(p, "x"), {p}, {}, [], 0, RefusesNothing);
            && StopPossible(b, AfterCommit({p})) && Complete(b, AfterCommit({p})) && !WithinAny(q, b.markers)
            && Lookup(PartlyRecovered(b, AfterCommit({p})).head, q) == Some(Utf8("index"))
  {
    hide Files, OneFile, Overlay, CommittedTree, EffectOf, PartlyRecovered, Captures;
    var p: Path, q: Path := ["a\\b"], ["a", "b"];
    var b := Batch(map[q := Utf8("HEAD")], map[q := Utf8("index")], OneFile(p, "x"), {p}, {}, [], 0, RefusesNothing);
    SlashCapturesBackslash(p, q);
    assert p[0] == "a\\b" && "a\\b"[0] != ".git"[0];
    OneFileIs(p, "x");
    AdoptedIsChanged(b);
    assert p != q && Changed(b) == {p};
    OutsideIsCapturedIff(Changed(b), q);
    assert p in Changed(b) && Captures(p, q);
    ResyncedAt(b, q);
    RecoveryIs(b, AfterCommit({p}), q);
  }

  // ---------- when a recovery can complete ----------

  ghost predicate CanComplete(b: Batch) {
    exists stop :: StopPossible(b, stop) && Complete(b, stop)
  }

  /** The exact condition on the state: every marker is readable and the library takes what stands there. */
  lemma CanCompleteIff(b: Batch)
    ensures CanComplete(b) <==> Recoverable(b)
  {
    hide Overlay, Lookup, Files, Recoverable, Stale, Resynced;
    var stale := Stale(Resynced(b));
    if b.markers == {} {
      assert StopPossible(b, BeforeIndexWrite) && Complete(b, BeforeIndexWrite);
      NoMarkersRecoverable(b);
    } else if Recoverable(b) && b.markers - stale == {} {
      assert forall p :: p in b.markers ==> p in stale by {
        forall p | p in b.markers ensures p in stale {
          assert p !in b.markers - stale;
        }
      }
      assert StopPossible(b, Clearing(b.markers)) && Complete(b, Clearing(b.markers));
    } else if Recoverable(b) {
      assert StopPossible(b, AfterCommit({})) && Complete(b, AfterCommit({}));
    }
  }

  lemma NoMarkersRecoverable(b: Batch)
    requires b.markers == {}
    ensures Recoverable(b)
  {
  }

  /** The paths a step writes markers for. */
  function Recorded(step: Step): set<Path> {
    match step
    case StageAll(event) => PathSet(event.paths)
    case StageSome(event, recorded, _) => PathSet(event.paths[..if recorded <= |event.paths| then recorded else 0])
    case _ => {}
  }

  /** The paths a step takes into the pending batch. */
  function Processed(step: Step): set<Path> {
    match step
    case StageAll(event) => PathSet(event.paths)
    case StageSome(event, _, processed) => PathSet(event.paths[..if processed <= |event.paths| then processed else 0])
    case _ => {}
  }

  /** A marker no recovery can read, and no commit will clear. */
  predicate Stuck(b: Batch, p: Path) {
    p in b.markers && p !in b.pending && !ReadableMarker(p)
  }

  /** Such a marker outlives every step but one that stages its path after all. */
  lemma StuckStaysIff(b: Batch, step: Step, p: Path)
    requires Enabled(b, step) && Stuck(b, p)
    ensures Stuck(After(b, step), p) <==> p !in Processed(step)
  {
    hide Overlay, Lookup, Files, CommittedTree, Source, PathSet, LibraryAccepts, AllStageable, ReadableMarker;
  }

  /** From then on no recovery completes, restart after restart, until that path is staged again. */
  lemma {:induction false} StuckBlocksRecovery(trace: seq<Tracked>, steps: seq<Step>, i: nat, j: nat, p: Path)
    requires Run(trace, steps) && i <= j < |trace| && Stuck(trace[i].batch, p)
    requires forall k :: i <= k < j ==> p !in Processed(steps[k])
    ensures Stuck(trace[j].batch, p) && !CanComplete(trace[j].batch)
    decreases j
  {
    hide After, Enabled, Processed, CanComplete, Stuck, FilesWithin, Uncommitted, StagedPaths;
    if i < j {
      StuckBlocksRecovery(trace, steps, i, j - 1, p);
      StuckStaysIff(trace[j - 1].batch, steps[j - 1], p);
    }
    StuckIsUnreadable(trace[j].batch, p);
    CanCompleteIff(trace[j].batch);
  }

  lemma StuckIsUnreadable(b: Batch, p: Path)
    requires Stuck(b, p)
    ensures !Recoverable(b)
  {
  }

  function RefusesGit(w: Worktree, p: Path): bool {
    p != [] && p[0] == ".git"
  }

  function NoteAndGitFile(): Worktree {
    map[["a.md"] := File(Utf8("x")), [".git"] := Directory, [".git", "x"] := File(Utf8("x"))]
  }

  function StageNote(): Step {
    StageAll(Event(Change, [["a.md"]]))
  }

  function StageGitFile(): Step {
    StageSome(Event(Change, [[".git", "x"]]), 1, 0)
  }

  /** A note is staged, then a file in `.git`, which the library refuses, and the process ends. */
  ghost function GitFileStaged(): (trace: seq<Tracked>)
    ensures |trace| == 4
  {
    var start := Tracked(Batch(map[], map[], NoteAndGitFile(), {}, {}, [], 0, RefusesGit), {}, {});
    assert Enabled(start.batch, StageNote()) by { NoteIsFile(); }
    var noted := Next(start, StageNote());
    var refused := Next(noted, StageGitFile());
    [start, noted, refused, Next(refused, Crash)]
  }

  lemma NoteIsFile()
    ensures Exists(NoteAndGitFile(), ["a.md"]) && !RefusesGit(NoteAndGitFile(), ["a.md"])
    ensures !Stageable(Event(Change, [[".git", "x"]]), [".git", "x"], NoteAndGitFile(), RefusesGit)
    ensures Lookup(Files(NoteAndGitFile()), ["a.md"]) == Some(Utf8("x"))
  {
    assert "a.md"[0] != ".git"[0];
  }

  /** The note's staged state is owed, and no recovery can complete. */
  lemma GitFileBlocksRecovery()
    ensures var trace := GitFileStaged();
            && Run(trace, [StageNote(), StageGitFile(), Crash])
            && ["a.md"] in trace[3].owed && !CanComplete(trace[3].batch)
  {
    hide After, FilesWithin, Uncommitted, CanComplete, Recoverable, Stuck;
    NoteIsOwed();
    GitFileIsStuck();
    StuckIsUnreadable(GitFileStaged()[3].batch, [".git", "x"]);
    CanCompleteIff(GitFileStaged()[3].batch);
  }

  lemma GitFileIsStuck()
    ensures Stuck(GitFileStaged()[3].batch, [".git", "x"])
  {
    hide Overlay, Files, Lookup, FilesWithin, Uncommitted, NoteAndGitFile;
    var note: Path, file: Path := ["a.md"], [".git", "x"];
    assert [note][0] == note && PathSet([note]) == {note};
    assert [file][..1][0] == file && file in PathSet([file][..1]);
    assert "a.md"[0] != ".git"[0];
  }

  lemma NoteIsOwed()
    ensures ["a.md"] in GitFileStaged()[3].owed
  {
    hide Overlay, Files, Lookup, FilesWithin, NoteAndGitFile;
    var trace := GitFileStaged();
    var note: Path := ["a.md"];
    assert [note][0] == note && PathSet([note]) == {note};
    NoteIsFile();
    OverlayAt(map[], Files(NoteAndGitFile()), {note}, note);
    SelfWithin(note, {note});
    LookupIs<Blob>(map[], note);
    assert note in trace[1].owed;
  }

  lemma StepKeepsReadable(b: Batch, step: Step)
    requires Enabled(b, step) && MarkersReadable(b.markers) && MarkersReadable(Recorded(step))
    ensures MarkersReadable(After(b, step).markers)
  {
    hide Overlay, Lookup, Files, CommittedTree, Source, PathSet, LibraryAccepts, AllStageable, ReadableMarker;
  }

  /** While only readable paths are recorded, every marker stays readable. */
  lemma {:induction false} MarkersStayReadable(trace: seq<Tracked>, steps: seq<Step>, i: nat)
    requires Run(trace, steps) && i < |trace| && MarkersReadable(trace[0].batch.markers)
    requires forall k :: 0 <= k < i ==> MarkersReadable(Recorded(steps[k]))
    ensures MarkersReadable(trace[i].batch.markers)
    decreases i
  {
    hide After, Enabled, Recorded, MarkersReadable, FilesWithin, Uncommitted, StagedPaths;
    if i > 0 {
      MarkersStayReadable(trace, steps, i - 1);
      StepKeepsReadable(trace[i - 1].batch, steps[i - 1]);
    }
  }

  /**
   * The exact condition on what is staged: whenever the process dies, with the library taking what stands
   * at the recorded paths, a recovery can complete, if and only if none of these paths is the root or
   * lies in `.git`.
   */
  lemma RecoveryCompletesIff(paths: set<Path>)
    ensures MarkersReadable(paths) <==>
            forall trace: seq<Tracked>, steps: seq<Step>, i: nat ::
              RunWithin(trace, steps, i, paths) && LibraryAccepts(trace[i].batch) ==> CanComplete(trace[i].batch)
  {
    hide RunWithin, CanComplete, LibraryAccepts, ReadableMarker, Recorded;
    if MarkersReadable(paths) {
      forall trace: seq<Tracked>, steps: seq<Step>, i: nat |
        RunWithin(trace, steps, i, paths) && LibraryAccepts(trace[i].batch)
        ensures CanComplete(trace[i].batch)
      {
        RunWithinIsReadable(trace, steps, i, paths);
        CanCompleteIff(trace[i].batch);
      }
    } else {
      var p :| p in paths && !ReadableMarker(p);
      UnreadableInterrupted(p, paths);
    }
  }

  /** The first `i` steps of a run from a vault without markers record only these paths. */
  ghost predicate RunWithin(trace: seq<Tracked>, steps: seq<Step>, i: nat, paths: set<Path>)
    ensures RunWithin(trace, steps, i, paths) ==> i < |trace|
  {
    && Run(trace, steps) && i < |trace| && trace[0].batch.markers == {}
    && forall k :: 0 <= k < i ==> Recorded(steps[k]) <= paths
  }

  lemma RunWithinIsReadable(trace: seq<Tracked>, steps: seq<Step>, i: nat, paths: set<Path>)
    requires RunWithin(trace, steps, i, paths) && MarkersReadable(paths)
    ensures MarkersReadable(trace[i].batch.markers)
  {
    hide Next, Enabled, Recorded, ReadableMarker;
    MarkersStayReadable(trace, steps, i);
  }

  /** A process that ends right after it recorded such a path. */
  ghost function Interrupted(p: Path): seq<Tracked> {
    var start := Tracked(Batch(map[], map[], map[], {}, {}, [], 0, RefusesNothing), {}, {});
    var recorded := Next(start, StageSome(Event(Change, [p]), 1, 0));
    [start, recorded, Next(recorded, Crash)]
  }

  lemma UnreadableInterrupted(p: Path, paths: set<Path>)
    requires p in paths && !ReadableMarker(p)
    ensures var trace := Interrupted(p);
            && RunWithin(trace, [StageSome(Event(Change, [p]), 1, 0), Crash], 2, paths)
            && LibraryAccepts(trace[2].batch) && !CanComplete(trace[2].batch)
  {
    hide CanComplete, ReadableMarker, Recoverable;
    var trace := Interrupted(p);
    assert [p][..1][0] == p && PathSet([p][..1]) == {p};
    assert p in trace[2].batch.markers;
    assert Stuck(trace[2].batch, p);
    StuckIsUnreadable(trace[2].batch, p);
    CanCompleteIff(trace[2].batch);
  }

  /** A completed recovery settles every owed path without a backslash, after any run and a crash. */
  lemma CompletedRecoverySettles(trace: seq<Tracked>, steps: seq<Step>, i: nat, stop: Stop)
    requires Run(trace, steps) && i < |trace|
    requires var crashed := Next(trace[i], Crash).batch; StopPossible(crashed, stop) && Complete(crashed, stop)
    ensures Settled(trace[i], Next(Next(trace[i], Crash), Recover(stop)))
  {
    hide Run, PartlyRecovered, Lookup, Files, StopPossible, Complete, WithinAny, Plain, FilesWithin;
    NothingIsLost(trace, steps, i);
    var crashed := Next(trace[i], Crash).batch;
    forall p | p in trace[i].owed && Plain(p)
      ensures Lookup(PartlyRecovered(crashed, stop).head, p) == Lookup(Files(crashed.worktree), p)
      ensures Lookup(PartlyRecovered(crashed, stop).index, p) == Lookup(Files(crashed.worktree), p)
    {
      RecordedAgrees(crashed, stop, p);
    }
  }

  /** HEAD has the working tree's state of every path that was owed and holds no backslash; none stays owed. */
  ghost predicate Settled(before: Tracked, end: Tracked) {
    forall p :: p in before.owed && Plain(p) ==>
      p !in end.owed && Lookup(end.batch.head, p) == Lookup(Files(before.batch.worktree), p)
  }

  /**
   * End to end: after any run that recorded neither the root nor anything in `.git`, and a crash, a
   * recovery can complete if the library takes what stands at the recorded paths, and any that completes
   * settles every owed path without a backslash.
   */
  lemma CrashThenRecover(trace: seq<Tracked>, steps: seq<Step>, i: nat)
    requires Run(trace, steps) && i < |trace| && MarkersReadable(trace[0].batch.markers)
    requires forall k :: 0 <= k < i ==> MarkersReadable(Recorded(steps[k]))
    requires LibraryAccepts(trace[i].batch)
    ensures var crashed := Next(trace[i], Crash);
            && CanComplete(crashed.batch)
            && forall stop :: StopPossible(crashed.batch, stop) && Complete(crashed.batch, stop) ==>
                 Settled(trace[i], Next(crashed, Recover(stop)))
  {
    hide Run, StopPossible, Complete, MarkersReadable, Recorded, Settled;
    var crashed := Next(trace[i], Crash);
    MarkersStayReadable(trace, steps, i);
    CanCompleteIff(crashed.batch);
    forall stop | StopPossible(crashed.batch, stop) && Complete(crashed.batch, stop)
      ensures Settled(trace[i], Next(crashed, Recover(stop)))
    {
      CompletedRecoverySettles(trace, steps, i, stop);
    }
  }

  /** A deleted directory, staged and then interrupted: recovery commits nothing and forgets the marker. */
  lemma DirectoryDeletionIsForgotten()
    ensures var f := Utf8("x");
            var b := Batch(map[["d", "f"] := f], map[], map[], {["d"]}, {}, [], 0, RefusesNothing);
            && WithinAny(["d", "f"], b.markers) && Complete(b, Clearing({["d"]})) && StopPossible(b, Clearing({["d"]}))
            && var after := PartlyRecovered(b, Clearing({["d"]}));
               after.markers == {} && Lookup(after.head, ["d", "f"]) == Some(f) && ["d", "f"] !in after.worktree
  {
    var f := Utf8("x");
    var d: Path, q: Path := ["d"], ["d", "f"];
    var b := Batch(map[q := f], map[], map[], {d}, {}, [], 0, RefusesNothing);
    assert |d| != |q| && d[0] == "d" && "d"[0] != ".git"[0];
    assert Lookup(b.head, d) == None;
    assert d <= q;
    hide Overlay;
    ResyncedAt(b, d);
    assert d <= d;
    assert d in Stale(Resynced(b));
  }
}
