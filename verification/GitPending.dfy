/**
 * The pending batch of one vault: what the service stages, what it commits, and the durable markers
 * from which an interrupted process recovers.
 */
module GitPending {
  import opened Text
  import opened GitPaths
  import opened GitCommit

  datatype Kind = Delete | Move | Change

  datatype Event = Event(kind: Kind, paths: seq<Path>)

  /** What the Git library will not take into the index; which paths these are is up to the library. */
  type Refusal = (Worktree, Path) -> bool

  function RefusesNothing(w: Worktree, p: Path): bool {
    false
  }

  /** What the storage lets happen during one call. */
  datatype Storage = Storage(
    readMarkers: bool, record: Path -> bool, saveIndex: bool, compareTrees: bool, commit: bool, clear: Path -> bool)

  /** Nothing fails. */
  ghost predicate Faultless(storage: Storage) {
    && storage.readMarkers && storage.saveIndex && storage.compareTrees && storage.commit
    && forall p :: storage.record(p) && storage.clear(p)
  }

  /** Everything the protocol reads or writes; `pending`, `events` and `generation` die with the process. */
  datatype Batch = Batch(
    head: Tree, index: Tree, worktree: Worktree, markers: set<Path>,
    pending: set<Path>, events: seq<Event>, generation: nat, refuses: Refusal)

  datatype CommitResult = Nothing | Done(paths: set<Path>) | Failed

  function NextGeneration(generation: nat): (r: nat)
    ensures generation < U64_MAX ==> r > generation
    ensures generation <= U64_MAX ==> generation <= r <= U64_MAX
  {
    if generation < U64_MAX then generation + 1 else generation
  }

  function PathSet(paths: seq<Path>): set<Path> {
    set i | 0 <= i < |paths| :: paths[i]
  }

  // ---------- staging ----------

  /** The vault root itself always exists. */
  predicate Exists(w: Worktree, p: Path) {
    p == [] || p in w
  }

  predicate Removes(event: Event, p: Path, w: Worktree) {
    event.kind == Delete || (event.kind == Move && !Exists(w, p))
  }

  /** A path can be staged when it is to be removed, or exists and the library takes it. */
  predicate Stageable(event: Event, p: Path, w: Worktree, refuses: Refusal) {
    Removes(event, p, w) || (Exists(w, p) && !refuses(w, p))
  }

  predicate AllStageable(event: Event, paths: seq<Path>, w: Worktree, refuses: Refusal) {
    forall p :: p in paths ==> Stageable(event, p, w, refuses)
  }

  /** What the index takes over within an event's paths. */
  function Source(event: Event, w: Worktree): Tree {
    if event.kind == Delete then map[] else Files(w)
  }

  function Staged(b: Batch, event: Event): Batch {
    b.(index := Overlay(b.index, Source(event, b.worktree), PathSet(event.paths)),
       markers := b.markers + PathSet(event.paths),
       pending := b.pending + PathSet(event.paths),
       events := b.events + [event],
       generation := NextGeneration(b.generation))
  }

  /** A staging call that stopped after recording some paths and processing some of those. */
  function PartlyStaged(b: Batch, event: Event, recorded: nat, processed: nat): Batch
    requires processed <= recorded <= |event.paths|
  {
    b.(markers := b.markers + PathSet(event.paths[..recorded]),
       pending := b.pending + PathSet(event.paths[..processed]))
  }

  // ---------- committing ----------

  ghost function Committed(b: Batch, cleared: set<Path>): Batch {
    b.(head := CommittedTree(b.head, b.index, b.pending), markers := b.markers - cleared, pending := {}, events := [])
  }

  // ---------- recovery ----------

  function Resynced(b: Batch): Batch {
    b.(index := Overlay(b.index, Files(b.worktree), b.markers))
  }

  /** Recorded paths at which the index no longer differs from HEAD. */
  function Stale(b: Batch): set<Path> {
    set r | r in b.markers && Lookup(b.head, r) == Lookup(b.index, r)
  }

  function Adopted(b: Batch): Batch {
    b.(markers := b.markers - Stale(b), pending := b.markers - Stale(b))
  }

  /** How far a recovery got. */
  datatype Stop =
    | BeforeIndexWrite
    | Clearing(removed: set<Path>)
    | BeforeCommit
    | AfterCommit(cleared: set<Path>)

  /** A marker that names the root or something in Git's own directory is taken for a damaged one. */
  predicate ReadableMarker(p: Path) {
    p != [] && p[0] != ".git"
  }

  predicate MarkersReadable(markers: set<Path>) {
    forall p :: p in markers ==> ReadableMarker(p)
  }

  /** The library takes what stands at the recorded paths. */
  predicate LibraryAccepts(b: Batch) {
    forall p :: p in b.markers && Exists(b.worktree, p) ==> !b.refuses(b.worktree, p)
  }

  /** Nothing but the storage can stop a recovery. */
  predicate Recoverable(b: Batch) {
    MarkersReadable(b.markers) && LibraryAccepts(b)
  }

  predicate StopPossible(b: Batch, stop: Stop) {
    var owned := b.markers - Stale(Resynced(b));
    match stop
    case BeforeIndexWrite => true
    case Clearing(removed) => Recoverable(b) && removed <= Stale(Resynced(b))
    case BeforeCommit => Recoverable(b) && owned != {}
    case AfterCommit(cleared) => Recoverable(b) && owned != {} && cleared <= owned
  }

  ghost function PartlyRecovered(b: Batch, stop: Stop): Batch {
    var synced := Resynced(b);
    match stop
    case BeforeIndexWrite => b
    case Clearing(removed) => synced.(markers := b.markers - removed)
    case BeforeCommit => Adopted(synced)
    case AfterCommit(cleared) => Committed(Adopted(synced), cleared)
  }

  /** The recovery had nothing more to do. */
  predicate Complete(b: Batch, stop: Stop) {
    match stop
    case BeforeIndexWrite => b.markers == {}
    case Clearing(removed) => b.markers == removed
    case BeforeCommit => false
    case AfterCommit(_) => true
  }

  /** Some of the paths were cleared, and all of them if the storage lets all be. */
  ghost predicate ClearedWith(storage: Storage, paths: set<Path>, cleared: set<Path>) {
    && cleared <= paths && (forall p :: p in cleared ==> storage.clear(p))
    && ((forall p :: p in paths ==> storage.clear(p)) ==> cleared == paths)
  }

  /** What makes a recovery fail: an unreadable marker, a refused path, or a storage step it needs. */
  ghost predicate RecoveryFails(b: Batch, storage: Storage) {
    || !storage.readMarkers
    || (b.markers != {} &&
        (|| !Recoverable(b) || !storage.saveIndex || !storage.compareTrees
         || (exists r :: r in Stale(Resynced(b)) && !storage.clear(r))
         || (b.markers - Stale(Resynced(b)) != {} && !storage.commit)))
  }

  class GitVault {
    var head: Tree
    var index: Tree
    var worktree: Worktree
    var markers: set<Path>
    var pending: set<Path>
    var events: seq<Event>
    var generation: nat
    const refuses: Refusal

    constructor (tree: Tree, staged: Tree, files: Worktree, recorded: set<Path>, refusal: Refusal)
      ensures State() == Batch(tree, staged, files, recorded, {}, [], 0, refusal)
    {
      refuses := refusal;
      head, index, worktree, markers := tree, staged, files, recorded;
      pending, events, generation := {}, [], 0;
    }

    function State(): Batch
      reads this
    {
      Batch(head, index, worktree, markers, pending, events, generation, refuses)
    }

    /** The working tree is one: directories hold their entries. */
    ghost predicate Valid()
      reads this
    {
      ParentClosed(worktree)
    }

    /**
     * Stages one event: each path is recorded durably before it is touched, and the index is written
     * only when every path could be staged; the first path that cannot be staged keeps its marker.
     */
    method StageEvent(event: Event, storage: Storage) returns (ok: bool, ghost recorded: nat, ghost processed: nat)
      requires Valid()
      modifies this
      ensures Valid() && processed <= recorded <= |event.paths| && recorded <= processed + 1
      ensures State() == if ok then Staged(old(State()), event)
        else PartlyStaged(old(State()), event, recorded, processed)
      ensures ok <==> storage.saveIndex && forall k :: 0 <= k < |event.paths| ==>
                        storage.record(event.paths[k]) && Stageable(event, event.paths[k], worktree, refuses)
      ensures forall k :: 0 <= k < processed ==>
                storage.record(event.paths[k]) && Stageable(event, event.paths[k], worktree, refuses)
      ensures !ok && processed < |event.paths| ==>
                var p := event.paths[processed];
                if storage.record(p) then recorded == processed + 1 && !Stageable(event, p, worktree, refuses)
                else recorded == processed
    {
      hide Overlay, Files, WithinAny, PathSet, ParentClosed;
      var edited := index;
      recorded, processed := 0, 0;
      NoPaths(event.paths);
      OverlayNothing(index, Source(event, worktree));
      for i := 0 to |event.paths|
        invariant recorded == processed == i && Valid()
        invariant State() == PartlyStaged(old(State()), event, i, i)
        invariant edited == Overlay(index, Source(event, worktree), PathSet(event.paths[..i]))
        invariant forall k :: 0 <= k < i ==>
                    storage.record(event.paths[k]) && Stageable(event, event.paths[k], worktree, refuses)
      {
        var p := event.paths[i];
        OneMorePath(event.paths, i);
        if !storage.record(p) {
          return false, recorded, processed;
        }
        markers, recorded := markers + {p}, i + 1;
        if Removes(event, p, worktree) {
          RemovalIsSource(event, p, worktree, edited);
          edited := Overlay(edited, map[], {p});
        } else if Exists(worktree, p) && !refuses(worktree, p) {
          edited := Overlay(edited, Files(worktree), {p});
        } else {
          return false, recorded, processed;
        }
        OverlayOneMore(index, Source(event, worktree), PathSet(event.paths[..i]), p);
        pending, processed := pending + {p}, i + 1;
      }
      assert event.paths[..|event.paths|] == event.paths;
      if !storage.saveIndex {
        return false, recorded, processed;
      }
      index := edited;
      events := events + [event];
      generation := NextGeneration(generation);
      ok := true;
    }

    /** Commits the owned paths, one round of the commit loop after another. */
    method CommitPending(storage: Storage) returns (r: CommitResult, ghost cleared: set<Path>)
      requires Valid()
      modifies this
      ensures Valid() && (r.Nothing? <==> old(pending) == {}) && (r.Failed? <==> old(pending) != {} && !storage.commit)
      ensures !r.Done? ==> State() == old(State())
      ensures r.Done? ==> r.paths == old(pending) && ClearedWith(storage, old(pending), cleared)
      ensures r.Done? ==> State() == Committed(old(State()), cleared)
    {
      hide Overlay, WithinAny, ParentClosed;
      cleared := {};
      if pending == {} {
        return Nothing, cleared;
      }
      var owned := OwnedTree(head, index, pending);
      if !storage.commit {
        return Failed, cleared;
      }
      head := owned;
      var removedAll;
      removedAll, cleared := ClearPendingPaths(pending, storage);
      r := Done(pending);
      pending := {};
      events := [];
    }

    /** Commits only when nothing was staged since the caller read this generation. */
    method CommitIfGeneration(expected: nat, storage: Storage) returns (r: CommitResult, ghost cleared: set<Path>)
      requires Valid()
      modifies this
      ensures Valid() && (generation != expected || old(pending) == {} <==> r.Nothing?)
      ensures r.Failed? <==> generation == expected && old(pending) != {} && !storage.commit
      ensures !r.Done? ==> State() == old(State())
      ensures r.Done? ==> r.paths == old(pending) && ClearedWith(storage, old(pending), cleared)
      ensures r.Done? ==> State() == Committed(old(State()), cleared)
    {
      if generation != expected {
        return Nothing, {};
      }
      r, cleared := CommitPending(storage);
    }

    method ClearPendingPaths(paths: set<Path>, storage: Storage) returns (ok: bool, ghost cleared: set<Path>)
      modifies this`markers
      ensures markers == old(markers) - cleared && ClearedWith(storage, paths, cleared)
      ensures ok <==> forall p :: p in paths ==> storage.clear(p)
    {
      var remaining := paths;
      cleared := {};
      while remaining != {}
        invariant remaining <= paths && cleared == paths - remaining && markers == old(markers) - cleared
        invariant forall p :: p in cleared ==> storage.clear(p)
        decreases remaining
      {
        var p :| p in remaining;
        if !storage.clear(p) {
          return false, cleared;
        }
        markers, remaining, cleared := markers - {p}, remaining - {p}, cleared + {p};
      }
      ok := true;
    }

    /** Commits what an interrupted process recorded; `RecoveryFails` says exactly when it cannot. */
    method RecoverStaged(storage: Storage) returns (r: CommitResult, ghost stop: Stop)
      requires Valid()
      modifies this
      ensures Valid() && StopPossible(old(State()), stop) && State() == PartlyRecovered(old(State()), stop)
      ensures !r.Failed? ==> Complete(old(State()), stop)
      ensures r.Done? <==> stop.AfterCommit?
      ensures r.Failed? <==> RecoveryFails(old(State()), storage)
      ensures Faultless(storage) && Recoverable(old(State())) ==> markers == {}
    {
      hide Overlay, Files, WithinAny, ParentClosed, Lookup;
      stop := BeforeIndexWrite;
      if !storage.readMarkers {
        return Failed, stop;
      }
      var recorded := markers;
      if recorded == {} {
        return Nothing, stop;
      }
      if !MarkersReadable(recorded) {
        return Failed, stop;
      }
      var accepted, edited := ResyncedIndex(recorded);
      if !accepted || !storage.saveIndex {
        return Failed, stop;
      }
      index := edited;
      stop := Clearing({});
      assert State() == PartlyRecovered(old(State()), stop);
      if !storage.compareTrees {
        return Failed, stop;
      }
      var deltas := set q | q in head.Keys + index.Keys && Lookup(head, q) != Lookup(index, q);
      var paths := recorded * deltas;
      DeltasAreNotStale(Resynced(old(State())), deltas);
      assert recorded - paths == Stale(Resynced(old(State())));
      var removedAll, removed := ClearPendingPaths(recorded - paths, storage);
      stop := Clearing(removed);
      if !removedAll {
        return Failed, stop;
      }
      if paths == {} {
        return Nothing, stop;
      }
      pending := paths;
      stop := BeforeCommit;
      ghost var cleared;
      r, cleared := CommitPending(storage);
      if r.Done? {
        stop := AfterCommit(cleared);
      }
    }

    /** The index with every recorded path made to agree with the working tree, if the library takes them all. */
    method ResyncedIndex(recorded: set<Path>) returns (accepted: bool, edited: Tree)
      requires Valid()
      ensures accepted <==> forall p :: p in recorded && Exists(worktree, p) ==> !refuses(worktree, p)
      ensures accepted ==> edited == Overlay(index, Files(worktree), recorded)
    {
      hide Overlay, Files, WithinAny, ParentClosed;
      edited := index;
      OverlayNothing(index, Files(worktree));
      var remaining := recorded;
      assert recorded - remaining == {};
      while remaining != {}
        invariant remaining <= recorded && edited == Overlay(index, Files(worktree), recorded - remaining)
        invariant forall p :: p in recorded - remaining && Exists(worktree, p) ==> !refuses(worktree, p)
        decreases remaining
      {
        var p :| p in remaining;
        OverlayOneMore(index, Files(worktree), recorded - remaining, p);
        assert recorded - (remaining - {p}) == recorded - remaining + {p};
        if Exists(worktree, p) && refuses(worktree, p) {
          return false, edited;
        } else if Exists(worktree, p) {
          edited := Overlay(edited, Files(worktree), {p});
        } else {
          AbsentMeansEmpty(p, worktree, edited);
          edited := Overlay(edited, map[], {p});
        }
        remaining := remaining - {p};
      }
      assert recorded - remaining == recorded;
      accepted := true;
    }
  }

  // ---------- staging and committing, spelled out ----------

  /**
   * Staging an event takes what the working tree holds within its paths into the index - nothing, for a
   * deletion - and only there; it records the paths, queues the event, and counts up to the limit.
   */
  lemma StagedIs(b: Batch, event: Event, q: Path)
    ensures var after := Staged(b, event);
            && Lookup(after.index, q)
               == (if !exists p :: p in event.paths && p <= q then Lookup(b.index, q)
                   else if event.kind != Delete && q in b.worktree && b.worktree[q].File?
                   then Some(b.worktree[q].blob) else None)
            && after.head == b.head && after.worktree == b.worktree && after.events == b.events + [event]
            && (forall p :: p in after.markers <==> p in b.markers || p in event.paths)
            && (forall p :: p in after.pending <==> p in b.pending || p in event.paths)
            && (b.generation < 0xFFFF_FFFF_FFFF_FFFF ==> after.generation == b.generation + 1)
            && (b.generation == 0xFFFF_FFFF_FFFF_FFFF ==> after.generation == b.generation)
  {
    hide Overlay;
    var paths := PathSet(event.paths);
    OverlayAt(b.index, Source(event, b.worktree), paths, q);
    LookupIs(Source(event, b.worktree), q);
    forall p ensures p in paths <==> p in event.paths {
      if p in event.paths {
        var i :| 0 <= i < |event.paths| && event.paths[i] == p;
      }
    }
  }

  /** What can be staged: any deletion, a move of what is gone, and otherwise what exists and the library takes. */
  lemma StageableIs(event: Event, p: Path, w: Worktree, refuses: Refusal)
    ensures Stageable(event, p, w, refuses) <==>
            || event.kind == Delete
            || (event.kind == Move && p != [] && p !in w)
            || ((p == [] || p in w) && !refuses(w, p))
  {
  }

  /** A commit leaves the index and the working tree alone and empties the batch, whatever it could clear. */
  lemma CommitFrame(b: Batch, cleared: set<Path>)
    ensures var after := Committed(b, cleared);
            && after.head == CommittedTree(b.head, b.index, b.pending)
            && after.index == b.index && after.worktree == b.worktree && after.generation == b.generation
            && after.pending == {} && after.events == [] && after.markers == b.markers - cleared
  {
    hide CommittedTree;
  }

  // ---------- small facts ----------

  lemma NoPaths(paths: seq<Path>)
    ensures PathSet(paths[..0]) == {}
  {
  }

  lemma OneMorePath(paths: seq<Path>, i: nat)
    requires i < |paths|
    ensures PathSet(paths[..i + 1]) == PathSet(paths[..i]) + {paths[i]}
  {
    var longer, shorter := paths[..i + 1], paths[..i];
    assert forall k :: 0 <= k < i ==> longer[k] == shorter[k];
    assert longer[i] == paths[i];
  }

  lemma NothingBelow(p: Path, w: Worktree, q: Path)
    requires ParentClosed(w) && !Exists(w, p) && p <= q
    ensures q !in w
  {
    assert q[..|p|] == p;
    assert |p| == |q| ==> p == q;
  }

  /** Nothing exists below a path that does not exist. */
  lemma AbsentMeansEmpty(p: Path, w: Worktree, index: Tree)
    requires ParentClosed(w) && !Exists(w, p)
    ensures Overlay(index, map[], {p}) == Overlay(index, Files(w), {p})
  {
    hide Lookup;
    forall q ensures Lookup(Overlay(index, map[], {p}), q) == Lookup(Overlay(index, Files(w), {p}), q) {
      OverlayAt(index, map[], {p}, q);
      OverlayAt(index, Files(w), {p}, q);
      WithinOneMore(q, {}, p);
      LookupIs(Files(w), q);
      LookupIs<Blob>(map[], q);
      if p <= q {
        NothingBelow(p, w, q);
      }
    }
    SameTree(Overlay(index, map[], {p}), Overlay(index, Files(w), {p}));
  }

  lemma RemovalIsSource(event: Event, p: Path, w: Worktree, index: Tree)
    requires ParentClosed(w) && Removes(event, p, w)
    ensures Overlay(index, map[], {p}) == Overlay(index, Source(event, w), {p})
  {
    hide Overlay, Files, ParentClosed;
    if event.kind != Delete {
      AbsentMeansEmpty(p, w, index);
    }
  }

  lemma DeltasAreNotStale(b: Batch, deltas: set<Path>)
    requires deltas == set q | q in b.head.Keys + b.index.Keys && Lookup(b.head, q) != Lookup(b.index, q)
    ensures b.markers * deltas == b.markers - Stale(b)
  {
    forall r | r in b.markers ensures r in deltas <==> r !in Stale(b) {
    }
  }
}
