/** Restoring a file or directory from a commit: plan, deletions, and the working tree it ends in. */
module GitRestore {
  import opened Text
  import opened GitPaths

  datatype RestoreError =
    | ProtectedPath
    | NotInCommit
    | NonUtf8Restore
    | UnreadableCurrent
    | DestructiveDisabled

  datatype Result = Applied | Previewed | Refused(error: RestoreError)

  /** Historical files to write, with their text. */
  type Plan = map<Path, string>

  /** A commit's tree: no file is an ancestor of another, and the root is no file. */
  ghost predicate TreeShaped(t: Tree) {
    [] !in t && forall p, q :: p in t && q in t && p <= q ==> p == q
  }

  /** Whether the path is protected: it equals a protected path or lies below one. */
  predicate Protected(p: Path, protectedPaths: set<Path>) {
    WithinAny(p, protectedPaths)
  }

  // ---------- what the commit and the working tree say ----------

  /** Files of the commit at or below the selection. */
  function Selected(tree: Tree, selected: Path): Tree {
    map q | q in tree && selected <= q :: tree[q]
  }

  /** Whether the selection exists in the commit; the empty selection is the whole tree. */
  predicate InCommit(tree: Tree, selected: Path) {
    selected == [] || Selected(tree, selected) != map[]
  }

  predicate AllUtf8(t: Tree) {
    forall q :: q in t ==> t[q].Utf8?
  }

  /** Historical text of the unprotected selected files. */
  function Historical(tree: Tree, selected: Path, protectedPaths: set<Path>): Plan {
    map q | q in tree && selected <= q && !Protected(q, protectedPaths) && tree[q].Utf8? :: tree[q].text
  }

  /** The current text of a path, empty when nothing is there; a directory, binary data or a file in the way is an
    * error. */
  function CurrentText(w: Worktree, p: Path): Option<string> {
    if exists n :: 0 < n < |p| && p[..n] in w && w[p[..n]].File? then None
    else if p !in w then Some("")
    else if w[p].File? && w[p].blob.Utf8? then Some(w[p].blob.text)
    else None
  }

  predicate Readable(w: Worktree, historical: Plan) {
    forall q :: q in historical ==> CurrentText(w, q).Some?
  }

  /** Files whose current text differs. */
  function PlanFor(w: Worktree, historical: Plan): Plan {
    map q | q in historical && CurrentText(w, q) != Some(historical[q]) :: historical[q]
  }

  predicate HoldsHistorical(p: Path, historical: Plan) {
    exists h :: h in historical && p <= h
  }

  /** Pending paths under the selection that the restore removes. */
  function Deletions(w: Worktree, pending: set<Path>, selected: Path, historical: Plan,
    protectedPaths: set<Path>): set<Path> {
    set p | p in pending && !Protected(p, protectedPaths) && selected <= p && !HoldsHistorical(p, historical) && p in w
  }

  // ---------- the promised end state ----------

  predicate AboveAny(q: Path, plan: Plan) {
    q != [] && exists h :: h in plan && q < h
  }

  /** What each path holds after writing the plan. */
  function Written(w: Worktree, plan: Plan, q: Path): Option<Entry> {
    if q in plan then Some(File(Utf8(plan[q])))
    else if AboveAny(q, plan) then Some(Directory)
    else Lookup(w, q)
  }

  /** What each path holds after the restore. */
  function Restored(w: Worktree, plan: Plan, deletions: set<Path>, q: Path): Option<Entry> {
    if WithinAny(q, deletions) then None else Written(w, plan, q)
  }

  /** The outcome the code decides on before changing anything. */
  function Verdict(w: Worktree, tree: Tree, pending: set<Path>, selected: Path, protectedPaths: set<Path>,
      allowDestructive: bool, dryRun: bool): Result {
    var historical := Historical(tree, selected, protectedPaths);
    if Protected(selected, protectedPaths) then Refused(ProtectedPath)
    else if !InCommit(tree, selected) then Refused(NotInCommit)
    else if !AllUtf8(Selected(tree, selected)) then Refused(NonUtf8Restore)
    else if !Readable(w, historical) then Refused(UnreadableCurrent)
    else if Deletions(w, pending, selected, historical, protectedPaths) != {} && !allowDestructive
    then Refused(DestructiveDisabled)
    else if dryRun then Previewed
    else Applied
  }

  // ---------- what is promised, from the commit and the working tree themselves ----------

  ghost predicate Guarded(q: Path, protectedPaths: set<Path>) {
    exists p :: p in protectedPaths && p <= q
  }

  /** A file of the commit at or below the selection that no protected path covers. */
  ghost predicate Chosen(tree: Tree, selected: Path, protectedPaths: set<Path>, q: Path) {
    q in tree && selected <= q && !Guarded(q, protectedPaths)
  }

  /** The path cannot be read as text: it is no text file, or a file stands where a directory should. */
  ghost predicate Unreadable(w: Worktree, q: Path) {
    (q in w && !(w[q].File? && w[q].blob.Utf8?)) || exists n :: 0 < n < |q| && q[..n] in w && w[q[..n]].File?
  }

  /** A pending path the restore removes: present, selected, not covered, and no chosen file at or below it. */
  ghost predicate Doomed(
      w: Worktree, tree: Tree, pending: set<Path>, selected: Path, protectedPaths: set<Path>, d: Path)
  {
    d in pending && d in w && selected <= d && !Guarded(d, protectedPaths)
    && forall h :: Chosen(tree, selected, protectedPaths, h) ==> !(d <= h)
  }

  ghost predicate BelowDoomed(
      w: Worktree, tree: Tree, pending: set<Path>, selected: Path, protectedPaths: set<Path>, q: Path)
  {
    exists d :: Doomed(w, tree, pending, selected, protectedPaths, d) && d <= q
  }

  /**
   * What one path holds after a restore: nothing at or below a removed path; a chosen file its content in
   * the commit, where nothing stands for an empty text; and anything else what it held before, but for
   * directories that had to be created above a chosen file.
   */
  ghost predicate PathAsPromised(before: Worktree, after: Worktree, tree: Tree, pending: set<Path>, selected: Path,
      protectedPaths: set<Path>, q: Path)
  {
    if BelowDoomed(before, tree, pending, selected, protectedPaths, q) then q !in after
    else if Chosen(tree, selected, protectedPaths, q) then
      tree[q].Utf8? && if q in after then after[q] == File(tree[q]) else tree[q] == Utf8("")
    else if q in before then q in after && after[q] == before[q]
    else
      q in after ==>
        after[q] == Directory && q != []
        && exists h :: Chosen(tree, selected, protectedPaths, h) && q < h && h in after
  }

  ghost predicate AsPromised(before: Worktree, after: Worktree, tree: Tree, pending: set<Path>, selected: Path,
      protectedPaths: set<Path>)
  {
    forall q :: PathAsPromised(before, after, tree, pending, selected, protectedPaths, q)
  }

  /** Why a request is refused, in the order in which the reasons count. */
  ghost predicate VerdictAsPromised(r: Result, w: Worktree, tree: Tree, pending: set<Path>, selected: Path,
      protectedPaths: set<Path>, allowDestructive: bool, dryRun: bool)
  {
    r == if Guarded(selected, protectedPaths) then Refused(ProtectedPath)
         else if selected != [] && !exists q :: q in tree && selected <= q then Refused(NotInCommit)
         else if exists q :: q in tree && selected <= q && !tree[q].Utf8? then Refused(NonUtf8Restore)
         else if exists q :: Chosen(tree, selected, protectedPaths, q) && Unreadable(w, q)
         then Refused(UnreadableCurrent)
         else if !allowDestructive && exists d :: Doomed(w, tree, pending, selected, protectedPaths, d)
         then Refused(DestructiveDisabled)
         else if dryRun then Previewed
         else Applied
  }

  class RestoringVault {
    var worktree: Worktree
    const pending: set<Path>
    const protectedPaths: set<Path>
    const allowDestructive: bool

    constructor (files: Worktree, owned: set<Path>, guarded: set<Path>, destructive: bool)
      ensures worktree == files && pending == owned && protectedPaths == guarded && allowDestructive == destructive
    {
      worktree, pending, protectedPaths, allowDestructive := files, owned, guarded, destructive;
    }

    /**
     * Restores the selection. Every refusal comes before the first change, no write or deletion fails
     * once the plan stands, and the end state is given at every path.
     */
    method Restore(tree: Tree, selected: Path, dryRun: bool) returns (r: Result)
      requires ParentClosed(worktree) && TreeShaped(tree) && [] !in pending
      modifies this
      ensures r == Verdict(old(worktree), tree, pending, selected, protectedPaths, allowDestructive, dryRun)
      ensures !r.Applied? ==> worktree == old(worktree)
      ensures r.Applied? ==>
                var historical := Historical(tree, selected, protectedPaths);
                var plan := PlanFor(old(worktree), historical);
                var deletions := Deletions(old(worktree), pending, selected, historical, protectedPaths);
                ParentClosed(worktree) && forall q :: Lookup(worktree, q) == Restored(old(worktree), plan, deletions, q)
      ensures VerdictAsPromised(r, old(worktree), tree, pending, selected, protectedPaths, allowDestructive, dryRun)
      ensures r.Applied? ==> AsPromised(old(worktree), worktree, tree, pending, selected, protectedPaths)
    {
      hide ParentClosed, TreeShaped, Protected, Historical, CurrentText, Deletions, Written, Lookup, WithinAny,
        HoldsHistorical, VerdictAsPromised, AsPromised, Readable, AllUtf8;
      VerdictMeaning(worktree, tree, pending, selected, protectedPaths, allowDestructive, dryRun);
      if Protected(selected, protectedPaths) {
        return Refused(ProtectedPath);
      }
      var files := Selected(tree, selected);
      if selected != [] && files == map[] {
        return Refused(NotInCommit);
      }
      if !AllUtf8(files) {
        return Refused(NonUtf8Restore);
      }
      var historical := Historical(tree, selected, protectedPaths);
      var readable, plan := PlanRestore(historical);
      if !readable {
        return Refused(UnreadableCurrent);
      }
      var deletions := Deletions(worktree, pending, selected, historical, protectedPaths);
      if deletions != {} && !allowDestructive {
        return Refused(DestructiveDisabled);
      }
      if dryRun {
        return Previewed;
      }
      PlanIsWritable(worktree, tree, selected, protectedPaths);
      WritePlan(plan);
      ghost var written := worktree;
      DeletionsSurviveWrites(old(worktree), written, plan, historical, pending, selected, protectedPaths);
      DeleteAll(deletions);
      forall q ensures Lookup(worktree, q) == Restored(old(worktree), plan, deletions, q) {
        assert Lookup(written, q) == Written(old(worktree), plan, q);
      }
      SelectedIsUtf8(tree, selected);
      RestoredMeaning(old(worktree), worktree, tree, pending, selected, protectedPaths);
      r := Applied;
    }

    /** Compares each historical file with the current text. */
    method PlanRestore(historical: Plan) returns (readable: bool, plan: Plan)
      ensures readable == Readable(worktree, historical)
      ensures readable ==> plan == PlanFor(worktree, historical)
    {
      hide CurrentText;
      plan := map[];
      var remaining := historical.Keys;
      while remaining != {}
        invariant remaining <= historical.Keys
        invariant forall q :: q in historical && q !in remaining ==> CurrentText(worktree, q).Some?
        invariant plan == map q | q in historical && q !in remaining && CurrentText(worktree, q) != Some(historical[q])
                            :: historical[q]
        decreases remaining
      {
        var q :| q in remaining;
        var current := CurrentText(worktree, q);
        if current.None? {
          return false, plan;
        }
        if current.value != historical[q] {
          plan := plan[q := historical[q]];
        }
        remaining := remaining - {q};
      }
      readable := true;
    }

    /** Writes every planned file. */
    method WritePlan(plan: Plan)
      requires ParentClosed(worktree) && Writable(worktree, plan)
      modifies this
      ensures ParentClosed(worktree) && forall q :: Lookup(worktree, q) == Written(old(worktree), plan, q)
    {
      hide ParentClosed, Lookup, Written, Writable;
      ghost var before := worktree;
      var remaining, done: Plan := plan.Keys, map[];
      WrittenNothing(before);
      while remaining != {}
        invariant remaining <= plan.Keys && done == map q | q in plan && q !in remaining :: plan[q]
        invariant ParentClosed(worktree)
        invariant forall q :: Lookup(worktree, q) == Written(before, done, q)
        decreases remaining
      {
        var p :| p in remaining;
        ghost var was := worktree;
        StillWritable(before, was, plan, done, p);
        WriteFile(p, plan[p]);
        forall q ensures Lookup(worktree, q) == Written(before, done[p := plan[p]], q) {
          WrittenOneMore(before, was, done, p, plan[p], q);
        }
        done, remaining := done[p := plan[p]], remaining - {p};
      }
      assert done == plan;
    }

    /** Creates missing parents, then puts the file in place. */
    method WriteFile(p: Path, text: string)
      requires ParentClosed(worktree) && p != [] && NoFileAbove(worktree, p) && (p in worktree ==> worktree[p].File?)
      modifies this
      ensures ParentClosed(worktree)
      ensures forall q :: Lookup(worktree, q) == Written(old(worktree), map[p := text], q)
    {
      hide Lookup, Written, ParentClosed;
      ghost var before := worktree;
      var n := 1;
      while n < |p|
        invariant 1 <= n <= |p| && NoFileAbove(worktree, p)
        invariant forall q: Path ::
                    Lookup(worktree, q) == if q != [] && q < p && |q| < n then Some(Directory) else Lookup(before, q)
      {
        var parent := p[..n];
        forall q { ParentCreated(before, worktree, p, n, q); }
        worktree := worktree[parent := Directory];
        n := n + 1;
      }
      forall q { FilePlaced(before, worktree, p, text, q); }
      worktree := worktree[p := File(Utf8(text))];
      WriteKeepsClosed(before, worktree, p, text);
    }

    /** Removes the targets deepest first; each still exists when it is reached. */
    method DeleteAll(deletions: set<Path>)
      requires ParentClosed(worktree) && [] !in deletions && forall p :: p in deletions ==> p in worktree
      modifies this
      ensures ParentClosed(worktree)
      ensures forall q :: Lookup(worktree, q) == if WithinAny(q, deletions) then None else Lookup(old(worktree), q)
    {
      hide ParentClosed, Lookup, WithinAny;
      ghost var before := worktree;
      var remaining := deletions;
      forall q { NothingWithin(q); }
      assert deletions - remaining == {};
      while remaining != {}
        invariant remaining <= deletions && ParentClosed(worktree)
        invariant forall d, p :: d in deletions - remaining && p in remaining ==> |p| <= |d|
        invariant forall q ::
                    Lookup(worktree, q) == if WithinAny(q, deletions - remaining) then None else Lookup(before, q)
        decreases remaining
      {
        var p := Deepest(remaining);
        TargetRemains(before, worktree, deletions, remaining, p);
        ghost var was := worktree;
        Delete(p);
        forall q { WithinOneMore(q, deletions - remaining, p); }
        assert deletions - (remaining - {p}) == deletions - remaining + {p};
        remaining := remaining - {p};
      }
      assert deletions - remaining == deletions;
    }

    /** Removes a file, or a directory with everything below it. */
    method Delete(p: Path)
      requires ParentClosed(worktree) && p != [] && p in worktree
      modifies this
      ensures ParentClosed(worktree)
      ensures forall q :: Lookup(worktree, q) == if p <= q then None else Lookup(old(worktree), q)
    {
      ghost var before := worktree;
      if worktree[p].Directory? {
        worktree := map q | q in worktree && !(p <= q) :: worktree[q];
      } else {
        forall q { FileRemoved(worktree, p, q); }
        worktree := worktree - {p};
      }
      DeleteKeepsClosed(before, worktree, p);
    }
  }

  /** A path with the most components; among equally deep targets the order does not matter. */
  method Deepest(paths: set<Path>) returns (p: Path)
    requires paths != {}
    ensures p in paths && forall q :: q in paths ==> |q| <= |p|
  {
    p :| p in paths;
    var remaining := paths - {p};
    while remaining != {}
      invariant remaining <= paths && p in paths && forall q :: q in paths - remaining ==> |q| <= |p|
      decreases remaining
    {
      var q :| q in remaining;
      if |p| < |q| {
        p := q;
      }
      remaining := remaining - {q};
    }
  }

  // ---------- the plan meets the promise ----------

  lemma ChosenIsHistorical(tree: Tree, selected: Path, protectedPaths: set<Path>)
    requires forall q :: q in tree && selected <= q ==> tree[q].Utf8?
    ensures var historical := Historical(tree, selected, protectedPaths);
            forall q :: (q in historical <==> Chosen(tree, selected, protectedPaths, q))
                        && (q in historical ==> Utf8(historical[q]) == tree[q])
  {
  }

  lemma UnreadableIff(w: Worktree, q: Path)
    ensures CurrentText(w, q).None? <==> Unreadable(w, q)
  {
  }

  lemma DoomedIsDeleted(w: Worktree, tree: Tree, pending: set<Path>, selected: Path, protectedPaths: set<Path>)
    requires forall q :: q in tree && selected <= q ==> tree[q].Utf8?
    ensures var historical := Historical(tree, selected, protectedPaths);
            var deletions := Deletions(w, pending, selected, historical, protectedPaths);
            forall d :: d in deletions <==> Doomed(w, tree, pending, selected, protectedPaths, d)
  {
    hide Historical, Chosen;
    ChosenIsHistorical(tree, selected, protectedPaths);
  }

  lemma SelectedIsUtf8(tree: Tree, selected: Path)
    ensures AllUtf8(Selected(tree, selected)) <==> forall q :: q in tree && selected <= q ==> tree[q].Utf8?
    ensures Selected(tree, selected) == map[] <==> !exists q :: q in tree && selected <= q
  {
    if AllUtf8(Selected(tree, selected)) {
      forall q | q in tree && selected <= q ensures tree[q].Utf8? {
        assert q in Selected(tree, selected);
      }
    }
    if exists q :: q in tree && selected <= q {
      var q :| q in tree && selected <= q;
      assert q in Selected(tree, selected);
    }
  }

  lemma VerdictMeaning(w: Worktree, tree: Tree, pending: set<Path>, selected: Path, protectedPaths: set<Path>,
      allowDestructive: bool, dryRun: bool)
    ensures VerdictAsPromised(Verdict(w, tree, pending, selected, protectedPaths, allowDestructive, dryRun),
              w, tree, pending, selected, protectedPaths, allowDestructive, dryRun)
  {
    hide CurrentText, Unreadable, Doomed, Deletions, Historical, Chosen, AllUtf8, Selected;
    SelectedIsUtf8(tree, selected);
    if AllUtf8(Selected(tree, selected)) {
      ChosenIsHistorical(tree, selected, protectedPaths);
      DoomedIsDeleted(w, tree, pending, selected, protectedPaths);
      forall q { UnreadableIff(w, q); }
      SomeDeletion(Deletions(w, pending, selected, Historical(tree, selected, protectedPaths), protectedPaths));
    }
  }

  lemma SomeDeletion(deletions: set<Path>)
    ensures deletions != {} <==> exists d :: d in deletions
  {
  }

  lemma RestoredMeaning(w: Worktree, after: Worktree, tree: Tree, pending: set<Path>, selected: Path,
      protectedPaths: set<Path>)
    requires TreeShaped(tree) && (forall q :: q in tree && selected <= q ==> tree[q].Utf8?)
    requires var historical := Historical(tree, selected, protectedPaths);
             var deletions := Deletions(w, pending, selected, historical, protectedPaths);
             && Readable(w, historical)
             && forall q :: Lookup(after, q) == Restored(w, PlanFor(w, historical), deletions, q)
    ensures AsPromised(w, after, tree, pending, selected, protectedPaths)
  {
    hide CurrentText, Deletions, Historical, Chosen, Doomed, Readable, PathAsPromised;
    forall q ensures PathAsPromised(w, after, tree, pending, selected, protectedPaths, q) {
      PathRestored(w, after, tree, pending, selected, protectedPaths, q);
    }
  }

  lemma PathRestored(w: Worktree, after: Worktree, tree: Tree, pending: set<Path>, selected: Path,
      protectedPaths: set<Path>, q: Path)
    requires TreeShaped(tree) && (forall q :: q in tree && selected <= q ==> tree[q].Utf8?)
    requires var historical := Historical(tree, selected, protectedPaths);
             var deletions := Deletions(w, pending, selected, historical, protectedPaths);
             && Readable(w, historical)
             && forall q :: Lookup(after, q) == Restored(w, PlanFor(w, historical), deletions, q)
    ensures PathAsPromised(w, after, tree, pending, selected, protectedPaths, q)
  {
    hide CurrentText, Deletions, Historical, Chosen, Doomed;
    var historical := Historical(tree, selected, protectedPaths);
    var plan, deletions := PlanFor(w, historical), Deletions(w, pending, selected, historical, protectedPaths);
    ChosenIsHistorical(tree, selected, protectedPaths);
    DoomedIsDeleted(w, tree, pending, selected, protectedPaths);
    assert Lookup(after, q) == Restored(w, plan, deletions, q);
    if q in historical {
      HistoricalReads(w, tree, pending, selected, protectedPaths, q);
    } else if AboveAny(q, plan) && !WithinAny(q, deletions) {
      var h :| h in plan && q < h;
      ReadableMeans(w, h);
      assert h[..|q|] == q;
      HistoricalReads(w, tree, pending, selected, protectedPaths, h);
      assert Lookup(after, h) == Restored(w, plan, deletions, h);
    }
  }

  // ---------- writing ----------

  ghost predicate NoFileAbove(w: Worktree, p: Path) {
    forall n :: 0 < n < |p| && p[..n] in w ==> w[p[..n]].Directory?
  }

  /** No planned file is in the way of another or of what is there. */
  ghost predicate Writable(w: Worktree, plan: Plan) {
    && (forall p :: p in plan ==> p != [] && NoFileAbove(w, p) && (p in w ==> w[p].File?))
    && forall p, q :: p in plan && q in plan && p <= q ==> p == q
  }

  lemma PlanIsWritable(w: Worktree, tree: Tree, selected: Path, protectedPaths: set<Path>)
    requires TreeShaped(tree)
    requires var historical := Historical(tree, selected, protectedPaths); Readable(w, historical)
    ensures Writable(w, PlanFor(w, Historical(tree, selected, protectedPaths)))
  {
    hide Protected, CurrentText, NoFileAbove, Historical;
    HistoricalShaped(tree, selected, protectedPaths);
    var historical := Historical(tree, selected, protectedPaths);
    forall p | p in historical ensures NoFileAbove(w, p) && (p in w ==> w[p].File?) {
      ReadableMeans(w, p);
    }
  }

  lemma HistoricalShaped(tree: Tree, selected: Path, protectedPaths: set<Path>)
    requires TreeShaped(tree)
    ensures var historical := Historical(tree, selected, protectedPaths);
            [] !in historical && forall p, q :: p in historical && q in historical && p <= q ==> p == q
  {
    hide Protected;
  }

  lemma ReadableMeans(w: Worktree, p: Path)
    requires CurrentText(w, p).Some?
    ensures NoFileAbove(w, p) && (p in w ==> w[p].File?)
    ensures Lookup(w, p) == Some(File(Utf8(CurrentText(w, p).value)))
      || (Lookup(w, p) == None && CurrentText(w, p) == Some(""))
  {
  }

  lemma WrittenNothing(w: Worktree)
    ensures forall q :: Written(w, map[], q) == Lookup(w, q)
  {
  }

  lemma WrittenOneMore(before: Worktree, was: Worktree, done: Plan, p: Path, text: string, q: Path)
    requires Lookup(was, q) == Written(before, done, q) && forall d :: d in done ==> !(d < p)
    ensures Written(was, map[p := text], q) == Written(before, done[p := text], q)
  {
    hide Lookup;
    AboveOneMore(done, p, text, q);
  }

  lemma AboveOneMore(done: Plan, p: Path, text: string, q: Path)
    ensures AboveAny(q, done[p := text]) <==> AboveAny(q, done) || (q != [] && q < p)
    ensures AboveAny(q, map[p := text]) <==> q != [] && q < p
  {
    var more := done[p := text];
    assert p in more && p in map[p := text];
    if AboveAny(q, done) {
      var h :| h in done && q < h;
      assert h in more;
    }
  }

  lemma StillWritable(before: Worktree, was: Worktree, plan: Plan, done: Plan, p: Path)
    requires Writable(before, plan) && p in plan && p !in done && (forall d :: d in done ==> d in plan)
    requires forall q :: Lookup(was, q) == Written(before, done, q)
    ensures p != [] && NoFileAbove(was, p) && (p in was ==> was[p].File?)
    ensures forall d :: d in done ==> !(d < p)
  {
    forall n | 0 < n < |p| && p[..n] in was ensures was[p[..n]].Directory? {
      assert Lookup(was, p[..n]) == Written(before, done, p[..n]);
      assert p[..n] <= p;
    }
    assert Lookup(was, p) == Written(before, done, p);
  }

  lemma ParentCreated(before: Worktree, w: Worktree, p: Path, n: nat, q: Path)
    requires 0 < n < |p|
    requires Lookup(w, q) == if q != [] && q < p && |q| < n then Some(Directory) else Lookup(before, q)
    ensures Lookup(w[p[..n] := Directory], q)
      == if q != [] && q < p && |q| < n + 1 then Some(Directory) else Lookup(before, q)
  {
    if q != [] && q < p && |q| == n {
      assert q == p[..n];
    }
  }

  lemma FilePlaced(before: Worktree, w: Worktree, p: Path, text: string, q: Path)
    requires Lookup(w, q) == if q != [] && q < p && |q| < |p| then Some(Directory) else Lookup(before, q)
    ensures Lookup(w[p := File(Utf8(text))], q) == Written(before, map[p := text], q)
  {
    AboveOneMore(map[], p, text, q);
  }

  lemma WriteKeepsClosed(before: Worktree, w: Worktree, p: Path, text: string)
    requires ParentClosed(before) && NoFileAbove(before, p) && (p in before ==> before[p].File?)
    requires forall q :: Lookup(w, q) == Written(before, map[p := text], q)
    ensures ParentClosed(w)
  {
    hide Written, AboveAny;
    forall q, n | q in w && 0 < n < |q| ensures q[..n] in w && w[q[..n]].Directory? {
      var r := q[..n];
      assert Lookup(w, q) == Written(before, map[p := text], q) && Lookup(w, r) == Written(before, map[p := text], r);
      WrittenCases(before, p, text, q);
      WrittenCases(before, p, text, r);
    }
  }

  lemma WrittenCases(w: Worktree, p: Path, text: string, q: Path)
    ensures Written(w, map[p := text], q)
            == if q == p then Some(File(Utf8(text))) else if q != [] && q < p then Some(Directory) else Lookup(w, q)
  {
    AboveOneMore(map[], p, text, q);
  }

  // ---------- deleting ----------

  /** A file has nothing below it. */
  lemma FileRemoved(w: Worktree, p: Path, q: Path)
    requires ParentClosed(w) && p != [] && p in w && w[p].File?
    ensures Lookup(w - {p}, q) == if p <= q then None else Lookup(w, q)
  {
    PrefixFacts(p, q);
  }

  lemma DeleteKeepsClosed(before: Worktree, w: Worktree, p: Path)
    requires ParentClosed(before)
    requires forall q :: Lookup(w, q) == if p <= q then None else Lookup(before, q)
    ensures ParentClosed(w)
  {
    forall q, n | q in w && 0 < n < |q| ensures q[..n] in w && w[q[..n]].Directory? {
      assert Lookup(w, q) == if p <= q then None else Lookup(before, q);
      assert Lookup(w, q[..n]) == if p <= q[..n] then None else Lookup(before, q[..n]);
      assert p <= q[..n] ==> p <= q;
    }
  }

  lemma TargetRemains(before: Worktree, w: Worktree, deletions: set<Path>, remaining: set<Path>, p: Path)
    requires p in before && p in remaining
    requires forall d, p :: d in deletions - remaining && p in remaining ==> |p| <= |d|
    requires forall q :: Lookup(w, q) == if WithinAny(q, deletions - remaining) then None else Lookup(before, q)
    ensures p in w
  {
    forall d | d in deletions - remaining ensures !(d <= p) {
      PrefixFacts(d, p);
    }
    assert Lookup(w, p) == Lookup(before, p);
  }

  /** Writing removes nothing, so every planned deletion still exists afterwards. */
  lemma DeletionsSurviveWrites(before: Worktree, w: Worktree, plan: Plan, historical: Plan, pending: set<Path>,
      selected: Path, protectedPaths: set<Path>)
    requires forall q :: Lookup(w, q) == Written(before, plan, q)
    ensures forall p :: p in Deletions(before, pending, selected, historical, protectedPaths) ==> p in w && p in pending
  {
    hide AboveAny, Protected, HoldsHistorical;
    forall p | p in before ensures p in w {
      assert Lookup(w, p) == Written(before, plan, p);
    }
  }

  // ---------- the promised end state ----------

  /** Every unprotected historical file under the selection reads as its historical text; absent counts as empty. */
  lemma HistoricalReads(w: Worktree, tree: Tree, pending: set<Path>, selected: Path, protectedPaths: set<Path>, q: Path)
    requires TreeShaped(tree)
    requires var historical := Historical(tree, selected, protectedPaths); Readable(w, historical) && q in historical
    ensures var historical := Historical(tree, selected, protectedPaths);
            var deletions := Deletions(w, pending, selected, historical, protectedPaths);
            var r := Restored(w, PlanFor(w, historical), deletions, q);
            && !WithinAny(q, deletions)
            && (r == Some(File(Utf8(historical[q]))) || (r == None && historical[q] == ""))
  {
    hide Protected, CurrentText, Lookup;
    var historical := Historical(tree, selected, protectedPaths);
    ReadableMeans(w, q);
  }

  /** Outside the selection nothing changes, except that missing directories above it may be created. */
  lemma OutsideUnchanged(w: Worktree, tree: Tree, pending: set<Path>, selected: Path, protectedPaths: set<Path>,
    q: Path)
    requires !(selected <= q)
    requires Readable(w, Historical(tree, selected, protectedPaths))
    ensures var historical := Historical(tree, selected, protectedPaths);
            var deletions := Deletions(w, pending, selected, historical, protectedPaths);
            var r := Restored(w, PlanFor(w, historical), deletions, q);
            r == Lookup(w, q) || (q < selected && q !in w && r == Some(Directory))
  {
    hide Protected, CurrentText;
    var historical := Historical(tree, selected, protectedPaths);
    var plan, deletions := PlanFor(w, historical), Deletions(w, pending, selected, historical, protectedPaths);
    forall d | d in deletions ensures !(d <= q) {
      PrefixTransitive(selected, d, q);
    }
    if AboveAny(q, plan) {
      var h :| h in plan && q < h;
      ReadableMeans(w, h);
      assert h[..|q|] == q;
    }
  }

  /**
   * The promised end state in one place: unprotected historical files under the selection read as their text,
   * planned deletions are gone with everything below them and hold no historical file, and nothing
   * outside the selection changes but for missing directories above it.
   */
  lemma PromisedEndState(w: Worktree, tree: Tree, pending: set<Path>, selected: Path, protectedPaths: set<Path>,
    q: Path)
    requires TreeShaped(tree) && Readable(w, Historical(tree, selected, protectedPaths))
    ensures var historical := Historical(tree, selected, protectedPaths);
            var deletions := Deletions(w, pending, selected, historical, protectedPaths);
            var r := Restored(w, PlanFor(w, historical), deletions, q);
            && (q in historical ==> r == Some(File(Utf8(historical[q]))) || (r == None && historical[q] == ""))
            && (WithinAny(q, deletions) ==> r == None && q !in historical && selected <= q)
            && (!(selected <= q) ==> r == Lookup(w, q) || (q < selected && q !in w && r == Some(Directory)))
  {
    hide Protected, CurrentText, Lookup, PlanFor, Historical, Readable, WithinAny, Deletions;
    var historical := Historical(tree, selected, protectedPaths);
    if q in historical {
      HistoricalReads(w, tree, pending, selected, protectedPaths, q);
    }
    if !(selected <= q) {
      OutsideUnchanged(w, tree, pending, selected, protectedPaths, q);
    }
    DeletionsAreSelected(w, pending, selected, historical, protectedPaths, q);
  }

  lemma DeletionsAreSelected(w: Worktree, pending: set<Path>, selected: Path, historical: Plan,
    protectedPaths: set<Path>, q: Path)
    ensures WithinAny(q, Deletions(w, pending, selected, historical, protectedPaths)) ==> selected <= q
  {
    hide Protected, HoldsHistorical;
  }

  /**
   * A protected file is left as it was exactly when no planned deletion is the file or above it. It is
   * lost when an unprotected pending directory above it holds no unprotected historical file.
   */
  lemma ProtectedFileKeptIff(w: Worktree, tree: Tree, pending: set<Path>, selected: Path, protectedPaths: set<Path>,
    q: Path)
    requires q in w && w[q].File? && q != [] && Protected(q, protectedPaths)
    requires Readable(w, Historical(tree, selected, protectedPaths))
    ensures var historical := Historical(tree, selected, protectedPaths);
            var deletions := Deletions(w, pending, selected, historical, protectedPaths);
            && (Restored(w, PlanFor(w, historical), deletions, q) == Lookup(w, q) <==> !WithinAny(q, deletions))
            && (WithinAny(q, deletions) <==>
                exists p :: p in pending && p < q && p in w && selected <= p && !Protected(p, protectedPaths)
                            && !HoldsHistorical(p, historical))
  {
    hide CurrentText;
    var historical := Historical(tree, selected, protectedPaths);
    var plan, deletions := PlanFor(w, historical), Deletions(w, pending, selected, historical, protectedPaths);
    forall h | h in plan ensures !(q < h) && q != h {
      ReadableMeans(w, h);
      PrefixFacts(q, h);
    }
    forall p
      ensures p in deletions && p <= q <==>
              p in pending && p < q && p in w && selected <= p && !Protected(p, protectedPaths)
                && !HoldsHistorical(p, historical)
    {
      PrefixFacts(p, q);
    }
  }

  /** A pending directory around a protected file: restoring removes the protected file. */
  lemma ProtectedFileLost()
    ensures var d: Path, q: Path := ["d"], ["d", "f"];
            var w: Worktree := map[d := Directory, q := File(Utf8("x"))];
            Verdict(w, map[], {d}, [], {q}, true, false) == Applied
            && Restored(w, map[], Deletions(w, {d}, [], Historical(map[], [], {q}), {q}), q) == None
  {
    var d: Path, q: Path := ["d"], ["d", "f"];
    var w: Worktree := map[d := Directory, q := File(Utf8("x"))];
    var none: Path := [];
    assert |q| == 2 && |d| == 1 && d <= q && !(q <= d) && !(q <= none);
    var historical := Historical(map[], none, {q});
    assert historical == map[];
    var deletions := Deletions(w, {d}, none, historical, {q});
    assert !Protected(d, {q}) && !Protected(none, {q});
    assert d in deletions;
    assert WithinAny(q, deletions);
  }

  /** Restoring twice is restoring once, even after the first restore's own writes and deletions became pending. */
  lemma RestoreIdempotent(w: Worktree, after: Worktree, tree: Tree, pending: set<Path>, later: set<Path>,
    selected: Path, protectedPaths: set<Path>)
    requires TreeShaped(tree) && Readable(w, Historical(tree, selected, protectedPaths))
    requires var historical := Historical(tree, selected, protectedPaths);
             var plan, deletions := PlanFor(w, historical), Deletions(w, pending, selected, historical, protectedPaths);
             && later <= pending + plan.Keys + deletions
             && forall q :: Lookup(after, q) == Restored(w, plan, deletions, q)
    ensures var historical := Historical(tree, selected, protectedPaths);
            && Readable(after, historical) && PlanFor(after, historical) == map[]
            && Deletions(after, later, selected, historical, protectedPaths) == {}
  {
    hide Protected, CurrentText, Lookup, Written, WithinAny, Historical;
    var historical := Historical(tree, selected, protectedPaths);
    var plan, deletions := PlanFor(w, historical), Deletions(w, pending, selected, historical, protectedPaths);
    forall q | q in historical ensures CurrentText(after, q) == Some(historical[q]) {
      SecondReading(w, after, tree, pending, selected, protectedPaths, q);
    }
    forall p | p in later && !Protected(p, protectedPaths) && selected <= p && !HoldsHistorical(p, historical)
      ensures p !in after
    {
      NoSecondDeletion(w, after, historical, pending, later, selected, protectedPaths, p);
    }
  }

  /** After a restore a historical file reads as its text. */
  lemma SecondReading(w: Worktree, after: Worktree, tree: Tree, pending: set<Path>, selected: Path,
      protectedPaths: set<Path>, q: Path)
    requires TreeShaped(tree) && Readable(w, Historical(tree, selected, protectedPaths))
    requires q in Historical(tree, selected, protectedPaths)
    requires var historical := Historical(tree, selected, protectedPaths);
             var plan, deletions := PlanFor(w, historical), Deletions(w, pending, selected, historical, protectedPaths);
             forall q :: Lookup(after, q) == Restored(w, plan, deletions, q)
    ensures CurrentText(after, q) == Some(Historical(tree, selected, protectedPaths)[q])
  {
    hide Protected, CurrentText, Deletions, WithinAny, Readable;
    var historical := Historical(tree, selected, protectedPaths);
    var plan, deletions := PlanFor(w, historical), Deletions(w, pending, selected, historical, protectedPaths);
    HistoricalReads(w, tree, pending, selected, protectedPaths, q);
    assert CurrentText(w, q).Some? by { assert Readable(w, historical); ReadableAt(w, historical, q); }
    ReadableMeans(w, q);
    forall n | 0 < n < |q| && q[..n] in after ensures after[q[..n]].Directory? {
      var r := q[..n];
      assert Lookup(after, r) == Restored(w, plan, deletions, r);
      assert r < q && r !in plan;
    }
    assert Lookup(after, q) == Restored(w, plan, deletions, q);
    TextOf(after, q, historical[q]);
  }

  lemma ReadableAt(w: Worktree, historical: Plan, q: Path)
    requires Readable(w, historical) && q in historical
    ensures CurrentText(w, q).Some?
  {
  }

  lemma TextOf(w: Worktree, q: Path, text: string)
    requires NoFileAbove(w, q) && (Lookup(w, q) == Some(File(Utf8(text))) || (Lookup(w, q) == None && text == ""))
    ensures CurrentText(w, q) == Some(text)
  {
  }

  lemma NoSecondDeletion(w: Worktree, after: Worktree, historical: Plan, pending: set<Path>, later: set<Path>,
      selected: Path, protectedPaths: set<Path>, p: Path)
    requires p in later && !Protected(p, protectedPaths) && selected <= p && !HoldsHistorical(p, historical)
    requires var plan, deletions := PlanFor(w, historical), Deletions(w, pending, selected, historical, protectedPaths);
             && later <= pending + plan.Keys + deletions
             && forall q :: Lookup(after, q) == Restored(w, plan, deletions, q)
    ensures p !in after
  {
    hide Protected, CurrentText;
    var plan, deletions := PlanFor(w, historical), Deletions(w, pending, selected, historical, protectedPaths);
    assert Lookup(after, p) == Restored(w, plan, deletions, p);
    PrefixFacts(p, p);
    forall h | h in plan ensures !(p <= h) && !(p < h) {
      PrefixFacts(p, h);
    }
    assert p in w && p in pending ==> p in deletions;
  }
}
