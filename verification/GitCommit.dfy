/** The tree a commit writes: one round per pending path, in the order of the paths. */
module GitCommit {
  import opened Text
  import opened GitPaths

  // ---------- the order of pending paths ----------

  /** Paths compare component by component. */
  predicate PathLe(p: Path, q: Path) {
    p == [] || (q != [] && if p[0] == q[0] then PathLe(p[1..], q[1..]) else LexLe(p[0], q[0]))
  }

  lemma {:induction false} PathTotal(p: Path, q: Path)
    ensures PathLe(p, q) || PathLe(q, p)
    decreases |p|
  {
    hide LexLe;
    if p != [] && q != [] {
      PathTotal(p[1..], q[1..]);
      LexTotal(p[0], q[0]);
    }
  }

  lemma {:induction false} PathAntisymmetric(p: Path, q: Path)
    requires PathLe(p, q) && PathLe(q, p)
    ensures p == q
    decreases |p|
  {
    hide LexLe;
    if p != [] && q != [] {
      if p[0] == q[0] {
        PathAntisymmetric(p[1..], q[1..]);
        assert p == [p[0]] + p[1..] && q == [q[0]] + q[1..];
      } else {
        LexAntisymmetric(p[0], q[0]);
      }
    }
  }

  lemma {:induction false} PathTransitive(p: Path, q: Path, r: Path)
    requires PathLe(p, q) && PathLe(q, r)
    ensures PathLe(p, r)
    decreases |p|
  {
    hide LexLe;
    if p != [] {
      if p[0] == q[0] && q[0] == r[0] {
        PathTransitive(p[1..], q[1..], r[1..]);
      } else if p[0] != q[0] && q[0] != r[0] {
        LexTransitive(p[0], q[0], r[0]);
        if p[0] == r[0] {
          LexAntisymmetric(p[0], q[0]);
        }
      }
    }
  }

  /** At the first difference, or because it ends there, `p` comes before `q`. */
  ghost predicate StandsBefore(p: Path, q: Path) {
    p <= q || exists k :: 0 <= k < |p| && k < |q| && p[..k] == q[..k] && p[k] != q[k] && LexLe(p[k], q[k])
  }

  lemma BeforeByTail(p: Path, q: Path)
    requires p != [] && q != [] && p[0] == q[0]
    ensures StandsBefore(p, q) <==> StandsBefore(p[1..], q[1..])
  {
    hide LexLe;
    var x, y := p[1..], q[1..];
    assert p == [p[0]] + x && q == [q[0]] + y;
    if StandsBefore(x, y) && !(x <= y) {
      var k :| 0 <= k < |x| && k < |y| && x[..k] == y[..k] && x[k] != y[k] && LexLe(x[k], y[k]);
      assert p[..k + 1] == [p[0]] + x[..k] && q[..k + 1] == [q[0]] + y[..k];
      assert p[k + 1] == x[k] && q[k + 1] == y[k];
    }
    if StandsBefore(p, q) && !(p <= q) {
      var k :| 0 <= k < |p| && k < |q| && p[..k] == q[..k] && p[k] != q[k] && LexLe(p[k], q[k]);
      assert k > 0;
      assert x[..k - 1] == p[..k][1..] && y[..k - 1] == q[..k][1..];
      assert x[k - 1] == p[k] && y[k - 1] == q[k];
    }
  }

  lemma BeforeByHead(p: Path, q: Path)
    requires p != [] && q != [] && p[0] != q[0]
    ensures StandsBefore(p, q) <==> LexLe(p[0], q[0])
  {
    hide LexLe;
    assert p[..0] == q[..0] && !(p <= q);
    forall k | 0 < k < |p| && k < |q| ensures p[..k] != q[..k] {
      assert p[..k][0] == p[0] && q[..k][0] == q[0];
    }
  }

  /** Paths stand in the order of their components. */
  lemma {:induction false} PathOrder(p: Path, q: Path)
    ensures PathLe(p, q) <==> StandsBefore(p, q)
    decreases |p|
  {
    hide LexLe, StandsBefore;
    if p == [] || q == [] {
      EmptyStandsBefore(p, q);
    } else if p[0] == q[0] {
      PathOrder(p[1..], q[1..]);
      BeforeByTail(p, q);
    } else {
      BeforeByHead(p, q);
    }
  }

  lemma EmptyStandsBefore(p: Path, q: Path)
    requires p == [] || q == []
    ensures StandsBefore(p, q) <==> p == []
  {
    hide LexLe;
  }

  /** What lies above a path comes before it. */
  lemma {:induction false} PrefixComesFirst(p: Path, q: Path)
    requires p <= q
    ensures PathLe(p, q)
    decreases |p|
  {
    if p != [] {
      PrefixComesFirst(p[1..], q[1..]);
    }
  }

  /** Each path is strictly before the later ones. */
  ghost predicate Increasing(order: seq<Path>) {
    forall i, j :: 0 <= i < j < |order| ==> PathLe(order[i], order[j]) && order[i] != order[j]
  }

  ghost predicate IsLeast(p: Path, paths: set<Path>) {
    p in paths && forall q :: q in paths ==> PathLe(p, q)
  }

  method Least(paths: set<Path>) returns (p: Path)
    requires paths != {}
    ensures IsLeast(p, paths)
  {
    hide PathLe;
    p :| p in paths;
    PathTotal(p, p);
    var remaining := paths - {p};
    while remaining != {}
      invariant remaining <= paths && p in paths && forall q :: q in paths - remaining ==> PathLe(p, q)
      decreases remaining
    {
      var q :| q in remaining;
      if PathLe(q, p) {
        forall r | r in paths - remaining ensures PathLe(q, r) {
          PathTransitive(q, p, r);
        }
        p := q;
      }
      PathTotal(p, q);
      remaining := remaining - {q};
    }
  }

  lemma LeastExists(paths: set<Path>) returns (p: Path)
    requires paths != {}
    ensures IsLeast(p, paths)
    decreases paths
  {
    hide PathLe;
    p :| p in paths;
    PathTotal(p, p);
    if paths != {p} {
      var q := LeastExists(paths - {p});
      PathTotal(p, q);
      if PathLe(p, q) {
        forall r | r in paths ensures PathLe(p, r) {
          if r != p { PathTransitive(p, q, r); }
        }
      } else {
        p := q;
      }
    }
  }

  lemma LeastIsUnique(paths: set<Path>, p: Path, q: Path)
    requires IsLeast(p, paths) && IsLeast(q, paths)
    ensures p == q
  {
    PathAntisymmetric(p, q);
  }

  lemma SomeLeast(paths: set<Path>)
    ensures paths != {} ==> exists p :: IsLeast(p, paths)
  {
    if paths != {} {
      var p := LeastExists(paths);
    }
  }

  /** The paths of a set in order, as a sorted set iterates over them. */
  ghost function Ascending(paths: set<Path>): (order: seq<Path>)
    ensures forall p :: p in order <==> p in paths
    decreases paths
  {
    if paths == {} then []
    else
      SomeLeast(paths);
      var p :| IsLeast(p, paths);
      [p] + Ascending(paths - {p})
  }

  lemma AscendingUnfolds(paths: set<Path>, p: Path)
    requires IsLeast(p, paths)
    ensures Ascending(paths) == [p] + Ascending(paths - {p})
  {
    hide IsLeast;
    assert p in paths by { LeastIsMember(paths, p); }
    forall q | IsLeast(q, paths) ensures q == p {
      LeastIsUnique(paths, p, q);
    }
  }

  lemma LeastIsMember(paths: set<Path>, p: Path)
    requires IsLeast(p, paths)
    ensures p in paths
  {
  }

  lemma {:induction false} AscendingIncreases(paths: set<Path>)
    ensures Increasing(Ascending(paths))
    decreases paths
  {
    hide PathLe;
    if paths != {} {
      var p := LeastExists(paths);
      AscendingUnfolds(paths, p);
      AscendingIncreases(paths - {p});
      var rest := Ascending(paths - {p});
      forall j | 0 <= j < |rest| ensures PathLe(p, rest[j]) && p != rest[j] {
        assert rest[j] in rest;
      }
    } else {
      assert Ascending(paths) == [];
    }
  }

  // ---------- rounds ----------

  predicate Captures(p: Path, q: Path) {
    EntryIsWithin(Render(q), Render(p))
  }

  /** One pending path: what lies within it leaves, and the index entries the textual test captures enter. */
  function Refill(owned: Tree, staged: Tree, p: Path): Tree {
    map q | q in owned.Keys + staged.Keys
            && if q in staged && Captures(p, q) then true else q in owned && !(p <= q)
      :: if q in staged && Captures(p, q) then staged[q] else owned[q]
  }

  /** All rounds, the last one last. */
  function RefillAll(parent: Tree, staged: Tree, order: seq<Path>): Tree {
    if order == [] then parent
    else Refill(RefillAll(parent, staged, order[..|order| - 1]), staged, order[|order| - 1])
  }

  /** The tree a commit of these pending paths writes. */
  ghost function CommittedTree(parent: Tree, staged: Tree, paths: set<Path>): Tree {
    RefillAll(parent, staged, Ascending(paths))
  }

  lemma NoRounds(parent: Tree, staged: Tree)
    ensures RefillAll(parent, staged, []) == parent && Ascending({}) == []
  {
  }

  lemma OneMoreRound(parent: Tree, staged: Tree, done: seq<Path>, p: Path)
    ensures RefillAll(parent, staged, done + [p]) == Refill(RefillAll(parent, staged, done), staged, p)
  {
    hide Refill;
    assert (done + [p])[..|done|] == done;
  }

  lemma RefillAt(owned: Tree, staged: Tree, p: Path, q: Path)
    ensures Lookup(Refill(owned, staged, p), q)
            == if q in staged && Captures(p, q) then Some(staged[q]) else if p <= q then None else Lookup(owned, q)
  {
    hide Captures;
  }

  /** The loop over the pending paths. */
  method OwnedTree(parent: Tree, staged: Tree, paths: set<Path>) returns (owned: Tree)
    ensures owned == CommittedTree(parent, staged, paths)
  {
    hide Refill, RefillAll, Ascending, IsLeast;
    owned := parent;
    var remaining := paths;
    ghost var done: seq<Path> := [];
    NoRounds(parent, staged);
    while remaining != {}
      invariant Ascending(paths) == done + Ascending(remaining)
      invariant owned == RefillAll(parent, staged, done)
      decreases remaining
    {
      var p := Least(remaining);
      AscendingUnfolds(remaining, p);
      LeastIsMember(remaining, p);
      owned := Refilled(owned, staged, p);
      OneMoreRound(parent, staged, done, p);
      assert done + ([p] + Ascending(remaining - {p})) == (done + [p]) + Ascending(remaining - {p});
      done := done + [p];
      remaining := remaining - {p};
    }
    assert done + Ascending(remaining) == done;
  }

  /** The loop over the index entries, after everything within the path was removed. */
  method Refilled(owned: Tree, staged: Tree, p: Path) returns (r: Tree)
    ensures r == Refill(owned, staged, p)
  {
    hide Captures, Overlay, Lookup, WithinAny, Refill;
    r := Overlay(owned, map[], {p});
    forall q { RemovedWithin(owned, p, q); }
    var entries := staged.Keys;
    while entries != {}
      invariant entries <= staged.Keys
      invariant forall q :: Lookup(r, q) == if q in staged && Captures(p, q) && q !in entries then Some(staged[q])
                                            else if p <= q then None else Lookup(owned, q)
      decreases entries
    {
      var q :| q in entries;
      if Captures(p, q) {
        forall k { UpdateLookup(r, q, staged[q], k); }
        r := r[q := staged[q]];
      }
      entries := entries - {q};
    }
    forall q ensures Lookup(r, q) == Lookup(Refill(owned, staged, p), q) {
      RefillAt(owned, staged, p, q);
    }
    SameTree(r, Refill(owned, staged, p));
  }

  lemma RemovedWithin(owned: Tree, p: Path, q: Path)
    ensures Lookup(Overlay(owned, map[], {p}), q) == if p <= q then None else Lookup(owned, q)
  {
    hide Overlay, WithinAny;
    OverlayAt(owned, map[], {p}, q);
    WithinOneMore(q, {}, p);
  }

  // ---------- what the rounds do to one entry ----------

  datatype Effect = Untouched | Taken | Dropped

  /** The last round that touches an index entry decides whether it enters the commit or drops out. */
  function EffectOn(order: seq<Path>, q: Path): Effect {
    if order == [] then Untouched
    else
      var last := order[|order| - 1];
      if Captures(last, q) then Taken
      else if last <= q then Dropped
      else EffectOn(order[..|order| - 1], q)
  }

  ghost function EffectOf(paths: set<Path>, q: Path): Effect {
    EffectOn(Ascending(paths), q)
  }

  /** What a commit holds at `q`, from the parent tree, the index and the pending paths alone. */
  ghost function CommittedAt(parent: Tree, staged: Tree, paths: set<Path>, q: Path): Option<Blob> {
    if q !in staged then if WithinAny(q, paths) then None else Lookup(parent, q)
    else match EffectOf(paths, q)
      case Taken => Some(staged[q])
      case Dropped => None
      case Untouched => Lookup(parent, q)
  }

  /** Some path of the list is `q` or above it. */
  predicate AnyAbove(order: seq<Path>, q: Path) {
    exists p :: p in order && p <= q
  }

  lemma NothingAbove(q: Path)
    ensures !AnyAbove([], q)
  {
  }

  lemma AnyAboveSnoc(order: seq<Path>, last: Path, q: Path)
    ensures AnyAbove(order + [last], q) <==> AnyAbove(order, q) || last <= q
  {
    assert last in order + [last];
    if AnyAbove(order, q) {
      var p :| p in order && p <= q;
      assert p in order + [last];
    }
  }

  lemma {:induction false} RefillAllAt(parent: Tree, staged: Tree, order: seq<Path>, q: Path)
    ensures Lookup(RefillAll(parent, staged, order), q)
            == if q !in staged then if AnyAbove(order, q) then None else Lookup(parent, q)
               else match EffectOn(order, q)
                 case Taken => Some(staged[q])
                 case Dropped => None
                 case Untouched => Lookup(parent, q)
    decreases |order|
  {
    hide Captures, Refill, Lookup, AnyAbove;
    if order == [] {
      NothingAbove(q);
    } else {
      var shorter, last := order[..|order| - 1], order[|order| - 1];
      RefillAllAt(parent, staged, shorter, q);
      RefillAt(RefillAll(parent, staged, shorter), staged, last, q);
      assert order == shorter + [last];
      AnyAboveSnoc(shorter, last, q);
    }
  }

  /** The committed tree at every path. */
  lemma CommittedTreeAt(parent: Tree, staged: Tree, paths: set<Path>, q: Path)
    ensures Lookup(CommittedTree(parent, staged, paths), q) == CommittedAt(parent, staged, paths, q)
  {
    hide RefillAll, EffectOn, Lookup;
    RefillAllAt(parent, staged, Ascending(paths), q);
  }

  /** A commit treats `q` as its containment in the pending paths promises. */
  ghost predicate FollowsPaths(paths: set<Path>, q: Path) {
    EffectOf(paths, q) == if WithinAny(q, paths) then Taken else Untouched
  }

  /**
   * The exact condition at one path, readable off the pending paths: whatever the trees hold, the commit
   * has the index within the pending paths and the parent elsewhere.
   */
  lemma FollowsPathsIff(paths: set<Path>, q: Path)
    ensures FollowsPaths(paths, q) <==>
            forall parent: Tree, staged: Tree ::
              Lookup(CommittedTree(parent, staged, paths), q) == Lookup(Overlay(parent, staged, paths), q)
  {
    hide CommittedTree, EffectOf, Overlay;
    if FollowsPaths(paths, q) {
      forall parent: Tree, staged: Tree
        ensures Lookup(CommittedTree(parent, staged, paths), q) == Lookup(Overlay(parent, staged, paths), q)
      {
        CommittedTreeAt(parent, staged, paths, q);
        OverlayAt(parent, staged, paths, q);
      }
    } else {
      var parent: Tree, staged: Tree := map[q := Utf8("HEAD")], map[q := Utf8("index")];
      assert "HEAD"[0] != "index"[0];
      CommittedTreeAt(parent, staged, paths, q);
      OverlayAt(parent, staged, paths, q);
      assert Lookup(CommittedTree(parent, staged, paths), q) != Lookup(Overlay(parent, staged, paths), q);
    }
  }

  // ---------- plain paths ----------

  ghost predicate AllPlain(paths: set<Path>) {
    forall p :: p in paths ==> Plain(p)
  }

  /** A path without a backslash is captured by every path above it but the root. */
  lemma PlainBelow(p: Path, q: Path)
    requires p != [] && p <= q && Plain(q)
    ensures Plain(p) && Captures(p, q)
  {
    hide EntryIsWithin, Render;
    forall i | 0 <= i < |p| ensures '\\' !in p[i] {
      assert p[i] == q[i];
    }
    PlainContainment(p, q);
  }

  /** A round for a path that is neither plain nor above `q` may capture `q`, but never drops it. */
  lemma {:induction false} PlainIsTaken(order: seq<Path>, i: nat, q: Path)
    requires Increasing(order) && i < |order| && order[i] != [] && order[i] <= q && Plain(q)
    ensures EffectOn(order, q) == Taken
    decreases |order|
  {
    hide Captures, Plain, PathLe;
    var shorter, last := order[..|order| - 1], order[|order| - 1];
    if last == [] {
      RootComesFirst(order, i);
    } else if last <= q {
      PlainBelow(last, q);
    } else {
      PlainIsTaken(shorter, i, q);
    }
  }

  lemma RootComesFirst(order: seq<Path>, i: nat)
    requires Increasing(order) && i < |order| && order[i] != []
    ensures order[|order| - 1] != []
  {
    assert i < |order| - 1 ==> PathLe(order[i], order[|order| - 1]);
  }

  /** A file without a backslash, at or below a pending path other than the root, always enters the commit. */
  lemma PlainSettles(paths: set<Path>, p: Path, q: Path)
    requires p in paths && p != [] && p <= q && Plain(q)
    ensures EffectOf(paths, q) == Taken && WithinAny(q, paths)
  {
    AscendingIncreases(paths);
    var order := Ascending(paths);
    var i :| 0 <= i < |order| && order[i] == p;
    PlainIsTaken(order, i, q);
  }

  /** Without the root among the pending paths no such file drops out. */
  lemma {:induction false} PlainNeverDrops(order: seq<Path>, q: Path)
    requires Plain(q) && [] !in order
    ensures EffectOn(order, q) != Dropped
    decreases |order|
  {
    hide Captures, Plain;
    if order != [] {
      var last := order[|order| - 1];
      if last <= q {
        PlainBelow(last, q);
      }
      PlainNeverDrops(order[..|order| - 1], q);
    }
  }

  /** Plain pending paths touch exactly what lies within them, and take it. */
  lemma {:induction false} AllPlainFollows(order: seq<Path>, q: Path)
    requires forall p :: p in order ==> Plain(p)
    ensures EffectOn(order, q) == if AnyAbove(order, q) then Taken else Untouched
    decreases |order|
  {
    hide Plain, Render, EntryIsWithin, AnyAbove;
    if order == [] {
      NothingAbove(q);
    } else {
      var shorter, last := order[..|order| - 1], order[|order| - 1];
      assert order == shorter + [last];
      AnyAboveSnoc(shorter, last, q);
      PlainContainment(last, q);
      AllPlainFollows(shorter, q);
    }
  }

  /** The last path that is not plain drops its own entry. */
  lemma {:induction false} LastOddDropsItself(order: seq<Path>, i: nat)
    requires Increasing(order) && i < |order| && !Plain(order[i]) && order[i] != []
    requires forall j :: i < j < |order| ==> Plain(order[j])
    ensures EffectOn(order, order[i]) == Dropped
    decreases |order|
  {
    hide Plain, Render, EntryIsWithin, PathLe;
    var q, last := order[i], order[|order| - 1];
    if i == |order| - 1 {
      BackslashMissesItself(q);
    } else {
      NotBelowLater(order, i);
      PlainContainment(last, q);
      LastOddDropsItself(order[..|order| - 1], i);
    }
  }

  lemma NotBelowLater(order: seq<Path>, i: nat)
    requires Increasing(order) && i < |order| - 1
    ensures !(order[|order| - 1] <= order[i])
  {
    var q, last := order[i], order[|order| - 1];
    if last <= q {
      PrefixComesFirst(last, q);
      PathAntisymmetric(last, q);
    }
  }

  lemma {:induction false} LastOdd(order: seq<Path>) returns (i: nat)
    requires exists p :: p in order && !Plain(p)
    ensures i < |order| && !Plain(order[i]) && forall j :: i < j < |order| ==> Plain(order[j])
    decreases |order|
  {
    hide Plain;
    if !Plain(order[|order| - 1]) {
      i := |order| - 1;
    } else {
      assert order == order[..|order| - 1] + [order[|order| - 1]];
      i := LastOdd(order[..|order| - 1]);
    }
  }

  /** A name longer than every first component. */
  function LongName(order: seq<Path>): (n: Name)
    ensures '\\' !in n && forall p :: p in order && p != [] ==> |p[0]| < |n|
  {
    if order == [] then "a"
    else
      var rest := LongName(order[1..]);
      if order[0] != [] && |order[0][0]| >= |rest| then Repeat(|order[0][0]| + 1) else rest
  }

  function Repeat(n: nat): (s: string)
    ensures |s| == n && '/' !in s && '\\' !in s
  {
    if n == 0 then "" else "a" + Repeat(n - 1)
  }

  /** If the root is pending and all else is plain, a file no other path covers drops out. */
  lemma {:induction false} RootDropsOthers(order: seq<Path>, n: Name)
    requires Increasing(order) && order != [] && order[0] == [] && forall j :: 0 < j < |order| ==> Plain(order[j])
    requires forall p :: p in order && p != [] ==> |p[0]| < |n|
    ensures EffectOn(order, [n]) == Dropped
    decreases |order|
  {
    hide Plain, Render, EntryIsWithin, PathLe;
    var last := order[|order| - 1];
    if |order| == 1 {
      RootCapturesNothing([n]);
    } else {
      assert last in order && last != order[0];
      PlainContainment(last, [n]);
      ShorterStart(last, n);
      RootDropsOthers(order[..|order| - 1], n);
    }
  }

  lemma ShorterStart(p: Path, n: Name)
    requires p != [] && |p[0]| < |n|
    ensures !(p <= [n])
  {
  }

  lemma RootCapturesNothing(q: Path)
    requires q != []
    ensures !Captures([], q)
  {
    assert Render([]) == "";
    assert Render(q)[0] == q[0][0] && q[0][0] in q[0];
  }

  /**
   * The exact condition for a whole commit: for all trees it has the index at and below its pending paths
   * and the parent tree elsewhere, so every pending path is settled and all other staging is left
   * alone, if and only if no pending path is the root or holds a backslash.
   */
  lemma CommitExactIff(paths: set<Path>)
    ensures AllPlain(paths) <==>
            forall parent: Tree, staged: Tree :: CommittedTree(parent, staged, paths) == Overlay(parent, staged, paths)
  {
    hide CommittedTree, Overlay, EffectOf, Plain, Lookup, FollowsPaths;
    if AllPlain(paths) {
      forall parent: Tree, staged: Tree ensures CommittedTree(parent, staged, paths) == Overlay(parent, staged, paths) {
        forall q ensures Lookup(CommittedTree(parent, staged, paths), q) == Lookup(Overlay(parent, staged, paths), q) {
          PlainFollows(paths, q);
          FollowsPathsIff(paths, q);
        }
        SameTree(CommittedTree(parent, staged, paths), Overlay(parent, staged, paths));
      }
    } else {
      var q := OddPathStrays(paths);
      FollowsPathsIff(paths, q);
    }
  }

  lemma PlainFollows(paths: set<Path>, q: Path)
    requires AllPlain(paths)
    ensures FollowsPaths(paths, q)
  {
    hide Plain, EffectOn;
    AllPlainFollows(Ascending(paths), q);
  }

  lemma OddPathStrays(paths: set<Path>) returns (q: Path)
    requires !AllPlain(paths)
    ensures !FollowsPaths(paths, q)
  {
    hide EffectOn, Plain;
    var order := Ascending(paths);
    AscendingIncreases(paths);
    var i := LastOdd(order);
    assert order[i] in order;
    if order[i] != [] {
      q := order[i];
      LastOddDropsItself(order, i);
    } else {
      q := [LongName(order)];
      RootIsFirst(order, i);
      RootDropsOthers(order, q[0]);
    }
  }

  lemma RootIsFirst(order: seq<Path>, i: nat)
    requires Increasing(order) && i < |order| && order[i] == []
    ensures i == 0
  {
    assert forall j :: 0 < j < |order| ==> PathLe(order[0], order[j]) && order[0] != order[j];
  }

  // ---------- one round ----------

  /** The same for one round: it yields the staged state within the path, for all trees, exactly when the path is
    * plain. */
  lemma RefillExactIff(p: Path)
    ensures Plain(p) <==> forall owned: Tree, staged: Tree :: Refill(owned, staged, p) == Overlay(owned, staged, {p})
  {
    hide Plain, Overlay, Refill, CommittedTree;
    var paths := {p};
    CommitExactIff(paths);
    assert AllPlain(paths) <==> Plain(p) by { assert p in paths; }
    forall owned: Tree, staged: Tree ensures CommittedTree(owned, staged, paths) == Refill(owned, staged, p) {
      OneRound(owned, staged, p);
    }
  }

  lemma OneRound(owned: Tree, staged: Tree, p: Path)
    ensures CommittedTree(owned, staged, {p}) == Refill(owned, staged, p)
  {
    hide Refill, RefillAll, Ascending;
    PathTotal(p, p);
    AscendingUnfolds({p}, p);
    assert {p} - {p} == {};
    NoRounds(owned, staged);
    OneMoreRound(owned, staged, [], p);
    assert [] + [p] == [p] + [];
  }
}
