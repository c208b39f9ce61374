/** Vault-relative paths, Git trees as finite maps, and the containment test the commit uses. */
module GitPaths {
  import opened Text

  /** One path component. */
  type Name = s: string | s != "" && '/' !in s witness "a"

  /** Components from the vault root down; the root itself has none. */
  type Path = seq<Name>

  datatype Blob = Utf8(text: string) | Raw(bytes: seq<nat>)

  /** A commit's tree or an index: every file with its content. */
  type Tree = map<Path, Blob>

  datatype Entry = Directory | File(blob: Blob)

  type Worktree = map<Path, Entry>

  function Lookup<V>(m: map<Path, V>, q: Path): Option<V> {
    if q in m then Some(m[q]) else None
  }

  /** The files of a working tree. */
  function Files(w: Worktree): Tree {
    map q | q in w && w[q].File? :: w[q].blob
  }

  /** The ancestors of every entry are directories. */
  ghost predicate ParentClosed(w: Worktree) {
    forall q, n :: q in w && 0 < n < |q| ==> q[..n] in w && w[q[..n]].Directory?
  }

  /** `q` is one of the paths or lies below one of them. */
  predicate WithinAny(q: Path, paths: set<Path>) {
    exists p :: p in paths && p <= q
  }

  lemma PrefixFacts(p: Path, q: Path)
    ensures p <= p
    ensures p <= q ==> q[..|p|] == p
    ensures p <= q && |q| <= |p| ==> p == q
    ensures p <= q <==> p == q || p < q
  {
  }

  lemma PrefixTransitive(p: Path, q: Path, r: Path)
    requires p <= q
    ensures q <= r ==> p <= r
    ensures q < r ==> p < r
  {
  }

  /** `top` within the given paths, `base` everywhere else. */
  function Overlay(base: Tree, top: Tree, paths: set<Path>): Tree {
    map q | q in base.Keys + top.Keys && (if WithinAny(q, paths) then q in top else q in base)
      :: if WithinAny(q, paths) then top[q] else base[q]
  }

  lemma OverlayAt(base: Tree, top: Tree, paths: set<Path>, q: Path)
    ensures Lookup(Overlay(base, top, paths), q) == if WithinAny(q, paths) then Lookup(top, q) else Lookup(base, q)
  {
    hide WithinAny;
  }

  /** A tree is what can be looked up in it. */
  lemma SameTree<V>(a: map<Path, V>, b: map<Path, V>)
    requires forall q :: Lookup(a, q) == Lookup(b, q)
    ensures a == b
  {
    assert forall q :: q in a <==> Lookup(a, q).Some?;
    assert forall q :: q in b <==> Lookup(b, q).Some?;
    forall q | q in a ensures a[q] == b[q] {
      assert Lookup(a, q) == Lookup(b, q);
    }
  }

  lemma UpdateLookup(m: Tree, q: Path, v: Blob, k: Path)
    ensures Lookup(m[q := v], k) == if k == q then Some(v) else Lookup(m, k)
  {
    if k == q {
      assert Lookup(m[q := v], k) == Some(v);
    } else {
      assert Lookup(m[q := v], k) == Lookup(m, k);
    }
  }

  lemma LookupIs<V>(m: map<Path, V>, q: Path)
    ensures Lookup(m, q) == if q in m then Some(m[q]) else None
  {
  }

  /** Overlaying one more path, whatever the nesting. */
  lemma OverlayOneMore(base: Tree, top: Tree, paths: set<Path>, p: Path)
    ensures Overlay(Overlay(base, top, paths), top, {p}) == Overlay(base, top, paths + {p})
  {
    hide Overlay, Lookup, WithinAny;
    var a, b := Overlay(Overlay(base, top, paths), top, {p}), Overlay(base, top, paths + {p});
    forall q ensures Lookup(a, q) == Lookup(b, q) {
      OverlayAt(base, top, paths, q);
      OverlayAt(Overlay(base, top, paths), top, {p}, q);
      OverlayAt(base, top, paths + {p}, q);
      WithinOneMore(q, paths, p);
    }
    SameTree(a, b);
  }

  lemma NothingWithin(q: Path)
    ensures !WithinAny(q, {})
  {
  }

  lemma SelfWithin(p: Path, paths: set<Path>)
    requires p in paths
    ensures WithinAny(p, paths)
  {
    assert p <= p;
  }

  lemma WithinOneMore(q: Path, paths: set<Path>, p: Path)
    ensures WithinAny(q, paths + {p}) <==> WithinAny(q, paths) || p <= q
    ensures WithinAny(q, {p}) <==> p <= q
  {
    assert p in {p} && p in paths + {p};
    if WithinAny(q, paths) {
      var r :| r in paths && r <= q;
      assert r in paths + {p};
    }
  }

  lemma OverlayNothing(base: Tree, top: Tree)
    ensures Overlay(base, top, {}) == base
  {
    hide Lookup, Overlay;
    forall q ensures Lookup(Overlay(base, top, {}), q) == Lookup(base, q) {
      OverlayAt(base, top, {}, q);
    }
    SameTree(Overlay(base, top, {}), base);
  }

  // ---------- the textual containment test ----------

  /** A path as the index stores it: components joined by slashes. */
  function Render(p: Path): string {
    if p == [] then "" else if |p| == 1 then p[0] else p[0] + "/" + Render(p[1..])
  }

  function Normalise(s: string): string {
    if s == [] then [] else [if s[0] == '\\' then '/' else s[0]] + Normalise(s[1..])
  }

  /** Whether an index entry belongs to a pending path, decided on their text. */
  predicate EntryIsWithin(entry: string, path: string) {
    entry == Normalise(path) || Normalise(path) + "/" <= entry
  }

  predicate Plain(p: Path) {
    p != [] && forall i :: 0 <= i < |p| ==> '\\' !in p[i]
  }

  /** Every component followed by a slash. */
  function Slashed(p: Path): string {
    if p == [] then "" else p[0] + "/" + Slashed(p[1..])
  }

  lemma {:induction false} RenderSlashed(p: Path)
    requires p != []
    ensures Render(p) + "/" == Slashed(p)
    decreases |p|
  {
    if |p| > 1 {
      RenderSlashed(p[1..]);
      assert p[0] + "/" + Render(p[1..]) + "/" == p[0] + "/" + (Render(p[1..]) + "/");
    } else {
      assert Slashed(p[1..]) == "";
      assert p[0] + "/" + "" == p[0] + "/";
    }
  }

  /** Names hold no slash, so equal text means equal first components. */
  lemma FirstComponent(a: Name, b: Name, x: string, y: string)
    requires a + "/" + x <= b + "/" + y
    ensures a == b && x <= y
  {
    var s, t := a + "/" + x, b + "/" + y;
    FirstSlash(a, x);
    FirstSlash(b, y);
    assert t[|a|] == '/';
    assert |b| <= |a|;
    assert s[|b|] == t[|b|];
    assert s[..|a|] == t[..|a|];
    assert s[|a| + 1..] <= t[|a| + 1..];
  }

  lemma FirstSlash(a: Name, x: string)
    ensures var s := a + "/" + x;
            s[|a|] == '/' && s[..|a|] == a && s[|a| + 1..] == x && forall i :: 0 <= i < |a| ==> s[i] != '/'
  {
    var s := a + "/" + x;
    forall i | 0 <= i < |a| ensures s[i] != '/' {
      assert s[i] == a[i] && a[i] in a;
    }
  }

  lemma {:induction false} SlashedConcat(p: Path, rest: Path)
    ensures Slashed(p + rest) == Slashed(p) + Slashed(rest)
    decreases |p|
  {
    if p == [] {
      assert p + rest == rest;
    } else {
      SlashedConcat(p[1..], rest);
      assert (p + rest)[1..] == p[1..] + rest;
      assert p[0] + "/" + (Slashed(p[1..]) + Slashed(rest)) == (p[0] + "/" + Slashed(p[1..])) + Slashed(rest);
    }
  }

  lemma {:induction false} SlashedPrefix(p: Path, q: Path)
    requires Slashed(p) <= Slashed(q)
    ensures p <= q
    decreases |p|
  {
    if p != [] && q != [] {
      FirstComponent(p[0], q[0], Slashed(p[1..]), Slashed(q[1..]));
      SlashedPrefix(p[1..], q[1..]);
    }
  }

  lemma SlashedPrefixIff(p: Path, q: Path)
    ensures Slashed(p) <= Slashed(q) <==> p <= q
  {
    hide Slashed;
    if Slashed(p) <= Slashed(q) {
      SlashedPrefix(p, q);
    }
    if p <= q {
      SlashedConcat(p, q[|p|..]);
      assert p + q[|p|..] == q;
    }
  }

  lemma {:induction false} NormaliseIs(s: string)
    ensures |Normalise(s)| == |s|
    ensures forall i :: 0 <= i < |s| ==> Normalise(s)[i] == if s[i] == '\\' then '/' else s[i]
  {
    if s != [] { NormaliseIs(s[1..]); }
  }

  lemma {:induction false} RenderedBackslash(p: Path)
    requires p != []
    ensures '\\' in Render(p) <==> !Plain(p)
    decreases |p|
  {
    if |p| > 1 {
      var rest := p[1..];
      RenderedBackslash(rest);
      assert '\\' in Render(p) <==> '\\' in p[0] || '\\' in Render(rest);
      if Plain(rest) && '\\' !in p[0] {
        assert forall i :: 1 <= i < |p| ==> p[i] == rest[i - 1];
      } else if !Plain(rest) {
        var i :| 0 <= i < |rest| && '\\' in rest[i];
        assert p[i + 1] == rest[i];
      }
    }
  }

  /** On a plain path the textual test is containment by components: sharing a name prefix is not enough. */
  lemma PlainContainment(p: Path, q: Path)
    requires Plain(p)
    ensures EntryIsWithin(Render(q), Render(p)) <==> p <= q
  {
    hide Render, Slashed, Normalise;
    var s, t := Render(p), Render(q);
    RenderedBackslash(p);
    NormaliseIs(s);
    assert Normalise(s) == s;
    RenderSlashed(p);
    RenderedEmpty(p);
    RenderedEmpty(q);
    if q != [] {
      RenderSlashed(q);
      SlashedPrefixIff(p, q);
      SlashOrEqual(s, t);
    }
  }

  lemma RenderedEmpty(p: Path)
    ensures Render(p) == "" <==> p == []
  {
  }

  lemma SlashOrEqual(s: string, t: string)
    ensures s + "/" <= t + "/" <==> t == s || s + "/" <= t
  {
    var a, b := s + "/", t + "/";
    if a <= b {
      assert b[..|a|] == a;
      assert s == a[..|s|] == b[..|s|] == t[..|s|];
      if |s| < |t| {
        assert t[..|a|] == b[..|a|];
      }
    }
    if s + "/" <= t {
      assert t <= t + "/";
    }
  }

  /**
   * The exact condition: the textual test agrees with containment on every entry just when the path is
   * not the root and holds no backslash. With a backslash it misses even the path itself.
   */
  lemma EntryIsWithinIff(p: Path)
    ensures Plain(p) <==> forall q: Path :: EntryIsWithin(Render(q), Render(p)) <==> p <= q
  {
    hide Render, Normalise, EntryIsWithin, Plain;
    if Plain(p) {
      forall q: Path ensures EntryIsWithin(Render(q), Render(p)) <==> p <= q {
        PlainContainment(p, q);
      }
    } else if p == [] {
      RootContainsNothing();
      var q: Path := ["a"];
      assert p <= q;
    } else {
      BackslashMissesItself(p);
    }
  }

  lemma RootContainsNothing()
    ensures !EntryIsWithin(Render(["a"]), Render([]))
  {
    assert Render(["a"]) == "a";
    assert "a"[0] != '/';
  }

  lemma BackslashMissesItself(p: Path)
    requires p != [] && !Plain(p)
    ensures !EntryIsWithin(Render(p), Render(p))
  {
    var s := Render(p);
    RenderedBackslash(p);
    NormaliseIs(s);
    var i :| 0 <= i < |s| && s[i] == '\\';
    assert Normalise(s)[i] != s[i];
  }
}
