/** Inlining local `$ref`s of a JSON schema in place, with a guard against recursive definitions. */
module RefInliner {
  import opened Text
  import opened Json

  datatype RefTarget = Root | Def(name: string)

  type Definitions = map<RefTarget, Value>

  function TargetOf(reference: string): Option<RefTarget> {
    if reference == "#" then Some(Root)
    else match StripPrefix(reference, "#/$defs/")
      case Some(name) => Some(Def(name))
      case None => None
  }

  /** The string under `$ref`, if there is one. */
  function Reference(fields: Object): Option<string> {
    AsStr(Get(fields, "$ref"))
  }

  function LocalTarget(fields: Object): Option<RefTarget> {
    match Reference(fields) case Some(reference) => TargetOf(reference) case None => None
  }

  /** The site's other keys override the resolved definition's. */
  function WithSiblings(resolved: Object, site: Object): Object
    decreases |site|
  {
    if site == [] then resolved
    else
      var merged := if site[0].key == "$ref" then resolved else Insert(resolved, site[0].key, site[0].value);
      WithSiblings(merged, site[1..])
  }

  function Visited(path: seq<RefTarget>): set<RefTarget> {
    set t | t in path
  }

  /** Terminates on every schema: each expansion uses up a definition, everything else a level of the tree. */
  function Inline(v: Value, defs: Definitions, path: seq<RefTarget>): Value
    decreases |defs.Keys - Visited(path)|, v
  {
    match v
    case Obj(fields) =>
      if Reference(fields).Some? then
        var target := LocalTarget(fields);
        if target.Some? && target.value !in path && target.value in defs then
          Shrinks(defs, path, target.value);
          var resolved := Inline(defs[target.value], defs, path + [target.value]);
          if resolved.Obj? then Obj(WithSiblings(resolved.fields, fields)) else v
        else v
      else Obj(seq(|fields|, i requires 0 <= i < |fields| => Field(fields[i].key, Inline(fields[i].value, defs, path))))
    case Arr(items) => Arr(seq(|items|, i requires 0 <= i < |items| => Inline(items[i], defs, path)))
    case _ => v
  }

  /** Outside a reference site the pass goes through the members or items. */
  lemma InlineUnfolds(v: Value, defs: Definitions, path: seq<RefTarget>)
    ensures v.Obj? && Reference(v.fields).None? ==>
              Inline(v, defs, path)
              == Obj(seq(|v.fields|, i requires 0 <= i < |v.fields| =>
                   Field(v.fields[i].key, Inline(v.fields[i].value, defs, path))))
    ensures v.Arr? ==>
              Inline(v, defs, path)
              == Arr(seq(|v.items|, i requires 0 <= i < |v.items| => Inline(v.items[i], defs, path)))
    ensures !v.Obj? && !v.Arr? ==> Inline(v, defs, path) == v
  {
    hide Reference, LocalTarget, WithSiblings, Visited;
  }

  lemma Shrinks(defs: Definitions, path: seq<RefTarget>, t: RefTarget)
    requires t !in path && t in defs
    ensures defs.Keys - Visited(path + [t]) == (defs.Keys - Visited(path)) - {t}
    ensures |defs.Keys - Visited(path + [t])| < |defs.Keys - Visited(path)|
  {
    assert defs.Keys - Visited(path + [t]) == (defs.Keys - Visited(path)) - {t};
    assert t in defs.Keys - Visited(path);
  }

  method MergeSite(resolved: Object, site: Object) returns (merged: Object)
    ensures merged == WithSiblings(resolved, site)
  {
    hide Insert;
    merged := resolved;
    for i := 0 to |site|
      invariant WithSiblings(merged, site[i..]) == WithSiblings(resolved, site)
    {
      assert site[i..][1..] == site[i + 1..];
      if site[i].key != "$ref" {
        merged := Insert(merged, site[i].key, site[i].value);
      }
    }
    assert site[|site|..] == [];
  }

  /** One inlining pass: the definitions and the stack of targets being expanded. */
  class Expansion {
    const definitions: Definitions
    var expanding: seq<RefTarget>

    constructor (defs: Definitions, start: RefTarget)
      ensures definitions == defs && expanding == [start]
    {
      definitions := defs;
      expanding := [start];
    }

    /** A `$ref` site: expand its definition first, then merge the siblings over it. */
    method InlineSite(fields: Object) returns (r: Value)
      requires Reference(fields).Some?
      modifies this
      ensures expanding == old(expanding)
      ensures r == Inline(Obj(fields), definitions, expanding)
      decreases |definitions.Keys - Visited(expanding)|, Obj(fields), 0
    {
      hide Get, WithSiblings, TargetOf, Visited;
      var target := LocalTarget(fields);
      if target.Some? && target.value !in expanding && target.value in definitions {
        ghost var before := expanding;
        Shrinks(definitions, expanding, target.value);
        expanding := expanding + [target.value];
        var resolved := InlineRefsIn(definitions[target.value]);
        expanding := expanding[..|expanding| - 1];
        assert expanding == before;
        if resolved.Obj? {
          var merged := MergeSite(resolved.fields, fields);
          return Obj(merged);
        }
      }
      r := Obj(fields);
    }

    method InlineRefsIn(value: Value) returns (r: Value)
      modifies this
      ensures expanding == old(expanding)
      ensures r == Inline(value, definitions, expanding)
      decreases |definitions.Keys - Visited(expanding)|, value, 1
    {
      hide Get, WithSiblings, TargetOf, Visited, Inline;
      InlineUnfolds(value, definitions, expanding);
      match value
      case Obj(fields) =>
        var reference := Reference(fields);
        if reference.Some? {
          r := InlineSite(fields);
          return;
        }
        var result := fields;
        for i := 0 to |fields|
          invariant expanding == old(expanding) && |result| == |fields|
          invariant forall k :: 0 <= k < i ==>
                      result[k] == Field(fields[k].key, Inline(fields[k].value, definitions, expanding))
          invariant forall k :: i <= k < |fields| ==> result[k] == fields[k]
        {
          var child := InlineRefsIn(fields[i].value);
          result := result[i := Field(fields[i].key, child)];
        }
        r := Obj(result);
      case Arr(items) =>
        var result := items;
        for i := 0 to |items|
          invariant expanding == old(expanding) && |result| == |items|
          invariant forall k :: 0 <= k < i ==> result[k] == Inline(items[k], definitions, expanding)
          invariant forall k :: i <= k < |items| ==> result[k] == items[k]
        {
          var child := InlineRefsIn(items[i]);
          result := result[i := child];
        }
        r := Arr(result);
      case _ => r := value;
    }
  }

  /** `Map::remove`, which moves the last member into the gap. */
  function SwapRemove(o: Object, key: string): Object {
    if !HasKey(o, key) then o
    else
      var i := KeyIndex(o, key);
      if i == |o| - 1 then o[..i] else o[..i] + [o[|o| - 1]] + o[i + 1..|o| - 1]
  }

  function KeyIndex(o: Object, key: string): (i: nat)
    requires HasKey(o, key)
    ensures i < |o| && o[i].key == key && forall j :: 0 <= j < i ==> o[j].key != key
  {
    if o[0].key == key then 0 else
      HasKeyTail(o, key);
      1 + KeyIndex(o[1..], key)
  }

  function DefinitionsOf(defs: Object): (m: Definitions)
    ensures Root !in m
    ensures forall i :: 0 <= i < |defs| ==> Def(defs[i].key) in m
    ensures forall name :: Def(name) in m ==> HasKey(defs, name)
  {
    if defs == [] then map[]
    else
      var last := defs[|defs| - 1];
      var m := DefinitionsOf(defs[..|defs| - 1])[Def(last.key) := last.value];
      assert forall name :: HasKey(defs[..|defs| - 1], name) ==> HasKey(defs, name);
      m
  }

  /** The schema without its `$defs`, and every target a local reference can name. */
  function RootShape(root: Object): Object {
    SwapRemove(root, "$defs")
  }

  function AllDefinitions(root: Object): Definitions {
    var named := match Get(root, "$defs") case Some(Obj(defs)) => DefinitionsOf(defs) case _ => map[];
    named[Root := Obj(RootShape(root))]
  }

  function InlineLocalRefs(schema: Value): Value {
    match schema
    case Obj(root) =>
      (match Inline(Obj(RootShape(root)), AllDefinitions(root), [Root])
       case Obj(result) => Obj(SwapRemove(result, "$defs"))
       case _ => Obj(SwapRemove(root, "$defs")))
    case _ => schema
  }

  method RunInlineLocalRefs(schema: Value) returns (r: Value)
    ensures r == InlineLocalRefs(schema)
  {
    hide Inline, SwapRemove;
    if !schema.Obj? {
      return schema;
    }
    var expansion := new Expansion(AllDefinitions(schema.fields), Root);
    var expanded := expansion.InlineRefsIn(Obj(RootShape(schema.fields)));
    var root := schema.fields;
    if expanded.Obj? {
      root := expanded.fields;
    }
    r := Obj(SwapRemove(root, "$defs"));
  }

  // ---------- what is left after inlining ----------

  ghost predicate HasLocalRef(v: Value) {
    match v
    case Obj(fields) => LocalTarget(fields).Some? || exists i :: 0 <= i < |fields| && HasLocalRef(fields[i].value)
    case Arr(items) => exists i :: 0 <= i < |items| && HasLocalRef(items[i])
    case _ => false
  }

  /** `v` holds a site, not below another `$ref`, that names `t`. */
  ghost predicate RefersTo(v: Value, t: RefTarget) {
    match v
    case Obj(fields) =>
      if Reference(fields).Some? then LocalTarget(fields) == Some(t)
      else exists i :: 0 <= i < |fields| && RefersTo(fields[i].value, t)
    case Arr(items) => exists i :: 0 <= i < |items| && RefersTo(items[i], t)
    case _ => false
  }

  /** Keys next to a `$ref` hold no local reference themselves. */
  ghost predicate PlainSiblings(v: Value) {
    match v
    case Obj(fields) =>
      if Reference(fields).Some?
      then forall i :: 0 <= i < |fields| ==> !HasLocalRef(fields[i].value)
      else forall i :: 0 <= i < |fields| ==> PlainSiblings(fields[i].value)
    case Arr(items) => forall i :: 0 <= i < |items| ==> PlainSiblings(items[i])
    case _ => true
  }

  /** Definitions are objects that reference only definitions, with plain siblings. */
  ghost predicate Resolvable(defs: Definitions) {
    forall t :: t in defs ==>
      defs[t].Obj? && PlainSiblings(defs[t]) && forall u :: RefersTo(defs[t], u) ==> u in defs
  }

  /** A walk along references, each target naming the next. */
  ghost predicate IsWalk(w: seq<RefTarget>, defs: Definitions) {
    (forall i :: 0 <= i < |w| ==> w[i] in defs)
    && forall i :: 0 <= i < |w| - 1 ==> RefersTo(defs[w[i]], w[i + 1])
  }

  ghost predicate Distinct(w: seq<RefTarget>) {
    forall i, j :: 0 <= i < j < |w| ==> w[i] != w[j]
  }

  /** No walk that extends `path` meets a target twice. */
  ghost predicate AcyclicFrom(path: seq<RefTarget>, defs: Definitions) {
    forall w :: IsWalk(w, defs) && path <= w ==> Distinct(w)
  }

  ghost predicate Acyclic(defs: Definitions) {
    AcyclicFrom([Root], defs)
  }

  lemma {:induction false} InsertHolds(o: Object, key: string, value: Value)
    ensures forall f :: f in Insert(o, key, value) ==> f in o || f == Field(key, value)
    decreases |o|
  {
    if o != [] && o[0].key != key {
      InsertHolds(o[1..], key, value);
    }
  }

  /** Merging siblings keeps the definition's own `$ref`, and adds only the siblings. */
  lemma {:induction false} SiblingsHold(resolved: Object, site: Object)
    ensures forall f :: f in WithSiblings(resolved, site) ==> f in resolved || f in site
    ensures Get(WithSiblings(resolved, site), "$ref") == Get(resolved, "$ref")
    decreases |site|
  {
    hide Insert, Get;
    if site != [] {
      if site[0].key == "$ref" {
        SiblingsHold(resolved, site[1..]);
      } else {
        var next := Insert(resolved, site[0].key, site[0].value);
        InsertHolds(resolved, site[0].key, site[0].value);
        InsertGet(resolved, site[0].key, site[0].value, "$ref");
        SiblingsHold(next, site[1..]);
      }
    }
  }

  /** Inlining an object gives an object. */
  lemma InlineKeepsObjects(v: Value, defs: Definitions, path: seq<RefTarget>)
    ensures v.Obj? ==> Inline(v, defs, path).Obj?
  {
  }

  lemma WalkExtends(path: seq<RefTarget>, t: RefTarget, defs: Definitions)
    requires path != [] && IsWalk(path, defs) && t in defs && RefersTo(defs[path[|path| - 1]], t)
    ensures IsWalk(path + [t], defs)
  {
  }

  /** Next to an acyclic walk, a referenced target is new. */
  lemma NextIsNew(path: seq<RefTarget>, t: RefTarget, defs: Definitions)
    requires path != [] && IsWalk(path, defs) && t in defs && RefersTo(defs[path[|path| - 1]], t)
    requires AcyclicFrom(path, defs)
    ensures t !in path && IsWalk(path + [t], defs) && AcyclicFrom(path + [t], defs)
  {
    WalkExtends(path, t, defs);
    var w := path + [t];
    assert path <= w && Distinct(w);
    assert forall i :: 0 <= i < |path| ==> w[i] != w[|path|];
    forall longer | IsWalk(longer, defs) && w <= longer ensures Distinct(longer) {
      assert path <= longer;
    }
  }

  /** What a subtree of the definition last entered may reference. */
  ghost predicate Within(v: Value, path: seq<RefTarget>, defs: Definitions) {
    path != [] && IsWalk(path, defs)
    && PlainSiblings(v) && forall t :: RefersTo(v, t) ==> RefersTo(defs[path[|path| - 1]], t)
  }

  lemma DefinitionIsWithin(path: seq<RefTarget>, defs: Definitions)
    requires Resolvable(defs) && path != [] && IsWalk(path, defs)
    ensures Within(defs[path[|path| - 1]], path, defs)
  {
  }

  lemma ChildIsWithin(v: Value, i: nat, path: seq<RefTarget>, defs: Definitions)
    requires Within(v, path, defs)
    requires (v.Obj? && Reference(v.fields).None? && i < |v.fields|) || (v.Arr? && i < |v.items|)
    ensures Within(if v.Obj? then v.fields[i].value else v.items[i], path, defs)
  {
    var child := if v.Obj? then v.fields[i].value else v.items[i];
    forall t | RefersTo(child, t) ensures RefersTo(v, t) {
    }
  }

  /** The target of a reference site is a definition the enclosing one refers to. */
  lemma SiteTarget(v: Value, t: RefTarget, path: seq<RefTarget>, defs: Definitions)
    requires Resolvable(defs) && Within(v, path, defs) && v.Obj? && LocalTarget(v.fields) == Some(t)
    ensures t in defs && RefersTo(defs[path[|path| - 1]], t)
  {
    assert RefersTo(v, t);
  }

  /** With acyclic references nothing local is left. */
  lemma {:induction false} AcyclicInlinesFully(v: Value, defs: Definitions, path: seq<RefTarget>)
    requires Resolvable(defs) && Within(v, path, defs) && AcyclicFrom(path, defs)
    ensures !HasLocalRef(Inline(v, defs, path))
    decreases |defs.Keys - Visited(path)|, v, 1
  {
    hide Resolvable, IsWalk, Distinct, AcyclicFrom, Get, WithSiblings, TargetOf;
    match v
    case Obj(fields) =>
      if Reference(fields).None? {
        FieldsInlineFully(v, defs, path);
      } else if LocalTarget(fields).Some? {
        SiteInlinesFully(v, LocalTarget(fields).value, defs, path);
      }
    case Arr(items) =>
      forall i | 0 <= i < |items| ensures !HasLocalRef(Inline(items[i], defs, path)) {
        ChildIsWithin(v, i, path, defs);
        AcyclicInlinesFully(items[i], defs, path);
      }
    case _ =>
  }

  lemma {:induction false} SiteInlinesFully(v: Value, t: RefTarget, defs: Definitions, path: seq<RefTarget>)
    requires Resolvable(defs) && Within(v, path, defs) && AcyclicFrom(path, defs)
    requires v.Obj? && LocalTarget(v.fields) == Some(t)
    ensures !HasLocalRef(Inline(v, defs, path))
    decreases |defs.Keys - Visited(path)|, v, 0
  {
    hide Resolvable, IsWalk, Distinct, AcyclicFrom, Get, WithSiblings, TargetOf;
    SiteTarget(v, t, path, defs);
    NextIsNew(path, t, defs);
    Shrinks(defs, path, t);
    EnterDefinition(path, t, defs);
    AcyclicInlinesFully(defs[t], defs, path + [t]);
    InlineKeepsObjects(defs[t], defs, path + [t]);
    SiteIsClean(Inline(defs[t], defs, path + [t]), v.fields);
  }

  lemma EnterDefinition(path: seq<RefTarget>, t: RefTarget, defs: Definitions)
    requires Resolvable(defs) && IsWalk(path + [t], defs)
    ensures t in defs && defs[t].Obj? && Within(defs[t], path + [t], defs)
  {
    var w := path + [t];
    assert w[|w| - 1] == t;
    DefinitionIsWithin(w, defs);
  }

  lemma {:induction false} FieldsInlineFully(v: Value, defs: Definitions, path: seq<RefTarget>)
    requires Resolvable(defs) && Within(v, path, defs) && AcyclicFrom(path, defs)
    requires v.Obj? && Reference(v.fields).None?
    ensures !HasLocalRef(Inline(v, defs, path))
    decreases |defs.Keys - Visited(path)|, v, 0
  {
    hide Resolvable, IsWalk, Distinct, AcyclicFrom, Get, WithSiblings, TargetOf;
    var fields := v.fields;
    var result := Inline(v, defs, path).fields;
    forall i | 0 <= i < |fields| ensures !HasLocalRef(Inline(fields[i].value, defs, path)) {
      ChildIsWithin(v, i, path, defs);
      AcyclicInlinesFully(fields[i].value, defs, path);
    }
    InlinedReference(fields, result, defs, path);
  }

  /** A map without a string `$ref` has none after its members are inlined. */
  lemma {:induction false} InlinedReference(fields: Object, result: Object, defs: Definitions, path: seq<RefTarget>)
    requires Reference(fields).None? && |result| == |fields|
    requires forall i :: 0 <= i < |fields| ==> result[i] == Field(fields[i].key, Inline(fields[i].value, defs, path))
    ensures Reference(result).None?
    decreases |fields|
  {
    if fields != [] && fields[0].key != "$ref" {
      InlinedReference(fields[1..], result[1..], defs, path);
    }
  }

  lemma SiteIsClean(resolved: Value, site: Object)
    requires resolved.Obj? && !HasLocalRef(resolved)
    requires forall i :: 0 <= i < |site| ==> !HasLocalRef(site[i].value)
    ensures !HasLocalRef(Obj(WithSiblings(resolved.fields, site)))
  {
    hide WithSiblings, Get;
    var merged := WithSiblings(resolved.fields, site);
    SiblingsHold(resolved.fields, site);
    forall i | 0 <= i < |merged| ensures !HasLocalRef(merged[i].value) {
      assert merged[i] in merged;
    }
  }

  // ---------- the exact condition ----------

  /** Every `$ref` object is a bare reference. */
  ghost predicate BareRefs(v: Value) {
    match v
    case Obj(fields) =>
      if Reference(fields).Some? then |fields| == 1
      else forall i :: 0 <= i < |fields| ==> BareRefs(fields[i].value)
    case Arr(items) => forall i :: 0 <= i < |items| ==> BareRefs(items[i])
    case _ => true
  }

  /** A reference that cannot be expanded away is visible in the result. */
  lemma {:induction false} StuckRefStays(v: Value, t: RefTarget, defs: Definitions, path: seq<RefTarget>)
    requires RefersTo(v, t) && BareRefs(v) && t in defs && defs[t].Obj?
    requires t in path || HasLocalRef(Inline(defs[t], defs, path + [t]))
    ensures HasLocalRef(Inline(v, defs, path))
    decreases v
  {
    match v
    case Obj(fields) =>
      if Reference(fields).Some? {
        if t !in path {
          InlineKeepsObjects(defs[t], defs, path + [t]);
          BareSite(fields);
          assert WithSiblings(Inline(defs[t], defs, path + [t]).fields, fields)
            == Inline(defs[t], defs, path + [t]).fields;
        }
      } else {
        var i :| 0 <= i < |fields| && RefersTo(fields[i].value, t);
        StuckRefStays(fields[i].value, t, defs, path);
        var result := Inline(v, defs, path).fields;
        assert HasLocalRef(result[i].value);
      }
    case Arr(items) =>
      var i :| 0 <= i < |items| && RefersTo(items[i], t);
      StuckRefStays(items[i], t, defs, path);
      assert HasLocalRef(Inline(v, defs, path).items[i]);
    case _ =>
  }

  lemma BareSite(fields: Object)
    requires Reference(fields).Some? && |fields| == 1
    ensures fields[0].key == "$ref" && forall r :: WithSiblings(r, fields) == r
  {
    assert HasKey(fields, "$ref");
    assert fields[1..] == [];
  }

  /** Following a repeating walk, the pass meets a target it is already expanding. */
  lemma {:induction false} CycleLeavesRef(w: seq<RefTarget>, k: nat, defs: Definitions)
    requires Resolvable(defs) && (forall t :: t in defs ==> BareRefs(defs[t]))
    requires IsWalk(w, defs) && 0 < k <= |w| && Distinct(w[..k]) && !Distinct(w)
    ensures HasLocalRef(Inline(defs[w[k - 1]], defs, w[..k]))
    decreases |w| - k
  {
    hide Inline, HasLocalRef, BareRefs, Distinct, RefersTo;
    CycleStep(w, k, defs);
    var t := w[k];
    if t !in w[..k] {
      CycleLeavesRef(w, k + 1, defs);
    }
    StuckRefStays(defs[w[k - 1]], t, defs, w[..k]);
  }

  lemma CycleStep(w: seq<RefTarget>, k: nat, defs: Definitions)
    requires IsWalk(w, defs) && 0 < k <= |w| && Distinct(w[..k]) && !Distinct(w)
    ensures k < |w| && w[k] in defs && RefersTo(defs[w[k - 1]], w[k]) && w[..k + 1] == w[..k] + [w[k]]
    ensures w[k] !in w[..k] ==> Distinct(w[..k + 1])
  {
    hide RefersTo;
    assert w[..|w|] == w;
    assert RefersTo(defs[w[k - 1]], w[k - 1 + 1]);
  }

  /** With bare references, inlining removes every local reference exactly when no walk repeats. */
  lemma InlinesFullyIffAcyclic(defs: Definitions)
    requires Resolvable(defs) && Root in defs && forall t :: t in defs ==> BareRefs(defs[t])
    ensures !HasLocalRef(Inline(defs[Root], defs, [Root])) <==> Acyclic(defs)
  {
    if Acyclic(defs) {
      DefinitionIsWithin([Root], defs);
      AcyclicInlinesFully(defs[Root], defs, [Root]);
    } else {
      var w :| IsWalk(w, defs) && [Root] <= w && !Distinct(w);
      assert w[..1] == [Root];
      CycleLeavesRef(w, 1, defs);
    }
  }

  // ---------- the full unfolding ----------

  /** Replaces references by their definitions, `depth` levels deep, without any guard. */
  function Unfold(v: Value, defs: Definitions, depth: nat): Value
    decreases depth, v
  {
    match v
    case Obj(fields) =>
      if Reference(fields).Some? then
        var target := LocalTarget(fields);
        if target.Some? && target.value in defs && depth > 0 then
          var resolved := Unfold(defs[target.value], defs, depth - 1);
          if resolved.Obj? then Obj(WithSiblings(resolved.fields, fields)) else v
        else v
      else Obj(seq(|fields|,
        i requires 0 <= i < |fields| => Field(fields[i].key, Unfold(fields[i].value, defs, depth))))
    case Arr(items) => Arr(seq(|items|, i requires 0 <= i < |items| => Unfold(items[i], defs, depth)))
    case _ => v
  }

  lemma {:induction false} DistinctFits(w: seq<RefTarget>, keys: set<RefTarget>)
    requires Distinct(w) && forall i :: 0 <= i < |w| ==> w[i] in keys
    ensures |w| <= |keys|
    decreases |w|
  {
    if w != [] {
      var last := w[|w| - 1];
      DistinctFits(w[..|w| - 1], keys - {last});
    }
  }

  /** With acyclic references, every deep enough unfolding is what the pass computes. */
  lemma {:induction false} InlineIsUnfolding(v: Value, defs: Definitions, path: seq<RefTarget>, depth: nat)
    requires Resolvable(defs) && Within(v, path, defs) && AcyclicFrom(path, defs)
    requires |path| + depth >= |defs.Keys|
    ensures Inline(v, defs, path) == Unfold(v, defs, depth)
    decreases |defs.Keys - Visited(path)|, v, 1
  {
    hide Resolvable, IsWalk, Distinct, AcyclicFrom, Get, WithSiblings, TargetOf;
    match v
    case Obj(fields) =>
      if Reference(fields).None? {
        forall i | 0 <= i < |fields|
          ensures Inline(fields[i].value, defs, path) == Unfold(fields[i].value, defs, depth) {
          ChildIsWithin(v, i, path, defs);
          InlineIsUnfolding(fields[i].value, defs, path, depth);
        }
      } else if LocalTarget(fields).Some? {
        SiteIsUnfolding(v, LocalTarget(fields).value, defs, path, depth);
      }
    case Arr(items) =>
      forall i | 0 <= i < |items| ensures Inline(items[i], defs, path) == Unfold(items[i], defs, depth) {
        ChildIsWithin(v, i, path, defs);
        InlineIsUnfolding(items[i], defs, path, depth);
      }
    case _ =>
  }

  lemma {:induction false} SiteIsUnfolding(v: Value, t: RefTarget, defs: Definitions, path: seq<RefTarget>, depth: nat)
    requires Resolvable(defs) && Within(v, path, defs) && AcyclicFrom(path, defs)
    requires v.Obj? && LocalTarget(v.fields) == Some(t)
    requires |path| + depth >= |defs.Keys|
    ensures Inline(v, defs, path) == Unfold(v, defs, depth)
    decreases |defs.Keys - Visited(path)|, v, 0
  {
    hide Resolvable, Get, WithSiblings, TargetOf, RefersTo, Inline, Unfold, Distinct, AcyclicFrom, Reference;
    SiteTarget(v, t, path, defs);
    NextIsNew(path, t, defs);
    Shrinks(defs, path, t);
    EnterDefinition(path, t, defs);
    WalkIsDistinct(path + [t], defs);
    DistinctFits(path + [t], defs.Keys);
    SiteUnfolds(v, t, defs, path, depth);
    InlineIsUnfolding(defs[t], defs, path + [t], depth - 1);
  }

  lemma WalkIsDistinct(path: seq<RefTarget>, defs: Definitions)
    requires IsWalk(path, defs) && AcyclicFrom(path, defs)
    ensures Distinct(path)
  {
    hide IsWalk, Distinct;
    assert path <= path;
  }

  /** One expansion, of the pass and of the unfolding. */
  lemma SiteUnfolds(v: Value, t: RefTarget, defs: Definitions, path: seq<RefTarget>, depth: nat)
    requires v.Obj? && LocalTarget(v.fields) == Some(t) && t in defs && defs[t].Obj? && t !in path && depth > 0
    ensures Inline(v, defs, path)
            == var resolved := Inline(defs[t], defs, path + [t]);
               if resolved.Obj? then Obj(WithSiblings(resolved.fields, v.fields)) else v
    ensures Unfold(v, defs, depth)
            == var resolved := Unfold(defs[t], defs, depth - 1);
               if resolved.Obj? then Obj(WithSiblings(resolved.fields, v.fields)) else v
  {
    hide Get, WithSiblings, TargetOf;
  }

  /** Member names are unique in the schema and in each of its definitions, as in any parsed object. */
  ghost predicate UniqueMembers(root: Object) {
    Unique(root) && var defs := AllDefinitions(root); forall t :: t in defs && defs[t].Obj? ==> Unique(defs[t].fields)
  }

  lemma {:induction false} SiblingsUnique(resolved: Object, site: Object)
    requires Unique(resolved)
    ensures Unique(WithSiblings(resolved, site))
    decreases |site|
  {
    hide Insert;
    if site != [] {
      if site[0].key != "$ref" {
        InsertUnique(resolved, site[0].key, site[0].value);
        SiblingsUnique(Insert(resolved, site[0].key, site[0].value), site[1..]);
      } else {
        SiblingsUnique(resolved, site[1..]);
      }
    }
  }

  lemma {:induction false} InlineKeepsUnique(v: Value, defs: Definitions, path: seq<RefTarget>)
    requires v.Obj? && Unique(v.fields) && forall t :: t in defs && defs[t].Obj? ==> Unique(defs[t].fields)
    ensures Inline(v, defs, path).Obj? && Unique(Inline(v, defs, path).fields)
    decreases |defs.Keys - Visited(path)|
  {
    hide Get, WithSiblings, TargetOf;
    var target := LocalTarget(v.fields);
    if Reference(v.fields).Some? && target.Some? && target.value !in path && target.value in defs {
      var t := target.value;
      Shrinks(defs, path, t);
      if defs[t].Obj? {
        InlineKeepsUnique(defs[t], defs, path + [t]);
        SiblingsUnique(Inline(defs[t], defs, path + [t]).fields, v.fields);
      } else if Inline(defs[t], defs, path + [t]).Obj? {
        OnlyObjectsGiveObjects(defs[t], defs, path + [t]);
      }
    }
  }

  lemma OnlyObjectsGiveObjects(v: Value, defs: Definitions, path: seq<RefTarget>)
    ensures Inline(v, defs, path).Obj? ==> v.Obj?
  {
  }

  /** Dropping a member other than `$ref` leaves no new reference. */
  lemma SwapRemoveClean(o: Object, key: string)
    requires Unique(o) && key != "$ref" && !HasLocalRef(Obj(o))
    ensures !HasLocalRef(Obj(SwapRemove(o, key)))
  {
    var r := SwapRemove(o, key);
    assert forall f :: f in r ==> f in o;
    if HasKey(r, "$ref") {
      var i :| 0 <= i < |o| && o[i] == Field("$ref", Get(r, "$ref").value);
      GetAt(o, i);
    }
    forall i | 0 <= i < |r| ensures !HasLocalRef(r[i].value) {
      assert r[i] in o;
    }
  }

  /**
   * The whole pass on a schema whose references are acyclic: no local reference is left, and the
   * result is the root unfolded to any depth that reaches every definition, without `$defs`.
   */
  lemma SchemaFullyInlined(root: Object, depth: nat)
    requires UniqueMembers(root)
    requires var defs := AllDefinitions(root); Resolvable(defs) && Acyclic(defs) && depth + 1 >= |defs.Keys|
    ensures !HasLocalRef(InlineLocalRefs(Obj(root)))
    ensures var unfolded := Unfold(Obj(RootShape(root)), AllDefinitions(root), depth);
            unfolded.Obj? && InlineLocalRefs(Obj(root)) == Obj(SwapRemove(unfolded.fields, "$defs"))
  {
    hide Acyclic, Resolvable, SwapRemove, Inline, Unfold, HasLocalRef;
    var defs := AllDefinitions(root);
    assert defs[Root] == Obj(RootShape(root));
    RootIsWithin(defs);
    AcyclicInlinesFully(defs[Root], defs, [Root]);
    InlineIsUnfolding(defs[Root], defs, [Root], depth);
    InlineKeepsUnique(defs[Root], defs, [Root]);
    SwapRemoveClean(Inline(defs[Root], defs, [Root]).fields, "$defs");
  }

  lemma RootIsWithin(defs: Definitions)
    requires Resolvable(defs) && Acyclic(defs) && Root in defs
    ensures Within(defs[Root], [Root], defs) && AcyclicFrom([Root], defs)
  {
    DefinitionIsWithin([Root], defs);
  }
}
