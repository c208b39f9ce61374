/**
 * Exactly when the inliner leaves a local reference behind, on every schema: siblings next to a `$ref`
 * included, which stay unexpanded themselves and overwrite members of what the reference expands to.
 */
module RefResidue {
  import opened Text
  import opened Json
  import opened RefInliner

  /** No object at any level holds a key twice, as in any parsed document. */
  ghost predicate UniqueKeys(v: Value) {
    match v
    case Obj(fields) => Unique(fields) && forall i :: 0 <= i < |fields| ==> UniqueKeys(fields[i].value)
    case Arr(items) => forall i :: 0 <= i < |items| ==> UniqueKeys(items[i])
    case _ => true
  }

  ghost predicate AllUniqueKeys(defs: Definitions) {
    forall t :: t in defs ==> UniqueKeys(defs[t])
  }

  /** The keys a reference site overwrites. */
  function Siblings(site: Object): set<string> {
    set i | 0 <= i < |site| && site[i].key != "$ref" :: site[i].key
  }

  /** A local reference in a member that is not overwritten, or at the top. */
  ghost predicate HasRefOutside(v: Value, mask: set<string>) {
    match v
    case Obj(fields) =>
      LocalTarget(fields).Some?
        || exists i :: 0 <= i < |fields| && fields[i].key !in mask && HasLocalRef(fields[i].value)
    case _ => HasLocalRef(v)
  }

  /** A local reference next to a `$ref`, where the pass does not look, in a member that is not overwritten. */
  ghost predicate Dirty(v: Value, mask: set<string>) {
    match v
    case Obj(fields) =>
      if Reference(fields).Some?
      then
        exists i :: 0 <= i < |fields| && fields[i].key != "$ref" && fields[i].key !in mask
                    && HasLocalRef(fields[i].value)
      else exists i :: 0 <= i < |fields| && fields[i].key !in mask && Dirty(fields[i].value, {})
    case Arr(items) => exists i :: 0 <= i < |items| && Dirty(items[i], {})
    case _ => false
  }

  /** `v` holds, in a member that is not overwritten, a site that names `t` and overwrites `over` of it. */
  ghost predicate Exposes(v: Value, mask: set<string>, t: RefTarget, over: set<string>) {
    match v
    case Obj(fields) =>
      if Reference(fields).Some? then LocalTarget(fields) == Some(t) && over == mask + Siblings(fields)
      else exists i :: 0 <= i < |fields| && fields[i].key !in mask && Exposes(fields[i].value, {}, t, over)
    case Arr(items) => exists i :: 0 <= i < |items| && Exposes(items[i], {}, t, over)
    case _ => false
  }

  /** The target cannot be expanded here, or its expansion leaves a reference in what is kept of it. */
  ghost predicate Remains(t: RefTarget, over: set<string>, defs: Definitions, path: seq<RefTarget>) {
    t in path || t !in defs || !defs[t].Obj? || HasRefOutside(Inline(defs[t], defs, path + [t]), over)
  }

  ghost predicate SomethingRemains(v: Value, mask: set<string>, defs: Definitions, path: seq<RefTarget>) {
    exists t, over :: Exposes(v, mask, t, over) && Remains(t, over, defs, path)
  }

  // ---------- merging siblings ----------

  lemma {:induction false} MergedGet(resolved: Object, site: Object, key: string)
    requires Unique(site)
    ensures Get(WithSiblings(resolved, site), key)
            == if key != "$ref" && HasKey(site, key) then Get(site, key) else Get(resolved, key)
    decreases |site|
  {
    hide Insert, Get;
    if site == [] {
      NoKeys(key);
    } else {
      var next := if site[0].key == "$ref" then resolved else Insert(resolved, site[0].key, site[0].value);
      MergedGet(next, site[1..], key);
      InsertGet(resolved, site[0].key, site[0].value, key);
      GetCons(site, key);
    }
  }

  lemma NoKeys(key: string)
    ensures !HasKey([], key)
  {
  }

  lemma GetCons(o: Object, key: string)
    requires o != [] && Unique(o)
    ensures HasKey(o, key) <==> o[0].key == key || HasKey(o[1..], key)
    ensures Get(o, key) == if o[0].key == key then Some(o[0].value) else Get(o[1..], key)
    ensures o[0].key == key ==> !HasKey(o[1..], key)
    ensures Unique(o[1..])
  {
    if o[0].key != key {
      HasKeyTail(o, key);
    }
  }

  /** In an object with unique keys a member is what its key gets. */
  ghost predicate HasRefMember(o: Object, mask: set<string>) {
    exists key :: key !in mask && Get(o, key).Some? && HasLocalRef(Get(o, key).value)
  }

  lemma MembersByKey(o: Object, mask: set<string>)
    requires Unique(o)
    ensures HasRefOutside(Obj(o), mask) <==> LocalTarget(o).Some? || HasRefMember(o, mask)
  {
    hide Get, HasLocalRef;
    if i :| 0 <= i < |o| && o[i].key !in mask && HasLocalRef(o[i].value) {
      GetAt(o, i);
      assert Get(o, o[i].key).Some? && HasLocalRef(Get(o, o[i].key).value);
    }
    if HasRefMember(o, mask) {
      var key :| key !in mask && Get(o, key).Some? && HasLocalRef(Get(o, key).value);
      GetIsField(o, key);
      var i :| 0 <= i < |o| && o[i] == Field(key, Get(o, key).value);
    }
  }

  lemma GetIsField(o: Object, key: string)
    requires Get(o, key).Some?
    ensures exists i :: 0 <= i < |o| && o[i] == Field(key, Get(o, key).value)
  {
  }

  lemma SiblingsAre(site: Object, key: string)
    ensures key in Siblings(site) <==> key != "$ref" && HasKey(site, key)
  {
  }

  /** What a site leaves: what its expansion keeps, and its siblings. */
  lemma SiteLeaves(resolved: Object, site: Object, mask: set<string>)
    requires Unique(resolved) && Unique(site) && Reference(site).Some?
    ensures HasRefOutside(Obj(WithSiblings(resolved, site)), mask) <==>
            HasRefOutside(Obj(resolved), mask + Siblings(site)) || Dirty(Obj(site), mask)
  {
    hide WithSiblings, Get, HasLocalRef, HasRefOutside, Siblings, HasKey, Reference;
    var merged := WithSiblings(resolved, site);
    SiblingsUnique(resolved, site);
    MembersByKey(merged, mask);
    MembersByKey(resolved, mask + Siblings(site));
    MergedGet(resolved, site, "$ref");
    SameTarget(merged, resolved);
    DirtyByKey(site, mask);
    forall key
      ensures Get(merged, key) == if key in Siblings(site) then Get(site, key) else Get(resolved, key)
      ensures key in Siblings(site) ==> Get(site, key).Some?
    {
      MergedGet(resolved, site, key);
      SiblingsAre(site, key);
      GetHas(site, key);
    }
  }

  lemma GetHas(o: Object, key: string)
    ensures Get(o, key).Some? <==> HasKey(o, key)
  {
  }

  lemma SameTarget(a: Object, b: Object)
    requires Get(a, "$ref") == Get(b, "$ref")
    ensures LocalTarget(a) == LocalTarget(b)
  {
  }

  lemma DirtyByKey(site: Object, mask: set<string>)
    requires Unique(site) && Reference(site).Some?
    ensures Dirty(Obj(site), mask) <==>
            exists key :: key in Siblings(site) && key !in mask && Get(site, key).Some?
                          && HasLocalRef(Get(site, key).value)
  {
    hide Get, HasLocalRef, Reference;
    if Dirty(Obj(site), mask) {
      var i :| 0 <= i < |site| && site[i].key != "$ref" && site[i].key !in mask && HasLocalRef(site[i].value);
      GetAt(site, i);
      assert site[i].key in Siblings(site) && Get(site, site[i].key).Some?;
    }
    if key :| key in Siblings(site) && key !in mask && Get(site, key).Some? && HasLocalRef(Get(site, key).value) {
      GetIsField(site, key);
      var i :| 0 <= i < |site| && site[i] == Field(key, Get(site, key).value);
      SiblingsAre(site, key);
    }
  }

  // ---------- one level ----------

  /** What inlining a value leaves in what is kept of it: a dirty sibling, or what remains of an exposed target. */
  lemma {:induction false} LeavesIff(v: Value, mask: set<string>, defs: Definitions, path: seq<RefTarget>)
    requires UniqueKeys(v) && AllUniqueKeys(defs)
    ensures HasRefOutside(Inline(v, defs, path), mask) <==> Dirty(v, mask) || SomethingRemains(v, mask, defs, path)
    decreases v
  {
    hide Inline, HasRefOutside, Dirty, Exposes, Remains, Get, AllUniqueKeys;
    match v
    case Obj(fields) =>
      if Reference(fields).Some? {
        SiteLeavesIff(fields, mask, defs, path);
      } else {
        forall i | 0 <= i < |fields|
          ensures HasRefOutside(Inline(fields[i].value, defs, path), {})
                  <==> Dirty(fields[i].value, {}) || SomethingRemains(fields[i].value, {}, defs, path)
        {
          LeavesIff(fields[i].value, {}, defs, path);
        }
        var parts := seq(|fields|, i requires 0 <= i < |fields| => fields[i].value);
        var kept := seq(|fields|, i requires 0 <= i < |fields| => fields[i].key !in mask);
        MadeOfIff(v, mask, parts, kept, defs, path);
      }
    case Arr(items) =>
      forall i | 0 <= i < |items|
        ensures HasRefOutside(Inline(items[i], defs, path), {})
                <==> Dirty(items[i], {}) || SomethingRemains(items[i], {}, defs, path)
      {
        LeavesIff(items[i], {}, defs, path);
      }
      MadeOfIff(v, mask, items, seq(|items|, i => true), defs, path);
    case _ => ScalarLeavesNothing(v, mask, defs, path);
  }

  lemma ScalarLeavesNothing(v: Value, mask: set<string>, defs: Definitions, path: seq<RefTarget>)
    requires !v.Obj? && !v.Arr?
    ensures !HasRefOutside(Inline(v, defs, path), mask) && !Dirty(v, mask) && !SomethingRemains(v, mask, defs, path)
  {
    hide Remains;
  }

  lemma OutsideNothing(v: Value)
    ensures HasRefOutside(v, {}) <==> HasLocalRef(v)
  {
  }

  /** Some part is left, after inlining, or remains. */
  ghost predicate PartLeft(parts: seq<Value>, kept: seq<bool>, defs: Definitions, path: seq<RefTarget>)
    requires |kept| == |parts|
  {
    exists i :: 0 <= i < |parts| && kept[i] && HasRefOutside(Inline(parts[i], defs, path), {})
  }

  ghost predicate PartDirty(parts: seq<Value>, kept: seq<bool>)
    requires |kept| == |parts|
  {
    exists i :: 0 <= i < |parts| && kept[i] && Dirty(parts[i], {})
  }

  ghost predicate PartRemains(parts: seq<Value>, kept: seq<bool>, defs: Definitions, path: seq<RefTarget>)
    requires |kept| == |parts|
  {
    exists i :: 0 <= i < |parts| && kept[i] && SomethingRemains(parts[i], {}, defs, path)
  }

  lemma PartsLeaveIff(parts: seq<Value>, kept: seq<bool>, defs: Definitions, path: seq<RefTarget>)
    requires |kept| == |parts|
    requires forall i :: 0 <= i < |parts| ==>
      (HasRefOutside(Inline(parts[i], defs, path), {})
       <==> Dirty(parts[i], {}) || SomethingRemains(parts[i], {}, defs, path))
    ensures PartLeft(parts, kept, defs, path) <==> PartDirty(parts, kept) || PartRemains(parts, kept, defs, path)
  {
    hide HasRefOutside, Inline, Dirty, SomethingRemains;
  }

  /** The parts of an array or of an object that is no reference site. */
  ghost predicate IsMadeOf(v: Value, mask: set<string>, parts: seq<Value>, kept: seq<bool>) {
    match v
    case Arr(items) => parts == items && |kept| == |items| && forall i :: 0 <= i < |items| ==> kept[i]
    case Obj(fields) =>
      && Reference(fields).None? && |parts| == |kept| == |fields|
      && forall i :: 0 <= i < |fields| ==> parts[i] == fields[i].value && kept[i] == (fields[i].key !in mask)
    case _ => false
  }

  lemma MadeOfDirty(v: Value, mask: set<string>, parts: seq<Value>, kept: seq<bool>)
    requires IsMadeOf(v, mask, parts, kept)
    ensures |kept| == |parts| && (Dirty(v, mask) <==> PartDirty(parts, kept))
  {
    hide Get;
    if i :| 0 <= i < |parts| && kept[i] && Dirty(parts[i], {}) {
      if v.Obj? {
        assert v.fields[i].key !in mask && Dirty(v.fields[i].value, {});
      }
    }
    if v.Obj? && Dirty(v, mask) {
      var i :| 0 <= i < |v.fields| && v.fields[i].key !in mask && Dirty(v.fields[i].value, {});
      assert kept[i] && Dirty(parts[i], {});
    }
  }

  lemma MadeOfExposes(v: Value, mask: set<string>, parts: seq<Value>, kept: seq<bool>, t: RefTarget, over: set<string>)
    requires IsMadeOf(v, mask, parts, kept)
    ensures |kept| == |parts|
    ensures Exposes(v, mask, t, over) <==> exists i :: 0 <= i < |parts| && kept[i] && Exposes(parts[i], {}, t, over)
  {
    hide Get;
    if i :| 0 <= i < |parts| && kept[i] && Exposes(parts[i], {}, t, over) {
      if v.Obj? {
        assert v.fields[i].key !in mask && Exposes(v.fields[i].value, {}, t, over);
      }
    }
    if v.Obj? && Exposes(v, mask, t, over) {
      var i :| 0 <= i < |v.fields| && v.fields[i].key !in mask && Exposes(v.fields[i].value, {}, t, over);
      assert kept[i] && Exposes(parts[i], {}, t, over);
    }
  }

  lemma MadeOfRemains(v: Value, mask: set<string>, parts: seq<Value>, kept: seq<bool>, defs: Definitions,
    path: seq<RefTarget>)
    requires IsMadeOf(v, mask, parts, kept)
    ensures |kept| == |parts| && (SomethingRemains(v, mask, defs, path) <==> PartRemains(parts, kept, defs, path))
  {
    hide Exposes, Remains, IsMadeOf;
    if SomethingRemains(v, mask, defs, path) {
      var t, over :| Exposes(v, mask, t, over) && Remains(t, over, defs, path);
      MadeOfExposes(v, mask, parts, kept, t, over);
      var i :| 0 <= i < |parts| && kept[i] && Exposes(parts[i], {}, t, over);
      assert SomethingRemains(parts[i], {}, defs, path);
    }
    MadeOfLength(v, mask, parts, kept);
    if i :| 0 <= i < |parts| && kept[i] && SomethingRemains(parts[i], {}, defs, path) {
      var t, over :| Exposes(parts[i], {}, t, over) && Remains(t, over, defs, path);
      MadeOfExposes(v, mask, parts, kept, t, over);
      assert Exposes(v, mask, t, over);
    }
  }

  lemma MadeOfLength(v: Value, mask: set<string>, parts: seq<Value>, kept: seq<bool>)
    requires IsMadeOf(v, mask, parts, kept)
    ensures |kept| == |parts|
  {
  }

  lemma MadeOfLeft(v: Value, mask: set<string>, parts: seq<Value>, kept: seq<bool>, defs: Definitions,
    path: seq<RefTarget>)
    requires IsMadeOf(v, mask, parts, kept)
    ensures |kept| == |parts| && (HasRefOutside(Inline(v, defs, path), mask) <==> PartLeft(parts, kept, defs, path))
  {
    hide Get, HasRefOutside;
    forall i | 0 <= i < |parts|
      ensures HasLocalRef(Inline(parts[i], defs, path)) <==> HasRefOutside(Inline(parts[i], defs, path), {})
    {
      OutsideNothing(Inline(parts[i], defs, path));
    }
    match v
    case Arr(items) => ItemsLeft(items, mask, kept, defs, path);
    case Obj(fields) => FieldsLeft(fields, mask, parts, kept, defs, path);
  }

  lemma ItemsLeft(items: seq<Value>, mask: set<string>, kept: seq<bool>, defs: Definitions, path: seq<RefTarget>)
    requires IsMadeOf(Arr(items), mask, items, kept)
    ensures HasRefOutside(Inline(Arr(items), defs, path), mask) <==>
            exists i :: 0 <= i < |items| && kept[i] && HasLocalRef(Inline(items[i], defs, path))
  {
    var result := Inline(Arr(items), defs, path).items;
    assert forall i :: 0 <= i < |items| ==> result[i] == Inline(items[i], defs, path);
  }

  lemma FieldsLeft(fields: Object, mask: set<string>, parts: seq<Value>, kept: seq<bool>, defs: Definitions,
      path: seq<RefTarget>)
    requires IsMadeOf(Obj(fields), mask, parts, kept)
    ensures HasRefOutside(Inline(Obj(fields), defs, path), mask) <==>
            exists i :: 0 <= i < |parts| && kept[i] && HasLocalRef(Inline(parts[i], defs, path))
  {
    hide Get, HasLocalRef;
    var result := Inline(Obj(fields), defs, path).fields;
    InlinedReference(fields, result, defs, path);
    assert forall i :: 0 <= i < |fields| ==>
      result[i].key == fields[i].key && result[i].value == Inline(parts[i], defs, path);
    if i :| 0 <= i < |parts| && kept[i] && HasLocalRef(Inline(parts[i], defs, path)) {
      assert result[i].key !in mask && HasLocalRef(result[i].value);
    }
  }

  lemma MadeOfIff(v: Value, mask: set<string>, parts: seq<Value>, kept: seq<bool>, defs: Definitions,
    path: seq<RefTarget>)
    requires IsMadeOf(v, mask, parts, kept)
    requires forall i :: 0 <= i < |parts| ==>
      (HasRefOutside(Inline(parts[i], defs, path), {})
       <==> Dirty(parts[i], {}) || SomethingRemains(parts[i], {}, defs, path))
    ensures HasRefOutside(Inline(v, defs, path), mask) <==> Dirty(v, mask) || SomethingRemains(v, mask, defs, path)
  {
    hide *;
    MadeOfLength(v, mask, parts, kept);
    PartsLeaveIff(parts, kept, defs, path);
    MadeOfLeft(v, mask, parts, kept, defs, path);
    MadeOfDirty(v, mask, parts, kept);
    MadeOfRemains(v, mask, parts, kept, defs, path);
  }

  lemma SiteLeavesIff(fields: Object, mask: set<string>, defs: Definitions, path: seq<RefTarget>)
    requires Unique(fields) && AllUniqueKeys(defs) && Reference(fields).Some?
    ensures var v := Obj(fields);
            HasRefOutside(Inline(v, defs, path), mask) <==> Dirty(v, mask) || SomethingRemains(v, mask, defs, path)
  {
    hide Get, WithSiblings, HasLocalRef, TargetOf, Siblings, HasRefOutside;
    var v, target := Obj(fields), LocalTarget(fields);
    if target.None? {
      ForeignSiteLeaves(fields, mask);
    } else {
      var t, over := target.value, mask + Siblings(fields);
      assert Exposes(v, mask, t, over);
      if t in path || t !in defs || !defs[t].Obj? {
        StuckSiteLeaves(fields, mask, defs, path);
        assert Remains(t, over, defs, path);
      } else {
        Shrinks(defs, path, t);
        UniqueDefinitions(defs, t);
        InlineKeepsUnique(defs[t], defs, path + [t]);
        SiteLeaves(Inline(defs[t], defs, path + [t]).fields, fields, mask);
        assert Remains(t, over, defs, path) <==> HasRefOutside(Inline(defs[t], defs, path + [t]), over);
      }
    }
  }

  lemma UniqueDefinitions(defs: Definitions, t: RefTarget)
    requires AllUniqueKeys(defs) && t in defs && defs[t].Obj?
    ensures Unique(defs[t].fields) && forall u :: u in defs && defs[u].Obj? ==> Unique(defs[u].fields)
  {
  }

  /** A reference to another document stays, with its siblings. */
  lemma ForeignSiteLeaves(fields: Object, mask: set<string>)
    requires Reference(fields).Some? && LocalTarget(fields).None? && Unique(fields)
    ensures HasRefOutside(Obj(fields), mask) <==> Dirty(Obj(fields), mask)
  {
    hide HasLocalRef, TargetOf;
    RefIsText(fields);
  }

  lemma RefIsText(fields: Object)
    requires Reference(fields).Some? && Unique(fields)
    ensures forall i :: 0 <= i < |fields| && fields[i].key == "$ref" ==> !HasLocalRef(fields[i].value)
  {
    forall i | 0 <= i < |fields| && fields[i].key == "$ref" ensures !HasLocalRef(fields[i].value) {
      GetAt(fields, i);
    }
  }

  /** A site that cannot be expanded is left as it is. */
  lemma StuckSiteLeaves(fields: Object, mask: set<string>, defs: Definitions, path: seq<RefTarget>)
    requires Reference(fields).Some? && LocalTarget(fields).Some?
    requires var t := LocalTarget(fields).value; t in path || t !in defs || !defs[t].Obj?
    ensures Inline(Obj(fields), defs, path) == Obj(fields) && HasRefOutside(Obj(fields), mask)
  {
    hide Get, TargetOf, WithSiblings, HasLocalRef;
    var t := LocalTarget(fields).value;
    if t !in path && t in defs {
      Shrinks(defs, path, t);
      NotAnObject(defs[t], defs, path + [t]);
    }
  }

  lemma NotAnObject(v: Value, defs: Definitions, path: seq<RefTarget>)
    requires !v.Obj?
    ensures !Inline(v, defs, path).Obj?
  {
    OnlyObjectsGiveObjects(v, defs, path);
  }

  // ---------- whole walks ----------

  /** A definition entered, and the members of it that are overwritten on the way out. */
  datatype Visit = Visit(target: RefTarget, over: set<string>)

  function Targets(w: seq<Visit>): (path: seq<RefTarget>)
    ensures |path| == |w| && forall i :: 0 <= i < |w| ==> path[i] == w[i].target
  {
    seq(|w|, i requires 0 <= i < |w| => w[i].target)
  }

  /** Each definition, where it is not overwritten, names the next. */
  ghost predicate VisitWalk(w: seq<Visit>, defs: Definitions) {
    forall i :: 0 <= i < |w| - 1 ==>
      w[i].target in defs && Exposes(defs[w[i].target], w[i].over, w[i + 1].target, w[i + 1].over)
  }

  /** The walk ends where the pass must leave a reference. */
  ghost predicate Stuck(w: seq<Visit>, defs: Definitions) {
    w != [] &&
    var last := w[|w| - 1];
    || last.target in Targets(w[..|w| - 1])
    || last.target !in defs || !defs[last.target].Obj?
    || Dirty(defs[last.target], last.over)
  }

  /** A reference that is left is found by some walk that gets stuck. */
  lemma {:induction false} LeftIsStuck(w: seq<Visit>, defs: Definitions) returns (longer: seq<Visit>)
    requires AllUniqueKeys(defs) && w != [] && VisitWalk(w, defs) && w[|w| - 1].target in defs
    requires HasRefOutside(Inline(defs[w[|w| - 1].target], defs, Targets(w)), w[|w| - 1].over)
    ensures w <= longer && VisitWalk(longer, defs) && Stuck(longer, defs)
    decreases |defs.Keys - Visited(Targets(w))|
  {
    hide HasRefOutside, Inline, Dirty, Exposes, UniqueKeys;
    var last := w[|w| - 1];
    UniqueAt(defs, last.target);
    LeavesIff(defs[last.target], last.over, defs, Targets(w));
    if Dirty(defs[last.target], last.over) {
      longer := w;
    } else {
      var t, over :| Exposes(defs[last.target], last.over, t, over) && Remains(t, over, defs, Targets(w));
      var next := w + [Visit(t, over)];
      WalkGrows(w, t, over, defs);
      if t in Targets(w) || t !in defs || !defs[t].Obj? {
        longer := next;
      } else {
        Shrinks(defs, Targets(w), t);
        longer := LeftIsStuck(next, defs);
      }
    }
  }

  lemma UniqueAt(defs: Definitions, t: RefTarget)
    requires AllUniqueKeys(defs) && t in defs
    ensures UniqueKeys(defs[t])
  {
  }

  lemma WalkGrows(w: seq<Visit>, t: RefTarget, over: set<string>, defs: Definitions)
    requires w != [] && VisitWalk(w, defs) && w[|w| - 1].target in defs
    requires Exposes(defs[w[|w| - 1].target], w[|w| - 1].over, t, over)
    ensures var next := w + [Visit(t, over)];
            VisitWalk(next, defs) && Targets(next) == Targets(w) + [t] && next[..|next| - 1] == w
  {
    hide Exposes;
  }

  /** Where a walk gets stuck, a reference is left all the way up. */
  lemma {:induction false} StuckIsLeft(w: seq<Visit>, k: nat, defs: Definitions)
    requires AllUniqueKeys(defs) && VisitWalk(w, defs) && Stuck(w, defs) && 0 < k <= |w|
    requires forall j :: 0 < j < |w| ==> !Stuck(w[..j], defs)
    requires w[k - 1].target in defs && defs[w[k - 1].target].Obj? && w[k - 1].target !in Targets(w[..k - 1])
    requires k < |w| || Dirty(defs[w[k - 1].target], w[k - 1].over)
    ensures HasRefOutside(Inline(defs[w[k - 1].target], defs, Targets(w[..k])), w[k - 1].over)
    decreases |w| - k, 1
  {
    hide HasRefOutside, Inline, Dirty, Exposes, UniqueKeys;
    var here := w[k - 1];
    UniqueAt(defs, here.target);
    LeavesIff(defs[here.target], here.over, defs, Targets(w[..k]));
    if k < |w| {
      var next := w[k];
      assert Exposes(defs[w[k - 1].target], w[k - 1].over, w[k - 1 + 1].target, w[k - 1 + 1].over);
      StepLeaves(w, k, defs);
      assert Remains(next.target, next.over, defs, Targets(w[..k]));
    }
  }

  /** The next visit of the walk remains. */
  lemma {:induction false} StepLeaves(w: seq<Visit>, k: nat, defs: Definitions)
    requires AllUniqueKeys(defs) && VisitWalk(w, defs) && Stuck(w, defs) && 0 < k < |w|
    requires forall j :: 0 < j < |w| ==> !Stuck(w[..j], defs)
    ensures Remains(w[k].target, w[k].over, defs, Targets(w[..k]))
    decreases |w| - k, 0
  {
    hide HasRefOutside, Inline, Dirty, Exposes, UniqueKeys, AllUniqueKeys, VisitWalk;
    var next := w[k];
    var prefix := w[..k + 1];
    assert prefix[..k] == w[..k] && prefix[k] == next;
    assert Targets(prefix) == Targets(w[..k]) + [next.target];
    if next.target !in Targets(w[..k]) && next.target in defs && defs[next.target].Obj? {
      if k + 1 == |w| {
        assert w[..|w|] == w;
        assert Dirty(defs[next.target], next.over);
      }
      StuckIsLeft(w, k + 1, defs);
    }
  }

  lemma {:induction false} FirstStuck(w: seq<Visit>, defs: Definitions) returns (first: seq<Visit>)
    requires VisitWalk(w, defs) && Stuck(w, defs)
    ensures first != [] && first <= w && VisitWalk(first, defs) && Stuck(first, defs)
    ensures forall j :: 0 < j < |first| ==> !Stuck(first[..j], defs)
    decreases |w|
  {
    hide Exposes, Dirty;
    if j :| 0 < j < |w| && Stuck(w[..j], defs) {
      first := FirstStuck(w[..j], defs);
    } else {
      first := w;
    }
  }

  /**
   * The exact condition, for every schema: of a definition, entered with some members overwritten, the pass
   * leaves no local reference in what is kept if and only if no walk from there gets stuck.
   */
  lemma LeavesNothingIff(root: RefTarget, over: set<string>, defs: Definitions)
    requires AllUniqueKeys(defs) && root in defs && defs[root].Obj?
    ensures !HasRefOutside(Inline(defs[root], defs, [root]), over) <==>
            forall w :: w != [] && w[0] == Visit(root, over) && VisitWalk(w, defs) ==> !Stuck(w, defs)
  {
    hide HasRefOutside, Inline, Stuck, UniqueKeys;
    var start := [Visit(root, over)];
    assert Targets(start) == [root];
    if HasRefOutside(Inline(defs[root], defs, [root]), over) {
      var w := LeftIsStuck(start, defs);
      assert w[0] == start[0];
    } else if w :| w != [] && w[0] == Visit(root, over) && VisitWalk(w, defs) && Stuck(w, defs) {
      var first := FirstStuck(w, defs);
      FirstIsEntered(first, root, over, defs);
      assert first[..1] == start;
      StuckIsLeft(first, 1, defs);
    }
  }

  lemma FirstIsEntered(first: seq<Visit>, root: RefTarget, over: set<string>, defs: Definitions)
    requires root in defs && defs[root].Obj? && Stuck(first, defs) && first[0] == Visit(root, over)
    ensures |first| == 1 ==> Dirty(defs[root], over)
    ensures first[0].target !in Targets(first[..0])
  {
    hide Dirty;
  }

  /** The same for a whole schema, whose own `$defs` are dropped at the end. */
  lemma SchemaInlinesFullyIff(root: Object)
    requires AllUniqueKeys(AllDefinitions(root)) && Unique(root)
    ensures var defs := AllDefinitions(root);
            !HasLocalRef(InlineLocalRefs(Obj(root))) <==>
            forall w :: w != [] && w[0] == Visit(Root, {"$defs"}) && VisitWalk(w, defs) ==> !Stuck(w, defs)
  {
    hide HasLocalRef, HasRefOutside, Inline, Stuck, UniqueKeys, SwapRemove;
    var defs := AllDefinitions(root);
    assert defs[Root] == Obj(RootShape(root));
    UniqueDefinitions(defs, Root);
    InlineKeepsUnique(defs[Root], defs, [Root]);
    LeavesNothingIff(Root, {"$defs"}, defs);
    DroppedLeaves(Inline(defs[Root], defs, [Root]).fields);
  }

  lemma DroppedLeaves(o: Object)
    requires Unique(o)
    ensures HasLocalRef(Obj(SwapRemove(o, "$defs"))) <==> HasRefOutside(Obj(o), {"$defs"})
  {
    hide HasLocalRef, Get;
    var r := SwapRemove(o, "$defs");
    SwapRemoveGet(o, "$defs");
    MembersByKey(o, {"$defs"});
    MembersByKey(r, {});
    OutsideNothing(Obj(r));
    assert "$ref"[1] != "$defs"[1];
    SameTarget(r, o);
  }

  lemma SwapRemoveGet(o: Object, key: string)
    requires Unique(o)
    ensures Unique(SwapRemove(o, key))
    ensures forall other :: Get(SwapRemove(o, key), other) == if other == key then None else Get(o, other)
  {
    hide Get, SwapRemove;
    var r := SwapRemove(o, key);
    SwapRemoveMembers(o, key);
    forall other ensures Get(r, other) == if other == key then None else Get(o, other) {
      SameMembers(o, r, key, other);
    }
  }

  lemma SwapRemoveMembers(o: Object, key: string)
    requires Unique(o)
    ensures var r := SwapRemove(o, key);
            && Unique(r)
            && (forall f :: f in r ==> f in o && f.key != key)
            && (forall f :: f in o && f.key != key ==> f in r)
  {
    hide HasKey;
    var r := SwapRemove(o, key);
    if HasKey(o, key) {
      var i := KeyIndex(o, key);
      assert forall j :: 0 <= j < |r| ==> r[j] == o[if j == i then |o| - 1 else j];
      forall f | f in o && f.key != key ensures f in r {
        var j :| 0 <= j < |o| && o[j] == f;
        assert r[if j == |o| - 1 then i else j] == f;
      }
    } else {
      NoSuchKey(o, key);
    }
  }

  lemma NoSuchKey(o: Object, key: string)
    requires !HasKey(o, key)
    ensures forall f :: f in o ==> f.key != key
  {
  }

  lemma FieldGet(o: Object, key: string, value: Value)
    requires Unique(o) && Field(key, value) in o
    ensures Get(o, key) == Some(value)
  {
    hide Get;
    var i :| 0 <= i < |o| && o[i] == Field(key, value);
    GetAt(o, i);
  }

  lemma SameMembers(o: Object, r: Object, key: string, other: string)
    requires Unique(o) && Unique(r)
    requires forall f :: f in r ==> f in o && f.key != key
    requires forall f :: f in o && f.key != key ==> f in r
    ensures Get(r, other) == if other == key then None else Get(o, other)
  {
    hide Get;
    if Get(r, other).Some? {
      FieldGet(o, other, Get(r, other).value);
    }
    if other != key && Get(o, other).Some? {
      FieldGet(r, other, Get(o, other).value);
    }
  }
}
