/**
 * JSON merge patch over insertion-ordered objects: the in-place loop, RFC 7386, and what patching
 * leaves alone. Frontmatter, Bases views and canvas nodes all patch this way.
 */
module MergePatch {
  import opened Text
  import opened Json

  /** The object an existing member contributes to a nested patch. */
  function Inner(current: Option<Value>): Object {
    if current.Some? && current.value.Obj? then current.value.fields else []
  }

  /** One field of the patch applied to the target. */
  function PatchField(target: Object, field: Field): Object
    decreases field, 0
  {
    match field.value
    case Null => Remove(target, field.key)
    case Obj(nested) => Insert(target, field.key, Obj(Patch(Inner(Get(target, field.key)), nested)))
    case replacement => Insert(target, field.key, replacement)
  }

  /** The patch's fields applied in order. */
  function Patch(target: Object, patch: Object): Object
    decreases patch
  {
    if patch == [] then target else Patch(PatchField(target, patch[0]), patch[1..])
  }

  method ApplyObjectPatch(target: Object, patch: Object) returns (r: Object)
    ensures r == Patch(target, patch)
    decreases patch
  {
    hide Get, Insert, Remove;
    r := target;
    for i := 0 to |patch|
      invariant Patch(r, patch[i..]) == Patch(target, patch)
    {
      var key, value := patch[i].key, patch[i].value;
      assert patch[i..][1..] == patch[i + 1..];
      match value {
        case Null => r := Remove(r, key);
        case Obj(nestedPatch) =>
          var nested := Get(r, key);
          var fields := if nested.Some? && nested.value.Obj? then nested.value.fields else [];
          fields := ApplyObjectPatch(fields, nestedPatch);
          r := Insert(r, key, Obj(fields));
        case replacement => r := Insert(r, key, replacement);
      }
    }
    assert patch[|patch|..] == [];
  }

  /** Keys are unique at every level: the invariant of a parsed JSON document. */
  ghost predicate Wf(v: Value) {
    match v
    case Obj(fields) => Unique(fields) && forall i :: 0 <= i < |fields| ==> Wf(fields[i].value)
    case _ => true
  }

  ghost predicate WfObject(o: Object) {
    Wf(Obj(o))
  }

  lemma WfGet(o: Object, key: string)
    requires WfObject(o) && HasKey(o, key)
    ensures Wf(Get(o, key).value)
  {
    var v := Get(o, key).value;
    var i :| 0 <= i < |o| && o[i] == Field(key, v);
  }

  /** What one patch member does to the member it names. */
  function Patched(current: Option<Value>, patch: Option<Value>): Option<Value> {
    match patch
    case None => current
    case Some(Null) => None
    case Some(Obj(nested)) => Some(Obj(Patch(Inner(current), nested)))
    case Some(replacement) => Some(replacement)
  }

  lemma PatchFieldGet(target: Object, field: Field, key: string)
    requires Unique(target)
    ensures Unique(PatchField(target, field))
    ensures Get(PatchField(target, field), key)
            == if key == field.key then Patched(Get(target, key), Some(field.value)) else Get(target, key)
  {
    hide Get, Insert, Remove, Patch;
    match field.value
    case Null => RemoveGet(target, field.key, key); RemoveUnique(target, field.key);
    case Obj(nested) =>
      var v := Obj(Patch(Inner(Get(target, field.key)), nested));
      InsertGet(target, field.key, v, key);
      InsertUnique(target, field.key, v);
    case replacement =>
      InsertGet(target, field.key, replacement, key);
      InsertUnique(target, field.key, replacement);
  }

  /** Every member of the result, by key: patched where the patch names it, kept where it does not. */
  lemma {:induction false} PatchGet(target: Object, patch: Object, key: string)
    requires Unique(target) && Unique(patch)
    ensures Unique(Patch(target, patch))
    ensures Get(Patch(target, patch), key) == Patched(Get(target, key), Get(patch, key))
    decreases |patch|
  {
    hide PatchField, Patched;
    if patch != [] {
      PatchFieldGet(target, patch[0], key);
      PatchGet(PatchField(target, patch[0]), patch[1..], key);
      if key == patch[0].key { assert !HasKey(patch[1..], key); }
      PatchedNone(Get(PatchField(target, patch[0]), key));
    } else {
      PatchedNone(Get(target, key));
    }
  }

  lemma PatchedNone(current: Option<Value>)
    ensures Patched(current, None) == current
  {
  }

  /** The keys a patch keeps, in their old order, then the keys it adds, in patch order. */
  function KeptKeys(keys: seq<string>, patch: Object): seq<string> {
    if keys == [] then []
    else (if Get(patch, keys[0]) == Some(Null) then [] else [keys[0]]) + KeptKeys(keys[1..], patch)
  }

  function AddedKeys(target: Object, patch: Object): seq<string> {
    if patch == [] then []
    else (if patch[0].value.Null? || HasKey(target, patch[0].key) then [] else [patch[0].key])
         + AddedKeys(target, patch[1..])
  }

  lemma HasKeyIsKey(o: Object, key: string)
    ensures HasKey(o, key) <==> key in Keys(o)
  {
    if HasKey(o, key) { var i :| 0 <= i < |o| && o[i].key == key; assert Keys(o)[i] == key; }
  }

  lemma {:induction false} KeptKeysConcat(a: seq<string>, b: seq<string>, patch: Object)
    ensures KeptKeys(a + b, patch) == KeptKeys(a, patch) + KeptKeys(b, patch)
    decreases |a|
  {
    if a == [] {
      assert a + b == b;
    } else {
      assert (a + b)[1..] == a[1..] + b;
      KeptKeysConcat(a[1..], b, patch);
    }
  }

  lemma {:induction false} KeptKeysWithout(keys: seq<string>, patch: Object)
    requires patch != [] && Unique(patch)
    ensures KeptKeys(keys, patch)
            == KeptKeys(if patch[0].value.Null? then Without(keys, patch[0].key) else keys, patch[1..])
    decreases |keys|
  {
    if keys != [] {
      KeptKeysWithout(keys[1..], patch);
      if keys[0] == patch[0].key { assert !HasKey(patch[1..], keys[0]); }
      var rest := Without(keys[1..], patch[0].key);
      assert ([keys[0]] + rest)[1..] == rest;
      assert [] + rest == rest;
    }
  }

  lemma {:induction false} AddedKeysStep(target: Object, field: Field, patch: Object)
    requires Unique(target) && !HasKey(patch, field.key)
    ensures AddedKeys(PatchField(target, field), patch) == AddedKeys(target, patch)
    decreases |patch|
  {
    hide PatchField, Get;
    if patch != [] {
      assert patch[0].key != field.key;
      PatchFieldGet(target, field, patch[0].key);
      AddedKeysStep(target, field, patch[1..]);
    }
  }

  /** Key order: surviving keys keep their relative order, new keys follow in the order of the patch. */
  lemma {:induction false} PatchKeys(target: Object, patch: Object)
    requires Unique(target) && Unique(patch)
    ensures Keys(Patch(target, patch)) == KeptKeys(Keys(target), patch) + AddedKeys(target, patch)
    decreases |patch|
  {
    if patch == [] {
      KeptByEmpty(Keys(target));
    } else {
      PatchFieldGet(target, patch[0], patch[0].key);
      PatchKeys(PatchField(target, patch[0]), patch[1..]);
      PatchKeysStep(target, patch);
    }
  }

  lemma PatchKeysStep(target: Object, patch: Object)
    requires Unique(target) && Unique(patch) && patch != []
    requires var next := PatchField(target, patch[0]);
             Keys(Patch(next, patch[1..])) == KeptKeys(Keys(next), patch[1..]) + AddedKeys(next, patch[1..])
    ensures Keys(Patch(target, patch)) == KeptKeys(Keys(target), patch) + AddedKeys(target, patch)
  {
    hide Patch, Get, Insert, Remove, KeptKeys, AddedKeys, PatchField, Keys, Without;
    var field, rest := patch[0], patch[1..];
    var next, before, added := PatchField(target, field), Keys(target), AddedKeys(target, rest);
    PatchUnfolds(target, patch);
    AddedKeysStep(target, field, rest);
    KeptKeysWithout(before, patch);
    AddedUnfolds(target, patch);
    if field.value.Null? {
      NullFieldKeys(target, field);
      assert [] + added == added;
    } else {
      NonNullFieldKeys(target, field);
      if HasKey(target, field.key) {
        assert [] + added == added;
      } else {
        KeptKeysConcat(before, [field.key], rest);
        KeepsForeignKey(field.key, rest);
        assert KeptKeys(before, rest) + [field.key] + added == KeptKeys(before, rest) + ([field.key] + added);
      }
    }
  }

  lemma NullFieldKeys(target: Object, field: Field)
    requires Unique(target) && field.value.Null?
    ensures Keys(PatchField(target, field)) == Without(Keys(target), field.key)
  {
    RemoveKeys(target, field.key);
  }

  lemma KeepsForeignKey(key: string, patch: Object)
    requires !HasKey(patch, key)
    ensures KeptKeys([key], patch) == [key]
  {
    assert [key][1..] == [];
  }

  lemma NonNullFieldKeys(target: Object, field: Field)
    requires !field.value.Null?
    ensures Keys(PatchField(target, field))
      == if HasKey(target, field.key) then Keys(target) else Keys(target) + [field.key]
  {
    hide Insert, Patch;
    match field.value
    case Obj(nested) => InsertKeys(target, field.key, Obj(Patch(Inner(Get(target, field.key)), nested)));
    case replacement => InsertKeys(target, field.key, replacement);
  }

  lemma PatchUnfolds(target: Object, patch: Object)
    requires patch != []
    ensures Patch(target, patch) == Patch(PatchField(target, patch[0]), patch[1..])
  {
  }

  lemma AddedUnfolds(target: Object, patch: Object)
    requires patch != []
    ensures AddedKeys(target, patch)
            == (if patch[0].value.Null? || HasKey(target, patch[0].key) then [] else [patch[0].key])
               + AddedKeys(target, patch[1..])
  {
  }

  lemma {:induction false} KeptByEmpty(keys: seq<string>)
    ensures KeptKeys(keys, []) == keys
    decreases |keys|
  {
    if keys != [] {
      KeptByEmpty(keys[1..]);
      assert [keys[0]] + keys[1..] == keys;
    }
  }

  /** An object is determined by its key order and its members. */
  lemma SameObject(a: Object, b: Object)
    requires Unique(a) && Unique(b) && Keys(a) == Keys(b)
    requires forall key :: Get(a, key) == Get(b, key)
    ensures a == b
  {
    assert |Keys(a)| == |a| && |Keys(b)| == |b|;
    forall i | 0 <= i < |a| ensures a[i] == b[i] {
      assert Keys(a)[i] == a[i].key && Keys(b)[i] == b[i].key;
      GetAt(a, i);
      GetAt(b, i);
    }
  }

  /** Patching twice is patching once, key order included. */
  lemma {:induction false} PatchIdempotent(target: Object, patch: Object)
    requires WfObject(target) && WfObject(patch)
    ensures Patch(Patch(target, patch), patch) == Patch(target, patch)
    decreases patch
  {
    hide Patch, Get;
    var once := Patch(target, patch);
    PatchGet(target, patch, "");
    PatchGet(once, patch, "");
    forall key ensures Get(Patch(once, patch), key) == Get(once, key) {
      PatchGet(target, patch, key);
      PatchGet(once, patch, key);
      PatchedTwice(target, patch, key);
    }
    PatchedKeysStable(target, patch);
    PatchKeys(once, patch);
    SameObject(Patch(once, patch), once);
  }

  lemma {:induction false} PatchedTwice(target: Object, patch: Object, key: string)
    requires WfObject(target) && WfObject(patch)
    ensures var p := Get(patch, key);
            Patched(Patched(Get(target, key), p), p) == Patched(Get(target, key), p)
    decreases patch, 0
  {
    var p := Get(patch, key);
    if p.Some? && p.value.Obj? {
      WfGet(patch, key);
      var i :| 0 <= i < |patch| && patch[i] == Field(key, p.value);
      InnerWf(target, key);
      assert p.value == patch[i].value;
      PatchIdempotent(Inner(Get(target, key)), p.value.fields);
    }
  }

  lemma InnerWf(o: Object, key: string)
    requires WfObject(o)
    ensures WfObject(Inner(Get(o, key)))
  {
    if HasKey(o, key) { WfGet(o, key); }
  }

  /** After one application no key is left to add or to drop. */
  lemma PatchedKeysStable(target: Object, patch: Object)
    requires Unique(target) && Unique(patch)
    ensures var once := Patch(target, patch);
            KeptKeys(Keys(once), patch) + AddedKeys(once, patch) == Keys(once)
  {
    hide Patch;
    var once := Patch(target, patch);
    forall key | key in Keys(once) ensures Get(patch, key) != Some(Null) {
      PatchGet(target, patch, key);
      HasKeyIsKey(once, key);
    }
    KeepsAll(Keys(once), patch);
    forall i | 0 <= i < |patch| ensures patch[i].value.Null? || HasKey(once, patch[i].key) {
      GetAt(patch, i);
      PatchGet(target, patch, patch[i].key);
    }
    AddsNone(once, patch);
  }

  lemma {:induction false} KeepsAll(keys: seq<string>, patch: Object)
    requires forall key :: key in keys ==> Get(patch, key) != Some(Null)
    ensures KeptKeys(keys, patch) == keys
    decreases |keys|
  {
    if keys != [] {
      KeepsAll(keys[1..], patch);
      assert [keys[0]] + keys[1..] == keys;
    }
  }

  lemma {:induction false} AddsNone(target: Object, patch: Object)
    requires forall i :: 0 <= i < |patch| ==> patch[i].value.Null? || HasKey(target, patch[i].key)
    ensures AddedKeys(target, patch) == []
    decreases |patch|
  {
    if patch != [] {
      AddsNone(target, patch[1..]);
    }
  }

  // ---------- RFC 7386 ----------

  /** A JSON document without member order, as RFC 7386 reads it. */
  datatype Doc = Leaf(v: Value) | Node(members: map<string, Doc>)

  function Members(o: Object): (m: map<string, Doc>)
    ensures forall key :: key in m <==> HasKey(o, key)
    decreases o
  {
    if o == [] then map[]
    else
      var m := Members(o[1..])[o[0].key := Meaning(o[0].value)];
      assert forall key :: key in m <==> HasKey(o, key) by {
        forall key ensures key in m <==> HasKey(o, key) {
          if key != o[0].key { HasKeyTail(o, key); } else { assert o[0].key == key; }
        }
      }
      m
  }

  function Meaning(v: Value): Doc
    decreases v
  {
    match v
    case Obj(fields) => Node(Members(fields))
    case _ => Leaf(v)
  }

  /** MergePatch of RFC 7386, section 2; an absent target is `None`. */
  function MergePatch(target: Option<Doc>, patch: Doc): Doc
    decreases patch
  {
    match patch
    case Leaf(_) => patch
    case Node(changes) =>
      var members := if target.Some? && target.value.Node? then target.value.members else map[];
      Node(map key | key in members.Keys + changes.Keys && !(key in changes && changes[key] == Leaf(Null))
             :: if key in changes
                then MergePatch(if key in members then Some(members[key]) else None, changes[key])
                else members[key])
  }

  lemma {:induction false} MembersGet(o: Object, key: string)
    requires HasKey(o, key)
    ensures Members(o)[key] == Meaning(Get(o, key).value)
    decreases |o|
  {
    if o[0].key != key {
      HasKeyTail(o, key);
      MembersGet(o[1..], key);
    }
  }

  function Means(v: Option<Value>): Option<Doc> {
    match v case None => None case Some(x) => Some(Meaning(x))
  }

  /** The in-place loop computes RFC 7386: the meaning of the result is MergePatch of the meanings. */
  lemma {:induction false} PatchIsMergePatch(target: Object, patch: Object)
    requires WfObject(target) && WfObject(patch)
    ensures Meaning(Obj(Patch(target, patch))) == MergePatch(Some(Meaning(Obj(target))), Meaning(Obj(patch)))
    decreases patch, 1
  {
    hide Patch, Get;
    var result := Patch(target, patch);
    var merged := MergePatch(Some(Meaning(Obj(target))), Meaning(Obj(patch))).members;
    PatchGet(target, patch, "");
    forall key ensures key in Members(result) <==> key in merged
      ensures key in Members(result) ==> Members(result)[key] == merged[key]
    {
      MemberIsMerged(target, patch, key);
    }
    assert Members(result) == merged;
  }

  lemma {:induction false} MemberIsMerged(target: Object, patch: Object, key: string)
    requires WfObject(target) && WfObject(patch)
    ensures var merged := MergePatch(Some(Meaning(Obj(target))), Meaning(Obj(patch))).members;
            && (HasKey(Patch(target, patch), key) <==> key in merged)
            && (key in merged ==> Members(Patch(target, patch))[key] == merged[key])
    decreases patch, 0
  {
    hide Patch, Get;
    var p, t := Get(patch, key), Get(target, key);
    PatchGet(target, patch, key);
    if p.Some? { MembersGet(patch, key); }
    if t.Some? { MembersGet(target, key); }
    if HasKey(Patch(target, patch), key) { MembersGet(Patch(target, patch), key); }
    if p.Some? && p.value.Obj? {
      WfGet(patch, key);
      InnerWf(target, key);
      var i :| 0 <= i < |patch| && patch[i] == Field(key, p.value);
      assert p.value == patch[i].value;
      PatchIsMergePatch(Inner(t), p.value.fields);
      AbsentTargetIsEmpty(t, p.value);
    }
  }

  /** A missing or non-object target merges like an empty object. */
  lemma AbsentTargetIsEmpty(t: Option<Value>, patch: Value)
    requires patch.Obj?
    ensures MergePatch(Means(t), Meaning(patch)) == MergePatch(Some(Meaning(Obj(Inner(t)))), Meaning(patch))
  {
  }

  /** A note's frontmatter, patched in place. */
  class FrontmatterDocument {
    var frontmatter: Object
    const body: string

    constructor (fields: Object, text: string)
      ensures frontmatter == fields && body == text
    {
      frontmatter := fields;
      body := text;
    }

    /** Patches the frontmatter and stamps `updated` unless the patch names it. */
    method ApplyMergePatch(patch: Object, updated: string)
      requires WfObject(frontmatter) && WfObject(patch)
      modifies this
      ensures Unique(frontmatter)
      ensures frontmatter == Stamped(Patch(old(frontmatter), patch), patch, updated)
      ensures forall key :: key != "updated" ==>
                Get(frontmatter, key) == Patched(Get(old(frontmatter), key), Get(patch, key))
      ensures Get(frontmatter, "updated")
              == if HasKey(patch, "updated") then Patched(Get(old(frontmatter), "updated"), Get(patch, "updated"))
                 else Some(Str(updated))
    {
      hide Patched, Patch, Get, Insert;
      ghost var before := frontmatter;
      var explicit := Get(patch, "updated").Some?;
      PatchGet(before, patch, "");
      frontmatter := ApplyObjectPatch(frontmatter, patch);
      ghost var patched := frontmatter;
      if !explicit {
        InsertUnique(frontmatter, "updated", Str(updated));
        frontmatter := Insert(frontmatter, "updated", Str(updated));
      }
      forall key ensures Get(frontmatter, key)
                         == if !explicit && key == "updated" then Some(Str(updated))
                            else Patched(Get(before, key), Get(patch, key))
      {
        PatchGet(before, patch, key);
        if !explicit { InsertGet(patched, "updated", Str(updated), key); }
      }
    }
  }

  function Stamped(patched: Object, patch: Object, updated: string): Object {
    if HasKey(patch, "updated") then patched else Insert(patched, "updated", Str(updated))
  }
}
