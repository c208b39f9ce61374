/** What the pass works on and hands back, member by member: targets, definitions, and the dropped `$defs`. */
module RefMeaning {
  import opened Text
  import opened Json
  import opened RefInliner
  import opened RefResidue

  /** A local reference is `#`, the root, or `#/$defs/` and a name; nothing else is. */
  lemma TargetMeaning(reference: string, name: string)
    ensures TargetOf("#") == Some(Root)
    ensures TargetOf("#/$defs/" + name) == Some(Def(name))
    ensures TargetOf(reference).Some? ==> reference == "#" || exists n :: reference == "#/$defs/" + n
  {
    var text := "#/$defs/" + name;
    assert text[|"#/$defs/"|..] == name && |text| > 1;
    if reference != "#" && "#/$defs/" <= reference {
      assert reference == "#/$defs/" + reference[|"#/$defs/"|..];
    }
  }

  /** Each member of `$defs` is the definition its name refers to. */
  lemma {:induction false} DefinitionContents(defs: Object, i: nat)
    requires Unique(defs) && i < |defs|
    ensures Def(defs[i].key) in DefinitionsOf(defs) && DefinitionsOf(defs)[Def(defs[i].key)] == defs[i].value
    decreases |defs|
  {
    hide HasKey;
    var last := |defs| - 1;
    if i < last {
      DefinitionContents(defs[..last], i);
      assert defs[last].key != defs[i].key;
    }
  }

  /** The object under `$defs`, if there is one. */
  function NamedDefinitions(root: Object): Object {
    match Get(root, "$defs") case Some(Obj(defs)) => defs case _ => []
  }

  /**
   * The targets of a schema: its root without `$defs`, every other member as it is, and one definition for
   * each member of `$defs`, as it stands there; and no other.
   */
  lemma DefinitionsAre(root: Object, name: string, key: string)
    requires Unique(root) && Unique(NamedDefinitions(root))
    ensures var defs := AllDefinitions(root);
            && (Def(name) in defs <==> HasKey(NamedDefinitions(root), name))
            && (Def(name) in defs ==> Get(NamedDefinitions(root), name) == Some(defs[Def(name)]))
            && Root in defs && defs[Root] == Obj(RootShape(root))
            && Get(RootShape(root), key) == if key == "$defs" then None else Get(root, key)
  {
    hide Get, HasKey, SwapRemove;
    var named := NamedDefinitions(root);
    SwapRemoveGet(root, "$defs");
    NamedOnly(named, name);
    if HasKey(named, name) {
      var i := KeyPlace(named, name);
      DefinitionContents(named, i);
      GetAt(named, i);
    }
    NamesFrom(root);
  }

  lemma NamesFrom(root: Object)
    ensures AllDefinitions(root) == DefinitionsOf(NamedDefinitions(root))[Root := Obj(RootShape(root))]
  {
    hide Get, RootShape;
  }

  lemma NamedOnly(defs: Object, name: string)
    ensures Def(name) in DefinitionsOf(defs) <==> HasKey(defs, name)
  {
    if HasKey(defs, name) {
      var i := KeyPlace(defs, name);
    }
  }

  lemma KeyPlace(o: Object, key: string) returns (i: nat)
    requires HasKey(o, key)
    ensures i < |o| && o[i].key == key
  {
    i :| 0 <= i < |o| && o[i].key == key;
  }

  /** What is handed back: the expanded root, without `$defs`, every other member as the expansion has it. */
  lemma ResultIs(root: Object, key: string)
    requires Unique(root) && AllUniqueKeys(AllDefinitions(root))
    ensures var expanded := Inline(Obj(RootShape(root)), AllDefinitions(root), [Root]);
            && expanded.Obj? && InlineLocalRefs(Obj(root)).Obj?
            && Get(InlineLocalRefs(Obj(root)).fields, key)
               == if key == "$defs" then None else Get(expanded.fields, key)
  {
    hide Get, SwapRemove, Inline, RootShape;
    var defs := AllDefinitions(root);
    RootIsUnique(root);
    UniqueDefinitions(defs, Root);
    InlineKeepsUnique(Obj(RootShape(root)), defs, [Root]);
    SwapRemoveGet(Inline(Obj(RootShape(root)), defs, [Root]).fields, "$defs");
  }

  lemma RootIsUnique(root: Object)
    ensures Root in AllDefinitions(root) && AllDefinitions(root)[Root] == Obj(RootShape(root))
  {
    hide RootShape, DefinitionsOf, Get;
  }

  /** Anything but an object is handed back as it is. */
  lemma OtherSchemasStay(schema: Value)
    ensures !schema.Obj? ==> InlineLocalRefs(schema) == schema
  {
  }

  /** At a site: the expanded definition, with the site's other members over it; or the site as it was. */
  lemma SiteMembers(site: Object, defs: Definitions, path: seq<RefTarget>, key: string)
    requires Reference(site).Some? && Unique(site)
    ensures var r, t := Inline(Obj(site), defs, path), LocalTarget(site);
            if t.Some? && t.value !in path && t.value in defs && defs[t.value].Obj? then
              var expanded := Inline(defs[t.value], defs, path + [t.value]);
              && r.Obj? && expanded.Obj?
              && Get(r.fields, key)
                 == if key != "$ref" && HasKey(site, key) then Get(site, key) else Get(expanded.fields, key)
            else r == Obj(site)
  {
    hide Get, HasKey, WithSiblings, TargetOf;
    var t := LocalTarget(site);
    if t.Some? && t.value !in path && t.value in defs {
      Shrinks(defs, path, t.value);
      if defs[t.value].Obj? {
        InlineKeepsObjects(defs[t.value], defs, path + [t.value]);
        MergedGet(Inline(defs[t.value], defs, path + [t.value]).fields, site, key);
        SiblingsAre(site, key);
      } else {
        NotAnObject(defs[t.value], defs, path + [t.value]);
      }
    }
  }
}
