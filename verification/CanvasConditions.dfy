/** Exactly when one operation keeps ids unique and edges attached, given ids and rewired edges included. */
module CanvasConditions {
  import opened Text
  import opened Json
  import opened CanvasSchema
  import opened CanvasOperations
  import opened CanvasIntegrity
  import MergePatch

  /** An id of its own, if it is given one, is new to the document. */
  predicate NewId(c: Canvas, given: Object) {
    !Repeats(Obj(given), IdSet(c.nodes + c.edges))
  }

  /** The endpoints it names are nodes. */
  predicate Attached(c: Canvas, edge: Object) {
    !Dangles(Obj(edge), "fromNode", IdSet(c.nodes)) && !Dangles(Obj(edge), "toNode", IdSet(c.nodes))
  }

  /** What the document and the operation must meet, as a caller can check beforehand. */
  predicate Acceptable(c: Canvas, op: Operation) {
    match op
    case AddNode(node) => NewId(c, node)
    case AddEdge(edge) => NewId(c, edge) && Attached(c, edge)
    case UpdateEdge(_, patch) => Attached(c, patch)
    case Group(group, _) => NewId(c, group)
    case _ => true
  }

  // ---------- one more value ----------

  lemma InsertDistinctIff(s: seq<Value>, k: nat, v: Value)
    requires DistinctIds(s) && k <= |s|
    ensures DistinctIds(s[..k] + [v] + s[k..]) <==> !Repeats(v, IdSet(s))
  {
    hide IdOf, IdSet;
    RepeatsIff(v, s);
    var t := s[..k] + [v] + s[k..];
    if Repeats(v, IdSet(s)) {
      var i :| 0 <= i < |s| && IdOf(s[i]) == IdOf(v);
      if i < k {
        assert t[i] == s[i] && t[k] == v;
      } else {
        assert t[i + 1] == s[i] && t[k] == v;
      }
    } else {
      InsertDistinct(s, k, v);
    }
  }

  lemma InsertNodeKeepsIff(c: Canvas, k: nat, v: Value)
    requires Integrity(c) && k <= |c.nodes|
    ensures Integrity(c.(nodes := c.nodes[..k] + [v] + c.nodes[k..])) <==> !Repeats(v, IdSet(c.nodes + c.edges))
  {
    hide Repeats, IdSet, DistinctIds, NoDangling;
    var nodes, all := c.nodes[..k] + [v] + c.nodes[k..], c.nodes + c.edges;
    InsertDistinctIff(all, k, v);
    assert all[..k] + [v] + all[k..] == nodes + c.edges;
    MoreNodesKeepEndpoints(c.nodes, nodes, c.edges);
  }

  lemma AppendEdgeKeepsIff(c: Canvas, v: Value)
    requires Integrity(c)
    ensures Integrity(c.(edges := c.edges + [v])) <==>
            !Repeats(v, IdSet(c.nodes + c.edges))
            && !Dangles(v, "fromNode", IdSet(c.nodes)) && !Dangles(v, "toNode", IdSet(c.nodes))
  {
    hide Repeats, Dangles, IdSet, DistinctIds, NoDangling;
    DistinctSnoc(c.nodes + c.edges, v);
    NoDanglingSnoc(c.nodes, c.edges, v);
    assert c.nodes + (c.edges + [v]) == (c.nodes + c.edges) + [v];
  }

  lemma UpdateEdgeKeepsIff(c: Canvas, p: nat, v: Value)
    requires Integrity(c) && p < |c.edges| && IdOf(v) == IdOf(c.edges[p])
    ensures Integrity(c.(edges := c.edges[p := v])) <==>
            !Dangles(v, "fromNode", IdSet(c.nodes)) && !Dangles(v, "toNode", IdSet(c.nodes))
  {
    hide IdOf, IdSet, Dangles, DistinctIds;
    var edges, all := c.edges[p := v], c.nodes + c.edges;
    UpdateDistinct(all, |c.nodes| + p, v);
    assert all[|c.nodes| + p := v] == c.nodes + edges;
    assert edges[p] == v;
  }

  // ---------- ids and endpoints of the edited value ----------

  /** A given id stays; a generated one repeats nothing. Other members are as they were. */
  lemma IdentifiedRepeatsIff(c: Canvas, o: Object, namespace: string, index: nat, digest: Digest)
    requires WithId(o, namespace, index, Identifiers(c), digest).Ok?
    ensures var v := Obj(WithId(o, namespace, index, Identifiers(c), digest).value);
            && (Repeats(v, IdSet(c.nodes + c.edges)) <==> Repeats(Obj(o), IdSet(c.nodes + c.edges)))
            && StringMember(v, "fromNode") == StringMember(Obj(o), "fromNode")
            && StringMember(v, "toNode") == StringMember(Obj(o), "toNode")
  {
    hide Insert, FreshId, Identifiers, IdSet;
    if !HasKey(o, "id") {
      var id := Str(FreshId(o, namespace, index, Identifiers(c), digest, 0).value);
      GeneratedIdIsFresh(o, namespace, index, c, digest);
      assert "fromNode"[0] != "id"[0] && "toNode"[0] != "id"[0];
      InsertGet(o, "id", id, "fromNode");
      InsertGet(o, "id", id, "toNode");
      assert Get(o, "id").None?;
    }
  }

  lemma PlacedKeepsId(node: Object, nodes: seq<Value>)
    ensures IdOf(Obj(Placed(node, nodes))) == IdOf(Obj(node))
  {
    hide Insert, FreeX, Get;
    KeysDiffer();
    var x := Num(Integer(FreeX(nodes)));
    InsertGet(node, "x", x, "id");
    InsertGet(if HasKey(node, "x") then node else Insert(node, "x", x), "y", Num(Integer(0)), "id");
  }

  lemma RectangleKeepsId(group: Object, h: Bounds)
    ensures IdOf(Obj(GroupRectangle(group, h))) == IdOf(Obj(group))
  {
    hide Insert, Get, Saturate;
    KeysDiffer();
    var frame := GroupFrame(h);
    var o1 := Insert(group, "type", Str("group"));
    InsertGet(group, "type", Str("group"), "id");
    FourInserts(o1, "x", "y", "width", "height", Num(Integer(frame.x)), Num(Integer(frame.y)),
      Num(Integer(frame.width)), Num(Integer(frame.height)), "id");
  }

  /** An attached edge, patched, dangles exactly where the patch itself names a missing node. */
  lemma PatchedEndpoint(edge: Object, patch: Object, id: string, endpoint: string, nodeIds: set<string>)
    requires Unique(edge) && Unique(patch) && endpoint != "id" && !Dangles(Obj(edge), endpoint, nodeIds)
    ensures Dangles(Obj(Insert(MergePatch.Patch(edge, patch), "id", Str(id))), endpoint, nodeIds) <==>
            Dangles(Obj(patch), endpoint, nodeIds)
  {
    hide Insert, Get, MergePatch.Patch;
    MergePatch.PatchGet(edge, patch, endpoint);
    InsertGet(MergePatch.Patch(edge, patch), "id", Str(id), endpoint);
  }

  // ---------- the exact condition ----------

  /**
   * An operation that succeeds on a document with unique ids and attached edges leaves it so, before any
   * final check, if and only if the ids it gives are new and the endpoints it names are nodes.
   */
  lemma OperationKeepsIntegrityIff(c: Canvas, op: Operation, index: nat, digest: Digest)
    requires Integrity(c) && ApplyOperation(c, op, index, digest).Ok?
    requires op.UpdateEdge? ==> Unique(op.patch) && forall e :: e in c.edges && e.Obj? ==> Unique(e.fields)
    ensures Integrity(ApplyOperation(c, op, index, digest).value) <==> Acceptable(c, op)
  {
    hide Integrity, IdOf, IdSet, WithId, Placed, Gather, Hull, GroupRectangle, Insert, MergePatch.Patch, RetainEdges,
      Repeats, Dangles, NewId, Attached;
    match op
    case AddNode(node) => AddNodeIff(c, node, index, digest);
    case AddEdge(edge) => AddEdgeIff(c, edge, index, digest);
    case UpdateEdge(id, patch) => UpdateEdgeIff(c, id, patch, index, digest);
    case Group(group, members) => GroupIff(c, group, members, index, digest);
    case _ => SafeOperationKeepsIntegrity(c, op, index, digest);
  }

  lemma AddNodeIff(c: Canvas, node: Object, index: nat, digest: Digest)
    requires Integrity(c) && ApplyOperation(c, AddNode(node), index, digest).Ok?
    ensures Integrity(ApplyOperation(c, AddNode(node), index, digest).value) <==> NewId(c, node)
  {
    hide Integrity, IdOf, IdSet, WithId, Placed;
    var o := Placed(node, c.nodes);
    PlacedKeepsId(node, c.nodes);
    IdentifiedRepeatsIff(c, o, "node", index, digest);
    var v := Obj(WithId(o, "node", index, Identifiers(c), digest).value);
    InsertNodeKeepsIff(c, |c.nodes|, v);
    assert c.nodes[..|c.nodes|] + [v] + c.nodes[|c.nodes|..] == c.nodes + [v];
  }

  lemma AddEdgeIff(c: Canvas, edge: Object, index: nat, digest: Digest)
    requires Integrity(c) && ApplyOperation(c, AddEdge(edge), index, digest).Ok?
    ensures Integrity(ApplyOperation(c, AddEdge(edge), index, digest).value) <==> NewId(c, edge) && Attached(c, edge)
  {
    hide Integrity, IdOf, IdSet, WithId, StringMember, Repeats;
    IdentifiedRepeatsIff(c, edge, "edge", index, digest);
    AppendEdgeKeepsIff(c, Obj(WithId(edge, "edge", index, Identifiers(c), digest).value));
  }

  lemma UpdateEdgeIff(c: Canvas, id: string, patch: Object, index: nat, digest: Digest)
    requires Integrity(c) && ApplyOperation(c, UpdateEdge(id, patch), index, digest).Ok?
    requires Unique(patch) && forall e :: e in c.edges && e.Obj? ==> Unique(e.fields)
    ensures Integrity(ApplyOperation(c, UpdateEdge(id, patch), index, digest).value) <==> Attached(c, patch)
  {
    hide IdSet, Insert, MergePatch.Patch, DistinctIds, Dangles, IdOf;
    var p := IndexById(c.edges, id).value;
    IdentifiedIsObject(c.edges[p]);
    var edge := c.edges[p].fields;
    assert c.edges[p] in c.edges;
    assert "fromNode"[0] != "id"[0] && "toNode"[0] != "id"[0];
    PatchedEndpoint(edge, patch, id, "fromNode", IdSet(c.nodes));
    PatchedEndpoint(edge, patch, id, "toNode", IdSet(c.nodes));
    InsertedId(MergePatch.Patch(edge, patch), id);
    UpdateEdgeKeepsIff(c, p, Obj(Insert(MergePatch.Patch(edge, patch), "id", Str(id))));
  }

  lemma GroupIff(c: Canvas, group: Object, members: seq<string>, index: nat, digest: Digest)
    requires Integrity(c) && ApplyOperation(c, Group(group, members), index, digest).Ok?
    ensures Integrity(ApplyOperation(c, Group(group, members), index, digest).value) <==> NewId(c, group)
  {
    hide Integrity, IdOf, IdSet, WithId, Gather, Hull, GroupRectangle;
    var extent := Gather(c.nodes, members, |members|, index).value;
    var o := GroupRectangle(group, Hull(extent.bounds));
    RectangleKeepsId(group, Hull(extent.bounds));
    IdentifiedRepeatsIff(c, o, "group", index, digest);
    InsertNodeKeepsIff(c, extent.insertion, Obj(WithId(o, "group", index, Identifiers(c), digest).value));
  }
}
