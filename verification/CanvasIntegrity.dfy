/** What canvas operations keep by construction, and where they put things. */
module CanvasIntegrity {
  import opened Text
  import opened Json
  import opened CanvasSchema
  import opened CanvasOperations
  import MergePatch

  /** One id space without repetitions, and no edge that names a missing node. */
  ghost predicate Integrity(c: Canvas) {
    DistinctIds(c.nodes + c.edges) && NoDangling(c.nodes, c.edges)
  }

  /** Operations that cannot name an id of their own for a new value or rewire an edge. */
  predicate SafeOperation(op: Operation) {
    match op
    case AddNode(node) => !HasKey(node, "id")
    case UpdateNode(_, _) => true
    case RemoveNode(_) => true
    case RemoveEdge(_) => true
    case Group(group, _) => !HasKey(group, "id")
    case _ => false
  }

  // ---------- id sequences ----------

  lemma InsertDistinct(s: seq<Value>, k: nat, v: Value)
    requires DistinctIds(s) && k <= |s| && (IdOf(v).Some? ==> IdOf(v).value !in IdSet(s))
    ensures DistinctIds(s[..k] + [v] + s[k..])
  {
    hide IdOf, IdSet;
    var t := s[..k] + [v] + s[k..];
    assert forall i :: 0 <= i < k ==> t[i] == s[i];
    assert t[k] == v && forall i :: k < i < |t| ==> t[i] == s[i - 1];
    forall i | 0 <= i < |s| && IdOf(v).Some? ensures IdOf(s[i]) != IdOf(v) {
      RepeatsIff(v, s);
    }
    forall i, j | 0 <= i < j < |t| && IdOf(t[i]).Some? ensures IdOf(t[i]) != IdOf(t[j]) {
      var a, b := if i < k then i else i - 1, if j < k then j else j - 1;
      if i != k && j != k { assert IdOf(s[a]) != IdOf(s[b]); }
    }
  }

  lemma RemoveDistinct(s: seq<Value>, p: nat)
    requires DistinctIds(s) && p < |s|
    ensures DistinctIds(s[..p] + s[p + 1..])
  {
    hide IdOf;
    var t := s[..p] + s[p + 1..];
    assert forall i :: 0 <= i < |t| ==> t[i] == s[if i < p then i else i + 1];
    forall i, j | 0 <= i < j < |t| && IdOf(t[i]).Some? ensures IdOf(t[i]) != IdOf(t[j]) {
      assert IdOf(s[if i < p then i else i + 1]) != IdOf(s[if j < p then j else j + 1]);
    }
  }

  lemma UpdateDistinct(s: seq<Value>, p: nat, v: Value)
    requires DistinctIds(s) && p < |s| && IdOf(v) == IdOf(s[p])
    ensures DistinctIds(s[p := v])
  {
    hide IdOf;
    var t := s[p := v];
    forall i, j | 0 <= i < j < |t| && IdOf(t[i]).Some? ensures IdOf(t[i]) != IdOf(t[j]) {
      assert IdOf(s[i]) != IdOf(s[j]);
    }
  }

  /** Dropping edges keeps ids distinct. */
  lemma {:induction false} RetainDistinct(before: seq<Value>, edges: seq<Value>, id: string)
    requires DistinctIds(before + edges)
    ensures DistinctIds(before + RetainEdges(edges, id))
    decreases |edges|
  {
    hide DistinctIds, TouchesEdge;
    if edges != [] {
      var rest := RetainEdges(edges[1..], id);
      if TouchesEdge(edges[0], id) {
        RemoveDistinct(before + edges, |before|);
        assert (before + edges)[..|before|] + (before + edges)[|before| + 1..] == before + edges[1..];
        RetainDistinct(before, edges[1..], id);
        assert [] + rest == rest;
      } else {
        assert before + edges == (before + [edges[0]]) + edges[1..];
        RetainDistinct(before + [edges[0]], edges[1..], id);
        assert (before + [edges[0]]) + rest == before + ([edges[0]] + rest);
      }
    }
  }

  lemma {:induction false} RetainedAreUntouched(edges: seq<Value>, id: string)
    ensures forall e :: e in RetainEdges(edges, id) ==> e in edges && !TouchesEdge(e, id)
    decreases |edges|
  {
    if edges != [] { RetainedAreUntouched(edges[1..], id); }
  }

  // ---------- ids of edited values ----------

  lemma IdentifiedIsObject(v: Value)
    requires IdOf(v).Some?
    ensures v.Obj?
  {
  }

  lemma InsertedId(o: Object, id: string)
    ensures IdOf(Obj(Insert(o, "id", Str(id)))) == Some(id)
  {
    InsertGet(o, "id", Str(id), "id");
  }

  /** Adding another member does not give an object an id. */
  lemma InsertOtherKey(o: Object, key: string, value: Value)
    requires key != "id"
    ensures HasKey(Insert(o, key, value), "id") <==> HasKey(o, "id")
  {
    InsertGet(o, key, value, "id");
    assert Get(o, "id").Some? <==> HasKey(o, "id");
  }

  lemma PlacedHasNoId(node: Object, nodes: seq<Value>)
    requires !HasKey(node, "id")
    ensures !HasKey(Placed(node, nodes), "id")
  {
    hide Insert, FreeX;
    assert "x"[0] != "id"[0] && "y"[0] != "id"[0];
    InsertOtherKey(node, "x", Num(Integer(FreeX(nodes))));
    var withX := if HasKey(node, "x") then node else Insert(node, "x", Num(Integer(FreeX(nodes))));
    InsertOtherKey(withX, "y", Num(Integer(0)));
  }

  lemma RectangleHasNoId(group: Object, h: Bounds)
    requires !HasKey(group, "id")
    ensures !HasKey(GroupRectangle(group, h), "id")
  {
    hide Insert;
    var o1 := Insert(group, "type", Str("group"));
    var o2 := Insert(o1, "x", Num(Integer(Saturate(h.left - GROUP_PADDING))));
    var o3 := Insert(o2, "y", Num(Integer(Saturate(h.top - GROUP_PADDING))));
    var width := Num(Integer(Saturate(Saturate(h.right - h.left) + 2 * GROUP_PADDING)));
    var o4 := Insert(o3, "width", width);
    assert "type"[0] != "id"[0] && "x"[0] != "id"[0] && "y"[0] != "id"[0] && "width"[0] != "id"[0]
      && "height"[0] != "id"[0];
    InsertOtherKey(group, "type", Str("group"));
    InsertOtherKey(o1, "x", Num(Integer(Saturate(h.left - GROUP_PADDING))));
    InsertOtherKey(o2, "y", Num(Integer(Saturate(h.top - GROUP_PADDING))));
    InsertOtherKey(o3, "width", width);
    InsertOtherKey(o4, "height", Num(Integer(Saturate(Saturate(h.bottom - h.top) + 2 * GROUP_PADDING))));
  }

  /** A generated id is new to the whole document. */
  lemma GeneratedIdIsFresh(o: Object, namespace: string, index: nat, c: Canvas, digest: Digest)
    requires !HasKey(o, "id") && WithId(o, namespace, index, Identifiers(c), digest).Ok?
    ensures var v := Obj(WithId(o, namespace, index, Identifiers(c), digest).value);
            IdOf(v).Some? && IdOf(v).value !in IdSet(c.nodes + c.edges)
  {
    hide IdOf, Insert, IdSet;
    var id := FreshId(o, namespace, index, Identifiers(c), digest, 0).value;
    InsertedId(o, id);
    IdSetConcat(c.nodes, c.edges);
  }

  // ---------- one operation at a time ----------

  /** A node inserted anywhere with a fresh id. */
  lemma InsertNodeKeeps(c: Canvas, k: nat, v: Value)
    requires Integrity(c) && k <= |c.nodes| && IdOf(v).Some? && IdOf(v).value !in IdSet(c.nodes + c.edges)
    ensures Integrity(c.(nodes := c.nodes[..k] + [v] + c.nodes[k..]))
  {
    hide IdOf, IdSet, DistinctIds, Dangles;
    var nodes, all := c.nodes[..k] + [v] + c.nodes[k..], c.nodes + c.edges;
    InsertDistinct(all, k, v);
    assert all[..k] + [v] + all[k..] == nodes + c.edges;
    MoreNodesKeepEndpoints(c.nodes, nodes, c.edges);
  }

  lemma MoreNodesKeepEndpoints(nodes: seq<Value>, more: seq<Value>, edges: seq<Value>)
    requires NoDangling(nodes, edges) && forall v :: v in nodes ==> v in more
    ensures NoDangling(more, edges)
  {
    hide IdOf;
    forall id | id in IdSet(nodes) ensures id in IdSet(more) {
      var k :| 0 <= k < |nodes| && IdOf(nodes[k]).Some? && IdOf(nodes[k]).value == id;
      assert nodes[k] in more;
      var j :| 0 <= j < |more| && more[j] == nodes[k];
    }
  }

  lemma RemoveNodeKeeps(c: Canvas, p: nat, id: string)
    requires Integrity(c) && p < |c.nodes| && IdOf(c.nodes[p]) == Some(id)
    ensures Integrity(Canvas(c.nodes[..p] + c.nodes[p + 1..], RetainEdges(c.edges, id)))
  {
    hide IdOf, DistinctIds;
    var nodes, edges, all := c.nodes[..p] + c.nodes[p + 1..], RetainEdges(c.edges, id), c.nodes + c.edges;
    RemoveDistinct(all, p);
    assert all[..p] + all[p + 1..] == nodes + c.edges;
    RetainDistinct(nodes, c.edges, id);
    RetainedAreUntouched(c.edges, id);
    forall i | 0 <= i < |edges|
      ensures !Dangles(edges[i], "fromNode", IdSet(nodes)) && !Dangles(edges[i], "toNode", IdSet(nodes))
    {
      assert edges[i] in edges;
      var k :| 0 <= k < |c.edges| && c.edges[k] == edges[i];
      EndpointSurvives(c.nodes, p, id, edges[i], "fromNode");
      EndpointSurvives(c.nodes, p, id, edges[i], "toNode");
    }
  }

  lemma EndpointSurvives(nodes: seq<Value>, p: nat, id: string, edge: Value, endpoint: string)
    requires p < |nodes| && IdOf(nodes[p]) == Some(id)
    requires !Dangles(edge, endpoint, IdSet(nodes)) && StringMember(edge, endpoint) != Some(id)
    ensures !Dangles(edge, endpoint, IdSet(nodes[..p] + nodes[p + 1..]))
  {
    hide IdOf, StringMember;
    var rest, target := nodes[..p] + nodes[p + 1..], StringMember(edge, endpoint);
    if target.Some? {
      var k :| 0 <= k < |nodes| && IdOf(nodes[k]).Some? && IdOf(nodes[k]).value == target.value;
      var j := if k < p then k else k - 1;
      assert rest[j] == nodes[k];
    }
  }

  lemma RemoveEdgeKeeps(c: Canvas, p: nat)
    requires Integrity(c) && p < |c.edges|
    ensures Integrity(c.(edges := c.edges[..p] + c.edges[p + 1..]))
  {
    hide DistinctIds, Dangles, IdSet;
    var edges, all := c.edges[..p] + c.edges[p + 1..], c.nodes + c.edges;
    RemoveDistinct(all, |c.nodes| + p);
    assert all[..|c.nodes| + p] + all[|c.nodes| + p + 1..] == c.nodes + edges;
    assert forall i :: 0 <= i < |edges| ==> edges[i] == c.edges[if i < p then i else i + 1];
  }

  lemma UpdateNodeKeeps(c: Canvas, p: nat, v: Value)
    requires Integrity(c) && p < |c.nodes| && IdOf(v) == IdOf(c.nodes[p])
    ensures Integrity(c.(nodes := c.nodes[p := v]))
  {
    hide IdOf, DistinctIds;
    var nodes, all := c.nodes[p := v], c.nodes + c.edges;
    UpdateDistinct(all, p, v);
    assert all[p := v] == nodes + c.edges;
    forall id | id in IdSet(c.nodes) ensures id in IdSet(nodes) {
      var k :| 0 <= k < |c.nodes| && IdOf(c.nodes[k]).Some? && IdOf(c.nodes[k]).value == id;
      assert IdOf(nodes[k]) == IdOf(c.nodes[k]);
    }
  }

  /** Every safe operation keeps ids unique and edges attached, before any final check. */
  lemma SafeOperationKeepsIntegrity(c: Canvas, op: Operation, index: nat, digest: Digest)
    requires Integrity(c) && SafeOperation(op) && ApplyOperation(c, op, index, digest).Ok?
    ensures Integrity(ApplyOperation(c, op, index, digest).value)
  {
    hide Integrity, IdOf, IdSet, WithId, Placed, Gather, Hull, GroupRectangle, Insert, MergePatch.Patch, RetainEdges;
    match op
    case AddNode(node) =>
      PlacedHasNoId(node, c.nodes);
      GeneratedIdIsFresh(Placed(node, c.nodes), "node", index, c, digest);
      var v := Obj(WithId(Placed(node, c.nodes), "node", index, Identifiers(c), digest).value);
      InsertNodeKeeps(c, |c.nodes|, v);
      assert c.nodes[..|c.nodes|] + [v] + c.nodes[|c.nodes|..] == c.nodes + [v];
    case UpdateNode(id, patch) =>
      var p := IndexById(c.nodes, id).value;
      IdentifiedIsObject(c.nodes[p]);
      InsertedId(MergePatch.Patch(c.nodes[p].fields, patch), id);
      UpdateNodeKeeps(c, p, Obj(Insert(MergePatch.Patch(c.nodes[p].fields, patch), "id", Str(id))));
    case RemoveNode(id) => RemoveNodeKeeps(c, IndexById(c.nodes, id).value, id);
    case RemoveEdge(id) => RemoveEdgeKeeps(c, IndexById(c.edges, id).value);
    case Group(group, members) =>
      var extent := Gather(c.nodes, members, |members|, index).value;
      var rectangle := GroupRectangle(group, Hull(extent.bounds));
      RectangleHasNoId(group, Hull(extent.bounds));
      GeneratedIdIsFresh(rectangle, "group", index, c, digest);
      InsertNodeKeeps(c, extent.insertion, Obj(WithId(rectangle, "group", index, Identifiers(c), digest).value));
    case _ =>
  }

  /** Any list of safe operations that succeeds keeps the integrity of a valid canvas. */
  lemma {:induction false} SafeOperationsKeepIntegrity(c: Canvas, ops: seq<Operation>, index: nat, digest: Digest)
    requires Integrity(c) && index <= |ops| && forall i :: index <= i < |ops| ==> SafeOperation(ops[i])
    ensures var r := ApplyAll(c, ops, index, digest); r.Ok? ==> Integrity(r.value)
    decreases |ops| - index
  {
    hide Integrity, ApplyOperation, SafeOperation;
    if index < |ops| {
      var r := ApplyOperation(c, ops[index], index, digest);
      if r.Ok? {
        SafeOperationKeepsIntegrity(c, ops[index], index, digest);
        SafeOperationsKeepIntegrity(r.value, ops, index + 1, digest);
      }
    }
  }

  // ---------- what one edit changes ----------

  /**
   * Updating a node or an edge changes that value alone: it keeps its id, and each other member
   * follows the merge patch.
   */
  lemma UpdateTouchesOneValue(c: Canvas, id: string, patch: Object, index: nat, digest: Digest, k: nat, key: string)
    requires k < |c.nodes| + |c.edges| && Unique(patch)
      && (forall v :: v in c.nodes + c.edges && v.Obj? ==> Unique(v.fields))
    ensures var r := ApplyOperation(c, UpdateNode(id, patch), index, digest);
            r.Ok? ==> r.value.edges == c.edges && ValuesPatched(c.nodes, r.value.nodes, id, patch, k, key)
    ensures var r := ApplyOperation(c, UpdateEdge(id, patch), index, digest);
            r.Ok? ==> r.value.nodes == c.nodes && ValuesPatched(c.edges, r.value.edges, id, patch, k, key)
  {
    hide Repatched, ValuesPatched, IdOf;
    forall v | v in c.nodes || v in c.edges ensures v in c.nodes + c.edges {
    }
    RepatchedTouchesOne(c.nodes, id, patch, k, key);
    RepatchedTouchesOne(c.edges, id, patch, k, key);
  }

  /** At position `k`: the first value with this id is patched, member by member, and the rest are as they were. */
  ghost predicate ValuesPatched(before: seq<Value>, after: seq<Value>, id: string, patch: Object, k: nat, key: string) {
    && |after| == |before|
    && (k < |before| ==>
          if IndexById(before, id) != Some(k) then after[k] == before[k]
          else before[k].Obj? && after[k].Obj? && IdOf(after[k]) == Some(id)
               && (key != "id" ==>
                     Get(after[k].fields, key) == MergePatch.Patched(Get(before[k].fields, key), Get(patch, key))))
  }

  lemma RepatchedTouchesOne(values: seq<Value>, id: string, patch: Object, k: nat, key: string)
    requires IndexById(values, id).Some? ==> Unique(patch) && forall v :: v in values && v.Obj? ==> Unique(v.fields)
    ensures var p := IndexById(values, id);
            p.Some? ==>
              values[p.value].Obj? && ValuesPatched(values, Repatched(values, p.value, id, patch), id, patch, k, key)
  {
    hide IdOf, MergePatch.Patch, MergePatch.Patched, Insert, Get, IndexById;
    var p := IndexById(values, id);
    if p.Some? {
      IdentifiedIsObject(values[p.value]);
      assert values[p.value] in values;
      var patched := MergePatch.Patch(values[p.value].fields, patch);
      InsertedId(patched, id);
      InsertGet(patched, "id", Str(id), key);
      MergePatch.PatchGet(values[p.value].fields, patch, key);
    }
  }

  /** Adding appends one value that carries every given member as given, under its own or a new id. */
  lemma AdditionAppends(c: Canvas, given: Object, index: nat, digest: Digest, key: string)
    ensures var r := ApplyOperation(c, AddNode(given), index, digest);
            r.Ok? ==> r.value.edges == c.edges && Appended(c, c.nodes, r.value.nodes, given, key)
    ensures var r := ApplyOperation(c, AddEdge(given), index, digest);
            r.Ok? ==> r.value.nodes == c.nodes && Appended(c, c.edges, r.value.edges, given, key)
  {
    hide Placed, Appended, WithId, HasKey, Get, IdOf;
    PlacedKeeps(given, c.nodes, key);
    PlacedKeeps(given, c.nodes, "id");
    if WithId(Placed(given, c.nodes), "node", index, Identifiers(c), digest).Ok? {
      IdentifiedAppends(c, c.nodes, Placed(given, c.nodes), given, "node", index, digest, key);
    }
    if WithId(given, "edge", index, Identifiers(c), digest).Ok? {
      IdentifiedAppends(c, c.edges, given, given, "edge", index, digest, key);
    }
  }

  ghost predicate Appended(c: Canvas, before: seq<Value>, after: seq<Value>, given: Object, key: string) {
    && |after| == |before| + 1 && after[..|before|] == before && after[|before|].Obj?
    && (HasKey(given, key) ==> Get(after[|before|].fields, key) == Get(given, key))
    && (!HasKey(given, "id") ==>
          IdOf(after[|before|]).Some? && IdOf(after[|before|]).value !in IdSet(c.nodes + c.edges))
  }

  lemma IdentifiedAppends(c: Canvas, before: seq<Value>, o: Object, given: Object, namespace: string, index: nat,
      digest: Digest, key: string)
    requires HasKey(given, key) ==> Get(o, key) == Get(given, key)
    requires HasKey(o, "id") <==> HasKey(given, "id")
    requires WithId(o, namespace, index, Identifiers(c), digest).Ok?
    ensures Appended(c, before, before + [Obj(WithId(o, namespace, index, Identifiers(c), digest).value)], given, key)
  {
    hide HasKey, Get, IdOf, Insert, FreshId, Identifiers, IdSet;
    if !HasKey(o, "id") {
      InsertGet(o, "id", Str(FreshId(o, namespace, index, Identifiers(c), digest, 0).value), key);
      GeneratedIdIsFresh(o, namespace, index, c, digest);
    }
  }

  lemma PlacedKeeps(node: Object, nodes: seq<Value>, key: string)
    ensures HasKey(node, key) ==> Get(Placed(node, nodes), key) == Get(node, key)
    ensures key == "id" ==> (HasKey(Placed(node, nodes), key) <==> HasKey(node, key))
  {
    hide Insert, FreeX;
    KeysDiffer();
    var x := Num(Integer(FreeX(nodes)));
    InsertGet(node, "x", x, key);
    var withX := if HasKey(node, "x") then node else Insert(node, "x", x);
    InsertGet(withX, "y", Num(Integer(0)), key);
    if key == "id" {
      InsertOtherKey(node, "x", x);
      InsertOtherKey(withX, "y", Num(Integer(0)));
    }
  }

  /** Removing a node drops that node and exactly the edges that name it; everything else keeps its order. */
  lemma RemovalIsExact(c: Canvas, id: string, index: nat, digest: Digest)
    requires ApplyOperation(c, RemoveNode(id), index, digest).Ok?
    ensures var next, p := ApplyOperation(c, RemoveNode(id), index, digest).value, IndexById(c.nodes, id).value;
            && next.nodes[..p] == c.nodes[..p] && next.nodes[p..] == c.nodes[p + 1..]
            && (forall e :: multiset(next.edges)[e] == if TouchesEdge(e, id) then 0 else multiset(c.edges)[e])
            && forall k :: 0 <= k <= |c.edges| ==>
                 next.edges == RetainEdges(c.edges[..k], id) + RetainEdges(c.edges[k..], id)
  {
    hide *;
    RemoveNodeUnfolds(c, id, index, digest);
    RetainCounts(c.edges, id);
    forall k | 0 <= k <= |c.edges|
      ensures RetainEdges(c.edges, id) == RetainEdges(c.edges[..k], id) + RetainEdges(c.edges[k..], id)
    {
      RetainConcat(c.edges[..k], c.edges[k..], id);
      assert c.edges[..k] + c.edges[k..] == c.edges;
    }
  }

  lemma RemoveNodeUnfolds(c: Canvas, id: string, index: nat, digest: Digest)
    requires ApplyOperation(c, RemoveNode(id), index, digest).Ok?
    ensures IndexById(c.nodes, id).Some? && IndexById(c.nodes, id).value < |c.nodes|
    ensures var next, p := ApplyOperation(c, RemoveNode(id), index, digest).value, IndexById(c.nodes, id).value;
            && next.edges == RetainEdges(c.edges, id)
            && next.nodes[..p] == c.nodes[..p] && next.nodes[p..] == c.nodes[p + 1..]
  {
    hide RetainEdges, IdOf;
  }

  lemma {:induction false} RetainConcat(a: seq<Value>, b: seq<Value>, id: string)
    ensures RetainEdges(a + b, id) == RetainEdges(a, id) + RetainEdges(b, id)
    decreases |a|
  {
    hide TouchesEdge;
    if a == [] {
      assert a + b == b;
    } else {
      assert (a + b)[1..] == a[1..] + b;
      RetainConcat(a[1..], b, id);
    }
  }

  lemma {:induction false} RetainCounts(edges: seq<Value>, id: string)
    ensures forall e :: multiset(RetainEdges(edges, id))[e] == if TouchesEdge(e, id) then 0 else multiset(edges)[e]
    decreases |edges|
  {
    hide TouchesEdge;
    if edges != [] {
      RetainCounts(edges[1..], id);
      assert edges == [edges[0]] + edges[1..];
      var rest := RetainEdges(edges[1..], id);
      assert multiset([edges[0]] + rest) == multiset([edges[0]]) + multiset(rest);
      assert [] + rest == rest;
    }
  }

  // ---------- geometry ----------

  /** A rectangle in exact integers. */
  datatype Rectangle = Rectangle(x: int, y: int, width: int, height: int)

  function RectangleOf(v: Value): Option<Rectangle> {
    var x, y, width, height :=
      AsI64(Member(v, "x")), AsI64(Member(v, "y")), AsI64(Member(v, "width")), AsI64(Member(v, "height"));
    if x.Some? && y.Some? && width.Some? && height.Some?
    then Some(Rectangle(x.value, y.value, width.value, height.value)) else None
  }

  /** The inner rectangle lies inside the outer one with this margin on all four sides. */
  ghost predicate Surrounds(outer: Rectangle, inner: Rectangle, margin: int) {
    && outer.x + margin <= inner.x && inner.x + inner.width + margin <= outer.x + outer.width
    && outer.y + margin <= inner.y && inner.y + inner.height + margin <= outer.y + outer.height
  }

  /** No i64 operation that places or sizes the group is cut off where it matters: too low a corner or too large a
    * size. */
  ghost predicate RoomForGroup(h: Bounds) {
    && h.left - GROUP_PADDING >= I64_MIN && h.right - h.left + 2 * GROUP_PADDING <= I64_MAX
    && h.top - GROUP_PADDING >= I64_MIN && h.bottom - h.top + 2 * GROUP_PADDING <= I64_MAX
  }

  /** The rectangle the group gets. */
  function GroupFrame(h: Bounds): Rectangle {
    Rectangle(Saturate(h.left - GROUP_PADDING), Saturate(h.top - GROUP_PADDING),
              Saturate(Saturate(h.right - h.left) + 2 * GROUP_PADDING),
              Saturate(Saturate(h.bottom - h.top) + 2 * GROUP_PADDING))
  }

  lemma {:induction false} GatherCollects(nodes: seq<Value>, members: seq<string>, count: nat, index: nat, k: nat)
    requires count <= |members| && k < count && Gather(nodes, members, count, index).Ok?
    ensures var extent := Gather(nodes, members, count, index).value;
            var position := IndexById(nodes, members[k]);
            position.Some? && BoundsOf(nodes[position.value]) == Some(extent.bounds[k])
            && extent.insertion <= position.value
    decreases count
  {
    hide BoundsOf;
    if k < count - 1 {
      GatherCollects(nodes, members, count - 1, index, k);
    }
  }

  /** The group goes in where its lowest member is. */
  lemma {:induction false} InsertionIsAMember(nodes: seq<Value>, members: seq<string>, count: nat, index: nat)
    returns (k: nat)
    requires 0 < count <= |members| && Gather(nodes, members, count, index).Ok?
    ensures k < count && IndexById(nodes, members[k]) == Some(Gather(nodes, members, count, index).value.insertion)
    decreases count
  {
    hide BoundsOf, Gather, IndexById;
    GatherStep(nodes, members, count - 1, index);
    var before := Gather(nodes, members, count - 1, index).value;
    var position := IndexById(nodes, members[count - 1]).value;
    if count == 1 {
      GatherNothing(nodes, members, index);
      k := 0;
    } else if position < before.insertion {
      k := count - 1;
    } else {
      k := InsertionIsAMember(nodes, members, count - 1, index);
    }
  }

  /** Each side of the hull is some member's side, so the group is no larger than it must be. */
  lemma HullIsTight(bounds: seq<Bounds>)
    requires bounds != []
    ensures var h := Hull(bounds);
            && (exists k :: 0 <= k < |bounds| && bounds[k].left == h.left)
            && (exists k :: 0 <= k < |bounds| && bounds[k].top == h.top)
            && (exists k :: 0 <= k < |bounds| && bounds[k].right == h.right)
            && (exists k :: 0 <= k < |bounds| && bounds[k].bottom == h.bottom)
  {
    var lefts := seq(|bounds|, i requires 0 <= i < |bounds| => bounds[i].left);
    var tops := seq(|bounds|, i requires 0 <= i < |bounds| => bounds[i].top);
    var rights := seq(|bounds|, i requires 0 <= i < |bounds| => bounds[i].right);
    var bottoms := seq(|bounds|, i requires 0 <= i < |bounds| => bounds[i].bottom);
    var a :| 0 <= a < |lefts| && lefts[a] == Least(lefts);
    var b :| 0 <= b < |tops| && tops[b] == Least(tops);
    var c :| 0 <= c < |rights| && rights[c] == Greatest(rights);
    var d :| 0 <= d < |bottoms| && bottoms[d] == Greatest(bottoms);
    assert bounds[a].left == Least(lefts) && bounds[b].top == Least(tops);
    assert bounds[c].right == Greatest(rights) && bounds[d].bottom == Greatest(bottoms);
  }

  lemma HullContains(bounds: seq<Bounds>, k: nat)
    requires k < |bounds|
    ensures var h := Hull(bounds);
            h.left <= bounds[k].left && h.top <= bounds[k].top && bounds[k].right <= h.right
              && bounds[k].bottom <= h.bottom
  {
    var lefts := seq(|bounds|, i requires 0 <= i < |bounds| => bounds[i].left);
    var tops := seq(|bounds|, i requires 0 <= i < |bounds| => bounds[i].top);
    var rights := seq(|bounds|, i requires 0 <= i < |bounds| => bounds[i].right);
    var bottoms := seq(|bounds|, i requires 0 <= i < |bounds| => bounds[i].bottom);
    assert lefts[k] in lefts && tops[k] in tops && rights[k] in rights && bottoms[k] in bottoms;
  }

  /** The members a group gets survive the later insertions. */
  lemma RectangleMembers(group: Object, h: Bounds, id: Option<string>)
    ensures var o := GroupRectangle(group, h);
            var v := Obj(if id.Some? then Insert(o, "id", Str(id.value)) else o);
            RectangleOf(v) == Some(GroupFrame(h)) && StringMember(v, "type") == Some("group")
  {
    hide Insert, Get, Saturate;
    var frame := GroupFrame(h);
    var x, y, width, height :=
      Num(Integer(frame.x)), Num(Integer(frame.y)), Num(Integer(frame.width)), Num(Integer(frame.height));
    var o1 := Insert(group, "type", Str("group"));
    var o2 := Insert(o1, "x", x);
    var o3 := Insert(o2, "y", y);
    var o4 := Insert(o3, "width", width);
    var o5 := Insert(o4, "height", height);
    assert GroupRectangle(group, h) == o5;
    KeysDiffer();
    InsertedKeys(group, x, y, width, height);
    var v := Obj(if id.Some? then Insert(o5, "id", Str(id.value)) else o5);
    forall key | key in ["type", "x", "y", "width", "height"] ensures Get(v.fields, key) == Get(o5, key) {
      if id.Some? { InsertGet(o5, "id", Str(id.value), key); }
    }
    assert Get(v.fields, "type") == Get(o5, "type") && Get(v.fields, "x") == Get(o5, "x");
    assert Get(v.fields, "y") == Get(o5, "y") && Get(v.fields, "width") == Get(o5, "width");
    assert Get(v.fields, "height") == Get(o5, "height");
  }

  lemma InsertedKeys(group: Object, x: Value, y: Value, width: Value, height: Value)
    ensures var o1 := Insert(group, "type", Str("group"));
            var o := Insert(Insert(Insert(Insert(o1, "x", x), "y", y), "width", width), "height", height);
            && Get(o, "type") == Some(Str("group")) && Get(o, "x") == Some(x) && Get(o, "y") == Some(y)
            && Get(o, "width") == Some(width) && Get(o, "height") == Some(height)
  {
    hide Insert, Get;
    KeysDiffer();
    var o1 := Insert(group, "type", Str("group"));
    InsertGet(group, "type", Str("group"), "type");
    FourInserts(o1, "x", "y", "width", "height", x, y, width, height, "type");
    FourInserts(o1, "x", "y", "width", "height", x, y, width, height, "x");
    FourInserts(o1, "x", "y", "width", "height", x, y, width, height, "y");
    FourInserts(o1, "x", "y", "width", "height", x, y, width, height, "width");
    FourInserts(o1, "x", "y", "width", "height", x, y, width, height, "height");
  }

  /** What four insertions leave under a key. */
  lemma FourInserts(o: Object, a: string, b: string, c: string, d: string, x: Value, y: Value, z: Value, w: Value,
    key: string)
    ensures Get(Insert(Insert(Insert(Insert(o, a, x), b, y), c, z), d, w), key)
            == if key == d then Some(w) else if key == c then Some(z) else if key == b then Some(y)
               else if key == a then Some(x) else Get(o, key)
  {
    hide Insert, Get;
    var o2 := Insert(o, a, x);
    var o3 := Insert(o2, b, y);
    InsertGet(o, a, x, key);
    InsertGet(o2, b, y, key);
    InsertGet(o3, c, z, key);
    InsertGet(Insert(o3, c, z), d, w, key);
  }

  lemma KeysDiffer()
    ensures "type" != "x" && "type" != "y" && "x" != "y" && "type" != "width" && "x" != "width" && "y" != "width"
    ensures "type" != "height" && "x" != "height" && "y" != "height" && "width" != "height"
    ensures "type" != "id" && "x" != "id" && "y" != "id" && "width" != "id" && "height" != "id"
  {
    assert "type"[0] == 't' && "x"[0] == 'x' && "y"[0] == 'y' && "width"[0] == 'w' && "height"[0] == 'h'
      && "id"[0] == 'i';
  }

  /** What a successful group does to the document: one insertion, of an object built on the rectangle. */
  lemma GroupInserts(c: Canvas, group: Object, members: seq<string>, index: nat, digest: Digest)
    requires ApplyGroup(c, group, members, index, digest).Ok?
    ensures members != [] && Gather(c.nodes, members, |members|, index).Ok?
    ensures var extent := Gather(c.nodes, members, |members|, index).value;
            var at, next := extent.insertion, ApplyGroup(c, group, members, index, digest).value;
            var o := GroupRectangle(group, Hull(extent.bounds));
            var id := if HasKey(o, "id") then None else FreshId(o, "group", index, Identifiers(c), digest, 0);
            && |next.nodes| == |c.nodes| + 1 && next.edges == c.edges
            && next.nodes[..at] == c.nodes[..at] && next.nodes[at + 1..] == c.nodes[at..]
            && next.nodes[at] == Obj(if id.Some? then Insert(o, "id", Str(id.value)) else o)
  {
    hide Insert, Hull, GroupRectangle, Gather, FreshId, Identifiers, HasKey;
  }

  /** A member's own far edges fit in i64, so its bounds are its rectangle's. */
  ghost predicate EdgesFit(r: Rectangle) {
    r.x + r.width <= I64_MAX && r.y + r.height <= I64_MAX
  }

  lemma BoundsAndRectangle(v: Value)
    requires BoundsOf(v).Some?
    ensures RectangleOf(v).Some?
    ensures var r, b := RectangleOf(v).value, BoundsOf(v).value;
            b == Bounds(r.x, r.y, Saturate(r.x + r.width), Saturate(r.y + r.height)) && IsI64(r.x) && IsI64(r.y)
  {
    hide Member, Saturate;
  }

  /** With room, the frame surrounds every rectangle whose bounds the hull contains. */
  lemma RoomSurrounds(r: Rectangle, b: Bounds, h: Bounds)
    requires b == Bounds(r.x, r.y, Saturate(r.x + r.width), Saturate(r.y + r.height)) && IsI64(r.x) && IsI64(r.y)
    requires h.left <= b.left && h.top <= b.top && b.right <= h.right && b.bottom <= h.bottom
    requires RoomForGroup(h) && EdgesFit(r) && IsI64(h.left) && IsI64(h.top)
    ensures Surrounds(GroupFrame(h), r, GROUP_PADDING)
  {
  }

  /** A frame that surrounds the outermost rectangles was not cut off. */
  lemma SurroundedHasRoom(left: Rectangle, top: Rectangle, right: Rectangle, bottom: Rectangle, h: Bounds)
    requires IsI64(h.left) && IsI64(h.top) && IsI64(h.right) && IsI64(h.bottom)
    requires left.x == h.left && top.y == h.top
    requires Saturate(right.x + right.width) == h.right && Saturate(bottom.y + bottom.height) == h.bottom
    requires EdgesFit(right) && EdgesFit(bottom)
    requires Surrounds(GroupFrame(h), left, GROUP_PADDING) && Surrounds(GroupFrame(h), top, GROUP_PADDING)
    requires Surrounds(GroupFrame(h), right, GROUP_PADDING) && Surrounds(GroupFrame(h), bottom, GROUP_PADDING)
    ensures RoomForGroup(h)
  {
  }

  /**
   * A new group lies below all its members in z-order, right where the lowest was; every other node
   * keeps its place relative to the rest.
   */
  lemma GroupLiesBelowMembers(c: Canvas, group: Object, members: seq<string>, index: nat, digest: Digest, k: nat)
    requires ApplyGroup(c, group, members, index, digest).Ok? && k < |members|
    ensures var extent := Gather(c.nodes, members, |members|, index).value;
            var at, next := extent.insertion, ApplyGroup(c, group, members, index, digest).value;
            var position := IndexById(c.nodes, members[k]);
            && |next.nodes| == |c.nodes| + 1 && next.edges == c.edges
            && next.nodes[..at] == c.nodes[..at] && next.nodes[at + 1..] == c.nodes[at..]
            && StringMember(next.nodes[at], "type") == Some("group")
            && RectangleOf(next.nodes[at]) == Some(GroupFrame(Hull(extent.bounds)))
            && position.Some? && at <= position.value
            && BoundsOf(c.nodes[position.value]) == Some(extent.bounds[k])
  {
    hide *;
    GroupInserts(c, group, members, index, digest);
    var extent := Gather(c.nodes, members, |members|, index).value;
    var h := Hull(extent.bounds);
    var o := GroupRectangle(group, h);
    var id := if HasKey(o, "id") then None else FreshId(o, "group", index, Identifiers(c), digest, 0);
    GatherCollects(c.nodes, members, |members|, index, k);
    RectangleMembers(group, h, id);
  }

  /** The rectangle of a member, which has geometry because the group was made. */
  ghost function MemberRectangle(c: Canvas, id: string): Option<Rectangle> {
    match IndexById(c.nodes, id)
    case None => None
    case Some(position) => RectangleOf(c.nodes[position])
  }

  /** Every member is surrounded by 40 units on all four sides. */
  ghost predicate AllSurrounded(c: Canvas, frame: Rectangle, members: seq<string>) {
    forall k :: 0 <= k < |members| ==>
      MemberRectangle(c, members[k]).Some? && Surrounds(frame, MemberRectangle(c, members[k]).value, GROUP_PADDING)
  }

  ghost predicate AllEdgesFit(c: Canvas, members: seq<string>) {
    forall k :: 0 <= k < |members| ==>
      MemberRectangle(c, members[k]).Some? && EdgesFit(MemberRectangle(c, members[k]).value)
  }

  /**
   * The exact condition: the group surrounds all its members with 40 units on every side if and only if
   * their own edges fit in i64 and so do its corner and its size.
   */
  lemma GroupSurroundsMembersIff(c: Canvas, group: Object, members: seq<string>, index: nat, digest: Digest)
    requires ApplyGroup(c, group, members, index, digest).Ok?
    ensures members != []
    ensures var extent := Gather(c.nodes, members, |members|, index).value;
            var frame := RectangleOf(ApplyGroup(c, group, members, index, digest).value.nodes[extent.insertion]);
            && frame.Some?
            && (AllSurrounded(c, frame.value, members)
              <==> AllEdgesFit(c, members) && RoomForGroup(Hull(extent.bounds)))
  {
    hide ApplyGroup, Gather, Hull, GroupFrame, BoundsOf, RectangleOf, RoomForGroup, Surrounds, EdgesFit, Saturate,
      AllSurrounded, AllEdgesFit, IndexById;
    GroupInserts(c, group, members, index, digest);
    var extent := Gather(c.nodes, members, |members|, index).value;
    var h := Hull(extent.bounds);
    GroupLiesBelowMembers(c, group, members, index, digest, 0);
    MembersMatch(c, group, members, index, digest);
    if AllEdgesFit(c, members) && RoomForGroup(h) {
      FitSurrounds(c, members, extent.bounds);
    } else if AllSurrounded(c, GroupFrame(h), members) {
      SurroundedFits(c, members, extent.bounds);
    }
  }

  /** The gathered bounds are those of the members' rectangles. */
  ghost predicate Matches(c: Canvas, members: seq<string>, bounds: seq<Bounds>) {
    && |bounds| == |members|
    && forall k :: 0 <= k < |members| ==> MemberMatches(c, members[k], bounds[k])
  }

  ghost predicate MemberMatches(c: Canvas, id: string, b: Bounds) {
    var r := MemberRectangle(c, id);
    r.Some? && b == Bounds(r.value.x, r.value.y, Saturate(r.value.x + r.value.width),
      Saturate(r.value.y + r.value.height))
    && IsI64(r.value.x) && IsI64(r.value.y)
  }

  lemma MembersMatch(c: Canvas, group: Object, members: seq<string>, index: nat, digest: Digest)
    requires ApplyGroup(c, group, members, index, digest).Ok?
    requires Gather(c.nodes, members, |members|, index).Ok?
    ensures Matches(c, members, Gather(c.nodes, members, |members|, index).value.bounds)
  {
    hide ApplyGroup, Gather, BoundsOf, RectangleOf, Saturate;
    forall k | 0 <= k < |members|
      ensures MemberMatches(c, members[k], Gather(c.nodes, members, |members|, index).value.bounds[k])
    {
      GatherCollects(c.nodes, members, |members|, index, k);
      BoundsAndRectangle(c.nodes[IndexById(c.nodes, members[k]).value]);
    }
  }

  lemma FitSurrounds(c: Canvas, members: seq<string>, bounds: seq<Bounds>)
    requires Matches(c, members, bounds) && bounds != [] && AllEdgesFit(c, members) && RoomForGroup(Hull(bounds))
    ensures AllSurrounded(c, GroupFrame(Hull(bounds)), members)
  {
    hide Hull, GroupFrame, RoomForGroup, Surrounds, EdgesFit, Saturate, MemberRectangle;
    HullIsI64(c, members, bounds);
    forall k | 0 <= k < |members|
      ensures MemberRectangle(c, members[k]).Some?
      ensures Surrounds(GroupFrame(Hull(bounds)), MemberRectangle(c, members[k]).value, GROUP_PADDING)
    {
      assert MemberMatches(c, members[k], bounds[k]);
      HullContains(bounds, k);
      RoomSurrounds(MemberRectangle(c, members[k]).value, bounds[k], Hull(bounds));
    }
  }

  lemma HullIsI64(c: Canvas, members: seq<string>, bounds: seq<Bounds>)
    requires Matches(c, members, bounds) && bounds != []
    ensures var h := Hull(bounds); IsI64(h.left) && IsI64(h.top) && IsI64(h.right) && IsI64(h.bottom)
  {
    hide Hull, MemberRectangle;
    HullIsTight(bounds);
    forall k | 0 <= k < |bounds|
      ensures IsI64(bounds[k].left) && IsI64(bounds[k].top) && IsI64(bounds[k].right) && IsI64(bounds[k].bottom)
    {
      assert MemberMatches(c, members[k], bounds[k]);
    }
  }

  lemma SurroundedFits(c: Canvas, members: seq<string>, bounds: seq<Bounds>)
    requires Matches(c, members, bounds) && bounds != [] && AllSurrounded(c, GroupFrame(Hull(bounds)), members)
    ensures AllEdgesFit(c, members) && RoomForGroup(Hull(bounds))
  {
    hide Hull, GroupFrame, RoomForGroup, Surrounds, EdgesFit, Saturate, MemberRectangle;
    var h := Hull(bounds);
    HullIsI64(c, members, bounds);
    forall k | 0 <= k < |members|
      ensures MemberRectangle(c, members[k]).Some? && EdgesFit(MemberRectangle(c, members[k]).value) {
      assert MemberMatches(c, members[k], bounds[k]);
      HullContains(bounds, k);
      SurroundedEdgesFit(MemberRectangle(c, members[k]).value, bounds[k], h);
    }
    HullIsTight(bounds);
    var l :| 0 <= l < |bounds| && bounds[l].left == h.left;
    var t :| 0 <= t < |bounds| && bounds[t].top == h.top;
    var r :| 0 <= r < |bounds| && bounds[r].right == h.right;
    var b :| 0 <= b < |bounds| && bounds[b].bottom == h.bottom;
    assert MemberMatches(c, members[l], bounds[l]) && MemberMatches(c, members[t], bounds[t]);
    assert MemberMatches(c, members[r], bounds[r]) && MemberMatches(c, members[b], bounds[b]);
    SurroundedHasRoom(MemberRectangle(c, members[l]).value, MemberRectangle(c, members[t]).value,
                      MemberRectangle(c, members[r]).value, MemberRectangle(c, members[b]).value, h);
  }

  /** A rectangle whose edge leaves i64 cannot be surrounded. */
  lemma SurroundedEdgesFit(r: Rectangle, b: Bounds, h: Bounds)
    requires b == Bounds(r.x, r.y, Saturate(r.x + r.width), Saturate(r.y + r.height)) && IsI64(r.x) && IsI64(r.y)
    requires h.left <= b.left && h.top <= b.top && b.right <= h.right && b.bottom <= h.bottom
    requires IsI64(h.left) && IsI64(h.top) && IsI64(h.right) && IsI64(h.bottom)
    requires Surrounds(GroupFrame(h), r, GROUP_PADDING)
    ensures EdgesFit(r)
  {
  }

  // ---------- placement ----------

  /** Adding nodes that leave out `x`. */
  predicate AddsFreely(op: Operation) {
    op.AddNode? && !HasKey(op.node, "x")
  }

  lemma {:induction false} RightEdgesHold(nodes: seq<Value>, i: nat)
    requires i < |nodes| && BoundsOf(nodes[i]).Some?
    ensures BoundsOf(nodes[i]).value.right in RightEdges(nodes)
    decreases |nodes|
  {
    hide BoundsOf;
    if i > 0 {
      RightEdgesHold(nodes[1..], i - 1);
    }
  }

  /** The free position clears every node already there by 60 units, unless that exceeds i64. */
  lemma FreeXClears(nodes: seq<Value>, i: nat)
    requires i < |nodes| && BoundsOf(nodes[i]).Some?
    ensures FreeX(nodes) >= BoundsOf(nodes[i]).value.right + NODE_SPACING || FreeX(nodes) == I64_MAX
  {
    hide BoundsOf, RightEdges;
    RightEdgesHold(nodes, i);
  }

  lemma AddedNodeX(node: Object, nodes: seq<Value>, id: Option<string>)
    requires !HasKey(node, "x")
    ensures var o := Placed(node, nodes);
            Member(Obj(if id.Some? then Insert(o, "id", Str(id.value)) else o), "x") == Some(Num(Integer(FreeX(nodes))))
  {
    hide Insert, Get, FreeX;
    var x := Num(Integer(FreeX(nodes)));
    KeysDiffer();
    InsertGet(node, "x", x, "x");
    InsertGet(Insert(node, "x", x), "y", Num(Integer(0)), "x");
    if id.Some? { InsertGet(Placed(node, nodes), "id", Str(id.value), "x"); }
  }

  lemma AddFreelyAppends(c: Canvas, op: Operation, index: nat, digest: Digest)
    requires AddsFreely(op) && ApplyOperation(c, op, index, digest).Ok?
    ensures var next := ApplyOperation(c, op, index, digest).value;
            && |next.nodes| == |c.nodes| + 1 && next.nodes[..|c.nodes|] == c.nodes && next.edges == c.edges
            && Member(next.nodes[|c.nodes|], "x") == Some(Num(Integer(FreeX(c.nodes))))
  {
    hide Insert, Get, FreeX, Placed, FreshId;
    var o := Placed(op.node, c.nodes);
    AddedNodeX(op.node, c.nodes, FreshId(o, "node", index, Identifiers(c), digest, 0));
    AddedNodeX(op.node, c.nodes, None);
  }

  /** A list of free additions only appends, each node at the free position of those before it. */
  lemma {:induction false} FreeAdditions(c: Canvas, ops: seq<Operation>, index: nat, digest: Digest)
    requires index <= |ops| && forall i :: index <= i < |ops| ==> AddsFreely(ops[i])
    requires ApplyAll(c, ops, index, digest).Ok?
    ensures var end := ApplyAll(c, ops, index, digest).value;
            && end.edges == c.edges && |end.nodes| == |c.nodes| + |ops| - index && end.nodes[..|c.nodes|] == c.nodes
            && forall j :: |c.nodes| <= j < |end.nodes| ==>
                 Member(end.nodes[j], "x") == Some(Num(Integer(FreeX(end.nodes[..j]))))
    decreases |ops| - index
  {
    hide ApplyOperation, FreeX, AddsFreely, Member;
    if index == |ops| {
      assert c.nodes[..|c.nodes|] == c.nodes;
    } else {
      var next := ApplyOperation(c, ops[index], index, digest).value;
      AddFreelyAppends(c, ops[index], index, digest);
      FreeAdditions(next, ops, index + 1, digest);
      var end := ApplyAll(c, ops, index, digest).value;
      assert end.nodes[..|next.nodes|] == next.nodes;
      assert end.nodes[..|c.nodes|] == next.nodes[..|c.nodes|];
      assert end.nodes[|c.nodes|] == next.nodes[|c.nodes|];
    }
  }

  /** Each node added without `x` lies at least 60 units to the right of every node before it. */
  lemma AddedNodesKeepDistance(c: Canvas, ops: seq<Operation>, digest: Digest, i: nat, j: nat)
    requires forall k :: 0 <= k < |ops| ==> AddsFreely(ops[k])
    requires ApplyAll(c, ops, 0, digest).Ok?
    requires var end := ApplyAll(c, ops, 0, digest).value;
             |c.nodes| <= j < |end.nodes| && i < j && BoundsOf(end.nodes[i]).Some?
    ensures var end := ApplyAll(c, ops, 0, digest).value;
            var x := AsI64(Member(end.nodes[j], "x"));
            x.Some? && (x.value >= BoundsOf(end.nodes[i]).value.right + NODE_SPACING || x.value == I64_MAX)
  {
    hide BoundsOf, RightEdges, AddsFreely, ApplyOperation;
    FreeAdditions(c, ops, 0, digest);
    var end := ApplyAll(c, ops, 0, digest).value;
    assert end.nodes[..j][i] == end.nodes[i];
    FreeXClears(end.nodes[..j], i);
  }
}
