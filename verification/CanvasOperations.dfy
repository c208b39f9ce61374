/** Transactional canvas operations: generated ids, in-place edits, grouping, and atomic application. */
module CanvasOperations {
  import opened Text
  import opened Json
  import opened CanvasSchema
  import MergePatch

  const GROUP_PADDING: int := 40
  const NODE_SPACING: int := 60
  /** Nodes in z-order, and edges. */
  datatype Canvas = Canvas(nodes: seq<Value>, edges: seq<Value>)

  datatype Operation =
    | AddNode(node: Object)
    | UpdateNode(id: string, patch: Object)
    | RemoveNode(id: string)
    | AddEdge(edge: Object)
    | UpdateEdge(id: string, patch: Object)
    | RemoveEdge(id: string)
    | Group(group: Object, members: seq<string>)

  datatype Problem =
    | NodeMissing(id: string)
    | EdgeMissing(id: string)
    | NodeIdChanged(id: string)
    | EdgeIdChanged(id: string)
    | NoMembers
    | MembersRepeat
    | MemberMissing(id: string)
    | MemberWithoutGeometry(id: string)

  datatype CanvasError =
    | OperationFailed(index: nat, problem: Problem)
    | SchemaViolated(first: Diagnostic)
    | IdentifierGeneration

  datatype Result<+T> = Ok(value: T) | Err(error: CanvasError)

  /** The truncated SHA-256 of an object, a namespace, an operation number and a nonce. */
  type Digest = (Object, string, nat, nat) -> string

  // ---------- i64 geometry ----------

  function Saturate(i: int): (r: int)
    ensures IsI64(r)
    ensures IsI64(i) ==> r == i
    ensures i < I64_MIN ==> r == I64_MIN
    ensures i > I64_MAX ==> r == I64_MAX
  {
    if i < I64_MIN then I64_MIN else if i > I64_MAX then I64_MAX else i
  }

  datatype Bounds = Bounds(left: int, top: int, right: int, bottom: int)

  function BoundsOf(v: Value): Option<Bounds> {
    var x, y, width, height :=
      AsI64(Member(v, "x")), AsI64(Member(v, "y")), AsI64(Member(v, "width")), AsI64(Member(v, "height"));
    if x.Some? && y.Some? && width.Some? && height.Some?
    then Some(Bounds(x.value, y.value, Saturate(x.value + width.value), Saturate(y.value + height.value)))
    else None
  }

  /** The right edges of the nodes that have geometry. */
  function RightEdges(nodes: seq<Value>): seq<int> {
    if nodes == [] then []
    else (match BoundsOf(nodes[0]) case Some(b) => [b.right] case None => []) + RightEdges(nodes[1..])
  }

  /** Where a node without `x` is placed. */
  function FreeX(nodes: seq<Value>): int {
    var rights := RightEdges(nodes);
    if rights == [] then 0 else Saturate(Greatest(rights) + NODE_SPACING)
  }

  function Least(values: seq<int>): (m: int)
    requires values != []
    ensures m in values && forall v :: v in values ==> m <= v
  {
    if |values| == 1 then values[0]
    else
      var rest := Least(values[1..]);
      assert forall v :: v in values <==> v == values[0] || v in values[1..];
      if values[0] < rest then values[0] else rest
  }

  function Greatest(values: seq<int>): (m: int)
    requires values != []
    ensures m in values && forall v :: v in values ==> v <= m
  {
    if |values| == 1 then values[0]
    else
      var rest := Greatest(values[1..]);
      assert forall v :: v in values <==> v == values[0] || v in values[1..];
      if values[0] > rest then values[0] else rest
  }

  // ---------- ids ----------

  /** The first nonce whose digest is not taken. */
  function FreshId(o: Object, namespace: string, ordinal: nat, taken: set<string>, digest: Digest, nonce: nat)
      : (r: Option<string>)
    requires nonce <= U64_MAX
    ensures r.Some? ==> r.value !in taken
    decreases U64_MAX - nonce
  {
    var id := digest(o, namespace, ordinal, nonce);
    if id !in taken then Some(id)
    else if nonce == U64_MAX then None
    else FreshId(o, namespace, ordinal, taken, digest, nonce + 1)
  }

  function WithId(o: Object, namespace: string, ordinal: nat, taken: set<string>, digest: Digest): Result<Object> {
    if HasKey(o, "id") then Ok(o)
    else match FreshId(o, namespace, ordinal, taken, digest, 0)
      case Some(id) => Ok(Insert(o, "id", Str(id)))
      case None => Err(IdentifierGeneration)
  }

  method EnsureGeneratedId(o: Object, namespace: string, ordinal: nat, taken: set<string>, digest: Digest)
      returns (r: Result<Object>)
    ensures r == WithId(o, namespace, ordinal, taken, digest)
  {
    hide Insert;
    if Get(o, "id").Some? {
      return Ok(o);
    }
    var nonce: nat := 0;
    while true
      invariant nonce <= U64_MAX
      invariant FreshId(o, namespace, ordinal, taken, digest, nonce) == FreshId(o, namespace, ordinal, taken, digest, 0)
      decreases U64_MAX - nonce
    {
      var id := digest(o, namespace, ordinal, nonce);
      if id !in taken {
        return Ok(Insert(o, "id", Str(id)));
      }
      if nonce == U64_MAX {
        return Err(IdentifierGeneration);
      }
      nonce := nonce + 1;
    }
  }

  /** Position of the first value with this id. */
  function IndexById(values: seq<Value>, id: string): (r: Option<nat>)
    ensures r.Some? ==> r.value < |values| && IdOf(values[r.value]) == Some(id)
    ensures r.Some? ==> forall j :: 0 <= j < r.value ==> IdOf(values[j]) != Some(id)
    ensures r.None? ==> forall i :: 0 <= i < |values| ==> IdOf(values[i]) != Some(id)
  {
    if values == [] then None
    else if IdOf(values[0]) == Some(id) then Some(0)
    else
      assert forall i :: 1 <= i < |values| ==> values[i] == values[1..][i - 1];
      match IndexById(values[1..], id) case Some(i) => Some(i + 1) case None => None
  }

  // ---------- one operation ----------

  predicate TouchesEdge(edge: Value, id: string) {
    StringMember(edge, "fromNode") == Some(id) || StringMember(edge, "toNode") == Some(id)
  }

  function RetainEdges(edges: seq<Value>, id: string): seq<Value> {
    if edges == [] then []
    else (if TouchesEdge(edges[0], id) then [] else [edges[0]]) + RetainEdges(edges[1..], id)
  }

  function Identifiers(c: Canvas): set<string> {
    IdSet(c.nodes) + IdSet(c.edges)
  }

  /** A new node with its missing coordinates filled in. */
  function Placed(node: Object, nodes: seq<Value>): Object {
    var withX := if HasKey(node, "x") then node else Insert(node, "x", Num(Integer(FreeX(nodes))));
    if HasKey(node, "y") then withX else Insert(withX, "y", Num(Integer(0)))
  }

  /** Merge-patches the value at `i`, keeping its id. */
  function Repatched(values: seq<Value>, i: nat, id: string, patch: Object): seq<Value>
    requires i < |values| && values[i].Obj?
  {
    values[i := Obj(Insert(MergePatch.Patch(values[i].fields, patch), "id", Str(id)))]
  }

  function ApplyOperation(c: Canvas, op: Operation, index: nat, digest: Digest): Result<Canvas> {
    match op
    case AddNode(node) =>
      (match WithId(Placed(node, c.nodes), "node", index, Identifiers(c), digest)
       case Err(error) => Err(error)
       case Ok(o) => Ok(c.(nodes := c.nodes + [Obj(o)])))
    case UpdateNode(id, patch) =>
      (match IndexById(c.nodes, id)
       case None => Err(OperationFailed(index, NodeMissing(id)))
       case Some(i) =>
         if HasKey(patch, "id") then Err(OperationFailed(index, NodeIdChanged(id)))
         else Ok(c.(nodes := Repatched(c.nodes, i, id, patch))))
    case RemoveNode(id) =>
      (match IndexById(c.nodes, id)
       case None => Err(OperationFailed(index, NodeMissing(id)))
       case Some(i) => Ok(Canvas(c.nodes[..i] + c.nodes[i + 1..], RetainEdges(c.edges, id))))
    case AddEdge(edge) =>
      (match WithId(edge, "edge", index, Identifiers(c), digest)
       case Err(error) => Err(error)
       case Ok(o) => Ok(c.(edges := c.edges + [Obj(o)])))
    case UpdateEdge(id, patch) =>
      (match IndexById(c.edges, id)
       case None => Err(OperationFailed(index, EdgeMissing(id)))
       case Some(i) =>
         if HasKey(patch, "id") then Err(OperationFailed(index, EdgeIdChanged(id)))
         else Ok(c.(edges := Repatched(c.edges, i, id, patch))))
    case RemoveEdge(id) =>
      (match IndexById(c.edges, id)
       case None => Err(OperationFailed(index, EdgeMissing(id)))
       case Some(i) => Ok(c.(edges := c.edges[..i] + c.edges[i + 1..])))
    case Group(group, members) => ApplyGroup(c, group, members, index, digest)
  }

  /** The members' extent so far: their bounds and the lowest position. */
  datatype Extent = Extent(bounds: seq<Bounds>, insertion: nat)

  function Gather(nodes: seq<Value>, members: seq<string>, count: nat, index: nat): (r: Result<Extent>)
    requires count <= |members|
    ensures r.Ok? ==> r.value.insertion <= |nodes| && |r.value.bounds| == count
  {
    if count == 0 then Ok(Extent([], |nodes|))
    else match Gather(nodes, members, count - 1, index)
      case Err(error) => Err(error)
      case Ok(extent) =>
        var id := members[count - 1];
        if id in members[..count - 1] then Err(OperationFailed(index, MembersRepeat))
        else match IndexById(nodes, id)
          case None => Err(OperationFailed(index, MemberMissing(id)))
          case Some(position) =>
            match BoundsOf(nodes[position])
            case None => Err(OperationFailed(index, MemberWithoutGeometry(id)))
            case Some(b) =>
              Ok(Extent(extent.bounds + [b], if position < extent.insertion then position else extent.insertion))
  }

  function Hull(bounds: seq<Bounds>): Bounds
    requires bounds != []
  {
    Bounds(Least(seq(|bounds|, i requires 0 <= i < |bounds| => bounds[i].left)),
           Least(seq(|bounds|, i requires 0 <= i < |bounds| => bounds[i].top)),
           Greatest(seq(|bounds|, i requires 0 <= i < |bounds| => bounds[i].right)),
           Greatest(seq(|bounds|, i requires 0 <= i < |bounds| => bounds[i].bottom)))
  }

  /** The group's rectangle: the members' hull with padding on each side. */
  function GroupRectangle(group: Object, h: Bounds): Object {
    var o := Insert(group, "type", Str("group"));
    var o := Insert(o, "x", Num(Integer(Saturate(h.left - GROUP_PADDING))));
    var o := Insert(o, "y", Num(Integer(Saturate(h.top - GROUP_PADDING))));
    var o := Insert(o, "width", Num(Integer(Saturate(Saturate(h.right - h.left) + 2 * GROUP_PADDING))));
    Insert(o, "height", Num(Integer(Saturate(Saturate(h.bottom - h.top) + 2 * GROUP_PADDING))))
  }

  function ApplyGroup(c: Canvas, group: Object, members: seq<string>, index: nat, digest: Digest): Result<Canvas> {
    if members == [] then Err(OperationFailed(index, NoMembers))
    else match Gather(c.nodes, members, |members|, index)
      case Err(error) => Err(error)
      case Ok(extent) =>
        match WithId(GroupRectangle(group, Hull(extent.bounds)), "group", index, Identifiers(c), digest)
        case Err(error) => Err(error)
        case Ok(o) => Ok(c.(nodes := c.nodes[..extent.insertion] + [Obj(o)] + c.nodes[extent.insertion..]))
  }

  /** Operations from `index` on, each on the result of the one before. */
  function ApplyAll(c: Canvas, ops: seq<Operation>, index: nat, digest: Digest): Result<Canvas>
    requires index <= |ops|
    decreases |ops| - index
  {
    if index == |ops| then Ok(c)
    else match ApplyOperation(c, ops[index], index, digest)
      case Err(error) => Err(error)
      case Ok(next) => ApplyAll(next, ops, index + 1, digest)
  }

  /** `apply` as a whole: all operations, then the schema check. */
  function Transaction(c: Canvas, ops: seq<Operation>, digest: Digest): Result<Canvas> {
    match ApplyAll(c, ops, 0, digest)
    case Err(error) => Err(error)
    case Ok(next) =>
      var d := Diagnostics(next.nodes, next.edges);
      if d == [] then Ok(next) else Err(SchemaViolated(d[0]))
  }

  class CanvasDocument {
    var nodes: seq<Value>
    var edges: seq<Value>

    constructor (initialNodes: seq<Value>, initialEdges: seq<Value>)
      ensures nodes == initialNodes && edges == initialEdges
    {
      nodes := initialNodes;
      edges := initialEdges;
    }

    function Contents(): Canvas
      reads this
    {
      Canvas(nodes, edges)
    }

    /** All-or-nothing: a failure leaves the document as it was, a success leaves it valid. */
    method Apply(ops: seq<Operation>, digest: Digest) returns (r: Option<CanvasError>)
      modifies this
      ensures match Transaction(old(Contents()), ops, digest)
              case Ok(next) => r == None && Contents() == next && CanvasValid(nodes, edges)
              case Err(error) => r == Some(error) && Contents() == old(Contents())
    {
      var candidate := new CanvasDocument(nodes, edges);
      for index := 0 to |ops|
        invariant fresh(candidate) && candidate != this
        invariant Contents() == old(Contents())
        invariant ApplyAll(candidate.Contents(), ops, index, digest) == ApplyAll(old(Contents()), ops, 0, digest)
      {
        var failure := candidate.ApplyInPlace(ops[index], index, digest);
        if failure.Some? {
          return failure;
        }
      }
      var diagnostics := CollectDiagnostics(candidate.nodes, candidate.edges);
      if diagnostics != [] {
        return Some(SchemaViolated(diagnostics[0]));
      }
      DiagnosticsDecideValidity(candidate.nodes, candidate.edges);
      nodes := candidate.nodes;
      edges := candidate.edges;
      r := None;
    }

    method ApplyInPlace(op: Operation, index: nat, digest: Digest) returns (r: Option<CanvasError>)
      modifies this
      ensures match ApplyOperation(old(Contents()), op, index, digest)
              case Ok(next) => r == None && Contents() == next
              case Err(error) => r == Some(error)
    {
      hide Insert, WithId, IdSet, IndexById, MergePatch.Patch, Gather, Hull, GroupRectangle;
      match op
      case AddNode(given) =>
        var node := given;
        var hasX, hasY := Get(node, "x").Some?, Get(node, "y").Some?;
        if !hasX {
          node := Insert(node, "x", Num(Integer(FreeX(nodes))));
        }
        if !hasY {
          node := Insert(node, "y", Num(Integer(0)));
        }
        var identified := EnsureGeneratedId(node, "node", index, Identifiers(Contents()), digest);
        if identified.Err? {
          return Some(identified.error);
        }
        nodes := nodes + [Obj(identified.value)];
        r := None;
      case UpdateNode(id, patch) =>
        var found := IndexById(nodes, id);
        if found.None? {
          return Some(OperationFailed(index, NodeMissing(id)));
        }
        if Get(patch, "id").Some? {
          return Some(OperationFailed(index, NodeIdChanged(id)));
        }
        var fields := MergePatch.ApplyObjectPatch(nodes[found.value].fields, patch);
        fields := Insert(fields, "id", Str(id));
        nodes := nodes[found.value := Obj(fields)];
        r := None;
      case RemoveNode(id) =>
        var found := IndexById(nodes, id);
        if found.None? {
          return Some(OperationFailed(index, NodeMissing(id)));
        }
        nodes := nodes[..found.value] + nodes[found.value + 1..];
        edges := RetainEdges(edges, id);
        r := None;
      case AddEdge(edge) =>
        var identified := EnsureGeneratedId(edge, "edge", index, Identifiers(Contents()), digest);
        if identified.Err? {
          return Some(identified.error);
        }
        edges := edges + [Obj(identified.value)];
        r := None;
      case UpdateEdge(id, patch) =>
        var found := IndexById(edges, id);
        if found.None? {
          return Some(OperationFailed(index, EdgeMissing(id)));
        }
        if Get(patch, "id").Some? {
          return Some(OperationFailed(index, EdgeIdChanged(id)));
        }
        var fields := MergePatch.ApplyObjectPatch(edges[found.value].fields, patch);
        fields := Insert(fields, "id", Str(id));
        edges := edges[found.value := Obj(fields)];
        r := None;
      case RemoveEdge(id) =>
        var found := IndexById(edges, id);
        if found.None? {
          return Some(OperationFailed(index, EdgeMissing(id)));
        }
        edges := edges[..found.value] + edges[found.value + 1..];
        r := None;
      case Group(group, members) =>
        r := GroupInPlace(group, members, index, digest);
    }

    method GroupInPlace(group: Object, members: seq<string>, index: nat, digest: Digest)
      returns (r: Option<CanvasError>)
      modifies this
      ensures match ApplyGroup(old(Contents()), group, members, index, digest)
              case Ok(next) => r == None && Contents() == next
              case Err(error) => r == Some(error)
    {
      hide Insert, WithId, IdSet, IndexById, BoundsOf, Hull, GroupRectangle, Gather;
      GatherNothing(nodes, members, index);
      if members == [] {
        return Some(OperationFailed(index, NoMembers));
      }
      var seen: set<string> := {};
      var bounds: seq<Bounds> := [];
      var insertion: nat := |nodes|;
      for i := 0 to |members|
        invariant Contents() == old(Contents())
        invariant seen == set k | 0 <= k < i :: members[k]
        invariant Gather(nodes, members, i, index) == Ok(Extent(bounds, insertion))
      {
        var id := members[i];
        assert id in seen <==> id in members[..i];
        GatherStep(nodes, members, i, index);
        GatherStops(nodes, members, i + 1, index);
        if id in seen {
          return Some(OperationFailed(index, MembersRepeat));
        }
        seen := seen + {id};
        var position := IndexById(nodes, id);
        if position.None? {
          return Some(OperationFailed(index, MemberMissing(id)));
        }
        insertion := if position.value < insertion then position.value else insertion;
        var b := BoundsOf(nodes[position.value]);
        if b.None? {
          return Some(OperationFailed(index, MemberWithoutGeometry(id)));
        }
        bounds := bounds + [b.value];
      }
      var rectangle := GroupRectangle(group, Hull(bounds));
      var identified := EnsureGeneratedId(rectangle, "group", index, Identifiers(Contents()), digest);
      if identified.Err? {
        return Some(identified.error);
      }
      nodes := nodes[..insertion] + [Obj(identified.value)] + nodes[insertion..];
      r := None;
    }
  }

  /** An error while gathering is the group's error. */
  lemma {:induction false} GatherStops(nodes: seq<Value>, members: seq<string>, count: nat, index: nat)
    requires count <= |members|
    ensures Gather(nodes, members, count, index).Err? ==>
              Gather(nodes, members, |members|, index) == Gather(nodes, members, count, index)
    decreases |members| - count
  {
    hide *;
    if count < |members| {
      GatherStep(nodes, members, count, index);
      GatherStops(nodes, members, count + 1, index);
    }
  }

  lemma GatherNothing(nodes: seq<Value>, members: seq<string>, index: nat)
    ensures Gather(nodes, members, 0, index) == Ok(Extent([], |nodes|))
  {
  }

  /** How gathering one more member goes. */
  lemma GatherStep(nodes: seq<Value>, members: seq<string>, count: nat, index: nat)
    requires count < |members|
    ensures Gather(nodes, members, count, index).Err? ==>
              Gather(nodes, members, count + 1, index) == Gather(nodes, members, count, index)
    ensures Gather(nodes, members, count, index).Ok? ==>
              var extent, id := Gather(nodes, members, count, index).value, members[count];
              var position, r := IndexById(nodes, id), Gather(nodes, members, count + 1, index);
              if id in members[..count] then r == Err(OperationFailed(index, MembersRepeat))
              else if position.None? then r == Err(OperationFailed(index, MemberMissing(id)))
              else if BoundsOf(nodes[position.value]).None?
                then r == Err(OperationFailed(index, MemberWithoutGeometry(id)))
              else r == Ok(Extent(extent.bounds + [BoundsOf(nodes[position.value]).value],
                                  if position.value < extent.insertion then position.value else extent.insertion))
  {
    hide IndexById, BoundsOf;
  }
}
