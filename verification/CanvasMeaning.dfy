/** Canvas edits and reports spelled out: who fails and why, what goes where, and what each diagnostic is about. */
module CanvasMeaning {
  import opened Text
  import opened Json
  import opened CanvasSchema
  import opened CanvasOperations
  import opened CanvasIntegrity

  ghost predicate HasId(values: seq<Value>, id: string) {
    exists k :: 0 <= k < |values| && IdOf(values[k]) == Some(id)
  }

  /** The value at `p` is the first with this id. */
  ghost predicate FirstWithId(values: seq<Value>, id: string, p: nat) {
    p < |values| && IdOf(values[p]) == Some(id) && forall k :: 0 <= k < p ==> IdOf(values[k]) != Some(id)
  }

  // ---------- failures ----------

  lemma FoundIff(values: seq<Value>, id: string)
    ensures IndexById(values, id).None? <==> !HasId(values, id)
    ensures forall p: nat :: IndexById(values, id) == Some(p) <==> FirstWithId(values, id, p)
  {
    hide IdOf;
    forall p: nat | FirstWithId(values, id, p) ensures IndexById(values, id) == Some(p) {
    }
  }

  /** An update or a removal fails exactly for a missing target, and an update also for touching the id. */
  lemma TargetedErrors(c: Canvas, id: string, patch: Object, index: nat, digest: Digest)
    ensures var r := ApplyOperation(c, UpdateNode(id, patch), index, digest);
            if !HasId(c.nodes, id) then r == Err(OperationFailed(index, NodeMissing(id)))
            else if HasKey(patch, "id") then r == Err(OperationFailed(index, NodeIdChanged(id))) else r.Ok?
    ensures var r := ApplyOperation(c, UpdateEdge(id, patch), index, digest);
            if !HasId(c.edges, id) then r == Err(OperationFailed(index, EdgeMissing(id)))
            else if HasKey(patch, "id") then r == Err(OperationFailed(index, EdgeIdChanged(id))) else r.Ok?
    ensures var r := ApplyOperation(c, RemoveNode(id), index, digest);
            if !HasId(c.nodes, id) then r == Err(OperationFailed(index, NodeMissing(id))) else r.Ok?
    ensures var r := ApplyOperation(c, RemoveEdge(id), index, digest);
            if !HasId(c.edges, id) then r == Err(OperationFailed(index, EdgeMissing(id))) else r.Ok?
  {
    hide IdOf, IndexById, HasKey, HasId;
    FoundIff(c.nodes, id);
    FoundIff(c.edges, id);
  }

  /** Removing an edge drops the first with the id and nothing else. */
  lemma EdgeRemovalIsExact(c: Canvas, id: string, index: nat, digest: Digest, p: nat)
    requires FirstWithId(c.edges, id, p)
    ensures var r := ApplyOperation(c, RemoveEdge(id), index, digest);
            && r.Ok? && r.value.nodes == c.nodes
            && |r.value.edges| == |c.edges| - 1
            && r.value.edges[..p] == c.edges[..p] && r.value.edges[p..] == c.edges[p + 1..]
  {
    hide IdOf;
    FoundIff(c.edges, id);
  }

  /** The value left out is the first whose id this is, for nodes as well. */
  lemma NodeRemovalTarget(c: Canvas, id: string, index: nat, digest: Digest, p: nat)
    requires FirstWithId(c.nodes, id, p)
    ensures var r := ApplyOperation(c, RemoveNode(id), index, digest);
            && r.Ok? && |r.value.nodes| == |c.nodes| - 1
            && r.value.nodes[..p] == c.nodes[..p] && r.value.nodes[p..] == c.nodes[p + 1..]
            && (forall e :: e in r.value.edges <==>
                  e in c.edges && StringMember(e, "fromNode") != Some(id) && StringMember(e, "toNode") != Some(id))
  {
    hide IdOf, StringMember;
    FoundIff(c.nodes, id);
    RetainedIff(c.edges, id);
  }

  lemma {:induction false} RetainedIff(edges: seq<Value>, id: string)
    ensures forall e :: e in RetainEdges(edges, id) <==>
              e in edges && StringMember(e, "fromNode") != Some(id) && StringMember(e, "toNode") != Some(id)
    decreases |edges|
  {
    hide StringMember;
    if edges != [] {
      RetainedIff(edges[1..], id);
      assert edges == [edges[0]] + edges[1..];
    }
  }

  /** Why the member at `k` cannot be grouped: it is listed twice, it is no node, or it has no geometry. */
  ghost predicate BadMember(c: Canvas, members: seq<string>, k: nat, problem: Problem)
    requires k < |members|
  {
    if exists j :: 0 <= j < k && members[j] == members[k] then problem == MembersRepeat
    else if !HasId(c.nodes, members[k]) then problem == MemberMissing(members[k])
    else problem == MemberWithoutGeometry(members[k])
         && forall p: nat :: FirstWithId(c.nodes, members[k], p) ==> RectangleOf(c.nodes[p]).None?
  }

  ghost predicate GoodMember(c: Canvas, members: seq<string>, k: nat)
    requires k < |members|
  {
    (forall j :: 0 <= j < k ==> members[j] != members[k])
    && exists p: nat :: FirstWithId(c.nodes, members[k], p) && RectangleOf(c.nodes[p]).Some?
  }

  ghost predicate FirstBadMember(c: Canvas, members: seq<string>, k: int, problem: Problem) {
    0 <= k < |members| && BadMember(c, members, k, problem) && forall j :: 0 <= j < k ==> GoodMember(c, members, j)
  }

  /** Grouping fails for an empty list, or for the first member that cannot be grouped, and says why. */
  lemma GroupErrors(c: Canvas, group: Object, members: seq<string>, index: nat, digest: Digest)
    ensures var r := ApplyOperation(c, Group(group, members), index, digest);
            && (members == [] ==> r == Err(OperationFailed(index, NoMembers)))
            && (forall k, problem :: FirstBadMember(c, members, k, problem) ==>
                  r == Err(OperationFailed(index, problem)))
            && (members != [] && (forall j :: 0 <= j < |members| ==> GoodMember(c, members, j)) ==>
                  r.Ok? || r == Err(IdentifierGeneration))
  {
    hide GoodMember, BadMember, Gather, Hull, GroupRectangle, WithId;
    if members != [] && forall j :: 0 <= j < |members| ==> GoodMember(c, members, j) {
      GatherGood(c, members, |members|, index);
      OnlyIdsFail(GroupRectangle(group, Hull(Gather(c.nodes, members, |members|, index).value.bounds)), "group", index,
        Identifiers(c), digest);
    }
    forall k, problem | FirstBadMember(c, members, k, problem)
      ensures ApplyOperation(c, Group(group, members), index, digest) == Err(OperationFailed(index, problem))
    {
      GatherGood(c, members, k, index);
      GatherBad(c, members, k, index, problem);
      GatherStops(c.nodes, members, k + 1, index);
    }
  }

  lemma OnlyIdsFail(o: Object, namespace: string, ordinal: nat, taken: set<string>, digest: Digest)
    ensures var r := WithId(o, namespace, ordinal, taken, digest); r.Ok? || r == Err(IdentifierGeneration)
  {
  }

  lemma GeometryIff(v: Value)
    ensures BoundsOf(v).Some? <==> RectangleOf(v).Some?
  {
    hide Member;
  }

  lemma {:induction false} GatherGood(c: Canvas, members: seq<string>, count: nat, index: nat)
    requires count <= |members| && forall j :: 0 <= j < count ==> GoodMember(c, members, j)
    ensures Gather(c.nodes, members, count, index).Ok?
    decreases count
  {
    hide Gather, BoundsOf, RectangleOf, IdOf, FirstWithId;
    if count == 0 {
      GatherNothing(c.nodes, members, index);
    } else {
      var k := count - 1;
      GatherGood(c, members, k, index);
      GatherStep(c.nodes, members, k, index);
      FoundIff(c.nodes, members[k]);
      assert GoodMember(c, members, k);
      var p: nat :| FirstWithId(c.nodes, members[k], p) && RectangleOf(c.nodes[p]).Some?;
      GeometryIff(c.nodes[p]);
    }
  }

  lemma GatherBad(c: Canvas, members: seq<string>, k: nat, index: nat, problem: Problem)
    requires k < |members| && Gather(c.nodes, members, k, index).Ok? && BadMember(c, members, k, problem)
    ensures Gather(c.nodes, members, k + 1, index) == Err(OperationFailed(index, problem))
  {
    hide Gather, BoundsOf, RectangleOf, IdOf, FirstWithId, HasId;
    GatherStep(c.nodes, members, k, index);
    FoundIff(c.nodes, members[k]);
    assert members[k] in members[..k] <==> exists j :: 0 <= j < k && members[j] == members[k];
    var position := IndexById(c.nodes, members[k]);
    if position.Some? {
      GeometryIff(c.nodes[position.value]);
    }
  }

  // ---------- generated ids ----------

  /** The digest for this nonce is free, and those before it are not. */
  ghost predicate FirstFreeNonce(
      o: Object, namespace: string, ordinal: nat, taken: set<string>, digest: Digest, from: nat, nonce: nat)
  {
    from <= nonce <= U64_MAX && digest(o, namespace, ordinal, nonce) !in taken
    && forall n: nat :: from <= n < nonce ==> digest(o, namespace, ordinal, n) in taken
  }

  /** A generated id is the digest for the first free nonce; there is none when every digest is taken. */
  lemma {:induction false} FreshIdIs(
      o: Object, namespace: string, ordinal: nat, taken: set<string>, digest: Digest, from: nat)
    requires from <= U64_MAX
    ensures var r := FreshId(o, namespace, ordinal, taken, digest, from);
            && (r.None? <==> forall n: nat :: from <= n <= U64_MAX ==> digest(o, namespace, ordinal, n) in taken)
            && forall n: nat :: FirstFreeNonce(o, namespace, ordinal, taken, digest, from, n) ==>
                 r == Some(digest(o, namespace, ordinal, n))
    decreases U64_MAX - from
  {
    if digest(o, namespace, ordinal, from) in taken && from < U64_MAX {
      FreshIdIs(o, namespace, ordinal, taken, digest, from + 1);
      forall n: nat | FirstFreeNonce(o, namespace, ordinal, taken, digest, from, n)
        ensures FirstFreeNonce(o, namespace, ordinal, taken, digest, from + 1, n)
      {
      }
    }
  }

  // ---------- additions ----------

  /** What an addition without an id is given: coordinates where none are, and the first free digest as its id. */
  lemma AdditionIs(c: Canvas, node: Object, index: nat, digest: Digest)
    ensures var r, o := ApplyOperation(c, AddNode(node), index, digest), Placed(node, c.nodes);
            && (HasKey(node, "id") ==> r == Ok(c.(nodes := c.nodes + [Obj(o)])))
            && (!HasKey(node, "id") ==>
                  var id := FreshId(o, "node", index, IdSet(c.nodes) + IdSet(c.edges), digest, 0);
                  r == if id.Some? then Ok(c.(nodes := c.nodes + [Obj(Insert(o, "id", Str(id.value)))]))
                       else Err(IdentifierGeneration))
    ensures var r := ApplyOperation(c, AddEdge(node), index, digest);
            && (HasKey(node, "id") ==> r == Ok(c.(edges := c.edges + [Obj(node)])))
            && (!HasKey(node, "id") ==>
                  var id := FreshId(node, "edge", index, IdSet(c.nodes) + IdSet(c.edges), digest, 0);
                  r == if id.Some? then Ok(c.(edges := c.edges + [Obj(Insert(node, "id", Str(id.value)))]))
                       else Err(IdentifierGeneration))
    ensures !HasKey(node, "x") ==> Get(Placed(node, c.nodes), "x") == Some(Num(Integer(FreeX(c.nodes))))
    ensures !HasKey(node, "y") ==> Get(Placed(node, c.nodes), "y") == Some(Num(Integer(0)))
    ensures forall key :: HasKey(node, key) || (key != "x" && key != "y") ==>
              Get(Placed(node, c.nodes), key) == Get(node, key)
  {
    hide Insert, FreshId, IdSet, FreeX, Get;
    PlacedKeeps(node, c.nodes, "id");
    PlacedMembers(node, c.nodes);
  }

  lemma PlacedMembers(node: Object, nodes: seq<Value>)
    ensures var o := Placed(node, nodes);
            && (!HasKey(node, "x") ==> Get(o, "x") == Some(Num(Integer(FreeX(nodes)))))
            && (!HasKey(node, "y") ==> Get(o, "y") == Some(Num(Integer(0))))
            && forall key :: HasKey(node, key) || (key != "x" && key != "y") ==> Get(o, key) == Get(node, key)
  {
    hide Insert, FreeX, Get;
    KeysDiffer();
    var x := Num(Integer(FreeX(nodes)));
    var withX := if HasKey(node, "x") then node else Insert(node, "x", x);
    forall key
      ensures Get(withX, key) == if !HasKey(node, "x") && key == "x" then Some(x) else Get(node, key)
      ensures Get(Placed(node, nodes), key)
              == if !HasKey(node, "y") && key == "y" then Some(Num(Integer(0))) else Get(withX, key)
    {
      InsertGet(node, "x", x, key);
      InsertGet(withX, "y", Num(Integer(0)), key);
    }
  }

  /** The far edge of the node at `k`, as its members give it, cut off at the top of the range. */
  ghost predicate HasRightEdge(nodes: seq<Value>, k: nat, right: int) {
    k < |nodes| && RectangleOf(nodes[k]).Some?
    && right == Saturate(RectangleOf(nodes[k]).value.x + RectangleOf(nodes[k]).value.width)
  }

  ghost predicate FarthestEdge(nodes: seq<Value>, right: int) {
    (exists k: nat :: HasRightEdge(nodes, k, right))
    && forall k: nat, other :: HasRightEdge(nodes, k, other) ==> other <= right
  }

  /** The free position is 0 on an empty canvas, and otherwise 60 to the right of the farthest edge there is. */
  lemma FreeXIs(nodes: seq<Value>)
    ensures (forall k: nat, right :: !HasRightEdge(nodes, k, right)) ==> FreeX(nodes) == 0
    ensures forall right :: FarthestEdge(nodes, right) ==>
              FreeX(nodes) == if right + 60 <= I64_MAX then right + 60 else I64_MAX
  {
    hide RectangleOf, BoundsOf, Saturate;
    EdgesAre(nodes);
    var rights := RightEdges(nodes);
    forall right | FarthestEdge(nodes, right) ensures right in rights {
      var k: nat :| HasRightEdge(nodes, k, right);
    }
    if rights != [] {
      var most := Greatest(rights);
      assert most in rights;
      var j: nat :| HasRightEdge(nodes, j, most);
      Saturated(most + 60);
      SaturatedIsI64(RectangleOf(nodes[j]).value.x + RectangleOf(nodes[j]).value.width);
      assert forall right :: FarthestEdge(nodes, right) ==> right == most;
    }
  }

  lemma Saturated(i: int)
    ensures i >= I64_MIN ==> Saturate(i) == if i <= I64_MAX then i else I64_MAX
  {
  }

  lemma SaturatedIsI64(i: int)
    ensures I64_MIN <= Saturate(i) <= I64_MAX
  {
  }

  lemma RightOf(v: Value)
    ensures BoundsOf(v).Some? <==> RectangleOf(v).Some?
    ensures BoundsOf(v).Some? ==>
              BoundsOf(v).value.right == Saturate(RectangleOf(v).value.x + RectangleOf(v).value.width)
  {
    hide Member, Saturate;
  }

  lemma {:induction false} EdgesAre(nodes: seq<Value>)
    ensures forall right :: right in RightEdges(nodes) <==> exists k: nat :: HasRightEdge(nodes, k, right)
    decreases |nodes|
  {
    hide BoundsOf, RectangleOf, Saturate;
    if nodes != [] {
      var rest := nodes[1..];
      EdgesAre(rest);
      RightOf(nodes[0]);
      forall right ensures right in RightEdges(nodes) <==> exists k: nat :: HasRightEdge(nodes, k, right) {
        if right in RightEdges(rest) {
          var k: nat :| HasRightEdge(rest, k, right);
          assert HasRightEdge(nodes, k + 1, right);
        }
        if exists k: nat :: HasRightEdge(nodes, k, right) {
          var k: nat :| HasRightEdge(nodes, k, right);
          if k > 0 {
            assert HasRightEdge(rest, k - 1, right);
          } else {
            assert BoundsOf(nodes[0]).Some? && right == BoundsOf(nodes[0]).value.right;
          }
        } else if right in RightEdges(nodes) && right !in RightEdges(rest) {
          assert HasRightEdge(nodes, 0, right);
        }
      }
    }
  }

  /** Where nothing is cut off, the group's frame is the hull of its members with 40 more on each side. */
  lemma FrameIs(bounds: seq<Bounds>, k: nat)
    requires k < |bounds|
    requires var h := Hull(bounds);
             RoomForGroup(h) && IsI64(h.left) && IsI64(h.top) && IsI64(h.right) && IsI64(h.bottom)
             && h.right - h.left >= I64_MIN && h.bottom - h.top >= I64_MIN
    ensures var frame := GroupFrame(Hull(bounds));
            && frame.x + 40 <= bounds[k].left && bounds[k].right + 40 <= frame.x + frame.width
            && frame.y + 40 <= bounds[k].top && bounds[k].bottom + 40 <= frame.y + frame.height
            && (exists i :: 0 <= i < |bounds| && frame.x + 40 == bounds[i].left)
            && (exists i :: 0 <= i < |bounds| && frame.y + 40 == bounds[i].top)
            && (exists i :: 0 <= i < |bounds| && frame.x + frame.width - 40 == bounds[i].right)
            && (exists i :: 0 <= i < |bounds| && frame.y + frame.height - 40 == bounds[i].bottom)
  {
    hide Hull;
    HullIsTight(bounds);
    HullContains(bounds, k);
  }

  // ---------- transactions ----------

  /** Operations apply one after another, each under its own number, until the first that fails. */
  lemma {:induction false} OneMoreOperation(c: Canvas, ops: seq<Operation>, index: nat, op: Operation, digest: Digest)
    requires index <= |ops|
    ensures ApplyAll(c, [], 0, digest) == Ok(c)
    ensures ApplyAll(c, ops + [op], index, digest)
            == match ApplyAll(c, ops, index, digest)
               case Err(error) => Err(error)
               case Ok(next) => ApplyOperation(next, op, |ops|, digest)
    decreases |ops| - index
  {
    hide ApplyOperation;
    var more := ops + [op];
    if index < |ops| {
      assert more[index] == ops[index];
      match ApplyOperation(c, ops[index], index, digest)
      case Ok(next) => OneMoreOperation(next, ops, index + 1, op, digest);
      case Err(_) =>
    }
  }

  /** A transaction ends in the last operation's document if that is valid, and in the first error otherwise. */
  lemma TransactionMeaning(c: Canvas, ops: seq<Operation>, digest: Digest)
    ensures var all, r := ApplyAll(c, ops, 0, digest), Transaction(c, ops, digest);
            if all.Err? then r == all
            else if CanvasValid(all.value.nodes, all.value.edges) then r == all
            else
              && r.Err? && r.error.SchemaViolated?
              && Diagnostics(all.value.nodes, all.value.edges) != []
              && r.error.first == Diagnostics(all.value.nodes, all.value.edges)[0]
  {
    hide Diagnostics, CanvasValid, ApplyAll;
    var all := ApplyAll(c, ops, 0, digest);
    if all.Ok? {
      DiagnosticsDecideValidity(all.value.nodes, all.value.edges);
    }
  }

  // ---------- what a report is about ----------

  /** What the field must be, in JSON's own terms. */
  lemma FieldRules(v: Option<Value>, allowed: seq<string>)
    ensures NonEmptyString(v) <==> exists s :: s != "" && v == Some(Str(s))
    ensures AsI64(v).Some? <==>
            exists i :: -0x8000_0000_0000_0000 <= i < 0x8000_0000_0000_0000 && v == Some(Num(Integer(i)))
    ensures PositiveInteger(v) <==> exists i :: 0 < i < 0x8000_0000_0000_0000 && v == Some(Num(Integer(i)))
    ensures AbsentOr(v, allowed) <==> v == None || exists s :: s in allowed && v == Some(Str(s))
    ensures AbsentOrString(v) <==> v == None || exists s :: v == Some(Str(s))
    ensures AbsentOrFragment(v) <==> v == None || exists rest :: v == Some(Str("#" + rest))
    ensures AbsentOrColour(v) <==> v == None || exists s :: IsColour(s) && v == Some(Str(s))
    ensures (forall s :: s in Sides() <==> s == "top" || s == "right" || s == "bottom" || s == "left")
    ensures (forall s :: s in Ends() <==> s == "none" || s == "arrow")
  {
    if v.Some? && v.value.Str? && "#" <= v.value.s {
      assert v.value.s == "#" + v.value.s[1..];
    }
    var sides, ends := Sides(), Ends();
    assert sides[0] == "top" && sides[1] == "right" && sides[2] == "bottom" && sides[3] == "left";
    assert ends[0] == "none" && ends[1] == "arrow";
  }

  /** A colour is a preset from 1 to 6, or six hexadecimal digits after a `#`. */
  lemma ColourMeaning(s: string)
    ensures IsColour(s) <==>
            (exists c :: c in "123456" && s == [c])
            || exists digits :: |digits| == 6 && s == "#" + digits
                 && forall i :: 0 <= i < 6 ==> digits[i] in "0123456789abcdefABCDEF"
  {
    if |s| == 1 {
      PresetDigit(s[0]);
      assert s == [s[0]];
    }
    if |s| == 7 && s[0] == '#' {
      assert s == "#" + s[1..];
      forall i | 1 <= i < 7 ensures IsHexDigit(s[i]) <==> s[1..][i - 1] in "0123456789abcdefABCDEF" {
        HexDigit(s[i]);
      }
    }
  }

  lemma PresetDigit(c: char)
    ensures '1' <= c <= '6' <==> c in "123456"
  {
    var digits := "123456";
    if '1' <= c <= '6' {
      assert digits[c as int - '1' as int] == c;
    }
  }

  lemma HexDigit(c: char)
    ensures IsHexDigit(c) <==> c in "0123456789abcdefABCDEF"
  {
    var digits := "0123456789abcdefABCDEF";
    if '0' <= c <= '9' { assert digits[c as int - '0' as int] == c; }
    if 'a' <= c <= 'f' { assert digits[10 + c as int - 'a' as int] == c; }
    if 'A' <= c <= 'F' { assert digits[16 + c as int - 'A' as int] == c; }
  }

  /** The field of a node breaks its rule. */
  ghost predicate BreaksNodeRule(v: Value, field: string) {
    if !v.Obj? then field == ""
    else
      || (field == "id" && !NonEmptyString(Member(v, "id")))
      || ((field == "x" || field == "y") && AsI64(Member(v, field)).None?)
      || ((field == "width" || field == "height") && !PositiveInteger(Member(v, field)))
      || (field == "color" && !AbsentOrColour(Member(v, "color")))
      || BreaksTypeRule(v, field)
  }

  /** The field that goes with the node's type breaks its rule, or the type does. */
  ghost predicate BreaksTypeRule(v: Value, field: string) {
    var kind := StringMember(v, "type");
    if kind == Some("text") then field == "text" && StringMember(v, "text").None?
    else if kind == Some("file") then
      || (field == "file" && !NonEmptyString(Member(v, "file")))
      || (field == "subpath" && !AbsentOrFragment(Member(v, "subpath")))
    else if kind == Some("link") then field == "url" && !NonEmptyString(Member(v, "url"))
    else if kind == Some("group") then
      || ((field == "label" || field == "background") && !AbsentOrString(Member(v, field)))
      || (field == "backgroundStyle" && !AbsentOr(Member(v, "backgroundStyle"), ["cover", "ratio", "repeat"]))
    else field == "type"
  }

  ghost predicate BreaksEdgeRule(v: Value, field: string) {
    if !v.Obj? then field == ""
    else
      || ((field == "id" || field == "fromNode" || field == "toNode") && !NonEmptyString(Member(v, field)))
      || ((field == "fromSide" || field == "toSide")
          && !AbsentOr(Member(v, field), ["top", "right", "bottom", "left"]))
      || ((field == "fromEnd" || field == "toEnd") && !AbsentOr(Member(v, field), ["none", "arrow"]))
      || (field == "label" && !AbsentOrString(Member(v, "label")))
      || (field == "color" && !AbsentOrColour(Member(v, "color")))
  }

  /** Each schema diagnostic of a node names a field that breaks its rule, and each such field is named. */
  lemma NodeReportIff(v: Value, i: nat, d: Diagnostic)
    ensures d in NodeDiagnostics(v, i) <==>
            d.code == Schema && d.place.Node? && d.place.index == i && BreaksNodeRule(v, d.place.field)
  {
    hide Member, StringMember, NonEmptyString, PositiveInteger, AbsentOr, AbsentOrString, AbsentOrColour,
      AbsentOrFragment, AsI64, TypeDiagnostics, BreaksTypeRule;
    TypeReportIff(v, i, d);
  }

  lemma TypeReportIff(v: Value, i: nat, d: Diagnostic)
    ensures d in TypeDiagnostics(v, i) <==>
            d.code == Schema && d.place.Node? && d.place.index == i && BreaksTypeRule(v, d.place.field)
  {
    hide Member, StringMember, NonEmptyString, AbsentOr, AbsentOrString, AbsentOrFragment, Report;
    forall broken, code, place ensures d in Report(broken, code, place) <==> broken && d == Diagnostic(code, place) {
      InReport(broken, code, place, d);
    }
  }

  lemma InReport(broken: bool, code: Code, place: Place, d: Diagnostic)
    ensures d in Report(broken, code, place) <==> broken && d == Diagnostic(code, place)
  {
  }

  lemma EdgeReportIff(v: Value, i: nat, d: Diagnostic)
    ensures d in EdgeDiagnostics(v, i) <==>
            d.code == Schema && d.place.Edge? && d.place.index == i && BreaksEdgeRule(v, d.place.field)
  {
    hide Member, StringMember, NonEmptyString, PositiveInteger, AbsentOr, AbsentOrString, AbsentOrColour, AsI64;
  }

  ghost predicate SameIdBefore(values: seq<Value>, i: nat, v: Value) {
    IdOf(v).Some? && exists j :: 0 <= j < i && j < |values| && IdOf(values[j]) == IdOf(v)
  }

  /** What is reported about the first nodes: broken fields, and ids an earlier node has. */
  lemma {:induction false} NodesReportIff(nodes: seq<Value>, count: nat, d: Diagnostic)
    requires count <= |nodes|
    ensures d in NodesReport(nodes, count) <==>
            exists i: nat :: i < count
              && (d in NodeDiagnostics(nodes[i], i)
                  || (d == Diagnostic(DuplicateId, Node(i, "id")) && SameIdBefore(nodes, i, nodes[i])))
    decreases count
  {
    hide NodeDiagnostics, Repeats, SameIdBefore;
    if count > 0 {
      var i := count - 1;
      NodesReportIff(nodes, i, d);
      EarlierIff(nodes, i, nodes[i]);
    }
  }

  lemma EarlierIff(values: seq<Value>, i: nat, v: Value)
    requires i <= |values|
    ensures Repeats(v, IdSet(values[..i])) <==> SameIdBefore(values, i, v)
  {
    hide IdOf, IdSet, Repeats;
    RepeatsIff(v, values[..i]);
    if SameIdBefore(values, i, v) {
      var j :| 0 <= j < i && j < |values| && IdOf(values[j]) == IdOf(v);
      assert values[..i][j] == values[j];
    }
    if Repeats(v, IdSet(values[..i])) {
      var j :| 0 <= j < |values[..i]| && IdOf(values[..i][j]) == IdOf(v);
      assert values[j] == values[..i][j];
    }
  }

  /** The endpoint names something that is no node. */
  ghost predicate NamesNoNode(nodes: seq<Value>, edge: Value, endpoint: string) {
    StringMember(edge, endpoint).Some? && !HasId(nodes, StringMember(edge, endpoint).value)
  }

  /** What is reported about an edge: broken fields, a repeated id, and endpoints that are no nodes. */
  ghost predicate EdgeFault(nodes: seq<Value>, edges: seq<Value>, i: nat, d: Diagnostic)
    requires i < |edges|
  {
    || d in EdgeDiagnostics(edges[i], i)
    || (d == Diagnostic(DuplicateId, Edge(i, "id"))
        && (SameIdBefore(nodes, |nodes|, edges[i]) || SameIdBefore(edges, i, edges[i])))
    || (d == Diagnostic(DanglingEdge, Edge(i, "fromNode")) && NamesNoNode(nodes, edges[i], "fromNode"))
    || (d == Diagnostic(DanglingEdge, Edge(i, "toNode")) && NamesNoNode(nodes, edges[i], "toNode"))
  }

  lemma {:induction false} EdgesReportIff(nodes: seq<Value>, edges: seq<Value>, count: nat, d: Diagnostic)
    requires count <= |edges|
    ensures d in EdgesReport(nodes, edges, count) <==> exists i: nat :: i < count && EdgeFault(nodes, edges, i, d)
    decreases count
  {
    hide EdgeDiagnostics, Repeats, SameIdBefore, Dangles, NamesNoNode, IdSet, EdgeFault;
    if count > 0 {
      var i := count - 1;
      EdgesReportIff(nodes, edges, i, d);
      LastEdgeReport(nodes, edges, i, d);
    }
  }

  lemma LastEdgeReport(nodes: seq<Value>, edges: seq<Value>, i: nat, d: Diagnostic)
    requires i < |edges|
    ensures d in EdgesReport(nodes, edges, i + 1) <==>
            d in EdgesReport(nodes, edges, i) || EdgeFault(nodes, edges, i, d)
  {
    hide EdgeDiagnostics, Repeats, SameIdBefore, Dangles, NamesNoNode, IdSet;
    EdgesReportStep(nodes, edges, i);
    EarlierIff(edges, i, edges[i]);
    EarlierIff(nodes, |nodes|, edges[i]);
    assert nodes[..|nodes|] == nodes;
    EitherRepeats(edges[i], IdSet(nodes), IdSet(edges[..i]));
    DanglesIff(nodes, edges[i], "fromNode");
    DanglesIff(nodes, edges[i], "toNode");
  }

  lemma EitherRepeats(v: Value, a: set<string>, b: set<string>)
    ensures Repeats(v, a + b) <==> Repeats(v, a) || Repeats(v, b)
  {
  }

  lemma DanglesIff(nodes: seq<Value>, edge: Value, endpoint: string)
    ensures Dangles(edge, endpoint, IdSet(nodes)) <==> NamesNoNode(nodes, edge, endpoint)
  {
    hide IdOf, StringMember;
  }
}
