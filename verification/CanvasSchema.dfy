/** JSON Canvas 1.0: what the server reports about a document, and when it reports nothing. */
module CanvasSchema {
  import opened Text
  import opened Json

  const I64_MIN: int := -0x8000_0000_0000_0000
  const I64_MAX: int := 0x7FFF_FFFF_FFFF_FFFF

  predicate IsI64(i: int) {
    I64_MIN <= i <= I64_MAX
  }

  function AsI64(v: Option<Value>): Option<int> {
    match v
    case Some(Num(Integer(i))) => if IsI64(i) then Some(i) else None
    case _ => None
  }

  function Member(v: Value, key: string): Option<Value> {
    if v.Obj? then Get(v.fields, key) else None
  }

  function StringMember(v: Value, key: string): Option<string> {
    AsStr(Member(v, key))
  }

  function IdOf(v: Value): Option<string> {
    StringMember(v, "id")
  }

  datatype Code = Schema | DuplicateId | DanglingEdge

  datatype Place = Node(index: nat, field: string) | Edge(index: nat, field: string)

  datatype Diagnostic = Diagnostic(code: Code, place: Place)

  function Report(broken: bool, code: Code, place: Place): (r: seq<Diagnostic>)
    ensures r == [] <==> !broken
  {
    if broken then [Diagnostic(code, place)] else []
  }

  predicate NonEmptyString(v: Option<Value>) {
    AsStr(v).Some? && AsStr(v).value != ""
  }

  predicate PositiveInteger(v: Option<Value>) {
    AsI64(v).Some? && AsI64(v).value > 0
  }

  predicate IsHexDigit(c: char) {
    '0' <= c <= '9' || 'a' <= c <= 'f' || 'A' <= c <= 'F'
  }

  /** A preset 1 to 6, or `#` and six hexadecimal digits. */
  predicate IsColour(s: string) {
    (|s| == 1 && '1' <= s[0] <= '6')
    || (|s| == 7 && s[0] == '#' && forall i :: 1 <= i < 7 ==> IsHexDigit(s[i]))
  }

  /** Absent, or a string among the listed ones. */
  predicate AbsentOr(v: Option<Value>, allowed: seq<string>) {
    v.Some? ==> v.value.Str? && v.value.s in allowed
  }

  predicate AbsentOrString(v: Option<Value>) {
    v.Some? ==> v.value.Str?
  }

  predicate AbsentOrColour(v: Option<Value>) {
    v.Some? ==> v.value.Str? && IsColour(v.value.s)
  }

  predicate AbsentOrFragment(v: Option<Value>) {
    v.Some? ==> v.value.Str? && "#" <= v.value.s
  }

  // ---------- what is reported, in order ----------

  function NodeDiagnostics(v: Value, i: nat): seq<Diagnostic> {
    if !v.Obj? then [Diagnostic(Schema, Node(i, ""))]
    else
      Report(!NonEmptyString(Member(v, "id")), Schema, Node(i, "id"))
      + Report(AsI64(Member(v, "x")).None?, Schema, Node(i, "x"))
      + Report(AsI64(Member(v, "y")).None?, Schema, Node(i, "y"))
      + Report(!PositiveInteger(Member(v, "width")), Schema, Node(i, "width"))
      + Report(!PositiveInteger(Member(v, "height")), Schema, Node(i, "height"))
      + Report(!AbsentOrColour(Member(v, "color")), Schema, Node(i, "color"))
      + TypeDiagnostics(v, i)
  }

  function TypeDiagnostics(v: Value, i: nat): seq<Diagnostic> {
    var kind := StringMember(v, "type");
    if kind == Some("text") then Report(StringMember(v, "text").None?, Schema, Node(i, "text"))
    else if kind == Some("file") then
      Report(!NonEmptyString(Member(v, "file")), Schema, Node(i, "file"))
      + Report(!AbsentOrFragment(Member(v, "subpath")), Schema, Node(i, "subpath"))
    else if kind == Some("link") then Report(!NonEmptyString(Member(v, "url")), Schema, Node(i, "url"))
    else if kind == Some("group") then
      Report(!AbsentOrString(Member(v, "label")), Schema, Node(i, "label"))
      + Report(!AbsentOrString(Member(v, "background")), Schema, Node(i, "background"))
      + Report(!AbsentOr(Member(v, "backgroundStyle"), ["cover", "ratio", "repeat"]), Schema,
        Node(i, "backgroundStyle"))
    else [Diagnostic(Schema, Node(i, "type"))]
  }

  function Sides(): seq<string> {
    ["top", "right", "bottom", "left"]
  }

  function Ends(): seq<string> {
    ["none", "arrow"]
  }

  function EdgeDiagnostics(v: Value, i: nat): seq<Diagnostic> {
    if !v.Obj? then [Diagnostic(Schema, Edge(i, ""))]
    else
      Report(!NonEmptyString(Member(v, "id")), Schema, Edge(i, "id"))
      + Report(!NonEmptyString(Member(v, "fromNode")), Schema, Edge(i, "fromNode"))
      + Report(!NonEmptyString(Member(v, "toNode")), Schema, Edge(i, "toNode"))
      + Report(!AbsentOr(Member(v, "fromSide"), Sides()), Schema, Edge(i, "fromSide"))
      + Report(!AbsentOr(Member(v, "toSide"), Sides()), Schema, Edge(i, "toSide"))
      + Report(!AbsentOr(Member(v, "fromEnd"), Ends()), Schema, Edge(i, "fromEnd"))
      + Report(!AbsentOr(Member(v, "toEnd"), Ends()), Schema, Edge(i, "toEnd"))
      + Report(!AbsentOrString(Member(v, "label")), Schema, Edge(i, "label"))
      + Report(!AbsentOrColour(Member(v, "color")), Schema, Edge(i, "color"))
  }

  /** The ids that occur among these values. */
  function IdSet(values: seq<Value>): set<string> {
    set i | 0 <= i < |values| && IdOf(values[i]).Some? :: IdOf(values[i]).value
  }

  predicate Repeats(v: Value, seen: set<string>) {
    IdOf(v).Some? && IdOf(v).value in seen
  }

  predicate Dangles(edge: Value, endpoint: string, nodeIds: set<string>) {
    StringMember(edge, endpoint).Some? && StringMember(edge, endpoint).value !in nodeIds
  }

  /** Everything reported about the first `count` nodes. */
  function NodesReport(nodes: seq<Value>, count: nat): seq<Diagnostic>
    requires count <= |nodes|
  {
    if count == 0 then []
    else
      var i := count - 1;
      NodesReport(nodes, i) + NodeDiagnostics(nodes[i], i)
      + Report(Repeats(nodes[i], IdSet(nodes[..i])), DuplicateId, Node(i, "id"))
  }

  function EdgesReport(nodes: seq<Value>, edges: seq<Value>, count: nat): seq<Diagnostic>
    requires count <= |edges|
  {
    if count == 0 then []
    else
      var i := count - 1;
      EdgesReport(nodes, edges, i) + EdgeDiagnostics(edges[i], i)
      + Report(Repeats(edges[i], IdSet(nodes) + IdSet(edges[..i])), DuplicateId, Edge(i, "id"))
      + Report(Dangles(edges[i], "fromNode", IdSet(nodes)), DanglingEdge, Edge(i, "fromNode"))
      + Report(Dangles(edges[i], "toNode", IdSet(nodes)), DanglingEdge, Edge(i, "toNode"))
  }

  function Diagnostics(nodes: seq<Value>, edges: seq<Value>): seq<Diagnostic> {
    NodesReport(nodes, |nodes|) + EdgesReport(nodes, edges, |edges|)
  }

  lemma IdSetGrows(values: seq<Value>, i: nat)
    requires i < |values|
    ensures IdSet(values[..i + 1])
            == IdSet(values[..i]) + if IdOf(values[i]).Some? then {IdOf(values[i]).value} else {}
  {
    var shorter, longer := values[..i], values[..i + 1];
    assert longer == shorter + [values[i]];
    forall id | id in IdSet(longer)
      ensures id in IdSet(shorter) + if IdOf(values[i]).Some? then {IdOf(values[i]).value} else {} {
      var k :| 0 <= k < |longer| && IdOf(longer[k]) == Some(id);
      if k < i { assert shorter[k] == longer[k]; }
    }
    forall id | id in IdSet(shorter) ensures id in IdSet(longer) {
      var k :| 0 <= k < |shorter| && IdOf(shorter[k]) == Some(id);
      assert longer[k] == shorter[k];
    }
    assert longer[i] == values[i];
  }

  method CollectDiagnostics(nodes: seq<Value>, edges: seq<Value>) returns (diagnostics: seq<Diagnostic>)
    ensures diagnostics == Diagnostics(nodes, edges)
  {
    hide NodeDiagnostics, EdgeDiagnostics, IdOf, StringMember, IdSet, Dangles;
    diagnostics := [];
    var nodeIds: set<string> := {};
    EmptyIdSet(nodes);
    EmptyIdSet(edges);
    for i := 0 to |nodes|
      invariant diagnostics == NodesReport(nodes, i) && nodeIds == IdSet(nodes[..i])
    {
      diagnostics := diagnostics + NodeDiagnostics(nodes[i], i);
      var id := IdOf(nodes[i]);
      IdSetGrows(nodes, i);
      diagnostics := diagnostics + Report(id.Some? && id.value in nodeIds, DuplicateId, Node(i, "id"));
      if id.Some? {
        nodeIds := nodeIds + {id.value};
      }
    }
    assert nodes[..|nodes|] == nodes;
    var allIds := nodeIds;
    for i := 0 to |edges|
      invariant diagnostics == NodesReport(nodes, |nodes|) + EdgesReport(nodes, edges, i)
      invariant nodeIds == IdSet(nodes) && allIds == nodeIds + IdSet(edges[..i])
    {
      ghost var so, far := NodesReport(nodes, |nodes|), EdgesReport(nodes, edges, i);
      var d := EdgeDiagnostics(edges[i], i);
      var id := IdOf(edges[i]);
      IdSetGrows(edges, i);
      d := d + Report(id.Some? && id.value in allIds, DuplicateId, Edge(i, "id"));
      d := d + Report(Dangles(edges[i], "fromNode", nodeIds), DanglingEdge, Edge(i, "fromNode"));
      d := d + Report(Dangles(edges[i], "toNode", nodeIds), DanglingEdge, Edge(i, "toNode"));
      if id.Some? {
        allIds := allIds + {id.value};
      }
      diagnostics := diagnostics + d;
      assert so + far + d == so + (far + d);
      EdgesReportStep(nodes, edges, i);
    }
  }

  lemma EmptyIdSet(values: seq<Value>)
    ensures IdSet(values[..0]) == {}
  {
  }

  lemma EdgesReportStep(nodes: seq<Value>, edges: seq<Value>, i: nat)
    requires i < |edges|
    ensures EdgesReport(nodes, edges, i + 1)
            == EdgesReport(nodes, edges, i)
               + (EdgeDiagnostics(edges[i], i)
                  + Report(Repeats(edges[i], IdSet(nodes) + IdSet(edges[..i])), DuplicateId, Edge(i, "id"))
                  + Report(Dangles(edges[i], "fromNode", IdSet(nodes)), DanglingEdge, Edge(i, "fromNode"))
                  + Report(Dangles(edges[i], "toNode", IdSet(nodes)), DanglingEdge, Edge(i, "toNode")))
  {
    hide EdgeDiagnostics, Repeats, Dangles, IdSet, Report;
  }

  // ---------- validity ----------

  /** The Nodes section of JSON Canvas 1.0. */
  ghost predicate NodeValid(v: Value) {
    && v.Obj?
    && NonEmptyString(Member(v, "id"))
    && AsI64(Member(v, "x")).Some? && AsI64(Member(v, "y")).Some?
    && PositiveInteger(Member(v, "width")) && PositiveInteger(Member(v, "height"))
    && AbsentOrColour(Member(v, "color"))
    && (StringMember(v, "type") == Some("text") ==> StringMember(v, "text").Some?)
    && (StringMember(v, "type") == Some("file") ==>
          NonEmptyString(Member(v, "file")) && AbsentOrFragment(Member(v, "subpath")))
    && (StringMember(v, "type") == Some("link") ==> NonEmptyString(Member(v, "url")))
    && (StringMember(v, "type") == Some("group") ==>
          AbsentOrString(Member(v, "label")) && AbsentOrString(Member(v, "background"))
          && AbsentOr(Member(v, "backgroundStyle"), ["cover", "ratio", "repeat"]))
    && exists kind :: StringMember(v, "type") == Some(kind) && kind in ["text", "file", "link", "group"]
  }

  /** The Edges section of JSON Canvas 1.0. */
  ghost predicate EdgeValid(v: Value) {
    && v.Obj?
    && NonEmptyString(Member(v, "id")) && NonEmptyString(Member(v, "fromNode")) && NonEmptyString(Member(v, "toNode"))
    && AbsentOr(Member(v, "fromSide"), Sides()) && AbsentOr(Member(v, "toSide"), Sides())
    && AbsentOr(Member(v, "fromEnd"), Ends()) && AbsentOr(Member(v, "toEnd"), Ends())
    && AbsentOrString(Member(v, "label")) && AbsentOrColour(Member(v, "color"))
  }

  /** Nodes and edges share one id space without repetitions. */
  ghost predicate DistinctIds(values: seq<Value>) {
    forall i, j :: 0 <= i < j < |values| && IdOf(values[i]).Some? ==> IdOf(values[i]) != IdOf(values[j])
  }

  /** Every endpoint an edge names is the id of a node. */
  ghost predicate NoDangling(nodes: seq<Value>, edges: seq<Value>) {
    forall i :: 0 <= i < |edges| ==>
      !Dangles(edges[i], "fromNode", IdSet(nodes)) && !Dangles(edges[i], "toNode", IdSet(nodes))
  }

  ghost predicate CanvasValid(nodes: seq<Value>, edges: seq<Value>) {
    && (forall i :: 0 <= i < |nodes| ==> NodeValid(nodes[i]))
    && (forall i :: 0 <= i < |edges| ==> EdgeValid(edges[i]))
    && DistinctIds(nodes + edges)
    && NoDangling(nodes, edges)
  }

  lemma NodeReportDecides(v: Value, i: nat)
    ensures NodeDiagnostics(v, i) == [] <==> NodeValid(v)
  {
    hide Member, AsI64, NonEmptyString, PositiveInteger, AbsentOr, AbsentOrString, AbsentOrColour, AbsentOrFragment,
      StringMember;
    TypeReportDecides(v, i);
  }

  lemma TypeReportDecides(v: Value, i: nat)
    ensures TypeDiagnostics(v, i) == [] <==>
              (StringMember(v, "type") == Some("text") ==> StringMember(v, "text").Some?)
              && (StringMember(v, "type") == Some("file") ==>
                    NonEmptyString(Member(v, "file")) && AbsentOrFragment(Member(v, "subpath")))
              && (StringMember(v, "type") == Some("link") ==> NonEmptyString(Member(v, "url")))
              && (StringMember(v, "type") == Some("group") ==>
                    AbsentOrString(Member(v, "label")) && AbsentOrString(Member(v, "background"))
                    && AbsentOr(Member(v, "backgroundStyle"), ["cover", "ratio", "repeat"]))
              && exists kind :: StringMember(v, "type") == Some(kind) && kind in ["text", "file", "link", "group"]
  {
    hide Member, NonEmptyString, AbsentOr, AbsentOrString, AbsentOrFragment, StringMember;
    var kind := StringMember(v, "type");
    var kinds := ["text", "file", "link", "group"];
    assert kinds[0] == "text" && kinds[1] == "file" && kinds[2] == "link" && kinds[3] == "group";
    assert forall k :: k in kinds <==> k == kinds[0] || k == kinds[1] || k == kinds[2] || k == kinds[3];
    DistinctKinds();
  }

  lemma DistinctKinds()
    ensures "text" != "file" && "text" != "link" && "text" != "group" && "file" != "link" && "file" != "group"
            && "link" != "group"
  {
    assert "text"[0] == 't' && "file"[0] == 'f' && "link"[0] == 'l' && "group"[0] == 'g';
  }

  lemma EdgeReportDecides(v: Value, i: nat)
    ensures EdgeDiagnostics(v, i) == [] <==> EdgeValid(v)
  {
    hide Member, NonEmptyString, AbsentOr, AbsentOrString, AbsentOrColour, Sides, Ends;
  }

  /** A value repeats an earlier id exactly when some earlier value has it. */
  lemma RepeatsIff(v: Value, values: seq<Value>)
    ensures Repeats(v, IdSet(values)) <==> IdOf(v).Some? && exists k :: 0 <= k < |values| && IdOf(values[k]) == IdOf(v)
  {
    hide IdOf;
    if Repeats(v, IdSet(values)) {
      var k :| 0 <= k < |values| && IdOf(values[k]).Some? && IdOf(values[k]).value == IdOf(v).value;
    }
  }

  lemma DistinctSnoc(values: seq<Value>, v: Value)
    ensures DistinctIds(values + [v]) <==> DistinctIds(values) && !Repeats(v, IdSet(values))
  {
    hide IdOf, Repeats, IdSet;
    RepeatsIff(v, values);
    var longer := values + [v];
    assert forall i :: 0 <= i < |values| ==> longer[i] == values[i];
    assert longer[|values|] == v;
    if DistinctIds(longer) {
      assert forall k :: 0 <= k < |values| && IdOf(values[k]).Some? ==> IdOf(longer[k]) != IdOf(longer[|values|]);
      assert forall i, j :: 0 <= i < j < |values| && IdOf(values[i]).Some? ==> IdOf(longer[i]) != IdOf(longer[j]);
    }
  }

  lemma {:induction false} NodesReportDecides(nodes: seq<Value>, count: nat)
    requires count <= |nodes|
    ensures NodesReport(nodes, count) == [] <==>
              (forall i :: 0 <= i < count ==> NodeValid(nodes[i])) && DistinctIds(nodes[..count])
    decreases count
  {
    hide NodeDiagnostics, NodeValid, Repeats, IdSet, DistinctIds;
    if count == 0 {
      EmptyDistinct(nodes[..0]);
    } else {
      var i := count - 1;
      NodesReportDecides(nodes, i);
      NodeReportDecides(nodes[i], i);
      assert nodes[..count] == nodes[..i] + [nodes[i]];
      DistinctSnoc(nodes[..i], nodes[i]);
    }
  }

  lemma EmptyDistinct(values: seq<Value>)
    requires values == []
    ensures DistinctIds(values)
  {
  }

  lemma IdSetConcat(a: seq<Value>, b: seq<Value>)
    ensures IdSet(a + b) == IdSet(a) + IdSet(b)
  {
    hide IdOf;
    var s := a + b;
    forall id | id in IdSet(s) ensures id in IdSet(a) + IdSet(b) {
      var k :| 0 <= k < |s| && IdOf(s[k]).Some? && IdOf(s[k]).value == id;
      if k < |a| { assert a[k] == s[k]; } else { assert b[k - |a|] == s[k]; }
    }
    forall id | id in IdSet(a) ensures id in IdSet(s) {
      var k :| 0 <= k < |a| && IdOf(a[k]).Some? && IdOf(a[k]).value == id;
      assert s[k] == a[k];
    }
    forall id | id in IdSet(b) ensures id in IdSet(s) {
      var k :| 0 <= k < |b| && IdOf(b[k]).Some? && IdOf(b[k]).value == id;
      assert s[|a| + k] == b[k];
    }
  }

  lemma NoDanglingSnoc(nodes: seq<Value>, edges: seq<Value>, e: Value)
    ensures NoDangling(nodes, edges + [e]) <==>
            NoDangling(nodes, edges)
            && !Dangles(e, "fromNode", IdSet(nodes)) && !Dangles(e, "toNode", IdSet(nodes))
  {
    hide IdSet, Dangles;
    var longer := edges + [e];
    assert longer[|edges|] == e && forall k :: 0 <= k < |edges| ==> longer[k] == edges[k];
  }

  lemma {:induction false} EdgesReportDecides(nodes: seq<Value>, edges: seq<Value>, count: nat)
    requires count <= |edges| && DistinctIds(nodes)
    ensures EdgesReport(nodes, edges, count) == [] <==>
              (forall i :: 0 <= i < count ==> EdgeValid(edges[i]))
              && DistinctIds(nodes + edges[..count]) && NoDangling(nodes, edges[..count])
    decreases count
  {
    hide EdgeDiagnostics, EdgeValid, Repeats, IdSet, DistinctIds, Dangles, NoDangling;
    if count == 0 {
      assert nodes + edges[..0] == nodes;
      NothingDangles(nodes, edges[..0]);
    } else {
      var i := count - 1;
      EdgesReportDecides(nodes, edges, i);
      EdgeReportDecides(edges[i], i);
      assert nodes + edges[..count] == (nodes + edges[..i]) + [edges[i]];
      DistinctSnoc(nodes + edges[..i], edges[i]);
      IdSetConcat(nodes, edges[..i]);
      assert edges[..count] == edges[..i] + [edges[i]];
      NoDanglingSnoc(nodes, edges[..i], edges[i]);
    }
  }

  lemma NothingDangles(nodes: seq<Value>, edges: seq<Value>)
    requires edges == []
    ensures NoDangling(nodes, edges)
  {
  }

  /** Nothing is reported exactly about valid canvases. */
  lemma DiagnosticsDecideValidity(nodes: seq<Value>, edges: seq<Value>)
    ensures Diagnostics(nodes, edges) == [] <==> CanvasValid(nodes, edges)
  {
    hide NodesReport, EdgesReport, NodeValid, EdgeValid, DistinctIds;
    NodesReportDecides(nodes, |nodes|);
    assert nodes[..|nodes|] == nodes && edges[..|edges|] == edges;
    if NodesReport(nodes, |nodes|) == [] {
      EdgesReportDecides(nodes, edges, |edges|);
    } else if CanvasValid(nodes, edges) {
      DistinctPrefix(nodes, edges);
    }
  }

  lemma DistinctPrefix(a: seq<Value>, b: seq<Value>)
    requires DistinctIds(a + b)
    ensures DistinctIds(a)
  {
    hide IdOf;
    assert forall i :: 0 <= i < |a| ==> (a + b)[i] == a[i];
    forall i, j | 0 <= i < j < |a| && IdOf(a[i]).Some? ensures IdOf(a[i]) != IdOf(a[j]) {
      assert IdOf((a + b)[i]) != IdOf((a + b)[j]);
    }
  }
}
