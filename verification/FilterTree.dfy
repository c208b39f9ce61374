/** The JSON level of a filter: `and` / `or` / `not` objects over filter strings. */
module FilterTree {
  import opened Text
  import opened Json
  import opened FilterLeaf
  import FilterExpression
  import FilterUniformity
  import ScanHint

  /** The first object field decides the operator; further fields are ignored by the evaluator. */
  predicate IsOperator(key: string) {
    key == "and" || key == "or" || key == "not"
  }

  function EvaluateNode(node: Value, row: Row, path: FilterPath, numbers: NumberSyntax): Result<bool>
    decreases node, 0
  {
    match node
    case Str(expr) => FilterExpression.EvaluateExpression(expr, row, path, numbers)
    case Obj(fields) =>
      if fields == [] then Err(MalformedDefinition(path, EmptyObject))
      else
        var operator := fields[0].key;
        (match fields[0].value
         case Arr(items) =>
           if !IsOperator(operator) then Err(MalformedDefinition(path, UnknownOperator(operator)))
           else EvaluateOperands(items, 0, operator, operator != "or", row, path, numbers)
         case _ => Err(MalformedDefinition(Section(path, operator), OperandsNotArray)))
    case _ => Err(MalformedDefinition(path, NotStringOrObject))
  }

  /** Every operand from `index` on is evaluated, in order, even when `acc` already decides. */
  function EvaluateOperands(
      items: seq<Value>, index: nat, operator: string, acc: bool, row: Row, path: FilterPath, numbers: NumberSyntax)
      : Result<bool>
    requires index <= |items|
    decreases items, 1 + |items| - index
  {
    if index == |items| then Ok(if operator == "not" then !acc else acc)
    else match EvaluateNode(items[index], row, Operand(path, operator, index), numbers)
      case Err(error) => Err(error)
      case Ok(value) =>
        EvaluateOperands(items, index + 1, operator, Combine(operator, acc, value), row, path, numbers)
  }

  function Combine(operator: string, acc: bool, value: bool): bool {
    if operator == "or" then acc || value else acc && value
  }

  function EvaluateFilters(filters: Option<Value>, row: Row, numbers: NumberSyntax): Result<bool> {
    match filters case None => Ok(true) case Some(node) => EvaluateNode(node, row, Root, numbers)
  }

  method RunNode(node: Value, row: Row, path: FilterPath, numbers: NumberSyntax) returns (r: Result<bool>)
    ensures r == EvaluateNode(node, row, path, numbers)
    decreases node
  {
    match node
    case Str(expr) =>
      r := FilterExpression.RunExpression(expr, row, path, numbers);
    case Obj(fields) =>
      if fields == [] {
        return Err(MalformedDefinition(path, EmptyObject));
      }
      var operator := fields[0].key;
      match fields[0].value {
        case Arr(items) =>
          if !IsOperator(operator) {
            return Err(MalformedDefinition(path, UnknownOperator(operator)));
          }
          var result := operator != "or";
          for index := 0 to |items|
            invariant EvaluateOperands(items, index, operator, result, row, path, numbers)
                      == EvaluateNode(node, row, path, numbers)
          {
            r := RunNode(items[index], row, Operand(path, operator, index), numbers);
            if r.Err? {
              return;
            }
            result := Combine(operator, result, r.value);
          }
          r := Ok(if operator == "not" then !result else result);
        case _ => r := Err(MalformedDefinition(Section(path, operator), OperandsNotArray));
      }
    case _ => r := Err(MalformedDefinition(path, NotStringOrObject));
  }

  function RootHint(filters: Value): ScanRootHint
    decreases filters, 0
  {
    match filters
    case Str(expr) => FilterExpression.ExpressionScanHint(expr)
    case Obj(fields) =>
      if fields == [] || !fields[0].value.Arr? then NoHint
      else
        var items := fields[0].value.items;
        if fields[0].key == "and" then FirstHint(items)
        else if fields[0].key == "or" then FilterExpression.MergeOrHints(OperandHints(items))
        else NoHint
    case _ => NoHint
  }

  function FirstHint(items: seq<Value>): ScanRootHint
    decreases items, 1 + |items|
  {
    if items == [] then NoHint
    else if RootHint(items[0]).NoHint? then FirstHint(items[1..])
    else RootHint(items[0])
  }

  function OperandHints(items: seq<Value>): (hints: seq<ScanRootHint>)
    ensures |hints| == |items|
    decreases items, 1 + |items|
  {
    seq(|items|, i requires 0 <= i < |items| => RootHint(items[i]))
  }

  /** An `and` that holds has every operand holding; an `or` that holds has one. */
  lemma {:induction false} OperandsHold(
      items: seq<Value>, index: nat, operator: string, acc: bool, row: Row, path: FilterPath, numbers: NumberSyntax)
    requires index <= |items| && operator != "not"
    requires EvaluateOperands(items, index, operator, acc, row, path, numbers) == Ok(true)
    ensures operator != "or" ==>
              acc && forall i :: index <= i < |items| ==>
                EvaluateNode(items[i], row, Operand(path, operator, i), numbers) == Ok(true)
    ensures operator == "or" && !acc ==>
              exists i :: index <= i < |items| &&
                EvaluateNode(items[i], row, Operand(path, operator, i), numbers) == Ok(true)
    decreases |items| - index
  {
    if index < |items| {
      var value := EvaluateNode(items[index], row, Operand(path, operator, index), numbers);
      OperandsHold(items, index + 1, operator, Combine(operator, acc, value.value), row, path, numbers);
    }
  }

  lemma {:induction false} FirstHintComesFrom(items: seq<Value>)
    requires !FirstHint(items).NoHint?
    ensures exists i :: 0 <= i < |items| && RootHint(items[i]) == FirstHint(items)
    decreases |items|
  {
    if RootHint(items[0]).NoHint? {
      FirstHintComesFrom(items[1..]);
      var i :| 0 <= i < |items[1..]| && RootHint(items[1..][i]) == FirstHint(items[1..]);
      assert RootHint(items[i + 1]) == FirstHint(items);
    }
  }

  /** A row that a filter node matches lies inside the root the node's hint names. */
  lemma {:induction false} NodeScanRootSafe(filters: Value, row: Row, path: FilterPath, numbers: NumberSyntax)
    requires EvaluateNode(filters, row, path, numbers) == Ok(true)
    ensures HintHolds(RootHint(filters), row)
    decreases filters
  {
    match filters
    case Str(expr) => ScanHint.ExpressionHintSafe(expr, row, path, numbers);
    case Obj(fields) =>
      var items, operator := fields[0].value.items, fields[0].key;
      if !RootHint(filters).NoHint? {
        OperandsHold(items, 0, operator, operator != "or", row, path, numbers);
        var i: nat;
        if operator == "and" {
          FirstHintComesFrom(items);
          i :| 0 <= i < |items| && RootHint(items[i]) == FirstHint(items);
        } else {
          i :| 0 <= i < |items| && EvaluateNode(items[i], row, Operand(path, operator, i), numbers) == Ok(true);
          assert OperandHints(items)[i] in OperandHints(items);
        }
        NodeScanRootSafe(items[i], row, Operand(path, operator, i), numbers);
      }
    case _ =>
  }

  /** `scan_root_hint`: no filters, no hint. */
  function ScanRootHintOf(filters: Option<Value>): ScanRootHint {
    match filters case None => NoHint case Some(node) => RootHint(node)
  }

  /** Narrowing the scan to the hint of the filters never skips a matching row. */
  lemma ScanRootSafe(filters: Option<Value>, row: Row, numbers: NumberSyntax)
    requires EvaluateFilters(filters, row, numbers) == Ok(true)
    ensures HintHolds(ScanRootHintOf(filters), row)
  {
    if filters.Some? {
      NodeScanRootSafe(filters.value, row, Root, numbers);
    }
  }

  /** Two outcomes that agree on success and on the error. */
  ghost predicate SameFailure<T>(a: Result<T>, b: Result<T>) {
    a.Ok? == b.Ok? && (a.Err? ==> a == b)
  }

  /** No node's error depends on the row. */
  lemma {:induction false} NodeFailsClosed(node: Value, row: Row, other: Row, path: FilterPath, numbers: NumberSyntax)
    ensures SameFailure(EvaluateNode(node, row, path, numbers), EvaluateNode(node, other, path, numbers))
    decreases node, 0
  {
    match node
    case Str(expr) => FilterUniformity.ExpressionFailsClosed(expr, row, other, path, numbers);
    case Obj(fields) =>
      if fields != [] && fields[0].value.Arr? && IsOperator(fields[0].key) {
        var initial := fields[0].key != "or";
        OperandsFailClosed(fields[0].value.items, 0, fields[0].key, initial, initial, row, other, path, numbers);
      }
    case _ =>
  }

  /** No error depends on the row: no data can hide an unsupported leaf behind a short circuit. */
  lemma FailsClosed(filters: Option<Value>, row: Row, other: Row, numbers: NumberSyntax)
    ensures SameFailure(EvaluateFilters(filters, row, numbers), EvaluateFilters(filters, other, numbers))
  {
    if filters.Some? {
      NodeFailsClosed(filters.value, row, other, Root, numbers);
    }
  }

  lemma {:induction false} OperandsFailClosed(
      items: seq<Value>, index: nat, operator: string, acc: bool, otherAcc: bool,
      row: Row, other: Row, path: FilterPath, numbers: NumberSyntax)
    requires index <= |items|
    ensures SameFailure(EvaluateOperands(items, index, operator, acc, row, path, numbers),
                        EvaluateOperands(items, index, operator, otherAcc, other, path, numbers))
    decreases items, 1 + |items| - index
  {
    if index < |items| {
      var at := Operand(path, operator, index);
      NodeFailsClosed(items[index], row, other, at, numbers);
      var a, b := EvaluateNode(items[index], row, at, numbers), EvaluateNode(items[index], other, at, numbers);
      if a.Ok? {
        OperandsFailClosed(items, index + 1, operator, Combine(operator, acc, a.value),
                           Combine(operator, otherAcc, b.value), row, other, path, numbers);
      }
    }
  }

  datatype DiagnosticKind =
    | EmptyExpression
    | NotExpressionOrObject
    | NotExactlyOneOperator
    | UnknownKey
    | OperandsMustBeArray

  datatype Diagnostic = Diagnostic(path: FilterPath, kind: DiagnosticKind)

  /** What schema validation reports for a filter, in order. */
  function FilterDiagnostics(value: Value, path: FilterPath): seq<Diagnostic>
    decreases value, 0
  {
    match value
    case Str(expr) => if expr == "" then [Diagnostic(path, EmptyExpression)] else []
    case Obj(fields) =>
      if |fields| != 1 then [Diagnostic(path, NotExactlyOneOperator)]
      else if !IsOperator(fields[0].key) then [Diagnostic(path, UnknownKey)]
      else (match fields[0].value
            case Arr(items) => OperandDiagnostics(items, |items|, fields[0].key, path)
            case _ => [Diagnostic(Section(path, fields[0].key), OperandsMustBeArray)])
    case _ => [Diagnostic(path, NotExpressionOrObject)]
  }

  function OperandDiagnostics(items: seq<Value>, count: nat, operator: string, path: FilterPath): seq<Diagnostic>
    requires count <= |items|
    decreases items, 1 + count
  {
    if count == 0 then []
    else OperandDiagnostics(items, count - 1, operator, path)
         + FilterDiagnostics(items[count - 1], Operand(path, operator, count - 1))
  }

  /** The diagnostics a document collects while it is validated. */
  class DiagnosticSink {
    var items: seq<Diagnostic>

    constructor ()
      ensures items == []
    {
      items := [];
    }

    method Push(path: FilterPath, kind: DiagnosticKind)
      modifies this
      ensures items == old(items) + [Diagnostic(path, kind)]
    {
      items := items + [Diagnostic(path, kind)];
    }
  }

  method ValidateFilters(value: Value, path: FilterPath, sink: DiagnosticSink)
    modifies sink
    ensures sink.items == old(sink.items) + FilterDiagnostics(value, path)
    decreases value
  {
    match value
    case Str(expr) =>
      if expr == "" {
        sink.Push(path, EmptyExpression);
      }
    case Obj(fields) =>
      if |fields| != 1 {
        sink.Push(path, NotExactlyOneOperator);
      } else if !IsOperator(fields[0].key) {
        sink.Push(path, UnknownKey);
      } else {
        match fields[0].value {
          case Arr(operands) =>
            for index := 0 to |operands|
              invariant sink.items == old(sink.items) + OperandDiagnostics(operands, index, fields[0].key, path)
            {
              ValidateFilters(operands[index], Operand(path, fields[0].key, index), sink);
            }
          case _ => sink.Push(Section(path, fields[0].key), OperandsMustBeArray);
        }
      }
    case _ => sink.Push(path, NotExpressionOrObject);
  }

  /** A tree of non-empty strings and one-operator objects. */
  ghost predicate WellShaped(value: Value) {
    match value
    case Str(expr) => expr != ""
    case Obj(fields) =>
      |fields| == 1 && IsOperator(fields[0].key) && fields[0].value.Arr?
      && forall v :: v in fields[0].value.items ==> WellShaped(v)
    case _ => false
  }

  /** Validation is silent exactly on the well-shaped trees. */
  lemma {:induction false} DiagnosticsDecideShape(value: Value, path: FilterPath)
    ensures FilterDiagnostics(value, path) == [] <==> WellShaped(value)
    decreases value, 0
  {
    if value.Obj? && |value.fields| == 1 && value.fields[0].value.Arr? {
      var items := value.fields[0].value.items;
      OperandDiagnosticsDecideShape(items, |items|, value.fields[0].key, path);
      assert items[..|items|] == items;
    }
  }

  lemma {:induction false} OperandDiagnosticsDecideShape(items: seq<Value>, count: nat, operator: string,
    path: FilterPath)
    requires count <= |items|
    ensures OperandDiagnostics(items, count, operator, path) == []
      <==> forall v :: v in items[..count] ==> WellShaped(v)
    decreases items, 1 + count
  {
    if count > 0 {
      OperandDiagnosticsDecideShape(items, count - 1, operator, path);
      DiagnosticsDecideShape(items[count - 1], Operand(path, operator, count - 1));
      assert items[..count] == items[..count - 1] + [items[count - 1]];
    }
    assert count == |items| ==> items[..count] == items;
  }

  /** A tree that validation accepts never evaluates to a malformed-definition error. */
  lemma {:induction false} ValidatedNeverMalformed(value: Value, row: Row, path: FilterPath, at: FilterPath,
    numbers: NumberSyntax)
    requires FilterDiagnostics(value, at) == []
    ensures var r := EvaluateNode(value, row, path, numbers); r.Err? ==> !r.error.MalformedDefinition?
  {
    DiagnosticsDecideShape(value, at);
    WellShapedNeverMalformed(value, row, path, numbers);
  }

  lemma {:induction false} WellShapedNeverMalformed(value: Value, row: Row, path: FilterPath, numbers: NumberSyntax)
    requires WellShaped(value)
    ensures var r := EvaluateNode(value, row, path, numbers); r.Err? ==> !r.error.MalformedDefinition?
    decreases value, 0
  {
    match value
    case Str(expr) =>
    case Obj(fields) =>
      var operator := fields[0].key;
      OperandsNeverMalformed(fields[0].value.items, 0, operator, operator != "or", row, path, numbers);
    case _ =>
  }

  lemma {:induction false} OperandsNeverMalformed(
      items: seq<Value>, index: nat, operator: string, acc: bool, row: Row, path: FilterPath, numbers: NumberSyntax)
    requires index <= |items| && forall v :: v in items ==> WellShaped(v)
    ensures var r := EvaluateOperands(items, index, operator, acc, row, path, numbers);
            r.Err? ==> !r.error.MalformedDefinition?
    decreases items, 1 + |items| - index
  {
    if index < |items| {
      WellShapedNeverMalformed(items[index], row, Operand(path, operator, index), numbers);
      var r := EvaluateNode(items[index], row, Operand(path, operator, index), numbers);
      if r.Ok? {
        OperandsNeverMalformed(items, index + 1, operator, Combine(operator, acc, r.value), row, path, numbers);
      }
    }
  }
}
