/** What the JSON operators, their errors, their hints and their diagnostics say, in terms of the operands alone. */
module FilterMeaning {
  import opened Text
  import opened Json
  import opened FilterLeaf
  import opened FilterTree
  import FilterExpression

  // ---------- values ----------

  /** The value of the operand at `i`, reported under its own place in the tree. */
  function OperandValue(items: seq<Value>, i: nat, key: string, row: Row, path: FilterPath, numbers: NumberSyntax)
      : Result<bool>
    requires i < |items|
  {
    EvaluateNode(items[i], row, Operand(path, key, i), numbers)
  }

  ghost predicate Holds(items: seq<Value>, i: nat, key: string, row: Row, path: FilterPath, numbers: NumberSyntax)
    requires i < |items|
  {
    OperandValue(items, i, key, row, path, numbers) == Ok(true)
  }

  /** All operands from `index` on have a value. */
  ghost predicate AllEvaluate(
      items: seq<Value>, index: nat, key: string, row: Row, path: FilterPath, numbers: NumberSyntax)
  {
    forall i :: index <= i < |items| ==> OperandValue(items, i, key, row, path, numbers).Ok?
  }

  /** The operand at `i` is the first from `index` on without one. */
  ghost predicate FirstFailure(
      items: seq<Value>, index: nat, i: nat, key: string, row: Row, path: FilterPath, numbers: NumberSyntax)
  {
    index <= i < |items| && OperandValue(items, i, key, row, path, numbers).Err?
    && forall j :: index <= j < i ==> OperandValue(items, j, key, row, path, numbers).Ok?
  }

  /**
   * `and` holds when every operand does, `or` when some operand does, and `not` when some operand does
   * not; if an operand has no value, the error is that of the first such operand, whatever the others say.
   */
  lemma OperatorMeaning(fields: Object, row: Row, path: FilterPath, numbers: NumberSyntax)
    requires fields != [] && fields[0].value.Arr?
    requires fields[0].key == "and" || fields[0].key == "or" || fields[0].key == "not"
    ensures var items, key := fields[0].value.items, fields[0].key;
            var r := EvaluateNode(Obj(fields), row, path, numbers);
            && (AllEvaluate(items, 0, key, row, path, numbers) ==>
                  && r.Ok?
                  && (key == "and" ==>
                        (r.value <==> forall i :: 0 <= i < |items| ==> Holds(items, i, key, row, path, numbers)))
                  && (key == "or" ==>
                        (r.value <==> exists i :: 0 <= i < |items| && Holds(items, i, key, row, path, numbers)))
                  && (key == "not" ==>
                        (r.value <==> exists i :: 0 <= i < |items| && !Holds(items, i, key, row, path, numbers))))
            && forall i :: FirstFailure(items, 0, i, key, row, path, numbers) ==>
                 r == Err(OperandValue(items, i, key, row, path, numbers).error)
  {
    hide EvaluateNode, EvaluateOperands, Holds, AllEvaluate, FirstFailure;
    var items, key := fields[0].value.items, fields[0].key;
    KeysApart();
    NodeUnfolds(fields, row, path, numbers);
    OperandsMean(items, 0, key, key != "or", row, path, numbers);
  }

  lemma KeysApart()
    ensures "and" != "or" && "and" != "not" && "or" != "not"
  {
    assert "and"[0] == 'a' && "or"[0] == 'o' && "not"[0] == 'n';
  }

  lemma NodeUnfolds(fields: Object, row: Row, path: FilterPath, numbers: NumberSyntax)
    requires fields != [] && fields[0].value.Arr? && IsOperator(fields[0].key)
    ensures EvaluateNode(Obj(fields), row, path, numbers)
            == EvaluateOperands(fields[0].value.items, 0, fields[0].key, fields[0].key != "or", row, path, numbers)
  {
    hide EvaluateOperands;
  }

  lemma {:induction false} OperandsMean(
      items: seq<Value>, index: nat, key: string, acc: bool, row: Row, path: FilterPath, numbers: NumberSyntax)
    requires index <= |items| && (key == "and" || key == "or" || key == "not")
    ensures var r := EvaluateOperands(items, index, key, acc, row, path, numbers);
            && (AllEvaluate(items, index, key, row, path, numbers) ==>
                  && r.Ok?
                  && (key == "and" ==>
                        (r.value <==>
                         acc && forall i :: index <= i < |items| ==> Holds(items, i, key, row, path, numbers)))
                  && (key == "or" ==>
                        (r.value <==>
                         acc || exists i :: index <= i < |items| && Holds(items, i, key, row, path, numbers)))
                  && (key == "not" ==>
                        (r.value <==>
                         !acc || exists i :: index <= i < |items| && !Holds(items, i, key, row, path, numbers))))
            && forall i :: FirstFailure(items, index, i, key, row, path, numbers) ==>
                 r == Err(OperandValue(items, i, key, row, path, numbers).error)
    decreases |items| - index
  {
    KeysApart();
    if index < |items| {
      var value := OperandValue(items, index, key, row, path, numbers);
      if value.Ok? {
        OperandsMean(items, index + 1, key, Combine(key, acc, value.value), row, path, numbers);
        assert Holds(items, index, key, row, path, numbers) <==> value.value;
        forall i | FirstFailure(items, index, i, key, row, path, numbers)
          ensures FirstFailure(items, index + 1, i, key, row, path, numbers)
        {
          assert i != index;
        }
      }
    }
  }

  /** What a node that is no filter reports, and where; only an object's first field counts. */
  lemma MalformedNodes(node: Value, row: Row, path: FilterPath, numbers: NumberSyntax)
    ensures var r := EvaluateNode(node, row, path, numbers);
            && (r == Err(MalformedDefinition(path, NotStringOrObject)) <==> !node.Str? && !node.Obj?)
            && (node == Obj([]) ==> r == Err(MalformedDefinition(path, EmptyObject)))
            && (node.Obj? && node.fields != [] ==>
                  var key, operands := node.fields[0].key, node.fields[0].value;
                  && (!operands.Arr? ==> r == Err(MalformedDefinition(Section(path, key), OperandsNotArray)))
                  && (operands.Arr? && key != "and" && key != "or" && key != "not" ==>
                        r == Err(MalformedDefinition(path, UnknownOperator(key)))))
            && (node.Str? ==> r == FilterExpression.EvaluateExpression(node.s, row, path, numbers))
  {
    if node.Obj? && node.fields != [] && node.fields[0].value.Arr? && IsOperator(node.fields[0].key) {
      var fields := node.fields;
      ErrorsComeFromBelow(fields[0].value.items, 0, fields[0].key, fields[0].key != "or", row, path, numbers);
    }
  }

  /** Whether an error names this place or one above it: operands report under longer paths. */
  function Depth(path: FilterPath): nat {
    match path
    case Root => 0
    case Section(parent, _) => 1 + Depth(parent)
    case Operand(parent, _, _) => 1 + Depth(parent)
  }

  lemma {:induction false} ErrorsComeFromBelow(
      items: seq<Value>, index: nat, key: string, acc: bool, row: Row, path: FilterPath, numbers: NumberSyntax)
    requires index <= |items|
    ensures var r := EvaluateOperands(items, index, key, acc, row, path, numbers);
            r.Err? && r.error.MalformedDefinition? ==> Depth(r.error.path) > Depth(path)
    decreases items, 1 + |items| - index
  {
    if index < |items| {
      var at := Operand(path, key, index);
      NodeErrorsAreBelow(items[index], row, at, numbers);
      var value := EvaluateNode(items[index], row, at, numbers);
      if value.Ok? {
        ErrorsComeFromBelow(items, index + 1, key, Combine(key, acc, value.value), row, path, numbers);
      }
    }
  }

  lemma {:induction false} NodeErrorsAreBelow(node: Value, row: Row, path: FilterPath, numbers: NumberSyntax)
    ensures var r := EvaluateNode(node, row, path, numbers);
            r.Err? && r.error.MalformedDefinition? ==> Depth(r.error.path) >= Depth(path)
    decreases node, 0
  {
    if node.Obj? && node.fields != [] && node.fields[0].value.Arr? && IsOperator(node.fields[0].key) {
      var fields := node.fields;
      ErrorsComeFromBelow(fields[0].value.items, 0, fields[0].key, fields[0].key != "or", row, path, numbers);
    }
  }

  // ---------- hints ----------

  /**
   * The hint of a tree, from its operands' hints: an `and` has the first hint among them, an `or` the hint
   * they all share, a `not` none, and a string its own.
   */
  lemma HintMeaning(fields: Object)
    requires fields != [] && fields[0].value.Arr?
    ensures var items, key, hint := fields[0].value.items, fields[0].key, RootHint(Obj(fields));
            && (key == "and" ==>
                  && (forall i :: FirstHinted(items, i) ==> hint == RootHint(items[i]))
                  && ((forall i :: 0 <= i < |items| ==> RootHint(items[i]).NoHint?) ==> hint.NoHint?))
            && (key == "or" ==>
                  && (items != [] && (forall i :: 0 <= i < |items| ==> RootHint(items[i]) == RootHint(items[0])) ==>
                        hint == RootHint(items[0]))
                  && (!hint.NoHint? ==> items != [] && forall i :: 0 <= i < |items| ==> RootHint(items[i]) == hint))
            && (key != "and" && key != "or" ==> hint.NoHint?)
  {
    hide FilterExpression.MergeOrHints;
    var items := fields[0].value.items;
    KeysApart();
    if fields[0].key == "and" {
      FirstHintIs(items);
    } else if fields[0].key == "or" {
      var hints := OperandHints(items);
      forall i | 0 <= i < |items| ensures hints[i] in hints && hints[i] == RootHint(items[i]) {
      }
      if items != [] && forall i :: 0 <= i < |items| ==> RootHint(items[i]) == RootHint(items[0]) {
        assert forall h :: h in hints ==> h == hints[0];
      }
    }
  }

  /** The operand at `i` is the first with a hint. */
  ghost predicate FirstHinted(items: seq<Value>, i: int) {
    0 <= i < |items| && !RootHint(items[i]).NoHint? && forall j :: 0 <= j < i ==> RootHint(items[j]).NoHint?
  }

  lemma {:induction false} FirstHintIs(items: seq<Value>)
    ensures forall i :: FirstHinted(items, i) ==> FirstHint(items) == RootHint(items[i])
    ensures (forall i :: 0 <= i < |items| ==> RootHint(items[i]).NoHint?) ==> FirstHint(items).NoHint?
    decreases |items|
  {
    if items != [] {
      FirstHintIs(items[1..]);
      assert forall i :: 1 <= i < |items| ==> items[1..][i - 1] == items[i];
      forall i | FirstHinted(items, i) ensures FirstHint(items) == RootHint(items[i]) {
        if i > 0 {
          assert RootHint(items[0]).NoHint?;
          assert FirstHinted(items[1..], i - 1);
        }
      }
    }
  }

  // ---------- diagnostics ----------

  /**
   * What validation reports about a node itself, and where. A node with one operator and no operands is
   * silent, and one more operand adds that operand's own report, under its own place, at the end.
   */
  lemma ReportMeaning(node: Value, path: FilterPath)
    ensures var report := FilterDiagnostics(node, path);
            && (!node.Str? && !node.Obj? ==> report == [Diagnostic(path, NotExpressionOrObject)])
            && (node.Str? ==> report == if node.s == "" then [Diagnostic(path, EmptyExpression)] else [])
            && (node.Obj? && |node.fields| != 1 ==> report == [Diagnostic(path, NotExactlyOneOperator)])
            && (node.Obj? && |node.fields| == 1 ==>
                  var key, operands := node.fields[0].key, node.fields[0].value;
                  if key != "and" && key != "or" && key != "not" then report == [Diagnostic(path, UnknownKey)]
                  else if !operands.Arr? then report == [Diagnostic(Section(path, key), OperandsMustBeArray)]
                  else if operands.items == [] then report == []
                  else
                    var n := |operands.items| - 1;
                    report == FilterDiagnostics(Obj([Field(key, Arr(operands.items[..n]))]), path)
                              + FilterDiagnostics(operands.items[n], Operand(path, key, n)))
  {
    if node.Obj? && |node.fields| == 1 && node.fields[0].value.Arr? && node.fields[0].value.items != [] {
      var items := node.fields[0].value.items;
      OperandPrefix(items, items[..|items| - 1], |items| - 1, node.fields[0].key, path);
    }
  }

  lemma {:induction false} OperandPrefix(
      items: seq<Value>, shorter: seq<Value>, count: nat, key: string, path: FilterPath)
    requires count <= |shorter| && shorter <= items
    ensures OperandDiagnostics(items, count, key, path) == OperandDiagnostics(shorter, count, key, path)
    decreases count
  {
    hide FilterDiagnostics;
    if count > 0 {
      assert items[count - 1] == shorter[count - 1];
      OperandPrefix(items, shorter, count - 1, key, path);
    }
  }

  /** Without filters every row matches, and nothing narrows the scan. */
  lemma NoFiltersMatchAll(row: Row, numbers: NumberSyntax)
    ensures EvaluateFilters(None, row, numbers) == Ok(true) && ScanRootHintOf(None) == NoHint
    ensures forall node :: EvaluateFilters(Some(node), row, numbers) == EvaluateNode(node, row, Root, numbers)
    ensures forall node :: ScanRootHintOf(Some(node)) == RootHint(node)
  {
  }
}
