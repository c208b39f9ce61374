/** The hint walker simulates the evaluating walker, so narrowing a scan to its hint loses no match. */
module ScanHint {
  import opened Text
  import opened FilterLeaf
  import opened FilterExpression

  /** The hint walker stopped where the evaluator stopped, and its hint describes a matching row. */
  ghost predicate Simulates(h: HintStep, e: Step, row: Row) {
    e.Ok? ==> h.pos == e.pos && (e.value ==> HintHolds(h.hint, row))
  }

  lemma {:induction false} SimulateOr(text: string, pos: nat, row: Row, path: FilterPath, numbers: NumberSyntax)
    requires pos <= |text|
    ensures Simulates(HintOr(text, pos), EvalOr(text, pos, row, path, numbers), row)
    decreases |text| - pos, 6
  {
    SimulateAnd(text, pos, row, path, numbers);
    var first, hint := EvalAnd(text, pos, row, path, numbers), HintAnd(text, pos);
    if first.Ok? {
      assert [hint.hint][0] == hint.hint;
      SimulateOrTail(text, first.pos, first.value, [hint.hint], row, path, numbers);
    }
  }

  lemma {:induction false} SimulateOrTail(
      text: string, pos: nat, acc: bool, hints: seq<ScanRootHint>, row: Row, path: FilterPath, numbers: NumberSyntax)
    requires pos <= |text|
    requires acc ==> exists h :: h in hints && HintHolds(h, row)
    ensures Simulates(HintOrTail(text, pos, hints), EvalOrTail(text, pos, acc, row, path, numbers), row)
    decreases |text| - pos, 5
  {
    hide HintOrTail, EvalOrTail, EvalAnd, HintAnd, HintHolds, SkipSpaces;
    var at := SkipSpaces(text, pos);
    if StartsAt(text, at, "||") {
      SimulateAnd(text, at + 2, row, path, numbers);
      var rhs, hint := EvalAnd(text, at + 2, row, path, numbers), HintAnd(text, at + 2);
      EvalOrTailUnfolds(text, pos, acc, row, path, numbers);
      HintOrTailUnfolds(text, pos, hints);
      if rhs.Ok? {
        var longer := hints + [hint.hint];
        assert hint.hint in longer && forall h :: h in hints ==> h in longer;
        SimulateOrTail(text, rhs.pos, acc || rhs.value, longer, row, path, numbers);
      }
    } else {
      OrTailsEnd(text, pos, acc, hints, row, path, numbers);
    }
  }

  lemma OrTailsEnd(
      text: string, pos: nat, acc: bool, hints: seq<ScanRootHint>, row: Row, path: FilterPath, numbers: NumberSyntax)
    requires pos <= |text| && !StartsAt(text, SkipSpaces(text, pos), "||")
    requires acc ==> exists h :: h in hints && HintHolds(h, row)
    ensures Simulates(HintOrTail(text, pos, hints), EvalOrTail(text, pos, acc, row, path, numbers), row)
  {
    hide HintAnd, EvalAnd;
    NoHintHolds(row);
  }

  lemma {:induction false} SimulateAnd(text: string, pos: nat, row: Row, path: FilterPath, numbers: NumberSyntax)
    requires pos <= |text|
    ensures Simulates(HintAnd(text, pos), EvalAnd(text, pos, row, path, numbers), row)
    decreases |text| - pos, 4
  {
    SimulateNot(text, pos, row, path, numbers);
    var first, hint := EvalNot(text, pos, row, path, numbers), HintNot(text, pos);
    if first.Ok? {
      SimulateAndTail(text, first.pos, first.value, hint.hint, row, path, numbers);
    }
  }

  lemma {:induction false} SimulateAndTail(
      text: string, pos: nat, acc: bool, hint: ScanRootHint, row: Row, path: FilterPath, numbers: NumberSyntax)
    requires pos <= |text|
    requires acc ==> HintHolds(hint, row)
    ensures Simulates(HintAndTail(text, pos, hint), EvalAndTail(text, pos, acc, row, path, numbers), row)
    decreases |text| - pos, 3
  {
    hide HintAndTail, EvalAndTail, EvalNot, HintNot, HintHolds, SkipSpaces;
    var at := SkipSpaces(text, pos);
    if StartsAt(text, at, "&&") {
      SimulateNot(text, at + 2, row, path, numbers);
      var rhs, next := EvalNot(text, at + 2, row, path, numbers), HintNot(text, at + 2);
      EvalAndTailUnfolds(text, pos, acc, row, path, numbers);
      HintAndTailUnfolds(text, pos, hint);
      if rhs.Ok? {
        var merged := if hint.NoHint? then next.hint else hint;
        NoHintHolds(row);
        SimulateAndTail(text, rhs.pos, acc && rhs.value, merged, row, path, numbers);
      }
    } else {
      AndTailsEnd(text, pos, acc, hint, row, path, numbers);
    }
  }

  lemma NoHintHolds(row: Row)
    ensures HintHolds(NoHint, row)
  {
  }

  lemma AndTailsEnd(
      text: string, pos: nat, acc: bool, hint: ScanRootHint, row: Row, path: FilterPath, numbers: NumberSyntax)
    requires pos <= |text| && !StartsAt(text, SkipSpaces(text, pos), "&&") && (acc ==> HintHolds(hint, row))
    ensures Simulates(HintAndTail(text, pos, hint), EvalAndTail(text, pos, acc, row, path, numbers), row)
  {
    hide HintHolds;
  }

  lemma {:induction false} SimulateNot(text: string, pos: nat, row: Row, path: FilterPath, numbers: NumberSyntax)
    requires pos <= |text|
    ensures Simulates(HintNot(text, pos), EvalNot(text, pos, row, path, numbers), row)
    decreases |text| - pos, 2
  {
    var at := SkipSpaces(text, pos);
    if NegatesAt(text, at) {
      SimulateNot(text, at + 1, row, path, numbers);
    } else {
      SimulatePrimary(text, at, row, path, numbers);
    }
  }

  lemma {:induction false} SimulatePrimary(text: string, pos: nat, row: Row, path: FilterPath, numbers: NumberSyntax)
    requires pos <= |text|
    ensures Simulates(HintPrimary(text, pos), EvalPrimary(text, pos, row, path, numbers), row)
    decreases |text| - pos, 1
  {
    var at := SkipSpaces(text, pos);
    if StartsAt(text, at, "(") {
      SimulateOr(text, at + 1, row, path, numbers);
    } else {
      var leaf := Trim(text[at..LeafEnd(text, at, 0, None)]);
      if EvaluateLeaf(leaf, row, path, numbers) == Result.Ok(true) {
        LeafHintSound(leaf, row, path, numbers);
      }
    }
  }

  /** A row that a filter string matches lies inside the root the string's hint names. */
  lemma ExpressionHintSafe(expr: string, row: Row, path: FilterPath, numbers: NumberSyntax)
    requires EvaluateExpression(expr, row, path, numbers) == Result.Ok(true)
    ensures HintHolds(ExpressionScanHint(expr), row)
  {
    SimulateOr(expr, 0, row, path, numbers);
  }
}
