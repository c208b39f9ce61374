/** Whether a filter string is accepted, and where parsing stops, never depends on the row's data. */
module FilterUniformity {
  import opened Text
  import opened FilterLeaf
  import opened FilterExpression

  /** Same position on success, same error otherwise; the Boolean may differ. */
  ghost predicate SameCourse(a: Step, b: Step) {
    match a
    case Ok(_, next) => b.Ok? && b.pos == next
    case Err(error) => b == Step.Err(error)
  }

  lemma {:induction false} SameOr(text: string, pos: nat, row: Row, other: Row, path: FilterPath, numbers: NumberSyntax)
    requires pos <= |text|
    ensures SameCourse(EvalOr(text, pos, row, path, numbers), EvalOr(text, pos, other, path, numbers))
    decreases |text| - pos, 6
  {
    SameAnd(text, pos, row, other, path, numbers);
    var a, b := EvalAnd(text, pos, row, path, numbers), EvalAnd(text, pos, other, path, numbers);
    if a.Ok? {
      SameOrTail(text, a.pos, a.value, b.value, row, other, path, numbers);
    }
  }

  lemma {:induction false} SameOrTail(
      text: string, pos: nat, acc: bool, otherAcc: bool, row: Row, other: Row, path: FilterPath, numbers: NumberSyntax)
    requires pos <= |text|
    ensures SameCourse(EvalOrTail(text, pos, acc, row, path, numbers),
                       EvalOrTail(text, pos, otherAcc, other, path, numbers))
    decreases |text| - pos, 5
  {
    var at := SkipSpaces(text, pos);
    if StartsAt(text, at, "||") {
      SameAnd(text, at + 2, row, other, path, numbers);
      var a, b := EvalAnd(text, at + 2, row, path, numbers), EvalAnd(text, at + 2, other, path, numbers);
      if a.Ok? {
        SameOrTail(text, a.pos, acc || a.value, otherAcc || b.value, row, other, path, numbers);
      }
    }
  }

  lemma {:induction false} SameAnd(text: string, pos: nat, row: Row, other: Row, path: FilterPath,
    numbers: NumberSyntax)
    requires pos <= |text|
    ensures SameCourse(EvalAnd(text, pos, row, path, numbers), EvalAnd(text, pos, other, path, numbers))
    decreases |text| - pos, 4
  {
    SameNot(text, pos, row, other, path, numbers);
    var a, b := EvalNot(text, pos, row, path, numbers), EvalNot(text, pos, other, path, numbers);
    if a.Ok? {
      SameAndTail(text, a.pos, a.value, b.value, row, other, path, numbers);
    }
  }

  lemma {:induction false} SameAndTail(
      text: string, pos: nat, acc: bool, otherAcc: bool, row: Row, other: Row, path: FilterPath, numbers: NumberSyntax)
    requires pos <= |text|
    ensures SameCourse(EvalAndTail(text, pos, acc, row, path, numbers),
                       EvalAndTail(text, pos, otherAcc, other, path, numbers))
    decreases |text| - pos, 3
  {
    var at := SkipSpaces(text, pos);
    if StartsAt(text, at, "&&") {
      SameNot(text, at + 2, row, other, path, numbers);
      var a, b := EvalNot(text, at + 2, row, path, numbers), EvalNot(text, at + 2, other, path, numbers);
      if a.Ok? {
        SameAndTail(text, a.pos, acc && a.value, otherAcc && b.value, row, other, path, numbers);
      }
    }
  }

  lemma {:induction false} SameNot(text: string, pos: nat, row: Row, other: Row, path: FilterPath,
    numbers: NumberSyntax)
    requires pos <= |text|
    ensures SameCourse(EvalNot(text, pos, row, path, numbers), EvalNot(text, pos, other, path, numbers))
    decreases |text| - pos, 2
  {
    var at := SkipSpaces(text, pos);
    if NegatesAt(text, at) {
      SameNot(text, at + 1, row, other, path, numbers);
    } else {
      SamePrimary(text, at, row, other, path, numbers);
    }
  }

  lemma {:induction false} SamePrimary(text: string, pos: nat, row: Row, other: Row, path: FilterPath,
    numbers: NumberSyntax)
    requires pos <= |text|
    ensures SameCourse(EvalPrimary(text, pos, row, path, numbers), EvalPrimary(text, pos, other, path, numbers))
    decreases |text| - pos, 1
  {
    var at := SkipSpaces(text, pos);
    if StartsAt(text, at, "(") {
      SameOr(text, at + 1, row, other, path, numbers);
    } else {
      LeafFailsClosed(Trim(text[at..LeafEnd(text, at, 0, None)]), row, other, path, numbers);
    }
  }

  lemma ExpressionFailsClosed(expr: string, row: Row, other: Row, path: FilterPath, numbers: NumberSyntax)
    ensures var a, b := EvaluateExpression(expr, row, path, numbers), EvaluateExpression(expr, other, path, numbers);
            a.Ok? == b.Ok? && (a.Err? ==> a == b)
  {
    SameOr(expr, 0, row, other, path, numbers);
  }
}
