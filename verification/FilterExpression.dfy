/**
 * The `&&` / `||` / `!` / `(...)` grammar of one filter string: two recursive-descent walkers over
 * the same text, one computing a Boolean and one computing a scan-root hint. The functions say what
 * each walker returns from a given cursor position; the cursor class is the walkers themselves.
 */
module FilterExpression {
  import opened Text
  import opened FilterLeaf

  predicate StartsAt(text: string, pos: nat, token: string)
    requires pos <= |text|
  {
    token <= text[pos..]
  }

  function SkipSpaces(text: string, pos: nat): (r: nat)
    requires pos <= |text|
    ensures pos <= r <= |text|
    ensures forall i :: pos <= i < r ==> IsAsciiWhitespace(text[i])
    ensures r < |text| ==> !IsAsciiWhitespace(text[r])
    decreases |text| - pos
  {
    if pos < |text| && IsAsciiWhitespace(text[pos]) then SkipSpaces(text, pos + 1) else pos
  }

  /** Where a leaf that has been scanned up to `pos`, at this nesting and inside this quote, ends. */
  function LeafEnd(text: string, pos: nat, depth: nat, quote: Option<char>): (r: nat)
    requires pos <= |text|
    ensures pos <= r <= |text|
    decreases |text| - pos
  {
    if pos == |text| then pos
    else
      var c := text[pos];
      match quote
      case Some(open) => LeafEnd(text, pos + 1, depth, if c == open then None else quote)
      case None =>
        if c == '"' || c == '\'' then LeafEnd(text, pos + 1, depth, Some(c))
        else if c == '(' then LeafEnd(text, pos + 1, depth + 1, None)
        else if c == ')' then if depth == 0 then pos else LeafEnd(text, pos + 1, depth - 1, None)
        else if depth == 0 && (StartsAt(text, pos, "&&") || StartsAt(text, pos, "||")) then pos
        else LeafEnd(text, pos + 1, depth, None)
  }

  /** A walker's outcome: a value and the position after it, or the first error. */
  datatype Step = Ok(value: bool, pos: nat) | Err(error: FilterError)

  /** A walker stays inside the text, and never blames the definition for an error of the grammar. */
  ghost predicate InRange(s: Step, text: string, from: nat) {
    match s
    case Ok(_, next) => from <= next <= |text|
    case Err(error) => !error.MalformedDefinition?
  }

  function EvalOr(text: string, pos: nat, row: Row, path: FilterPath, numbers: NumberSyntax): (r: Step)
    requires pos <= |text|
    ensures InRange(r, text, pos)
    decreases |text| - pos, 6
  {
    match EvalAnd(text, pos, row, path, numbers)
    case Err(error) => Step.Err(error)
    case Ok(value, next) => EvalOrTail(text, next, value, row, path, numbers)
  }

  function EvalOrTail(text: string, pos: nat, acc: bool, row: Row, path: FilterPath, numbers: NumberSyntax): (r: Step)
    requires pos <= |text|
    ensures InRange(r, text, pos)
    decreases |text| - pos, 5
  {
    var at := SkipSpaces(text, pos);
    if !StartsAt(text, at, "||") then Step.Ok(acc, at)
    else match EvalAnd(text, at + 2, row, path, numbers)
      case Err(error) => Step.Err(error)
      case Ok(value, next) => EvalOrTail(text, next, acc || value, row, path, numbers)
  }

  function EvalAnd(text: string, pos: nat, row: Row, path: FilterPath, numbers: NumberSyntax): (r: Step)
    requires pos <= |text|
    ensures InRange(r, text, pos)
    decreases |text| - pos, 4
  {
    match EvalNot(text, pos, row, path, numbers)
    case Err(error) => Step.Err(error)
    case Ok(value, next) => EvalAndTail(text, next, value, row, path, numbers)
  }

  function EvalAndTail(text: string, pos: nat, acc: bool, row: Row, path: FilterPath, numbers: NumberSyntax): (r: Step)
    requires pos <= |text|
    ensures InRange(r, text, pos)
    decreases |text| - pos, 3
  {
    var at := SkipSpaces(text, pos);
    if !StartsAt(text, at, "&&") then Step.Ok(acc, at)
    else match EvalNot(text, at + 2, row, path, numbers)
      case Err(error) => Step.Err(error)
      case Ok(value, next) => EvalAndTail(text, next, acc && value, row, path, numbers)
  }

  /** A bare `!` negates; `!=` belongs to a comparison leaf. */
  predicate NegatesAt(text: string, pos: nat)
    requires pos <= |text|
  {
    StartsAt(text, pos, "!") && !StartsAt(text, pos, "!=")
  }

  function EvalNot(text: string, pos: nat, row: Row, path: FilterPath, numbers: NumberSyntax): (r: Step)
    requires pos <= |text|
    ensures InRange(r, text, pos)
    decreases |text| - pos, 2
  {
    var at := SkipSpaces(text, pos);
    if NegatesAt(text, at) then
      match EvalNot(text, at + 1, row, path, numbers)
      case Err(error) => Step.Err(error)
      case Ok(value, next) => Step.Ok(!value, next)
    else EvalPrimary(text, at, row, path, numbers)
  }

  function EvalPrimary(text: string, pos: nat, row: Row, path: FilterPath, numbers: NumberSyntax): (r: Step)
    requires pos <= |text|
    ensures InRange(r, text, pos)
    decreases |text| - pos, 1
  {
    var at := SkipSpaces(text, pos);
    if StartsAt(text, at, "(") then
      match EvalOr(text, at + 1, row, path, numbers)
      case Err(error) => Step.Err(error)
      case Ok(value, next) =>
        var close := SkipSpaces(text, next);
        if StartsAt(text, close, ")") then Step.Ok(value, close + 1)
        else Step.Err(UnsupportedFilterExpression(path, Trim(text)))
    else
      var end := LeafEnd(text, at, 0, None);
      match EvaluateLeaf(Trim(text[at..end]), row, path, numbers)
      case Err(error) => Step.Err(error)
      case Ok(value) => Step.Ok(value, end)
  }

  function EvaluateExpression(expr: string, row: Row, path: FilterPath, numbers: NumberSyntax): (r: Result<bool>)
    ensures r.Err? ==> !r.error.MalformedDefinition?
  {
    match EvalOr(expr, 0, row, path, numbers)
    case Err(error) => Result.Err(error)
    case Ok(value, next) =>
      if SkipSpaces(expr, next) == |expr| then Result.Ok(value)
      else Result.Err(UnsupportedFilterExpression(path, Trim(expr)))
  }

  lemma OperatorFits(text: string, pos: nat, operator: string)
    requires pos <= |text| && StartsAt(text, pos, operator)
    ensures pos + |operator| <= |text|
  {
  }

  /** Both loops, from their first operand to their last. */
  lemma LoopsUnfold(text: string, pos: nat, row: Row, path: FilterPath, numbers: NumberSyntax)
    requires pos <= |text|
    ensures EvalOr(text, pos, row, path, numbers)
            == match EvalAnd(text, pos, row, path, numbers)
               case Err(error) => Step.Err(error)
               case Ok(value, next) => EvalOrTail(text, next, value, row, path, numbers)
    ensures EvalAnd(text, pos, row, path, numbers)
            == match EvalNot(text, pos, row, path, numbers)
               case Err(error) => Step.Err(error)
               case Ok(value, next) => EvalAndTail(text, next, value, row, path, numbers)
  {
    hide EvalNot, EvalAndTail, EvalOrTail;
  }

  lemma LoopsEnd(text: string, pos: nat, acc: bool, row: Row, path: FilterPath, numbers: NumberSyntax)
    requires pos <= |text|
    ensures !StartsAt(text, SkipSpaces(text, pos), "||") ==>
              EvalOrTail(text, pos, acc, row, path, numbers) == Step.Ok(acc, SkipSpaces(text, pos))
    ensures !StartsAt(text, SkipSpaces(text, pos), "&&") ==>
              EvalAndTail(text, pos, acc, row, path, numbers) == Step.Ok(acc, SkipSpaces(text, pos))
  {
    hide EvalNot, EvalAnd, SkipSpaces, StartsAt;
  }

  /** One round of the `||` loop. */
  lemma EvalOrTailUnfolds(text: string, pos: nat, acc: bool, row: Row, path: FilterPath, numbers: NumberSyntax)
    requires pos <= |text| && StartsAt(text, SkipSpaces(text, pos), "||")
    ensures EvalOrTail(text, pos, acc, row, path, numbers)
            == match EvalAnd(text, SkipSpaces(text, pos) + 2, row, path, numbers)
               case Err(error) => Step.Err(error)
               case Ok(value, next) => EvalOrTail(text, next, acc || value, row, path, numbers)
  {
  }

  /** One round of the `&&` loop. */
  lemma EvalAndTailUnfolds(text: string, pos: nat, acc: bool, row: Row, path: FilterPath, numbers: NumberSyntax)
    requires pos <= |text| && StartsAt(text, SkipSpaces(text, pos), "&&")
    ensures EvalAndTail(text, pos, acc, row, path, numbers)
            == match EvalNot(text, SkipSpaces(text, pos) + 2, row, path, numbers)
               case Err(error) => Step.Err(error)
               case Ok(value, next) => EvalAndTail(text, next, acc && value, row, path, numbers)
  {
  }

  /** The hint walker's outcome. It has no errors: it stops wherever it stops. */
  datatype HintStep = HintStep(hint: ScanRootHint, pos: nat)

  /** An `or` is bounded only when every operand carries the same hint. */
  function MergeOrHints(hints: seq<ScanRootHint>): (r: ScanRootHint)
    ensures !r.NoHint? ==> hints != [] && forall h :: h in hints ==> h == r
    ensures hints != [] && (forall h :: h in hints ==> h == hints[0]) ==> r == hints[0]
  {
    if hints != [] && forall h :: h in hints ==> h == hints[0] then hints[0] else NoHint
  }

  function HintOr(text: string, pos: nat): (r: HintStep)
    requires pos <= |text|
    ensures pos <= r.pos <= |text|
    decreases |text| - pos, 6
  {
    var first := HintAnd(text, pos);
    HintOrTail(text, first.pos, [first.hint])
  }

  function HintOrTail(text: string, pos: nat, hints: seq<ScanRootHint>): (r: HintStep)
    requires pos <= |text|
    ensures pos <= r.pos <= |text|
    decreases |text| - pos, 5
  {
    var at := SkipSpaces(text, pos);
    if !StartsAt(text, at, "||") then HintStep(MergeOrHints(hints), at)
    else
      var next := HintAnd(text, at + 2);
      HintOrTail(text, next.pos, hints + [next.hint])
  }

  function HintAnd(text: string, pos: nat): (r: HintStep)
    requires pos <= |text|
    ensures pos <= r.pos <= |text|
    decreases |text| - pos, 4
  {
    var first := HintNot(text, pos);
    HintAndTail(text, first.pos, first.hint)
  }

  function HintAndTail(text: string, pos: nat, acc: ScanRootHint): (r: HintStep)
    requires pos <= |text|
    ensures pos <= r.pos <= |text|
    decreases |text| - pos, 3
  {
    var at := SkipSpaces(text, pos);
    if !StartsAt(text, at, "&&") then HintStep(acc, at)
    else
      var next := HintNot(text, at + 2);
      HintAndTail(text, next.pos, if acc.NoHint? then next.hint else acc)
  }

  lemma HintAndTailUnfolds(text: string, pos: nat, acc: ScanRootHint)
    requires pos <= |text| && StartsAt(text, SkipSpaces(text, pos), "&&")
    ensures var next := HintNot(text, SkipSpaces(text, pos) + 2);
            HintAndTail(text, pos, acc) == HintAndTail(text, next.pos, if acc.NoHint? then next.hint else acc)
  {
  }

  lemma HintOrTailUnfolds(text: string, pos: nat, hints: seq<ScanRootHint>)
    requires pos <= |text| && StartsAt(text, SkipSpaces(text, pos), "||")
    ensures var next := HintAnd(text, SkipSpaces(text, pos) + 2);
            HintOrTail(text, pos, hints) == HintOrTail(text, next.pos, hints + [next.hint])
  {
  }

  function HintNot(text: string, pos: nat): (r: HintStep)
    requires pos <= |text|
    ensures pos <= r.pos <= |text|
    decreases |text| - pos, 2
  {
    var at := SkipSpaces(text, pos);
    if NegatesAt(text, at) then HintStep(NoHint, HintNot(text, at + 1).pos)
    else HintPrimary(text, at)
  }

  function HintPrimary(text: string, pos: nat): (r: HintStep)
    requires pos <= |text|
    ensures pos <= r.pos <= |text|
    decreases |text| - pos, 1
  {
    var at := SkipSpaces(text, pos);
    if StartsAt(text, at, "(") then
      var inner := HintOr(text, at + 1);
      var close := SkipSpaces(text, inner.pos);
      if StartsAt(text, close, ")") then HintStep(inner.hint, close + 1) else HintStep(NoHint, close)
    else
      var end := LeafEnd(text, at, 0, None);
      HintStep(LeafScanHint(Trim(text[at..end])), end)
  }

  function ExpressionScanHint(expr: string): ScanRootHint {
    var r := HintOr(expr, 0);
    if SkipSpaces(expr, r.pos) == |expr| then r.hint else NoHint
  }

  /** The walkers' shared cursor into one expression. */
  class ExpressionCursor {
    const text: string
    var pos: nat

    constructor (expr: string)
      ensures text == expr && pos == 0
    {
      text := expr;
      pos := 0;
    }

    ghost predicate Valid()
      reads this
    {
      pos <= |text|
    }

    /** The cursor ran from `from` and produced exactly this step. */
    ghost predicate Took(from: nat, r: Result<bool>, step: Step)
      reads this
    {
      Valid() && from <= pos
      && match step
         case Ok(value, next) => r == Result.Ok(value) && pos == next
         case Err(error) => r == Result.Err(error)
    }

    ghost predicate Hinted(from: nat, hint: ScanRootHint, step: HintStep)
      reads this
    {
      Valid() && from <= pos && hint == step.hint && pos == step.pos
    }

    method SkipWhitespace()
      requires Valid()
      modifies this
      ensures pos == SkipSpaces(text, old(pos))
    {
      while pos < |text| && IsAsciiWhitespace(text[pos])
        invariant old(pos) <= pos <= |text|
        invariant SkipSpaces(text, pos) == SkipSpaces(text, old(pos))
      {
        pos := pos + 1;
      }
    }

    method ScanLeaf() returns (leaf: string)
      requires Valid()
      modifies this
      ensures pos == LeafEnd(text, old(pos), 0, None)
      ensures leaf == text[old(pos)..pos]
    {
      var start := pos;
      var depth: nat := 0;
      var quote: Option<char> := None;
      while pos < |text|
        invariant old(pos) <= pos <= |text|
        invariant LeafEnd(text, pos, depth, quote) == LeafEnd(text, old(pos), 0, None)
      {
        var c := text[pos];
        if quote.Some? {
          if c == quote.value {
            quote := None;
          }
        } else if c == '"' || c == '\'' {
          quote := Some(c);
        } else if c == '(' {
          depth := depth + 1;
        } else if c == ')' {
          if depth == 0 {
            break;
          }
          depth := depth - 1;
        } else if depth == 0 && (StartsAt(text, pos, "&&") || StartsAt(text, pos, "||")) {
          break;
        }
        pos := pos + 1;
      }
      leaf := text[start..pos];
    }

    method ParseOr(row: Row, path: FilterPath, numbers: NumberSyntax) returns (r: Result<bool>)
      requires Valid()
      modifies this
      ensures Took(old(pos), r, EvalOr(text, old(pos), row, path, numbers))
      decreases |text| - pos, 6
    {
      hide EvalOr, EvalOrTail, EvalAnd, EvalAndTail, EvalNot, EvalPrimary, EvaluateLeaf, LeafEnd, SkipSpaces, StartsAt;
      LoopsUnfold(text, pos, row, path, numbers);
      ghost var start, goal := pos, EvalOr(text, pos, row, path, numbers);
      r := ParseAnd(row, path, numbers);
      if r.Err? {
        return;
      }
      var result := r.value;
      while true
        invariant Valid() && start <= pos
        invariant EvalOrTail(text, pos, result, row, path, numbers) == goal
        decreases |text| - pos
      {
        ghost var from := pos;
        SkipWhitespace();
        LoopsEnd(text, from, result, row, path, numbers);
        if !StartsAt(text, pos, "||") {
          return Result.Ok(result);
        }
        OperatorFits(text, pos, "||");
        pos := pos + 2;
        EvalOrTailUnfolds(text, from, result, row, path, numbers);
        r := ParseAnd(row, path, numbers);
        if r.Err? {
          return;
        }
        result := result || r.value;
      }
    }

    method ParseAnd(row: Row, path: FilterPath, numbers: NumberSyntax) returns (r: Result<bool>)
      requires Valid()
      modifies this
      ensures Took(old(pos), r, EvalAnd(text, old(pos), row, path, numbers))
      decreases |text| - pos, 4
    {
      hide EvalAnd, EvalAndTail, EvalNot, EvalPrimary, EvaluateLeaf, LeafEnd, SkipSpaces, StartsAt;
      LoopsUnfold(text, pos, row, path, numbers);
      ghost var start, goal := pos, EvalAnd(text, pos, row, path, numbers);
      r := ParseNot(row, path, numbers);
      if r.Err? {
        return;
      }
      var result := r.value;
      while true
        invariant Valid() && start <= pos
        invariant EvalAndTail(text, pos, result, row, path, numbers) == goal
        decreases |text| - pos
      {
        ghost var from := pos;
        SkipWhitespace();
        LoopsEnd(text, from, result, row, path, numbers);
        if !StartsAt(text, pos, "&&") {
          return Result.Ok(result);
        }
        OperatorFits(text, pos, "&&");
        pos := pos + 2;
        EvalAndTailUnfolds(text, from, result, row, path, numbers);
        r := ParseNot(row, path, numbers);
        if r.Err? {
          return;
        }
        result := result && r.value;
      }
    }

    method ParseNot(row: Row, path: FilterPath, numbers: NumberSyntax) returns (r: Result<bool>)
      requires Valid()
      modifies this
      ensures Took(old(pos), r, EvalNot(text, old(pos), row, path, numbers))
      decreases |text| - pos, 2
    {
      hide EvalPrimary, SkipSpaces;
      SkipWhitespace();
      if NegatesAt(text, pos) {
        pos := pos + 1;
        r := ParseNot(row, path, numbers);
        if r.Ok? {
          r := Result.Ok(!r.value);
        }
        return;
      }
      r := ParsePrimary(row, path, numbers);
    }

    method ParsePrimary(row: Row, path: FilterPath, numbers: NumberSyntax) returns (r: Result<bool>)
      requires Valid()
      modifies this
      ensures Took(old(pos), r, EvalPrimary(text, old(pos), row, path, numbers))
      decreases |text| - pos, 1
    {
      hide EvalOr, SkipSpaces, LeafEnd, EvaluateLeaf, Trim;
      SkipWhitespace();
      if StartsAt(text, pos, "(") {
        pos := pos + 1;
        r := ParseOr(row, path, numbers);
        if r.Err? {
          return;
        }
        SkipWhitespace();
        if !StartsAt(text, pos, ")") {
          return Result.Err(UnsupportedFilterExpression(path, Trim(text)));
        }
        pos := pos + 1;
        return;
      }
      var leaf := ScanLeaf();
      r := EvaluateLeaf(Trim(leaf), row, path, numbers);
    }

    method WalkOr() returns (hint: ScanRootHint)
      requires Valid()
      modifies this
      ensures Hinted(old(pos), hint, HintOr(text, old(pos)))
      decreases |text| - pos, 6
    {
      hide HintAnd, SkipSpaces, StartsAt;
      ghost var start, goal := pos, HintOr(text, pos);
      hint := WalkAnd();
      var hints := [hint];
      assert goal == HintOrTail(text, pos, hints);
      while true
        invariant Valid() && start <= pos
        invariant HintOrTail(text, pos, hints) == goal
        decreases |text| - pos
      {
        SkipWhitespace();
        if !StartsAt(text, pos, "||") {
          return MergeOrHints(hints);
        }
        pos := pos + 2;
        hint := WalkAnd();
        hints := hints + [hint];
      }
    }

    method WalkAnd() returns (hint: ScanRootHint)
      requires Valid()
      modifies this
      ensures Hinted(old(pos), hint, HintAnd(text, old(pos)))
      decreases |text| - pos, 4
    {
      hide HintNot, SkipSpaces, StartsAt;
      ghost var start, goal := pos, HintAnd(text, pos);
      var first := WalkNot();
      assert goal == HintAndTail(text, pos, first);
      while true
        invariant Valid() && start <= pos
        invariant HintAndTail(text, pos, first) == goal
        decreases |text| - pos
      {
        ghost var from := pos;
        SkipWhitespace();
        if !StartsAt(text, pos, "&&") {
          return first;
        }
        HintAndTailUnfolds(text, from, first);
        pos := pos + 2;
        var rhs := WalkNot();
        if first.NoHint? {
          first := rhs;
        }
      }
    }

    method WalkNot() returns (hint: ScanRootHint)
      requires Valid()
      modifies this
      ensures Hinted(old(pos), hint, HintNot(text, old(pos)))
      decreases |text| - pos, 2
    {
      SkipWhitespace();
      if NegatesAt(text, pos) {
        pos := pos + 1;
        var discarded := WalkNot();
        return NoHint;
      }
      hint := WalkPrimary();
    }

    method WalkPrimary() returns (hint: ScanRootHint)
      requires Valid()
      modifies this
      ensures Hinted(old(pos), hint, HintPrimary(text, old(pos)))
      decreases |text| - pos, 1
    {
      hide HintOr, SkipSpaces, LeafEnd, LeafScanHint, Trim;
      SkipWhitespace();
      if StartsAt(text, pos, "(") {
        pos := pos + 1;
        hint := WalkOr();
        SkipWhitespace();
        if !StartsAt(text, pos, ")") {
          return NoHint;
        }
        pos := pos + 1;
        return;
      }
      var leaf := ScanLeaf();
      hint := LeafScanHint(Trim(leaf));
    }
  }

  method RunExpression(expr: string, row: Row, path: FilterPath, numbers: NumberSyntax) returns (r: Result<bool>)
    ensures r == EvaluateExpression(expr, row, path, numbers)
  {
    var cursor := new ExpressionCursor(expr);
    r := cursor.ParseOr(row, path, numbers);
    if r.Err? {
      return;
    }
    cursor.SkipWhitespace();
    if cursor.pos != |expr| {
      r := Result.Err(UnsupportedFilterExpression(path, Trim(expr)));
    }
  }

  method RunScanHint(expr: string) returns (hint: ScanRootHint)
    ensures hint == ExpressionScanHint(expr)
  {
    var cursor := new ExpressionCursor(expr);
    hint := cursor.WalkOr();
    cursor.SkipWhitespace();
    if cursor.pos != |expr| {
      hint := NoHint;
    }
  }
}
