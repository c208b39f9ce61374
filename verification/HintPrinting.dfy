/** The hint walker follows the same precedence: a printed expression's hint is the hint of its tree. */
module HintPrinting {
  import opened Text
  import opened FilterLeaf
  import opened FilterExpression
  import opened FilterPrinting

  /** The hint of a tree: a conjunction has its first hint, a disjunction the one its operands share. */
  function TreeHint(e: Expr): ScanRootHint {
    match e
    case Leaf(ps) => LeafScanHint(Render(ps))
    case Group(x, _) => TreeHint(x)
    case Not(_, _) => NoHint
    case And(l, r, _) => if TreeHint(l).NoHint? then TreeHint(r) else TreeHint(l)
    case Or(l, r, _) => if TreeHint(l) == TreeHint(r) then TreeHint(l) else NoHint
  }

  /** The operands' hints of a disjunction, as the walker collects them. */
  function OrHints(e: Expr): (hints: seq<ScanRootHint>)
    ensures hints != []
  {
    match e
    case Or(l, r, _) => OrHints(l) + [TreeHint(r)]
    case _ => [TreeHint(e)]
  }

  lemma {:induction false} MergedIsTreeHint(e: Expr)
    ensures MergeOrHints(OrHints(e)) == TreeHint(e)
    decreases e
  {
    if e.Or? {
      MergedIsTreeHint(e.left);
      MergeOneMore(OrHints(e.left), TreeHint(e.right));
    } else {
      assert [TreeHint(e)][0] == TreeHint(e);
    }
  }

  lemma MergeOneMore(hints: seq<ScanRootHint>, last: ScanRootHint)
    requires hints != []
    ensures MergeOrHints(hints + [last]) == if MergeOrHints(hints) == last then last else NoHint
  {
    var longer := hints + [last];
    assert longer[0] == hints[0] && longer[|hints|] == last;
    if forall h :: h in longer ==> h == longer[0] {
      assert last in longer;
      forall h | h in hints ensures h == hints[0] {
        assert h in longer;
      }
    } else if forall h :: h in hints ==> h == hints[0] {
      assert forall h :: h in longer ==> h in hints || h == last;
    }
  }

  /** The walker's step yields `hint` and stands, padding aside, at the token `q`. */
  ghost predicate HintArrives(text: string, step: HintStep, hint: ScanRootHint, q: nat) {
    step.hint == hint && step.pos <= |text| && SkipSpaces(text, step.pos) == q
  }

  // ---------- one step ----------

  lemma HintLeafStep(text: string, s: nat)
    requires s <= |text|
    requires var at := SkipSpaces(text, s); at < |text| && text[at] != '(' && text[at] != '!'
    ensures var at := SkipSpaces(text, s);
            var end := LeafEnd(text, at, 0, None);
            HintNot(text, s) == HintStep(LeafScanHint(Trim(text[at..end])), end)
  {
    hide HintOr, LeafScanHint, Trim, LeafEnd;
    var at := SkipSpaces(text, s);
    TokenAt(text, at);
    SkipTwice(text, s);
    assert HintNot(text, s) == HintPrimary(text, at);
  }

  lemma HintGroupStep(text: string, s: nat)
    requires s <= |text|
    requires var at := SkipSpaces(text, s); at < |text| && text[at] == '('
    ensures var inner := HintOr(text, SkipSpaces(text, s) + 1);
            var close := SkipSpaces(text, inner.pos);
            close < |text| && text[close] == ')' ==> HintNot(text, s) == HintStep(inner.hint, close + 1)
  {
    hide HintOr, LeafScanHint, Trim, LeafEnd, SkipSpaces, StartsAt;
    var at := SkipSpaces(text, s);
    TokenAt(text, at);
    SkipTwice(text, s);
    assert HintNot(text, s) == HintPrimary(text, at);
    var inner := HintOr(text, at + 1);
    if SkipSpaces(text, inner.pos) < |text| {
      TokenAt(text, SkipSpaces(text, inner.pos));
    }
  }

  lemma HintNegationStep(text: string, s: nat)
    requires s <= |text|
    requires var at := SkipSpaces(text, s); at + 1 < |text| && text[at] == '!' && text[at + 1] != '='
    ensures HintNot(text, s) == HintStep(NoHint, HintNot(text, SkipSpaces(text, s) + 1).pos)
  {
    hide HintPrimary;
    TokenAt(text, SkipSpaces(text, s));
  }

  // ---------- operands ----------

  lemma HintLeafArrives(text: string, s: nat, e: Expr)
    requires Stands(text, s, NotLevel, e) && e.Leaf?
    requires EndsOperand(text, After(text, s, NotLevel, e))
    ensures HintArrives(text, HintNot(text, s), TreeHint(e), After(text, s, NotLevel, e))
  {
    hide SkipSpaces, LeafEnd, Render, HintNot, LeafScanHint, Trim, EndsOperand, Reads;
    var pos, leaf := SkipSpaces(text, s), Render(e.pieces);
    RenderStarts(e.pieces);
    ReadsChar(text, pos, leaf, 0);
    HintLeafStep(text, s);
    PassLeaf(text, pos, e.pieces);
    LeafStops(text, pos + |leaf|);
    LeafPadding(text, pos, leaf);
    SkipTwice(text, pos + |leaf|);
  }

  lemma {:induction false} HintParensArrive(text: string, s: nat, inner: Expr, open: string, close: string)
    requires s <= |text| && ExprOk(inner) && AllAsciiWhitespace(open) && AllAsciiWhitespace(close)
    requires Reads(text, SkipSpaces(text, s), Parenthesised(Print(OrLevel, inner), open, close))
    ensures var q := SkipSpaces(text, SkipSpaces(text, s) + |Parenthesised(Print(OrLevel, inner), open, close)|);
            HintArrives(text, HintNot(text, s), TreeHint(inner), q)
    decreases inner, Rank(OrLevel, inner), 2
  {
    hide SkipSpaces, LeafEnd, HintNot, HintOr, HintOrTail, Reads, StartsAt, Print, TreeHint, ExprOk, Parenthesised,
      AllAsciiWhitespace, IsAsciiWhitespace, MergeOrHints, OrHints;
    var pos, body := SkipSpaces(text, s), Print(OrLevel, inner);
    PrintStarts(OrLevel, inner);
    ParensStand(text, pos, body, open, close);
    var tail := pos + 1 + |open| + |body|;
    var end := tail + |close|;
    TokenAt(text, end);
    SkipTwice(text, tail);
    HintOrArrives(text, pos + 1, inner);
    HintOrTailStops(text, end, OrHints(inner));
    MergedIsTreeHint(inner);
    HintGroupStep(text, s);
  }

  lemma HintOrTailStops(text: string, close: nat, hints: seq<ScanRootHint>)
    requires close <= |text| && SkipSpaces(text, close) == close && !StartsAt(text, close, "||")
    ensures HintOrTail(text, close, hints) == HintStep(MergeOrHints(hints), close)
  {
    hide MergeOrHints;
  }

  lemma {:induction false} HintNotArrives(text: string, s: nat, e: Expr)
    requires Stands(text, s, NotLevel, e) && EndsOperand(text, After(text, s, NotLevel, e))
    ensures HintArrives(text, HintNot(text, s), TreeHint(e), After(text, s, NotLevel, e))
    decreases e, Rank(NotLevel, e), 0
  {
    hide SkipSpaces, LeafEnd, HintNot, HintOr, Reads, StartsAt, Print, ExprOk, Parenthesised, AllAsciiWhitespace,
      EndsOperand, HintArrives, LeafScanHint;
    OperandShape(e);
    match e
    case Leaf(_) => HintLeafArrives(text, s, e);
    case Group(x, g) => HintParensArrive(text, s, x, g.open, g.close);
    case And(_, _, g) => HintParensArrive(text, s, e, g.open, g.close);
    case Or(_, _, g) => HintParensArrive(text, s, e, g.open, g.close);
    case Not(x, g) => HintNegationArrives(text, s, x, g.after);
  }

  lemma {:induction false} HintNegationArrives(text: string, s: nat, x: Expr, ws: string)
    requires s <= |text| && ExprOk(x) && AllAsciiWhitespace(ws)
    requires Reads(text, SkipSpaces(text, s), "!" + (ws + Print(NotLevel, x)))
    requires EndsOperand(text, SkipSpaces(text, SkipSpaces(text, s) + |"!" + (ws + Print(NotLevel, x))|))
    ensures var q := SkipSpaces(text, SkipSpaces(text, s) + |"!" + (ws + Print(NotLevel, x))|);
            HintArrives(text, HintNot(text, s), NoHint, q)
    decreases x, Rank(NotLevel, x), 1
  {
    hide SkipSpaces, LeafEnd, HintNot, HintOr, Reads, StartsAt, Print, TreeHint, ExprOk, AllAsciiWhitespace,
      IsAsciiWhitespace, EndsOperand;
    var pos, body := SkipSpaces(text, s), Print(NotLevel, x);
    PrintStarts(NotLevel, x);
    NegationStands(text, pos, body, ws);
    HintNegationStep(text, s);
    HintNotArrives(text, pos + 1, x);
  }

  // ---------- loops ----------

  lemma HintAndFromToken(text: string, p: nat, acc: ScanRootHint)
    requires p <= |text|
    ensures HintAndTail(text, p, acc) == HintAndTail(text, SkipSpaces(text, p), acc)
  {
    hide HintNot;
    SkipTwice(text, p);
  }

  lemma HintOrFromToken(text: string, p: nat, hints: seq<ScanRootHint>)
    requires p <= |text|
    ensures HintOrTail(text, p, hints) == HintOrTail(text, SkipSpaces(text, p), hints)
  {
    hide HintAnd, MergeOrHints;
    SkipTwice(text, p);
  }

  ghost predicate HintReachesAnd(text: string, s: nat, q: nat, hint: ScanRootHint)
    requires s <= |text| && q <= |text|
  {
    HintAnd(text, s) == HintAndTail(text, q, hint)
  }

  ghost predicate HintReachesOr(text: string, s: nat, q: nat, hints: seq<ScanRootHint>)
    requires s <= |text| && q <= |text|
  {
    HintOr(text, s) == HintOrTail(text, q, hints)
  }

  lemma HintAndAdds(text: string, s: nat, at: nat, q: nat, l: ScanRootHint, r: ScanRootHint)
    requires s <= |text| && at + 2 <= |text| && SkipSpaces(text, at) == at && StartsAt(text, at, "&&") && q <= |text|
    requires HintReachesAnd(text, s, at, l) && HintArrives(text, HintNot(text, at + 2), r, q)
    ensures HintReachesAnd(text, s, q, if l.NoHint? then r else l)
  {
    hide SkipSpaces, StartsAt, HintAnd, HintNot, HintAndTail;
    HintAndTailUnfolds(text, at, l);
    HintAndFromToken(text, HintNot(text, at + 2).pos, if l.NoHint? then r else l);
  }

  lemma HintOrAdds(text: string, s: nat, at: nat, q: nat, hints: seq<ScanRootHint>, r: ScanRootHint)
    requires s <= |text| && at + 2 <= |text| && SkipSpaces(text, at) == at && StartsAt(text, at, "||") && q <= |text|
    requires HintReachesOr(text, s, at, hints) && HintArrives(text, HintAnd(text, at + 2), r, q)
    ensures HintReachesOr(text, s, q, hints + [r])
  {
    hide SkipSpaces, StartsAt, HintOr, HintAnd, HintOrTail;
    HintOrTailUnfolds(text, at, hints);
    HintOrFromToken(text, HintAnd(text, at + 2).pos, hints + [r]);
  }

  lemma HintAndWithoutLoop(text: string, s: nat, q: nat, hint: ScanRootHint)
    requires s <= |text| && q <= |text| && HintArrives(text, HintNot(text, s), hint, q)
    ensures HintReachesAnd(text, s, q, hint)
  {
    hide SkipSpaces, HintNot, HintAndTail;
    HintAndFromToken(text, HintNot(text, s).pos, hint);
  }

  /** Where no `&&` follows, the conjunction loop ends at once. */
  lemma HintAndEnds(text: string, s: nat, q: nat, hint: ScanRootHint)
    requires s <= |text| && q <= |text| && SkipSpaces(text, q) == q && !StartsAt(text, q, "&&")
    requires HintReachesAnd(text, s, q, hint)
    ensures HintArrives(text, HintAnd(text, s), hint, q) && HintReachesOr(text, s, q, [hint])
  {
    hide SkipSpaces, StartsAt, HintAnd, HintNot, HintOrTail;
    assert HintAndTail(text, q, hint) == HintStep(hint, q);
  }

  lemma {:induction false} HintAndArrives(text: string, s: nat, e: Expr)
    requires Stands(text, s, AndLevel, e) && EndsOperand(text, After(text, s, AndLevel, e))
    ensures HintReachesAnd(text, s, After(text, s, AndLevel, e), TreeHint(e))
    decreases e, Rank(AndLevel, e), 0
  {
    hide SkipSpaces, HintNot, HintAnd, HintAndTail, Reads, StartsAt, Print, ExprOk, Infix, AllAsciiWhitespace,
      IsAsciiWhitespace, HintReachesAnd, HintArrives, EndsOperand, LeafScanHint;
    var pos, q := SkipSpaces(text, s), After(text, s, AndLevel, e);
    SamePrint(e);
    if e.And? {
      AndShape(e);
      var left, right := Print(AndLevel, e.left), Print(NotLevel, e.right);
      PrintStarts(NotLevel, e.right);
      InfixStands(text, pos, left, e.gaps.before, "&&", e.gaps.after, right);
      var at := pos + |left| + |e.gaps.before|;
      HintAndArrives(text, s, e.left);
      HintNotArrives(text, at + 2, e.right);
      HintAndAdds(text, s, at, q, TreeHint(e.left), TreeHint(e.right));
    } else {
      HintNotArrives(text, s, e);
      HintAndWithoutLoop(text, s, q, TreeHint(e));
    }
  }

  lemma {:induction false} HintOrArrives(text: string, s: nat, e: Expr)
    requires Stands(text, s, OrLevel, e)
    requires var q := After(text, s, OrLevel, e); EndsOperand(text, q) && !StartsAt(text, q, "&&")
    ensures HintReachesOr(text, s, After(text, s, OrLevel, e), OrHints(e))
    decreases e, Rank(OrLevel, e), 1
  {
    hide SkipSpaces, HintOr, HintAnd, HintAndTail, HintOrTail, Reads, StartsAt, Print, TreeHint, ExprOk, Infix,
      AllAsciiWhitespace, IsAsciiWhitespace, HintReachesAnd, HintReachesOr, HintArrives, EndsOperand;
    var pos, q := SkipSpaces(text, s), After(text, s, OrLevel, e);
    SkipTwice(text, pos + |Print(OrLevel, e)|);
    if e.Or? {
      OrShape(e);
      var left, right := Print(OrLevel, e.left), Print(AndLevel, e.right);
      PrintStarts(AndLevel, e.right);
      InfixStands(text, pos, left, e.gaps.before, "||", e.gaps.after, right);
      var at := pos + |left| + |e.gaps.before|;
      HintOrArrives(text, s, e.left);
      HintAndArrives(text, at + 2, e.right);
      HintAndEnds(text, at + 2, q, TreeHint(e.right));
      HintOrAdds(text, s, at, q, OrHints(e.left), TreeHint(e.right));
    } else {
      HintLoneOperandArrives(text, s, e);
    }
  }

  lemma {:induction false} HintLoneOperandArrives(text: string, s: nat, e: Expr)
    requires Stands(text, s, OrLevel, e) && !e.Or?
    requires var q := After(text, s, OrLevel, e); EndsOperand(text, q) && !StartsAt(text, q, "&&")
    ensures HintReachesOr(text, s, After(text, s, OrLevel, e), [TreeHint(e)])
    decreases e, Rank(OrLevel, e), 0
  {
    hide SkipSpaces, HintOr, HintAnd, HintAndTail, HintOrTail, Reads, StartsAt, Print, TreeHint, ExprOk,
      HintReachesAnd, HintReachesOr, HintArrives, EndsOperand;
    SamePrint(e);
    SkipTwice(text, SkipSpaces(text, s) + |Print(OrLevel, e)|);
    HintAndArrives(text, s, e);
    HintAndEnds(text, s, After(text, s, OrLevel, e), TreeHint(e));
  }

  /** Printing a tree, padding of its own at every token, and walking the text for a hint gives the tree's hint. */
  lemma PrintedExpressionHints(e: Expr, lead: string, trail: string)
    requires ExprOk(e) && AllAsciiWhitespace(lead) && AllAsciiWhitespace(trail)
    ensures ExpressionScanHint(lead + Print(OrLevel, e) + trail) == TreeHint(e)
  {
    hide SkipSpaces, HintOr, HintOrTail, Print, TreeHint, ExprOk, Trim, IsAsciiWhitespace, MergeOrHints, OrHints;
    var body := Print(OrLevel, e);
    var text := lead + body + trail;
    assert Reads(text, 0, lead) && Reads(text, |lead|, body) && Reads(text, |lead| + |body|, trail);
    PrintStarts(OrLevel, e);
    ReadsChar(text, |lead|, body, 0);
    SkipPadding(text, 0, lead);
    SkipPadding(text, |lead| + |body|, trail);
    EndOfText(text);
    SkipAtToken(text, |lead|);
    HintOrArrives(text, 0, e);
    HintOrTailStops(text, |text|, OrHints(e));
    MergedIsTreeHint(e);
  }

  lemma EndOfText(text: string)
    ensures SkipSpaces(text, |text|) == |text| && !StartsAt(text, |text|, "||") && !StartsAt(text, |text|, "&&")
    ensures EndsOperand(text, |text|)
  {
  }
}
