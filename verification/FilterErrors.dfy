/** Unbalanced parentheses around a well-formed expression are errors that name the whole text. */
module FilterErrors {
  import opened Text
  import opened FilterLeaf
  import opened FilterExpression
  import opened FilterPrinting
  import opened HintPrinting

  /** The value of the expression, if it has one, is lost to the syntax error; an error of its own comes first. */
  function Rejected(value: Result<bool>, text: string, path: FilterPath): Result<bool> {
    if value.Err? then value else Result.Err(UnsupportedFilterExpression(path, Trim(text)))
  }

  /** Where an expression stands in a text, and that nothing before the given place ends it. */
  lemma BodyStands(text: string, from: nat, before: string, body: string, after: string, e: Expr)
    requires from <= |text| && text[from..] == before + (body + after) && body == Print(OrLevel, e)
    requires ExprOk(e) && AllAsciiWhitespace(before)
    ensures var at := from + |before|;
            SkipSpaces(text, from) == at && at + |body| + |after| == |text|
            && Reads(text, at, body) && text[at + |body|..] == after
            && Stands(text, from, OrLevel, e)
  {
    hide Print, SkipSpaces, ExprOk, AllAsciiWhitespace, IsAsciiWhitespace;
    var at := from + |before|;
    assert text[from..at] == before && text[at..at + |body|] == body && text[at + |body|..] == after;
    PrintStarts(OrLevel, e);
    ReadsChar(text, at, body, 0);
    SkipPadding(text, from, before);
    SkipAtToken(text, at);
  }

  lemma PaddingEnds(text: string, from: nat, padding: string, rest: string)
    requires from <= |text| && text[from..] == padding + rest && AllAsciiWhitespace(padding)
    requires rest == [] || !IsAsciiWhitespace(rest[0])
    ensures var q := from + |padding|;
            q <= |text| && SkipSpaces(text, from) == q && SkipSpaces(text, q) == q && text[q..] == rest
  {
    hide AllAsciiWhitespace, IsAsciiWhitespace;
    var q := from + |padding|;
    assert text[from..q] == padding && text[q..] == rest;
    SkipPadding(text, from, padding);
    if rest == [] {
      EndOfText(text);
    } else {
      assert text[q] == rest[0];
      SkipAtToken(text, q);
    }
  }

  /** An expression with a closing parenthesis too many, and text after it. */
  function Unopened(e: Expr, lead: string, trail: string, rest: string): string {
    lead + (Print(OrLevel, e) + (trail + (")" + rest)))
  }

  /** The expression stands at the start, and the parenthesis is the token after it. */
  lemma UnopenedStands(e: Expr, lead: string, trail: string, rest: string)
    requires ExprOk(e) && AllAsciiWhitespace(lead) && AllAsciiWhitespace(trail)
    ensures var text := Unopened(e, lead, trail, rest);
            && Stands(text, 0, OrLevel, e)
            && var q := After(text, 0, OrLevel, e);
               q < |text| && text[q] == ')' && SkipSpaces(text, q) == q
               && !StartsAt(text, q, "&&") && !StartsAt(text, q, "||")
  {
    hide SkipSpaces, Print, ExprOk, IsAsciiWhitespace, AllAsciiWhitespace, Reads, StartsAt;
    var body, end := Print(OrLevel, e), |lead| + |Print(OrLevel, e)|;
    var text := Unopened(e, lead, trail, rest);
    BlankIsNoParenthesis();
    assert text[0..] == text;
    BodyStands(text, 0, lead, body, trail + (")" + rest), e);
    PaddingEnds(text, end, trail, ")" + rest);
    assert text[end + |trail|] == (")" + rest)[0];
    TokenAt(text, end + |trail|);
  }

  /** It is rejected as a whole. */
  lemma UnopenedIsRejected(e: Expr, lead: string, trail: string, rest: string, row: Row, path: FilterPath,
      numbers: NumberSyntax)
    requires ExprOk(e) && AllAsciiWhitespace(lead) && AllAsciiWhitespace(trail)
    ensures var text := Unopened(e, lead, trail, rest);
            EvaluateExpression(text, row, path, numbers) == Rejected(Denote(e, row, path, numbers), text, path)
  {
    hide SkipSpaces, StartsAt, EvalOr, EvalOrTail, EvalAndTail, Unopened, Denote, Trim, Stands;
    var text := Unopened(e, lead, trail, rest);
    UnopenedStands(e, lead, trail, rest);
    OrArrives(text, 0, e, row, path, numbers);
    LoopsEnd(text, After(text, 0, OrLevel, e), true, row, path, numbers);
    LoopsEnd(text, After(text, 0, OrLevel, e), false, row, path, numbers);
  }

  /** It gives no hint. */
  lemma UnopenedHasNoHint(e: Expr, lead: string, trail: string, rest: string)
    requires ExprOk(e) && AllAsciiWhitespace(lead) && AllAsciiWhitespace(trail)
    ensures ExpressionScanHint(Unopened(e, lead, trail, rest)) == NoHint
  {
    hide SkipSpaces, StartsAt, HintOr, HintOrTail, Unopened, Stands, OrHints, MergeOrHints;
    var text := Unopened(e, lead, trail, rest);
    UnopenedStands(e, lead, trail, rest);
    HintOrArrives(text, 0, e);
    HintOrTailStops(text, After(text, 0, OrLevel, e), OrHints(e));
  }

  lemma BlankIsNoParenthesis()
    ensures !IsAsciiWhitespace(')') && !IsAsciiWhitespace('(')
  {
  }

  /** A group that is never closed. */
  function Unclosed(e: Expr, lead: string, open: string, trail: string): string {
    lead + ("(" + (open + (Print(OrLevel, e) + trail)))
  }

  /** The expression stands after the parenthesis, and the text ends after it. */
  lemma UnclosedStands(e: Expr, lead: string, open: string, trail: string)
    requires ExprOk(e) && AllAsciiWhitespace(lead) && AllAsciiWhitespace(open) && AllAsciiWhitespace(trail)
    ensures var text := Unclosed(e, lead, open, trail);
            var at := SkipSpaces(text, 0);
            && at < |text| && text[at] == '(' && Stands(text, at + 1, OrLevel, e)
            && After(text, at + 1, OrLevel, e) == |text|
  {
    hide SkipSpaces, Print, ExprOk, IsAsciiWhitespace, AllAsciiWhitespace, Reads;
    var body := Print(OrLevel, e);
    var inner := open + (body + trail);
    var text := Unclosed(e, lead, open, trail);
    BlankIsNoParenthesis();
    assert text[0..] == lead + ("(" + inner) && ("(" + inner)[0] == '(';
    PaddingEnds(text, 0, lead, "(" + inner);
    var at := |lead|;
    assert text[at] == '(' && text[at + 1..] == inner;
    BodyStands(text, at + 1, open, body, trail, e);
    assert trail + "" == trail;
    PaddingEnds(text, at + 1 + |open| + |body|, trail, "");
  }

  /** It is rejected as a whole. */
  lemma UnclosedIsRejected(e: Expr, lead: string, open: string, trail: string, row: Row, path: FilterPath,
      numbers: NumberSyntax)
    requires ExprOk(e) && AllAsciiWhitespace(lead) && AllAsciiWhitespace(open) && AllAsciiWhitespace(trail)
    ensures var text := Unclosed(e, lead, open, trail);
            EvaluateExpression(text, row, path, numbers) == Rejected(Denote(e, row, path, numbers), text, path)
  {
    hide SkipSpaces, StartsAt, EvalOr, EvalOrTail, EvalNot, EvalAnd, EvalAndTail, Denote, Trim, Unclosed, Stands;
    var text := Unclosed(e, lead, open, trail);
    UnclosedStands(e, lead, open, trail);
    EndOfText(text);
    OrArrives(text, SkipSpaces(text, 0) + 1, e, row, path, numbers);
    LoopsEnd(text, |text|, false, row, path, numbers);
    LoopsEnd(text, |text|, true, row, path, numbers);
    UnclosedStep(text, 0, row, path, numbers);
    LoopsUnfold(text, 0, row, path, numbers);
  }

  lemma UnclosedStep(text: string, s: nat, row: Row, path: FilterPath, numbers: NumberSyntax)
    requires s <= |text|
    requires var at := SkipSpaces(text, s); at < |text| && text[at] == '('
    ensures var inner := EvalOr(text, SkipSpaces(text, s) + 1, row, path, numbers);
            match inner
            case Err(error) => EvalNot(text, s, row, path, numbers) == Step.Err(error)
            case Ok(_, next) =>
              SkipSpaces(text, next) == |text| ==>
                EvalNot(text, s, row, path, numbers) == Step.Err(UnsupportedFilterExpression(path, Trim(text)))
  {
    hide EvalOr, EvaluateLeaf, Trim, LeafEnd, SkipSpaces;
    var at := SkipSpaces(text, s);
    TokenAt(text, at);
    SkipTwice(text, s);
    assert EvalNot(text, s, row, path, numbers) == EvalPrimary(text, at, row, path, numbers);
  }
}
