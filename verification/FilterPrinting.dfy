/**
 * The evaluator implements the stated precedence: `!` over `&&` over `||`, grouping with `(...)`.
 * Any expression tree, printed with only the parentheses precedence requires, evaluates to its value.
 */
module FilterPrinting {
  import opened Text
  import opened FilterLeaf
  import opened FilterExpression

  /** A leaf's text as closed quotes, balanced parentheses and plain characters. */
  datatype Piece =
    | Plain(c: char)
    | Quoted(quote: char, body: string)
    | Parens(inner: seq<Piece>)

  function RenderPiece(p: Piece): (s: string)
    ensures s != []
    decreases p, 0
  {
    match p
    case Plain(c) => [c]
    case Quoted(quote, body) => [quote] + body + [quote]
    case Parens(inner) => "(" + Render(inner) + ")"
  }

  function Render(ps: seq<Piece>): (s: string)
    ensures |s| >= |ps|
    decreases ps, |ps|
  {
    if ps == [] then [] else RenderPiece(ps[0]) + Render(ps[1..])
  }

  predicate PieceOk(p: Piece) {
    match p
    case Plain(c) => !IsQuote(c) && c != '(' && c != ')'
    case Quoted(quote, body) => IsQuote(quote) && quote !in body
    case Parens(inner) => forall i :: 0 <= i < |inner| ==> PieceOk(inner[i])
  }

  predicate PiecesOk(ps: seq<Piece>) {
    forall i :: 0 <= i < |ps| ==> PieceOk(ps[i])
  }

  /** No `&&` or `||` outside quotes and parentheses, and no dangling half of one at the end. */
  predicate NoOperator(ps: seq<Piece>) {
    forall i :: 0 <= i < |ps| && (ps[i] == Plain('&') || ps[i] == Plain('|')) ==> i + 1 < |ps| && ps[i + 1] != ps[i]
  }

  predicate LeafOk(ps: seq<Piece>) {
    && ps != []
    && PiecesOk(ps)
    && NoOperator(ps)
    && !ps[0].Parens? && ps[0] != Plain('!') && ps[0] != Plain('=')
    && IsTrimmed(Render(ps))
  }

  /** The padding around one node's own tokens: its operator, and the parentheses it may need. */
  datatype Gaps = Gaps(before: string, after: string, open: string, close: string)

  predicate GapsOk(g: Gaps) {
    AllAsciiWhitespace(g.before) && AllAsciiWhitespace(g.after) && AllAsciiWhitespace(g.open)
      && AllAsciiWhitespace(g.close)
  }

  /** A tree that carries its padding, which may differ at every token. */
  datatype Expr =
    | Or(left: Expr, right: Expr, gaps: Gaps)
    | And(left: Expr, right: Expr, gaps: Gaps)
    | Not(operand: Expr, gaps: Gaps)
    | Group(operand: Expr, gaps: Gaps)
    | Leaf(pieces: seq<Piece>)

  predicate ExprOk(e: Expr) {
    match e
    case Or(l, r, g) => ExprOk(l) && ExprOk(r) && GapsOk(g)
    case And(l, r, g) => ExprOk(l) && ExprOk(r) && GapsOk(g)
    case Not(x, g) => ExprOk(x) && GapsOk(g)
    case Group(x, g) => ExprOk(x) && GapsOk(g)
    case Leaf(ps) => LeafOk(ps)
  }

  /** The value of a tree: strict, left to right, first error wins. */
  function Denote(e: Expr, row: Row, path: FilterPath, numbers: NumberSyntax): Result<bool> {
    match e
    case Leaf(ps) => EvaluateLeaf(Render(ps), row, path, numbers)
    case Group(x, _) => Denote(x, row, path, numbers)
    case Not(x, _) => Negated(Denote(x, row, path, numbers))
    case And(l, r, _) => Both(Denote(l, row, path, numbers), Denote(r, row, path, numbers))
    case Or(l, r, _) => Either(Denote(l, row, path, numbers), Denote(r, row, path, numbers))
  }

  function Both(l: Result<bool>, r: Result<bool>): Result<bool> {
    if l.Err? then l else if r.Err? then r else Result.Ok(l.value && r.value)
  }

  function Either(l: Result<bool>, r: Result<bool>): Result<bool> {
    if l.Err? then l else if r.Err? then r else Result.Ok(l.value || r.value)
  }

  datatype Level = OrLevel | AndLevel | NotLevel

  function Parenthesised(s: string, open: string, close: string): string {
    "(" + (open + (s + (close + ")")))
  }

  /** Prints `e` where an operand of this precedence level is expected, each token with its own padding. */
  function Print(level: Level, e: Expr): string
    decreases e, if level.OrLevel? then 0 else 1
  {
    match e
    case Leaf(ps) => Render(ps)
    case Group(x, g) => Parenthesised(Print(OrLevel, x), g.open, g.close)
    case Not(x, g) => "!" + (g.after + Print(NotLevel, x))
    case And(l, r, g) =>
      var s := Infix(Print(AndLevel, l), g.before, "&&", g.after, Print(NotLevel, r));
      if level.NotLevel? then Parenthesised(s, g.open, g.close) else s
    case Or(l, r, g) =>
      var s := Infix(Print(OrLevel, l), g.before, "||", g.after, Print(AndLevel, r));
      if level.OrLevel? then s else Parenthesised(s, g.open, g.close)
  }

  /** `s` stands in `text` at `pos`. */
  ghost predicate Reads(text: string, pos: nat, s: string) {
    pos + |s| <= |text| && text[pos..pos + |s|] == s
  }

  lemma ReadsSplit(text: string, pos: nat, a: string, b: string)
    requires Reads(text, pos, a + b)
    ensures Reads(text, pos, a) && Reads(text, pos + |a|, b) && pos + |a| + |b| <= |text|
  {
    assert text[pos..pos + |a + b|][..|a|] == a;
    assert text[pos..pos + |a + b|][|a|..] == b;
  }

  lemma ReadsChar(text: string, pos: nat, s: string, i: nat)
    requires Reads(text, pos, s) && i < |s|
    ensures pos + i < |text| && text[pos + i] == s[i]
  {
    assert text[pos..pos + |s|][i] == s[i];
  }

  lemma {:induction false} SkipPadding(text: string, pos: nat, ws: string)
    requires Reads(text, pos, ws) && AllAsciiWhitespace(ws)
    ensures SkipSpaces(text, pos) == SkipSpaces(text, pos + |ws|)
    decreases |ws|
  {
    if ws != [] {
      ReadsChar(text, pos, ws, 0);
      assert ws == ws[..1] + ws[1..];
      ReadsSplit(text, pos, ws[..1], ws[1..]);
      SkipPadding(text, pos + 1, ws[1..]);
    }
  }

  /** Operator tokens, decided by their characters. */
  lemma TokenAt(text: string, pos: nat)
    requires pos < |text|
    ensures StartsAt(text, pos, "(") <==> text[pos] == '('
    ensures StartsAt(text, pos, ")") <==> text[pos] == ')'
    ensures StartsAt(text, pos, "!") <==> text[pos] == '!'
    ensures StartsAt(text, pos, "!=") ==> pos + 1 < |text| && text[pos + 1] == '='
    ensures StartsAt(text, pos, "&&") <==> pos + 1 < |text| && text[pos] == '&' && text[pos + 1] == '&'
    ensures StartsAt(text, pos, "||") <==> pos + 1 < |text| && text[pos] == '|' && text[pos + 1] == '|'
  {
  }

  /** Inside parentheses every well-formed piece is passed over. */
  lemma {:induction false} PassNested(text: string, pos: nat, depth: nat, ps: seq<Piece>)
    requires Reads(text, pos, Render(ps)) && depth > 0 && PiecesOk(ps)
    ensures LeafEnd(text, pos, depth, None) == LeafEnd(text, pos + |Render(ps)|, depth, None)
    decreases ps, |ps|
  {
    if ps != [] {
      ReadsSplit(text, pos, RenderPiece(ps[0]), Render(ps[1..]));
      PassPiece(text, pos, depth, ps[0]);
      PassNested(text, pos + |RenderPiece(ps[0])|, depth, ps[1..]);
    }
  }

  lemma {:induction false} PassPiece(text: string, pos: nat, depth: nat, p: Piece)
    requires Reads(text, pos, RenderPiece(p)) && PieceOk(p)
    requires depth > 0 || !p.Plain? || (!StartsAt(text, pos, "&&") && !StartsAt(text, pos, "||"))
    ensures LeafEnd(text, pos, depth, None) == LeafEnd(text, pos + |RenderPiece(p)|, depth, None)
    decreases p, 0
  {
    hide Reads, StartsAt, Render;
    ReadsChar(text, pos, RenderPiece(p), 0);
    match p
    case Plain(c) =>
    case Quoted(quote, body) =>
      assert RenderPiece(p) == [quote] + (body + [quote]);
      ReadsSplit(text, pos, [quote], body + [quote]);
      PassQuoted(text, pos + 1, depth, quote, body);
    case Parens(inner) =>
      PassParens(text, pos, depth, inner);
  }

  lemma {:induction false} PassParens(text: string, pos: nat, depth: nat, inner: seq<Piece>)
    requires Reads(text, pos, "(" + Render(inner) + ")") && PiecesOk(inner)
    ensures LeafEnd(text, pos, depth, None) == LeafEnd(text, pos + |Render(inner)| + 2, depth, None)
    decreases inner, |inner| + 1
  {
    hide Reads, StartsAt, Render;
    var body := Render(inner);
    assert "(" + body + ")" == "(" + (body + ")");
    ReadsSplit(text, pos, "(", body + ")");
    ReadsSplit(text, pos + 1, body, ")");
    ReadsChar(text, pos, "(", 0);
    ReadsChar(text, pos + 1 + |body|, ")", 0);
    PassNested(text, pos + 1, depth + 1, inner);
  }

  lemma {:induction false} PassQuoted(text: string, pos: nat, depth: nat, quote: char, body: string)
    requires Reads(text, pos, body + [quote]) && quote !in body
    ensures LeafEnd(text, pos, depth, Some(quote)) == LeafEnd(text, pos + |body| + 1, depth, None)
    decreases |body|
  {
    hide Reads, StartsAt;
    ReadsChar(text, pos, body + [quote], 0);
    if body != [] {
      assert body + [quote] == body[..1] + (body[1..] + [quote]);
      ReadsSplit(text, pos, body[..1], body[1..] + [quote]);
      PassQuoted(text, pos + 1, depth, quote, body[1..]);
    }
  }

  /** At top level a leaf is passed over because it holds no operator. */
  lemma {:induction false} PassLeaf(text: string, pos: nat, ps: seq<Piece>)
    requires Reads(text, pos, Render(ps)) && NoOperator(ps) && PiecesOk(ps)
    ensures LeafEnd(text, pos, 0, None) == LeafEnd(text, pos + |Render(ps)|, 0, None)
    decreases |ps|
  {
    hide *;
    RenderUnfolds(ps);
    if ps != [] {
      var first, rest := RenderPiece(ps[0]), Render(ps[1..]);
      ReadsSplit(text, pos, first, rest);
      FirstPieceIsNoOperator(text, pos, ps);
      LeafTail(ps);
      PassPiece(text, pos, 0, ps[0]);
      PassLeaf(text, pos + |first|, ps[1..]);
    }
  }

  lemma RenderUnfolds(ps: seq<Piece>)
    ensures Render(ps) == if ps == [] then [] else RenderPiece(ps[0]) + Render(ps[1..])
  {
  }

  lemma LeafTail(ps: seq<Piece>)
    requires ps != [] && NoOperator(ps) && PiecesOk(ps)
    ensures NoOperator(ps[1..]) && PiecesOk(ps[1..]) && PieceOk(ps[0])
  {
    forall i | 0 <= i < |ps[1..]| && (ps[1..][i] == Plain('&') || ps[1..][i] == Plain('|'))
      ensures i + 1 < |ps[1..]| && ps[1..][i + 1] != ps[1..][i]
    {
      assert ps[i + 1] == ps[1..][i];
    }
  }

  lemma FirstPieceIsNoOperator(text: string, pos: nat, ps: seq<Piece>)
    requires ps != [] && NoOperator(ps) && PiecesOk(ps)
    requires Reads(text, pos, RenderPiece(ps[0])) && Reads(text, pos + |RenderPiece(ps[0])|, Render(ps[1..]))
    ensures ps[0].Plain? ==> !StartsAt(text, pos, "&&") && !StartsAt(text, pos, "||")
  {
    hide Reads, StartsAt, LeafEnd;
    if ps[0].Plain? {
      var next := pos + 1;
      ReadsChar(text, pos, RenderPiece(ps[0]), 0);
      TokenAt(text, pos);
      if ps[0].c == '&' || ps[0].c == '|' {
        assert ps[0] == Plain('&') || ps[0] == Plain('|');
        assert ps[1..][0] == ps[1];
        RenderStarts(ps[1..]);
        ReadsChar(text, next, Render(ps[1..]), 0);
      }
    }
  }

  lemma RenderStarts(ps: seq<Piece>)
    requires ps != []
    ensures Render(ps) != [] && Render(ps)[0] == RenderPiece(ps[0])[0]
    ensures match ps[0]
            case Plain(c) => Render(ps)[0] == c
            case Quoted(quote, _) => Render(ps)[0] == quote
            case Parens(_) => Render(ps)[0] == '('
  {
    assert Render(ps) == RenderPiece(ps[0]) + Render(ps[1..]);
  }

  /** What may follow an operand of `&&`, once whitespace is skipped. */
  ghost predicate EndsOperand(text: string, q: nat)
    requires q <= |text|
  {
    q == |text| || text[q] == ')' || StartsAt(text, q, "&&") || StartsAt(text, q, "||")
  }

  lemma {:induction false} LeafStops(text: string, pos: nat)
    requires pos <= |text| && EndsOperand(text, SkipSpaces(text, pos))
    ensures LeafEnd(text, pos, 0, None) == SkipSpaces(text, pos)
    decreases |text| - pos
  {
    if SkipSpaces(text, pos) != pos {
      LeafStops(text, pos + 1);
    }
  }

  /** The walker produced this tree's value and stopped where `q` is the next token. */
  ghost predicate Arrives(text: string, step: Step, value: Result<bool>, q: nat) {
    match value
    case Err(error) => step == Step.Err(error)
    case Ok(v) => step.Ok? && step.value == v && step.pos <= |text| && SkipSpaces(text, step.pos) == q
  }

  /** The first character a printed operand shows. */
  lemma {:induction false} PrintStarts(level: Level, e: Expr)
    requires ExprOk(e)
    ensures var s := Print(level, e);
            s != [] && !IsAsciiWhitespace(s[0]) && s[0] != '='
    decreases e, if level.OrLevel? then 0 else 1
  {
    match e
    case Leaf(ps) =>
      assert Render(ps) == RenderPiece(ps[0]) + Render(ps[1..]);
      assert Render(ps)[0] == RenderPiece(ps[0])[0];
    case Group(x, _) =>
    case Not(x, _) =>
    case And(l, r, _) => PrintStarts(AndLevel, l);
    case Or(l, r, _) => PrintStarts(OrLevel, l);
  }

  lemma SkipAtToken(text: string, pos: nat)
    requires pos < |text| && !IsAsciiWhitespace(text[pos])
    ensures SkipSpaces(text, pos) == pos
  {
  }

  ghost function Rank(level: Level, e: Expr): nat {
    match e
    case Or(_, _, _) => (match level case OrLevel => 0 case NotLevel => 1 case AndLevel => 2)
    case And(_, _, _) => (match level case AndLevel => 0 case OrLevel => 1 case NotLevel => 2)
    case _ => (match level case NotLevel => 0 case AndLevel => 1 case OrLevel => 2)
  }

  /** `e`, printed at this level, stands at the token the walker reaches from `s`. */
  ghost predicate Stands(text: string, s: nat, level: Level, e: Expr) {
    && s <= |text| && ExprOk(e)
    && Reads(text, SkipSpaces(text, s), Print(level, e))
  }

  /** The token after the printed `e`. */
  ghost function After(text: string, s: nat, level: Level, e: Expr): (q: nat)
    requires Stands(text, s, level, e)
    ensures q <= |text|
  {
    SkipSpaces(text, SkipSpaces(text, s) + |Print(level, e)|)
  }

  /** One step of the walker at a leaf. */
  lemma LeafStep(text: string, s: nat, row: Row, path: FilterPath, numbers: NumberSyntax)
    requires s <= |text|
    requires var at := SkipSpaces(text, s); at < |text| && text[at] != '(' && text[at] != '!'
    ensures var at := SkipSpaces(text, s);
            var end := LeafEnd(text, at, 0, None);
            EvalNot(text, s, row, path, numbers)
            == match EvaluateLeaf(Trim(text[at..end]), row, path, numbers)
               case Err(error) => Step.Err(error)
               case Ok(value) => Step.Ok(value, end)
  {
    hide EvalOr, EvaluateLeaf, Trim, LeafEnd;
    var at := SkipSpaces(text, s);
    TokenAt(text, at);
    SkipTwice(text, s);
    assert EvalNot(text, s, row, path, numbers) == EvalPrimary(text, at, row, path, numbers);
  }

  /** One step of the walker at a group whose closing parenthesis is where the group ends. */
  lemma GroupStep(text: string, s: nat, row: Row, path: FilterPath, numbers: NumberSyntax)
    requires s <= |text|
    requires var at := SkipSpaces(text, s); at < |text| && text[at] == '('
    ensures var inner := EvalOr(text, SkipSpaces(text, s) + 1, row, path, numbers);
            match inner
            case Err(error) => EvalNot(text, s, row, path, numbers) == Step.Err(error)
            case Ok(value, next) =>
              var close := SkipSpaces(text, next);
              close < |text| && text[close] == ')' ==>
                EvalNot(text, s, row, path, numbers) == Step.Ok(value, close + 1)
  {
    hide EvalOr, EvaluateLeaf, Trim, LeafEnd, SkipSpaces, StartsAt;
    var at := SkipSpaces(text, s);
    TokenAt(text, at);
    SkipTwice(text, s);
    assert EvalNot(text, s, row, path, numbers) == EvalPrimary(text, at, row, path, numbers);
    var inner := EvalOr(text, at + 1, row, path, numbers);
    if inner.Ok? && SkipSpaces(text, inner.pos) < |text| {
      TokenAt(text, SkipSpaces(text, inner.pos));
    }
  }

  lemma NegationStep(text: string, s: nat, row: Row, path: FilterPath, numbers: NumberSyntax)
    requires s <= |text|
    requires var at := SkipSpaces(text, s); at + 1 < |text| && text[at] == '!' && text[at + 1] != '='
    ensures EvalNot(text, s, row, path, numbers)
            == match EvalNot(text, SkipSpaces(text, s) + 1, row, path, numbers)
               case Err(error) => Step.Err(error)
               case Ok(value, next) => Step.Ok(!value, next)
  {
    hide EvalPrimary;
    TokenAt(text, SkipSpaces(text, s));
  }

  lemma {:induction false} LeafArrives(
      text: string, s: nat, e: Expr, row: Row, path: FilterPath, numbers: NumberSyntax)
    requires Stands(text, s, NotLevel, e) && e.Leaf?
    requires EndsOperand(text, After(text, s, NotLevel, e))
    ensures Arrives(text, EvalNot(text, s, row, path, numbers), Denote(e, row, path, numbers),
                    After(text, s, NotLevel, e))
  {
    hide SkipSpaces, LeafEnd, Render, EvalNot, EvaluateLeaf, Trim, EndsOperand, Reads;
    var pos, q := SkipSpaces(text, s), After(text, s, NotLevel, e);
    var leaf := Render(e.pieces);
    RenderStarts(e.pieces);
    ReadsChar(text, pos, leaf, 0);
    LeafStep(text, s, row, path, numbers);
    PassLeaf(text, pos, e.pieces);
    LeafStops(text, pos + |leaf|);
    LeafPadding(text, pos, leaf);
    SkipTwice(text, pos + |leaf|);
  }

  lemma LeafPadding(text: string, pos: nat, leaf: string)
    requires Reads(text, pos, leaf) && IsTrimmed(leaf)
    ensures Trim(text[pos..SkipSpaces(text, pos + |leaf|)]) == leaf
  {
    hide Trim;
    var q := SkipSpaces(text, pos + |leaf|);
    var padding := text[pos + |leaf|..q];
    assert text[pos..q] == leaf + padding;
    TrimDropsPadding(leaf, padding);
  }

  /** A parenthesised expression, entered from `s`. */
  lemma {:induction false} ParensArrive(
      text: string, s: nat, inner: Expr, open: string, close: string, row: Row, path: FilterPath, numbers: NumberSyntax)
    requires s <= |text| && ExprOk(inner) && AllAsciiWhitespace(open) && AllAsciiWhitespace(close)
    requires Reads(text, SkipSpaces(text, s), Parenthesised(Print(OrLevel, inner), open, close))
    ensures var q := SkipSpaces(text, SkipSpaces(text, s) + |Parenthesised(Print(OrLevel, inner), open, close)|);
            Arrives(text, EvalNot(text, s, row, path, numbers), Denote(inner, row, path, numbers), q)
    decreases inner, Rank(OrLevel, inner), 2
  {
    hide SkipSpaces, LeafEnd, EvalNot, EvalOr, EvalOrTail, Reads, StartsAt, Print, Denote, ExprOk, Parenthesised,
      AllAsciiWhitespace, IsAsciiWhitespace;
    var pos, body := SkipSpaces(text, s), Print(OrLevel, inner);
    PrintStarts(OrLevel, inner);
    ParensStand(text, pos, body, open, close);
    var tail := pos + 1 + |open| + |body|;
    var end := tail + |close|;
    TokenAt(text, end);
    SkipTwice(text, tail);
    OrArrives(text, pos + 1, inner, row, path, numbers);
    OrTailStops(text, end, row, path, numbers);
    GroupStep(text, s, row, path, numbers);
  }

  lemma AndTailStops(text: string, q: nat, row: Row, path: FilterPath, numbers: NumberSyntax)
    requires q <= |text| && SkipSpaces(text, q) == q && !StartsAt(text, q, "&&")
    ensures forall acc :: EvalAndTail(text, q, acc, row, path, numbers) == Step.Ok(acc, q)
  {
  }

  lemma OrTailStops(text: string, close: nat, row: Row, path: FilterPath, numbers: NumberSyntax)
    requires close < |text| && SkipSpaces(text, close) == close && text[close] == ')'
    ensures forall acc :: EvalOrTail(text, close, acc, row, path, numbers) == Step.Ok(acc, close)
  {
    TokenAt(text, close);
  }

  /** The parts of `( body )`, located in the text. */
  lemma ParensParts(text: string, pos: nat, body: string, open: string, close: string)
    requires Reads(text, pos, Parenthesised(body, open, close))
    ensures pos < |text| && text[pos] == '(' && Reads(text, pos + 1, open) && Reads(text, pos + 1 + |open|, body)
    ensures var tail := pos + 1 + |open| + |body|;
            && Reads(text, tail, close) && tail + |close| < |text| && text[tail + |close|] == ')'
            && pos + |Parenthesised(body, open, close)| == tail + |close| + 1
  {
    hide Reads;
    ReadsSplit(text, pos, "(", open + (body + (close + ")")));
    ReadsSplit(text, pos + 1, open, body + (close + ")"));
    ReadsSplit(text, pos + 1 + |open|, body, close + ")");
    var tail := pos + 1 + |open| + |body|;
    ReadsSplit(text, tail, close, ")");
    ReadsChar(text, pos, "(", 0);
    ReadsChar(text, tail + |close|, ")", 0);
  }

  /** Where the padding around them ends. */
  lemma ParensStand(text: string, pos: nat, body: string, open: string, close: string)
    requires Reads(text, pos, Parenthesised(body, open, close)) && AllAsciiWhitespace(open) && AllAsciiWhitespace(close)
    requires body != [] && !IsAsciiWhitespace(body[0])
    ensures pos < |text| && text[pos] == '('
    ensures SkipSpaces(text, pos + 1) == pos + 1 + |open| && Reads(text, pos + 1 + |open|, body)
    ensures var end := pos + 1 + |open| + |body| + |close|;
            && end < |text| && text[end] == ')'
            && SkipSpaces(text, pos + 1 + |open| + |body|) == end && SkipSpaces(text, end) == end
            && pos + |Parenthesised(body, open, close)| == end + 1
  {
    hide Reads, SkipSpaces, AllAsciiWhitespace, Parenthesised;
    ParensParts(text, pos, body, open, close);
    var tail := pos + 1 + |open| + |body|;
    assert !IsAsciiWhitespace(')');
    ReadsChar(text, pos + 1 + |open|, body, 0);
    SkipPadding(text, pos + 1, open);
    SkipPadding(text, tail, close);
    SkipAtToken(text, pos + 1 + |open|);
    SkipAtToken(text, tail + |close|);
  }

  /** What a tree prints as an operand of `!` or `&&`. */
  lemma OperandShape(e: Expr)
    requires ExprOk(e)
    ensures !e.Leaf? ==> GapsOk(e.gaps)
    ensures e.Not? || e.Group? ==> ExprOk(e.operand)
    ensures e.Group? ==> Print(NotLevel, e) == Parenthesised(Print(OrLevel, e.operand), e.gaps.open, e.gaps.close)
    ensures e.Or? || e.And? ==> Print(NotLevel, e) == Parenthesised(Print(OrLevel, e), e.gaps.open, e.gaps.close)
    ensures e.Not? ==> Print(NotLevel, e) == "!" + (e.gaps.after + Print(NotLevel, e.operand))
  {
    hide Infix, Parenthesised, Render;
  }

  lemma {:induction false} NotArrives(
      text: string, s: nat, e: Expr, row: Row, path: FilterPath, numbers: NumberSyntax)
    requires Stands(text, s, NotLevel, e) && EndsOperand(text, After(text, s, NotLevel, e))
    ensures Arrives(text, EvalNot(text, s, row, path, numbers), Denote(e, row, path, numbers),
                    After(text, s, NotLevel, e))
    decreases e, Rank(NotLevel, e), 0
  {
    hide SkipSpaces, LeafEnd, EvalNot, EvalOr, Reads, StartsAt, Print, Denote, ExprOk, Parenthesised,
      AllAsciiWhitespace, EndsOperand, Arrives, Negated;
    OperandShape(e);
    DenoteUnfolds(e, row, path, numbers);
    match e
    case Leaf(_) => LeafArrives(text, s, e, row, path, numbers);
    case Group(x, g) => ParensArrive(text, s, x, g.open, g.close, row, path, numbers);
    case And(_, _, g) => ParensArrive(text, s, e, g.open, g.close, row, path, numbers);
    case Or(_, _, g) => ParensArrive(text, s, e, g.open, g.close, row, path, numbers);
    case Not(x, g) => NegationArrives(text, s, x, g.after, row, path, numbers);
  }

  /** A negation, entered from `s`. */
  lemma {:induction false} NegationArrives(
      text: string, s: nat, x: Expr, ws: string, row: Row, path: FilterPath, numbers: NumberSyntax)
    requires s <= |text| && ExprOk(x) && AllAsciiWhitespace(ws)
    requires Reads(text, SkipSpaces(text, s), "!" + (ws + Print(NotLevel, x)))
    requires EndsOperand(text, SkipSpaces(text, SkipSpaces(text, s) + |"!" + (ws + Print(NotLevel, x))|))
    ensures var q := SkipSpaces(text, SkipSpaces(text, s) + |"!" + (ws + Print(NotLevel, x))|);
            Arrives(text, EvalNot(text, s, row, path, numbers), Negated(Denote(x, row, path, numbers)), q)
    decreases x, Rank(NotLevel, x), 1
  {
    hide SkipSpaces, LeafEnd, EvalNot, EvalOr, Reads, StartsAt, Print, Denote, ExprOk, AllAsciiWhitespace,
      IsAsciiWhitespace, EndsOperand;
    var pos, body := SkipSpaces(text, s), Print(NotLevel, x);
    PrintStarts(NotLevel, x);
    NegationStands(text, pos, body, ws);
    NegationStep(text, s, row, path, numbers);
    NotArrives(text, pos + 1, x, row, path, numbers);
  }

  lemma NegationStands(text: string, pos: nat, body: string, ws: string)
    requires Reads(text, pos, "!" + (ws + body)) && AllAsciiWhitespace(ws)
    requires body != [] && !IsAsciiWhitespace(body[0]) && body[0] != '='
    ensures pos + 1 < |text| && text[pos] == '!' && text[pos + 1] != '='
    ensures SkipSpaces(text, pos + 1) == pos + 1 + |ws| && Reads(text, pos + 1 + |ws|, body)
  {
    hide Reads;
    ReadsSplit(text, pos, "!", ws + body);
    ReadsSplit(text, pos + 1, ws, body);
    ReadsChar(text, pos, "!", 0);
    ReadsChar(text, pos + 1, ws + body, 0);
    ReadsChar(text, pos + 1 + |ws|, body, 0);
    SkipPadding(text, pos + 1, ws);
  }

  /** The `&&` loop depends only on the next token. */
  lemma AndTailFromToken(text: string, p: nat, acc: bool, row: Row, path: FilterPath, numbers: NumberSyntax)
    requires p <= |text|
    ensures EvalAndTail(text, p, acc, row, path, numbers)
            == EvalAndTail(text, SkipSpaces(text, p), acc, row, path, numbers)
  {
    SkipTwice(text, p);
  }

  lemma OrTailFromToken(text: string, p: nat, acc: bool, row: Row, path: FilterPath, numbers: NumberSyntax)
    requires p <= |text|
    ensures EvalOrTail(text, p, acc, row, path, numbers)
            == EvalOrTail(text, SkipSpaces(text, p), acc, row, path, numbers)
  {
    SkipTwice(text, p);
  }

  lemma SkipTwice(text: string, p: nat)
    requires p <= |text|
    ensures SkipSpaces(text, SkipSpaces(text, p)) == SkipSpaces(text, p)
  {
  }

  /** The parts of `left && right` and `left || right`, located in the text. */
  lemma InfixParts(text: string, pos: nat, left: string, before: string, operator: string, after: string, right: string)
    requires Reads(text, pos, Infix(left, before, operator, after, right)) && |operator| == 2
    ensures Reads(text, pos, left) && Reads(text, pos + |left|, before)
    ensures var at := pos + |left| + |before|;
            && at + 2 + |after| + |right| <= |text|
            && text[at] == operator[0] && text[at + 1] == operator[1]
            && Reads(text, at + 2, after) && Reads(text, at + 2 + |after|, right)
            && at + 2 + |after| + |right| == pos + |Infix(left, before, operator, after, right)|
  {
    hide Reads;
    var at := pos + |left| + |before|;
    ReadsSplit(text, pos, left, before + (operator + (after + right)));
    ReadsSplit(text, pos + |left|, before, operator + (after + right));
    ReadsSplit(text, at, operator, after + right);
    ReadsSplit(text, at + 2, after, right);
    ReadsChar(text, at, operator, 0);
    ReadsChar(text, at, operator, 1);
  }

  lemma InfixStands(text: string, pos: nat, left: string, before: string, operator: string, after: string,
    right: string)
    requires Reads(text, pos, Infix(left, before, operator, after, right))
    requires AllAsciiWhitespace(before) && AllAsciiWhitespace(after) && (operator == "&&" || operator == "||")
    requires right != [] && !IsAsciiWhitespace(right[0])
    ensures Reads(text, pos, left)
    ensures var at := pos + |left| + |before|;
            && at + 2 <= |text| && SkipSpaces(text, pos + |left|) == at && SkipSpaces(text, at) == at
            && StartsAt(text, at, operator) && EndsOperand(text, at) && (operator == "||" ==> !StartsAt(text, at, "&&"))
            && SkipSpaces(text, at + 2) == at + 2 + |after| && Reads(text, at + 2 + |after|, right)
            && at + 2 + |after| + |right| == pos + |Infix(left, before, operator, after, right)|
  {
    hide Reads, StartsAt, SkipSpaces, Infix;
    InfixParts(text, pos, left, before, operator, after, right);
    var at := pos + |left| + |before|;
    assert !IsAsciiWhitespace('&') && !IsAsciiWhitespace('|');
    ReadsChar(text, at + 2 + |after|, right, 0);
    TokenAt(text, at);
    SkipAtToken(text, at);
    SkipAtToken(text, at + 2 + |after|);
    SkipPadding(text, pos + |left|, before);
    SkipPadding(text, at + 2, after);
  }

  /** The walker's outcome, as the state of its loop at the next token. */
  ghost predicate ReachesAndLoop(
      text: string, s: nat, q: nat, value: Result<bool>, row: Row, path: FilterPath, numbers: NumberSyntax)
    requires s <= |text| && q <= |text|
  {
    EvalAnd(text, s, row, path, numbers)
    == match value
       case Err(error) => Step.Err(error)
       case Ok(v) => EvalAndTail(text, q, v, row, path, numbers)
  }

  ghost predicate ReachesOrLoop(
      text: string, s: nat, q: nat, value: Result<bool>, row: Row, path: FilterPath, numbers: NumberSyntax)
    requires s <= |text| && q <= |text|
  {
    EvalOr(text, s, row, path, numbers)
    == match value
       case Err(error) => Step.Err(error)
       case Ok(v) => EvalOrTail(text, q, v, row, path, numbers)
  }

  /** What the `&&` loop adds once its left and right operands have been walked. */
  lemma AndLoopAdds(
      text: string, s: nat, at: nat, q: nat, l: Result<bool>, r: Result<bool>,
      row: Row, path: FilterPath, numbers: NumberSyntax)
    requires s <= |text| && at + 2 <= |text| && SkipSpaces(text, at) == at && StartsAt(text, at, "&&") && q <= |text|
    requires ReachesAndLoop(text, s, at, l, row, path, numbers)
    requires Arrives(text, EvalNot(text, at + 2, row, path, numbers), r, q)
    ensures ReachesAndLoop(text, s, q, Both(l, r), row, path, numbers)
  {
    hide SkipSpaces, StartsAt, EvalAnd, EvalNot, EvalAndTail;
    if l.Ok? {
      EvalAndTailUnfolds(text, at, l.value, row, path, numbers);
      var step := EvalNot(text, at + 2, row, path, numbers);
      if r.Ok? {
        AndTailFromToken(text, step.pos, l.value && r.value, row, path, numbers);
      }
    }
  }

  /** What the `||` loop adds once its left and right operands have been walked. */
  lemma OrLoopAdds(
      text: string, s: nat, at: nat, q: nat, l: Result<bool>, r: Result<bool>,
      row: Row, path: FilterPath, numbers: NumberSyntax)
    requires s <= |text| && at + 2 <= |text| && SkipSpaces(text, at) == at && StartsAt(text, at, "||") && q <= |text|
    requires ReachesOrLoop(text, s, at, l, row, path, numbers)
    requires Arrives(text, EvalAnd(text, at + 2, row, path, numbers), r, q)
    ensures ReachesOrLoop(text, s, q, Either(l, r), row, path, numbers)
  {
    hide SkipSpaces, StartsAt, EvalOr, EvalAnd, EvalOrTail;
    if l.Ok? {
      EvalOrTailUnfolds(text, at, l.value, row, path, numbers);
      var step := EvalAnd(text, at + 2, row, path, numbers);
      if r.Ok? {
        OrTailFromToken(text, step.pos, l.value || r.value, row, path, numbers);
      }
    }
  }

  lemma AndWithoutLoop(
      text: string, s: nat, q: nat, value: Result<bool>, row: Row, path: FilterPath, numbers: NumberSyntax)
    requires s <= |text| && q <= |text|
    requires Arrives(text, EvalNot(text, s, row, path, numbers), value, q)
    ensures ReachesAndLoop(text, s, q, value, row, path, numbers)
  {
    hide SkipSpaces, EvalNot, EvalAndTail;
    var step := EvalNot(text, s, row, path, numbers);
    if step.Ok? {
      AndTailFromToken(text, step.pos, step.value, row, path, numbers);
    }
  }

  /** Where no `&&` follows, the conjunction loop ends at once. */
  lemma AndLoopEnds(
      text: string, s: nat, q: nat, value: Result<bool>, row: Row, path: FilterPath, numbers: NumberSyntax)
    requires s <= |text| && q <= |text| && SkipSpaces(text, q) == q && !StartsAt(text, q, "&&")
    requires ReachesAndLoop(text, s, q, value, row, path, numbers)
    ensures Arrives(text, EvalAnd(text, s, row, path, numbers), value, q)
    ensures ReachesOrLoop(text, s, q, value, row, path, numbers)
  {
    hide SkipSpaces, StartsAt, EvalAnd, EvalAndTail, EvalOrTail;
    AndTailStops(text, q, row, path, numbers);
  }

  lemma AndShape(e: Expr)
    requires ExprOk(e) && e.And?
    ensures ExprOk(e.left) && ExprOk(e.right) && GapsOk(e.gaps)
    ensures Print(AndLevel, e)
            == Infix(Print(AndLevel, e.left), e.gaps.before, "&&", e.gaps.after, Print(NotLevel, e.right))
  {
    hide Infix;
  }

  lemma OrShape(e: Expr)
    requires ExprOk(e) && e.Or?
    ensures ExprOk(e.left) && ExprOk(e.right) && GapsOk(e.gaps)
    ensures Print(OrLevel, e)
            == Infix(Print(OrLevel, e.left), e.gaps.before, "||", e.gaps.after, Print(AndLevel, e.right))
  {
    hide Infix;
  }

  lemma DenoteUnfolds(e: Expr, row: Row, path: FilterPath, numbers: NumberSyntax)
    ensures e.And? ==> Denote(e, row, path, numbers)
                       == Both(Denote(e.left, row, path, numbers), Denote(e.right, row, path, numbers))
    ensures e.Or? ==> Denote(e, row, path, numbers)
                      == Either(Denote(e.left, row, path, numbers), Denote(e.right, row, path, numbers))
    ensures e.Not? ==> Denote(e, row, path, numbers) == Negated(Denote(e.operand, row, path, numbers))
    ensures e.Group? ==> Denote(e, row, path, numbers) == Denote(e.operand, row, path, numbers)
  {
    hide Both, Either, Negated, EvaluateLeaf, Render;
  }

  /** A tree of another kind prints alike where the next tighter operand is expected. */
  lemma SamePrint(e: Expr)
    ensures !e.And? ==> Print(AndLevel, e) == Print(NotLevel, e)
    ensures !e.Or? ==> Print(OrLevel, e) == Print(AndLevel, e)
  {
    hide Infix, Parenthesised, Render;
  }

  /** From a printed conjunction the walker reaches its loop with the conjunction's value. */
  lemma {:induction false} AndArrives(
      text: string, s: nat, e: Expr, row: Row, path: FilterPath, numbers: NumberSyntax)
    requires Stands(text, s, AndLevel, e) && EndsOperand(text, After(text, s, AndLevel, e))
    ensures ReachesAndLoop(text, s, After(text, s, AndLevel, e), Denote(e, row, path, numbers), row, path, numbers)
    decreases e, Rank(AndLevel, e), 0
  {
    hide SkipSpaces, EvalNot, EvalAnd, EvalAndTail, Reads, StartsAt, Print, ExprOk, Infix, Denote,
      AllAsciiWhitespace, IsAsciiWhitespace, ReachesAndLoop, Arrives, EndsOperand, Both;
    var pos, q := SkipSpaces(text, s), After(text, s, AndLevel, e);
    SamePrint(e);
    if e.And? {
      AndShape(e);
      DenoteUnfolds(e, row, path, numbers);
      var left, right := Print(AndLevel, e.left), Print(NotLevel, e.right);
      PrintStarts(NotLevel, e.right);
      InfixStands(text, pos, left, e.gaps.before, "&&", e.gaps.after, right);
      var at := pos + |left| + |e.gaps.before|;
      var l, r := Denote(e.left, row, path, numbers), Denote(e.right, row, path, numbers);
      AndArrives(text, s, e.left, row, path, numbers);
      NotArrives(text, at + 2, e.right, row, path, numbers);
      AndLoopAdds(text, s, at, q, l, r, row, path, numbers);
    } else {
      NotArrives(text, s, e, row, path, numbers);
      AndWithoutLoop(text, s, q, Denote(e, row, path, numbers), row, path, numbers);
    }
  }

  /** From a printed disjunction the walker reaches its loop with the disjunction's value. */
  lemma {:induction false} OrArrives(
      text: string, s: nat, e: Expr, row: Row, path: FilterPath, numbers: NumberSyntax)
    requires Stands(text, s, OrLevel, e)
    requires var q := After(text, s, OrLevel, e); EndsOperand(text, q) && !StartsAt(text, q, "&&")
    ensures ReachesOrLoop(text, s, After(text, s, OrLevel, e), Denote(e, row, path, numbers), row, path, numbers)
    decreases e, Rank(OrLevel, e), 1
  {
    hide SkipSpaces, EvalOr, EvalAnd, EvalAndTail, EvalOrTail, Reads, StartsAt, Print, Denote, ExprOk, Infix,
      AllAsciiWhitespace, IsAsciiWhitespace, ReachesAndLoop, ReachesOrLoop, Arrives, EndsOperand, Either;
    var pos, q := SkipSpaces(text, s), After(text, s, OrLevel, e);
    SkipTwice(text, pos + |Print(OrLevel, e)|);
    if e.Or? {
      OrShape(e);
      DenoteUnfolds(e, row, path, numbers);
      var left, right := Print(OrLevel, e.left), Print(AndLevel, e.right);
      PrintStarts(AndLevel, e.right);
      InfixStands(text, pos, left, e.gaps.before, "||", e.gaps.after, right);
      var at := pos + |left| + |e.gaps.before|;
      var l, r := Denote(e.left, row, path, numbers), Denote(e.right, row, path, numbers);
      OrArrives(text, s, e.left, row, path, numbers);
      AndArrives(text, at + 2, e.right, row, path, numbers);
      AndLoopEnds(text, at + 2, q, r, row, path, numbers);
      OrLoopAdds(text, s, at, q, l, r, row, path, numbers);
    } else {
      LoneOperandArrives(text, s, e, row, path, numbers);
    }
  }

  /** Any other tree is the only operand of the `||` loop. */
  lemma {:induction false} LoneOperandArrives(
      text: string, s: nat, e: Expr, row: Row, path: FilterPath, numbers: NumberSyntax)
    requires Stands(text, s, OrLevel, e) && !e.Or?
    requires var q := After(text, s, OrLevel, e); EndsOperand(text, q) && !StartsAt(text, q, "&&")
    ensures ReachesOrLoop(text, s, After(text, s, OrLevel, e), Denote(e, row, path, numbers), row, path, numbers)
    decreases e, Rank(OrLevel, e), 0
  {
    hide SkipSpaces, EvalOr, EvalAnd, EvalAndTail, EvalOrTail, Reads, StartsAt, Print, Denote, ExprOk,
      ReachesAndLoop, ReachesOrLoop, Arrives, EndsOperand;
    SamePrint(e);
    SkipTwice(text, SkipSpaces(text, s) + |Print(OrLevel, e)|);
    AndArrives(text, s, e, row, path, numbers);
    AndLoopEnds(text, s, After(text, s, OrLevel, e), Denote(e, row, path, numbers), row, path, numbers);
  }

  /** Printing a tree, padding of its own at every token, and evaluating the text gives its value, or its first
    * error. */
  lemma PrintedExpressionEvaluates(e: Expr, lead: string, trail: string, row: Row, path: FilterPath,
    numbers: NumberSyntax)
    requires ExprOk(e) && AllAsciiWhitespace(lead) && AllAsciiWhitespace(trail)
    ensures EvaluateExpression(lead + Print(OrLevel, e) + trail, row, path, numbers) == Denote(e, row, path, numbers)
  {
    hide SkipSpaces, EvalOr, Print, Denote, ExprOk, Trim, IsAsciiWhitespace;
    var body := Print(OrLevel, e);
    var text := lead + body + trail;
    assert Reads(text, 0, lead) && Reads(text, |lead|, body) && Reads(text, |lead| + |body|, trail);
    PrintStarts(OrLevel, e);
    ReadsChar(text, |lead|, body, 0);
    SkipPadding(text, 0, lead);
    SkipPadding(text, |lead| + |body|, trail);
    OrArrives(text, 0, e, row, path, numbers);
  }
}
