/** The documented leaf forms, printed and evaluated: each text means what its form says. */
module FilterLeafForms {
  import opened Text
  import opened Json
  import opened FilterLeaf

  function Quoted(quote: char, s: string): string {
    [quote] + s + [quote]
  }

  /** How an argument is written: its quote and the whitespace around it. */
  datatype Style = Style(quote: char, lead: string, trail: string)

  predicate StyleOk(style: Style) {
    IsQuote(style.quote) && AllWhitespace(style.lead) && AllWhitespace(style.trail)
  }

  function Argument(s: string, style: Style): string {
    style.lead + Quoted(style.quote, s) + style.trail
  }

  function Call(name: string, s: string, style: Style): string {
    name + (Argument(s, style) + ")")
  }

  /** Whether the property, absent counting as null, equals the literal. */
  function Equals(property: string, literal: string, row: Row, path: FilterPath, numbers: NumberSyntax): Result<bool> {
    match (ResolveProperty(property, row, path), ParseLiteral(literal, path, numbers))
    case (Err(error), _) => Result.Err(error)
    case (Ok(_), Err(error)) => Result.Err(error)
    case (Ok(value), Ok(expected)) => Result.Ok((if value.Some? then value.value else Null) == expected)
  }

  // ---------- calls ----------

  lemma ArgumentParses(s: string, style: Style)
    requires StyleOk(style)
    ensures ParseQuoted(Trim(Argument(s, style))) == Some(s)
  {
    hide Trim, AllWhitespace;
    TrimDropsBoth(style.lead, Quoted(style.quote, s), style.trail);
  }

  lemma CallParses(name: string, s: string, style: Style)
    requires StyleOk(style)
    ensures CallArgument(Call(name, s, style), name) == Some(s)
  {
    hide ParseQuoted, Trim, Argument, StyleOk;
    var call, rest := Call(name, s, style), Argument(s, style) + ")";
    assert call[|name|..] == rest;
    assert rest[..|rest| - 1] == Argument(s, style) && rest[|rest| - 1..] == ")";
    ArgumentParses(s, style);
  }

  lemma CallIsTrimmed(name: string, s: string, style: Style, lead: string, trail: string)
    requires name != [] && !IsWhitespace(name[0]) && AllWhitespace(lead) && AllWhitespace(trail)
    ensures Trim(lead + Call(name, s, style) + trail) == Call(name, s, style)
  {
    hide Trim, AllWhitespace;
    TrimDropsBoth(lead, Call(name, s, style), trail);
  }

  /** `file.hasTag(...)` with any quoted text, either quote, any padding, asks whether the row carries that tag. */
  lemma HasTagLeaf(
      tag: string, style: Style, lead: string, trail: string, row: Row, path: FilterPath, numbers: NumberSyntax)
    requires StyleOk(style) && AllWhitespace(lead) && AllWhitespace(trail)
    ensures EvaluateLeaf(lead + Call("file.hasTag(", tag, style) + trail, row, path, numbers)
      == Result.Ok(tag in row.tags)
  {
    hide Trim, CallArgument, Call, StyleOk, AllWhitespace;
    CallIsTrimmed("file.hasTag(", tag, style, lead, trail);
    CallParses("file.hasTag(", tag, style);
  }

  /** `file.inFolder(...)` likewise asks whether the row lies in the folder or below it. */
  lemma InFolderLeaf(
      folder: string, style: Style, lead: string, trail: string, row: Row, path: FilterPath, numbers: NumberSyntax)
    requires StyleOk(style) && AllWhitespace(lead) && AllWhitespace(trail)
    ensures EvaluateLeaf(lead + Call("file.inFolder(", folder, style) + trail, row, path, numbers)
            == Result.Ok(InFolder(row.file.folder, folder))
  {
    hide Trim, CallArgument, StyleOk, AllWhitespace, InFolder, Argument;
    var call := Call("file.inFolder(", folder, style);
    CallIsTrimmed("file.inFolder(", folder, style, lead, trail);
    CallParses("file.inFolder(", folder, style);
    assert call[5] == 'i' && "file.hasTag("[5] == 'h';
    NotThisCall(call, "file.hasTag(");
  }

  lemma NotThisCall(text: string, name: string)
    requires !(name <= text)
    ensures CallArgument(text, name) == None
  {
  }

  // ---------- containment ----------

  /** The text is read as a call before any other form is tried. */
  predicate ReadsAsCall(text: string) {
    CallArgument(text, "file.hasTag(").Some? || CallArgument(text, "file.inFolder(").Some?
  }

  /**
   * `p.contains(...)` asks for a substring of a text or an element of a list, unless the whole text reads as
   * a call first or the property holds another `.contains(`.
   */
  lemma ContainsLeaf(
      property: string, needle: string, style: Style, row: Row, path: FilterPath, numbers: NumberSyntax)
    requires IsTrimmed(property) && StyleOk(style) && !Contains(property, ".contains(")
    requires !ReadsAsCall(Call(property + ".contains(", needle, style))
    ensures var r := EvaluateLeaf(Call(property + ".contains(", needle, style), row, path, numbers);
            var value := ResolveProperty(property, row, path);
            if value.Err? then r == Result.Err(value.error) else r == Result.Ok(HoldsNeedle(value.value, needle))
  {
    hide Trim, CallArgument, ParseContains, ResolveProperty, HoldsNeedle, Call, StyleOk, Contains;
    var text := Call(property + ".contains(", needle, style);
    ContainsIsTrimmed(property, needle, style);
    ContainsParses(property, needle, style);
  }

  lemma ContainsIsTrimmed(property: string, needle: string, style: Style)
    requires IsTrimmed(property)
    ensures Trim(Call(property + ".contains(", needle, style)) == Call(property + ".contains(", needle, style)
  {
    hide Trim, Argument;
    var name := property + ".contains(";
    assert property == [] ==> name[0] == '.';
    assert property != [] ==> name[0] == property[0];
    TrimOfTrimmed(Call(name, needle, style));
  }

  lemma ContainsParses(property: string, needle: string, style: Style)
    requires IsTrimmed(property) && StyleOk(style) && !Contains(property, ".contains(")
    ensures ParseContains(Call(property + ".contains(", needle, style)) == Some(Containment(property, needle))
  {
    hide Trim, ParseQuoted, Find, Argument, StyleOk, Contains, IsTrimmed;
    var argument := Argument(needle, style);
    var text := Call(property + ".contains(", needle, style);
    assert text == property + (".contains(" + (argument + ")"));
    FirstCallAfter(property, argument + ")");
    var rest := text[|property| + |".contains("|..];
    assert rest == argument + ")";
    assert rest[..|rest| - 1] == argument && rest[|rest| - 1..] == ")";
    ArgumentParses(needle, style);
    assert text[..|property|] == property;
    TrimOfTrimmed(property);
  }

  /** The first `.contains(` is the one written after the property. */
  lemma FirstCallAfter(property: string, rest: string)
    requires !Contains(property, ".contains(")
    ensures Find(property + (".contains(" + rest), ".contains(") == Some(|property|)
  {
    var pattern := ".contains(";
    var text, n := property + (pattern + rest), |property|;
    assert text[n..n + 10] == pattern;
    forall j | 0 <= j < n ensures !OccursAt(text, pattern, j) {
      if OccursAt(text, pattern, j) {
        OccursChars(text, pattern, j);
        OnlyFirstIsDot(n - j);
        if j + 10 <= n {
          OccursInPrefix(text, property, pattern, j);
        }
      }
    }
    FindIs(text, pattern, n);
  }

  lemma OnlyFirstIsDot(i: nat)
    ensures 0 < i < 10 ==> ".contains("[i] != '.'
  {
  }

  /** A text that is no call by its name is none after `.contains(` either. */
  lemma NotACall(property: string, needle: string, style: Style)
    requires !("file.hasTag(" <= property) && !("file.inFolder(" <= property)
    ensures !ReadsAsCall(Call(property + ".contains(", needle, style))
  {
    hide CallArgument, Argument;
    var text := Call(property + ".contains(", needle, style);
    assert text == property + (".contains(" + (Argument(needle, style) + ")"));
    NoCallPrefix(property, Argument(needle, style) + ")", "file.hasTag(");
    NoCallPrefix(property, Argument(needle, style) + ")", "file.inFolder(");
    NotThisCall(text, "file.hasTag(");
    NotThisCall(text, "file.inFolder(");
  }

  lemma NoCallPrefix(property: string, rest: string, name: string)
    requires (name == "file.hasTag(" || name == "file.inFolder(") && !(name <= property)
    ensures !(name <= property + (".contains(" + rest))
  {
    var text, n := property + (".contains(" + rest), |property|;
    assert text[n] == '.' && text[n + 1] == 'c';
    assert text[..n] == property;
    if name <= text {
      PrefixChars(text, property, name);
    }
  }

  /** Where such a name could go on in `.contains(`. */
  lemma PrefixChars(text: string, property: string, name: string)
    requires name <= text && property <= text && (name == "file.hasTag(" || name == "file.inFolder(")
      && !(name <= property)
    ensures |property| < |name|
    ensures forall i :: 0 <= i < |name| && i != 4 ==> name[i] != '.'
    ensures name[5] != 'c' && text[..|name|] == name
  {
    if |name| <= |property| {
      ShorterPrefix(text, property, name);
    }
  }

  lemma ShorterPrefix(text: string, longer: string, shorter: string)
    requires longer <= text && shorter <= text && |shorter| <= |longer|
    ensures shorter <= longer
  {
    assert shorter == text[..|shorter|] == longer[..|shorter|];
  }

  // ---------- comparison ----------

  /** The text is read as a call or a containment before a comparison is tried. */
  predicate ReadsEarlier(text: string) {
    ReadsAsCall(text) || ParseContains(text).Some?
  }

  /** A text that does not end in a parenthesis never is. */
  lemma NoCall(text: string)
    requires text != [] && text[|text| - 1] != ')'
    ensures !ReadsEarlier(text)
  {
    hide Trim, ParseQuoted;
  }

  predicate Operands(property: string, lead: string, trail: string, literal: string) {
    IsTrimmed(property) && property != [] && AllWhitespace(lead) && AllWhitespace(trail) && IsTrimmed(literal)
      && literal != []
  }

  lemma InfixIsTrimmed(property: string, lead: string, operator: string, trail: string, literal: string)
    requires Operands(property, lead, trail, literal)
    ensures var text := Infix(property, lead, operator, trail, literal);
            Trim(text) == text && text != [] && text[|text| - 1] == literal[|literal| - 1]
  {
    hide AllWhitespace, Trim;
    TrimOfTrimmed(Infix(property, lead, operator, trail, literal));
  }

  /** Where the first operator stands, if none comes before it. */
  lemma OperatorAt(property: string, lead: string, operator: string, trail: string, literal: string)
    requires |operator| == 2 && !Contains(property + lead + operator[..1], operator)
    ensures var text, at := Infix(property, lead, operator, trail, literal), |property| + |lead|;
            && Find(text, operator) == Some(at)
            && text[..at] == property + lead && text[at + 2..] == trail + literal
  {
    hide Contains;
    var text, at := Infix(property, lead, operator, trail, literal), |property| + |lead|;
    var before := property + lead + operator[..1];
    assert text[at..at + 2] == operator;
    assert text[..at + 1] == before;
    forall j | 0 <= j < at ensures !OccursAt(text, operator, j) {
      if OccursAt(text, operator, j) {
        OccursInPrefix(text, before, operator, j);
      }
    }
    FindIs(text, operator, at);
  }

  lemma PaddedTrims(property: string, lead: string, trail: string, literal: string)
    requires Operands(property, lead, trail, literal)
    ensures Trim(property + lead) == property && Trim(trail + literal) == literal
  {
    hide Trim, AllWhitespace;
    EmptyIsWhitespace();
    TrimDropsBoth("", property, lead);
    TrimDropsBoth(trail, literal, "");
    assert "" + property + lead == property + lead && trail + literal + "" == trail + literal;
  }

  lemma EmptyIsWhitespace()
    ensures AllWhitespace("")
  {
  }

  /** `p != x` asks whether they differ, whatever the literal holds, once no earlier form applies. */
  lemma InequalityLeaf(
      property: string, lead: string, trail: string, literal: string, row: Row, path: FilterPath, numbers: NumberSyntax)
    requires Operands(property, lead, trail, literal) && !Contains(property + lead + "!", "!=")
    requires !ReadsEarlier(Infix(property, lead, "!=", trail, literal))
    ensures EvaluateLeaf(Infix(property, lead, "!=", trail, literal), row, path, numbers)
            == Negated(Equals(property, literal, row, path, numbers))
  {
    hide Trim, CallArgument, ParseContains, ResolveProperty, ParseLiteral, Infix, Operands, Contains, Find;
    InfixIsTrimmed(property, lead, "!=", trail, literal);
    assert "!="[..1] == "!";
    OperatorAt(property, lead, "!=", trail, literal);
    PaddedTrims(property, lead, trail, literal);
  }

  /** `p == x` asks whether they are equal, unless the text holds `!=` anywhere, once no earlier form applies. */
  lemma EqualityLeaf(
      property: string, lead: string, trail: string, literal: string, row: Row, path: FilterPath, numbers: NumberSyntax)
    requires Operands(property, lead, trail, literal) && !Contains(property + lead + "=", "==")
    requires var text := Infix(property, lead, "==", trail, literal); !Contains(text, "!=") && !ReadsEarlier(text)
    ensures EvaluateLeaf(Infix(property, lead, "==", trail, literal), row, path, numbers)
            == Equals(property, literal, row, path, numbers)
  {
    hide Trim, CallArgument, ParseContains, ResolveProperty, ParseLiteral, Infix, Operands, Contains, Find;
    InfixIsTrimmed(property, lead, "==", trail, literal);
    assert "=="[..1] == "=";
    OperatorAt(property, lead, "==", trail, literal);
    PaddedTrims(property, lead, trail, literal);
  }

  // ---------- quoted equalities, exactly ----------

  /** The equality of a property with a quoted text. */
  function QuotedEquality(property: string, s: string, style: Style): string {
    Infix(property, style.lead, "==", style.trail, Quoted(style.quote, s))
  }

  /** The property takes part in no operator of its own. */
  predicate PropertyOk(property: string, style: Style) {
    && IsTrimmed(property) && property != [] && StyleOk(style)
    && !Contains(property + style.lead + "=", "==") && !Contains(property + style.lead + "==", "!=")
  }

  /** What comes before the quoted text. */
  function Lead(property: string, style: Style): string {
    property + style.lead + "==" + style.trail + [style.quote]
  }

  lemma QuotedEqualityParts(property: string, s: string, style: Style)
    ensures QuotedEquality(property, s, style) == Lead(property, style) + s + [style.quote]
  {
    var q := [style.quote];
    assert style.trail + (q + s + q) == style.trail + q + s + q;
  }

  lemma QuotedOperands(property: string, s: string, style: Style)
    requires PropertyOk(property, style)
    ensures Operands(property, style.lead, style.trail, Quoted(style.quote, s))
    ensures !ReadsEarlier(QuotedEquality(property, s, style))
    ensures Trim(QuotedEquality(property, s, style)) == QuotedEquality(property, s, style)
  {
    hide Trim, Contains, ReadsEarlier, Infix, AllWhitespace;
    var q := Quoted(style.quote, s);
    assert q[0] == style.quote && q[|q| - 1] == style.quote;
    InfixIsTrimmed(property, style.lead, "==", style.trail, q);
    NoCall(QuotedEquality(property, s, style));
  }

  /** Before the quoted text there is no `!=`. */
  lemma NoInequalityInLead(property: string, style: Style, j: nat)
    requires PropertyOk(property, style)
    ensures !OccursAt(Lead(property, style), "!=", j)
  {
    hide Contains, AllWhitespace;
    var lead, before := Lead(property, style), property + style.lead + "==";
    assert lead == before + (style.trail + [style.quote]);
    if OccursAt(lead, "!=", j) {
      OccursChars(lead, "!=", j);
      if j + 2 <= |before| {
        OccursInPrefix(lead, before, "!=", j);
      } else {
        assert lead[j + 1] == (style.trail + [style.quote])[j + 1 - |before|];
        PaddingHasNoOperator(style, j + 1 - |before|);
      }
    }
  }

  lemma PaddingHasNoOperator(style: Style, i: int)
    requires StyleOk(style)
    ensures 0 <= i <= |style.trail| ==> (style.trail + [style.quote])[i] != '='
  {
  }

  /** An inequality sign in the equality's text stands in the quoted text. */
  lemma InequalityIsQuoted(property: string, s: string, style: Style)
    requires PropertyOk(property, style)
    ensures Contains(QuotedEquality(property, s, style), "!=") <==> Contains(s, "!=")
    ensures Contains(s, "!=") ==> Find(QuotedEquality(property, s, style), "!=").value >= |Lead(property, style)|
  {
    hide PropertyOk, Lead, QuotedEquality;
    var lead, text := Lead(property, style), QuotedEquality(property, s, style);
    var n, m := |lead|, |lead| + |s|;
    QuotedEqualityParts(property, s, style);
    LeadEndsInQuote(property, style);
    assert text[n..m] == s && text[..n] == lead && text[m] == style.quote;
    if Contains(s, "!=") {
      var k :| 0 <= k <= |s| && OccursAt(s, "!=", k);
      OccursInWhole(text, n, m, "!=", k);
    }
    if Contains(text, "!=") {
      var at := Find(text, "!=").value;
      OccursChars(text, "!=", at);
      if at + 2 <= n {
        OccursInPrefix(text, lead, "!=", at);
        NoInequalityInLead(property, style, at);
      } else {
        OccursInSlice(text, n, m, "!=", at);
      }
    }
  }

  lemma LeadEndsInQuote(property: string, style: Style)
    requires PropertyOk(property, style)
    ensures var lead := Lead(property, style); lead != [] && lead[|lead| - 1] == style.quote
    ensures style.quote != '!' && style.quote != '=' && !IsWhitespace(style.quote) && !IsWhitespace(property[0])
  {
  }

  /** What the cut equality compares: the property with a longer name. */
  lemma CutComparison(property: string, s: string, style: Style)
    requires PropertyOk(property, style) && Contains(s, "!=")
    ensures var c := ParseComparison(QuotedEquality(property, s, style));
            c.Some? && c.value.operator == NotEqual && Lead(property, style) <= c.value.property
  {
    hide Trim, Contains, Find, PropertyOk, QuotedEquality, Lead;
    var text, lead := QuotedEquality(property, s, style), Lead(property, style);
    InequalityIsQuoted(property, s, style);
    QuotedEqualityParts(property, s, style);
    LeadEndsInQuote(property, style);
    LeadStarts(property, style);
    var at := Find(text, "!=").value;
    assert text[..at][..|lead|] == lead;
    TrimKeepsLead(text[..at], |lead| - 1);
  }

  lemma LeadStarts(property: string, style: Style)
    requires PropertyOk(property, style)
    ensures property <= Lead(property, style) && |Lead(property, style)| >= |property| + 3
    ensures Lead(property, style)[0] == property[0]
    ensures var c := Lead(property, style)[|property|]; IsWhitespace(c) || c == '='
  {
    var lead := Lead(property, style);
    assert lead == property + (style.lead + "==" + style.trail + [style.quote]);
    assert style.lead == [] ==> lead[|property|] == '=';
    assert style.lead != [] ==> lead[|property|] == style.lead[0];
  }

  /** How a property is looked up: which space, and under which name. */
  datatype Lookup = Formula(name: string) | OfFile(name: string) | InFrontmatter(key: string)

  function LookupOf(property: string): Lookup {
    if "formula." <= property then Formula(property[8..])
    else if "file." <= property then OfFile(property[5..])
    else if "note." <= property then InFrontmatter(property[5..])
    else InFrontmatter(property)
  }

  lemma ResolvesAs(property: string, row: Row, path: FilterPath)
    ensures ResolveProperty(property, row, path)
            == match LookupOf(property)
               case Formula(name) => Result.Err(FormulaReference(path, name))
               case OfFile(name) =>
                 (match FileProperty(name, row)
                  case Some(value) => Result.Ok(Some(value))
                  case None => Result.Err(UnsupportedFileProperty(path, name)))
               case InFrontmatter(key) => Result.Ok(Get(row.frontmatter, key))
  {
    hide FileProperty, Get;
  }

  /** A longer property is looked up in the same space under a longer name that holds an equals sign. */
  lemma LongerLookup(property: string, longer: string)
    requires property <= longer && |property| < |longer| && '=' in longer[|property|..]
    requires IsWhitespace(longer[|property|]) || longer[|property|] == '='
    ensures match LookupOf(property)
            case Formula(name) => LookupOf(longer).Formula? && LookupOf(longer).name != name
            case OfFile(name) => LookupOf(longer).OfFile? && LookupOf(longer).name != name
              && '=' in LookupOf(longer).name
            case InFrontmatter(key) => LookupOf(longer).InFrontmatter? && LookupOf(longer).key != key
  {
    SamePrefix(property, longer, "formula.");
    SamePrefix(property, longer, "file.");
    SamePrefix(property, longer, "note.");
    var k :| |property| <= k < |longer| && longer[k] == '=';
    if "file." <= property {
      assert longer[5..][k - 5] == '=';
    }
  }

  lemma SamePrefix(property: string, longer: string, prefix: string)
    requires property <= longer && |property| < |longer|
    requires IsWhitespace(longer[|property|]) || longer[|property|] == '='
    requires forall i :: 0 <= i < |prefix| ==> !IsWhitespace(prefix[i]) && prefix[i] != '='
    ensures prefix <= property <==> prefix <= longer
  {
    assert forall i :: 0 <= i < |property| ==> longer[i] == property[i];
    if prefix <= longer && |prefix| <= |property| {
      ShorterPrefix(longer, property, prefix);
    }
  }

  /** No documented file property holds an equals sign. */
  lemma FilePropertiesHaveNoEquals(name: string, row: Row)
    requires '=' in name
    ensures FileProperty(name, row) == None
  {
  }

  /** Where the cut equality's course comes from: the longer name alone. */
  lemma CutEvaluates(property: string, s: string, style: Style, row: Row, path: FilterPath, numbers: NumberSyntax)
    requires PropertyOk(property, style) && Contains(s, "!=")
    ensures ParseComparison(QuotedEquality(property, s, style)).Some?
    ensures var c := ParseComparison(QuotedEquality(property, s, style)).value;
            var resolved := ResolveProperty(c.property, row, path);
            EvaluateLeaf(QuotedEquality(property, s, style), row, path, numbers)
            == if resolved.Err? then Result.Err(resolved.error)
               else match ParseLiteral(c.rhs, path, numbers)
                 case Err(e) => Result.Err(e)
                 case Ok(v) => Result.Ok((if resolved.value.Some? then resolved.value.value else Null) != v)
  {
    hide Trim, CallArgument, ParseContains, ParseComparison, ParseLiteral, ResolveProperty, QuotedEquality, Contains,
      PropertyOk;
    QuotedOperands(property, s, style);
    CutComparison(property, s, style);
  }

  lemma EqualsQuoted(property: string, s: string, quote: char, row: Row, path: FilterPath, numbers: NumberSyntax)
    requires IsQuote(quote)
    ensures var resolved := ResolveProperty(property, row, path);
            Equals(property, Quoted(quote, s), row, path, numbers)
            == if resolved.Err? then Result.Err(resolved.error)
               else Result.Ok((if resolved.value.Some? then resolved.value.value else Null) == Str(s))
  {
    hide ResolveProperty;
    assert ParseQuoted(Quoted(quote, s)) == Some(s);
  }

  /** When the quoted text holds `!=`, some row tells the cut equality from the equality. */
  lemma CutDiffers(property: string, s: string, style: Style, row: Row, path: FilterPath, numbers: NumberSyntax)
      returns (teller: Row)
    requires PropertyOk(property, style) && Contains(s, "!=")
    ensures EvaluateLeaf(QuotedEquality(property, s, style), teller, path, numbers)
            != Equals(property, Quoted(style.quote, s), teller, path, numbers)
  {
    hide EvaluateLeaf, Equals, ParseComparison, ResolveProperty, ParseLiteral, FileProperty, Contains, PropertyOk,
      QuotedEquality, LookupOf, Get, Quoted, Lead;
    CutComparison(property, s, style);
    LeadStarts(property, style);
    LeadHoldsEquals(property, style);
    var longer := ParseComparison(QuotedEquality(property, s, style)).value.property;
    PrefixOfLonger(property, Lead(property, style), longer);
    LongerLookup(property, longer);
    StyleQuote(property, style);
    match LookupOf(property)
    case Formula(_) =>
      teller := row;
      Course(property, longer, s, style, row, path, numbers);
    case OfFile(_) =>
      teller := row;
      Course(property, longer, s, style, row, path, numbers);
      FilePropertiesHaveNoEquals(LookupOf(longer).name, row);
    case InFrontmatter(key) =>
      var same, other := row.(frontmatter := [Field(key, Str(s))]), row.(frontmatter := [Field(key, Str(s + "x"))]);
      Course(property, longer, s, style, same, path, numbers);
      Course(property, longer, s, style, other, path, numbers);
      OneField(key, LookupOf(longer).key, Str(s));
      OneField(key, LookupOf(longer).key, Str(s + "x"));
      assert |s| != |s + "x"|;
      var read := EvaluateLeaf(QuotedEquality(property, s, style), same, path, numbers);
      teller := if read == Result.Ok(true) then other else same;
  }

  lemma StyleQuote(property: string, style: Style)
    requires PropertyOk(property, style)
    ensures IsQuote(style.quote)
  {
  }

  lemma OneField(key: string, other: string, value: Value)
    requires other != key
    ensures Get([Field(key, value)], key) == Some(value) && Get([Field(key, value)], other) == None
  {
  }

  lemma Course(property: string, longer: string, s: string, style: Style, row: Row, path: FilterPath,
    numbers: NumberSyntax)
    requires PropertyOk(property, style) && Contains(s, "!=")
    requires ParseComparison(QuotedEquality(property, s, style)).Some?
    requires longer == ParseComparison(QuotedEquality(property, s, style)).value.property
    ensures var resolved, cut := ResolveProperty(property, row, path), ResolveProperty(longer, row, path);
            var rhs := ParseLiteral(ParseComparison(QuotedEquality(property, s, style)).value.rhs, path, numbers);
            && EvaluateLeaf(QuotedEquality(property, s, style), row, path, numbers)
               == (if cut.Err? then Result.Err(cut.error)
                   else if rhs.Err? then Result.Err(rhs.error)
                   else Result.Ok((if cut.value.Some? then cut.value.value else Null) != rhs.value))
            && Equals(property, Quoted(style.quote, s), row, path, numbers)
               == (if resolved.Err? then Result.Err(resolved.error)
                   else Result.Ok((if resolved.value.Some? then resolved.value.value else Null) == Str(s)))
    ensures ResolveProperty(property, row, path)
            == match LookupOf(property)
               case Formula(name) => Result.Err(FormulaReference(path, name))
               case OfFile(name) =>
                 (match FileProperty(name, row)
                  case Some(value) => Result.Ok(Some(value))
                  case None => Result.Err(UnsupportedFileProperty(path, name)))
               case InFrontmatter(key) => Result.Ok(Get(row.frontmatter, key))
    ensures ResolveProperty(longer, row, path)
            == match LookupOf(longer)
               case Formula(name) => Result.Err(FormulaReference(path, name))
               case OfFile(name) =>
                 (match FileProperty(name, row)
                  case Some(value) => Result.Ok(Some(value))
                  case None => Result.Err(UnsupportedFileProperty(path, name)))
               case InFrontmatter(key) => Result.Ok(Get(row.frontmatter, key))
  {
    hide EvaluateLeaf, Equals, ParseComparison, ResolveProperty, ParseLiteral, FileProperty, Contains, PropertyOk,
      QuotedEquality, LookupOf, Get, Quoted;
    CutEvaluates(property, s, style, row, path, numbers);
    StyleQuote(property, style);
    EqualsQuoted(property, s, style.quote, row, path, numbers);
    ResolvesAs(property, row, path);
    ResolvesAs(longer, row, path);
  }

  lemma LeadHoldsEquals(property: string, style: Style)
    ensures |Lead(property, style)| > |property| && '=' in Lead(property, style)[|property|..]
  {
    var lead := Lead(property, style);
    var k := |property| + |style.lead|;
    assert lead[k] == '=';
    assert lead[|property|..][k - |property|] == '=';
  }

  lemma PrefixOfLonger(property: string, lead: string, longer: string)
    requires property <= lead <= longer && |property| < |lead| && '=' in lead[|property|..]
    ensures '=' in longer[|property|..] && longer[|property|] == lead[|property|]
  {
    var k :| 0 <= k < |lead| - |property| && lead[|property|..][k] == '=';
    assert longer[|property|..][k] == '=';
  }

  /**
   * The exact condition: for any property, an equality with a quoted text means equality on every row just
   * when the text holds no `!=`.
   */
  lemma QuotedEqualityIff(property: string, s: string, style: Style, row: Row, path: FilterPath, numbers: NumberSyntax)
    requires PropertyOk(property, style)
    ensures !Contains(s, "!=") <==>
            forall r: Row :: EvaluateLeaf(QuotedEquality(property, s, style), r, path, numbers)
                             == Equals(property, Quoted(style.quote, s), r, path, numbers)
  {
    hide EvaluateLeaf, QuotedEquality, Contains, Equals, Quoted, PropertyOk;
    if !Contains(s, "!=") {
      forall r: Row
        ensures EvaluateLeaf(QuotedEquality(property, s, style), r, path, numbers)
                == Equals(property, Quoted(style.quote, s), r, path, numbers)
      {
        QuotedEqualityHolds(property, s, style, r, path, numbers);
      }
    } else {
      var teller := CutDiffers(property, s, style, row, path, numbers);
    }
  }

  lemma QuotedEqualityHolds(property: string, s: string, style: Style, row: Row, path: FilterPath,
    numbers: NumberSyntax)
    requires PropertyOk(property, style) && !Contains(s, "!=")
    ensures EvaluateLeaf(QuotedEquality(property, s, style), row, path, numbers)
            == Equals(property, Quoted(style.quote, s), row, path, numbers)
  {
    hide EvaluateLeaf, Equals, Quoted, Contains, ReadsEarlier, Infix;
    QuotedOperands(property, s, style);
    InequalityIsQuoted(property, s, style);
    EqualityLeaf(property, style.lead, style.trail, Quoted(style.quote, s), row, path, numbers);
  }

  /** A quoted text that holds `!=` is cut inside the quotes: the equality is rejected on every row. */
  lemma QuotedInequalityMisreads(row: Row, path: FilterPath, numbers: NumberSyntax)
    requires numbers("b'") == None
    ensures EvaluateLeaf("p == 'a!=b'", row, path, numbers) == Result.Err(UnsupportedFilterExpression(path, "b'"))
  {
    hide Trim, CallArgument, ParseContains, ResolveProperty, ParseLiteral, Find;
    var text := "p == 'a!=b'";
    TrimOfTrimmed(text);
    NoCall(text);
    CutExample();
    TrimOfTrimmed("p == 'a");
    TrimOfTrimmed("b'");
    PlainProperty("p == 'a", row, path);
    UnquotedLiteral("b'", path, numbers);
  }

  lemma CutExample()
    ensures Find("p == 'a!=b'", "!=") == Some(7) && "p == 'a!=b'"[..7] == "p == 'a" && "p == 'a!=b'"[9..] == "b'"
  {
    var text := "p == 'a!=b'";
    assert text[7..9] == "!=";
    forall j | 0 <= j < 7 ensures !OccursAt(text, "!=", j) {
      assert text[j..j + 2][0] == text[j];
    }
    FindIs(text, "!=", 7);
  }

  lemma UnquotedLiteral(text: string, path: FilterPath, numbers: NumberSyntax)
    requires text != [] && text[0] == 'b' && numbers(text) == None
    ensures ParseLiteral(text, path, numbers) == Result.Err(UnsupportedFilterExpression(path, text))
  {
    assert "true"[0] == 't' && "false"[0] == 'f' && "null"[0] == 'n';
  }

  lemma PlainProperty(property: string, row: Row, path: FilterPath)
    requires property != [] && property[0] == 'p'
    ensures ResolveProperty(property, row, path) == Result.Ok(Get(row.frontmatter, property))
  {
    assert "formula."[0] == 'f' && "file."[0] == 'f' && "note."[0] == 'n';
  }
}
