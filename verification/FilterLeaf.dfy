/** One leaf of a Bases filter string: its value on a row, and the scan-root hint it yields. */
module FilterLeaf {
  import opened Text
  import opened Json

  /** Where in the filter tree an error was found. */
  datatype FilterPath =
    | Root
    | Section(parent: FilterPath, operator: string)
    | Operand(parent: FilterPath, operator: string, index: nat)

  datatype Violation =
    | NotStringOrObject
    | EmptyObject
    | OperandsNotArray
    | UnknownOperator(key: string)

  datatype FilterError =
    | MalformedDefinition(path: FilterPath, violation: Violation)
    | UnsupportedFilterExpression(path: FilterPath, expression: string)
    | FormulaReference(path: FilterPath, name: string)
    | UnsupportedFileProperty(path: FilterPath, property: string)

  datatype Result<+T> = Ok(value: T) | Err(error: FilterError)

  datatype FileMetadata = FileMetadata(
    name: string, basename: string, path: string, ext: string, folder: string, size: nat,
    ctime: Option<string>, mtime: Option<string>)

  datatype Row = Row(
    frontmatter: Object, file: FileMetadata,
    tags: seq<string>, links: seq<string>, embeds: seq<string>, backlinks: seq<string>)

  /** Numeric literal syntax (`str::parse` for i64, then f64) is a parameter of the evaluator. */
  type NumberSyntax = string -> Option<Value>

  datatype ComparisonOp = Equal | NotEqual

  datatype Comparison = Comparison(property: string, operator: ComparisonOp, rhs: string)

  datatype Containment = Containment(property: string, needle: string)

  predicate IsQuote(c: char) {
    c == '\'' || c == '"'
  }

  /** Two operands around an operator, with their padding, as a filter writes them. */
  function Infix(left: string, before: string, operator: string, after: string, right: string): string {
    left + (before + (operator + (after + right)))
  }

  function Negated(r: Result<bool>): Result<bool> {
    if r.Err? then r else Ok(!r.value)
  }

  function ParseQuoted(text: string): Option<string> {
    if |text| < 2 || (text[0] != '\'' && text[0] != '"') || text[|text| - 1] != text[0] then None
    else Some(text[1..|text| - 1])
  }

  function ParseContains(expr: string): Option<Containment> {
    match Find(expr, ".contains(")
    case None => None
    case Some(open) =>
      match StripSuffix(expr[open + |".contains("|..], ")")
      case None => None
      case Some(inner) =>
        match ParseQuoted(Trim(inner))
        case None => None
        case Some(needle) => Some(Containment(Trim(expr[..open]), needle))
  }

  function ParseComparison(expr: string): Option<Comparison> {
    match Find(expr, "!=")
    case Some(at) => Some(Comparison(Trim(expr[..at]), NotEqual, Trim(expr[at + 2..])))
    case None =>
      match Find(expr, "==")
      case Some(at) => Some(Comparison(Trim(expr[..at]), Equal, Trim(expr[at + 2..])))
      case None => None
  }

  function ParseLiteral(text: string, path: FilterPath, numbers: NumberSyntax): (r: Result<Value>)
    ensures r.Err? ==> !r.error.MalformedDefinition?
  {
    match ParseQuoted(text)
    case Some(quoted) => Ok(Str(quoted))
    case None =>
      if text == "true" then Ok(Bool(true))
      else if text == "false" then Ok(Bool(false))
      else if text == "null" then Ok(Null)
      else match numbers(text)
        case Some(number) => Ok(number)
        case None => Err(UnsupportedFilterExpression(path, text))
  }

  function StringList(items: seq<string>): Value {
    Arr(seq(|items|, i requires 0 <= i < |items| => Str(items[i])))
  }

  function Timestamp(t: Option<string>): Value {
    match t case None => Null case Some(text) => Str(text)
  }

  function FileProperty(name: string, row: Row): Option<Value> {
    match name
    case "ext" => Some(Str(row.file.ext))
    case "name" => Some(Str(row.file.name))
    case "basename" => Some(Str(row.file.basename))
    case "path" => Some(Str(row.file.path))
    case "folder" => Some(Str(row.file.folder))
    case "size" => Some(Num(Integer(row.file.size)))
    case "ctime" => Some(Timestamp(row.file.ctime))
    case "mtime" => Some(Timestamp(row.file.mtime))
    case "tags" => Some(StringList(row.tags))
    case "links" => Some(StringList(row.links))
    case "embeds" => Some(StringList(row.embeds))
    case "backlinks" => Some(StringList(row.backlinks))
    case "properties" => Some(Obj(row.frontmatter))
    case _ => None
  }

  function ResolveProperty(property: string, row: Row, path: FilterPath): (r: Result<Option<Value>>)
    ensures r.Err? ==> !r.error.MalformedDefinition?
  {
    match StripPrefix(property, "formula.")
    case Some(name) => Err(FormulaReference(path, name))
    case None =>
      match StripPrefix(property, "file.")
      case Some(name) =>
        (match FileProperty(name, row)
         case Some(value) => Ok(Some(value))
         case None => Err(UnsupportedFileProperty(path, name)))
      case None =>
        match StripPrefix(property, "note.")
        case Some(key) => Ok(Get(row.frontmatter, key))
        case None => Ok(Get(row.frontmatter, property))
  }

  function TrimEndSlashes(folder: string): string {
    if folder != [] && folder[|folder| - 1] == '/' then TrimEndSlashes(folder[..|folder| - 1]) else folder
  }

  predicate InFolder(candidate: string, folder: string) {
    var folder := TrimEndSlashes(folder);
    candidate == folder || folder + "/" <= candidate
  }

  /** The argument of `name('...')` when `trimmed` is exactly such a call. */
  function CallArgument(trimmed: string, name: string): Option<string> {
    match StripPrefix(trimmed, name)
    case None => None
    case Some(rest) =>
      match StripSuffix(rest, ")")
      case None => None
      case Some(inner) => ParseQuoted(Trim(inner))
  }

  predicate HoldsNeedle(value: Option<Value>, needle: string) {
    match value
    case Some(Str(text)) => Contains(text, needle)
    case Some(Arr(items)) => Str(needle) in items
    case _ => false
  }

  function EvaluateLeaf(expr: string, row: Row, path: FilterPath, numbers: NumberSyntax): (r: Result<bool>)
    ensures r.Err? ==> !r.error.MalformedDefinition?
  {
    EvaluateTrimmed(Trim(expr), row, path, numbers)
  }

  function EvaluateTrimmed(trimmed: string, row: Row, path: FilterPath, numbers: NumberSyntax): (r: Result<bool>)
    ensures r.Err? ==> !r.error.MalformedDefinition?
  {
    var tag := CallArgument(trimmed, "file.hasTag(");
    var folder := CallArgument(trimmed, "file.inFolder(");
    if tag.Some? then Ok(tag.value in row.tags)
    else if folder.Some? then Ok(InFolder(row.file.folder, folder.value))
    else match ParseContains(trimmed)
      case Some(Containment(property, needle)) =>
        (match ResolveProperty(property, row, path)
         case Err(error) => Err(error)
         case Ok(value) => Ok(HoldsNeedle(value, needle)))
      case None => EvaluateComparison(trimmed, row, path, numbers)
  }

  function EvaluateComparison(trimmed: string, row: Row, path: FilterPath, numbers: NumberSyntax): (r: Result<bool>)
    ensures r.Err? ==> !r.error.MalformedDefinition?
  {
    match ParseComparison(trimmed)
    case None => Err(UnsupportedFilterExpression(path, trimmed))
    case Some(Comparison(property, operator, rhs)) =>
      match ResolveProperty(property, row, path)
      case Err(error) => Err(error)
      case Ok(value) =>
        var value := if value.Some? then value.value else Null;
        match ParseLiteral(rhs, path, numbers)
        case Err(error) => Err(error)
        case Ok(literal) => Ok(if operator.Equal? then value == literal else value != literal)
  }

  /** A directory, or a file whose parent directory, bounds every match. */
  datatype ScanRootHint = NoHint | Folder(folder: string) | Path(path: string)

  function LeafScanHint(expr: string): ScanRootHint {
    TrimmedScanHint(Trim(expr))
  }

  function TrimmedScanHint(trimmed: string): ScanRootHint {
    if IsFolderCall(trimmed) then
      match CallArgument(trimmed, "file.inFolder(")
      case Some(folder) => Folder(folder)
      case None => NoHint
    else ComparisonScanHint(ParseComparison(trimmed))
  }

  predicate IsFolderCall(trimmed: string) {
    var call := StripPrefix(trimmed, "file.inFolder(");
    call.Some? && StripSuffix(call.value, ")").Some?
  }

  /** Only an equality anchors the whole path or folder. */
  function ComparisonScanHint(comparison: Option<Comparison>): ScanRootHint {
    match comparison
    case Some(Comparison(property, Equal, rhs)) =>
      (match ParseQuoted(rhs)
       case None => NoHint
       case Some(quoted) =>
         if property == "file.path" then Path(quoted)
         else if property == "file.folder" then Folder(quoted)
         else NoHint)
    case _ => NoHint
  }

  /** What a hint promises about a matching row: scanning only there cannot miss it. */
  predicate HintHolds(hint: ScanRootHint, row: Row) {
    match hint
    case NoHint => true
    case Folder(folder) => InFolder(row.file.folder, folder)
    case Path(path) => row.file.path == path
  }

  lemma TrimEndSlashesShape(folder: string)
    ensures TrimEndSlashes(folder) == folder || TrimEndSlashes(folder) + "/" <= folder
  {
  }

  /** `in_folder` is reflexive although it trims trailing slashes of one side only. */
  lemma InFolderReflexive(folder: string)
    ensures InFolder(folder, folder)
  {
    TrimEndSlashesShape(folder);
  }

  /** The right operand of `==` and everything after it survives trimming. */
  lemma {:induction false} TrimKeepsLead(s: string, k: nat)
    requires k < |s| && !IsWhitespace(s[0]) && !IsWhitespace(s[k])
    ensures s[..k + 1] <= Trim(s)
    decreases |s|
  {
    assert TrimStart(s) == s;
    if IsWhitespace(s[|s| - 1]) {
      var shorter := s[..|s| - 1];
      assert TrimStart(shorter) == shorter;
      TrimKeepsLead(shorter, k);
      assert shorter[..k + 1] == s[..k + 1];
    }
  }

  lemma {:induction false} TrimEndDropsWhitespace(s: string, i: nat)
    requires |TrimEnd(s)| <= i < |s|
    ensures IsWhitespace(s[i])
    decreases |s|
  {
    if i < |s| - 1 {
      TrimEndDropsWhitespace(s[..|s| - 1], i);
    }
  }

  /** The two properties whose equality anchors a row's location. */
  predicate IsLocation(property: string) {
    property == "file.path" || property == "file.folder"
  }

  function Location(property: string, row: Row): string {
    if property == "file.path" then row.file.path else row.file.folder
  }

  lemma LocationResolves(property: string, row: Row, path: FilterPath)
    requires IsLocation(property)
    ensures ResolveProperty(property, row, path) == Ok(Some(Str(Location(property, row))))
  {
    assert property[1] == 'i' && "formula."[1] == 'o';
    assert property[5..] == if property == "file.path" then "path" else "folder";
  }

  /** No documented file property extends `file.path` or `file.folder`. */
  lemma NoLongerProperty(property: string, location: string, row: Row, path: FilterPath)
    requires IsLocation(location) && location <= property && |property| > |location|
    ensures ResolveProperty(property, row, path).Err?
  {
    var rest := property[5..];
    assert location[..5] == "file." && property == "file." + rest;
    assert rest[0] == location[5] && rest[1] == location[6];
    assert property[1] == 'i' && "formula."[1] == 'o';
    assert FileProperty(rest, row).None?;
  }

  /** In `file.path == ...` the substring `.contains(` can only occur to the right of the `==`. */
  lemma ContainsFollowsEquals(trimmed: string, at: nat, open: nat, location: string)
    requires IsLocation(location)
    requires OccursAt(trimmed, "==", at) && OccursAt(trimmed, ".contains(", open)
    requires TrimEnd(trimmed[..at]) == location
    ensures at + 2 <= open
  {
    var lhs := trimmed[..at];
    TrimEndIsPrefix(lhs);
    assert forall i :: 0 <= i < |location| ==> trimmed[i] == location[i];
    assert trimmed[open] == trimmed[open..open + 10][0] == '.';
    assert trimmed[open + 1] == trimmed[open..open + 10][1] == 'c';
    assert trimmed[at] == trimmed[at..at + 2][0] == '=';
    assert trimmed[at + 1] == trimmed[at..at + 2][1] == '=';
    if |location| <= open < at {
      TrimEndDropsWhitespace(lhs, open);
    }
  }

  lemma ContainmentExtendsProperty(trimmed: string, at: nat, open: nat, location: string)
    requires IsTrimmed(trimmed) && IsLocation(location)
    requires OccursAt(trimmed, "==", at) && OccursAt(trimmed, ".contains(", open)
    requires Trim(trimmed[..at]) == location
    ensures location <= Trim(trimmed[..open]) && |Trim(trimmed[..open])| > |location|
  {
    var lhs, lead := trimmed[..at], trimmed[..open];
    assert TrimStart(lhs) == lhs;
    TrimEndIsPrefix(lhs);
    ContainsFollowsEquals(trimmed, at, open, location);
    assert trimmed[at + 1] == trimmed[at..at + 2][1] == '=';
    TrimKeepsLead(lead, at + 1);
    assert location <= lead[..at + 2];
  }

  /**
   * `file.path == x.contains('y')` parses as a containment first, but then names a file property
   * that does not exist, so the leaf hint (which skips containments) never disagrees with a match.
   */
  lemma ComparisonHintRulesOutContains(trimmed: string, c: Comparison, row: Row, path: FilterPath)
    requires IsTrimmed(trimmed) && ParseComparison(trimmed) == Some(c)
    requires IsLocation(c.property) && c.operator.Equal?
    requires ParseContains(trimmed).Some?
    ensures ResolveProperty(ParseContains(trimmed).value.property, row, path).Err?
  {
    var at, open := Find(trimmed, "==").value, Find(trimmed, ".contains(").value;
    ContainmentExtendsProperty(trimmed, at, open, c.property);
    NoLongerProperty(Trim(trimmed[..open]), c.property, row, path);
  }

  /** Leaf case of scan-root safety: a matching leaf's hint describes the row. */
  lemma LeafHintSound(expr: string, row: Row, path: FilterPath, numbers: NumberSyntax)
    requires EvaluateLeaf(expr, row, path, numbers) == Ok(true)
    ensures HintHolds(LeafScanHint(expr), row)
  {
    var trimmed := Trim(expr);
    TrimIsTrimmed(expr);
    if IsFolderCall(trimmed) {
      CallsAreExclusive(trimmed);
    } else if !ComparisonScanHint(ParseComparison(trimmed)).NoHint? {
      var c := ParseComparison(trimmed).value;
      EqualityLeafSound(trimmed, c, row, path, numbers);
      InFolderReflexive(row.file.folder);
    }
  }

  lemma CallsAreExclusive(trimmed: string)
    requires "file.inFolder(" <= trimmed
    ensures CallArgument(trimmed, "file.hasTag(").None?
  {
    assert trimmed[5] == "file.inFolder("[5] == 'i';
    assert "file.hasTag("[5] == 'h';
  }

  lemma LocationsAreNotCalls(trimmed: string, location: string)
    requires IsLocation(location) && location <= trimmed
    ensures CallArgument(trimmed, "file.hasTag(").None? && CallArgument(trimmed, "file.inFolder(").None?
  {
    assert trimmed[5] == location[5];
    assert "file.hasTag("[5] == 'h' && "file.inFolder("[5] == 'i';
  }

  /** A matching equality leaf on the row's location quotes exactly that location. */
  lemma EqualityLeafSound(trimmed: string, c: Comparison, row: Row, path: FilterPath, numbers: NumberSyntax)
    requires IsTrimmed(trimmed) && ParseComparison(trimmed) == Some(c)
    requires IsLocation(c.property) && c.operator.Equal? && ParseQuoted(c.rhs).Some?
    requires EvaluateTrimmed(trimmed, row, path, numbers) == Ok(true)
    ensures ParseQuoted(c.rhs).value == Location(c.property, row)
  {
    OnlyComparisonApplies(trimmed, c, row, path, numbers);
    LocationResolves(c.property, row, path);
  }

  lemma OnlyComparisonApplies(trimmed: string, c: Comparison, row: Row, path: FilterPath, numbers: NumberSyntax)
    requires IsTrimmed(trimmed) && ParseComparison(trimmed) == Some(c)
    requires IsLocation(c.property) && c.operator.Equal?
    requires EvaluateTrimmed(trimmed, row, path, numbers).Ok?
    ensures EvaluateTrimmed(trimmed, row, path, numbers) == EvaluateComparison(trimmed, row, path, numbers)
  {
    ComparisonProperty(trimmed, c.property);
    LocationsAreNotCalls(trimmed, c.property);
    if ParseContains(trimmed).Some? {
      ComparisonHintRulesOutContains(trimmed, c, row, path);
    }
  }

  /** A trimmed comparison starts with its left operand. */
  lemma ComparisonProperty(trimmed: string, property: string)
    requires IsTrimmed(trimmed) && ParseComparison(trimmed).Some?
    requires ParseComparison(trimmed).value.property == property && property != []
    ensures property <= trimmed
  {
    var at := if Find(trimmed, "!=").Some? then Find(trimmed, "!=").value else Find(trimmed, "==").value;
    var lhs := trimmed[..at];
    if lhs != [] {
      assert TrimStart(lhs) == lhs;
      TrimEndIsPrefix(lhs);
    }
  }

  /** Whether a property can be resolved does not depend on the row. */
  lemma ResolveIsRowIndependent(property: string, row: Row, other: Row, path: FilterPath)
    ensures var a, b := ResolveProperty(property, row, path), ResolveProperty(property, other, path);
            a.Ok? == b.Ok? && (a.Err? ==> a == b)
  {
  }

  /** Whether a leaf is supported, and the error if not, does not depend on the row. */
  lemma LeafFailsClosed(expr: string, row: Row, other: Row, path: FilterPath, numbers: NumberSyntax)
    ensures var a, b := EvaluateLeaf(expr, row, path, numbers), EvaluateLeaf(expr, other, path, numbers);
            a.Ok? == b.Ok? && (a.Err? ==> a == b)
  {
    var trimmed := Trim(expr);
    var contains, comparison := ParseContains(trimmed), ParseComparison(trimmed);
    if contains.Some? {
      ResolveIsRowIndependent(contains.value.property, row, other, path);
    } else if comparison.Some? {
      ResolveIsRowIndependent(comparison.value.property, row, other, path);
    }
  }
}
