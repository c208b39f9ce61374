/** Reconciling a whole `index.md`: markers, prose around them, idempotence and preservation. */
module IndexReconcile {
  import opened Text
  import opened IndexBlock
  import opened IndexNames

  function BeginMarker(): string {
    "<!-- contextos:index:begin -->"
  }

  function EndMarker(): string {
    "<!-- contextos:index:end -->"
  }

  predicate IsMarker(m: string) {
    m == BeginMarker() || m == EndMarker()
  }

  function Block(entries: seq<Entry>, existing: map<string, string>): string {
    BeginMarker() + Inner(entries, existing) + EndMarker()
  }

  method RenderBlock(entries: seq<Entry>, existing: map<string, string>) returns (block: string)
    ensures block == Block(entries, existing)
  {
    hide BeginMarker, EndMarker, HeadRow, RuleRow, SummaryFor, Ended, RenderRow;
    ghost var head, rows := ["", HeadRow(), RuleRow()], RowLines(entries, existing);
    block := BeginMarker() + "\n" + HeadRow() + "\n" + RuleRow();
    HeadEnded(head, BeginMarker());
    assert head + rows[..0] == head;
    for i := 0 to |entries|
      invariant block + "\n" == BeginMarker() + Ended(head + rows[..i])
    {
      assert head + rows[..i + 1] == (head + rows[..i]) + [rows[i]];
      RowAppended(BeginMarker(), head + rows[..i], rows[i], block);
      block := block + "\n";
      block := RenderEntry(block, entries[i], SummaryFor(entries[i], existing));
    }
    assert rows[..|entries|] == rows;
    block := block + "\n";
    block := block + EndMarker();
  }

  /** Pushes one row, piece by piece. */
  method RenderEntry(block: string, e: Entry, summary: string) returns (r: string)
    ensures r == block + RenderRow(e, summary)
  {
    var close := ") | " + (summary + " |");
    match e.kind {
      case Directory => r := block + ("| [" + (e.name + ("/](" + (e.name + ("/index.md" + close)))));
      case File => r := block + ("| [" + (e.name + ("](" + (e.name + close))));
    }
  }

  lemma RowAppended(begin: string, lines: seq<string>, row: string, block: string)
    requires block + "\n" == begin + Ended(lines)
    ensures block + "\n" + row + "\n" == begin + Ended(lines + [row])
  {
    hide Ended;
    EndedSnoc(lines, row);
    assert begin + (Ended(lines) + row + "\n") == begin + Ended(lines) + row + "\n";
  }

  lemma HeadEnded(head: seq<string>, begin: string)
    requires |head| == 3 && head[0] == ""
    ensures begin + Ended(head) == begin + "\n" + head[1] + "\n" + head[2] + "\n"
  {
    assert head[1..] == [head[1], head[2]] && head[1..][1..] == [head[2]] && [head[2]][1..] == [];
    assert Ended([head[2]]) == head[2] + "\n" + "";
    assert Ended(head[1..]) == head[1] + "\n" + Ended([head[2]]);
    assert Ended(head) == "" + "\n" + Ended(head[1..]);
  }

  datatype IndexError =
    | InvalidMarkers
    | InvalidRowAt(line: nat)
    | InvalidEntryName(name: string)
    | DuplicateEntry(name: string)

  datatype Outcome = Document(text: string) | Rejected(error: IndexError)

  /** The first `<` of an end marker lies after the whole begin marker. */
  lemma MarkersDisjoint(source: string, begin: nat, end: nat)
    requires OccursAt(source, BeginMarker(), begin) && OccursAt(source, EndMarker(), end) && begin < end
    ensures begin + |BeginMarker()| <= end
  {
    OccursChars(source, BeginMarker(), begin);
    OccursChars(source, EndMarker(), end);
  }

  function WithoutBlock(source: string): string {
    var ended := if source == [] || source[|source| - 1] != '\n' then source + "\n" else source;
    ended + "\n" + "## Contents\n\n"
  }

  function ReconcileExisting(source: string, entries: seq<Entry>): Outcome {
    match (Find(source, BeginMarker()), Find(source, EndMarker()))
    case (None, None) => Document(WithoutBlock(source) + Block(entries, map[]) + "\n")
    case (Some(begin), Some(end)) =>
      if begin < end then
        MarkersDisjoint(source, begin, end);
        var after := end + |EndMarker()|;
        var inner := source[begin + |BeginMarker()|..end];
        if Contains(source[after..], BeginMarker()) || Contains(source[after..], EndMarker())
           || Contains(inner, BeginMarker())
        then Rejected(InvalidMarkers)
        else (match ExistingSummaries(inner, |Lines(source[..begin])| + 1)
              case InvalidRow(line) => Rejected(InvalidRowAt(line))
              case Ok(summaries) => Document(source[..begin] + Block(entries, summaries) + source[after..]))
      else Rejected(InvalidMarkers)
    case _ => Rejected(InvalidMarkers)
  }

  // ---------- markers inside composed text ----------

  /** Characters that no marker holds. */
  predicate ForeignToMarkers(c: char) {
    c == '\n' || c == '|' || c == '[' || c == ']' || c == '(' || c == ')' || c == '/'
  }

  /** What the proofs need to know of a marker: where `<` and `>` stand and what it does not hold. */
  ghost predicate LooksLikeMarker(m: string) {
    28 <= |m| <= 30 && m[0] == '<' && m[|m| - 1] == '>' && m[2] == '-'
    && forall i :: 0 < i < |m| ==> m[i] != '<' && !ForeignToMarkers(m[i])
  }

  lemma BeginMarkerLooks()
    ensures LooksLikeMarker(BeginMarker()) && |BeginMarker()| == 30
  {
  }

  lemma EndMarkerLooks()
    ensures LooksLikeMarker(EndMarker()) && |EndMarker()| == 28
  {
  }

  lemma MarkerFacts(m: string)
    requires IsMarker(m)
    ensures LooksLikeMarker(m) && 0 < |EndMarker()| <= |m| <= |BeginMarker()|
    ensures forall c :: ForeignToMarkers(c) ==> c !in m
  {
    hide BeginMarker, EndMarker;
    BeginMarkerLooks();
    EndMarkerLooks();
  }

  lemma NeitherMarkerHoldsTheOther()
    ensures !Contains(BeginMarker(), EndMarker())
  {
    var b, e := BeginMarker(), EndMarker();
    assert b[21] == 'b' && e[21] == 'e' && e[0] == '<';
    forall j | 0 <= j <= |b| ensures !OccursAt(b, e, j) {
      if OccursAt(b, e, j) {
        OccursChars(b, e, j);
      }
    }
  }

  /** A text with no `<` holds no marker. */
  lemma NoAngleNoMarker(s: string, m: string)
    requires IsMarker(m) && '<' !in s
    ensures !Contains(s, m)
  {
    hide BeginMarker, EndMarker;
    MarkerFacts(m);
    forall i | 0 <= i <= |s| ensures !OccursAt(s, m, i) {
      if OccursAt(s, m, i) {
        OccursChars(s, m, i);
      }
    }
  }

  /** An occurrence never straddles a character the pattern does not hold. */
  lemma SplitAt(a: string, c: char, b: string, m: string)
    requires c !in m && m != []
    requires !Contains(a, m) && !Contains(b, m)
    ensures !Contains(a + [c] + b, m)
  {
    var s := a + [c] + b;
    assert s[|a|] == c && s[|a| + 1..|s|] == b;
    forall i | 0 <= i <= |s| ensures !OccursAt(s, m, i) {
      if OccursAt(s, m, i) {
        OccursChars(s, m, i);
        if i + |m| <= |a| {
          OccursInPrefix(s, a, m, i);
        } else if |a| < i {
          OccursInSlice(s, |a| + 1, |s|, m, i);
        }
      }
    }
  }

  /** A slice holds no more than the whole. */
  lemma SliceHoldsNoMarker(s: string, from: nat, to: nat, m: string)
    requires from <= to <= |s| && !Contains(s, m)
    ensures !Contains(s[from..to], m)
  {
    forall i | 0 <= i <= to - from ensures !OccursAt(s[from..to], m, i) {
      if OccursAt(s[from..to], m, i) {
        OccursInWhole(s, from, to, m, i);
      }
    }
  }

  /** One line, and no marker in it. */
  ghost predicate Clean(s: string) {
    '\n' !in s && !Contains(s, BeginMarker()) && !Contains(s, EndMarker())
  }

  ghost predicate CleanSummaries(existing: map<string, string>) {
    forall name :: name in existing ==> Clean(existing[name])
  }

  ghost predicate NoMarker(s: string) {
    !Contains(s, BeginMarker()) && !Contains(s, EndMarker())
  }

  /** No name holds a marker, and no derived summary of an entry that is not recorded yet does. */
  ghost predicate MarkerFree(entries: seq<Entry>, existing: map<string, string>) {
    forall e :: e in entries ==> NoMarker(e.name) && (e.name !in existing ==> NoMarker(SingleLine(e.suggested)))
  }

  lemma AutoMarkAddsNoMarker(s: string, m: string)
    requires IsMarker(m) && !Contains(s, m)
    ensures !Contains(s + AutoMark(), m)
  {
    hide BeginMarker, EndMarker;
    MarkerFacts(m);
    var t := s + AutoMark();
    assert forall k :: |s| <= k < |t| ==> t[k] == AutoMark()[k - |s|];
    assert t[|s| + 1] == '<' && forall k :: |s| <= k < |t| - 1 ==> t[k] != '>';
    forall i | 0 <= i <= |t| ensures !OccursAt(t, m, i) {
      if OccursAt(t, m, i) {
        OccursChars(t, m, i);
        if i + |m| <= |s| {
          OccursInPrefix(t, s, m, i);
        }
      }
    }
  }

  lemma PaddingAddsNoMarker(s: string, m: string)
    requires IsMarker(m) && !Contains(s, m)
    ensures !Contains(" " + s + " ", m)
  {
    hide BeginMarker, EndMarker;
    MarkerFacts(m);
    var t := " " + s + " ";
    assert t[0] == ' ' && t[|t| - 1] == ' ' && t[1..|t| - 1] == s;
    forall i | 0 <= i <= |t| ensures !OccursAt(t, m, i) {
      if OccursAt(t, m, i) {
        OccursChars(t, m, i);
        LastOccursChar(t, m, i);
        if 1 <= i && i + |m| <= |t| - 1 {
          OccursInSlice(t, 1, |t| - 1, m, i);
        }
      }
    }
  }

  lemma LastOccursChar(t: string, m: string, i: nat)
    requires OccursAt(t, m, i) && m != []
    ensures t[i + |m| - 1] == m[|m| - 1]
  {
    OccursChars(t, m, i);
  }

  /** A row's summary holds a marker exactly when it is derived and what it is derived from does. */
  lemma SummaryForHolds(e: Entry, existing: map<string, string>, m: string)
    requires CleanSummaries(existing) && IsMarker(m)
    ensures Contains(SummaryFor(e, existing), m) <==> e.name !in existing && Contains(SingleLine(e.suggested), m)
  {
    hide BeginMarker, EndMarker, Contains;
    if e.name !in existing {
      var derived := SingleLine(e.suggested);
      if Contains(derived, m) {
        SliceInWhole(derived + AutoMark(), 0, |derived|, m);
        assert (derived + AutoMark())[0..|derived|] == derived;
      } else {
        AutoMarkAddsNoMarker(derived, m);
      }
    }
  }

  lemma SliceInWhole(s: string, from: nat, to: nat, m: string)
    requires from <= to <= |s| && Contains(s[from..to], m)
    ensures Contains(s, m)
  {
    var i :| 0 <= i <= to - from && OccursAt(s[from..to], m, i);
    OccursInWhole(s, from, to, m, i);
  }

  lemma FileRowHoldsNoMarker(name: string, summary: string, m: string)
    requires IsMarker(m) && !Contains(name, m) && !Contains(summary, m)
    ensures !Contains("| [" + (name + ("](" + (name + (") | " + (summary + " |"))))), m)
  {
    hide BeginMarker, EndMarker, Contains;
    MarkerFacts(m);
    NoAngleNoMarker("", m);
    NoAngleNoMarker("| ", m);
    NoAngleNoMarker(" ", m);
    PaddingAddsNoMarker(summary, m);
    var r1 := " " + summary + " " + ['|'] + "";
    SplitAt(" " + summary + " ", '|', "", m);
    var r2 := " " + ['|'] + r1;
    SplitAt(" ", '|', r1, m);
    var r3 := name + [')'] + r2;
    SplitAt(name, ')', r2, m);
    var r4 := "" + ['('] + r3;
    SplitAt("", '(', r3, m);
    var r5 := name + [']'] + r4;
    SplitAt(name, ']', r4, m);
    SplitAt("| ", '[', r5, m);
    assert "| " + ['['] + r5 == "| [" + (name + ("](" + (name + (") | " + (summary + " |")))));
  }

  lemma DirectoryRowHoldsNoMarker(name: string, summary: string, m: string)
    requires IsMarker(m) && !Contains(name, m) && !Contains(summary, m)
    ensures !Contains("| [" + (name + ("/](" + (name + ("/index.md" + (") | " + (summary + " |")))))), m)
  {
    hide BeginMarker, EndMarker, Contains;
    MarkerFacts(m);
    NoAngleNoMarker("", m);
    NoAngleNoMarker("| ", m);
    NoAngleNoMarker(" ", m);
    NoAngleNoMarker("index.md", m);
    PaddingAddsNoMarker(summary, m);
    var r1 := " " + summary + " " + ['|'] + "";
    SplitAt(" " + summary + " ", '|', "", m);
    var r2 := " " + ['|'] + r1;
    SplitAt(" ", '|', r1, m);
    var r3 := "index.md" + [')'] + r2;
    SplitAt("index.md", ')', r2, m);
    var r4 := name + ['/'] + r3;
    SplitAt(name, '/', r3, m);
    var r5 := "" + ['('] + r4;
    SplitAt("", '(', r4, m);
    var r6 := "" + [']'] + r5;
    SplitAt("", ']', r5, m);
    var r7 := name + ['/'] + r6;
    SplitAt(name, '/', r6, m);
    SplitAt("| ", '[', r7, m);
    assert "| " + ['['] + r7 == "| [" + (name + ("/](" + (name + ("/index.md" + (") | " + (summary + " |"))))));
  }

  lemma {:induction false} EndedHoldsNoMarker(lines: seq<string>, m: string)
    requires IsMarker(m) && forall i :: 0 <= i < |lines| ==> !Contains(lines[i], m)
    ensures !Contains(Ended(lines), m)
    decreases |lines|
  {
    hide BeginMarker, EndMarker, Contains;
    MarkerFacts(m);
    if lines == [] {
      NoAngleNoMarker("", m);
    } else {
      EndedHoldsNoMarker(lines[1..], m);
      SplitAt(lines[0], '\n', Ended(lines[1..]), m);
      assert lines[0] + ['\n'] + Ended(lines[1..]) == Ended(lines);
    }
  }

  /** A row holds a marker exactly when its name or its summary does. */
  lemma RowHolds(e: Entry, summary: string, m: string)
    requires IsMarker(m)
    ensures Contains(RenderRow(e, summary), m) <==> Contains(e.name, m) || Contains(summary, m)
  {
    hide BeginMarker, EndMarker, Contains;
    var row := RenderRow(e, summary);
    if Contains(e.name, m) {
      assert row[3..3 + |e.name|] == e.name;
      SliceInWhole(row, 3, 3 + |e.name|, m);
    } else if Contains(summary, m) {
      var n := if e.kind.Directory? then 2 * |e.name| + 19 else 2 * |e.name| + 9;
      assert row[n..|row| - 2] == summary;
      SliceInWhole(row, n, |row| - 2, m);
    } else {
      FileRowHoldsNoMarker(e.name, summary, m);
      DirectoryRowHoldsNoMarker(e.name, summary, m);
    }
  }

  lemma {:induction false} LineInEnded(lines: seq<string>, i: nat, m: string)
    requires i < |lines| && Contains(lines[i], m)
    ensures Contains(Ended(lines), m)
    decreases |lines|
  {
    hide Contains;
    var text := Ended(lines);
    if i == 0 {
      assert text[0..|lines[0]|] == lines[0];
      SliceInWhole(text, 0, |lines[0]|, m);
    } else {
      LineInEnded(lines[1..], i - 1, m);
      assert text[|lines[0]| + 1..|text|] == Ended(lines[1..]);
      SliceInWhole(text, |lines[0]| + 1, |text|, m);
    }
  }

  /** What is printed between the markers holds a marker exactly when some row's name or summary does. */
  lemma InnerHolds(entries: seq<Entry>, existing: map<string, string>, m: string)
    requires IsMarker(m)
    ensures Contains(Inner(entries, existing), m) <==>
            exists e :: e in entries && (Contains(e.name, m) || Contains(SummaryFor(e, existing), m))
  {
    hide BeginMarker, EndMarker, Contains, SummaryFor, Inner, RenderRow, Ended, BlockLines, HeadRow, RuleRow;
    var lines := BlockLines(entries, existing);
    InnerUnfolds(entries, existing);
    BlockLength(entries, existing);
    if e :| e in entries && (Contains(e.name, m) || Contains(SummaryFor(e, existing), m)) {
      var i :| 0 <= i < |entries| && entries[i] == e;
      BlockLineIs(entries, existing, i);
      RowHolds(e, SummaryFor(e, existing), m);
      LineInEnded(lines, i + 3, m);
    } else {
      forall i | 0 <= i < |lines| ensures !Contains(lines[i], m) {
        if i < 3 {
          HeadHoldsNoMarker(entries, existing, i, m);
        } else {
          BlockLineIs(entries, existing, i - 3);
          assert entries[i - 3] in entries;
          RowHolds(entries[i - 3], SummaryFor(entries[i - 3], existing), m);
        }
      }
      EndedHoldsNoMarker(lines, m);
    }
  }

  lemma HeadHoldsNoMarker(entries: seq<Entry>, existing: map<string, string>, i: nat, m: string)
    requires i < 3 && IsMarker(m)
    ensures i < |BlockLines(entries, existing)| && !Contains(BlockLines(entries, existing)[i], m)
  {
    hide BeginMarker, EndMarker, Contains, RowLines;
    var lines := BlockLines(entries, existing);
    assert lines[0] == "" && lines[1] == HeadRow() && lines[2] == RuleRow();
    assert '<' !in HeadRow() && '<' !in RuleRow();
    NoAngleNoMarker(lines[i], m);
  }

  /** The rows are free of markers exactly when the entries are. */
  lemma MarkerFreeIff(entries: seq<Entry>, existing: map<string, string>)
    requires CleanSummaries(existing)
    ensures MarkerFree(entries, existing) <==> NoMarker(Inner(entries, existing))
  {
    hide BeginMarker, EndMarker, Contains, SummaryFor, Inner, SingleLine;
    InnerHolds(entries, existing, BeginMarker());
    InnerHolds(entries, existing, EndMarker());
    forall e | e in entries
      ensures NoMarker(SummaryFor(e, existing)) <==> (e.name !in existing ==> NoMarker(SingleLine(e.suggested)))
    {
      SummaryForHolds(e, existing, BeginMarker());
      SummaryForHolds(e, existing, EndMarker());
    }
  }

  lemma InnerUnfolds(entries: seq<Entry>, existing: map<string, string>)
    ensures Inner(entries, existing) == Ended(BlockLines(entries, existing))
    ensures var inner := Inner(entries, existing); inner != [] && inner[0] == '\n' && inner[|inner| - 1] == '\n'
  {
    var lines := ["", HeadRow(), RuleRow()] + RowLines(entries, existing);
    EndedEndsWithNewline(lines);
    assert Ended(lines) == "" + "\n" + Ended(lines[1..]);
  }

  lemma {:induction false} EndedEndsWithNewline(lines: seq<string>)
    requires lines != []
    ensures Ended(lines) != [] && Ended(lines)[|Ended(lines)| - 1] == '\n'
    decreases |lines|
  {
    if |lines| > 1 { EndedEndsWithNewline(lines[1..]); }
  }

  // ---------- what the parser reads stays clean ----------

  lemma {:induction false} LinesAreSlices(s: string, m: string)
    requires !Contains(s, m)
    ensures forall i :: 0 <= i < |Lines(s)| ==> '\n' !in Lines(s)[i] && !Contains(Lines(s)[i], m)
    decreases |s|
  {
    hide Contains;
    if s != [] {
      var n := LineEnd(s);
      SliceHoldsNoMarker(s, 0, n, m);
      if n < |s| {
        SliceHoldsNoMarker(s, n + 1, |s|, m);
        assert s[n + 1..|s|] == s[n + 1..];
        LinesAreSlices(s[n + 1..], m);
        if n > 0 { SliceHoldsNoMarker(s, 0, n - 1, m); }
        assert s[..n] != [] ==> s[..n][..n - 1] == s[..n - 1];
      }
    }
  }

  lemma {:induction false} TrimIsSlice(s: string, m: string)
    requires !Contains(s, m) && '\n' !in s
    ensures !Contains(Trim(s), m) && '\n' !in Trim(s)
  {
    hide Contains;
    TrimStartIsSlice(s, m);
    TrimEndIsPrefix(TrimStart(s));
    var t := TrimStart(s);
    SliceHoldsNoMarker(t, 0, |Trim(s)|, m);
    assert t[0..|Trim(s)|] == Trim(s);
  }

  lemma {:induction false} TrimStartIsSlice(s: string, m: string)
    requires !Contains(s, m) && '\n' !in s
    ensures !Contains(TrimStart(s), m) && '\n' !in TrimStart(s)
    decreases |s|
  {
    hide Contains;
    if s != [] && IsWhitespace(s[0]) {
      SliceHoldsNoMarker(s, 1, |s|, m);
      assert s[1..|s|] == s[1..];
      TrimStartIsSlice(s[1..], m);
    }
  }

  /** A summary is a slice of its line, trimmed. */
  lemma ParsedSummary(line: string) returns (k: nat)
    requires ParseLine(line).Row?
    ensures k + 2 <= |Trim(line)| && ParseLine(line).summary == Trim(line)[k..|Trim(line)| - 2]
  {
    hide Contains, Trim, Find, HeadRow, RuleRow, OccursAt, ParseDestination;
    var trimmed := Trim(line);
    var row := trimmed[3..];
    assert ParseLine(line) == ParseRow(row);
    FindBounds(row, "](");
    var at := Find(row, "](").value + 2;
    var m := DestinationSummary(row[at..]);
    k := 3 + at + m;
    SliceOfTail(trimmed, 3 + at, m);
    assert row[at..] == trimmed[3 + at..];
  }

  lemma DestinationSummary(destination: string) returns (k: nat)
    requires ParseDestination(destination).Row?
    ensures k + 2 <= |destination| && ParseDestination(destination).summary == destination[k..|destination| - 2]
  {
    hide Contains, Find, OccursAt;
    FindBounds(destination, ") | ");
    k := Find(destination, ") | ").value + 4;
    var tail := destination[k..];
    assert destination[k..|destination| - 2] == tail[..|tail| - 2];
  }

  lemma SliceOfTail(s: string, from: nat, k: nat)
    requires from + k + 2 <= |s|
    ensures var tail := s[from..]; tail[k..|tail| - 2] == s[from + k..|s| - 2]
  {
  }

  lemma FindBounds(s: string, pattern: string)
    ensures Find(s, pattern).Some? ==> Find(s, pattern).value + |pattern| <= |s|
  {
  }

  /** A summary read from a clean line is clean. */
  lemma ParsedSummaryIsSlice(line: string, m: string)
    requires !Contains(line, m) && '\n' !in line && ParseLine(line).Row?
    ensures !Contains(ParseLine(line).summary, m) && '\n' !in ParseLine(line).summary
  {
    hide Contains, Trim, ParseLine;
    TrimIsSlice(line, m);
    var k := ParsedSummary(line);
    SliceHoldsNoMarker(Trim(line), k, |Trim(line)| - 2, m);
  }

  lemma {:induction false} ParsedRowsAreClean(lines: seq<string>, index: nat, firstLine: nat, acc: map<string, string>)
    requires index <= |lines| && CleanSummaries(acc)
    requires forall i :: 0 <= i < |lines| ==> Clean(lines[i])
    ensures var r := ParseRows(lines, index, firstLine, acc); r.Ok? ==> CleanSummaries(r.summaries)
    decreases |lines| - index
  {
    hide Contains, ParseLine, BeginMarker, EndMarker;
    if index < |lines| {
      var line := ParseLine(lines[index]);
      if line.Row? {
        ParsedSummaryIsSlice(lines[index], BeginMarker());
        ParsedSummaryIsSlice(lines[index], EndMarker());
        ParsedRowsAreClean(lines, index + 1, firstLine, acc[line.name := line.summary]);
      } else if line.Blank? {
        ParsedRowsAreClean(lines, index + 1, firstLine, acc);
      }
    }
  }

  lemma ExistingSummariesAreClean(inner: string, firstLine: nat)
    requires !Contains(inner, BeginMarker()) && !Contains(inner, EndMarker())
    ensures var r := ExistingSummaries(inner, firstLine); r.Ok? ==> CleanSummaries(r.summaries)
  {
    hide Contains, Lines, ParseRows, BeginMarker, EndMarker;
    LinesAreSlices(inner, BeginMarker());
    LinesAreSlices(inner, EndMarker());
    ParsedRowsAreClean(Lines(inner), 0, firstLine, map[]);
  }

  // ---------- finding the block again ----------

  /** No marker starts in `pre` once the begin marker follows it. */
  ghost predicate MarkersStartAfter(pre: string) {
    forall j :: 0 <= j < |pre| ==>
      !OccursAt(pre + BeginMarker(), BeginMarker(), j) && !OccursAt(pre + BeginMarker(), EndMarker(), j)
  }

  lemma ProseEndingInNewline(pre: string)
    requires pre != [] && pre[|pre| - 1] == '\n'
    requires !Contains(pre, BeginMarker()) && !Contains(pre, EndMarker())
    ensures MarkersStartAfter(pre)
  {
    hide BeginMarker, EndMarker;
    var s := pre + BeginMarker();
    forall j | 0 <= j < |pre| ensures !OccursAt(s, BeginMarker(), j) && !OccursAt(s, EndMarker(), j) {
      NotAcrossNewline(pre, BeginMarker(), BeginMarker(), j);
      NotAcrossNewline(pre, BeginMarker(), EndMarker(), j);
    }
  }

  lemma NotAcrossNewline(pre: string, post: string, m: string, j: nat)
    requires pre != [] && pre[|pre| - 1] == '\n' && j < |pre| && IsMarker(m) && !Contains(pre, m)
    ensures !OccursAt(pre + post, m, j)
  {
    hide BeginMarker, EndMarker;
    MarkerFacts(m);
    var s := pre + post;
    assert s[|pre| - 1] == '\n';
    if OccursAt(s, m, j) {
      OccursChars(s, m, j);
      if j + |m| <= |pre| {
        OccursInPrefix(s, pre, m, j);
      }
    }
  }

  /** In `pre` + block + `post` the first markers are the block's own. */
  lemma FindsBlock(pre: string, inner: string, post: string)
    requires MarkersStartAfter(pre)
    requires inner != [] && inner[0] == '\n' && inner[|inner| - 1] == '\n' && !Contains(inner, EndMarker())
    ensures var source := pre + BeginMarker() + inner + EndMarker() + post;
            && Find(source, BeginMarker()) == Some(|pre|)
            && Find(source, EndMarker()) == Some(|pre| + |BeginMarker()| + |inner|)
  {
    hide BeginMarker, EndMarker;
    var b, e := BeginMarker(), EndMarker();
    var source := pre + b + inner + e + post;
    MarkerFacts(b);
    MarkerFacts(e);
    assert source[|pre|..|pre| + |b|] == b;
    var at := |pre| + |b| + |inner|;
    assert source[at..at + |e|] == e;
    assert pre + b <= source;
    forall j | 0 <= j < |pre| ensures !OccursAt(source, b, j) && !OccursAt(source, e, j) {
      if OccursAt(source, b, j) { OccursInPrefix(source, pre + b, b, j); }
      if OccursAt(source, e, j) { OccursInPrefix(source, pre + b, e, j); }
    }
    FindIs(source, b, |pre|);
    forall j | 0 <= j < at ensures !OccursAt(source, e, j) {
      if |pre| <= j { EndNotBefore(pre, inner, post, j); }
    }
    FindIs(source, e, at);
  }

  lemma EndNotBefore(pre: string, inner: string, post: string, j: nat)
    requires inner != [] && inner[0] == '\n' && inner[|inner| - 1] == '\n' && !Contains(inner, EndMarker())
    requires |pre| <= j < |pre| + |BeginMarker()| + |inner|
    ensures !OccursAt(pre + BeginMarker() + inner + EndMarker() + post, EndMarker(), j)
  {
    hide BeginMarker, EndMarker;
    var b, e := BeginMarker(), EndMarker();
    var source := pre + b + inner + e + post;
    MarkerFacts(e);
    NeitherMarkerHoldsTheOther();
    var first, last := |pre| + |b|, |pre| + |b| + |inner| - 1;
    assert source[first] == '\n' && source[last] == '\n';
    assert source[|pre|..first] == b && source[first..last + 1] == inner;
    if OccursAt(source, e, j) {
      OccursChars(source, e, j);
      if j + |e| <= first {
        OccursInSlice(source, |pre|, first, e, j);
      } else if first < j && j + |e| <= last {
        OccursInSlice(source, first, last + 1, e, j);
      }
    }
  }

  /** The parts of a document around one block. */
  lemma DocumentParts(pre: string, b: string, inner: string, e: string, post: string)
    ensures var source := pre + (b + inner + e) + post;
            && source == pre + b + inner + e + post
            && source[|pre| + |b| + |inner| + |e|..] == post && source[..|pre|] == pre
            && source[|pre| + |b|..|pre| + |b| + |inner|] == inner
            && source[|source| - |post|..] == post
  {
  }

  /** A marker among the rows makes the next reconciliation refuse the document. */
  lemma MarkedBlockIsRejected(pre: string, entries: seq<Entry>, existing: map<string, string>, post: string)
    requires MarkersStartAfter(pre) && !NoMarker(Inner(entries, existing))
    ensures ReconcileExisting(pre + Block(entries, existing) + post, entries) == Rejected(InvalidMarkers)
  {
    hide *;
    var b, e, inner := BeginMarker(), EndMarker(), Inner(entries, existing);
    var source := pre + Block(entries, existing) + post;
    BlockUnfolds(entries, existing);
    DocumentParts(pre, b, inner, e, post);
    InnerUnfolds(entries, existing);
    HoldsSomeMarker(inner);
    if Contains(inner, e) {
      EndAmongRowsRejects(pre + b, inner, post, entries);
    } else {
      MarkerFacts(b);
      FindsBlock(pre, inner, post);
      BeginAmongRowsRejects(source, entries, |pre|, |pre| + |b| + |inner|);
    }
  }

  lemma HoldsSomeMarker(s: string)
    requires !NoMarker(s)
    ensures Contains(s, BeginMarker()) || Contains(s, EndMarker())
  {
  }

  /** An end marker among the rows leaves another one after the first. */
  lemma EndAmongRowsRejects(lead: string, inner: string, post: string, entries: seq<Entry>)
    requires Contains(inner, EndMarker())
    ensures ReconcileExisting(lead + inner + EndMarker() + post, entries) == Rejected(InvalidMarkers)
  {
    hide EndMarker, BeginMarker, ReconcileExisting;
    var e := EndMarker();
    var source, own := lead + inner + e + post, |lead| + |inner|;
    assert source[own..own + |e|] == e;
    assert source[|lead|..own] == inner;
    var k :| 0 <= k <= |inner| && OccursAt(inner, e, k);
    OccursInWhole(source, |lead|, own, e, k);
    SecondEndRejects(source, entries, own);
  }

  lemma SecondEndRejects(source: string, entries: seq<Entry>, own: nat)
    requires OccursAt(source, EndMarker(), own)
    requires exists k :: 0 <= k && k + |EndMarker()| <= own && OccursAt(source, EndMarker(), k)
    ensures ReconcileExisting(source, entries) == Rejected(InvalidMarkers)
  {
    hide EndMarker, BeginMarker, Lines, ExistingSummaries, Block, Contains;
    var e := EndMarker();
    FindExists(source, e, own);
    var first := Find(source, e).value;
    OccursInSlice(source, first + |e|, |source|, e, own);
    assert source[first + |e|..|source|] == source[first + |e|..];
  }

  lemma FindExists(s: string, pattern: string, i: nat)
    requires OccursAt(s, pattern, i)
    ensures Find(s, pattern).Some? && Find(s, pattern).value <= i
  {
    assert Contains(s, pattern);
  }

  lemma BeginAmongRowsRejects(source: string, entries: seq<Entry>, begin: nat, end: nat)
    requires Find(source, BeginMarker()) == Some(begin) && Find(source, EndMarker()) == Some(end)
    requires begin + |BeginMarker()| <= end && Contains(source[begin + |BeginMarker()|..end], BeginMarker())
    ensures ReconcileExisting(source, entries) == Rejected(InvalidMarkers)
  {
    hide EndMarker, Lines, ExistingSummaries, Block, Contains;
  }

  /**
   * The exact condition under which reconciling a document that holds this block, printed from clean
   * summaries, keeps it: no row holds a marker, and the rows read back what they were printed with.
   */
  lemma BlockIsStableIff(pre: string, entries: seq<Entry>, existing: map<string, string>, post: string)
    requires OneLineEntries(entries) && CleanSummaries(existing) && MarkersStartAfter(pre) && NoMarker(post)
    ensures var source := pre + Block(entries, existing) + post;
            ReconcileExisting(source, entries) == Document(source) <==>
            MarkerFree(entries, existing) && RowsReadAlike(entries, existing)
  {
    hide *;
    MarkerFreeIff(entries, existing);
    if MarkerFree(entries, existing) {
      var again := ReadMap(entries, existing);
      MarkerFreeReads(pre, entries, existing, post);
      InnerStableIff(entries, existing);
      BlockUnfolds(entries, existing);
      BlockUnfolds(entries, again);
      SameMiddle(pre, Block(entries, again), Block(entries, existing), post);
      SameMiddle(BeginMarker(), Inner(entries, again), Inner(entries, existing), EndMarker());
    } else {
      MarkedBlockIsRejected(pre, entries, existing, post);
    }
  }

  lemma SameMiddle(pre: string, a: string, b: string, post: string)
    ensures pre + a + post == pre + b + post <==> a == b
  {
    var x, y := pre + a + post, pre + b + post;
    if x == y {
      assert a == x[|pre|..|x| - |post|] == y[|pre|..|y| - |post|] == b;
    }
  }

  /** With no marker among the rows the document reconciles, and to the block its rows read as. */
  lemma MarkerFreeReads(pre: string, entries: seq<Entry>, existing: map<string, string>, post: string)
    requires OneLineEntries(entries) && CleanSummaries(existing) && MarkersStartAfter(pre) && NoMarker(post)
    requires NoMarker(Inner(entries, existing))
    ensures var source, again := pre + Block(entries, existing) + post, ReadMap(entries, existing);
            && ReconcileExisting(source, entries) == Document(pre + Block(entries, again) + post)
            && Find(source, BeginMarker()) == Some(|pre|) && Recorded(source) == Parsed.Ok(again)
            && OneLineSummaries(existing) && OneLineSummaries(again)
  {
    hide *;
    var b, e, inner := BeginMarker(), EndMarker(), Inner(entries, existing);
    var source := pre + Block(entries, existing) + post;
    BlockUnfolds(entries, existing);
    DocumentParts(pre, b, inner, e, post);
    MarkerFacts(b);
    InnerUnfolds(entries, existing);
    NoMarkerUnfolds(inner);
    NoMarkerUnfolds(post);
    FindsBlock(pre, inner, post);
    CleanIsOneLine(existing);
    BlockReads(entries, existing, |Lines(pre)| + 1);
    ReconcileUnfolds(source, entries, |pre|, |pre| + |b| + |inner|);
    RecordedUnfolds(source, |pre|, |pre| + |b| + |inner|);
    ExistingSummariesAreClean(inner, |Lines(pre)| + 1);
    CleanIsOneLine(ReadMap(entries, existing));
  }

  lemma NoMarkerUnfolds(s: string)
    requires NoMarker(s)
    ensures !Contains(s, BeginMarker()) && !Contains(s, EndMarker())
  {
  }

  lemma BlockUnfolds(entries: seq<Entry>, existing: map<string, string>)
    ensures Block(entries, existing) == BeginMarker() + Inner(entries, existing) + EndMarker()
    ensures IsMarker(BeginMarker()) && IsMarker(EndMarker())
  {
  }

  lemma CleanIsOneLine(existing: map<string, string>)
    requires CleanSummaries(existing)
    ensures OneLineSummaries(existing)
  {
  }

  /** `reconcile_existing` on a document whose markers are where they should be. */
  lemma ReconcileUnfolds(source: string, entries: seq<Entry>, begin: nat, end: nat)
    requires Find(source, BeginMarker()) == Some(begin) && Find(source, EndMarker()) == Some(end)
    requires begin + |BeginMarker()| <= end
    ensures var post, inner := source[end + |EndMarker()|..], source[begin + |BeginMarker()|..end];
            !Contains(post, BeginMarker()) && !Contains(post, EndMarker()) && !Contains(inner, BeginMarker()) ==>
              ReconcileExisting(source, entries)
              == match ExistingSummaries(inner, |Lines(source[..begin])| + 1)
                 case InvalidRow(line) => Rejected(InvalidRowAt(line))
                 case Ok(summaries) => Document(source[..begin] + Block(entries, summaries) + post)
  {
    hide EndMarker, Contains, Inner, Lines, ExistingSummaries, Block;
  }

  // ---------- the document ----------

  /** `validate_entries` from `index` on, with the names seen before it. */
  function Validate(entries: seq<Entry>, index: nat, seen: set<string>): Option<IndexError>
    requires index <= |entries|
    decreases |entries| - index
  {
    if index == |entries| then None
    else
      var name := entries[index].name;
      if name == [] || '\r' in name || '\n' in name then Some(InvalidEntryName(name))
      else if name in seen then Some(DuplicateEntry(name))
      else Validate(entries, index + 1, seen + {name})
  }

  method ValidateEntries(entries: seq<Entry>) returns (r: Option<IndexError>)
    ensures r == Validate(entries, 0, {})
  {
    var names: set<string> := {};
    for index := 0 to |entries|
      invariant Validate(entries, index, names) == Validate(entries, 0, {})
    {
      var name := entries[index].name;
      if name == [] || '\r' in name || '\n' in name {
        return Some(InvalidEntryName(name));
      }
      if name in names {
        return Some(DuplicateEntry(name));
      }
      names := names + {name};
    }
    r := None;
  }

  /** Unicode upper-casing of one character is a parameter of the document title. */
  type Upper = char -> string

  /** Words separated by `-`, `_` or space, each with its first letter upper-cased. */
  function DirectoryTitle(value: string, upper: Upper): string {
    JoinWords(TitleWords(value, "", upper))
  }

  function TitleWords(value: string, word: string, upper: Upper): seq<string> {
    if value == [] then FlushWord(word, upper)
    else if value[0] == '-' || value[0] == '_' || value[0] == ' ' then
      FlushWord(word, upper) + TitleWords(value[1..], "", upper)
    else TitleWords(value[1..], word + [value[0]], upper)
  }

  function FlushWord(word: string, upper: Upper): seq<string> {
    if word == [] then [] else [upper(word[0]) + word[1..]]
  }

  function FreshLead(directory: string, upper: Upper): string {
    "# " + DirectoryTitle(directory, upper) + ": Index\n\n"
  }

  /** Reconciles a document against entries that are already in display order. */
  function Reconcile(source: Option<string>, directory: string, upper: Upper, entries: seq<Entry>): Outcome {
    match source
    case None => Document(FreshLead(directory, upper) + Block(entries, map[]) + "\n")
    case Some(text) => ReconcileExisting(text, entries)
  }

  method RunReconcileExisting(source: string, entries: seq<Entry>) returns (r: Outcome)
    ensures r == ReconcileExisting(source, entries)
  {
    hide BeginMarker, EndMarker, Contains, Lines, Block;
    var begin := Find(source, BeginMarker());
    var end := Find(source, EndMarker());
    if begin.None? && end.None? {
      var content := source;
      if content == [] || content[|content| - 1] != '\n' {
        content := content + "\n";
      }
      content := content + "\n" + "## Contents\n\n";
      var block := RenderBlock(entries, map[]);
      return Document(content + block + "\n");
    }
    if begin.None? || end.None? || begin.value >= end.value {
      return Rejected(InvalidMarkers);
    }
    MarkersDisjoint(source, begin.value, end.value);
    var after := end.value + |EndMarker()|;
    var inner := source[begin.value + |BeginMarker()|..end.value];
    if Find(source[after..], BeginMarker()).Some? || Find(source[after..], EndMarker()).Some?
       || Find(inner, BeginMarker()).Some? {
      return Rejected(InvalidMarkers);
    }
    var parsed := CollectSummaries(inner, |Lines(source[..begin.value])| + 1);
    if parsed.InvalidRow? {
      return Rejected(InvalidRowAt(parsed.line));
    }
    var block := RenderBlock(entries, parsed.summaries);
    r := Document(source[..begin.value] + block + source[after..]);
  }

  lemma {:induction false} TitleHasNoDash(value: string, word: string, upper: Upper)
    requires '-' !in word && forall c :: c != '-' ==> '-' !in upper(c)
    ensures forall w :: w in TitleWords(value, word, upper) ==> '-' !in w
    decreases |value|
  {
    if value != [] {
      if value[0] == '-' || value[0] == '_' || value[0] == ' ' {
        TitleHasNoDash(value[1..], "", upper);
      } else {
        TitleHasNoDash(value[1..], word + [value[0]], upper);
      }
    }
  }

  lemma {:induction false} JoinHasNoDash(words: seq<string>)
    requires forall w :: w in words ==> '-' !in w
    ensures '-' !in JoinWords(words)
    decreases |words|
  {
    if |words| > 1 { JoinHasNoDash(words[1..]); }
  }

  lemma NoDashNoMarker(s: string, m: string)
    requires IsMarker(m) && '-' !in s
    ensures !Contains(s, m)
  {
    hide BeginMarker, EndMarker;
    MarkerFacts(m);
    forall i | 0 <= i <= |s| ensures !OccursAt(s, m, i) {
      if OccursAt(s, m, i) {
        OccursChars(s, m, i);
      }
    }
  }

  lemma NewlineHoldsNoMarker()
    ensures NoMarker("\n") && !Contains("\n", BeginMarker()) && !Contains("\n", EndMarker())
  {
    NoAngleNoMarker("\n", BeginMarker());
    NoAngleNoMarker("\n", EndMarker());
  }

  lemma FreshLeadIsProse(directory: string, upper: Upper)
    requires forall c :: c != '-' ==> '-' !in upper(c)
    ensures MarkersStartAfter(FreshLead(directory, upper))
  {
    hide BeginMarker, EndMarker;
    TitleHasNoDash(directory, "", upper);
    JoinHasNoDash(TitleWords(directory, "", upper));
    var lead := FreshLead(directory, upper);
    assert '-' !in lead;
    NoDashNoMarker(lead, BeginMarker());
    NoDashNoMarker(lead, EndMarker());
    ProseEndingInNewline(lead);
  }

  lemma WithoutBlockHoldsNoMarker(source: string, m: string)
    requires IsMarker(m) && !Contains(source, m)
    ensures !Contains(WithoutBlock(source), m)
  {
    hide BeginMarker, EndMarker, Contains;
    MarkerFacts(m);
    NoAngleNoMarker("", m);
    NoAngleNoMarker("## Contents\n\n", m);
    var tail := "" + ['\n'] + "## Contents\n\n";
    SplitAt("", '\n', "## Contents\n\n", m);
    if source == [] || source[|source| - 1] != '\n' {
      SplitAt(source, '\n', tail, m);
      assert source + ['\n'] + tail == WithoutBlock(source);
    } else {
      SplitAt(source, '\n', "## Contents\n\n", m);
      assert source + ['\n'] + "## Contents\n\n" == WithoutBlock(source);
    }
  }

  lemma WithoutBlockIsProse(source: string)
    requires !Contains(source, BeginMarker()) && !Contains(source, EndMarker())
    ensures MarkersStartAfter(WithoutBlock(source))
  {
    hide BeginMarker, EndMarker, Contains;
    WithoutBlockHoldsNoMarker(source, BeginMarker());
    WithoutBlockHoldsNoMarker(source, EndMarker());
    ProseEndingInNewline(WithoutBlock(source));
  }

  /** The prose before an existing block, as the marker search saw it. */
  lemma ExistingLeadIsProse(source: string, begin: nat, end: nat)
    requires Find(source, BeginMarker()) == Some(begin) && Find(source, EndMarker()) == Some(end)
    requires begin + |BeginMarker()| <= end
    ensures MarkersStartAfter(source[..begin])
    ensures !Contains(source[begin + |BeginMarker()|..end], EndMarker())
  {
    hide BeginMarker, EndMarker, Contains, OccursAt;
    var b, e := BeginMarker(), EndMarker();
    FoundAt(source, b, begin);
    FoundAt(source, e, end);
    MarkerFacts(e);
    assert source[..begin] + b == source[0..begin + |b|];
    StaysAbsent(source, begin, begin + |b|, b);
    StaysAbsent(source, begin, begin + |b|, e);
    InnerHasNoEnd(source, begin + |b|, end, e);
  }

  lemma FoundAt(s: string, pattern: string, at: nat)
    requires Find(s, pattern) == Some(at)
    ensures at + |pattern| <= |s| && s[at..at + |pattern|] == pattern
    ensures forall j :: 0 <= j < at ==> !OccursAt(s, pattern, j)
  {
  }

  lemma StaysAbsent(source: string, before: nat, to: nat, m: string)
    requires to <= |source| && forall j :: 0 <= j < before ==> !OccursAt(source, m, j)
    ensures forall j :: 0 <= j < before ==> !OccursAt(source[0..to], m, j)
  {
    var lead := source[0..to];
    forall j | 0 <= j < before ensures !OccursAt(lead, m, j) {
      if OccursAt(lead, m, j) {
        OccursInWhole(source, 0, to, m, j);
      }
    }
  }

  lemma InnerHasNoEnd(source: string, from: nat, end: nat, e: string)
    requires from <= end <= |source| && e != []
    requires forall j :: 0 <= j < end ==> !OccursAt(source, e, j)
    ensures !Contains(source[from..end], e)
  {
    var inner := source[from..end];
    forall i | 0 <= i <= |inner| ensures !OccursAt(inner, e, i) {
      if OccursAt(inner, e, i) {
        OccursInWhole(source, from, end, e, i);
      }
    }
  }

  /** The summaries a reconciliation starts from. */
  function Kept(source: Option<string>): map<string, string> {
    match source
    case None => map[]
    case Some(text) => match Recorded(text) case Ok(summaries) => summaries case InvalidRow(_) => map[]
  }

  /**
   * From all three starting points - no file, a file without markers, a file with a block - reconciling the
   * output again changes nothing exactly when no name and no newly derived summary holds a marker, and
   * the rows read back what they were printed with.
   */
  lemma IdempotentIff(source: Option<string>, directory: string, upper: Upper, entries: seq<Entry>)
    requires forall c :: c != '-' ==> '-' !in upper(c)
    requires OneLineEntries(entries)
    ensures var r := Reconcile(source, directory, upper, entries);
            r.Document? ==>
              (Reconcile(Some(r.text), directory, upper, entries) == r <==>
               MarkerFree(entries, Kept(source)) && RowsReadAlike(entries, Kept(source)))
  {
    hide BeginMarker, EndMarker, Contains, Block, Lines, WithoutBlock, FreshLead, OneLineName, ReconcileExisting,
      MarkerFree, RowsReadAlike, Recorded;
    NewlineHoldsNoMarker();
    match source
    case None =>
      FreshLeadIsProse(directory, upper);
      BlockIsStableIff(FreshLead(directory, upper), entries, map[], "\n");
    case Some(text) =>
      if ReconcileExisting(text, entries).Document? {
        ExistingIsStableIff(text, entries);
      }
  }

  lemma ExistingIsStableIff(text: string, entries: seq<Entry>)
    requires OneLineEntries(entries) && ReconcileExisting(text, entries).Document?
    ensures var r := ReconcileExisting(text, entries);
            ReconcileExisting(r.text, entries) == r <==>
            MarkerFree(entries, Kept(Some(text))) && RowsReadAlike(entries, Kept(Some(text)))
  {
    hide *;
    if Find(text, BeginMarker()).None? {
      NoBlockOutcome(text, entries);
      NewlineHoldsNoMarker();
      WithoutBlockIsProse(text);
      EmptyIsClean();
      BlockIsStableIff(WithoutBlock(text), entries, map[], "\n");
    } else {
      ExistingOutcome(text, entries);
      RecordedIsClean(text, entries);
      PostHoldsNoMarker(text, entries);
      KeptIsRecorded(text);
      var begin, end := Find(text, BeginMarker()).value, Find(text, EndMarker()).value;
      BlockIsStableIff(text[..begin], entries, Recorded(text).summaries, text[end + |EndMarker()|..]);
    }
  }

  lemma NoBlockOutcome(text: string, entries: seq<Entry>)
    requires ReconcileExisting(text, entries).Document? && Find(text, BeginMarker()).None?
    ensures ReconcileExisting(text, entries) == Document(WithoutBlock(text) + Block(entries, map[]) + "\n")
    ensures Kept(Some(text)) == map[] && !Contains(text, BeginMarker()) && !Contains(text, EndMarker())
  {
    hide BeginMarker, EndMarker, Contains, Block, Lines, WithoutBlock, ExistingSummaries;
  }

  lemma EmptyIsClean()
    ensures CleanSummaries(map[])
  {
  }

  lemma KeptIsRecorded(text: string)
    ensures Recorded(text).Ok? ==> Kept(Some(text)) == Recorded(text).summaries
  {
    hide Recorded;
  }

  /** When the names read, which `NamesReadIff` states exactly, markers alone decide. */
  lemma Idempotent(source: Option<string>, directory: string, upper: Upper, entries: seq<Entry>)
    requires forall c :: c != '-' ==> '-' !in upper(c)
    requires OneLineEntries(entries) && NamesRead(entries)
    ensures var r := Reconcile(source, directory, upper, entries);
            r.Document? ==>
              (Reconcile(Some(r.text), directory, upper, entries) == r <==> MarkerFree(entries, Kept(source)))
  {
    hide *;
    IdempotentIff(source, directory, upper, entries);
    if Reconcile(source, directory, upper, entries).Document? {
      KeptIsRecordable(source, directory, upper, entries);
      NamesReadAlike(entries, Kept(source));
    }
  }

  lemma KeptIsRecordable(source: Option<string>, directory: string, upper: Upper, entries: seq<Entry>)
    requires Reconcile(source, directory, upper, entries).Document?
    ensures Recordable(Kept(source))
  {
    hide Contains, BeginMarker, EndMarker, ReconcileExisting, Recorded, FreshLead, Block;
    if source.Some? {
      var text := source.value;
      if Find(text, BeginMarker()).None? {
        NoBlockOutcome(text, entries);
      } else {
        RecordedIsClean(text, entries);
        RecordedHoldsNoClose(text);
      }
    }
  }

  lemma RecordedHoldsNoClose(text: string)
    ensures Recorded(text).Ok? ==> forall name :: name in Recorded(text).summaries ==> !Contains(name, ") | ")
  {
    hide Contains, BeginMarker, EndMarker, ParseRows, Lines;
    match (Find(text, BeginMarker()), Find(text, EndMarker()))
    case (Some(begin), Some(end)) =>
      if begin < end {
        MarkersDisjoint(text, begin, end);
        var lines := Lines(text[begin + |BeginMarker()|..end]);
        ParsedNamesHoldNoClose(lines, 0, |Lines(text[..begin])| + 1, map[]);
      }
    case _ =>
  }

  /** Two valid names, `a` and `a) | b`: the fresh document is changed by the next reconciliation. */
  lemma ClashingNamesChangeDocument(directory: string, upper: Upper)
    requires forall c :: c != '-' ==> '-' !in upper(c)
    ensures var r := Reconcile(None, directory, upper, Clashing());
            r.Document? && Reconcile(Some(r.text), directory, upper, Clashing()) != r
  {
    hide Contains, BeginMarker, EndMarker, ReconcileExisting, FreshLead, Block, RowsReadAlike, MarkerFree;
    ClashingNamesReadDifferently();
    IdempotentIff(None, directory, upper, Clashing());
  }

  /** A word of printable ASCII characters. */
  predicate IsWord(s: string) {
    s != [] && forall i :: 0 <= i < |s| ==> '!' <= s[i] <= '~'
  }

  lemma PrintableIsNoSpace(s: string)
    requires IsWord(s)
    ensures forall i :: 0 <= i < |s| ==> !IsWhitespace(s[i])
  {
  }

  lemma WordsCons(word: string, rest: string)
    requires IsWord(word)
    ensures Words(word + " " + rest) == [word] + Words(rest) && Words(word) == [word]
  {
    PrintableIsNoSpace(word);
    var s := word + " " + rest;
    WordEndIs(s, |word|);
    WordEndIs(word, |word|);
    assert s[..|word|] == word && s[|word|..] == " " + rest;
    assert (" " + rest)[1..] == rest;
    assert Words(s[|word|..]) == Words(rest);
    assert word[..|word|] == word && word[|word|..] == [];
  }

  lemma JoinCons(word: string, words: seq<string>)
    requires words != []
    ensures JoinWords([word] + words) == word + " " + JoinWords(words)
  {
    assert ([word] + words)[1..] == words;
  }

  lemma {:induction false} WordEndIs(s: string, n: nat)
    requires n <= |s| && (forall i :: 0 <= i < n ==> !IsWhitespace(s[i])) && (n < |s| ==> IsWhitespace(s[n]))
    ensures WordEnd(s) == n
    decreases |s|
  {
    if n > 0 {
      WordEndIs(s[1..], n - 1);
    }
  }

  lemma {:induction false} NoPipesToEscape(s: string)
    requires '|' !in s
    ensures EscapePipes(s) == s
    decreases |s|
  {
    if s != [] {
      NoPipesToEscape(s[1..]);
    }
  }

  /** A note whose title is the marker text: the document is written, and refused the next time. */
  lemma MarkerTitleIsRefused(directory: string, upper: Upper)
    requires forall c :: c != '-' ==> '-' !in upper(c)
    ensures var entries := [Entry("a.md", File, BeginMarker())];
            var r := Reconcile(None, directory, upper, entries);
            r.Document? && ReconcileExisting(r.text, entries) == Rejected(InvalidMarkers)
  {
    hide Inner, FreshLead, ReconcileExisting, Block, MarkersStartAfter, SingleLine, Contains;
    var e := Entry("a.md", File, BeginMarker());
    MarkerIsSingleLine();
    WholeContainsItself(BeginMarker());
    SummaryForHolds(e, map[], BeginMarker());
    InnerHolds([e], map[], BeginMarker());
    assert e in [e];
    FreshLeadIsProse(directory, upper);
    MarkedBlockIsRejected(FreshLead(directory, upper), [e], map[], "\n");
  }

  lemma WholeContainsItself(s: string)
    ensures Contains(s, s)
  {
    assert s[0..|s|] == s;
    assert OccursAt(s, s, 0);
  }

  lemma ThreeWords(a: string, b: string, c: string)
    requires IsWord(a) && IsWord(b) && IsWord(c)
    ensures JoinWords(Words(a + " " + (b + " " + c))) == a + " " + (b + " " + c)
  {
    hide Words, JoinWords, IsWord;
    WordsCons(a, b + " " + c);
    WordsCons(b, c);
    WordsCons(c, "");
    JoinCons(a, [b] + [c]);
    JoinCons(b, [c]);
    JoinOne(c);
  }

  lemma JoinOne(word: string)
    ensures JoinWords([word]) == word
  {
  }

  lemma MarkerParts()
    ensures BeginMarker() == "<!--" + " " + ("contextos:index:begin" + " " + "-->")
  {
  }

  lemma MarkerWords()
    ensures IsWord("<!--") && IsWord("contextos:index:begin") && IsWord("-->")
  {
  }

  lemma MarkerHasNoPipe()
    ensures '|' !in BeginMarker()
  {
  }

  lemma MarkerIsSingleLine()
    ensures SingleLine(BeginMarker()) == BeginMarker()
  {
    hide *;
    MarkerParts();
    MarkerWords();
    MarkerHasNoPipe();
    ThreeWords("<!--", "contextos:index:begin", "-->");
    NoPipesToEscape(BeginMarker());
    SingleLineUnfolds(BeginMarker());
  }

  lemma SingleLineUnfolds(value: string)
    ensures SingleLine(value) == EscapePipes(JoinWords(Words(value)))
  {
    hide EscapePipes, JoinWords, Words;
  }

  /** The summaries an existing document records, as the next reconciliation will read them. */
  function Recorded(source: string): Parsed {
    match (Find(source, BeginMarker()), Find(source, EndMarker()))
    case (Some(begin), Some(end)) =>
      if begin < end then
        MarkersDisjoint(source, begin, end);
        ExistingSummaries(source[begin + |BeginMarker()|..end], |Lines(source[..begin])| + 1)
      else Parsed.Ok(map[])
    case _ => Parsed.Ok(map[])
  }

  /** What reconciling an existing block writes, in terms of what the document recorded. */
  lemma ExistingOutcome(text: string, entries: seq<Entry>)
    requires ReconcileExisting(text, entries).Document? && Find(text, BeginMarker()).Some?
    ensures Find(text, EndMarker()).Some? && Recorded(text).Ok?
    ensures var begin, end := Find(text, BeginMarker()).value, Find(text, EndMarker()).value;
            && begin + |BeginMarker()| <= end && end + |EndMarker()| <= |text|
            && ReconcileExisting(text, entries).text
               == text[..begin] + Block(entries, Recorded(text).summaries) + text[end + |EndMarker()|..]
  {
    hide BeginMarker, EndMarker, Contains, Lines, ExistingSummaries, Block;
    MarkersDisjoint(text, Find(text, BeginMarker()).value, Find(text, EndMarker()).value);
  }

  lemma RecordedIsClean(text: string, entries: seq<Entry>)
    requires ReconcileExisting(text, entries).Document? && Find(text, BeginMarker()).Some?
    ensures Recorded(text).Ok? && CleanSummaries(Recorded(text).summaries)
    ensures MarkersStartAfter(text[..Find(text, BeginMarker()).value])
  {
    hide BeginMarker, EndMarker, Contains, Lines, ExistingSummaries, Block, CleanSummaries, MarkersStartAfter;
    var begin, end := Find(text, BeginMarker()).value, Find(text, EndMarker()).value;
    MarkersDisjoint(text, begin, end);
    ExistingLeadIsProse(text, begin, end);
    ExistingSummariesAreClean(text[begin + |BeginMarker()|..end], |Lines(text[..begin])| + 1);
  }

  /** For all entries: the prose before and after the block survives, character by character. */
  lemma PreservesProse(text: string, entries: seq<Entry>)
    requires ReconcileExisting(text, entries).Document? && Find(text, BeginMarker()).Some?
    ensures var out, begin := ReconcileExisting(text, entries).text, Find(text, BeginMarker()).value;
            var post := text[Find(text, EndMarker()).value + |EndMarker()|..];
            && begin <= |out| && out[..begin] == text[..begin]
            && begin + |post| <= |out| && out[|out| - |post|..] == post
  {
    hide *;
    ExistingOutcome(text, entries);
    var begin := Find(text, BeginMarker()).value;
    var post, block := text[Find(text, EndMarker()).value + |EndMarker()|..], Block(entries, Recorded(text).summaries);
    Around(text[..begin], block, post);
  }

  lemma Around(pre: string, middle: string, post: string)
    ensures var out := pre + middle + post; out[..|pre|] == pre && out[|out| - |post|..] == post
  {
  }

  /**
   * For all entries: the new block has one row per entry, in order, and the row of an entry that was
   * recorded carries its last recorded summary as it was.
   */
  lemma PreservesRows(text: string, entries: seq<Entry>)
    requires ReconcileExisting(text, entries).Document? && Find(text, BeginMarker()).Some?
    ensures Find(text, EndMarker()).Some? && Recorded(text).Ok?
    ensures var out, begin := ReconcileExisting(text, entries).text, Find(text, BeginMarker()).value;
            var post := text[Find(text, EndMarker()).value + |EndMarker()|..];
            var kept := Recorded(text).summaries;
            exists rows: seq<string> ::
              && out == text[..begin] + (BeginMarker() + Ended(["", HeadRow(), RuleRow()] + rows) + EndMarker()) + post
              && |rows| == |entries|
              && forall i :: 0 <= i < |rows| && entries[i].name in kept ==>
                   rows[i] == RenderRow(entries[i], kept[entries[i].name])
  {
    hide BeginMarker, EndMarker, HeadRow, RuleRow, Ended, Lines, Recorded, ReconcileExisting, RenderRow, Block, Find;
    ExistingOutcome(text, entries);
    var kept := Recorded(text).summaries;
    var rows := RowLines(entries, kept);
    BlockUnfolds(entries, kept);
    assert |rows| == |entries|;
  }

  /**
   * Read back, a reconciled document records what its rows read as. If all names read back, these are
   * exactly the given entries, and an entry that was recorded keeps its last recorded summary.
   */
  lemma PreservesSummaries(text: string, entries: seq<Entry>)
    requires OneLineEntries(entries) && ReconcileExisting(text, entries).Document? && Find(text, BeginMarker()).Some?
    requires MarkerFree(entries, Kept(Some(text)))
    ensures var out, kept := ReconcileExisting(text, entries).text, Kept(Some(text));
            Recorded(text) == Parsed.Ok(kept) && Recorded(out) == Parsed.Ok(ReadMap(entries, kept))
    ensures DistinctNames(entries) && (forall e :: e in entries ==> ReadsBack(e)) ==>
              var kept := Kept(Some(text));
              && (forall name :: name in ReadMap(entries, kept) <==>
                    exists i :: 0 <= i < |entries| && entries[i].name == name)
              && (forall name :: name in kept && name in ReadMap(entries, kept) ==>
                    ReadMap(entries, kept)[name] == kept[name])
  {
    hide *;
    ExistingOutcome(text, entries);
    RecordedIsClean(text, entries);
    PostHoldsNoMarker(text, entries);
    KeptIsRecorded(text);
    var begin, end := Find(text, BeginMarker()).value, Find(text, EndMarker()).value;
    var kept := Recorded(text).summaries;
    MarkerFreeIff(entries, kept);
    MarkerFreeReads(text[..begin], entries, kept, text[end + |EndMarker()|..]);
    if DistinctNames(entries) && forall e :: e in entries ==> ReadsBack(e) {
      ReadMapIsSummaryMap(entries, kept);
      SummaryMapKeepsOld(entries, kept);
      SummaryMapNames(entries, kept);
    }
  }

  lemma PostHoldsNoMarker(text: string, entries: seq<Entry>)
    requires ReconcileExisting(text, entries).Document? && Find(text, BeginMarker()).Some?
    ensures Find(text, EndMarker()).Some? && Find(text, EndMarker()).value + |EndMarker()| <= |text|
    ensures NoMarker(text[Find(text, EndMarker()).value + |EndMarker()|..])
  {
    hide BeginMarker, EndMarker, Contains, Lines, ExistingSummaries, Block;
  }

  lemma RecordedUnfolds(source: string, begin: nat, end: nat)
    requires Find(source, BeginMarker()) == Some(begin) && Find(source, EndMarker()) == Some(end)
    requires begin + |BeginMarker()| <= end && |BeginMarker()| > 0
    ensures Recorded(source)
            == ExistingSummaries(source[begin + |BeginMarker()|..end], |Lines(source[..begin])| + 1)
  {
    hide BeginMarker, EndMarker, Contains, Lines, ExistingSummaries;
  }

  lemma SummaryMapNames(entries: seq<Entry>, kept: map<string, string>)
    ensures forall name :: name in SummaryMap(entries, kept) <==>
              exists i :: 0 <= i < |entries| && entries[i].name == name
  {
  }

  lemma SummaryMapKeepsOld(entries: seq<Entry>, kept: map<string, string>)
    requires DistinctNames(entries)
    ensures forall name :: name in SummaryMap(entries, kept) && name in kept ==>
              SummaryMap(entries, kept)[name] == kept[name]
  {
    forall name | name in SummaryMap(entries, kept) && name in kept
      ensures SummaryMap(entries, kept)[name] == kept[name]
    {
      var i :| 0 <= i < |entries| && entries[i].name == name;
      SummaryMapAt(entries, kept, i);
    }
  }
}
