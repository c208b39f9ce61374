/** The managed document in its own terms: rows, markers, errors, and the order on the page. */
module IndexMeaning {
  import opened Text
  import opened IndexBlock
  import opened IndexNames
  import opened IndexReconcile
  import opened IndexOrder

  // ---------- what is printed ----------

  /** A row links to the entry, with what is known about it. */
  function LinkRow(shown: string, target: string, summary: string): string {
    "| [" + shown + "](" + target + ") | " + summary + " |"
  }

  /** What an entry's row says: its recorded summary, or the derived one marked as such. */
  function EntryRow(e: Entry, existing: map<string, string>): string {
    var summary := if e.name in existing then existing[e.name] else SingleLine(e.suggested) + " <!-- auto -->";
    if e.kind.Directory? then LinkRow(e.name + "/", e.name + "/index.md", summary)
    else LinkRow(e.name, e.name, summary)
  }

  function EntryRows(entries: seq<Entry>, existing: map<string, string>): string {
    if entries == [] then ""
    else EntryRows(entries[..|entries| - 1], existing) + EntryRow(entries[|entries| - 1], existing) + "\n"
  }

  /** The markers around a table head and one row per entry, in order. */
  lemma BlockMeaning(entries: seq<Entry>, existing: map<string, string>)
    ensures Block(entries, existing)
            == "<!-- contextos:index:begin -->\n| Item | Summary |\n| --- | --- |\n" + EntryRows(entries, existing)
               + "<!-- contextos:index:end -->"
  {
    hide EntryRows, Ended, BeginMarker, EndMarker;
    MarkersAre();
    var head := ["", HeadRow(), RuleRow()];
    HeadEnded(head, BeginMarker());
    HeadText();
    RowsEnded(head, entries, existing);
    Regrouped(BeginMarker(), Ended(head), EntryRows(entries, existing), EndMarker());
  }

  lemma Regrouped(a: string, b: string, c: string, d: string)
    ensures a + (b + c) + d == a + b + c + d
  {
  }

  lemma HeadText()
    ensures "<!-- contextos:index:begin -->" + "\n" + "| Item | Summary |" + "\n" + "| --- | --- |" + "\n"
            == "<!-- contextos:index:begin -->\n| Item | Summary |\n| --- | --- |\n"
  {
  }

  lemma MarkersAre()
    ensures BeginMarker() == "<!-- contextos:index:begin -->" && EndMarker() == "<!-- contextos:index:end -->"
    ensures HeadRow() == "| Item | Summary |" && RuleRow() == "| --- | --- |"
  {
  }

  lemma {:induction false} RowsEnded(head: seq<string>, entries: seq<Entry>, existing: map<string, string>)
    ensures Ended(head + RowLines(entries, existing)) == Ended(head) + EntryRows(entries, existing)
    decreases |entries|
  {
    hide Ended, RenderRow, EntryRow, SummaryFor;
    if entries == [] {
      assert head + RowLines(entries, existing) == head;
      assert Ended(head) + "" == Ended(head);
    } else {
      var shorter, last := entries[..|entries| - 1], entries[|entries| - 1];
      RowsEnded(head, shorter, existing);
      RowIsEntryRow(last, existing);
      var lines, row := head + RowLines(shorter, existing), EntryRow(last, existing);
      assert head + RowLines(entries, existing) == lines + [row];
      EndedSnoc(lines, row);
      Regrouped(Ended(head), EntryRows(shorter, existing), row, "\n");
    }
  }

  lemma RowIsEntryRow(e: Entry, existing: map<string, string>)
    ensures RenderRow(e, SummaryFor(e, existing)) == EntryRow(e, existing)
  {
    hide SingleLine, RenderRow, LinkRow;
    var s := SummaryFor(e, existing);
    RowIsLink(e, s);
  }

  lemma RowIsLink(e: Entry, s: string)
    ensures RenderRow(e, s)
            == if e.kind.Directory? then LinkRow(e.name + "/", e.name + "/index.md", s) else LinkRow(e.name, e.name, s)
  {
    hide LinkRow;
    var rest := ") | " + (s + " |");
    if e.kind.Directory? {
      LinkRowParts(e.name + "/", e.name + "/index.md", s);
      Associate(e.name, "/index.md", rest);
      assert "/" + ("](" + (e.name + "/index.md" + rest)) == "/](" + (e.name + "/index.md" + rest);
      Associate(e.name, "/", "](" + (e.name + "/index.md" + rest));
    } else {
      LinkRowParts(e.name, e.name, s);
    }
  }

  /** A document without markers keeps all its text; the block follows under a heading of its own. */
  lemma WithoutMarkersAppends(text: string, entries: seq<Entry>)
    requires !Contains(text, "<!-- contextos:index:begin -->") && !Contains(text, "<!-- contextos:index:end -->")
    ensures ReconcileExisting(text, entries)
            == Document(text + (if text != [] && text[|text| - 1] == '\n' then "" else "\n")
                        + "\n## Contents\n\n" + Block(entries, map[]) + "\n")
  {
    hide Contains, Block, BeginMarker, EndMarker;
    MarkersAre();
    var end := if text != [] && text[|text| - 1] == '\n' then "" else "\n";
    assert WithoutBlock(text) == text + end + "\n## Contents\n\n";
  }

  // ---------- which lines are rows ----------

  /** The line is a row with these parts, its ends aside. */
  ghost predicate ReadsAsLink(line: string, shown: string, target: string, summary: string) {
    Trim(line) == LinkRow(shown, target, summary) && !Contains(shown, "](") && !Contains(target, ") | ")
  }

  function WithoutIndex(target: string): string {
    if |target| >= 9 && target[|target| - 9..] == "/index.md" then target[..|target| - 9] else target
  }

  /** A line records a summary for a name exactly when it links to the name, or to its `index.md`. */
  lemma RowGrammar(line: string, name: string, summary: string)
    ensures ParseLine(line) == Row(name, summary) <==>
            exists shown, target :: ReadsAsLink(line, shown, target, summary) && name == WithoutIndex(target)
  {
    hide Contains, Trim, LinkRow;
    if ParseLine(line) == Row(name, summary) {
      var shown, target := PartsOfLink(line);
      assert ReadsAsLink(line, shown, target, summary) && name == WithoutIndex(target);
    }
    if exists shown, target :: ReadsAsLink(line, shown, target, summary) && name == WithoutIndex(target) {
      var shown, target :| ReadsAsLink(line, shown, target, summary) && name == WithoutIndex(target);
      LinkParses(line, shown, target, summary);
    }
  }

  lemma LinkParses(line: string, shown: string, target: string, summary: string)
    requires ReadsAsLink(line, shown, target, summary)
    ensures ParseLine(line) == Row(WithoutIndex(target), summary)
  {
    hide *;
    LinkParts(line, shown, target, summary);
    var destination := target + (") | " + (summary + " |"));
    LinkRowParts(shown, target, summary);
    RowIsRead(line, shown + ("](" + destination));
    FirstBracket(shown, false, destination);
    RowIsCutAt(shown, destination);
    DestinationIs(target, summary);
  }

  lemma LinkParts(line: string, shown: string, target: string, summary: string)
    requires ReadsAsLink(line, shown, target, summary)
    ensures Trim(line) == LinkRow(shown, target, summary) && !Contains(shown, "](") && !Contains(target, ") | ")
  {
  }

  /** What follows the opening of a row decides. */
  lemma RowIsRead(line: string, row: string)
    requires Trim(line) == "| [" + row
    ensures ParseLine(line) == ParseRow(row)
  {
    hide ParseRow, Trim;
    var text := "| [" + row;
    assert text[2] == '[' && HeadRow()[2] == 'I' && RuleRow()[2] == '-';
    assert text[3..] == row;
  }

  lemma RowIsCutAt(shown: string, destination: string)
    requires Find(shown + ("](" + destination), "](") == Some(|shown|)
    ensures ParseRow(shown + ("](" + destination)) == ParseDestination(destination)
  {
    hide ParseDestination, Find;
    assert (shown + ("](" + destination))[|shown| + 2..] == destination;
  }

  lemma DestinationIs(target: string, summary: string)
    requires !Contains(target, ") | ")
    ensures ParseDestination(target + (") | " + (summary + " |"))) == Row(WithoutIndex(target), summary)
  {
    hide Contains, ParseDestination;
    DestinationParses(target, WithoutIndex(target), summary);
  }

  lemma LinkRowParts(shown: string, target: string, summary: string)
    ensures LinkRow(shown, target, summary)
            == "| [" + (shown + ("](" + (target + (") | " + (summary + " |")))))
  {
  }

  lemma PartsOfLink(line: string) returns (shown: string, target: string)
    requires ParseLine(line).Row?
    ensures ReadsAsLink(line, shown, target, ParseLine(line).summary)
    ensures ParseLine(line).name == WithoutIndex(target)
  {
    hide ParseLine, ParseRow, ParseDestination, Contains, Find, Trim, LinkRow, WithoutIndex;
    var row := RowOfLine(line);
    var destination;
    shown, destination := PartsOfRow(row);
    target := PartsOfDestination(destination);
    LinkRowParts(shown, target, ParseLine(line).summary);
  }

  lemma RowOfLine(line: string) returns (row: string)
    requires ParseLine(line).Row?
    ensures Trim(line) == "| [" + row && ParseLine(line) == ParseRow(row)
  {
    hide ParseRow, Trim, HeadRow, RuleRow;
    row := Trim(line)[3..];
  }

  lemma PartsOfRow(row: string) returns (shown: string, destination: string)
    requires ParseRow(row).Row?
    ensures row == shown + ("](" + destination) && !Contains(shown, "](")
    ensures ParseRow(row) == ParseDestination(destination)
  {
    hide ParseDestination, Contains, Find;
    FoundSplits(row, "](");
    var at := Find(row, "](").value;
    shown, destination := row[..at], row[at + 2..];
  }

  lemma PartsOfDestination(destination: string) returns (target: string)
    requires ParseDestination(destination).Row?
    ensures destination == target + (") | " + (ParseDestination(destination).summary + " |"))
    ensures !Contains(target, ") | ") && ParseDestination(destination).name == WithoutIndex(target)
  {
    hide Contains, Find;
    FoundSplits(destination, ") | ");
    target := destination[..Find(destination, ") | ").value];
  }

  /** A text around the first occurrence of a pattern, which does not occur before it. */
  lemma FoundSplits(s: string, pattern: string)
    requires Find(s, pattern).Some? && pattern != []
    ensures var at := Find(s, pattern).value;
            at + |pattern| <= |s| && s == s[..at] + (pattern + s[at + |pattern|..]) && !Contains(s[..at], pattern)
  {
    hide Find;
    var at := FirstOf(s, pattern);
    assert s == s[..at] + (s[at..at + |pattern|] + s[at + |pattern|..]);
    forall i | 0 <= i <= at ensures !OccursAt(s[..at], pattern, i) {
      if OccursAt(s[..at], pattern, i) {
        OccursInWhole(s, 0, at, pattern, i);
      }
    }
  }

  // ---------- which markers are valid ----------

  /** The pattern stands here and nowhere else. */
  ghost predicate OnlyAt(text: string, pattern: string, at: int) {
    OccursAt(text, pattern, at) && forall i :: OccursAt(text, pattern, i) ==> i == at
  }

  /** One begin marker before one end marker. */
  ghost predicate OnePair(text: string) {
    exists begin: nat, end: nat :: OnlyAt(text, BeginMarker(), begin) && OnlyAt(text, EndMarker(), end) && begin < end
  }

  /** Markers are refused exactly unless there are none, or one begin marker and then one end marker. */
  lemma MarkersRefusedIff(text: string, entries: seq<Entry>)
    ensures ReconcileExisting(text, entries) == Rejected(InvalidMarkers) <==>
            !(!Contains(text, BeginMarker()) && !Contains(text, EndMarker())) && !OnePair(text)
  {
    hide Contains, Block, BeginMarker, EndMarker, ExistingSummaries, Lines, OccursAt;
    var begin, end := Find(text, BeginMarker()), Find(text, EndMarker());
    if begin.Some? && end.Some? && begin.value < end.value {
      MarkersDisjoint(text, begin.value, end.value);
      StartsInside(text, EndMarker(), end.value);
      PairIff(text, begin.value, end.value);
    }
    PairIsFirst(text);
  }

  lemma PairIsFirst(text: string)
    ensures var begin, end := Find(text, BeginMarker()), Find(text, EndMarker());
            OnePair(text) ==> begin.Some? && end.Some? && begin.value < end.value
  {
    hide Contains, BeginMarker, EndMarker, OccursAt;
    if OnePair(text) {
      var b: nat, e: nat :| OnlyAt(text, BeginMarker(), b) && OnlyAt(text, EndMarker(), e) && b < e;
      OnlyIsFirst(text, BeginMarker(), b);
      OnlyIsFirst(text, EndMarker(), e);
    }
  }

  lemma OnlyIsFirst(text: string, pattern: string, at: nat)
    requires OnlyAt(text, pattern, at)
    ensures Find(text, pattern) == Some(at)
  {
    FindIs(text, pattern, at);
  }

  /** With the first markers in order, more of them can only stand after the end marker or between the two. */
  lemma PairIff(text: string, begin: nat, end: nat)
    requires Find(text, BeginMarker()) == Some(begin) && Find(text, EndMarker()) == Some(end)
    requires begin + |BeginMarker()| <= end && end + |EndMarker()| <= |text|
    ensures OnePair(text) <==>
            var after := text[end + |EndMarker()|..];
            !Contains(after, BeginMarker()) && !Contains(after, EndMarker())
            && !Contains(text[begin + |BeginMarker()|..end], BeginMarker())
  {
    hide Contains, BeginMarker, EndMarker, OccursAt;
    var b, e := BeginMarker(), EndMarker();
    var from, to := begin + |b|, end + |e|;
    MarkersHaveLength();
    if OnePair(text) {
      var i: nat, j: nat :| OnlyAt(text, b, i) && OnlyAt(text, e, j) && i < j;
      OnlyIsFirst(text, b, i);
      OnlyIsFirst(text, e, j);
      SliceHoldsIff(text, to, |text|, b);
      SliceHoldsIff(text, to, |text|, e);
      SliceHoldsIff(text, from, end, b);
    }
    if !Contains(text[to..], b) && !Contains(text[to..], e) && !Contains(text[from..end], b) {
      BeginOnlyAt(text, begin, end);
      EndOnlyAt(text, end);
    }
  }

  lemma MarkersHaveLength()
    ensures |BeginMarker()| > 0 && |EndMarker()| > 0
  {
  }

  lemma SliceHoldsIff(text: string, from: nat, to: nat, pattern: string)
    requires from <= to <= |text|
    ensures Contains(text[from..to], pattern) ==> exists i :: i >= from && OccursAt(text, pattern, i)
    ensures to == |text| ==> text[from..to] == text[from..]
  {
    if Contains(text[from..to], pattern) {
      var i :| 0 <= i <= to - from && OccursAt(text[from..to], pattern, i);
      OccursInWhole(text, from, to, pattern, i);
    }
  }

  /** Where a marker that starts at `i` would run into another that starts at `at`. */
  lemma NoOverlap(text: string, m: string, other: string, i: int, at: int)
    requires IsMarker(m) && IsMarker(other) && OccursAt(text, m, i) && OccursAt(text, other, at)
    ensures i == at || i + |m| <= at || at + |other| <= i
  {
    hide BeginMarker, EndMarker;
    MarkerFacts(m);
    MarkerFacts(other);
    OccursChars(text, m, i);
    OccursChars(text, other, at);
    assert text[i] == '<' && text[at] == '<';
    assert forall j :: i < j < i + |m| ==> text[j] == m[j - i] && text[j] != '<';
    assert forall j :: at < j < at + |other| ==> text[j] == other[j - at] && text[j] != '<';
  }

  lemma BeginOnlyAt(text: string, begin: nat, end: nat)
    requires Find(text, BeginMarker()) == Some(begin) && OccursAt(text, EndMarker(), end)
    requires begin + |BeginMarker()| <= end && end + |EndMarker()| <= |text|
    requires !Contains(text[end + |EndMarker()|..], BeginMarker())
    requires !Contains(text[begin + |BeginMarker()|..end], BeginMarker())
    ensures OnlyAt(text, BeginMarker(), begin)
  {
    hide BeginMarker, EndMarker, OccursAt;
    var b, e := BeginMarker(), EndMarker();
    MarkersDiffer();
    assert text[end + |e|..|text|] == text[end + |e|..];
    forall i | OccursAt(text, b, i) ensures i == begin {
      StartsInside(text, b, i);
      NoOverlap(text, b, b, i, begin);
      NoOverlap(text, b, e, i, end);
      BothCannotStart(text, i, end);
      if i >= end + |e| {
        OccursInSlice(text, end + |e|, |text|, b, i);
      } else if begin + |b| <= i {
        OccursInSlice(text, begin + |b|, end, b, i);
      }
    }
  }

  lemma EndOnlyAt(text: string, end: nat)
    requires Find(text, EndMarker()) == Some(end) && end + |EndMarker()| <= |text|
    requires !Contains(text[end + |EndMarker()|..], EndMarker())
    ensures OnlyAt(text, EndMarker(), end)
  {
    hide BeginMarker, EndMarker, OccursAt;
    var e := EndMarker();
    assert text[end + |e|..|text|] == text[end + |e|..];
    forall i | OccursAt(text, e, i) ensures i == end {
      StartsInside(text, e, i);
      NoOverlap(text, e, e, i, end);
      if i >= end + |e| {
        OccursInSlice(text, end + |e|, |text|, e, i);
      }
    }
  }

  lemma StartsInside(text: string, pattern: string, i: int)
    requires OccursAt(text, pattern, i)
    ensures 0 <= i && i + |pattern| <= |text|
  {
  }

  lemma MarkersDiffer()
    ensures BeginMarker() != EndMarker() && IsMarker(BeginMarker()) && IsMarker(EndMarker())
  {
  }

  lemma BothCannotStart(text: string, i: int, at: int)
    requires OccursAt(text, BeginMarker(), i) && OccursAt(text, EndMarker(), at)
    ensures i != at
  {
    OccursChars(text, BeginMarker(), i);
    OccursChars(text, EndMarker(), at);
    assert BeginMarker()[21] == 'b' && EndMarker()[21] == 'e';
  }

  // ---------- which row is reported ----------

  /** Lines end at a newline, of which a carriage return before it is part; what follows the last is a line too. */
  lemma LinesMeaning(line: string, rest: string)
    requires '\n' !in line
    ensures line == [] || line[|line| - 1] != '\r' ==> Lines(line + "\n" + rest) == [line] + Lines(rest)
    ensures Lines(line + "\r\n" + rest) == [line] + Lines(rest)
    ensures Lines(line) == if line == [] then [] else [line]
  {
    if line == [] || line[|line| - 1] != '\r' {
      LinesCons(line, rest);
    }
    ReturnEndsLine(line, rest);
    assert forall i :: 0 <= i < |line| ==> line[i] in line;
    assert LineEnd(line) == |line|;
  }

  lemma ReturnEndsLine(line: string, rest: string)
    requires '\n' !in line
    ensures Lines(line + "\r\n" + rest) == [line] + Lines(rest)
  {
    var s := line + "\r\n" + rest;
    var n := LineEnd(s);
    assert s[|line|] == '\r' && s[|line| + 1] == '\n';
    assert forall i :: 0 <= i < |line| ==> s[i] == line[i] && line[i] in line;
    assert forall i :: 0 <= i < n ==> s[i] == s[..n][i];
    assert n == |line| + 1;
    assert s[..n] == line + "\r" && s[n + 1..] == rest;
    assert (line + "\r")[..|line|] == line;
  }

  /** The number of line ends in a text. */
  function LineEnds(s: string): nat {
    if s == [] then 0 else (if s[0] == '\n' then 1 else 0) + LineEnds(s[1..])
  }

  lemma {:induction false} LinesCount(s: string)
    ensures |Lines(s)| == LineEnds(s) + if s != [] && s[|s| - 1] != '\n' then 1 else 0
    decreases |s|
  {
    hide LineEnds;
    if s == [] {
      NoLineEnds(s);
    } else {
      var n := LineEnd(s);
      if n == |s| {
        assert s[..n] == s;
        NoLineEnds(s);
      } else {
        LinesCount(s[n + 1..]);
        FirstLineEnd(s, n);
      }
    }
  }

  lemma FirstLineEnd(s: string, n: nat)
    requires n < |s| && s[n] == '\n' && '\n' !in s[..n]
    ensures LineEnds(s) == 1 + LineEnds(s[n + 1..])
  {
    var rest := ['\n'] + s[n + 1..];
    NoLineEnds(s[..n]);
    assert s == s[..n] + rest;
    LineEndsConcat(s[..n], rest);
    assert rest[1..] == s[n + 1..];
  }

  lemma {:induction false} NoLineEnds(s: string)
    requires '\n' !in s
    ensures LineEnds(s) == 0
    decreases |s|
  {
    if s != [] { NoLineEnds(s[1..]); }
  }

  lemma {:induction false} LineEndsConcat(a: string, b: string)
    ensures LineEnds(a + b) == LineEnds(a) + LineEnds(b)
    decreases |a|
  {
    if a == [] {
      assert a + b == b;
    } else {
      assert (a + b)[1..] == a[1..] + b;
      LineEndsConcat(a[1..], b);
    }
  }

  /** The line between the markers is the first that is no row, no part of the table head and not blank. */
  ghost predicate FirstBadLine(inner: string, i: nat) {
    i < |Lines(inner)| && ParseLine(Lines(inner)[i]) == Malformed
    && forall j :: 0 <= j < i ==> ParseLine(Lines(inner)[j]) != Malformed
  }

  /**
   * A document with valid markers is refused exactly for its first bad line, under a number that is the
   * line's own in the document if and only if the begin marker starts a line.
   */
  lemma BadRowIs(text: string, entries: seq<Entry>, begin: nat, end: nat)
    requires OnlyAt(text, BeginMarker(), begin) && OnlyAt(text, EndMarker(), end) && begin < end
    ensures begin + |BeginMarker()| <= end
    ensures var lead, inner := text[..begin], text[begin + |BeginMarker()|..end];
            var r := ReconcileExisting(text, entries);
            && (r.Document? <==> forall i :: !FirstBadLine(inner, i))
            && forall i :: FirstBadLine(inner, i) ==>
                 && r.Rejected? && r.error.InvalidRowAt?
                 && (r.error.line == 1 + LineEnds(lead) + i <==> lead == [] || lead[|lead| - 1] == '\n')
  {
    hide Contains, BeginMarker, EndMarker, Block, Lines, ParseLine, OccursAt, ExistingSummaries;
    OnlyIsFirst(text, BeginMarker(), begin);
    OnlyIsFirst(text, EndMarker(), end);
    MarkersDisjoint(text, begin, end);
    StartsInside(text, EndMarker(), end);
    assert OnePair(text);
    MarkersRefusedIff(text, entries);
    var lead, inner := text[..begin], text[begin + |BeginMarker()|..end];
    LinesCount(lead);
    FoundPair(text, entries, begin, end);
    ParsesUnless(inner, |Lines(lead)| + 1);
  }

  lemma FoundPair(text: string, entries: seq<Entry>, begin: nat, end: nat)
    requires Find(text, BeginMarker()) == Some(begin) && Find(text, EndMarker()) == Some(end)
    requires begin + |BeginMarker()| <= end && end + |EndMarker()| <= |text|
    requires ReconcileExisting(text, entries) != Rejected(InvalidMarkers)
    ensures var r := ReconcileExisting(text, entries);
            match ExistingSummaries(text[begin + |BeginMarker()|..end], |Lines(text[..begin])| + 1)
            case InvalidRow(line) => r == Rejected(InvalidRowAt(line))
            case Ok(_) => r.Document?
  {
    hide Contains, BeginMarker, EndMarker, Block, Lines, ExistingSummaries;
  }

  lemma ParsesUnless(inner: string, firstLine: nat)
    ensures var r := ExistingSummaries(inner, firstLine);
            && (r.Ok? <==> forall i :: !FirstBadLine(inner, i))
            && forall i :: FirstBadLine(inner, i) ==> r == InvalidRow(firstLine + i)
  {
    hide Lines, ParseLine;
    RowsParseUnless(Lines(inner), 0, firstLine, map[]);
    var r := ExistingSummaries(inner, firstLine);
    if r.InvalidRow? {
      assert FirstBadLine(inner, r.line - firstLine);
    }
  }

  lemma {:induction false} RowsParseUnless(
      lines: seq<string>, index: nat, firstLine: nat, acc: map<string, string>)
    requires index <= |lines|
    ensures var r := ParseRows(lines, index, firstLine, acc);
            match r
            case Ok(_) => forall i :: index <= i < |lines| ==> ParseLine(lines[i]) != Malformed
            case InvalidRow(line) =>
              firstLine + index <= line < firstLine + |lines| && ParseLine(lines[line - firstLine]) == Malformed
              && forall j :: index <= j < line - firstLine ==> ParseLine(lines[j]) != Malformed
    decreases |lines| - index
  {
    hide ParseLine;
    if index < |lines| {
      match ParseLine(lines[index])
      case Blank => RowsParseUnless(lines, index + 1, firstLine, acc);
      case Row(name, summary) => RowsParseUnless(lines, index + 1, firstLine, acc[name := summary]);
      case Malformed =>
    }
  }

  // ---------- validation and order ----------

  /** The entry at `i` is the first with a bad name or a name that was used before. */
  ghost predicate FirstBadEntry(entries: seq<Entry>, i: nat) {
    i < |entries| && (!ValidName(entries[i].name) || UsedBefore(entries, i))
    && forall j :: 0 <= j < i ==> ValidName(entries[j].name) && !UsedBefore(entries, j)
  }

  ghost predicate UsedBefore(entries: seq<Entry>, i: nat)
    requires i < |entries|
  {
    exists j :: 0 <= j < i && entries[j].name == entries[i].name
  }

  /** The whole document is refused for its first bad entry, a bad name before a repeated one. */
  lemma BadEntryIs(
      source: Option<string>, directory: string, entries: seq<Entry>, upper: Upper, lower: Lower, i: nat)
    requires FirstBadEntry(entries, i)
    ensures var name := entries[i].name;
            IndexDocument(source, directory, entries, upper, lower)
            == Rejected(if name == [] || '\r' in name || '\n' in name then InvalidEntryName(name)
                        else DuplicateEntry(name))
  {
    hide Reconcile, SortEntries;
    ValidateStopsAt(entries, 0, {}, i);
  }

  lemma {:induction false} ValidateStopsAt(entries: seq<Entry>, index: nat, seen: set<string>, i: nat)
    requires FirstBadEntry(entries, i) && index <= i
    requires forall name :: name in seen <==> exists j :: 0 <= j < index && entries[j].name == name
    ensures var name := entries[i].name;
            Validate(entries, index, seen)
            == Some(if name == [] || '\r' in name || '\n' in name then InvalidEntryName(name) else DuplicateEntry(name))
    decreases i - index
  {
    var name := entries[index].name;
    assert name in seen <==> UsedBefore(entries, index);
    if index < i {
      forall other ensures other in seen + {name} <==> exists j :: 0 <= j < index + 1 && entries[j].name == other {
        if other == name { assert entries[index].name == other; }
      }
      ValidateStopsAt(entries, index + 1, seen + {name}, i);
    }
  }

  /** `a` comes before `b` in a dictionary: at the first difference, or because it ends there. */
  ghost predicate BeforeOrEqual(a: string, b: string) {
    a <= b || exists k :: 0 <= k < |a| && k < |b| && a[..k] == b[..k] && a[k] < b[k]
  }

  lemma PrefixHead(a: string, b: string, k: nat)
    requires 0 < k <= |a| && k <= |b| && a[..k] == b[..k]
    ensures a[0] == b[0]
  {
    assert a[..k][0] == b[..k][0];
  }

  /** Where the first characters agree, the rest decides. */
  lemma BeforeTail(a: string, b: string)
    requires a != [] && b != [] && a[0] == b[0]
    ensures BeforeOrEqual(a, b) <==> BeforeOrEqual(a[1..], b[1..])
  {
    var x, y := a[1..], b[1..];
    assert a == [a[0]] + x && b == [b[0]] + y;
    if !(x <= y) && BeforeOrEqual(x, y) {
      var k :| 0 <= k < |x| && k < |y| && x[..k] == y[..k] && x[k] < y[k];
      assert a[..k + 1] == [a[0]] + x[..k] && b[..k + 1] == [b[0]] + y[..k];
      assert a[k + 1] < b[k + 1];
    }
    if !(a <= b) && BeforeOrEqual(a, b) {
      var k :| 0 <= k < |a| && k < |b| && a[..k] == b[..k] && a[k] < b[k];
      assert k > 0;
      assert x[..k - 1] == a[..k][1..] && y[..k - 1] == b[..k][1..];
      assert x[k - 1] < y[k - 1];
    }
  }

  lemma {:induction false} LexMeaning(a: string, b: string)
    ensures LexLe(a, b) <==> BeforeOrEqual(a, b)
    decreases |a|
  {
    if a != [] && b != [] {
      if a[0] == b[0] {
        LexMeaning(a[1..], b[1..]);
        BeforeTail(a, b);
      } else {
        HeadsDecide(a, b);
      }
    }
  }

  lemma HeadsDecide(a: string, b: string)
    requires a != [] && b != [] && a[0] != b[0]
    ensures BeforeOrEqual(a, b) <==> a[0] < b[0]
  {
    assert a[..0] == b[..0];
    forall k | 0 < k <= |a| && k <= |b| && a[..k] == b[..k] ensures false {
      PrefixHead(a, b, k);
    }
    assert !(a <= b);
  }

  /** On the page: directories before files, then by lower-cased name, then by name. */
  lemma DisplayOrder(entries: seq<Entry>, lower: Lower, i: nat, j: nat)
    requires i < j < |SortEntries(entries, lower)|
    ensures var a, b := SortEntries(entries, lower)[i], SortEntries(entries, lower)[j];
            if a.kind != b.kind then a.kind.Directory?
            else if lower(a.name) != lower(b.name) then BeforeOrEqual(lower(a.name), lower(b.name))
            else BeforeOrEqual(a.name, b.name)
  {
    hide SortEntries, LexLe;
    SortOrders(entries, lower);
    var a, b := SortEntries(entries, lower)[i], SortEntries(entries, lower)[j];
    LexMeaning(lower(a.name), lower(b.name));
    LexMeaning(a.name, b.name);
    assert Precedes(a, b, lower);
  }
}
