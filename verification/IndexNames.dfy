/** Which entry names survive being printed and read back, whatever summaries a document records. */
module IndexNames {
  import opened Text
  import opened IndexBlock

  function Separator(e: Entry): string {
    if e.kind.Directory? then "/](" else "]("
  }

  function Extension(e: Entry): string {
    if e.kind.Directory? then "/index.md" else ""
  }

  /** The name under which an entry's row is read: whatever lies between the first `](` and the next `) | `. */
  function ReadName(e: Entry): string {
    match Find(e.name + Separator(e), "](")
    case None => ""
    case Some(at) =>
      var destination := (e.name + Separator(e))[at + 2..] + e.name + Extension(e) + ") | ";
      match Find(destination, ") | ")
      case None => ""
      case Some(end) => Stripped(destination[..end])
  }

  /** What comes after a first occurrence does not move it. */
  lemma FirstInLonger(s: string, pattern: string, rest: string)
    requires Contains(s, pattern)
    ensures Find(s, pattern).Some? && Find(s + rest, pattern) == Find(s, pattern)
  {
    hide Contains, Find;
    var k := FirstOf(s, pattern);
    var longer := s + rest;
    assert longer[k..k + |pattern|] == s[k..k + |pattern|];
    forall j | 0 <= j < k ensures !OccursAt(longer, pattern, j) {
      if OccursAt(longer, pattern, j) {
        OccursInPrefix(longer, s, pattern, j);
      }
    }
    FindIs(longer, pattern, k);
  }

  lemma FirstOf(s: string, pattern: string) returns (k: nat)
    requires Contains(s, pattern)
    ensures Find(s, pattern) == Some(k) && OccursAt(s, pattern, k)
    ensures forall j :: 0 <= j < k ==> !OccursAt(s, pattern, j)
  {
    k := Find(s, pattern).value;
  }

  /** An entry's row is read under that name with any summary. */
  lemma ReadNameIs(e: Entry, summary: string)
    ensures var line := ParseLine(RenderRow(e, summary)); line.Row? && line.name == ReadName(e)
  {
    hide ParseLine, RenderRow, ParseDestination, Contains, Find, Stripped;
    var head, close := e.name + Separator(e), e.name + Extension(e);
    var tail := summary + " |";
    RowPassesTests(e, summary);
    RowBody(e, summary);
    RowReadsIff(e, summary);
    EndsInBracket(e.name, Separator(e));
    FirstInLonger(head, "](", close + (") | " + tail));
    var at := Find(head, "](").value;
    FoundFits(head, "](");
    var lead := head[at + 2..] + e.name + Extension(e);
    var d := lead + ") | ";
    Associate(e.name, Separator(e), close + (") | " + tail));
    AfterBracket(head, at + 2, e.name, Extension(e), tail);
    EndsInClose(lead);
    FirstInLonger(d, ") | ", tail);
    FoundFits(d, ") | ");
    DestinationName(d + tail, Find(d, ") | ").value);
    assert (d + tail)[..Find(d, ") | ").value] == d[..Find(d, ") | ").value];
  }

  lemma AfterBracket(head: string, from: nat, name: string, extension: string, tail: string)
    requires from <= |head|
    ensures (head + (name + extension + (") | " + tail)))[from..]
            == head[from..] + name + extension + ") | " + tail
  {
    Associate(head[from..], name, extension);
    Associate(head[from..] + name + extension, ") | ", tail);
    Associate(head[from..], name + extension, ") | " + tail);
    DropConcat(head, from, name + extension + (") | " + tail));
  }

  lemma DropConcat(a: string, from: nat, b: string)
    requires from <= |a|
    ensures (a + b)[from..] == a[from..] + b
  {
  }

  lemma EndsInBracket(name: string, separator: string)
    requires separator == "](" || separator == "/]("
    ensures Contains(name + separator, "](")
  {
    var s := name + separator;
    assert s[|s| - 2..|s| - 2 + 2] == "](";
    assert OccursAt(s, "](", |s| - 2);
  }

  lemma EndsInClose(lead: string)
    ensures Contains(lead + ") | ", ") | ")
  {
    var s := lead + ") | ";
    assert s[|lead|..|lead| + 4] == ") | ";
    assert OccursAt(s, ") | ", |lead|);
  }

  lemma FoundFits(s: string, pattern: string)
    requires Find(s, pattern).Some?
    ensures Find(s, pattern).value + |pattern| <= |s|
  {
  }

  lemma DestinationName(d: string, end: nat)
    requires Find(d, ") | ") == Some(end) && end + 4 <= |d| && ParseDestination(d).Row?
    ensures ParseDestination(d).name == Stripped(d[..end])
  {
    hide Find;
  }

  lemma ReadNameIffReadsBack(e: Entry)
    ensures ReadName(e) == e.name <==> ReadsBack(e)
  {
    hide ParseLine, RenderRow, ReadName, ReadsBack;
    ReadNameIs(e, "");
    RowReadsIff(e, "");
  }

  /** No row is read under a name that holds a close, so a document never records one. */
  lemma NoCloseIsRead(line: string)
    requires ParseLine(line).Row?
    ensures !Contains(ParseLine(line).name, ") | ")
  {
    hide Trim, HeadRow, RuleRow, Contains, Find, ParseDestination;
    var row := Trim(line)[3..];
    FoundFits(row, "](");
    NoCloseInDestination(row[Find(row, "](").value + 2..]);
  }

  lemma NoCloseInDestination(d: string)
    requires ParseDestination(d).Row?
    ensures !Contains(ParseDestination(d).name, ") | ")
  {
    hide Contains, Find, Stripped, OccursAt, ParseDestination;
    DestinationFinds(d);
    var k := Find(d, ") | ").value;
    DestinationName(d, k);
    var name := Stripped(d[..k]);
    StrippedIsPrefix(d[..k]);
    if Contains(name, ") | ") {
      var j := FirstOf(name, ") | ");
      FoundFits(name, ") | ");
      PrefixOfPrefix(d, k, name);
      OccursInLonger(name, d, ") | ", j);
      FirstIsNoLater(d, ") | ", j);
    }
  }

  lemma DestinationFinds(d: string)
    requires ParseDestination(d).Row?
    ensures Find(d, ") | ").Some? && Find(d, ") | ").value + 4 <= |d|
  {
    hide Contains;
  }

  lemma StrippedIsPrefix(target: string)
    ensures Stripped(target) <= target
  {
  }

  lemma PrefixOfPrefix(d: string, k: nat, name: string)
    requires k <= |d| && name <= d[..k]
    ensures name <= d && |name| <= k
  {
  }

  lemma OccursInLonger(s: string, longer: string, pattern: string, j: nat)
    requires s <= longer && OccursAt(s, pattern, j)
    ensures OccursAt(longer, pattern, j)
  {
    assert longer[j..j + |pattern|] == s[j..j + |pattern|];
  }

  lemma FirstIsNoLater(s: string, pattern: string, j: nat)
    requires Find(s, pattern).Some? && OccursAt(s, pattern, j)
    ensures Find(s, pattern).value <= j
  {
  }

  // ---------- all documents at once ----------

  /** What a document can record: one-line summaries under names without a close. */
  ghost predicate Recordable(existing: map<string, string>) {
    OneLineSummaries(existing) && forall name :: name in existing ==> !Contains(name, ") | ")
  }

  /** No later row is read under this entry's name. */
  ghost predicate LastToRead(entries: seq<Entry>, i: nat)
    requires i < |entries|
  {
    forall j :: i < j < |entries| ==> ReadName(entries[j]) != entries[i].name
  }

  /** Every name a document can record reads back, and is not taken by a later row. */
  ghost predicate NamesRead(entries: seq<Entry>) {
    forall i :: 0 <= i < |entries| && !Contains(entries[i].name, ") | ") ==>
      ReadsBack(entries[i]) && LastToRead(entries, i)
  }

  /**
   * The exact condition on the names alone: whatever a document records, the rows of distinct entries read
   * back what they were printed with, if and only if the names read.
   */
  lemma NamesReadIff(entries: seq<Entry>)
    requires DistinctNames(entries)
    ensures NamesRead(entries) <==>
            forall existing :: Recordable(existing) ==> RowsReadAlike(entries, existing)
  {
    hide Contains, ReadsBack, ReadName, RowsReadAlike, Recordable;
    if NamesRead(entries) {
      forall existing | Recordable(existing) ensures RowsReadAlike(entries, existing) {
        NamesReadAlike(entries, existing);
      }
    } else {
      var i :| 0 <= i < |entries| && !Contains(entries[i].name, ") | ")
               && !(ReadsBack(entries[i]) && LastToRead(entries, i));
      var n := entries[i].name;
      OneIsRecordable(n, "");
      OneIsRecordable(n, "x");
      if RowsReadAlike(entries, map[n := ""]) && RowsReadAlike(entries, map[n := "x"]) {
        AgreeWhole(entries, i);
        AlikeAt(entries, map[n := ""], i);
        AlikeAt(entries, map[n := "x"], i);
        assert false;
      }
    }
  }

  lemma OneIsRecordable(name: string, summary: string)
    requires !Contains(name, ") | ") && '\n' !in summary
    ensures Recordable(map[name := summary])
  {
  }

  lemma AlikeAt(entries: seq<Entry>, existing: map<string, string>, i: nat)
    requires i < |entries| && RowsReadAlike(entries, existing)
    ensures SummaryFor(entries[i], ReadMap(entries, existing)) == SummaryFor(entries[i], existing)
  {
    assert entries[i] in entries;
  }

  /** The two maps give this name the same summary, or neither gives it one. */
  ghost predicate Agree(a: map<string, string>, b: map<string, string>, name: string) {
    (name in a <==> name in b) && (name in a ==> a[name] == b[name])
  }

  lemma AgreeWhole(entries: seq<Entry>, i: nat)
    requires i < |entries| && DistinctNames(entries) && !(ReadsBack(entries[i]) && LastToRead(entries, i))
    ensures var n := entries[i].name; Agree(ReadMap(entries, map[n := ""]), ReadMap(entries, map[n := "x"]), n)
  {
    hide ReadsBack, ReadName, ReadMap;
    ReadsElsewhere(entries, i, |entries|);
    assert entries[..|entries|] == entries;
  }

  lemma PrintsAlike(e: Entry, name: string)
    requires e.name != name
    ensures SummaryFor(e, map[name := ""]) == SummaryFor(e, map[name := "x"])
  {
  }

  /** If another row is the last to be read under a name, what is read there does not depend on its summary. */
  lemma {:induction false} ReadsElsewhere(entries: seq<Entry>, i: nat, count: nat)
    requires i < |entries| && count <= |entries| && DistinctNames(entries)
    requires i < count ==>
               !ReadsBack(entries[i]) || exists j :: i < j < count && ReadName(entries[j]) == entries[i].name
    ensures var n := entries[i].name;
            Agree(ReadMap(entries[..count], map[n := ""]), ReadMap(entries[..count], map[n := "x"]), n)
    decreases count
  {
    hide ReadsBack, ReadName, ReadMap, RenderRow, ParseLine, SummaryFor;
    var n := entries[i].name;
    if count == 0 {
      NothingRead(entries[..0], map[n := ""]);
      NothingRead(entries[..0], map[n := "x"]);
    } else {
      var k := count - 1;
      ReadMapSnoc(entries, map[n := ""], k);
      ReadMapSnoc(entries, map[n := "x"], k);
      ReadNameIs(entries[k], SummaryFor(entries[k], map[n := ""]));
      ReadNameIs(entries[k], SummaryFor(entries[k], map[n := "x"]));
      ReadNameIffReadsBack(entries[k]);
      if k != i {
        PrintsAlike(entries[k], n);
      }
      if ReadName(entries[k]) != n {
        ReadsElsewhere(entries, i, k);
      }
    }
  }

  lemma NothingRead(entries: seq<Entry>, existing: map<string, string>)
    requires entries == []
    ensures ReadMap(entries, existing) == map[]
  {
  }

  /** What is read under a name when its own row is the last to be read there. */
  lemma {:induction false} OwnRowIsRead(entries: seq<Entry>, existing: map<string, string>, i: nat, count: nat)
    requires i < count <= |entries| && ReadsBack(entries[i]) && LastToRead(entries, i)
    ensures var read := ReadMap(entries[..count], existing);
            entries[i].name in read && read[entries[i].name] == SummaryFor(entries[i], existing)
    decreases count
  {
    hide ReadsBack, ReadName, ReadMap, RenderRow, ParseLine, SummaryFor;
    var k := count - 1;
    var summary := SummaryFor(entries[k], existing);
    ReadMapSnoc(entries, existing, k);
    ReadNameIs(entries[k], summary);
    if k == i {
      RowReadsIff(entries[i], summary);
    } else {
      OwnRowIsRead(entries, existing, i, k);
    }
  }

  /** Names that hold a close are never read. */
  lemma {:induction false} NeverRead(entries: seq<Entry>, existing: map<string, string>, count: nat, name: string)
    requires count <= |entries| && Contains(name, ") | ")
    ensures name !in ReadMap(entries[..count], existing)
    decreases count
  {
    hide ReadMap, RenderRow, ParseLine, SummaryFor, Contains;
    if count == 0 {
      NothingRead(entries[..0], existing);
    } else {
      ReadMapSnoc(entries, existing, count - 1);
      NoCloseIsRead(RenderRow(entries[count - 1], SummaryFor(entries[count - 1], existing)));
      NeverRead(entries, existing, count - 1, name);
    }
  }

  lemma NamesReadAlike(entries: seq<Entry>, existing: map<string, string>)
    requires NamesRead(entries) && Recordable(existing)
    ensures RowsReadAlike(entries, existing)
  {
    hide ReadsBack, LastToRead, ReadMap, Contains;
    forall e | e in entries ensures SummaryFor(e, ReadMap(entries, existing)) == SummaryFor(e, existing) {
      var i :| 0 <= i < |entries| && entries[i] == e;
      assert entries[..|entries|] == entries;
      if Contains(e.name, ") | ") {
        NeverRead(entries, existing, |entries|, e.name);
      } else {
        OwnRowIsRead(entries, existing, i, |entries|);
      }
    }
  }

  /** Distinct names that all read back are a case of it. */
  lemma ReadingNamesRead(entries: seq<Entry>)
    requires DistinctNames(entries) && forall e :: e in entries ==> ReadsBack(e)
    ensures NamesRead(entries)
  {
    hide ReadsBack, ReadName, Contains;
    forall j | 0 <= j < |entries| ensures ReadName(entries[j]) == entries[j].name {
      ReadNameIffReadsBack(entries[j]);
    }
  }

  /** A parsed block records no name that holds a close. */
  lemma {:induction false} ParsedNamesHoldNoClose(
      lines: seq<string>, index: nat, firstLine: nat, acc: map<string, string>)
    requires index <= |lines| && forall name :: name in acc ==> !Contains(name, ") | ")
    ensures var r := ParseRows(lines, index, firstLine, acc);
            r.Ok? ==> forall name :: name in r.summaries ==> !Contains(name, ") | ")
    decreases |lines| - index
  {
    hide ParseLine, Contains;
    if index < |lines| {
      var line := ParseLine(lines[index]);
      if line.Row? {
        NoCloseIsRead(lines[index]);
        ParsedNamesHoldNoClose(lines, index + 1, firstLine, acc[line.name := line.summary]);
      } else if line.Blank? {
        ParsedNamesHoldNoClose(lines, index + 1, firstLine, acc);
      }
    }
  }

  /** Two valid, distinct names of which the second is read as the first, with a summary of its own. */
  function Clashing(): seq<Entry> {
    [Entry("a", File, ""), Entry("a) | b", File, "")]
  }

  lemma ClashingRow(summary: string)
    ensures ParseLine(RenderRow(Clashing()[1], summary)) == Row("a", "b) | " + summary)
  {
    hide ParseLine, RenderRow, Contains, Find;
    var e := Clashing()[1];
    NoBracketIn(e.name);
    RowIsCutAfterName(e, summary);
    assert e.name[1..5] == ") | " && e.name[0] == 'a';
    FindIs(e.name, ") | ", 1);
    assert e.name == "a" + (") | " + "b");
    ClashingDestination(summary);
    assert e.name + "" == e.name;
  }

  lemma ClashingDestination(summary: string)
    ensures ParseDestination("a) | b" + (") | " + (summary + " |"))) == Row("a", "b) | " + summary)
  {
    hide Contains, Find;
    var name := "a) | b";
    var d := name + (") | " + (summary + " |"));
    assert name[1..5] == ") | " && name[0] == 'a';
    FindIs(name, ") | ", 1);
    FindInPrefix(name, d, 1);
    var read := "b) | " + summary;
    assert d[5..] == read + " |" && (read + " |")[..|read|] == read && d[..1] == "a";
  }

  lemma ClashingNamesReadDifferently()
    ensures OneLineEntries(Clashing()) && DistinctNames(Clashing()) && !RowsReadAlike(Clashing(), map[])
  {
    hide Contains, Find, ReadMap, RenderRow, ParseLine, SingleLine;
    var entries := Clashing();
    var summary := SummaryFor(entries[1], map[]);
    ClashingRow(summary);
    ReadMapSnoc(entries, map[], 1);
    assert entries[..2] == entries && |entries[0].name| != |entries[1].name|;
    assert ReadMap(entries, map[])["a"] == "b) | " + summary;
    assert entries[0] in entries && SummaryFor(entries[0], map[]) == summary;
    assert |"b) | " + summary| > |summary|;
  }
}
