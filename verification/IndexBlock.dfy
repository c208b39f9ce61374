/** Rows of the managed `index.md` block: the printer, the parser, and how they undo each other. */
module IndexBlock {
  import opened Text

  datatype EntryKind = Directory | File

  datatype Entry = Entry(name: string, kind: EntryKind, suggested: string)

  // ---------- text ----------

  /** Index of the first newline, or the length. */
  function LineEnd(s: string): (n: nat)
    ensures n <= |s| && '\n' !in s[..n] && (n < |s| ==> s[n] == '\n')
  {
    if s == [] || s[0] == '\n' then 0
    else
      assert s[..1 + LineEnd(s[1..])] == [s[0]] + s[1..][..LineEnd(s[1..])];
      1 + LineEnd(s[1..])
  }

  function StripCarriageReturn(line: string): string {
    if line != [] && line[|line| - 1] == '\r' then line[..|line| - 1] else line
  }

  /** `str::lines`. */
  function Lines(s: string): (lines: seq<string>)
    decreases |s|
  {
    if s == [] then []
    else
      var n := LineEnd(s);
      if n == |s| then [s] else [StripCarriageReturn(s[..n])] + Lines(s[n + 1..])
  }

  lemma LinesCons(line: string, rest: string)
    requires '\n' !in line && (line == [] || line[|line| - 1] != '\r')
    ensures Lines(line + "\n" + rest) == [line] + Lines(rest)
  {
    var s := line + "\n" + rest;
    var n := LineEnd(s);
    assert s[|line|] == '\n';
    assert forall i :: 0 <= i < |line| ==> s[i] == line[i] && line[i] in line;
    assert forall i :: 0 <= i < n ==> s[i] == s[..n][i];
    assert s[..n] == line && s[n + 1..] == rest;
  }

  /** Whitespace-separated words. */
  function Words(s: string): (words: seq<string>)
    decreases |s|
  {
    if s == [] then []
    else if IsWhitespace(s[0]) then Words(s[1..])
    else
      var n := WordEnd(s);
      [s[..n]] + Words(s[n..])
  }

  function WordEnd(s: string): (n: nat)
    ensures n <= |s| && (s != [] && !IsWhitespace(s[0]) ==> n > 0)
    ensures forall i :: 0 <= i < n ==> !IsWhitespace(s[i])
  {
    if s == [] || IsWhitespace(s[0]) then 0 else 1 + WordEnd(s[1..])
  }

  function JoinWords(words: seq<string>): string {
    if words == [] then "" else if |words| == 1 then words[0] else words[0] + " " + JoinWords(words[1..])
  }

  function EscapePipes(s: string): string {
    if s == [] then [] else (if s[0] == '|' then "\\|" else [s[0]]) + EscapePipes(s[1..])
  }

  function SingleLine(value: string): string {
    EscapePipes(JoinWords(Words(value)))
  }

  lemma {:induction false} EscapePipesKeepsOneLine(s: string)
    requires '\n' !in s
    ensures '\n' !in EscapePipes(s)
    decreases |s|
  {
    if s != [] { EscapePipesKeepsOneLine(s[1..]); }
  }

  lemma {:induction false} JoinedWordsOneLine(s: string)
    ensures '\n' !in JoinWords(Words(s))
    decreases |s|
  {
    if s == [] {
    } else if IsWhitespace(s[0]) {
      JoinedWordsOneLine(s[1..]);
    } else {
      var n := WordEnd(s);
      JoinedWordsOneLine(s[n..]);
      assert '\n' !in s[..n];
      var rest := Words(s[n..]);
      assert Words(s) == [s[..n]] + rest;
      assert Words(s)[1..] == rest;
    }
  }

  /** A derived summary never spans lines. */
  lemma SingleLineIsOneLine(value: string)
    ensures '\n' !in SingleLine(value)
  {
    JoinedWordsOneLine(value);
    EscapePipesKeepsOneLine(JoinWords(Words(value)));
  }

  // ---------- rows ----------

  function AutoMark(): string {
    " <!-- auto -->"
  }

  function SummaryFor(e: Entry, existing: map<string, string>): string {
    if e.name in existing then existing[e.name] else SingleLine(e.suggested) + AutoMark()
  }

  function RenderRow(e: Entry, summary: string): string {
    match e.kind
    case Directory => "| [" + (e.name + ("/](" + (e.name + ("/index.md" + (") | " + (summary + " |"))))))
    case File => "| [" + (e.name + ("](" + (e.name + (") | " + (summary + " |")))))
  }

  function HeadRow(): string {
    "| Item | Summary |"
  }

  function RuleRow(): string {
    "| --- | --- |"
  }

  datatype Line = Blank | Row(name: string, summary: string) | Malformed

  function ParseLine(line: string): Line {
    var trimmed := Trim(line);
    if trimmed == [] || trimmed == HeadRow() || trimmed == RuleRow() then Blank
    else match StripPrefix(trimmed, "| [")
      case None => Malformed
      case Some(row) => ParseRow(row)
  }

  /** A row after its opening `| [`. */
  function ParseRow(row: string): Line {
    match Find(row, "](")
    case None => Malformed
    case Some(at) => ParseDestination(row[at + 2..])
  }

  /** A row after its `](`. */
  function ParseDestination(destination: string): Line {
    match Find(destination, ") | ")
    case None => Malformed
    case Some(end) =>
      match StripSuffix(destination[end + 4..], " |")
      case None => Malformed
      case Some(summary) =>
        var target := destination[..end];
        var name := StripSuffix(target, "/index.md");
        Row(if name.Some? then name.value else target, summary)
  }

  /** A name that validation accepts stays on its line. */
  predicate OneLineName(name: string) {
    '\n' !in name && '\r' !in name
  }

  /** Entries whose row gives their own name back. */
  predicate ReadsBack(e: Entry) {
    && !Contains(e.name, "](") && !Contains(e.name, ") | ")
    && (e.kind.File? ==> StripSuffix(e.name, "/index.md") == None)
  }

  lemma NoBracketInName(name: string, rest: string, j: nat)
    requires !Contains(name, "](") && rest != [] && rest[0] != '(' && j < |name|
    ensures !OccursAt(name + rest, "](", j)
  {
    var s := name + rest;
    if OccursAt(s, "](", j) {
      OccursChars(s, "](", j);
      assert s[|name|] == rest[0];
      if j + 1 < |name| {
        OccursInPrefix(s, name, "](", j);
      }
    }
  }

  lemma FirstBracket(name: string, slash: bool, rest: string)
    requires !Contains(name, "](")
    ensures var tail := (if slash then "/](" else "](") + rest;
            Find(name + tail, "](") == Some(|name| + if slash then 1 else 0)
  {
    var tail := (if slash then "/](" else "](") + rest;
    var at := |name| + if slash then 1 else 0;
    var s := name + tail;
    assert s[at] == ']' && s[at + 1] == '(';
    assert s[at..at + 2] == "](";
    forall j | 0 <= j < at ensures !OccursAt(s, "](", j) {
      if j < |name| {
        NoBracketInName(name, tail, j);
      } else if OccursAt(s, "](", j) {
        OccursChars(s, "](", j);
      }
    }
    FindIs(s, "](", at);
  }

  lemma FirstClose(target: string, rest: string)
    requires !Contains(target, ") | ") && OccursAt(rest, ") | ", 0)
    ensures Find(target + rest, ") | ") == Some(|target|)
  {
    var s := target + rest;
    assert s[|target|..|target| + 4] == rest[0..4];
    assert rest[0] == rest[0..4][0] == ')';
    assert s[|target|] == rest[0];
    forall j | 0 <= j < |target| ensures !OccursAt(s, ") | ", j) {
      if OccursAt(s, ") | ", j) {
        OccursChars(s, ") | ", j);
        if j + 4 <= |target| {
          OccursInPrefix(s, target, ") | ", j);
        }
      }
    }
    FindIs(s, ") | ", |target|);
  }

  lemma DirectoryTargetHasNoClose(name: string)
    requires !Contains(name, ") | ")
    ensures !Contains(name + "/index.md", ") | ")
  {
    var target := name + "/index.md";
    assert target[|name|] == '/';
    assert forall k :: |name| <= k < |target| ==> target[k] == "/index.md"[k - |name|];
    assert ')' !in "/index.md";
    forall j | 0 <= j <= |target| ensures !OccursAt(target, ") | ", j) {
      if OccursAt(target, ") | ", j) {
        OccursChars(target, ") | ", j);
        if j + 4 <= |name| {
          OccursInPrefix(target, name, ") | ", j);
        }
      }
    }
  }

  lemma DestinationParses(target: string, name: string, summary: string)
    requires !Contains(target, ") | ")
    requires StripSuffix(target, "/index.md") == Some(name)
      || (StripSuffix(target, "/index.md") == None && name == target)
    ensures ParseDestination(target + (") | " + (summary + " |"))) == Row(name, summary)
  {
    var rest := ") | " + (summary + " |");
    var destination := target + rest;
    assert rest[0..4] == ") | ";
    FirstClose(target, rest);
    assert destination[|target| + 4..] == summary + " |";
    assert destination[..|target|] == target;
    assert (summary + " |")[|summary|..] == " |";
    assert (summary + " |")[..|summary|] == summary;
  }

  lemma RowIsTrimmed(e: Entry, summary: string)
    ensures var row := RenderRow(e, summary);
            IsTrimmed(row) && "| [" <= row && row[2] == '[' && row[|row| - 1] == '|'
  {
    var row := RenderRow(e, summary);
    assert row[0] == '|' && row[1] == ' ' && row[2] == '[';
    assert row[|row| - 1] == '|';
    assert !IsWhitespace('|');
  }

  lemma RowPassesTests(e: Entry, summary: string)
    ensures var row := RenderRow(e, summary);
            ParseLine(row) == ParseRow(row[3..])
  {
    hide RenderRow, Trim, ParseRow;
    var row := RenderRow(e, summary);
    RowIsTrimmed(e, summary);
    TrimOfTrimmed(row);
    assert HeadRow()[2] == 'I' && RuleRow()[2] == '-';
  }

  /** The parser undoes the printer, whatever the summary says, when the name reads back. */
  lemma RowRoundTrip(e: Entry, summary: string)
    requires ReadsBack(e)
    ensures ParseLine(RenderRow(e, summary)) == Row(e.name, summary)
  {
    RowPassesTests(e, summary);
    match e.kind
    case Directory => DirectoryRowParses(e.name, summary); DirectoryRowBody(e, summary);
    case File => FileRowParses(e, summary); FileRowBody(e, summary);
  }

  lemma DirectoryRowBody(e: Entry, summary: string)
    requires e.kind.Directory?
    ensures RenderRow(e, summary)[3..]
            == e.name + ("/](" + (e.name + ("/index.md" + (") | " + (summary + " |")))))
  {
  }

  lemma FileRowBody(e: Entry, summary: string)
    requires e.kind.File?
    ensures RenderRow(e, summary)[3..] == e.name + ("](" + (e.name + (") | " + (summary + " |"))))
  {
  }

  lemma DirectoryRowParses(name: string, summary: string)
    requires !Contains(name, "](") && !Contains(name, ") | ")
    ensures ParseRow(name + ("/](" + (name + ("/index.md" + (") | " + (summary + " |")))))) == Row(name, summary)
  {
    hide ParseDestination;
    var rest := ") | " + (summary + " |");
    var destination := name + ("/index.md" + rest);
    var tail := "/](" + destination;
    FirstBracket(name, true, destination);
    assert (name + tail)[|name| + 3..] == destination;
    var target := name + "/index.md";
    assert target + rest == destination;
    assert target[|name|..] == "/index.md" && target[..|name|] == name;
    DirectoryTargetHasNoClose(name);
    DestinationParses(target, name, summary);
  }

  lemma FileRowParses(e: Entry, summary: string)
    requires ReadsBack(e) && e.kind.File?
    ensures ParseRow(e.name + ("](" + (e.name + (") | " + (summary + " |"))))) == Row(e.name, summary)
  {
    hide ParseDestination;
    var rest := ") | " + (summary + " |");
    var destination := e.name + rest;
    var tail := "](" + destination;
    FirstBracket(e.name, false, destination);
    assert (e.name + tail)[|e.name| + 2..] == destination;
    DestinationParses(e.name, e.name, summary);
  }

  // ---------- every row reads as some row ----------

  function Stripped(target: string): (name: string)
    ensures |name| == |target| || (|name| == |target| - 9 && target[|target| - 9] == '/')
  {
    var name := StripSuffix(target, "/index.md");
    if name.Some? then
      assert target[|target| - 9..][0] == '/';
      name.value
    else target
  }

  /** A destination that holds a close and ends like a row is cut at its first close. */
  lemma DestinationReads(d: string, own: nat)
    requires OccursAt(d, ") | ", own) && own + 6 <= |d| && d[|d| - 2..] == " |"
    ensures var k := Find(d, ") | ");
            && k.Some? && (k.value == own || k.value + 4 <= own)
            && ParseDestination(d).Row? && ParseDestination(d).name == Stripped(d[..k.value])
  {
    assert Contains(d, ") | ");
    var k := Find(d, ") | ").value;
    OccursChars(d, ") | ", own);
    OccursChars(d, ") | ", k);
    var rest := d[k + 4..];
    assert rest[|rest| - 2..] == d[|d| - 2..];
  }

  predicate IsCloseChar(c: char) {
    c == ')' || c == ' ' || c == '|'
  }

  /** `d` is the name from `at + 2` on, `sep` characters, the name again, and `ext` characters. */
  ghost predicate Shifted(d: string, name: string, at: nat, sep: nat, ext: nat) {
    var lead, n := |name| - at - 2, |name|;
    && lead >= 0 && lead + sep + n + ext <= |d|
    && (forall i :: 0 <= i < lead ==> d[i] == name[at + 2 + i])
    && (forall i :: lead <= i < lead + sep ==> !IsCloseChar(d[i]))
    && (forall i :: 0 <= i < n ==> d[lead + sep + i] == name[i])
    && (forall i :: lead + sep + n <= i < lead + sep + n + ext ==> !IsCloseChar(d[i]))
  }

  /** Where the first close of a shifted destination stands, if it is not the row's own. */
  lemma ShiftedClose(d: string, name: string, at: nat, sep: nat, ext: nat, k: nat)
    requires OccursAt(name, "](", at) && Shifted(d, name, at, sep, ext) && 2 <= sep <= 3
    requires Find(d, ") | ") == Some(k) && k + 4 <= |name| - at - 2 + sep + |name| + ext
    ensures k < |name|
  {
    var lead, n := |name| - at - 2, |name|;
    var off := lead + sep;
    OccursChars(name, "](", at);
    OccursChars(d, ") | ", k);
    if k >= off {
      var j := k - off;
      assert j + 4 <= n by { CloseStaysInName(d, off + n, off + n + ext, k); }
      assert name[j] == d[k] && name[j + 1] == d[k + 1] && name[j + 2] == d[k + 2] && name[j + 3] == d[k + 3];
      if j >= at + 2 {
        EarlierCopy(d, name, at, sep, ext, k);
      }
    } else {
      CloseStaysInName(d, lead, off, k);
    }
  }

  /** A close in the part of the name that both copies show stands in the first copy too. */
  lemma EarlierCopy(d: string, name: string, at: nat, sep: nat, ext: nat, k: nat)
    requires at + 2 <= |name| && Shifted(d, name, at, sep, ext) && OccursAt(d, ") | ", k)
    requires |name| + sep <= k && k + 4 <= |name| - at - 2 + sep + |name|
    ensures OccursAt(d, ") | ", k - |name| - sep)
  {
    var j, i := k - (|name| - at - 2 + sep), k - |name| - sep;
    OccursChars(d, ") | ", k);
    assert name[j] == d[k] && name[j + 1] == d[k + 1] && name[j + 2] == d[k + 2] && name[j + 3] == d[k + 3];
    assert d[i] == name[j] && d[i + 1] == name[j + 1] && d[i + 2] == name[j + 2] && d[i + 3] == name[j + 3];
    assert d[i..i + 4] == ") | ";
  }

  /** A close does not touch a stretch without its characters. */
  lemma CloseStaysInName(d: string, from: nat, to: nat, k: nat)
    requires k + 4 <= |d| && from <= to <= |d| && k < to
    requires IsCloseChar(d[k]) && IsCloseChar(d[k + 1]) && IsCloseChar(d[k + 2]) && IsCloseChar(d[k + 3])
    requires forall i :: from <= i < to ==> !IsCloseChar(d[i])
    requires k + 4 <= to || from < to
    ensures k + 4 <= from
  {
  }

  lemma ShiftedIs(name: string, at: nat, sep: string, ext: string, rest: string)
    requires OccursAt(name, "](", at) && (sep == "](" || sep == "/](") && (ext == "" || ext == "/index.md")
    ensures Shifted(name[at + 2..] + sep + name + ext + rest, name, at, |sep|, |ext|)
  {
    var d := name[at + 2..] + sep + name + ext + rest;
    var lead, n := |name| - at - 2, |name|;
    NoCloseChars(sep);
    NoCloseChars(ext);
    var tail := name[at + 2..];
    Associate(tail + sep, name, ext + rest);
    assert tail + sep + name + (ext + rest) == d;
    Associate(tail, sep, name + (ext + rest));
    Middle(tail, sep, name + (ext + rest));
    Middle(tail + sep, name, ext + rest);
    Middle(tail + sep + name, ext, rest);
    forall i | 0 <= i < lead ensures d[i] == name[at + 2 + i] {
      assert d[i] == tail[i];
    }
  }

  /** The middle of three texts, character by character. */
  lemma Middle(a: string, b: string, c: string)
    ensures forall i :: |a| <= i < |a| + |b| ==> (a + b + c)[i] == b[i - |a|]
  {
  }

  lemma NoCloseChars(s: string)
    requires s == "](" || s == "/](" || s == "" || s == "/index.md"
    ensures forall i :: 0 <= i < |s| ==> !IsCloseChar(s[i])
  {
  }

  /** Cut at a `](` of its own, a name never reads back. */
  lemma BracketMisreads(name: string, at: nat, directory: bool, summary: string)
    requires OccursAt(name, "](", at)
    ensures var sep, ext := if directory then "/](" else "](", if directory then "/index.md" else "";
            var d := name[at + 2..] + sep + name + ext + (") | " + (summary + " |"));
            ParseDestination(d).Row? && ParseDestination(d).name != name
  {
    hide ParseDestination;
    var sep, ext, n := if directory then "/](" else "](", if directory then "/index.md" else "", |name|;
    var rest := ") | " + (summary + " |");
    var lead := name[at + 2..] + sep + name + ext;
    var d := lead + rest;
    EndsLikeRow(lead, summary);
    DestinationReads(d, |lead|);
    var k := Find(d, ") | ").value;
    if k == |lead| {
      assert d[..k] == lead;
      OccursChars(name, "](", at);
      if !directory && n >= 9 {
        assert lead[|lead| - 9] == name[n - 9];
      }
    } else {
      ShiftedIs(name, at, sep, ext, rest);
      ShiftedClose(d, name, at, |sep|, |ext|, k);
    }
  }

  lemma EndsLikeRow(lead: string, summary: string)
    ensures var d := lead + (") | " + (summary + " |"));
            OccursAt(d, ") | ", |lead|) && |lead| + 6 <= |d| && d[|d| - 2..] == " |"
  {
    var d := lead + (") | " + (summary + " |"));
    assert d[|lead|..|lead| + 4] == ") | ";
  }

  /** Without a `](` of its own, a name that holds a close is read up to its first close. */
  lemma CloseReads(name: string, ext: string, summary: string, j: nat)
    requires Find(name, ") | ") == Some(j)
    ensures var d := name + ext + (") | " + (summary + " |"));
            j <= |name| && ParseDestination(d).Row? && ParseDestination(d).name == Stripped(name[..j])
  {
    hide ParseDestination, Contains;
    var d := name + ext + (") | " + (summary + " |"));
    EndsLikeRow(name + ext, summary);
    DestinationReads(d, |name + ext|);
    assert d[..|name|] == name;
    FindInPrefix(name, d, j);
    assert d[..j] == name[..j];
  }

  lemma FindInPrefix(name: string, d: string, j: nat)
    requires name <= d && Find(name, ") | ") == Some(j)
    ensures Find(d, ") | ") == Some(j)
  {
    hide Contains;
    assert d[j..j + 4] == name[j..j + 4];
    forall i | 0 <= i < j ensures !OccursAt(d, ") | ", i) {
      if OccursAt(d, ") | ", i) { OccursInPrefix(d, name, ") | ", i); }
    }
    FindIs(d, ") | ", j);
  }

  /** A file called like an index is read without that ending. */
  lemma IndexReads(name: string, summary: string)
    requires !Contains(name, ") | ")
    ensures var d := name + (") | " + (summary + " |"));
            ParseDestination(d).Row? && ParseDestination(d).name == Stripped(name)
  {
    hide ParseDestination, Contains, Stripped;
    var rest := ") | " + (summary + " |");
    var d := name + rest;
    EndsLikeRow(name, summary);
    DestinationReads(d, |name|);
    assert rest[0..4] == ") | ";
    FirstClose(name, rest);
    assert d[..|name|] == name;
  }

  /** Without a `](` of its own: a close in the name, or a file called like an index, is read as another name. */
  lemma CloseMisreads(name: string, directory: bool, summary: string)
    requires Contains(name, ") | ") || (!directory && StripSuffix(name, "/index.md").Some?)
    ensures var ext := if directory then "/index.md" else "";
            var d := name + ext + (") | " + (summary + " |"));
            ParseDestination(d).Row? && ParseDestination(d).name != name
  {
    hide ParseDestination, Contains;
    if Contains(name, ") | ") {
      CloseReads(name, if directory then "/index.md" else "", summary, Find(name, ") | ").value);
    } else {
      assert name + "" == name;
      IndexReads(name, summary);
    }
  }

  /** A row whose name holds a `](` is cut there. */
  lemma RowIsCutInName(e: Entry, summary: string) returns (at: nat)
    requires Contains(e.name, "](")
    ensures OccursAt(e.name, "](", at)
    ensures var directory := e.kind.Directory?;
            var sep, ext := if directory then "/](" else "](", if directory then "/index.md" else "";
            ParseLine(RenderRow(e, summary))
            == ParseDestination(e.name[at + 2..] + sep + e.name + ext + (") | " + (summary + " |")))
  {
    hide ParseDestination, ParseLine, RenderRow, ParseRow;
    var directory := e.kind.Directory?;
    var sep, ext := if directory then "/](" else "](", if directory then "/index.md" else "";
    var rest := ") | " + (summary + " |");
    RowPassesTests(e, summary);
    RowBody(e, summary);
    var k :| 0 <= k <= |e.name| && OccursAt(e.name, "](", k);
    at := CutInName(e.name, sep, e.name + ext + rest, k);
    Regroup(e.name[at + 2..] + sep, e.name, ext, rest);
  }

  lemma Regroup(a: string, b: string, c: string, d: string)
    ensures a + (b + c + d) == a + b + c + d
  {
  }

  /** Any other row is cut at its own `](`. */
  lemma RowIsCutAfterName(e: Entry, summary: string)
    requires !Contains(e.name, "](")
    ensures var ext := if e.kind.Directory? then "/index.md" else "";
            ParseLine(RenderRow(e, summary)) == ParseDestination(e.name + ext + (") | " + (summary + " |")))
  {
    hide ParseDestination, ParseLine, RenderRow, ParseRow, Contains;
    var ext := if e.kind.Directory? then "/index.md" else "";
    RowPassesTests(e, summary);
    RowBody(e, summary);
    CutAfterName(e.name, e.kind.Directory?, e.name + ext + (") | " + (summary + " |")));
  }

  lemma CutInName(name: string, sep: string, destination: string, k: nat) returns (at: nat)
    requires OccursAt(name, "](", k)
    ensures at + 2 <= |name| && OccursAt(name, "](", at)
    ensures ParseRow(name + (sep + destination)) == ParseDestination(name[at + 2..] + sep + destination)
  {
    hide ParseDestination;
    at := FirstInName(name, sep + destination, k);
    assert (name + (sep + destination))[at + 2..] == name[at + 2..] + sep + destination;
  }

  lemma CutAfterName(name: string, directory: bool, destination: string)
    requires !Contains(name, "](")
    ensures ParseRow(name + ((if directory then "/](" else "](") + destination)) == ParseDestination(destination)
  {
    hide ParseDestination;
    var row := name + ((if directory then "/](" else "](") + destination);
    FirstBracket(name, directory, destination);
    assert row[|name| + (if directory then 3 else 2)..] == destination;
  }

  lemma RowBody(e: Entry, summary: string)
    ensures var directory := e.kind.Directory?;
            var sep, ext := if directory then "/](" else "](", if directory then "/index.md" else "";
            RenderRow(e, summary)[3..] == e.name + (sep + (e.name + ext + (") | " + (summary + " |"))))
  {
    var rest := ") | " + (summary + " |");
    if e.kind.Directory? {
      DirectoryRowBody(e, summary);
      assert e.name + "/index.md" + rest == e.name + ("/index.md" + rest);
    } else {
      FileRowBody(e, summary);
      assert e.name + "" + rest == e.name + rest;
    }
  }

  lemma FirstInName(name: string, tail: string, k: nat) returns (at: nat)
    requires OccursAt(name, "](", k)
    ensures at + 2 <= |name| && OccursAt(name, "](", at) && Find(name + tail, "](") == Some(at)
  {
    var s := name + tail;
    assert s[k..k + 2] == name[k..k + 2];
    assert OccursAt(s, "](", k) && Contains(s, "](");
    at := Find(s, "](").value;
    assert name[at..at + 2] == s[at..at + 2];
  }

  /**
   * The exact condition: a row always reads as some row, and as the row of its own name, for any summary,
   * if and only if the name holds neither separator and, for a file, does not end like an index.
   */
  lemma RowReadsIff(e: Entry, summary: string)
    ensures var line := ParseLine(RenderRow(e, summary));
            line.Row? && (line.name == e.name <==> ReadsBack(e)) && (ReadsBack(e) ==> line.summary == summary)
  {
    hide ParseLine, RenderRow, ParseDestination;
    var directory := e.kind.Directory?;
    if ReadsBack(e) {
      RowRoundTrip(e, summary);
    } else if Contains(e.name, "](") {
      var at := RowIsCutInName(e, summary);
      BracketMisreads(e.name, at, directory, summary);
    } else {
      RowIsCutAfterName(e, summary);
      CloseMisreads(e.name, directory, summary);
    }
  }

  /** A file called `a) | b` is read as `a`. */
  lemma CloseInNameExample(summary: string)
    ensures var line := ParseLine(RenderRow(Entry("a) | b", File, ""), summary)); line.Row? && line.name == "a"
  {
    hide ParseLine, RenderRow, ParseDestination, Contains, Find;
    var e := Entry("a) | b", File, "");
    NoBracketIn(e.name);
    RowIsCutAfterName(e, summary);
    assert e.name[1..5] == ") | " && e.name[0] == 'a';
    FindIs(e.name, ") | ", 1);
    CloseReads(e.name, "", summary, 1);
    assert e.name[..1] == "a";
  }

  lemma NoBracketIn(name: string)
    requires ']' !in name
    ensures !Contains(name, "](")
  {
    forall i | 0 <= i <= |name| ensures !OccursAt(name, "](", i) {
      if OccursAt(name, "](", i) { OccursChars(name, "](", i); }
    }
  }

  lemma RowIsOneLine(e: Entry, summary: string)
    requires OneLineName(e.name) && '\n' !in summary
    ensures var row := RenderRow(e, summary); '\n' !in row && row[|row| - 1] != '\r'
  {
    RowIsTrimmed(e, summary);
  }

  // ---------- the block between the markers ----------

  datatype Parsed = Ok(summaries: map<string, string>) | InvalidRow(line: nat)

  /** Collects rows in order; a later row for the same name wins. */
  function ParseRows(lines: seq<string>, index: nat, firstLine: nat, acc: map<string, string>): Parsed
    requires index <= |lines|
    decreases |lines| - index
  {
    if index == |lines| then Parsed.Ok(acc)
    else match ParseLine(lines[index])
      case Blank => ParseRows(lines, index + 1, firstLine, acc)
      case Malformed => InvalidRow(firstLine + index)
      case Row(name, summary) => ParseRows(lines, index + 1, firstLine, acc[name := summary])
  }

  function ExistingSummaries(block: string, firstLine: nat): Parsed {
    ParseRows(Lines(block), 0, firstLine, map[])
  }

  method CollectSummaries(block: string, firstLine: nat) returns (r: Parsed)
    ensures r == ExistingSummaries(block, firstLine)
  {
    hide ParseLine, Lines;
    var lines := Lines(block);
    var summaries: map<string, string> := map[];
    for index := 0 to |lines|
      invariant ParseRows(lines, index, firstLine, summaries) == ExistingSummaries(block, firstLine)
    {
      match ParseLine(lines[index]) {
        case Blank =>
        case Malformed => return InvalidRow(firstLine + index);
        case Row(name, summary) => summaries := summaries[name := summary];
      }
    }
    r := Parsed.Ok(summaries);
  }

  function RowLines(entries: seq<Entry>, existing: map<string, string>): (r: seq<string>)
    ensures |r| == |entries|
    ensures forall i :: 0 <= i < |r| ==> r[i] == RenderRow(entries[i], SummaryFor(entries[i], existing))
  {
    seq(|entries|, i requires 0 <= i < |entries| => RenderRow(entries[i], SummaryFor(entries[i], existing)))
  }

  /** Lines, each ended by a newline. */
  function Ended(lines: seq<string>): string {
    if lines == [] then "" else lines[0] + "\n" + Ended(lines[1..])
  }

  /** Everything between the markers. */
  function Inner(entries: seq<Entry>, existing: map<string, string>): string {
    Ended(BlockLines(entries, existing))
  }

  lemma {:induction false} EndedSnoc(lines: seq<string>, last: string)
    ensures Ended(lines + [last]) == Ended(lines) + last + "\n"
    decreases |lines|
  {
    if lines == [] {
      assert [last][1..] == [];
    } else {
      assert (lines + [last])[1..] == lines[1..] + [last];
      EndedSnoc(lines[1..], last);
    }
  }

  /** Lines that `str::lines` returns unchanged. */
  ghost predicate PlainLines(lines: seq<string>) {
    forall i :: 0 <= i < |lines| ==> '\n' !in lines[i] && (lines[i] == [] || lines[i][|lines[i]| - 1] != '\r')
  }

  lemma {:induction false} LinesOfEnded(lines: seq<string>)
    requires PlainLines(lines)
    ensures Lines(Ended(lines)) == lines
    decreases |lines|
  {
    if lines != [] {
      LinesOfEnded(lines[1..]);
      LinesCons(lines[0], Ended(lines[1..]));
    }
  }

  function SummaryMap(entries: seq<Entry>, existing: map<string, string>): (m: map<string, string>)
    ensures forall i :: 0 <= i < |entries| ==> entries[i].name in m
    ensures forall name :: name in m ==> exists i :: 0 <= i < |entries| && entries[i].name == name
  {
    if entries == [] then map[]
    else
      var last := entries[|entries| - 1];
      SummaryMap(entries[..|entries| - 1], existing)[last.name := SummaryFor(last, existing)]
  }

  predicate DistinctNames(entries: seq<Entry>) {
    forall i, j :: 0 <= i < j < |entries| ==> entries[i].name != entries[j].name
  }

  lemma {:induction false} SummaryMapAt(entries: seq<Entry>, existing: map<string, string>, i: nat)
    requires DistinctNames(entries) && i < |entries|
    ensures SummaryMap(entries, existing)[entries[i].name] == SummaryFor(entries[i], existing)
    decreases |entries|
  {
    if i < |entries| - 1 {
      SummaryMapAt(entries[..|entries| - 1], existing, i);
    }
  }

  predicate OneLineEntries(entries: seq<Entry>) {
    forall i :: 0 <= i < |entries| ==> OneLineName(entries[i].name)
  }

  /** Every recorded summary is on one line. */
  ghost predicate OneLineSummaries(existing: map<string, string>) {
    forall name :: name in existing ==> '\n' !in existing[name]
  }

  lemma SummaryForOneLine(e: Entry, existing: map<string, string>)
    requires OneLineSummaries(existing)
    ensures '\n' !in SummaryFor(e, existing)
  {
    SingleLineIsOneLine(e.suggested);
  }

  /** The lines of a block. */
  function BlockLines(entries: seq<Entry>, existing: map<string, string>): seq<string> {
    ["", HeadRow(), RuleRow()] + RowLines(entries, existing)
  }

  lemma BlockLineIs(entries: seq<Entry>, existing: map<string, string>, i: nat)
    requires i < |entries|
    ensures |BlockLines(entries, existing)| == |entries| + 3
    ensures BlockLines(entries, existing)[i + 3] == RenderRow(entries[i], SummaryFor(entries[i], existing))
  {
    hide RenderRow, SummaryFor, HeadRow, RuleRow;
  }

  lemma BlockIsPlain(entries: seq<Entry>, existing: map<string, string>)
    requires OneLineEntries(entries) && OneLineSummaries(existing)
    ensures PlainLines(BlockLines(entries, existing))
  {
    hide RenderRow, SummaryFor, OneLineName;
    var lines := BlockLines(entries, existing);
    forall i | 0 <= i < |lines| ensures '\n' !in lines[i] && (lines[i] == [] || lines[i][|lines[i]| - 1] != '\r') {
      if i >= 3 {
        var e := entries[i - 3];
        SummaryForOneLine(e, existing);
        RowIsOneLine(e, SummaryFor(e, existing));
        RowIsTrimmed(e, SummaryFor(e, existing));
        BlockLineIs(entries, existing, i - 3);
      } else {
        assert lines[0] == "" && lines[1] == HeadRow() && lines[2] == RuleRow();
      }
    }
  }

  /** What the rows of these entries read as, the last row for a name winning. */
  function ReadMap(entries: seq<Entry>, existing: map<string, string>): map<string, string> {
    if entries == [] then map[]
    else
      var last := entries[|entries| - 1];
      var before := ReadMap(entries[..|entries| - 1], existing);
      match ParseLine(RenderRow(last, SummaryFor(last, existing)))
      case Row(name, summary) => before[name := summary]
      case _ => before
  }

  lemma ReadMapSnoc(entries: seq<Entry>, existing: map<string, string>, count: nat)
    requires count < |entries|
    ensures var e := entries[count];
            var line := ParseLine(RenderRow(e, SummaryFor(e, existing)));
            line.Row?
              && ReadMap(entries[..count + 1], existing)
                 == ReadMap(entries[..count], existing)[line.name := line.summary]
  {
    hide ParseLine, RenderRow, SummaryFor, ReadsBack;
    RowReadsIff(entries[count], SummaryFor(entries[count], existing));
    assert entries[..count + 1][..count] == entries[..count];
  }

  lemma {:induction false} RowsParse(entries: seq<Entry>, existing: map<string, string>, count: nat, firstLine: nat)
    requires count <= |entries|
    ensures |BlockLines(entries, existing)| == |entries| + 3
    ensures ParseRows(BlockLines(entries, existing), 3 + count, firstLine, ReadMap(entries[..count], existing))
            == Parsed.Ok(ReadMap(entries, existing))
    decreases |entries| - count
  {
    hide ParseLine, RenderRow, SummaryFor, ReadMap, BlockLines;
    BlockLength(entries, existing);
    if count == |entries| {
      assert entries[..count] == entries;
    } else {
      ReadMapSnoc(entries, existing, count);
      BlockLineIs(entries, existing, count);
      RowsParse(entries, existing, count + 1, firstLine);
    }
  }

  lemma BlockLength(entries: seq<Entry>, existing: map<string, string>)
    ensures |BlockLines(entries, existing)| == |entries| + 3
  {
  }

  lemma HeadLinesAreBlank()
    ensures ParseLine("") == Blank && ParseLine(HeadRow()) == Blank && ParseLine(RuleRow()) == Blank
  {
    TrimOfTrimmed("");
    TrimOfTrimmed(HeadRow());
    TrimOfTrimmed(RuleRow());
  }

  /** Blank lines are passed over. */
  lemma BlankUnfolds(lines: seq<string>, index: nat, firstLine: nat, acc: map<string, string>)
    requires index < |lines| && ParseLine(lines[index]) == Blank
    ensures ParseRows(lines, index, firstLine, acc) == ParseRows(lines, index + 1, firstLine, acc)
  {
    hide ParseLine;
  }

  lemma HeadLines(entries: seq<Entry>, existing: map<string, string>)
    ensures var lines := BlockLines(entries, existing);
            |lines| == |entries| + 3 && lines[0] == "" && lines[1] == HeadRow() && lines[2] == RuleRow()
  {
    hide HeadRow, RuleRow;
  }

  /** Parsing a printed block gives what its rows read as, and nothing else. */
  lemma BlockReads(entries: seq<Entry>, existing: map<string, string>, firstLine: nat)
    requires OneLineEntries(entries) && OneLineSummaries(existing)
    ensures ExistingSummaries(Inner(entries, existing), firstLine) == Parsed.Ok(ReadMap(entries, existing))
  {
    hide *;
    var lines := BlockLines(entries, existing);
    BlockIsPlain(entries, existing);
    LinesOfEnded(lines);
    HeadLinesAreBlank();
    HeadLines(entries, existing);
    BlankUnfolds(lines, 0, firstLine, map[]);
    BlankUnfolds(lines, 1, firstLine, map[]);
    BlankUnfolds(lines, 2, firstLine, map[]);
    RowsParse(entries, existing, 0, firstLine);
    SummariesUnfold(entries, existing, firstLine);
  }

  lemma SummariesUnfold(entries: seq<Entry>, existing: map<string, string>, firstLine: nat)
    ensures ExistingSummaries(Inner(entries, existing), firstLine)
            == ParseRows(Lines(Ended(BlockLines(entries, existing))), 0, firstLine, map[])
    ensures entries[..0] == [] && ReadMap([], existing) == map[]
  {
    hide ParseRows, Lines, Ended, BlockLines;
  }

  lemma {:induction false} ReadMapIsSummaryMap(entries: seq<Entry>, existing: map<string, string>)
    requires forall e :: e in entries ==> ReadsBack(e)
    ensures ReadMap(entries, existing) == SummaryMap(entries, existing)
    decreases |entries|
  {
    hide ParseLine, RenderRow, SummaryFor, ReadsBack;
    if entries != [] {
      var last := entries[|entries| - 1];
      ReadMapIsSummaryMap(entries[..|entries| - 1], existing);
      RowRoundTrip(last, SummaryFor(last, existing));
    }
  }

  /** Parsing a printed block recovers the summary of every entry, and nothing else, when all names read back. */
  lemma BlockRoundTrip(entries: seq<Entry>, existing: map<string, string>, firstLine: nat)
    requires OneLineEntries(entries) && OneLineSummaries(existing) && forall e :: e in entries ==> ReadsBack(e)
    ensures ExistingSummaries(Inner(entries, existing), firstLine) == Parsed.Ok(SummaryMap(entries, existing))
  {
    hide Inner, ExistingSummaries, ReadsBack, OneLineName;
    BlockReads(entries, existing, firstLine);
    ReadMapIsSummaryMap(entries, existing);
  }

  // ---------- printing again ----------

  /** Read back, the rows give every entry the summary it was printed with. */
  ghost predicate RowsReadAlike(entries: seq<Entry>, existing: map<string, string>) {
    forall e :: e in entries ==> SummaryFor(e, ReadMap(entries, existing)) == SummaryFor(e, existing)
  }

  /** Printing again with the summaries read back gives the same text exactly when the rows read alike. */
  lemma InnerStableIff(entries: seq<Entry>, existing: map<string, string>)
    requires OneLineEntries(entries) && OneLineSummaries(existing) && OneLineSummaries(ReadMap(entries, existing))
    ensures Inner(entries, ReadMap(entries, existing)) == Inner(entries, existing) <==> RowsReadAlike(entries, existing)
  {
    hide ReadMap, OneLineName, RenderRow, SummaryFor, BlockLines, Lines;
    var again := ReadMap(entries, existing);
    if RowsReadAlike(entries, existing) {
      assert RowLines(entries, again) == RowLines(entries, existing);
      SameRows(entries, again, existing);
    } else if Inner(entries, again) == Inner(entries, existing) {
      BlockIsPlain(entries, existing);
      BlockIsPlain(entries, again);
      LinesOfEnded(BlockLines(entries, existing));
      LinesOfEnded(BlockLines(entries, again));
      forall e | e in entries ensures SummaryFor(e, again) == SummaryFor(e, existing) {
        var i :| 0 <= i < |entries| && entries[i] == e;
        BlockLineIs(entries, existing, i);
        BlockLineIs(entries, again, i);
        RowIsInjective(e, SummaryFor(e, again), SummaryFor(e, existing));
      }
    }
  }

  lemma SameRows(entries: seq<Entry>, a: map<string, string>, b: map<string, string>)
    requires RowLines(entries, a) == RowLines(entries, b)
    ensures Inner(entries, a) == Inner(entries, b)
  {
    hide RowLines;
  }

  lemma RowIsInjective(e: Entry, a: string, b: string)
    requires RenderRow(e, a) == RenderRow(e, b)
    ensures a == b
  {
    var row := RenderRow(e, a);
    var n := if e.kind.Directory? then 2 * |e.name| + 19 else 2 * |e.name| + 9;
    assert row[n..|row| - 2] == a && RenderRow(e, b)[n..|row| - 2] == b;
  }

  /** Printing again with the recovered summaries changes nothing. */
  lemma InnerStable(entries: seq<Entry>, existing: map<string, string>)
    requires DistinctNames(entries)
    ensures Inner(entries, SummaryMap(entries, existing)) == Inner(entries, existing)
  {
    var again := SummaryMap(entries, existing);
    forall i | 0 <= i < |entries| ensures SummaryFor(entries[i], again) == SummaryFor(entries[i], existing) {
      SummaryMapAt(entries, existing, i);
    }
    assert RowLines(entries, again) == RowLines(entries, existing);
  }
}
