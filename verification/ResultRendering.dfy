/** The CSV and table renderings of a query result, and decoders that recover every cell. */
module ResultRendering {
  import opened Text

  type Record = seq<string>

  /** `str::replace` of one character by a string. */
  function Replace(s: string, c: char, replacement: string): string {
    if s == [] then [] else (if s[0] == c then replacement else [s[0]]) + Replace(s[1..], c, replacement)
  }

  // ---------- CSV ----------

  predicate NeedsQuotes(field: string) {
    '"' in field || ',' in field || '\n' in field
  }

  function CsvField(field: string): string {
    if NeedsQuotes(field) then "\"" + Replace(field, '"', "\"\"") + "\"" else field
  }

  function CsvRecord(cells: Record): string {
    if cells == [] then "" else if |cells| == 1 then CsvField(cells[0])
    else CsvField(cells[0]) + "," + CsvRecord(cells[1..])
  }

  function CsvRecords(records: seq<Record>): string {
    if records == [] then "" else CsvRecord(records[0]) + "\n" + CsvRecords(records[1..])
  }

  method RenderCsv(columns: Record, rows: seq<Record>) returns (out: string)
    ensures out == CsvRecords([columns] + rows)
  {
    out := CsvRecord(columns) + "\n";
    for i := 0 to |rows|
      invariant out + CsvRecords(rows[i..]) == CsvRecords([columns] + rows)
    {
      assert rows[i..][1..] == rows[i + 1..];
      ghost var rest := CsvRecords(rows[i + 1..]);
      assert out + (CsvRecord(rows[i]) + "\n" + rest) == out + CsvRecord(rows[i]) + "\n" + rest;
      out := out + CsvRecord(rows[i]);
      out := out + "\n";
    }
    assert out + CsvRecords(rows[|rows|..]) == out;
  }

  /** Position of the decoder inside a field: RFC 4180 section 2, with LF as the record end. */
  datatype CsvMode = FieldStart | Bare | InQuotes | AfterQuote

  function DecodeCsv(text: string, mode: CsvMode, cell: string, record: Record, table: seq<Record>)
      : Option<seq<Record>>
    decreases |text|
  {
    if text == [] then
      if mode.InQuotes? then None
      else if mode.FieldStart? && record == [] then Some(table)
      else Some(table + [record + [cell]])
    else
      var c, rest := text[0], text[1..];
      if mode.InQuotes? then
        if c == '"' then DecodeCsv(rest, AfterQuote, cell, record, table)
        else DecodeCsv(rest, InQuotes, cell + [c], record, table)
      else if c == ',' then DecodeCsv(rest, FieldStart, "", record + [cell], table)
      else if c == '\n' then DecodeCsv(rest, FieldStart, "", [], table + [record + [cell]])
      else match mode
        case FieldStart =>
          if c == '"' then DecodeCsv(rest, InQuotes, "", record, table)
          else DecodeCsv(rest, Bare, [c], record, table)
        case Bare => if c == '"' then None else DecodeCsv(rest, Bare, cell + [c], record, table)
        case AfterQuote => if c == '"' then DecodeCsv(rest, InQuotes, cell + ['"'], record, table) else None
  }

  /** What the decoder does at the separator that follows a finished field. */
  function AfterField(separator: char, rest: string, field: string, record: Record, table: seq<Record>)
      : Option<seq<Record>>
  {
    if separator == ',' then DecodeCsv(rest, FieldStart, "", record + [field], table)
    else DecodeCsv(rest, FieldStart, "", [], table + [record + [field]])
  }

  predicate IsSeparator(c: char) {
    c == ',' || c == '\n'
  }

  /** Inside quotes a quote may end the field; everything else is text. */
  lemma InQuotesStep(c: char, rest: string, cell: string, record: Record, table: seq<Record>)
    ensures DecodeCsv([c] + rest, InQuotes, cell, record, table)
            == if c == '"' then DecodeCsv(rest, AfterQuote, cell, record, table)
               else DecodeCsv(rest, InQuotes, cell + [c], record, table)
  {
    assert ([c] + rest)[1..] == rest;
  }

  /** A second quote is text again. */
  lemma AfterQuoteStep(rest: string, cell: string, record: Record, table: seq<Record>)
    ensures DecodeCsv(['"'] + rest, AfterQuote, cell, record, table)
            == DecodeCsv(rest, InQuotes, cell + ['"'], record, table)
  {
    assert (['"'] + rest)[1..] == rest;
  }

  /** A quote before a separator ends the field. */
  lemma QuoteCloses(separator: char, rest: string, cell: string, record: Record, table: seq<Record>)
    requires IsSeparator(separator)
    ensures DecodeCsv(['"'] + ([separator] + rest), InQuotes, cell, record, table)
            == AfterField(separator, rest, cell, record, table)
  {
    InQuotesStep('"', [separator] + rest, cell, record, table);
    assert ([separator] + rest)[1..] == rest;
  }

  /** The text between quotes, with everything after it, from one character on. */
  lemma QuotedStarts(field: string, after: string)
    ensures var text := Replace(field, '"', "\"\"") + after;
            if field == [] then text == after
            else
              var tail := Replace(field[1..], '"', "\"\"") + after;
              text == if field[0] == '"' then ['"'] + (['"'] + tail) else [field[0]] + tail
  {
    if field != [] {
      var body := Replace(field[1..], '"', "\"\"");
      if field[0] == '"' {
        Associate("\"\"", body, after);
        Associate(['"'], ['"'], body + after);
      } else {
        Associate([field[0]], body, after);
      }
    }
  }

  lemma {:induction false} QuotedBodyDecodes(
      field: string, separator: char, rest: string, cell: string, record: Record, table: seq<Record>)
    requires IsSeparator(separator)
    ensures DecodeCsv(Replace(field, '"', "\"\"") + (['"'] + ([separator] + rest)), InQuotes, cell, record, table)
            == AfterField(separator, rest, cell + field, record, table)
    decreases |field|
  {
    hide DecodeCsv, AfterField, IsSeparator, Replace;
    var after := ['"'] + ([separator] + rest);
    QuotedStarts(field, after);
    if field == [] {
      assert cell + field == cell;
      QuoteCloses(separator, rest, cell, record, table);
    } else {
      var tail := Replace(field[1..], '"', "\"\"") + after;
      assert cell + [field[0]] + field[1..] == cell + field;
      QuotedBodyDecodes(field[1..], separator, rest, cell + [field[0]], record, table);
      if field[0] == '"' {
        InQuotesStep('"', ['"'] + tail, cell, record, table);
        AfterQuoteStep(tail, cell, record, table);
      } else {
        InQuotesStep(field[0], tail, cell, record, table);
      }
    }
  }

  lemma {:induction false} BareBodyDecodes(
      field: string, separator: char, rest: string, cell: string, record: Record, table: seq<Record>)
    requires IsSeparator(separator) && !NeedsQuotes(field)
    ensures DecodeCsv(field + [separator] + rest, Bare, cell, record, table)
            == AfterField(separator, rest, cell + field, record, table)
    decreases |field|
  {
    var text := field + [separator] + rest;
    if field == [] {
      assert text[1..] == rest;
      assert cell + field == cell;
    } else {
      assert text[1..] == field[1..] + [separator] + rest;
      assert cell + [field[0]] + field[1..] == cell + field;
      BareBodyDecodes(field[1..], separator, rest, cell + [field[0]], record, table);
    }
  }

  /** A rendered field followed by a separator decodes to the field. */
  lemma FieldDecodes(field: string, separator: char, rest: string, record: Record, table: seq<Record>)
    requires IsSeparator(separator)
    ensures DecodeCsv(CsvField(field) + [separator] + rest, FieldStart, "", record, table)
            == AfterField(separator, rest, field, record, table)
  {
    assert "" + field == field;
    if NeedsQuotes(field) {
      var body := Replace(field, '"', "\"\"") + (['"'] + ([separator] + rest));
      assert CsvField(field) + [separator] + rest == ['"'] + body;
      QuotedBodyDecodes(field, separator, rest, "", record, table);
    } else if field == [] {
      assert CsvField(field) + [separator] + rest == [separator] + rest;
    } else {
      var body := field[1..] + [separator] + rest;
      assert CsvField(field) + [separator] + rest == [field[0]] + body;
      BareBodyDecodes(field[1..], separator, rest, [field[0]], record, table);
      assert [field[0]] + field[1..] == field;
    }
  }

  /** A record without cells renders like a record holding one empty cell. */
  function Visible(record: Record): Record {
    if record == [] then [""] else record
  }

  lemma {:induction false} RecordDecodes(cells: Record, rest: string, record: Record, table: seq<Record>)
    ensures DecodeCsv(CsvRecord(cells) + "\n" + rest, FieldStart, "", record, table)
            == DecodeCsv(rest, FieldStart, "", [], table + [record + Visible(cells)])
    decreases |cells|
  {
    if |cells| <= 1 {
      var field := Visible(cells)[0];
      assert Visible(cells) == [field];
      FieldDecodes(field, '\n', rest, record, table);
    } else {
      var tail := CsvRecord(cells[1..]) + "\n" + rest;
      var head, more := CsvField(cells[0]), CsvRecord(cells[1..]);
      assert CsvRecord(cells) == head + "," + more;
      assert (head + "," + more) + "\n" + rest == head + [','] + (more + "\n" + rest);
      FieldDecodes(cells[0], ',', tail, record, table);
      RecordDecodes(cells[1..], rest, record + [cells[0]], table);
      assert record + [cells[0]] + cells[1..] == record + cells;
    }
  }

  function VisibleAll(records: seq<Record>): (r: seq<Record>)
    ensures |r| == |records| && forall i :: 0 <= i < |r| ==> r[i] == Visible(records[i])
  {
    seq(|records|, i requires 0 <= i < |records| => Visible(records[i]))
  }

  lemma {:induction false} CsvDecodes(records: seq<Record>, table: seq<Record>)
    ensures DecodeCsv(CsvRecords(records), FieldStart, "", [], table) == Some(table + VisibleAll(records))
    decreases |records|
  {
    hide CsvRecord, Visible, VisibleAll;
    if records == [] {
      assert table + VisibleAll(records) == table;
    } else {
      RecordDecodes(records[0], CsvRecords(records[1..]), [], table);
      var shown := Visible(records[0]);
      assert [] + shown == shown;
      CsvDecodes(records[1..], table + [shown]);
      assert table + [shown] + VisibleAll(records[1..]) == table + VisibleAll(records);
    }
  }

  /** Every cell of a CSV rendering is recovered, exactly when no record is without cells. */
  lemma CsvRoundTrip(records: seq<Record>)
    ensures DecodeCsv(CsvRecords(records), FieldStart, "", [], []) == Some(records) <==> [] !in records
  {
    CsvDecodes(records, []);
    var shown := VisibleAll(records);
    assert [] + shown == shown;
    if [] in records {
      var i :| 0 <= i < |records| && records[i] == [];
      assert shown[i] != records[i];
    } else {
      assert shown == records;
    }
  }

  /** Quotes appear only where a field needs them. */
  lemma BareFieldIff(field: string)
    ensures CsvField(field) == field <==> '"' !in field && ',' !in field && '\n' !in field
  {
    if NeedsQuotes(field) {
      NoShorter(field, '"', "\"\"");
    }
  }

  lemma {:induction false} NoShorter(s: string, c: char, replacement: string)
    requires replacement != []
    ensures |Replace(s, c, replacement)| >= |s|
    decreases |s|
  {
    if s != [] { NoShorter(s[1..], c, replacement); }
  }

  // ---------- Markdown table ----------

  function EscapeCell(text: string): string {
    Replace(Replace(Replace(text, '\\', "\\\\"), '|', "\\|"), '\n', " ")
  }

  function TableRow(cells: Record): string {
    "|" + TableCells(cells) + "\n"
  }

  /** Cells that are already escaped. */
  function TableCells(cells: Record): string {
    if cells == [] then "" else " " + cells[0] + " |" + TableCells(cells[1..])
  }

  function EscapeAll(cells: Record): (r: Record)
    ensures |r| == |cells|
  {
    seq(|cells|, i requires 0 <= i < |cells| => EscapeCell(cells[i]))
  }

  function Dashes(n: nat): (r: Record)
    ensures |r| == n && forall i :: 0 <= i < n ==> r[i] == "---"
  {
    if n == 0 then [] else ["---"] + Dashes(n - 1)
  }

  function TableRows(rows: seq<Record>): string {
    if rows == [] then "" else TableRow(EscapeAll(rows[0])) + TableRows(rows[1..])
  }

  function Table(columns: Record, rows: seq<Record>): string {
    TableRow(EscapeAll(columns)) + TableRow(Dashes(|columns|)) + TableRows(rows)
  }

  method WriteTableRow(out: string, cells: Record) returns (r: string)
    ensures r == out + TableRow(EscapeAll(cells))
  {
    r := out + "|";
    ghost var escaped := EscapeAll(cells);
    for i := 0 to |cells|
      invariant r + TableCells(escaped[i..]) == out + "|" + TableCells(escaped)
    {
      assert escaped[i..][1..] == escaped[i + 1..];
      r := r + " ";
      r := r + EscapeCell(cells[i]);
      r := r + " |";
    }
    assert escaped[|cells|..] == [] && r + "" == r;
    ghost var all := TableCells(escaped);
    assert r == out + "|" + all;
    assert out + "|" + all + "\n" == out + ("|" + all + "\n");
    r := r + "\n";
  }

  method WriteSeparatorRow(out: string, columns: nat) returns (r: string)
    ensures r == out + TableRow(Dashes(columns))
  {
    r := out + "|";
    ghost var dashes := Dashes(columns);
    for i := 0 to columns
      invariant r + TableCells(dashes[i..]) == out + "|" + TableCells(dashes)
    {
      assert dashes[i..][1..] == dashes[i + 1..];
      assert " " + "---" + " |" == " --- |";
      ghost var rest := TableCells(dashes[i + 1..]);
      assert TableCells(dashes[i..]) == " --- |" + rest;
      assert r + (" --- |" + rest) == r + " --- |" + rest;
      r := r + " --- |";
    }
    assert dashes[columns..] == [] && r + "" == r;
    ghost var all := TableCells(dashes);
    assert r == out + "|" + all;
    assert out + "|" + all + "\n" == out + ("|" + all + "\n");
    r := r + "\n";
  }

  method RenderTable(columns: Record, rows: seq<Record>) returns (out: string)
    ensures out == Table(columns, rows)
  {
    hide TableRow;
    out := WriteTableRow("", columns);
    out := WriteSeparatorRow(out, |columns|);
    ghost var head := out;
    assert Table(columns, rows) == head + TableRows(rows);
    for i := 0 to |rows|
      invariant out + TableRows(rows[i..]) == head + TableRows(rows)
    {
      assert rows[i..][1..] == rows[i + 1..];
      ghost var before, row, rest := out, TableRow(EscapeAll(rows[i])), TableRows(rows[i + 1..]);
      assert before + (row + rest) == before + row + rest;
      out := WriteTableRow(out, rows[i]);
    }
    assert rows[|rows|..] == [];
  }

  /** Escaping, character by character. */
  function Escaped(text: string): string {
    if text == [] then []
    else (if text[0] == '\\' then "\\\\" else if text[0] == '|' then "\\|" else if text[0] == '\n' then " "
          else [text[0]]) + Escaped(text[1..])
  }

  lemma {:induction false} ReplaceConcat(a: string, b: string, c: char, replacement: string)
    ensures Replace(a + b, c, replacement) == Replace(a, c, replacement) + Replace(b, c, replacement)
    decreases |a|
  {
    if a == [] {
      assert a + b == b;
    } else {
      assert (a + b)[1..] == a[1..] + b;
      ReplaceConcat(a[1..], b, c, replacement);
    }
  }

  lemma ReplacePair(x: char, y: char, c: char, replacement: string)
    requires x != c && y != c
    ensures Replace([x, y], c, replacement) == [x, y]
  {
    assert [x, y][1..] == [y];
    assert Replace([y], c, replacement) == [y] + Replace([], c, replacement);
  }

  /** The three successive replacements act on each character once. */
  lemma {:induction false} EscapeIsPerCharacter(text: string)
    ensures EscapeCell(text) == Escaped(text)
    decreases |text|
  {
    if text != [] {
      EscapeIsPerCharacter(text[1..]);
      var first := if text[0] == '\\' then "\\\\" else [text[0]];
      var second := if text[0] == '|' then "\\|" else first;
      var third := if text[0] == '\n' then " " else second;
      var rest1 := Replace(text[1..], '\\', "\\\\");
      var rest2 := Replace(rest1, '|', "\\|");
      ReplacePair('\\', '\\', '|', "\\|");
      ReplacePair('\\', '\\', '\n', " ");
      ReplacePair('\\', '|', '\n', " ");
      ReplaceConcat(first, rest1, '|', "\\|");
      assert Replace(first, '|', "\\|") == second;
      ReplaceConcat(second, rest2, '\n', " ");
      assert Replace(second, '\n', " ") == third;
    }
  }

  /** What a reader sees of a cell: newlines become spaces. */
  function Flat(text: string): string {
    Replace(text, '\n', " ")
  }

  /** Newlines show as spaces, every other character as itself. */
  lemma {:induction false} FlatIs(text: string)
    ensures |Flat(text)| == |text|
    ensures forall i :: 0 <= i < |text| ==> Flat(text)[i] == if text[i] == '\n' then ' ' else text[i]
    decreases |text|
  {
    if text != [] {
      FlatIs(text[1..]);
      assert Flat(text) == [if text[0] == '\n' then ' ' else text[0]] + Flat(text[1..]);
    }
  }

  /**
   * Reads table rows. Outside a cell it expects a space or the end of the line; inside, a backslash
   * takes the next character literally and a bare pipe ends the cell, whose last space is padding.
   */
  function DecodeTable(text: string, inCell: bool, cell: string, row: Record, table: seq<Record>): Option<seq<Record>>
    decreases |text|
  {
    if text == [] then if !inCell && row == [] then Some(table) else None
    else if inCell then
      if text[0] == '\\' then
        if |text| == 1 then None else DecodeTable(text[2..], true, cell + [text[1]], row, table)
      else if text[0] == '|' then
        if cell == [] || cell[|cell| - 1] != ' ' then None
        else DecodeAfterPipe(text[1..], row + [cell[..|cell| - 1]], table)
      else DecodeTable(text[1..], true, cell + [text[0]], row, table)
    else if text[0] == '|' then DecodeAfterPipe(text[1..], row, table)
    else None
  }

  function DecodeAfterPipe(text: string, row: Record, table: seq<Record>): Option<seq<Record>>
    decreases |text|
  {
    if text == [] then None
    else if text[0] == '\n' then DecodeTable(text[1..], false, "", [], table + [row])
    else if text[0] == ' ' then DecodeTable(text[1..], true, "", row, table)
    else None
  }

  /** Inside a cell any other character is text. */
  lemma InCellStep(c: char, rest: string, cell: string, row: Record, table: seq<Record>)
    requires c != '\\' && c != '|'
    ensures DecodeTable([c] + rest, true, cell, row, table) == DecodeTable(rest, true, cell + [c], row, table)
  {
    assert ([c] + rest)[1..] == rest;
  }

  /** An escaped character is text. */
  lemma EscapedStep(c: char, rest: string, cell: string, row: Record, table: seq<Record>)
    ensures DecodeTable(['\\', c] + rest, true, cell, row, table) == DecodeTable(rest, true, cell + [c], row, table)
  {
    assert (['\\', c] + rest)[2..] == rest;
  }

  /** A space and a pipe end the cell. */
  lemma CellEnds(rest: string, cell: string, row: Record, table: seq<Record>)
    ensures DecodeTable([' '] + (['|'] + rest), true, cell, row, table) == DecodeAfterPipe(rest, row + [cell], table)
  {
    InCellStep(' ', ['|'] + rest, cell, row, table);
    assert (['|'] + rest)[1..] == rest;
    assert (cell + [' '])[..|cell|] == cell;
  }

  lemma {:induction false} CellDecodes(text: string, rest: string, cell: string, row: Record, table: seq<Record>)
    ensures DecodeTable(Escaped(text) + " |" + rest, true, cell, row, table)
            == DecodeAfterPipe(rest, row + [cell + Flat(text)], table)
    decreases |text|
  {
    hide DecodeTable, DecodeAfterPipe;
    var whole := Escaped(text) + " |" + rest;
    if text == [] {
      assert whole == [' '] + (['|'] + rest);
      assert cell + Flat(text) == cell;
      CellEnds(rest, cell, row, table);
    } else {
      var tail := Escaped(text[1..]) + " |" + rest;
      var shown := if text[0] == '\n' then ' ' else text[0];
      assert Flat(text) == [shown] + Flat(text[1..]);
      assert cell + [shown] + Flat(text[1..]) == cell + Flat(text);
      CellDecodes(text[1..], rest, cell + [shown], row, table);
      if text[0] == '\\' || text[0] == '|' {
        assert whole == ['\\', text[0]] + tail;
        EscapedStep(text[0], tail, cell, row, table);
      } else {
        assert whole == [shown] + tail;
        InCellStep(shown, tail, cell, row, table);
      }
    }
  }

  function FlatAll(cells: Record): (r: Record)
    ensures |r| == |cells|
  {
    seq(|cells|, i requires 0 <= i < |cells| => Flat(cells[i]))
  }

  lemma {:induction false} CellsDecode(cells: Record, rest: string, row: Record, table: seq<Record>)
    ensures DecodeAfterPipe(TableCells(EscapeAll(cells)) + "\n" + rest, row, table)
            == DecodeTable(rest, false, "", [], table + [row + FlatAll(cells)])
    decreases |cells|
  {
    var whole := TableCells(EscapeAll(cells)) + "\n" + rest;
    if cells == [] {
      assert whole[1..] == rest;
      assert row + FlatAll(cells) == row;
    } else {
      assert EscapeAll(cells)[1..] == EscapeAll(cells[1..]);
      EscapeIsPerCharacter(cells[0]);
      var tail := TableCells(EscapeAll(cells[1..])) + "\n" + rest;
      assert whole == [' '] + (Escaped(cells[0]) + " |" + tail);
      assert whole[1..] == Escaped(cells[0]) + " |" + tail;
      CellDecodes(cells[0], tail, "", row, table);
      assert "" + Flat(cells[0]) == Flat(cells[0]);
      CellsDecode(cells[1..], rest, row + [Flat(cells[0])], table);
      assert row + [Flat(cells[0])] + FlatAll(cells[1..]) == row + FlatAll(cells);
    }
  }

  function FlatRows(rows: seq<Record>): (r: seq<Record>)
    ensures |r| == |rows| && forall i :: 0 <= i < |r| ==> r[i] == FlatAll(rows[i])
  {
    seq(|rows|, i requires 0 <= i < |rows| => FlatAll(rows[i]))
  }

  lemma RowDecodes(cells: Record, rest: string, table: seq<Record>)
    ensures DecodeTable(TableRow(EscapeAll(cells)) + rest, false, "", [], table)
            == DecodeTable(rest, false, "", [], table + [FlatAll(cells)])
  {
    var whole := TableRow(EscapeAll(cells)) + rest;
    assert whole[1..] == TableCells(EscapeAll(cells)) + "\n" + rest;
    CellsDecode(cells, rest, [], table);
    assert [] + FlatAll(cells) == FlatAll(cells);
  }

  lemma {:induction false} RowsDecode(rows: seq<Record>, table: seq<Record>)
    ensures DecodeTable(TableRows(rows), false, "", [], table)
            == Some(table + FlatRows(rows))
    decreases |rows|
  {
    if rows == [] {
      assert table + FlatRows(rows) == table;
    } else {
      RowDecodes(rows[0], TableRows(rows[1..]), table);
      RowsDecode(rows[1..], table + [FlatAll(rows[0])]);
      assert table + [FlatAll(rows[0])] + FlatRows(rows[1..])
             == table + FlatRows(rows);
    }
  }

  lemma DashesPlain(n: nat)
    ensures EscapeAll(Dashes(n)) == Dashes(n) && FlatAll(Dashes(n)) == Dashes(n)
  {
    ReplaceAbsent("---", '\\', "\\\\");
    ReplaceAbsent("---", '|', "\\|");
    ReplaceAbsent("---", '\n', " ");
    forall i | 0 <= i < n
      ensures EscapeAll(Dashes(n))[i] == Dashes(n)[i] && FlatAll(Dashes(n))[i] == Dashes(n)[i]
    {
    }
  }

  lemma {:induction false} ReplaceAbsent(s: string, c: char, replacement: string)
    requires c !in s
    ensures Replace(s, c, replacement) == s
    decreases |s|
  {
    if s != [] {
      ReplaceAbsent(s[1..], c, replacement);
      assert [s[0]] + s[1..] == s;
    }
  }

  lemma TableUnfolds(columns: Record, rows: seq<Record>)
    ensures Table(columns, rows) == TableRow(EscapeAll(columns)) + (TableRow(Dashes(|columns|)) + TableRows(rows))
  {
  }

  /** Every cell of a table rendering is recovered, up to newlines shown as spaces. */
  lemma TableRoundTrip(columns: Record, rows: seq<Record>)
    ensures DecodeTable(Table(columns, rows), false, "", [], [])
            == Some([FlatAll(columns), Dashes(|columns|)] + FlatRows(rows))
  {
    hide *;
    TableUnfolds(columns, rows);
    var dashes, rest := Dashes(|columns|), TableRows(rows);
    var head := TableRow(EscapeAll(columns));
    DashesPlain(|columns|);
    RowDecodes(columns, TableRow(dashes) + rest, []);
    assert [] + [FlatAll(columns)] == [FlatAll(columns)];
    RowDecodes(dashes, rest, [FlatAll(columns)]);
    assert [FlatAll(columns)] + [dashes] == [FlatAll(columns), dashes];
    RowsDecode(rows, [FlatAll(columns), dashes]);
  }
}
