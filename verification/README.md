# ContextOS vault server: verified model

A Dafny model of the parts of the ContextOS vault server whose correctness rests on an argument over
loops, recursion or whole runs, with proofs of what those parts are for. Each module follows one
component of the server:

- **Bases filters** (`FilterLeaf`, `FilterLeafForms`, `FilterLeafMeaning`, `FilterExpression`, `ScanHint`,
  `FilterUniformity`, `FilterTree`, `FilterMeaning`, `FilterPrinting`, `HintPrinting`, `FilterErrors`): the leaf forms, the recursive-descent evaluator over a cursor, the second parser that narrows the
  scan root, the JSON tree around both, and its validation. `Eval*` and `Hint*` are the two walkers as
  functions of text and position; `ExpressionCursor` is the mutable cursor whose methods compute them.
  The main results are that narrowing never skips a matching row, that the text of an expression tree
  evaluates to the tree's value under the documented precedence and narrows by the tree's hint, what the
  operators mean in terms of their operands, and that no error depends on a row.
- **Rendered results** (`ResultRendering`): the CSV and table printers with decoders.
- **Managed `index.md`** (`IndexBlock`, `IndexNames`, `IndexReconcile`, `IndexOrder`, `IndexWords`,
  `IndexMeaning`): exactly which rows the row parser
  reads back as the row printer wrote them, exactly when a second reconciliation changes nothing, the
  operator's prose and summaries, and independence of the order of the entries.
- **Git pending batch** (`GitPaths`, `GitCommit`, `GitPending`, `GitRecovery`, `GitDebounce`, `GitRestore`): HEAD,
  the index and the working tree are finite maps from paths to content, a path is a sequence of
  components, and libgit2's pathspecs are literal paths. `Overlay(base, top, paths)`, which takes `top`
  within the paths and `base` elsewhere, says what staging, committing and recovery are for.
  `CommittedTree` is what a commit writes: one round per pending path in path order, with the textual
  containment test. Crashes cut any call at any storage step; timers and calls interleave freely.
- **Canvas** (`CanvasSchema`, `CanvasOperations`, `CanvasIntegrity`, `CanvasConditions`,
  `CanvasMeaning`): diagnostics against a declarative
  schema, transactional operations, ids and endpoints kept by construction, group geometry in
  saturating 64-bit arithmetic.
- **Merge patch** (`MergePatch`): the in-place loop against MergePatch of section 2 of RFC 7386.
- **Schema inliner** (`RefInliner`, `RefResidue`, `RefMeaning`): the `$ref` pass terminates on every schema, equals the unfolding
  of the root when references are acyclic, and leaves no local reference under an exact condition on
  any schema.
- **Write locks** (`WriteLocks`): mutual exclusion, release, freedom from deadlock, termination.
- **Operation log** (`OperationLog`): order and conservation under arbitrary append failures.

Whatever may fail outside the model is an input: which storage steps go through (`GitPending.Storage`), which
paths the Git library refuses, which appends the log file accepts. The methods say exactly when they
fail for these inputs.

`Text` and `Json` hold the string and ordered-object operations the others share. Methods mirror the
imperative code and are proved equal to functions of the old state; the lemmas and the run theorems are
about those same functions, on every path, so what they say holds of the methods.

Eight promises do not hold of the code as it stands on every input, and the exact condition is proved:

- A commit decides by text whether an index entry lies within a pending path and turns backslashes into
  slashes first (crates/contextos-git/src/lib.rs:1057-1063). A file with a backslash in its name is
  staged, then dropped from the commit while its marker is cleared, and a pending `a\b` takes along
  what the operator staged at `a/b`. Conditions: `GitPaths.EntryIsWithinIff` for the test,
  `GitCommit.CommitExactIff` for a whole commit, `GitRecovery.MarkedIff` over all runs,
  `GitRecovery.RecordedAgreesIff` and `GitRecovery.OperatorStagingSurvivesIff` for recovery. Instances:
  `GitRecovery.BackslashFileIsForgotten`, `GitRecovery.BackslashFileExample`, `GitRecovery.OperatorStagingCaptured`.
- Recovery intersects recorded paths with changed files by exact path
  (crates/contextos-git/src/lib.rs:380), so an interrupted change to a directory can be forgotten:
  `GitRecovery.RecoveryAgreesIff` and, without backslashes, `GitRecovery.PlainRecoveryAgreesIff` say when HEAD
  and the working tree agree, and `GitRecovery.DirectoryDeletionIsForgotten` is an instance.
- A marker that names the root or something in `.git` is taken for a damaged one and stops every
  recovery (crates/contextos-git/src/lib.rs:818-820), and with it the start of the server
  (crates/contextos-mcp/src/server.rs:410). Staging writes such a marker itself, before the library
  refuses the path, and nothing clears it: `GitRecovery.GitFileBlocksRecovery` is a run after which a
  staged note is owed and no recovery can complete, `GitRecovery.StuckBlocksRecovery` says for how long.
  Conditions: `GitRecovery.CanCompleteIff` on the state, `GitRecovery.RecoveryCompletesIff` on what is staged.
- A restore can remove a protected file below an unprotected pending directory:
  `GitRestore.ProtectedFileKeptIff`, `GitRestore.ProtectedFileLost`.
- A row of an index names another entry when the name holds `](` or `) | `, which can change that
  entry's summary, and a name or title that holds a marker makes the next reconciliation refuse the
  document: `IndexBlock.RowReadsIff`, `IndexNames.NamesReadIff`, `IndexReconcile.IdempotentIff`, with the
  instances `IndexBlock.CloseInNameExample`, `IndexReconcile.ClashingNamesChangeDocument` and
  `IndexReconcile.MarkerTitleIsRefused`.
- An unreadable row is reported under its own line number only if the begin marker starts a line; otherwise
  the number is one too high (crates/contextos-index/src/lib.rs:627-630): `IndexMeaning.BadRowIs`.
- The leaf parser looks for `!=` before `==` and inside quotes too, so `p == 'a!=b'` is not read as an
  equality: `FilterLeafForms.QuotedEqualityIff`, `FilterLeafForms.QuotedInequalityMisreads`.
- The debounce check is exact only below the saturation point of the generation: `GitDebounce.TimerCommitsIff`,
  and `GitDebounce.CommitsEarlyIff` shows the runs in which a timer fires too early.

## Model

| member | source | states |
|---|---|---|
| `FilterTree.ScanRootSafe` | crates/contextos-obsidian/src/base_query.rs:316-329 | For every optional filter tree and row: if the filters evaluate to true, the row satisfies the scan-root hint, so scanning only below the hint misses nothing. |
| `ScanHint.ExpressionHintSafe` | crates/contextos-obsidian/src/base_query.rs:339-347 | The same for one filter string: a matching row lies in the folder, or is the path, that the second parser derived from the text. |
| `ScanHint.SimulateOr` | crates/contextos-obsidian/src/base_query.rs:349-359 | Lock step of the two parsers at `||`: whenever evaluation succeeds the hint parser stops at the same position, and a true value makes its hint hold of the row. |
| `ScanHint.SimulateAnd` | crates/contextos-obsidian/src/base_query.rs:361-372 | Lock step of the two parsers at `&&`, where the first operand with a hint decides. |
| `ScanHint.SimulateNot` | crates/contextos-obsidian/src/base_query.rs:374-386 | Lock step at `!`: the negated operand is consumed alike and its hint is dropped. |
| `ScanHint.SimulatePrimary` | crates/contextos-obsidian/src/base_query.rs:388-402 | Lock step at parentheses and leaves. |
| `FilterLeaf.LeafHintSound` | crates/contextos-obsidian/src/base_query.rs:422-439 | A leaf that evaluates to true has a hint that describes the row, for all leaf forms and every way the two leaf parsers cut the text. |
| `FilterLeaf.InFolderReflexive` | crates/contextos-obsidian/src/base_query.rs:710-713 | Every folder is in itself although trailing slashes are trimmed from one side only. |
| `FilterLeaf.ComparisonHintRulesOutContains` | crates/contextos-obsidian/src/base_query.rs:666-702 | A leaf that reads as an equality on the location but also as a containment never matches, so the leaf hint, which skips containments, cannot contradict it. |
| `FilterLeafForms.HasTagLeaf` | crates/contextos-obsidian/src/base_query.rs:668-674 | `file.hasTag(...)` with any quoted text, in either quote and with any padding inside and around it, evaluates to whether the row carries that tag. |
| `FilterLeafForms.InFolderLeaf` | crates/contextos-obsidian/src/base_query.rs:675-681 | `file.inFolder(...)`, equally with either quote and any padding, evaluates to whether the row lies in that folder or below it. |
| `FilterLeafForms.ContainsLeaf` | crates/contextos-obsidian/src/base_query.rs:682-689 | `p.contains(...)` looks the property up and asks for a substring of a text or an element of a list, whenever the text is not read as one of the two calls before and the property itself holds no `.contains(`. |
| `FilterLeafForms.NotACall` | crates/contextos-obsidian/src/base_query.rs:668-689 | Only a property that itself begins with the name of a call can be read as that call. |
| `FilterLeafForms.EqualityLeaf` | crates/contextos-obsidian/src/base_query.rs:690-697 | `p == x` asks whether the property, absent counting as null, equals the literal, whenever no earlier branch applies: the text is no call or containment and holds no `!=`, and this `==` is its first. |
| `FilterLeafForms.InequalityLeaf` | crates/contextos-obsidian/src/base_query.rs:690-697 | `p != x` is the negation of that equality, with the same errors, whatever the literal holds, whenever the text is no call or containment and this `!=` is its first. |
| `FilterLeafForms.QuotedEqualityIff` | crates/contextos-obsidian/src/base_query.rs:724-734 | For any property, an equality with a quoted text means equality on every row exactly when the text holds no `!=`. |
| `FilterLeafForms.QuotedInequalityMisreads` | crates/contextos-obsidian/src/base_query.rs:724-734 | An instance: `p == 'a!=b'` is rejected on every row. |
| `FilterLeafMeaning.PropertyMeaning` | crates/contextos-obsidian/src/base_query.rs:782-828 | A `file.` name gives the documented property of the row or an error that names it, a `formula.` name an error, and any other name the frontmatter member, with or without `note.`. |
| `FilterLeafMeaning.LiteralMeaning` | crates/contextos-obsidian/src/base_query.rs:744-765 | What each kind of literal stands for: text in either quote, the three keywords, a number, or an error that names the text. |
| `FilterLeafMeaning.InFolderByComponents` | crates/contextos-obsidian/src/base_query.rs:710-713 | For paths written out, with any slashes after the folder: a row lies in a folder exactly when the folder's components lead those of the row's folder, and in the empty folder only at the top. |
| `FilterLeafMeaning.NeedleMeaning` | crates/contextos-obsidian/src/base_query.rs:682-689 | A containment holds exactly of a text around the needle, or of a list with the needle among its elements. |
| `FilterLeafMeaning.FolderCallHint` | crates/contextos-obsidian/src/base_query.rs:422-439 | Every `file.inFolder(...)`, in either quote and with any padding, narrows the scan to its folder. |
| `FilterLeafMeaning.LocationHint` | crates/contextos-obsidian/src/base_query.rs:422-439 | Every equality of `file.path` or `file.folder` with a quoted text narrows the scan to it, exactly unless the text holds `!=`. |
| `FilterLeaf.LeafFailsClosed` | crates/contextos-obsidian/src/base_query.rs:666-702 | For any two rows a leaf is either supported for both or fails with the same error. |
| `FilterTree.FailsClosed` | crates/contextos-obsidian/src/base_query.rs:458-507 | For any filters and any two rows, evaluation succeeds for both or fails with the same error: no short circuit hides a bad leaf behind data. |
| `FilterUniformity.ExpressionFailsClosed` | crates/contextos-obsidian/src/base_query.rs:525-536 | The same for a filter string. |
| `FilterPrinting.PrintedExpressionEvaluates` | crates/contextos-obsidian/src/base_query.rs:508-536 | Any tree of or, and, not, groups and leaves, printed with only the parentheses precedence requires and with padding of its own at every token, evaluates to the Boolean value of the tree, or to its first leaf error. |
| `FilterPrinting.AndArrives` | crates/contextos-obsidian/src/base_query.rs:574-585 | The `&&` walker, entered at a printed conjunction, stops right after it with its value. |
| `FilterPrinting.OrArrives` | crates/contextos-obsidian/src/base_query.rs:561-572 | The `||` walker, entered at a printed disjunction, stops right after it with its value. |
| `FilterPrinting.PassLeaf` | crates/contextos-obsidian/src/base_query.rs:624-658 | Scanning a well-formed leaf at top level passes over all of it: quotes and balanced parentheses inside do not end it. |
| `HintPrinting.PrintedExpressionHints` | crates/contextos-obsidian/src/base_query.rs:339-420 | The second parser gives any printed expression the hint of its tree: a conjunction its first hint, a disjunction the one its operands share, a negation none. |
| `FilterErrors.UnopenedIsRejected` | crates/contextos-obsidian/src/base_query.rs:525-536 | A closing parenthesis too many after any well-formed expression is an error that names the whole text, unless the expression has an error of its own. |
| `FilterErrors.UnopenedHasNoHint` | crates/contextos-obsidian/src/base_query.rs:339-347 | Such a text gives no hint. |
| `FilterErrors.UnclosedIsRejected` | crates/contextos-obsidian/src/base_query.rs:598-615 | A group that is never closed is an error that names the whole text, unless the expression in it has an error of its own. |
| `FilterExpression.ExpressionCursor.ParseOr` | crates/contextos-obsidian/src/base_query.rs:561-572 | The cursor loop reaches the position and result of the specified walk; on every input it terminates and stays inside the text. |
| `FilterExpression.ExpressionCursor.ParseAnd` | crates/contextos-obsidian/src/base_query.rs:574-585 | The same for the conjunction loop. |
| `FilterExpression.ExpressionCursor.ParseNot` | crates/contextos-obsidian/src/base_query.rs:587-596 | The same for negation. |
| `FilterExpression.ExpressionCursor.ParsePrimary` | crates/contextos-obsidian/src/base_query.rs:598-615 | The same for parentheses and leaves, with the unclosed-parenthesis error. |
| `FilterExpression.ExpressionCursor.ScanLeaf` | crates/contextos-obsidian/src/base_query.rs:624-658 | The character loop stops where the specified leaf ends; nesting never drops below zero and the cursor never passes the end. |
| `FilterExpression.ExpressionCursor.WalkOr` | crates/contextos-obsidian/src/base_query.rs:349-359 | The hint cursor loop reaches the position and hint of the specified second walk. |
| `FilterExpression.ExpressionCursor.WalkAnd` | crates/contextos-obsidian/src/base_query.rs:361-372 | The same for the conjunction loop of the second parser. |
| `FilterExpression.RunExpression` | crates/contextos-obsidian/src/base_query.rs:525-536 | Evaluating a whole filter string: the walk must consume all of it. |
| `FilterExpression.RunScanHint` | crates/contextos-obsidian/src/base_query.rs:339-347 | The hint of a whole string, dropped when the second parser leaves text over. |
| `FilterExpression.MergeOrHints` | crates/contextos-obsidian/src/base_query.rs:406-420 | A disjunction is bounded exactly when every operand carries the same hint, and then by that hint. |
| `FilterTree.RunNode` | crates/contextos-obsidian/src/base_query.rs:458-507 | The recursive method over the JSON tree computes the specified value or error, operand by operand without stopping early. |
| `FilterMeaning.OperatorMeaning` | crates/contextos-obsidian/src/base_query.rs:458-507 | In terms of the operands alone: if all have a value, `and` holds when every one does, `or` when some does, `not` when some does not; otherwise the error is that of the first operand without a value, at its own place. |
| `FilterMeaning.MalformedNodes` | crates/contextos-obsidian/src/base_query.rs:458-507 | Which node reports which violation, and where; a string is evaluated as an expression at the node's place. |
| `FilterMeaning.NoFiltersMatchAll` | crates/contextos-obsidian/src/base_query.rs:451-456 | Without filters every row matches and nothing narrows the scan; with filters the node decides. |
| `FilterMeaning.HintMeaning` | crates/contextos-obsidian/src/base_query.rs:316-329 | In terms of the operands' hints: `and` has the first hint among them, `or` the hint all share, anything else none. |
| `FilterTree.ValidateFilters` | crates/contextos-obsidian/src/base.rs:374-418 | The validator pushes exactly the specified diagnostics after those already collected. |
| `FilterTree.DiagnosticsDecideShape` | crates/contextos-obsidian/src/base.rs:374-418 | Validation is silent exactly on trees of non-empty strings and one-operator objects with well-shaped operands. |
| `FilterMeaning.ReportMeaning` | crates/contextos-obsidian/src/base.rs:374-418 | Which diagnostic a node gets, and where; one more operand appends that operand's own report, under its own place. |
| `FilterTree.ValidatedNeverMalformed` | crates/contextos-obsidian/src/base.rs:374-418 | A tree the validator accepts never makes the evaluator report a malformed definition, for any row. |
| `ResultRendering.RenderCsv` | crates/contextos-obsidian/src/base_query.rs:1064-1074 | The CSV loop writes the header and rows as records of the specified grammar. |
| `ResultRendering.FieldDecodes` | crates/contextos-obsidian/src/base_query.rs:1080-1086 | A decoder of section 2 of RFC 4180 reads back any field as written, whatever characters it holds. |
| `ResultRendering.CsvRoundTrip` | crates/contextos-obsidian/src/base_query.rs:1064-1086 | Decoding a CSV rendering returns every cell of every record exactly when no record is without cells. |
| `ResultRendering.BareFieldIff` | crates/contextos-obsidian/src/base_query.rs:1080-1086 | A field is written as it is exactly when it holds no quote, comma or newline. |
| `ResultRendering.RenderTable` | crates/contextos-obsidian/src/base_query.rs:1007-1019 | The table loop writes the specified header, rule and row lines. |
| `ResultRendering.EscapeIsPerCharacter` | crates/contextos-obsidian/src/base_query.rs:1031-1033 | The three successive replacements act on each character once, so they cannot interfere. |
| `ResultRendering.TableRoundTrip` | crates/contextos-obsidian/src/base_query.rs:1007-1033 | Decoding a table rendering returns every cell, with newlines shown as spaces. |
| `ResultRendering.FlatIs` | crates/contextos-obsidian/src/base_query.rs:1031-1033 | Shown as a cell, a text keeps every character but newlines, which become spaces. |
| `IndexBlock.RowReadsIff` | crates/contextos-index/src/lib.rs:648-715 | Every row parses, for any name and summary; it gives back its own name exactly when the name holds neither `](` nor `) | ` and, for a file, does not end in `/index.md`, and then its summary too. |
| `IndexBlock.CloseInNameExample` | crates/contextos-index/src/lib.rs:648-682 | An instance: the row of a file called `a) | b` reads as `a`. |
| `IndexBlock.RowRoundTrip` | crates/contextos-index/src/lib.rs:648-715 | For such names the row parser returns what the row printer was given, whatever the summary says. |
| `IndexBlock.BlockReads` | crates/contextos-index/src/lib.rs:648-715 | For all entries, parsing a printed block gives exactly what its rows read as, the last row of a name winning. |
| `IndexBlock.BlockRoundTrip` | crates/contextos-index/src/lib.rs:648-715 | When every name reads back, parsing a printed block recovers the summary of every entry and nothing else. |
| `IndexBlock.InnerStableIff` | crates/contextos-index/src/lib.rs:684-715 | Printing again with what a printed block reads as gives the same text exactly when each entry reads the same summary again. |
| `IndexBlock.InnerStable` | crates/contextos-index/src/lib.rs:684-715 | Printing again with each distinct entry's own summary gives the same text. |
| `IndexNames.ReadNameIs` | crates/contextos-index/src/lib.rs:648-682 | Which name a row is read under: it depends on the entry's name and kind alone, never on the summary. |
| `IndexNames.NoCloseIsRead` | crates/contextos-index/src/lib.rs:648-682 | No row is ever read under a name that holds `) | `, so a document records none. |
| `IndexNames.NamesReadIff` | crates/contextos-index/src/lib.rs:648-715 | The exact condition on distinct names: whatever a document records, every entry is read back with the summary it was printed with, if and only if every name without `) | ` reads back and no later row is read under it. |
| `IndexNames.ReadingNamesRead` | crates/contextos-index/src/lib.rs:648-715 | Distinct names that all read back meet that condition. |
| `IndexNames.ClashingNamesReadDifferently` | crates/contextos-index/src/lib.rs:648-715 | An instance that fails it: `a` and `a) | b` are valid and distinct, and `a` is read with the summary of the other. |
| `IndexBlock.CollectSummaries` | crates/contextos-index/src/lib.rs:648-682 | The line loop over a block collects the last summary of each name, or stops at the first malformed row with its line number. |
| `IndexBlock.SingleLineIsOneLine` | crates/contextos-index/src/lib.rs:717-723 | A derived summary never spans lines. |
| `IndexWords.SummaryKeepsWords` | crates/contextos-index/src/lib.rs:717-723 | A derived summary is exactly the words of the suggested text, with one space between them, once the escaped pipes are read back; every pipe is escaped. |
| `IndexWords.FreshTitle` | crates/contextos-index/src/lib.rs:725-740 | A fresh document is headed by the directory's words, whatever dashes, underscores and spaces stand between them, each with its first character upper-cased. |
| `IndexMeaning.RowGrammar` | crates/contextos-index/src/lib.rs:648-682 | Which lines are rows: exactly those that link to the name, or to its `index.md`, and end in the summary. |
| `IndexReconcile.RenderBlock` | crates/contextos-index/src/lib.rs:684-715 | The printing loop pushes exactly the specified block. |
| `IndexMeaning.BlockMeaning` | crates/contextos-index/src/lib.rs:684-715 | The block in full: the markers, the table head, and one row per entry in order, which links to the entry and carries its recorded summary, or its derived one marked as such. |
| `IndexReconcile.MarkerFreeIff` | crates/contextos-index/src/lib.rs:684-723 | The printed rows are free of markers exactly when no name and no newly derived summary holds one. |
| `IndexReconcile.MarkedBlockIsRejected` | crates/contextos-index/src/lib.rs:603-646 | A marker among the rows of a block makes the next reconciliation fail. |
| `IndexReconcile.BlockIsStableIff` | crates/contextos-index/src/lib.rs:603-646 | A document that holds the block for these entries is returned unchanged exactly when no row holds a marker and the rows read back what they were printed with. |
| `IndexReconcile.RunReconcileExisting` | crates/contextos-index/src/lib.rs:603-646 | The splice over marker positions computes the specified document or error. |
| `IndexMeaning.WithoutMarkersAppends` | crates/contextos-index/src/lib.rs:607-618 | A file without markers keeps all its text, ended by a newline, and the block follows under its own heading. |
| `IndexMeaning.MarkersRefusedIff` | crates/contextos-index/src/lib.rs:603-646 | Markers are refused exactly unless there are none, or one begin marker and after it one end marker. |
| `IndexMeaning.LinesMeaning` | crates/contextos-index/src/lib.rs:648-650 | Where lines end: at a newline, with a carriage return before it or without, and at the end of the text. |
| `IndexMeaning.BadRowIs` | crates/contextos-index/src/lib.rs:620-682 | With valid markers a document is refused exactly for its first line that is neither row, table head nor blank; the number reported is that line's own exactly when the begin marker starts a line. |
| `IndexReconcile.IdempotentIff` | crates/contextos-index/src/lib.rs:555-646 | From all three starting points - no file, no markers, a block - and for any one-line names: reconciling the output with the same entries returns it unchanged exactly when no name and no newly derived summary holds a marker and the rows read back alike. |
| `IndexReconcile.Idempotent` | crates/contextos-index/src/lib.rs:555-646 | For names that meet the condition of NamesReadIff, from all three starting points: exactly when no name and no newly derived summary holds a marker. |
| `IndexReconcile.ClashingNamesChangeDocument` | crates/contextos-index/src/lib.rs:555-646 | An instance: the fresh document for `a` and `a) | b` is changed by the next reconciliation. |
| `IndexReconcile.MarkerTitleIsRefused` | crates/contextos-index/src/lib.rs:555-646 | An instance: a note whose title is the begin marker is written, and the result is refused the next time. |
| `IndexReconcile.ExistingIsStableIff` | crates/contextos-index/src/lib.rs:603-646 | The same condition for an existing file, from its own markers. |
| `IndexReconcile.PreservesProse` | crates/contextos-index/src/lib.rs:603-646 | For all entries: with valid markers, the text before the begin marker and after the end marker survives character by character. |
| `IndexReconcile.PreservesRows` | crates/contextos-index/src/lib.rs:603-715 | For all entries: the new block has one row per entry, in order, and the row of an entry already recorded carries its last recorded summary unchanged. |
| `IndexReconcile.PreservesSummaries` | crates/contextos-index/src/lib.rs:603-646 | If no row holds a marker, the parser reads from the new document exactly what its rows read as; with distinct names that read back these are the given entries, and each that already was recorded keeps its last recorded summary. |
| `IndexReconcile.ValidateEntries` | crates/contextos-index/src/lib.rs:586-601 | The validation loop reports the specified first violation. |
| `IndexMeaning.BadEntryIs` | crates/contextos-index/src/lib.rs:586-601 | The document is refused for the first entry with a bad name or one that was used before, and says which. |
| `IndexOrder.ValidateDecides` | crates/contextos-index/src/lib.rs:586-601 | Validation accepts exactly non-empty, one-line, pairwise distinct names. |
| `IndexOrder.SortOrders` | crates/contextos-index/src/lib.rs:555-578 | The display order is directories first, then case-insensitively by name, then by name, and keeps each entry exactly as often. |
| `IndexMeaning.DisplayOrder` | crates/contextos-index/src/lib.rs:555-578 | Of two rows, the earlier is a directory if only one is, and otherwise comes first by lower-cased name, or by name where these agree, character by character. |
| `IndexOrder.OrderIsUnique` | crates/contextos-index/src/lib.rs:555-578 | Two ordered arrangements of the same distinct entries are equal. |
| `IndexOrder.OrderIrrelevant` | crates/contextos-index/src/lib.rs:555-578 | The document depends on which entries there are, not on the order in which they were listed. |
| `IndexOrder.DocumentIdempotentIff` | crates/contextos-index/src/lib.rs:555-646 | Writing a document and reconciling it again with the same entries in any order changes nothing exactly under the condition of IdempotentIff. |
| `GitPaths.PlainContainment` | crates/contextos-git/src/lib.rs:1057-1063 | For a path without a backslash the textual test holds of an entry exactly when the entry is the path or lies below it by components: a sibling sharing a string prefix is never captured. |
| `GitPaths.EntryIsWithinIff` | crates/contextos-git/src/lib.rs:1057-1063 | The textual test agrees with containment on all entries exactly when the path is not the root and holds no backslash. |
| `GitPaths.OverlayOneMore` | crates/contextos-git/src/lib.rs:551-556 | Overlaying one more path after others equals overlaying them together, whatever their order or nesting. |
| `GitCommit.OwnedTree` | crates/contextos-git/src/lib.rs:547-559 | The loop over the pending paths, in their sorted order, writes exactly the specified tree. |
| `GitCommit.PathOrder` | crates/contextos-git/src/lib.rs:547-559 | The order of the rounds: by components, at the first difference, or because one path ends there. |
| `GitCommit.Refilled` | crates/contextos-git/src/lib.rs:551-556 | One round of the commit loop: everything within the path leaves the tree and the index entries captured by the textual test enter it. |
| `GitCommit.CommittedTreeAt` | crates/contextos-git/src/lib.rs:547-559 | What a whole commit holds at any path: the index if the last round that touches the path captures its index entry, nothing if that round only removes it, and the parent if no round touches it. |
| `GitCommit.FollowsPathsIff` | crates/contextos-git/src/lib.rs:547-559 | At one path, the commit is the index within the pending paths and the parent elsewhere, for all trees, exactly when what the rounds do there matches containment. |
| `GitCommit.PlainSettles` | crates/contextos-git/src/lib.rs:547-559 | A path without a backslash, at or below a pending path other than the root, always enters the commit, whatever else is pending. |
| `GitCommit.CommitExactIff` | crates/contextos-git/src/lib.rs:547-559 | The whole commit is the index within the pending paths and the parent elsewhere, for all trees, exactly when no pending path is the root or holds a backslash. |
| `GitCommit.RefillExactIff` | crates/contextos-git/src/lib.rs:551-556 | The same for one round. |
| `GitPending.GitVault.StageEvent` | crates/contextos-git/src/lib.rs:746-767 | Success stages every path of the event at once and bumps the generation; it comes exactly when every path can be recorded and staged and the index saved. Otherwise the index is left alone, and the first path that failed is marked exactly if it could be recorded. |
| `GitPending.StagedIs` | crates/contextos-git/src/lib.rs:746-767 | What staging leaves at every path of the index: within the event's paths the working tree's file, nothing for a deletion, and elsewhere what was there; and the rest of the state. |
| `GitPending.StageableIs` | crates/contextos-git/src/lib.rs:752-766 | Which paths can be staged: any deletion, a move of what is gone, and what exists and the library takes. |
| `GitPending.GitVault.CommitPending` | crates/contextos-git/src/lib.rs:532-584 | A commit moves HEAD to the tree the loop writes, for any pending paths, empties the batch and clears the markers of the committed paths as far as the storage lets it; it fails exactly if the storage does, and then, as with an empty batch, changes nothing. |
| `GitPending.CommitFrame` | crates/contextos-git/src/lib.rs:532-584 | What a commit leaves alone, and what it empties. |
| `GitPending.GitVault.CommitIfGeneration` | crates/contextos-git/src/lib.rs:425-435 | The same, and only when the generation is still the expected one. |
| `GitPending.GitVault.ClearPendingPaths` | crates/contextos-git/src/lib.rs:836-851 | Clears the markers one by one until one cannot be removed; it succeeds exactly when all can. |
| `GitPending.GitVault.RecoverStaged` | crates/contextos-git/src/lib.rs:341-395 | Every way a recovery can end, by the storage step it reached, with the whole state it leaves. It fails exactly when a marker names the root or something in `.git`, the library refuses what stands at a recorded path, or a storage step it needs fails; without faults no marker stays. |
| `GitPending.GitVault.ResyncedIndex` | crates/contextos-git/src/lib.rs:358-367 | The recovery loop makes the index agree with the working tree within the recorded paths, in any order, exactly if the library refuses none of them. |
| `GitPending.AbsentMeansEmpty` | crates/contextos-git/src/lib.rs:359-366 | For a path that does not exist, removing it from the index and taking it over from the working tree are the same. |
| `GitRecovery.CommitTakesStagedState` | crates/contextos-git/src/lib.rs:532-584 | Wherever the commit follows its paths, it takes what was staged at staging time within them, whatever was edited since, and leaves operator staging elsewhere staged and uncommitted. |
| `GitRecovery.StepKeepsMarkers` | crates/contextos-git/src/lib.rs:746-799 | No step, complete or cut short, with any paths pending, leaves a staged and uncommitted path without a backslash without its durable marker. |
| `GitRecovery.NothingIsLost` | crates/contextos-git/src/lib.rs:746-799 | In every run with crashes, edits and operator activity at any point, each staged path without a backslash that is not yet in HEAD has a durable marker. |
| `GitRecovery.MarkedIff` | crates/contextos-git/src/lib.rs:746-799 | A path is marked whenever it is owed, at every point of all runs, exactly when it holds no backslash. |
| `GitRecovery.BackslashFileIsForgotten` | crates/contextos-git/src/lib.rs:532-584 | For every path with a backslash, a run of one staging and one commit after which HEAD lacks it and its marker is gone. |
| `GitRecovery.BackslashFileExample` | crates/contextos-git/src/lib.rs:1057-1063 | In particular `a\b.md`. |
| `GitRecovery.NothingBelowIsLost` | crates/contextos-git/src/lib.rs:746-799 | In every run without a recovery, each file without a backslash at or below a staged path, as long as HEAD lacks its staged state, has a durable marker at or above it. |
| `GitRecovery.RecoveryIs` | crates/contextos-git/src/lib.rs:341-395 | The exact effect of a completed recovery on HEAD and index at every path, backslashes included. |
| `GitRecovery.RecoveryAgreesIff` | crates/contextos-git/src/lib.rs:375-381 | Within the recorded paths HEAD agrees with the working tree after a recovery exactly when a present file is taken by the last recorded change that touches it, or untouched and equal before, and an absent one lies within a recorded change or was absent before. |
| `GitRecovery.PlainRecoveryAgreesIff` | crates/contextos-git/src/lib.rs:375-381 | Without backslashes: exactly when HEAD agreed before or a recorded changed file is at or above. |
| `GitRecovery.RecordedAgreesIff` | crates/contextos-git/src/lib.rs:341-395 | A recorded path agrees with the working tree after every completed recovery exactly when it holds no backslash. |
| `GitRecovery.OperatorStagingSurvivesIff` | crates/contextos-git/src/lib.rs:341-395 | Outside the recorded paths the index is kept, and HEAD is kept exactly unless a recorded change captures the path by its text and the staged state differs from HEAD. |
| `GitRecovery.OperatorStagingCaptured` | crates/contextos-git/src/lib.rs:1057-1063 | An instance: recovering a new file `a\b` commits what the operator staged at `a/b`. |
| `GitRecovery.CanCompleteIff` | crates/contextos-git/src/lib.rs:341-395 | In a given state some recovery completes exactly when no marker names the root or something in `.git` and the library takes what stands at the recorded paths. |
| `GitRecovery.RecoveryCompletesIff` | crates/contextos-git/src/lib.rs:801-834 | For a set of paths: in every state of every run that records only these, from a vault without markers and with the library taking what stands there, a recovery can complete, exactly when none of them is the root or lies in `.git`. |
| `GitRecovery.GitFileBlocksRecovery` | crates/contextos-git/src/lib.rs:746-767 | An instance: a note is staged, a file in `.git` is recorded and refused, the process ends; the note is owed and no recovery can complete. |
| `GitRecovery.StuckStaysIff` | crates/contextos-git/src/lib.rs:746-851 | A marker no recovery can read and that is not pending survives a step exactly unless the step takes its path into the pending batch. |
| `GitRecovery.StuckBlocksRecovery` | crates/contextos-git/src/lib.rs:801-834 | Over any run, such a marker stays, and no recovery can complete, until its path is staged again. |
| `GitRecovery.CompletedRecoverySettles` | crates/contextos-git/src/lib.rs:341-395 | After any run and a crash, a completed recovery puts the working tree's state of every owed path without a backslash into HEAD, and none of them stays owed. |
| `GitRecovery.CrashThenRecover` | crates/contextos-git/src/lib.rs:341-395 | End to end: after any run that recorded neither the root nor anything in `.git`, and a crash, with the library taking what stands at the recorded paths, a recovery can complete, and every one that does settles every owed path without a backslash. |
| `GitRecovery.DirectoryDeletionIsForgotten` | crates/contextos-git/src/lib.rs:375-382 | A staged directory deletion, interrupted: recovery completes, commits nothing and clears the marker. |
| `GitDebounce.StepKeepsInvariant` | crates/contextos-mcp/src/server.rs:142-177 | Every interleaved step keeps the generation equal to the capped number of stagings and a commit on its way for whatever is pending. |
| `GitDebounce.PendingHasATimer` | crates/contextos-mcp/src/server.rs:142-177 | Whenever paths are pending, a timer with the current generation is outstanding or a staging call is still about to spawn one. |
| `GitDebounce.QuiescentMeansCommitted` | crates/contextos-mcp/src/server.rs:142-177 | Once every call has spawned its timer and every timer has fired, nothing stays uncommitted. |
| `GitDebounce.TimerCommitsIff` | crates/contextos-git/src/lib.rs:425-435 | A timer commits exactly when nothing was staged since its generation was read, or the generation has saturated. |
| `GitDebounce.CommitsEarlyIff` | crates/contextos-git/src/lib.rs:425-435 | In some run a timer set after `n` stagings commits although something was staged since, exactly when `n` has reached the saturation point. |
| `GitDebounce.GenerationCountsStagings` | crates/contextos-git/src/lib.rs:764-765 | Along any run the generation grows by one per staging and by nothing else, until it saturates. |
| `GitDebounce.StepsFollowBatch` | crates/contextos-git/src/lib.rs:746-767 | The abstract steps are what staging, an explicit commit and a timer's guarded commit do to the batch, and each commit with something to do is counted. |
| `GitDebounce.CallsProgress` | crates/contextos-mcp/src/server.rs:155-170 | Every unfinished call has an enabled step, and each of its steps uses up one unit of remaining work. |
| `GitDebounce.QuietRunsCommitEverything` | crates/contextos-mcp/src/server.rs:155-170 | Without new stagings a run of call steps is bounded by the remaining work, and one that uses it all leaves nothing pending. |
| `GitRestore.RestoringVault.Restore` | crates/contextos-git/src/lib.rs:591-690 | From the commit and the working tree themselves: which refusal or outcome a request gets; refusals and previews change nothing; after an applied restore every chosen file holds its content in the commit, every removed path and what lies below it is gone, and anything else is as before but for directories created above a chosen file. |
| `GitRestore.RestoringVault.PlanRestore` | crates/contextos-git/src/lib.rs:616-632 | The comparison loop plans exactly the files whose current text differs, or reports an unreadable one. |
| `GitRestore.RestoringVault.WritePlan` | crates/contextos-git/src/lib.rs:655-667 | Writing the planned files one after another, in any order, never fails and gives exactly the planned contents and their parents. |
| `GitRestore.RestoringVault.WriteFile` | crates/contextos-fs/src/mutate.rs:279-329 | Creates missing parents and puts the file in place; nothing else changes. |
| `GitRestore.RestoringVault.DeleteAll` | crates/contextos-git/src/lib.rs:668-684 | Deletes deepest first: every target still exists when reached, and what remains is everything not within a target. |
| `GitRestore.RestoringVault.Delete` | crates/contextos-fs/src/mutate.rs:382-448 | Removes a file, or a directory with everything below it, and nothing else. |
| `GitRestore.PlanIsWritable` | crates/contextos-git/src/lib.rs:616-632 | Once every historical file was readable, no planned write can be blocked by a file or directory in the way. |
| `GitRestore.HistoricalReads` | crates/contextos-git/src/lib.rs:591-690 | After a restore every unprotected historical file under the selection reads as its historical text, absent counting as empty; no deletion touches it. |
| `GitRestore.OutsideUnchanged` | crates/contextos-git/src/lib.rs:704-716 | Outside the selection nothing changes, except that missing directories above it may be created. |
| `GitRestore.PromisedEndState` | crates/contextos-git/src/lib.rs:591-690 | The promised end state at every path: historical text in the selection, planned deletions gone with everything below them and holding no historical file, and only missing directories above the selection added outside it. |
| `GitRestore.ProtectedFileKeptIff` | crates/contextos-git/src/lib.rs:704-744 | A protected file is kept exactly when no pending, unprotected, selected path above it exists without an unprotected historical file below. |
| `GitRestore.ProtectedFileLost` | crates/contextos-git/src/lib.rs:704-744 | An instance in which a restore removes a protected file. |
| `GitRestore.RestoreIdempotent` | crates/contextos-git/src/lib.rs:591-690 | Restoring the same selection again plans no write and no deletion, even after the first restore's own paths became pending. |
| `CanvasSchema.CollectDiagnostics` | crates/contextos-obsidian/src/canvas.rs:159-208 | The diagnostics loops report exactly the specified list. |
| `CanvasSchema.DiagnosticsDecideValidity` | crates/contextos-obsidian/src/canvas.rs:159-208 | No diagnostic is reported exactly when nodes and edges meet the schema, ids are unique across both, and every endpoint names a node. |
| `CanvasSchema.NodeReportDecides` | crates/contextos-obsidian/src/canvas.rs:390-460 | A node is reported on exactly when it breaks the Nodes section of JSON Canvas 1.0. |
| `CanvasSchema.EdgeReportDecides` | crates/contextos-obsidian/src/canvas.rs:462-505 | An edge is reported on exactly when it breaks the Edges section. |
| `CanvasMeaning.NodeReportIff` | crates/contextos-obsidian/src/canvas.rs:390-460 | Each diagnostic of a node names a field that breaks its rule, and each such field is named. |
| `CanvasMeaning.EdgeReportIff` | crates/contextos-obsidian/src/canvas.rs:462-505 | The same for an edge. |
| `CanvasMeaning.NodesReportIff` | crates/contextos-obsidian/src/canvas.rs:159-208 | What is reported about the nodes: their broken fields, and exactly the ids an earlier node has. |
| `CanvasMeaning.EdgesReportIff` | crates/contextos-obsidian/src/canvas.rs:159-208 | What is reported about the edges: their broken fields, ids that a node or an earlier edge has, and endpoints that are no nodes. |
| `CanvasMeaning.FieldRules` | crates/contextos-obsidian/src/canvas.rs:507-545 | The rules for single fields in JSON's own terms. |
| `CanvasMeaning.ColourMeaning` | crates/contextos-obsidian/src/canvas.rs:537-556 | A colour is a preset from 1 to 6 or six hexadecimal digits after a `#`. |
| `CanvasOperations.CanvasDocument.Apply` | crates/contextos-obsidian/src/canvas.rs:216-224 | All-or-nothing: an error leaves the document as it was, a success applies every operation in order and leaves it valid. |
| `CanvasMeaning.OneMoreOperation` | crates/contextos-obsidian/src/canvas.rs:216-224 | Operations apply one after another, each under its own number, until the first that fails. |
| `CanvasMeaning.TransactionMeaning` | crates/contextos-obsidian/src/canvas.rs:216-224 | A transaction ends in the last document if that is valid, and otherwise in the first error or the first diagnostic. |
| `CanvasOperations.CanvasDocument.ApplyInPlace` | crates/contextos-obsidian/src/canvas.rs:226-301 | Each operation's in-place edit computes the specified document or error. |
| `CanvasOperations.CanvasDocument.GroupInPlace` | crates/contextos-obsidian/src/canvas.rs:303-367 | The member loop and the insertion compute the specified group or its first error. |
| `CanvasOperations.EnsureGeneratedId` | crates/contextos-obsidian/src/canvas.rs:565-588 | The nonce loop gives an object without an id the first digest that is not taken. |
| `CanvasMeaning.FreshIdIs` | crates/contextos-obsidian/src/canvas.rs:565-588 | A generated id is the digest for the first nonce whose digest is free; there is none exactly when all are taken. |
| `CanvasIntegrity.GeneratedIdIsFresh` | crates/contextos-obsidian/src/canvas.rs:565-588 | A generated id occurs on no node and no edge of the document. |
| `CanvasIntegrity.SafeOperationKeepsIntegrity` | crates/contextos-obsidian/src/canvas.rs:226-301 | RemoveNode, RemoveEdge, UpdateNode, and AddNode or Group without an id each keep ids unique across nodes and edges and leave no dangling edge, before any final check. |
| `CanvasIntegrity.SafeOperationsKeepIntegrity` | crates/contextos-obsidian/src/canvas.rs:216-301 | Any successful list of such operations keeps that integrity. |
| `CanvasConditions.OperationKeepsIntegrityIff` | crates/contextos-obsidian/src/canvas.rs:226-301 | Every kind of operation that succeeds, given ids and rewired edges included, keeps ids unique and edges attached, before any final check, exactly when an id it gives is new to the document and the endpoints it names are nodes. |
| `CanvasIntegrity.UpdateTouchesOneValue` | crates/contextos-obsidian/src/canvas.rs:248-289 | Updating a node or an edge changes the first value with that id alone: it keeps its id and every other member follows the merge patch. |
| `CanvasIntegrity.AdditionAppends` | crates/contextos-obsidian/src/canvas.rs:228-276 | Adding a node or an edge appends one value that carries every given member as given, under its own or a fresh id. |
| `CanvasMeaning.AdditionIs` | crates/contextos-obsidian/src/canvas.rs:228-276 | What an addition without an id, `x` or `y` is given, and that all else it names stays. |
| `CanvasIntegrity.RemovalIsExact` | crates/contextos-obsidian/src/canvas.rs:261-272 | Removing a node drops that node and exactly the edges that name it; what remains keeps its order. |
| `CanvasMeaning.NodeRemovalTarget` | crates/contextos-obsidian/src/canvas.rs:261-272 | Removing a node drops the first with the id, and exactly the edges that name the id. |
| `CanvasMeaning.EdgeRemovalIsExact` | crates/contextos-obsidian/src/canvas.rs:290-295 | Removing an edge drops the first with the id and nothing else; the nodes and all other edges stay, in order. |
| `CanvasMeaning.TargetedErrors` | crates/contextos-obsidian/src/canvas.rs:248-295 | Updates and removals fail exactly for a target that does not exist, and updates also for a patch that names the id. |
| `CanvasMeaning.GroupErrors` | crates/contextos-obsidian/src/canvas.rs:303-367 | Grouping fails for an empty list, or for the first member that is listed twice, does not exist or has no geometry, and says which. |
| `CanvasIntegrity.InsertionIsAMember` | crates/contextos-obsidian/src/canvas.rs:313-330 | The group is inserted where its lowest member was, no lower. |
| `CanvasIntegrity.HullIsTight` | crates/contextos-obsidian/src/canvas.rs:332-367 | Each side of the rectangle around the members is some member's side. |
| `CanvasMeaning.FrameIs` | crates/contextos-obsidian/src/canvas.rs:332-367 | Where nothing is cut off, the frame has exactly 40 units beyond the outermost member on each side. |
| `CanvasIntegrity.GroupLiesBelowMembers` | crates/contextos-obsidian/src/canvas.rs:303-367 | The new group is inserted before all its members, every other node keeping its relative order, with the frame of the members' bounds. |
| `CanvasIntegrity.GroupSurroundsMembersIff` | crates/contextos-obsidian/src/canvas.rs:303-367 | The group surrounds all its members by 40 units on every side exactly when no i64 operation that places a far edge of a member, the corner or the size of the group saturates. |
| `CanvasIntegrity.FreeXClears` | crates/contextos-obsidian/src/canvas.rs:228-247 | The position chosen for a node without `x` is at least 60 right of every node with geometry, unless that exceeds the i64 range. |
| `CanvasMeaning.FreeXIs` | crates/contextos-obsidian/src/canvas.rs:228-247 | The free position is 0 without geometry, and otherwise exactly 60 to the right of the farthest edge, cut off at the top of the range. |
| `CanvasIntegrity.AddedNodesKeepDistance` | crates/contextos-obsidian/src/canvas.rs:228-247 | In a successful list of additions without `x`, each added node lies at least 60 units to the right of every earlier node. |
| `MergePatch.ApplyObjectPatch` | crates/contextos-obsidian/src/lib.rs:197-217 | The in-place recursive loop over the patch computes the specified object. |
| `MergePatch.PatchIsMergePatch` | crates/contextos-obsidian/src/lib.rs:197-217 | The result means what MergePatch of section 2 of RFC 7386 gives for the meanings of target and patch. |
| `MergePatch.PatchGet` | crates/contextos-obsidian/src/base.rs:352-372 | Every member of the result by key: patched where the patch names it, kept where it does not. |
| `MergePatch.PatchKeys` | crates/contextos-obsidian/src/canvas.rs:673-693 | Surviving keys keep their relative order and new keys follow in the order of the patch. |
| `MergePatch.PatchIdempotent` | crates/contextos-obsidian/src/lib.rs:197-217 | Applying a patch twice equals applying it once, key order included. |
| `MergePatch.FrontmatterDocument.ApplyMergePatch` | crates/contextos-obsidian/src/lib.rs:172-179 | Patches the frontmatter and stamps `updated` unless the patch names it; all other members follow the patch. |
| `RefInliner.Expansion.InlineRefsIn` | crates/contextos-mcp/src/resource_support.rs:431-475 | The in-place rewrite with its stack of targets terminates on every schema, cyclic ones included, restores the stack, and computes the specified expansion. |
| `RefInliner.MergeSite` | crates/contextos-mcp/src/resource_support.rs:450-457 | Siblings of a reference are copied over the expanded definition, unexpanded. |
| `RefInliner.RunInlineLocalRefs` | crates/contextos-mcp/src/resource_support.rs:403-425 | The whole pass: definitions are collected, the root is expanded against them, and `$defs` is dropped. |
| `RefMeaning.TargetMeaning` | crates/contextos-mcp/src/resource_support.rs:363-371 | Which texts are local references, and to what. |
| `RefMeaning.DefinitionContents` | crates/contextos-mcp/src/resource_support.rs:407-411 | Each member of `$defs` is the definition its name refers to. |
| `RefMeaning.DefinitionsAre` | crates/contextos-mcp/src/resource_support.rs:407-415 | The targets of a schema: the root without `$defs`, every other member as it is, and one definition for each member of `$defs`, as it stands there; and no other. |
| `RefMeaning.ResultIs` | crates/contextos-mcp/src/resource_support.rs:417-425 | What is handed back: the expanded root, member by member, without `$defs`. |
| `RefMeaning.OtherSchemasStay` | crates/contextos-mcp/src/resource_support.rs:403-406 | Anything but an object is handed back as it is. |
| `RefMeaning.SiteMembers` | crates/contextos-mcp/src/resource_support.rs:438-463 | At a reference: the expanded definition with the other members of the site over it, or the site as it was where the target repeats, is missing or is no object. |
| `RefInliner.AcyclicInlinesFully` | crates/contextos-mcp/src/resource_support.rs:431-475 | With all targets defined, plain siblings and no repeating walk, no local reference is left. |
| `RefInliner.InlinesFullyIffAcyclic` | crates/contextos-mcp/src/resource_support.rs:431-475 | With bare references, no local reference is left in the root exactly when no walk along references repeats a target; `RefResidue.SchemaInlinesFullyIff` covers references with siblings. |
| `RefInliner.InlineIsUnfolding` | crates/contextos-mcp/src/resource_support.rs:431-475 | With acyclic references the pass computes the unfolding of section 8.2.3.1 of JSON Schema Core draft 2020-12, at any depth that reaches every definition. |
| `RefInliner.SchemaFullyInlined` | crates/contextos-mcp/src/resource_support.rs:403-425 | The two results for the whole pass on a root schema. |
| `RefResidue.LeavesIff` | crates/contextos-mcp/src/resource_support.rs:431-475 | What the pass leaves, in any value and outside any overwritten members: a local reference stays exactly when one stands in a kept sibling or in what remains of an exposed target. |
| `RefResidue.LeavesNothingIff` | crates/contextos-mcp/src/resource_support.rs:431-475 | For definitions with any siblings next to references: no local reference is left exactly when no walk along references, remembering which members siblings overwrite, gets stuck: on a target that repeats, is missing or is no object, or on a kept sibling that holds a reference. Objects hold each key once, as the map type ensures. |
| `RefResidue.SchemaInlinesFullyIff` | crates/contextos-mcp/src/resource_support.rs:403-425 | The same for a whole schema, whose `$defs` are dropped at the end. |
| `WriteLocks.NormaliseOrders` | crates/contextos-mcp/src/server.rs:44-52 | The lock order is strictly increasing and names exactly the requested roots. |
| `WriteLocks.IncreasingIsUnique` | crates/contextos-mcp/src/server.rs:44-52 | There is only one sorted, deduplicated arrangement of the same roots. |
| `WriteLocks.Exclusive` | crates/contextos-mcp/src/server.rs:44-63 | Over every run of any number of tasks with arbitrary requests, two tasks in their critical sections share no root. |
| `WriteLocks.FinishedReleasesEverything` | crates/contextos-mcp/src/module.rs:393-409 | A finished or failed task holds no lock; it failed only for a root without a lock, and entered its section only if all roots have one. |
| `WriteLocks.NoDeadlock` | crates/contextos-mcp/src/server.rs:53-63 | In every reachable state with an unfinished task some task has an enabled step. |
| `WriteLocks.RunsAreFinite` | crates/contextos-mcp/src/server.rs:44-63 | Every run is at most as long as the work its requests amount to. |
| `WriteLocks.EveryRunCompletes` | crates/contextos-mcp/src/server.rs:44-63 | From every reachable state all tasks can be run to their end. |
| `OperationLog.OperationLog.FlushPending` | crates/contextos-oplog/src/lib.rs:180-191 | Whatever the log file refuses: what was written is what left the queue, in order, and the first refused record stays at the front with everything behind it; the flush stops there and nowhere before. |
| `OperationLog.OperationLog.AppendRecord` | crates/contextos-oplog/src/lib.rs:131-178 | A new record queues behind everything still waiting before the flush. |
| `OperationLog.OperationLog.Flush` | crates/contextos-oplog/src/lib.rs:126-129 | Written records followed by queued records are unchanged by a flush. |
| `OperationLog.RunConserves` | crates/contextos-oplog/src/lib.rs:131-191 | Over any run of appends and flushes with arbitrary failures, written records followed by queued records are the submitted records, in order, each exactly once. |
| `OperationLog.RunOnlyAppends` | crates/contextos-oplog/src/lib.rs:131-191 | Nothing written is ever rewritten, and one unhindered flush writes everything submitted. |

## Left out

- Number literals in filters: how a decimal text becomes a number is a parameter of evaluation, and the comparison of numbers is left to it.
- Unicode upper- and lower-casing and the SHA-256 digest behind generated ids are parameters.
- Text is a sequence of characters, so UTF-8 boundary safety is taken as given, and the nesting counter of the leaf scanner is unbounded instead of 32 bits wide.
- Renderers take the text of each cell; how a property value becomes that text, JSON rendering, formulas, sorting and limits of a Bases query are not modelled.
- Error messages are kinds with structured paths, not their wording.
- YAML and JSON codecs, and the construction of documents from them.
- `BaseDocument::apply`, its operations other than merge patch, and the validators other than the one for filters: the transaction has the shape of the canvas one and would add only easy members.
- IndexReconcile.IdempotentIff: upper-casing is assumed not to produce a dash from another character; that names are one line is what validation ensures.
- First headings and first sentences that feed derived summaries, and the watch and rebuild loops around the index.
- libgit2: which paths it refuses to take into the index is a parameter, a predicate on the working tree and the path. An index entry at a file path displaces entries below it; entries above it are left alone, so other file and directory collisions are not modelled. Ignore rules, file modes and submodules are not modelled.
- GitPending.GitVault.StageEvent: paths are given relative to the vault; the clock reading and the wrong-vault error are not modelled. Commit messages and signatures are not modelled either.
- GitDebounce.PendingHasATimer: fault-free steps only; a staging call that fails part-way, or that runs without an async runtime to spawn on, leaves paths pending without a timer.
- GitRestore.RestoringVault.Restore: no interference while it runs, so writes cannot fail on a changed file; the textual diff, events and warnings are not modelled, an unreadable current file has one error kind, and equally deep deletions run in any order.
- `initialise`, `log`, `diff` and `status` of the Git service are thin wrappers over the library.
- `VersionCollection::stage` is modelled for one root; splitting an event by root is not.
- Sorting and deduplication calls of the standard library are functions, and the lock coordinator is a state machine: fairness and cancellation of asynchronous locks are not modelled.
- The three copies of the merge-patch loop have one model.
- `sanitise_nullable_unions` and the other schema passes.
- Events returned by the operation log, and appends that fail after writing.
- File system calls, symbolic links, trash, temporary files, HTTP, the tool transport, search, embeddings, ephemeris, configuration and the command line.
