# Verified model of the Markdown table editor and the file protocols

This project models the parts of the repository where a small slip silently damages a user's text or files,
and proves what those parts are for.

- **The pipe-table engine.** Parser, printer, structural edits, formatter, sorting, and the reader and writer of
  tab- and comma-separated text. A table is written in a document as text; every edit parses the text, changes
  the table and prints it again. The tables are those of section 4.10 of the GitHub Flavored Markdown Spec with
  delimiter cells of at least three dashes, alone or inside block quotes and list items.
- **The table layout.** Where cells stand in the document, which ranges are protected structure, and where the
  caret goes.
- **The editor transactions.** Edits at several selections, position mapping, inline toggles, and indenting.
- **Two backend protocols.** Knowledge files (rows in a transaction, objects in a store, actions on rollback and
  after commit) and media files (upload that reuses equal content, attach, detach, delete, prune).
- **The image upload queue** of the editor, and the **key generators** of the query-plan seed.

## How it is organised

A code unit is a `char`, a text is a `string`. White space is the class `\s` of ECMAScript.

| files | what they hold |
|---|---|
| `text`, `lines`, `containers`, `container_rules`, `sequences` | segments and backslash parity, line endings, quote and list prefixes, index lists and moves |
| `markdown_table`, `table_text`, `parsing_rules` | the table, its parser and printer, how they undo each other, and what is accepted |
| `table_edits`, `table_language`, `table_sorting`, `table_format` | the edits, what a reader sees of them, sorting, formatting |
| `edit_positions`, `selections`, `row_frames`, `action_results` | where every row, column and cell stands after an edit, and what stays around the cells |
| `delimited`, `clipboard`, `paste`, `clipboard_reading`, `column_paste` | separated text, escaping, copy and paste |
| `document_runs`, `plain_sessions`, `row_ends` | whole editing sessions through the text, ragged rows, rows without an outer pipe |
| `table_layout`, `document_layout`, `prose_rows`, `cell_edit`, `protected_edits`, `table_changes` | rows and cells in the document, protected ranges, typing in a cell |
| `caret`, `caret_text`, `paste_caret` | where the caret goes |
| `edits`, `edit_order`, `position_mapping` | transactions, order of application, mapped positions |
| `inline_toggles`, `marker_toggles`, `code_toggles`, `code_fences`, `indentation`, `indent_rules` | toggles, indenting |
| `knowledge_files`, `file_requests`, `left_over_objects` | knowledge files: the protocol, whole requests, objects without a row |
| `media_files`, `upload_effects`, `namespaces`, `missing_objects`, `surplus_objects` | media files: the protocol, uploads, rows without an object and objects without a row |
| `upload_queue`, `upload_progress`, `seed_keys` | the upload queue, the seed keys |

Loops of the source are methods with loops, proved equal to recursive functions; objects that change are classes
(`Store`, `Service`, `Uploads`) whose methods are proved against the steps of a state machine. The lemmas then say
what the functions and the state machines are for. The central idea for the tables is a *language* of tables
(`TableText.Tidy`): rectangular, both outer pipes on every row, every cell text printable between pipes. Every
edit keeps a table in the language, and acts on what a reader sees of it (`TableLanguage.View`: grid of cell
texts and alignments) as its own plain description; `DocumentRuns.SessionsRefine` puts this together for any
sequence of edits, formatting and pasting through the document text. What an edit does is also stated without the
functions it is computed with: `ActionResults.ActionsDo` says for every edit what stands at every place of the result.

## Where the code does not do what one might expect

Each of these is stated with its exact condition.

- Printing a parsed table gives the source back only if its line endings are uniform (`TableText.PrintParsedTable`).
- A ragged table prints to a text that parses again only if header and delimiter row are equally wide; setting an
  alignment widens the delimiter row but not the header (`DocumentRuns.RaggedParsesIff`, `SetAlignmentParsesIff`).
- A blank last cell is lost in a row without a trailing pipe, and a blank first cell in a row without a leading
  pipe, unless it is the only one (`RowEnds.LastCellKeptIff`, `RowEnds.FirstCellKeptIff`, `RowEnds.BothCellsKeptIff`).
- Copy and paste in place respells every line break that is not `<br>` (`Paste.CopyPasteIdentity`). Of a selection
  in a single column, quoted values come back with their quotes, and lines with equally many commas are spread
  over several columns (`ColumnPaste.ColumnPasteIdentity`).
- Typing text that ends in an odd run of backslashes, or holds an unescaped pipe, leaks into the neighbouring
  cells, and a typed line feed breaks the row; the structure protection blocks neither (`CellEdit.CellEditExact`,
  `TableChanges.LetThroughChangesTable`).
- The line feed that ends a table source is protected by no row (`TableLayout.FinalLineFeedNotProtected`).
- `applyEdits` is the splice of its edits only if no two edits start at the same place
  (`EditOrder.SafeIffDistinct`).
- In a list item, rows inserted before the header take the line of the list marker but not the marker, so it is gone
  from the first line (`EditPositions.MarkerLeavesFirstLine`).
- `moveAfter` does not undo `moveBefore` on a block that already was at the start (`Sequences.MoveUndoneIff`).
- Toggling inline code twice does not restore the text if a backtick stands next to a selection or two selections
  touch (`CodeToggles.TogglesTwice`).
- If the document starts with an empty line, no selection selects that line (`Indentation.FirstLineStartIs`).
- The caret of a body row of a table without body goes to the delimiter row (`Caret.RequestedRow`).
- An image queue whose head ends while uploading is disabled waits, and goes on waiting when uploading is enabled
  again (`UploadProgress.StepMovesIff`, `UploadProgress.EnablingDoesNotResume`).
- An upload that raises after storing its object leaves the object behind, since it was not registered for
  rollback yet (`KnowledgeFiles.UploadLeftOver`, `LeftOverObjects.LeftOverExact`).
- A commit that takes effect and then raises lets the rollback actions delete the objects of committed rows, and
  keeps the objects of removed ones (`KnowledgeFiles.CommittedRowsDangleIff`, `UnsafeCommitNeeded`,
  `CreatedFileDangles`).
- A media-file deletion that stops between the object and the commit, or raises after the object is gone, leaves a
  row without its object, which a later upload of the same content finds; so does a clean-up, which counts such a
  file as failed and goes on (`MediaFiles.InterruptedDeletionDangles`, `MissingObjects.MissingExact`).

## Model

| member | source | states |
|---|---|---|
| Text.IsEscaped | frontend/src/app/core/editor/markdown-table.ts:957-963 | the left-walking loop reports a character as escaped exactly when an odd run of backslashes ends right before it |
| Text.FindLastNonWhitespace | frontend/src/app/core/editor/markdown-table.ts:965-972 | the index is the last character that is no white space, -1 if there is none; everything after it is white space |
| Text.SplitUnescaped | frontend/src/app/core/editor/markdown-table.ts:944-955 | the segments join back to the source, no segment holds an unescaped pipe, and every segment but the last ends with an even run of backslashes |
| Text.SplitOfJoin | frontend/src/app/core/editor/markdown-table.ts:944-955 | joining well-formed segments by pipes and splitting again gives the same segments |
| Text.SplitParts | frontend/src/app/core/editor/markdown-table.ts:944-955 | splitting always yields well-formed segments, and joining them gives the source back |
| Text.SplitCut | frontend/src/app/core/editor/markdown-table.ts:944-955 | an unescaped pipe splits a text into the segments of its two sides |
| Text.TrimParts | frontend/src/app/core/editor/markdown-table.ts:659-668 | what trimming removes on either side is white space, what it leaves starts and ends with something else |
| Lines.RejoinReadLines | frontend/src/app/core/editor/markdown-table.ts:75-82 | the lines of a text with the detected ending give the text back if and only if its line endings are uniform |
| Lines.ReadBack | frontend/src/app/core/editor/markdown-table.ts:75-82 | reading printed lines gives the lines back, up to a final carriage return that a following line feed swallows |
| Containers.SplitPrefixFits | frontend/src/app/core/editor/markdown-table.ts:643-657 | the block quote or list prefix split off any line is one that can be printed before a pipe and read back, also with the white space before a leading pipe |
| Containers.StablePrefixRead | frontend/src/app/core/editor/markdown-table.ts:643-657 | a line made of such a prefix, a pipe and a rest is split at that pipe, whatever the rest |
| ContainerRules.ListPrefixRead | frontend/src/app/core/editor/markdown-table.ts:643-657 | of blanks, one list marker, blanks and a rest, all before the rest is the prefix if the rest has a pipe, and there is no prefix otherwise |
| ContainerRules.QuotePrefixRead | frontend/src/app/core/editor/markdown-table.ts:643-657 | of a line that starts, behind at most three blanks, with quote marks and goes on with anything but a list marker, exactly the quote marks and their blanks are the prefix |
| ContainerRules.QuotedListRead | frontend/src/app/core/editor/markdown-table.ts:643-657 | one list marker behind the quote marks belongs to the prefix, also if no pipe follows |
| ContainerRules.NoPrefixRead | frontend/src/app/core/editor/markdown-table.ts:643-657 | a line that starts with anything else has no prefix |
| Sequences.EditIsPlan | frontend/src/app/core/editor/markdown-table.ts:131-346 | insert, duplicate, delete and move act by position only: each is one plan that says for every resulting position which old one it shows; where that is, the rows of `EditPositions` say without the plan |
| Sequences.MoveKeepsItems | frontend/src/app/core/editor/markdown-table.ts:204-225 | a move loses and duplicates nothing |
| Sequences.MovedItems | frontend/src/app/core/editor/markdown-editor.tables.ts:3607-3619 | for every index list and gap the moved items land exactly at remapMovedIndices, in their old order |
| Sequences.UnmovedItem | frontend/src/app/core/editor/markdown-table.ts:323-346 | an item that is not moved lands where the removals and insertions before it put it |
| Sequences.UnmovedKeepOrder | frontend/src/app/core/editor/markdown-table.ts:323-346 | items that are not moved keep their relative order |
| Sequences.MoveAfterUndoesMoveBefore | frontend/src/app/core/editor/markdown-editor.tables.ts:2303-2309 | moveAfter on the moved selection undoes moveBefore for every block that does not start at 0 or is everything |
| Sequences.StartBlockNotRestored | frontend/src/app/core/editor/markdown-editor.tables.ts:2303-2309 | a block at the start with something behind it is not restored |
| Sequences.MoveUndoneIff | frontend/src/app/core/editor/markdown-editor.tables.ts:2303-2309 | for items that can be told apart the two actions undo each other if and only if the block did not start at 0 or was everything |
| TableText.PrintParsedRow | frontend/src/app/core/editor/markdown-table.ts:613-641 | printing a parsed line gives the line back, whatever its prefix, pipes and suffix |
| TableText.PrintParsedTable | frontend/src/app/core/editor/markdown-table.ts:74-129 | printing an accepted source gives it back character for character if and only if its line endings are uniform |
| TableText.ParsedTableTidy | frontend/src/app/core/editor/markdown-table.ts:74-120 | an accepted rectangular source with both outer pipes on every row is a table of the language that the edits keep |
| TableText.ReadTidyRow | frontend/src/app/core/editor/markdown-table.ts:613-641 | a row of such a table is read back with the same ends and the same cells |
| TableText.ParsePrintedTable | frontend/src/app/core/editor/markdown-table.ts:74-129 | printing such a table and parsing the text succeeds, and the result is known cell by cell |
| TableText.ReadBackGrid | frontend/src/app/core/editor/markdown-table.ts:74-129 | the grid read back is the grid of trimmed cell texts |
| TableText.TidyReparses | frontend/src/app/core/editor/markdown-table.ts:74-129 | the printed text of such a table parses to the same grid, alignments and column count |
| ParsingRules.AlignmentExact | frontend/src/app/core/editor/markdown-table.ts:669-685 | a delimiter cell is accepted if and only if its trimmed text is at least three dashes with an optional colon at either end, and the colons tell the alignment; one or two dashes are refused |
| ParsingRules.AcceptedExactly | frontend/src/app/core/editor/markdown-table.ts:74-120 | a source is a table if and only if it has two lines at least, none of them empty, and its second line has delimiter cells only, as many as the first line has cells |
| ParsingRules.ParsedAlignment | frontend/src/app/core/editor/markdown-table.ts:74-120 | the column count is that of the longest row, each column has the alignment that its delimiter cell spells, and none beyond the delimiter row |
| TableEdits.PadCells | frontend/src/app/core/editor/markdown-table.ts:822-832 | the loop completes short rows and leaves others alone |
| TableEdits.SortedOrder | frontend/src/app/core/editor/markdown-table.ts:348-375 | the sorting order lists every row exactly once |
| TableLanguage.InsertRowsRefines | frontend/src/app/core/editor/markdown-table.ts:131-153 | inserted rows keep the table in the language and act on the shown grid as the same insertion; its place is stated by `EditPositions.InsertedRows` |
| TableLanguage.DuplicateRowsRefines | frontend/src/app/core/editor/markdown-table.ts:155-171 | duplicated rows keep the table in the language and act on the shown grid as the same duplication; its place is stated by `EditPositions.DuplicatedRows` |
| TableLanguage.ClearRowsRefines | frontend/src/app/core/editor/markdown-table.ts:173-183 | cleared rows keep the table in the language and blank exactly the selected rows |
| TableLanguage.DeleteRowsRefines | frontend/src/app/core/editor/markdown-table.ts:185-202 | deletion is refused when nothing would remain, otherwise removes exactly the selected rows and keeps the table in the language |
| TableLanguage.MoveRowsRefines | frontend/src/app/core/editor/markdown-table.ts:204-225 | moved rows keep the table in the language and permute the grid as the move says |
| TableLanguage.InsertColumnsRefines | frontend/src/app/core/editor/markdown-table.ts:227-258 | inserted columns keep the table in the language; grid and alignments get the same blank columns, whose place `EditPositions.InsertedColumns` states |
| TableLanguage.SelectedColumnsRefine | frontend/src/app/core/editor/markdown-table.ts:260-288 | duplicated or moved columns keep the table in the language; grid and alignments follow the same plan, which `EditPositions.DuplicatedColumns` and `MovedColumns` spell out |
| TableLanguage.ClearColumnsRefines | frontend/src/app/core/editor/markdown-table.ts:290-300 | cleared columns blank exactly the selected columns of every data row |
| TableLanguage.DeleteColumnsRefines | frontend/src/app/core/editor/markdown-table.ts:302-321 | deletion is refused when no column would remain, otherwise removes the columns from grid and alignments |
| TableLanguage.SetAlignmentRefines | frontend/src/app/core/editor/markdown-table.ts:377-397 | exactly the selected alignments change, in the delimiter row and in the table |
| TableLanguage.SortRefines | frontend/src/app/core/editor/markdown-table.ts:348-375 | sorting keeps the table in the language, keeps the header and sorts what the rows show |
| TableLanguage.ClearSelectionRefines | frontend/src/app/core/editor/markdown-table.ts:460-475 | clearing a selection blanks exactly the cells of its rectangle |
| TableLanguage.DeleteSelectionRefines | frontend/src/app/core/editor/markdown-table.ts:477-497 | deleting a selection deletes rows, deletes columns or clears cells according to its kind, or is refused |
| TableLanguage.PerformRefinesAct | frontend/src/app/core/editor/markdown-table.ts:131-397 | every structural edit keeps a table in the language and acts on its grid and alignments as the edit of what the reader sees; refusals agree |
| ActionResults.ActionsDo | frontend/src/app/core/editor/markdown-table.ts:131-497 | all fourteen edits of any table, ragged ones included, for a consistent collation: for each one what stands at every place of the result, which texts and alignments change, which row orders are allowed, and exactly when it is refused |
| EditPositions.InsertedRows | frontend/src/app/core/editor/markdown-table.ts:131-153 | for every table, index and placement: the rows before the wanted gap stay, then come the blank rows, styled as the row at the clamped index, then the rest |
| EditPositions.MarkerLeavesFirstLine | frontend/src/app/core/editor/markdown-table.ts:742-751 | in a list item, rows inserted before the header take the first line, and they have no list marker |
| EditPositions.DuplicatedRows | frontend/src/app/core/editor/markdown-table.ts:155-171 | the rows up to the last selected one stay, then come the selected rows once each in ascending order, then the rest |
| EditPositions.RemovedRows | frontend/src/app/core/editor/markdown-table.ts:185-202 | deletion is refused if and only if every row is selected; otherwise exactly the others remain in order, and a header that is left alone gets one blank row |
| EditPositions.MovedRows | frontend/src/app/core/editor/markdown-table.ts:204-225 | the others before the gap, the selected rows in ascending order, the others behind the gap |
| EditPositions.InsertedColumns | frontend/src/app/core/editor/markdown-table.ts:227-258 | every grid row and the alignments get blank columns at the same wanted place; ends, prefixes and line endings of the rows stay |
| EditPositions.DuplicatedColumns | frontend/src/app/core/editor/markdown-table.ts:260-288 | in every grid row and in the alignments the copies follow the last selected column, in ascending order |
| EditPositions.RemovedColumns | frontend/src/app/core/editor/markdown-table.ts:302-321 | deletion is refused if and only if every column is selected; otherwise exactly the others remain, in every grid row and in the alignments |
| EditPositions.MovedColumns | frontend/src/app/core/editor/markdown-table.ts:323-346 | the others before the gap, the selected columns in ascending order, the others behind the gap, in every grid row and in the alignments |
| RowFrames.ClearedRowsKeep | frontend/src/app/core/editor/markdown-table.ts:173-183 | clearing rows keeps prefixes, pipes and suffixes, and the whole delimiter row |
| RowFrames.ClearedColumnsKeep | frontend/src/app/core/editor/markdown-table.ts:290-300 | clearing columns keeps prefixes, pipes and suffixes, and the whole delimiter row |
| RowFrames.AlignedKeeps | frontend/src/app/core/editor/markdown-table.ts:377-397 | setting alignments changes texts of delimiter cells only, and completes that row |
| RowFrames.ClearedCellsKeep | frontend/src/app/core/editor/markdown-table.ts:460-475 | clearing a selection keeps prefixes, pipes and suffixes, and the rows outside of it |
| Selections.InBounds | frontend/src/app/core/editor/markdown-table.ts:423-439 | the bounds of a selection hold exactly the cells between its clamped corners, given in either order |
| Selections.KindOf | frontend/src/app/core/editor/markdown-table.ts:441-458 | the kind is the whole table if all rows and all columns are covered, rows if only all columns are, columns if only all rows are, cells otherwise |
| Selections.ClearedExactly | frontend/src/app/core/editor/markdown-table.ts:460-475 | every cell text afterwards: blank between the corners, the old one elsewhere |
| Selections.DeletedExactly | frontend/src/app/core/editor/markdown-table.ts:477-497 | refused if the whole table is covered; covered whole rows or whole columns are gone; otherwise the covered cells are blank |
| TableSorting.SortedInOrder | frontend/src/app/core/editor/markdown-table.ts:348-375 | for any consistent collation the order is sorted: earlier rows sort before later ones, blanks last, equal keys in source order |
| TableSorting.SortBodySpec | frontend/src/app/core/editor/markdown-table.ts:348-375 | the body is a permutation of the old one in which, for any two rows, the trimmed texts of the column stand in the asked direction, blanks last, equal ones in source order |
| TableFormat.FormatPreserves | frontend/src/app/core/editor/markdown-table.ts:399-421 | formatting keeps grid, alignments, column count, row prefixes, line ending and final line end, gives every row both outer pipes, and formatting the result changes nothing |
| TableFormat.FormatSource | frontend/src/app/core/editor/markdown-table.ts:399-421 | the same for every accepted source, ragged or not, in any container |
| TableFormat.FormatAligns | frontend/src/app/core/editor/markdown-table.ts:399-421 | all cells of a column, and its delimiter, are written with the same width |
| TableFormat.WidthIsLeast | frontend/src/app/core/editor/markdown-table.ts:399-421 | a width fits a column, all its texts and its delimiter marker with three dashes, if and only if it is at least the width that is used |
| TableFormat.TextThenSpaces | frontend/src/app/core/editor/markdown-table.ts:399-421 | every value is written as its text followed by nothing but spaces, up to that width |
| Delimited.ParseDelimitedText | frontend/src/app/core/editor/markdown-table.ts:855-915 | the loop over mutable rows, value and quote flags is the one-character-at-a-time scanner |
| Delimited.ContainsUnquotedDelimiter | frontend/src/app/core/editor/markdown-table.ts:917-932 | the loop finds a delimiter exactly when one stands outside of quotes |
| Delimited.ScanCell | frontend/src/app/core/editor/markdown-table.ts:848-915 | reading a written cell leaves exactly its value, whatever delimiters, quotes and line feeds it contains |
| Delimited.ParseWritten | frontend/src/app/core/editor/markdown-table.ts:499-512 | reading a written grid is valid and gives the grid back, but for a lone empty last line |
| Delimited.DelimiterSeen | frontend/src/app/core/editor/markdown-table.ts:917-932 | the second quote scanner agrees: the delimiter after a written first cell is seen as unquoted |
| Clipboard.EscapeMarkdownTableCell | frontend/src/app/core/editor/markdown-table.ts:539-555 | the loop with a backslash counter puts a backslash before exactly the pipes that are not escaped |
| Clipboard.EscapeSeals | frontend/src/app/core/editor/markdown-table.ts:539-555 | an escaped text has no unescaped pipe: it is one segment |
| Clipboard.EscapeIdempotent | frontend/src/app/core/editor/markdown-table.ts:539-555 | escaping twice is escaping once |
| Clipboard.EscapeUndoesUnescape | frontend/src/app/core/editor/markdown-table.ts:844-846 | escaping undoes unescaping on every text that can stand in a cell |
| Clipboard.BreakFound | frontend/src/app/core/editor/markdown-table.ts:844-846 | `<`, `br` in any case, white space, an optional slash and `>` are read as one break, whatever follows |
| Clipboard.BreakIs | frontend/src/app/core/editor/markdown-table.ts:844-846 | nothing else is read as a break |
| Clipboard.BreaksReturn | frontend/src/app/core/editor/markdown-table.ts:844-846 | turning line breaks into line feeds and back gives the text if and only if every break is spelled `<br>` |
| Clipboard.CellRoundTrip | frontend/src/app/core/editor/markdown-table.ts:844-942 | copying a cell and importing the value gives its text back if and only if every break is spelled `<br>` |
| Paste.ApplyMarkdownTableGrid | frontend/src/app/core/editor/markdown-table.ts:557-611 | the enlarging and writing loops compute the pasted table |
| Paste.PasteSpec | frontend/src/app/core/editor/markdown-table.ts:557-611 | the result has the maximum of old and required rows and columns, the pasted texts in the rectangle, the old texts outside of it and blanks in new cells; old alignments stay |
| Paste.PastedIsOneSegment | frontend/src/app/core/editor/markdown-table.ts:557-611 | a pasted text is one segment without a line feed, so it cannot break its row |
| RowFrames.PastedKeeps | frontend/src/app/core/editor/markdown-table.ts:557-611 | pasting changes cells of the old rows only, and new rows have the pipes and the prefix of the last one, without the list marker of the header |
| Paste.BoundsFit | frontend/src/app/core/editor/markdown-table.ts:423-439 | selection bounds always lie in the grid, in order |
| Paste.ClipboardReadsGrid | frontend/src/app/core/editor/markdown-table.ts:514-537 | text written from a grid at least two columns wide and free of carriage returns is read as tab-separated text, value by value, whether its rows are joined by `\n` or by `\r\n`, and with or without a final one |
| Paste.ClipboardReadsCommas | frontend/src/app/core/editor/markdown-table.ts:514-537 | a comma-separated grid whose rows are equally long, with at least two columns and no tab outside of quotes, is read value by value, with either line ending, and with or without a final one |
| Paste.LineEndingsIgnored | frontend/src/app/core/editor/markdown-table.ts:514-537 | lines joined and ended by `\r\n` or by `\r` are read as the same lines with `\n` |
| ClipboardReading.LinesRead | frontend/src/app/core/editor/markdown-table.ts:514-537 | lines without tabs and commas are read one cell per line, quotes included, in every line-ending style, less an empty last line |
| ClipboardReading.MisquotedRead | frontend/src/app/core/editor/markdown-table.ts:514-537 | a line with text behind a closing quote is read as it stands, although it has a comma |
| ClipboardReading.ValueBreaks | frontend/src/app/core/editor/markdown-table.ts:557-611 | a line break inside of a pasted value is written `<br>` once, in either style |
| Paste.CopyPasteTexts | frontend/src/app/core/editor/markdown-table.ts:499-611 | copying a selection and pasting it at its own corner respells the breaks of the selected cells and touches nothing else |
| Paste.CopyPasteIdentity | frontend/src/app/core/editor/markdown-table.ts:499-611 | copy and paste in place is the identity if and only if every break of the selected cells is spelled `<br>` |
| ColumnPaste.CommaReading | frontend/src/app/core/editor/markdown-table.ts:514-537 | the comma reader takes a copied column apart into the comma-separated parts of its unquoted values and the whole of its quoted ones, less an empty last line |
| ColumnPaste.ColumnReading | frontend/src/app/core/editor/markdown-table.ts:514-537 | a copied column is read as comma-separated text if and only if no value is quoted and all lines but an empty last one have the same positive number of commas, and line by line otherwise |
| ColumnPaste.QuoteNotReadBack | frontend/src/app/core/editor/markdown-table.ts:514-537 | a concrete value: a single copied quotation mark comes back as four |
| ColumnPaste.ColumnPasteIdentity | frontend/src/app/core/editor/markdown-table.ts:499-611 | copying part of one column and pasting it in place is the identity if and only if no copied value holds a tab, a quotation mark or a line break, and the copied lines do not read as comma-separated text |
| DocumentRuns.StepRefines | frontend/src/app/core/editor/markdown-table.ts:131-611 | one edit, formatting or pasting that the rows can take keeps the text a table of the language and shows the expected grid and alignments |
| DocumentRuns.SessionsRefine | frontend/src/app/core/editor/markdown-table.ts:74-611 | after any session of edits, formatting and pasting, each one parsing and printing the text, the text is a table of the language and shows what the session makes of the first view; in block quotes and list items pasted texts hold no line terminator |
| DocumentRuns.OneLineAllowed | frontend/src/app/core/editor/markdown-table.ts:643-657 | texts without line terminators can be pasted in every session |
| PlainSessions.PlainSessionsRefine | frontend/src/app/core/editor/markdown-table.ts:74-611 | where only white space stands before the rows this holds for every session, whatever is pasted |
| RowEnds.OpenEndCells | frontend/src/app/core/editor/markdown-table.ts:613-641 | of a row without a trailing pipe, in any container, all cells are read back, but for a blank last one behind other cells |
| RowEnds.LastCellKeptIff | frontend/src/app/core/editor/markdown-table.ts:613-641 | such a row keeps its number of cells if and only if its last cell is not blank or is the only one |
| RowEnds.OpenStartCells | frontend/src/app/core/editor/markdown-table.ts:613-657 | of a row without a leading pipe, whose prefix is the container part of its line, all cells are read back, but for a blank first one before other cells |
| RowEnds.FirstCellKeptIff | frontend/src/app/core/editor/markdown-table.ts:613-657 | such a row keeps its number of cells if and only if its first cell is not blank or is the only one |
| RowEnds.OpenBothCells | frontend/src/app/core/editor/markdown-table.ts:613-657 | of a row without either pipe, whose prefix is the container part of its line, all cells are read back, but for a blank first one and a blank last one beside other cells |
| RowEnds.BothCellsKeptIff | frontend/src/app/core/editor/markdown-table.ts:613-657 | such a row keeps its number of cells if and only if neither its first nor its last cell is blank, or it has one cell |
| RowEnds.BlankCellNeedsOuterPipe | frontend/src/app/core/editor/markdown-table.ts:613-641 | one such row: a blank last cell without the trailing pipe is read back as missing |
| RowEnds.BlankCellNeedsLeadingPipe | frontend/src/app/core/editor/markdown-table.ts:613-641 | one such row: a blank first cell without the leading pipe is read back as missing |
| DocumentRuns.RaggedParsesIff | frontend/src/app/core/editor/markdown-table.ts:74-120 | a ragged table can be read back if and only if header and delimiter row are equally wide |
| DocumentRuns.SetAlignmentParsesIff | frontend/src/app/core/editor/markdown-table.ts:377-397 | after setting alignments a table with outer pipes can be read back if and only if its header had all columns |
| TableLayout.LayOutCell | frontend/src/app/core/editor/markdown-editor.tables.ts:3373-3399 | the clamped offsets of a cell are: one white space at either end is structure, the rest editable; a blank cell is drawn over one of its spaces |
| TableLayout.PlaceCells | frontend/src/app/core/editor/markdown-editor.tables.ts:3369-3399 | the cursor loop puts every cell where the printed row has it and ends where the last cell ends |
| TableLayout.AppendVirtualCells | frontend/src/app/core/editor/markdown-editor.tables.ts:3400-3412 | missing cells are appended as empty cells at the end of the row |
| CaretText.MissingCell | frontend/src/app/core/editor/markdown-editor.tables.ts:3400-3412 | a data row gets a cell for every column, the delimiter row only its own ones; a missing cell stands, empty, where the cells of the row end, and never takes the caret |
| CaretText.PresentCell | frontend/src/app/core/editor/markdown-editor.tables.ts:3369-3399 | a cell of the source is laid out, with its row and column, where its text stands in the line |
| TableLayout.CollectStructure | frontend/src/app/core/editor/markdown-editor.tables.ts:3413-3422 | the loop collects the gaps before, between and after the drawn cells |
| TableLayout.BuildRowLayout | frontend/src/app/core/editor/markdown-editor.tables.ts:3361-3430 | the three loops together compute the layout of a row |
| TableLayout.StructureTiles | frontend/src/app/core/editor/markdown-editor.tables.ts:3413-3422 | every position of a line is drawn as part of a cell or structural, never both |
| TableLayout.RowStructureExact | frontend/src/app/core/editor/markdown-editor.tables.ts:3361-3430 | in every laid-out row drawn cells and structure split the line, and every separating pipe is structure |
| TableLayout.LetThroughLiesInOneCell | frontend/src/app/core/editor/markdown-editor.tables.ts:3467-3492 | a nonempty range that the protection lets through lies inside the drawn range of one cell of a data row |
| TableLayout.InsideCellIsFree | frontend/src/app/core/editor/markdown-editor.tables.ts:3475-3491 | no row protects a range inside the drawn range of a cell of a data row |
| TableLayout.ProtectionExact | frontend/src/app/core/editor/markdown-editor.tables.ts:3467-3492 | the protection lets a nonempty range of the rows through if and only if it lies inside one drawn cell and misses the terminator |
| TableLayout.FinalLineFeedNotProtected | frontend/src/app/core/editor/markdown-editor.tables.ts:3475-3491 | the line feed that ends the table is protected by no row |
| TableLayout.ProtectionExactToEnd | frontend/src/app/core/editor/markdown-editor.tables.ts:3467-3492 | the same for ranges that take the line feed that ends the table: let through if and only if the rest of the range, if any, lies inside one drawn cell and the range misses the terminator |
| DocumentLayout.PlaceRows | frontend/src/app/core/editor/markdown-editor.tables.ts:3328-3343 | the loop looks every row up on the line after the previous one |
| DocumentLayout.LayOutTable | frontend/src/app/core/editor/markdown-editor.tables.ts:3326-3354 | rows and range of a table are those of the layout function |
| DocumentLayout.TableLayoutInDocument | frontend/src/app/core/editor/markdown-editor.tables.ts:3312-3355 | a node is laid out after lines of prose were cut off; a source that does not parse has no layout |
| ProseRows.RowIffBarePipe | frontend/src/app/core/editor/markdown-editor.tables.ts:3357-3359 | a line below the delimiter row is a row of the table if and only if an unescaped pipe stands in it behind its container prefix |
| ProseRows.LaidOutLines | frontend/src/app/core/editor/markdown-editor.tables.ts:3312-3355 | in any document the layout has one row for each line of the node up to the first one, below the delimiter row, without such a pipe, and ends there |
| DocumentLayout.LayoutFaithful | frontend/src/app/core/editor/markdown-editor.tables.ts:3312-3355 | in any document every row is laid out on the line that holds its text, and the range of the layout holds exactly the printed table |
| DocumentLayout.DocumentProtectionExact | frontend/src/app/core/editor/markdown-editor.tables.ts:3312-3492 | in any document the protection lets a nonempty range of the table source through if and only if the range, apart from the line feed that ends the source, lies inside one drawn cell, and it misses the terminator |
| CellEdit.FirstSegment | frontend/src/app/core/editor/markdown-table.ts:613-668 | the text of an edited cell is read back as typed if and only if the cell is closed: no unescaped pipe and an even run of backslashes at its end |
| CellEdit.ClosedEditKeepsFrame | frontend/src/app/core/editor/markdown-editor.tables.ts:3361-3405 | a closed text is read back in its cell, trimmed, and everything else of the row is unchanged |
| CellEdit.OpenEditLeaks | frontend/src/app/core/editor/markdown-editor.tables.ts:3361-3405 | a text that is not closed is read back as something else |
| CellEdit.SpliceIsTyped | frontend/src/app/core/editor/markdown-editor.tables.ts:3373-3399 | replacing the layout range of a cell in the line replaces the text of that cell in the row |
| CellEdit.CellEditExact | frontend/src/app/core/editor/markdown-editor.tables.ts:3361-3405 | for every line with both outer pipes: replacing the layout range of a cell changes the trimmed text of that cell and no other if and only if the cell stays closed |
| ProtectedEdits.LetThroughIsPermitted | frontend/src/app/core/editor/markdown-editor.tables.ts:3076-3090 | a change that is not blocked, insertion or replacement, stays inside one cell of one data row; `ProtectedEdits.InsertionExact` and `DocumentLayout.DocumentProtectionExact` have both directions |
| ProtectedEdits.InsertionExact | frontend/src/app/core/editor/markdown-editor.tables.ts:3564-3575 | in any document, typing is blocked if and only if it is at a position of the table at which no cell of any data row takes the caret |
| ProtectedEdits.OutsideIsFree | frontend/src/app/core/editor/markdown-editor.tables.ts:3467-3492 | outside of the table a deletion or replacement is blocked if and only if it takes something of the terminator |
| CaretText.EditableExact | frontend/src/app/core/editor/markdown-editor.tables.ts:3369-3399 | a cell of the source takes the caret anywhere but right beside a pipe that white space separates from the text; a cell of one white space takes it at one place |
| CaretText.TextIsDrawn | frontend/src/app/core/editor/markdown-editor.tables.ts:3369-3399 | of a text between single spaces exactly the text is drawn, and the caret may stand in it and at both ends |
| ProtectedEdits.ChangeInCellExact | frontend/src/app/core/editor/markdown-editor.tables.ts:3361-3405 | any replacement inside the text of a cell is read as a change of that cell alone if and only if the cell stays closed |
| ProtectedEdits.LetThroughLocated | frontend/src/app/core/editor/markdown-editor.tables.ts:3076-3090 | in any document, a change that is not blocked stands inside the text of one cell of one data row, whatever it inserts |
| ProtectedEdits.LetThroughChangesOneCell | frontend/src/app/core/editor/markdown-editor.tables.ts:3564-3575 | if the change inserts no line terminator, the line of that row is read as a change of that one cell if and only if the cell stays closed |
| TableChanges.LetThroughChangesTable | frontend/src/app/core/editor/markdown-editor.tables.ts:3076-3090 | the source of the whole table then parses to the same table with that one cell changed if and only if the change inserts no line feed and the cell stays closed |
| Caret.ComputeCellOffset | frontend/src/app/core/editor/markdown-editor.tables.ts:3440-3465 | the two accumulating loops compute the offset of a cell in the printed table |
| Caret.CaretInCell | frontend/src/app/core/editor/markdown-editor.tables.ts:3253-3260 | the offset inside a cell, with text or blank of any width, or with any text between single spaces, is an editable position of its layout |
| CaretText.CaretBesideText | frontend/src/app/core/editor/markdown-editor.tables.ts:3440-3465 | the printed table splits at the caret right before, or if asked right after, the text of the requested clamped cell, or in the middle of its blanks |
| Caret.CaretLands | frontend/src/app/core/editor/markdown-editor.tables.ts:3440-3465 | for every row and column index the offset is an editable position of the clamped cell in the layout of the printed table, parsed or edited |
| PasteCaret.PastedReady | frontend/src/app/core/editor/markdown-editor.tables.ts:1194-1207 | a pasted table, which is not parsed again, has such cells, whatever white space the pasted texts carry |
| PasteCaret.CaretAfterPaste | frontend/src/app/core/editor/markdown-editor.tables.ts:1194-1207 | after pasting, the caret is in the last row and column of the pasted rectangle, which is a data cell of the new layout |
| Caret.RequestedRow | frontend/src/app/core/editor/markdown-editor.tables.ts:3446-3447 | the line is that of a data row if and only if the index is at most 0 or there is a body; it then is the requested row, clamped |
| Edits.ApplyEdits | frontend/src/app/core/editor/markdown-editor.commands.ts:898-904 | the loop applies the edits in the order of descending starts, one on the result of the other |
| Edits.SortOrderSorts | frontend/src/app/core/editor/markdown-editor.commands.ts:892-896 | the order of the edits is sorted and stable |
| Edits.FromTheRight | frontend/src/app/core/editor/markdown-editor.commands.ts:898-904 | going from the right, the result so far is the untouched text followed by the finished splice |
| Edits.ApplyIsSplice | frontend/src/app/core/editor/markdown-editor.commands.ts:898-904 | for edits in order with different starts the result is the left-to-right splice |
| Edits.EqualStartsDiffer | frontend/src/app/core/editor/markdown-editor.commands.ts:898-904 | with equal starts an insertion is partly overwritten: a concrete pair of edits |
| EditOrder.SafeIffDistinct | frontend/src/app/core/editor/markdown-editor.commands.ts:898-904 | edits at given ranges are applied as the splice for every text and all inserted texts if and only if no two start together |
| Edits.InsertedAt | frontend/src/app/core/editor/markdown-editor.commands.ts:838-863 | kept and inserted texts stand at their shifted positions in the result |
| Edits.InverseRestores | frontend/src/app/core/editor/markdown-editor.commands.ts:898-904 | the inverse edits give the text back |
| Edits.TransactionFromSelectionEdits | frontend/src/app/core/editor/markdown-editor.commands.ts:838-863 | overlaps are refused, otherwise changes are sorted and each selection is placed at the shifted start of its own edit, in the order and direction of the input |
| Edits.TransactionCoherent | frontend/src/app/core/editor/markdown-editor.commands.ts:838-863 | each returned selection covers exactly the intended slice of its own inserted text in the final document |
| Edits.TakenBack | frontend/src/app/core/editor/markdown-editor.commands.ts:838-863 | edits that take the first ones back restore the text and put the selections where the first edits started |
| Edits.MapPosition | frontend/src/app/core/editor/markdown-editor.commands.ts:906-926 | the loop shifts a position by the edits before it, to the end of an edit that holds it |
| PositionMapping.Shifted | frontend/src/app/core/editor/markdown-editor.commands.ts:906-926 | a position that no edit replaces moves by what the edits before it added and removed; an insertion at the position counts as before it |
| PositionMapping.Replaced | frontend/src/app/core/editor/markdown-editor.commands.ts:906-926 | a position in a replaced range, or at one of its ends, moves to the end of the inserted text |
| PositionMapping.EveryPosition | frontend/src/app/core/editor/markdown-editor.commands.ts:906-926 | for edits in order every position is of one of the two kinds |
| InlineToggles.ToggleInlineMarker | frontend/src/app/core/editor/markdown-editor.commands.ts:510-568 | the edits are those of the unwrap, remove-around or wrap branch, as one transaction; `MarkerToggles` says what they leave |
| MarkerToggles.MarkersToggled | frontend/src/app/core/editor/markdown-editor.commands.ts:510-568 | for several selections with different starts the text is the splice of one toggle each, and each selection covers the toggled text, in its direction: a selection loses the markers it carries, else those around it, else gets them |
| MarkerToggles.MarkersRemoved | frontend/src/app/core/editor/markdown-editor.commands.ts:510-568 | each selection that reads marker, inner text, marker is replaced by the inner text, which is selected afterwards |
| MarkerToggles.MarkersAroundRemoved | frontend/src/app/core/editor/markdown-editor.commands.ts:510-568 | markers around a selection that carries none are removed, and the same text stays selected, wherever they come from |
| MarkerToggles.MarkersGone | frontend/src/app/core/editor/markdown-editor.commands.ts:510-568 | for one selection: left, marker, inner, marker, right becomes left, inner, right, whether the markers are selected or not |
| InlineToggles.WrapUndone | frontend/src/app/core/editor/markdown-editor.commands.ts:510-568 | if every one of several selections with different starts takes the wrap branch, toggling again restores text and selections |
| InlineToggles.FindSurroundingInlineCode | frontend/src/app/core/editor/markdown-editor.commands.ts:968-997 | the counting loops find a fence exactly when equally many backticks, possibly behind one space, stand on both sides |
| CodeFences.FenceFound | frontend/src/app/core/editor/markdown-editor.commands.ts:968-997 | backticks, equally many on both sides and no more, directly or behind one space, are found as the fence |
| CodeFences.FenceIs | frontend/src/app/core/editor/markdown-editor.commands.ts:968-997 | nothing else is found |
| InlineToggles.LongestRunBounds | frontend/src/app/core/editor/markdown-editor.commands.ts:1024-1026 | no stretch of backticks is longer than the longest run |
| InlineToggles.FenceDelimits | frontend/src/app/core/editor/markdown-editor.commands.ts:570-610 | opening and closing fence are runs of their own and no other run of the code span has their length (section 6.1 of CommonMark 0.31.2) |
| CodeFences.FenceIsShortest | frontend/src/app/core/editor/markdown-editor.commands.ts:570-610 | the fence is the shortest one longer than every run of backticks in the text, with spaces exactly if the text starts or ends with a backtick |
| InlineToggles.ToggleInlineCode | frontend/src/app/core/editor/markdown-editor.commands.ts:570-610 | the edits are those of the unwrap or wrap branch, as one transaction |
| CodeFences.CodeToggled | frontend/src/app/core/editor/markdown-editor.commands.ts:570-610 | for several selections with different starts the text is the splice of one toggle each, a fence around a selection is removed, else the shortest fitting one is put around it, and the same texts stay selected |
| CodeToggles.CleanIffApart | frontend/src/app/core/editor/markdown-editor.commands.ts:570-610 | after fencing several selections no backtick stands next to an inserted fence if and only if none stood next to a selection and no two selections touched |
| CodeToggles.SameRanks | frontend/src/app/core/editor/markdown-editor.commands.ts:838-863 | unless the second toggle is refused it makes its edits in the order of the first one |
| CodeToggles.TogglesTwice | frontend/src/app/core/editor/markdown-editor.commands.ts:570-610 | for any number of selections with different starts, none with a fence around it, toggling again is not refused and restores text and selections if and only if no backtick stands next to a selection and no two selections touch |
| Indentation.FirstLineStartIs | frontend/src/app/core/editor/markdown-editor.commands.ts:936-950 | the first selected line is the line of the selection start, except that an empty first line of the document is skipped |
| Indentation.CollectStarts | frontend/src/app/core/editor/markdown-editor.commands.ts:944-958 | the loop visits exactly the line starts between the first line and the end of the selection |
| Indentation.FindSelectedLines | frontend/src/app/core/editor/markdown-editor.commands.ts:936-966 | the lines of all selections, each once, in order |
| IndentRules.SelectedExactly | frontend/src/app/core/editor/markdown-editor.commands.ts:936-966 | a line is selected if and only if some selection starts on it, unless it is an empty first line, or has its start strictly inside |
| Indentation.IndentMarkdownLines | frontend/src/app/core/editor/markdown-editor.commands.ts:396-420 | the edits of the selected lines with all selections mapped, or nothing if there is nothing to do |
| IndentRules.IndentExact | frontend/src/app/core/editor/markdown-editor.commands.ts:396-420 | indenting more inserts two spaces at the start of each selected line and changes nothing else |
| IndentRules.OutdentExact | frontend/src/app/core/editor/markdown-editor.commands.ts:396-420 | indenting less takes two spaces, a single space or a tab from each selected line that starts with one, changes nothing else, and does nothing if there is none |
| Indentation.SameLinesSelected | frontend/src/app/core/editor/markdown-editor.commands.ts:936-966 | after indenting, the mapped selections select exactly the same lines |
| Indentation.IndentMoves | frontend/src/app/core/editor/markdown-editor.commands.ts:865-877 | indenting moves every selection behind the indentation of its line and is never refused |
| Indentation.IndentThenOutdent | frontend/src/app/core/editor/markdown-editor.commands.ts:396-420 | indent more and then indent less restores the document and every selection, for any set of selections |
| KnowledgeFiles.StepKeepsInvariant | backend/src/infra/ioc/prodivers/database_provider.py:25-48 | every step of a request, commit, rollback or clean-up keeps the invariant that ties rows and action lists together |
| KnowledgeFiles.CommittedRowsDangleIff | backend/src/infra/ioc/prodivers/database_provider.py:25-48 | at every point of every run the object of a committed row exists if and only if no action list deleted it as the object of a committed row |
| KnowledgeFiles.CommittedRowsNeverDangle | backend/src/core/knowledge/files/services.py:82-89 | it always exists, whichever step fails, if no commit raises after making rows permanent whose objects are registered for rollback |
| KnowledgeFiles.UnsafeCommitDangles | backend/src/infra/ioc/prodivers/database_provider.py:39-46 | for every object of the rollback list whose row such a commit made permanent: once the rollback actions have come to it, the committed row is without its object |
| KnowledgeFiles.UnsafeCommitNeeded | backend/src/infra/ioc/prodivers/database_provider.py:39-46 | the condition is needed: after every run that comes to a commit that is not safe, raising there and rolling back can leave a committed row without its object |
| KnowledgeFiles.CreatedFileDangles | backend/src/infra/ioc/prodivers/database_provider.py:25-48 | a concrete run: one file is created, its commit takes effect and raises, and its committed row is left without its object |
| KnowledgeFiles.OnlyIssuedLeftOver | backend/src/core/knowledge/files/services.py:82-89 | only names that were issued are ever stored |
| KnowledgeFiles.UploadLeftOver | backend/src/core/knowledge/files/services.py:82-89 | an upload that raises after storing its object leaves it behind: a concrete run |
| KnowledgeFiles.RunKeepsLinked | backend/src/infra/postgresql/storages/files.py:209-215 | committed files and links have the same ids, in every run; in the open transaction every link has its file, so the foreign key never fails |
| FileRequests.FileCreated | backend/src/core/knowledge/files/services.py:82-89 | from any idle state a file with a new name and free keys can be created, and then exactly its row, its link and its object are added |
| FileRequests.FailureLeavesNothing | backend/src/infra/ioc/prodivers/database_provider.py:25-48 | a creation that fails after its object was stored leaves rows, links and objects as they were |
| FileRequests.FileRemoved | backend/src/core/knowledge/files/services.py:115-130 | every file of an item can be removed, and then exactly its row, its link and its object are gone |
| FileRequests.RemovalUndoesCreation | backend/src/core/knowledge/files/use_cases.py:133-161 | after any run that ended, creating a file and removing it restores rows, links and objects |
| FileRequests.RunKeepsPhotos | backend/src/infra/postgresql/models/knowledge/files.py:53-59 | in every run an item has at most one photo, in what is committed and in what the transaction sees |
| LeftOverObjects.LeftOverExact | backend/src/infra/ioc/prodivers/database_provider.py:25-48 | after each finished request the objects beyond those of committed rows are exactly the lost ones (stored by an upload that raised, not deleted in their turn, scheduled when the clean-up was cut short, or removed by a commit that took effect and raised), and the rows without object exactly those whose object is gone |
| LeftOverObjects.NothingLeftOver | backend/src/infra/ioc/prodivers/database_provider.py:25-48 | when uploads and commits fail without a trace and deletions succeed, the stored objects are exactly those of the committed rows |
| KnowledgeFiles.Store.CreateFile | backend/src/core/knowledge/files/services.py:82-89 | row, upload, registration in this order; the exact state after success and after each failure |
| KnowledgeFiles.Store.DeleteFile | backend/src/core/knowledge/files/services.py:115-130 | link and row are removed and the path returned, objects untouched; any failure leaves the request failed |
| KnowledgeFiles.Store.DeleteFiles | backend/src/core/knowledge/files/services.py:132-138 | all listed rows are removed and their paths collected, until one fails |
| KnowledgeFiles.Store.RunActions | backend/src/infra/s3/clients.py:268-284 | the action list is run to the end, failing deletions are passed over |
| KnowledgeFiles.Store.CommitSession | backend/src/infra/ioc/prodivers/database_provider.py:39-48 | the commit makes the rows permanent, or raises with or without having done so |
| KnowledgeFiles.Store.RollBack | backend/src/infra/ioc/prodivers/database_provider.py:33-37 | the transaction is dropped and then the objects stored by the request are deleted, but for failing deletions |
| KnowledgeFiles.Store.EndRequest | backend/src/infra/ioc/prodivers/database_provider.py:25-48 | commit and then post-commit deletions, or rollback and then deletion of new objects, also when a commit that raised took effect |
| KnowledgeFiles.Store.DeleteItemFile | backend/src/core/knowledge/files/use_cases.py:133-161 | a whole request: it removes exactly the file and, after the commit, its object, or changes nothing; no further row loses its object |
| KnowledgeFiles.Store.SwapPhoto | backend/src/core/knowledge/files/use_cases.py:57-99 | the handler: old row removed, new row and object added, in this order, or a failed request |
| KnowledgeFiles.Store.ReplacePersonPhoto | backend/src/core/knowledge/files/use_cases.py:57-99 | a whole request: old photo removed and new one added in one transaction, or the committed rows unchanged; only a commit that takes effect and raises can leave a row without its object, the new one |
| MediaFiles.RunKeeps | backend/src/core/files/services.py:35-90 | after any run orphaned_at is null exactly for used files, uses have rows, and no two rows share namespace, purpose and content |
| UploadEffects.ContentReused | backend/src/core/files/services.py:35-60 | an upload of content that is there, with the same namespace, purpose and checksum, keeps its row and gives it a new orphan time if it had one; nothing else changes |
| UploadEffects.ContentAdded | backend/src/core/files/services.py:60-90 | an upload of other content adds exactly one unused row with its object; if a key is taken nothing changes, and if it raises at most the object is added |
| MediaFiles.UsesChanged | backend/src/core/files/services.py:168-191 | after a change the user uses exactly the given files and all others what they used; it is refused if and only if a file is not there |
| MediaFiles.UsesKept | backend/src/core/files/services.py:35-249 | no other event changes what is used |
| Namespaces.NamespacesApart | backend/src/core/files/services.py:35-249 | whatever happens in one namespace, the rows, uses and objects of another one stay as they are |
| MediaFiles.UsedNeverRemoved | backend/src/core/files/services.py:211-249 | no step removes a used file or changes its content |
| MediaFiles.NotPrunedEarly | backend/src/infra/postgresql/storages/files.py:187-207 | a clean-up removes a file only when its last upload, repeated upload or detach lies more than the retention period back |
| MediaFiles.CandidatesUnused | backend/src/infra/postgresql/storages/files.py:187-207 | no candidate of a clean-up is used |
| MediaFiles.ListOrphans | backend/src/infra/postgresql/storages/files.py:187-207 | the candidates are the oldest orphans before the cutoff, oldest first, ties by id, at most the batch size |
| UploadEffects.CleanupOrder | backend/src/infra/postgresql/storages/files.py:187-207 | a candidate was orphaned earlier than every later or omitted one, or at the same time with a smaller id, compared at the first difference; a file is omitted only if the batch is full |
| MediaFiles.InterruptedDeletionDangles | backend/src/core/files/services.py:138-159 | a deletion that stops between object and commit leaves a row that a later upload finds and a user can use without an object: a concrete run |
| MissingObjects.MissingExact | backend/src/core/files/services.py:138-159 | in every reachable state the rows without an object are exactly those that an interrupted deletion, a deletion that raised after it took effect, in a request or a clean-up, or an uncommitted clean-up emptied and that are still there |
| MissingObjects.RowsHaveObjects | backend/src/core/files/services.py:35-90 | if no deletion is interrupted or raises after it took effect, and every clean-up commits, every row has its object |
| SurplusObjects.SurplusExact | backend/src/core/files/services.py:35-90 | in every reachable state the objects without a row are exactly those that an upload left when it raised after storing them; the object of a deleted or pruned row is gone |
| SurplusObjects.DeletedWithObject | backend/src/core/files/services.py:138-159 | a file that nothing uses is deleted together with its object, and with nothing else |
| SurplusObjects.ObjectsAreRows | backend/src/core/files/services.py:35-249 | in every run without failures the stored objects are exactly those of the rows |
| MediaFiles.Service.UploadFile | backend/src/core/files/services.py:35-90 | equal content is found again and its orphan time refreshed, otherwise a new row and object; the state is that of the upload step |
| MediaFiles.Service.SyncFileUsages | backend/src/core/files/services.py:168-191 | attached files lose their orphan time, detached ones get it if nothing uses them |
| MediaFiles.Service.DeleteFile | backend/src/core/files/services.py:138-159 | refused while the file of that namespace is used, not found for another namespace, otherwise object first and row second; the state is that of the deletion step |
| MediaFiles.Service.ChangeFileUses | backend/src/core/files/services.py:168-191 | a change of the files that a user uses, with their orphan times; the state is that of the change step |
| MediaFiles.Service.PruneCandidate | backend/src/core/files/services.py:220-242 | one candidate is repaired and skipped if it is used, kept if its deletion raises, with or without its object, and removed otherwise |
| MediaFiles.Service.PruneCandidates | backend/src/core/files/services.py:217-242 | the counts add up to the candidates, and the deleted count is the number of removed rows |
| MediaFiles.Service.PruneOrphans | backend/src/core/files/services.py:211-249 | deleted, failed and skipped add up to scanned, nothing is skipped, and the rows shrink by the deleted count if the clean-up commits |
| UploadQueue.StepKeeps | frontend/src/app/core/editor/markdown-editor.component.ts:975-1049 | queueing, completion, late failure, retry, dismissal and editing keep the order of the queue and of the images |
| UploadQueue.RunKeeps | frontend/src/app/core/editor/markdown-editor.component.ts:975-1049 | so does every run |
| UploadQueue.OnlyHeadNotQueued | frontend/src/app/core/editor/markdown-editor.component.ts:1000-1015 | in every reachable state at most one upload is not queued, and it is the head of the list |
| UploadQueue.ImagesInQueueOrder | frontend/src/app/core/editor/markdown-editor.component.ts:732-740 | images queued together stand in the document in queue order, whatever is typed in between |
| UploadQueue.RemainingImagesFollow | frontend/src/app/core/editor/markdown-editor.component.ts:732-740 | images already inserted stand before the place where the rest of their batch will be inserted |
| UploadProgress.QueueGoesOn | frontend/src/app/core/editor/markdown-editor.component.ts:1003-1047 | while uploading stays enabled, in every reachable state the first upload does not wait: it is being sent, with its request open, or it failed |
| UploadProgress.StepMovesIff | frontend/src/app/core/editor/markdown-editor.component.ts:611-1047 | from such a state an event leads to another one if and only if it does not end the head while uploading is disabled and others wait |
| UploadProgress.EnablingDoesNotResume | frontend/src/app/core/editor/markdown-editor.component.ts:1003-1006 | such a wait is not over when uploading is enabled again: a concrete run |
| UploadProgress.ImageInserted | frontend/src/app/core/editor/markdown-editor.component.ts:1024-1043 | an upload that arrives puts its text at its anchor and leaves the list; the others keep their order and numbers, and their places in the old text |
| UploadProgress.FailedStays | frontend/src/app/core/editor/markdown-editor.component.ts:1044-1049 | an upload that fails stays in its place, marked as failed, and nothing else is sent |
| UploadProgress.RetriedIsSent | frontend/src/app/core/editor/markdown-editor.component.ts:611-620 | a failed upload that is tried again is sent again from its place |
| UploadProgress.DismissedIgnored | frontend/src/app/core/editor/markdown-editor.component.ts:1024-1049 | the end of a dismissed upload changes neither text nor list |
| UploadProgress.DismissedOnly | frontend/src/app/core/editor/markdown-editor.component.ts:622-626 | dismissing removes that upload from the list and leaves the text and the others |
| UploadProgress.QueuedBehind | frontend/src/app/core/editor/markdown-editor.component.ts:975-1001 | exactly as many uploads as files are accepted are appended, for the given place; every file takes a number, the images the last ones, in order |
| UploadProgress.TextReplaced | frontend/src/app/core/editor/markdown-editor.component.ts:732-740 | typing replaces exactly the selected text, keeps list and requests, and maps every anchor |
| UploadProgress.MappedAnchor | frontend/src/app/core/editor/markdown-editor.component.ts:732-740 | a change that does not touch an anchor keeps the text before it, or behind it; one that does moves it behind the inserted text |
| UploadQueue.Uploads.ProcessNextUpload | frontend/src/app/core/editor/markdown-editor.component.ts:1003-1020 | nothing happens while an upload is sent or failed, otherwise the first queued one is sent |
| UploadQueue.Uploads.QueueImageUploads | frontend/src/app/core/editor/markdown-editor.component.ts:975-1001 | accepted files are appended with fresh numbers and the queue goes on |
| UploadQueue.Uploads.RetryUpload | frontend/src/app/core/editor/markdown-editor.component.ts:611-620 | the upload is queued again and the queue goes on |
| UploadQueue.Uploads.DismissUpload | frontend/src/app/core/editor/markdown-editor.component.ts:622-626 | the upload leaves the list and the queue goes on |
| UploadQueue.Uploads.OnUploaded | frontend/src/app/core/editor/markdown-editor.component.ts:1024-1043 | the image is inserted at the mapped anchor unless the upload was dismissed, and the queue goes on, which `UploadProgress.QueueGoesOn` states over whole runs |
| UploadQueue.Uploads.OnFailed | frontend/src/app/core/editor/markdown-editor.component.ts:1044-1047 | the upload is marked as failed |
| UploadQueue.Uploads.EditText | frontend/src/app/core/editor/markdown-editor.component.ts:732-740 | an edit maps the anchors of all uploads |
| SeedKeys.PairKeysDistinct | backend/performance/query_plans/seed.py:38-55 | item-tag and date-person keys are distinct if and only if there are no more links than pairs |
| SeedKeys.PairsInRounds | backend/performance/query_plans/seed.py:38-55 | the first round joins the things on the left, one after the other, with those on the right in turn, and each further round joins everything with the next thing on the right |
| SeedKeys.RelationshipKeysGood | backend/performance/query_plans/seed.py:22-68 | relationship keys never repeat a pair and never join a person to themselves if and only if twice their number is at most people times people less one |
| SeedKeys.RelationshipsInRounds | backend/performance/query_plans/seed.py:22-68 | each round joins every person with the one some places further round the circle, first the next one, then the one after that; types are used in turn |
| SeedKeys.RoundsSuffice | backend/performance/query_plans/seed.py:22-68 | both hold when twice the rounds, rounded up, are fewer than the people |

## Left out

- CodeMirror, DOM, focus, scrolling, decorations, pointer and clipboard events: user interface over libraries. The source range of a table node is given; the document has line feeds only, as CodeMirror keeps it.
- The candidate-table test while no syntax tree is available (`selectionTouchesCandidateMarkdownTable`), and the computation of the terminator range: the terminator is a parameter.
- Surrogate pairs: a `char` stands for one code unit. No property depends on how a pair is split.
- Indices that are no integers: `normalizedIndices` filters them out; here an index is an `int`.
- `Intl.Collator`: a parameter of sorting. Only `TableSorting.SortedInOrder` and `TableSorting.SortBodySpec` ask it to be a total preorder.
- Regular expressions in general: the patterns of delimiter cells, containers, breaks, white space and indentation are written out as scanners.
- `toggleLinePrefix`, `continueMarkdownBlockTransaction`, code blocks, links, rules, table insertion and fence closing: they build edits for the same transaction functions and would add easier members.
- `mapPosition` with association -1: no caller uses it.
- CodeMirror position mapping through several changes at once: the upload queue maps an anchor through one replacement at a time, and counts an insertion at the anchor as before it.
- Edits.TransactionCoherent: asks for different starts; with equal starts `applyEdits` itself is not the splice, which `EditOrder.SafeIffDistinct` makes exact.
- InlineToggles.WrapUndone: asks for different starts for the same reason.
- MarkerToggles.MarkersToggled: asks for different starts and no overlap for the same reason.
- CodeFences.CodeToggled: asks for different starts and no overlap for the same reason.
- ContainerRules.ListPrefixRead: asks that the rest of the line holds no line terminator, as `OneLine` says; the pattern of the source does not match a prefix before one.
- Paste.ClipboardReadsGrid: asks for values without carriage returns, which the reader turns into line feeds.
- DocumentRuns.SessionsRefine: in a block quote or list item, pasted texts must not hold a carriage return, U+2028 or U+2029; such a character hides the prefix from the pattern that finds it. Elsewhere nothing is asked (`PlainSessions.PlainSessionsRefine`).
- Paste.CopyPasteIdentity: asks for two columns, since a single column is not read as tab-separated text (`ColumnPaste.ColumnPasteIdentity` has its condition), and for texts without carriage returns, which the reader turns into line feeds.
- ColumnPaste.ColumnPasteIdentity: asks for texts without carriage returns for the same reason.
- CodeToggles.TogglesTwice: asks for different starts, as `InlineToggles.WrapUndone` does.
- DocumentRuns.StepText: a delete-selection of the whole table leaves the text as it is, while `deleteSelectedRange` (`markdown-editor.tables.ts`, lines 2633-2642) removes the table from the document.
- ProtectedEdits.LetThroughChangesOneCell: asks that no line terminator is inserted, since it speaks of one line; `TableChanges.LetThroughChangesTable` has the other case.
- DocumentLayout.LayoutFaithful: asks for a document without carriage returns, as CodeMirror keeps it, and a node that ends at a line end.
- TableChanges.LetThroughChangesTable: asks for both outer pipes, for an inserted text without carriage returns, which CodeMirror turns into line feeds, and in a block quote or list item without U+2028 or U+2029.
- Caret.CaretLands: asks for a rectangular table with both outer pipes, since a blank cell without them is read back as missing (`RowEnds.LastCellKeptIff`).
- RowEnds.FirstCellKeptIff: asks that the prefix is the container part of the line, since otherwise the first cell is read as part of the prefix, whatever it holds.
- Database concurrency: requests of each protocol run one after the other; locks are not modelled.
- A process that dies while a commit is under way is modelled as dying before or after the commit.
- Fresh names: object names and row ids of new files are assumed not to have been issued before.
- The branch of `delete_file` that keeps a row with other usages: a knowledge file has one usage row, keyed by the file id, so it never runs.
- Media-file callers: each change of uses is one step together with `sync_file_usages`.
- MIME rules, image processing, validation, names, sizes and time stamps other than `orphaned_at` of stored files: copied fields.
- Permission and capability checks of the upload queue are one switch; an editor view that was destroyed is not modelled.
- Calendar, people and dates use cases, routes, exports, authentication and infrastructure scripts.
