# clicsv grid engine in Dafny

This project models the in-memory core of clicsv, a terminal CSV editor. The
model covers three parts of the editor:

- **The table (`src/table.rs`).** A table is a flat list of cells. Each cell
  has its text, a cached width, a 1-based column `x_loc` and row `y_loc`, and
  a selection flag. `Table::from` splits text into lines at newlines and each
  line into fields at plain commas. It does no quoting. Each field becomes a
  cell holding the field followed by one space.
- **The document (`src/document.rs`).** This covers:
  - row extraction that fills gaps (`get_row`);
  - append-only growth by one row or one column (`insert_newrow`,
    `insert_newcol`);
  - point and additive selection (`highlight`, `multi_highlight`);
  - copying the selection;
  - in-place overwrite (`insert`, `delete`);
  - `paste`, which re-anchors the clipboard and records an undo snapshot in
    `last_action`;
  - the single-level `undo`;
  - the row serialisation and file-name remapping of `save`.
- **The viewport (`src/editor.rs`).** This covers:
  - focus movement (`move_position`) and the scroll offset (`scroll`);
  - the ray selection helpers `highlight_row` and `highlight_col`;
  - the normalisation after every key press (grow, clamp to 1, select);
  - the column-letter function `num_to_let`.

## How the model is built

**Modules**

| module | file | contents |
|---|---|---|
| `Cells` | cells.dfy | positions and cells |
| `Text` | text.dfy | `str::lines`, the comma split and join, UTF-8 byte length |
| `Tables` | table.dfy | the `Table` class and the scan functions it is proved against |
| `Edits` | edits.dfy | reference definitions of the in-place rewrites and of table growth |
| `Clipboard` | clipboard.dfy | copy, paste and undo as values |
| `Persist` | persist.dfy | what `save` writes |
| `Documents` | document.dfy | the `Document` class |
| `Editors` | editor.dfy | the `Editor` class and the viewport functions |

**Shape of the model**

- The source's loops are Dafny methods with loop invariants. Each is proved
  against a recursive or pointwise function.
- The properties the source promises are lemmas about those functions.
- `Table`, `Document` and `Editor` are classes whose methods update their
  fields in place, as the Rust methods do.

**Widths and integers**

- The terminal display width of a text comes from a Unicode width library.
  In the model it is the parameter `measure`, carried by the table.
- `edit_content` uses the UTF-8 byte length instead, and the model computes
  that length exactly.
- Positions are `usize`:
  - `saturating_add` is modelled exactly against 2^64;
  - `saturating_sub` is modelled exactly;
  - PageDown's `num_rows - 2` is modelled as the wrap-around a release build
    performs.

**Quirks modelled as written**

- `insert` never creates a missing cell.
- New rows are filled with `""` but new columns with `" "`.
- `save` appends a cell's text and then pops one character. For a `""`
  cell that pop removes the comma written before it, so a grown row that
  was never filled is written as an empty line (see "## Findings").
- `undo` (src/document.rs:269-280) leaves `last_action` in place, so a
  second undo writes the same texts again.
- `delete` (src/document.rs:331-341) does not touch `last_action`. The key
  dispatch records the selection before calling it (src/editor.rs:229-232),
  and that dispatch is left out. `DeleteThenUndo` proves that writing the
  recorded selection back over a delete restores the table.
- `Document::default` (src/document.rs:28-42) starts with `saved == false`.
- `highlight_row` returns early only when `start < 1 && end > num_rows`.
  `highlight_col` uses `||` and compares against `num_cols + 1`.
- `paste` moves one column right or one row down per entry and never resets
  the column.

## Model

| member | source | states |
|---|---|---|
| Text.Utf8LenAtLeastLength | src/table.rs:42-45 | The byte length `edit_content` stores is at least the character count, and equals it for ASCII text |
| Text.Utf8Len | src/table.rs:42-45 | `String::len`: the UTF-8 byte length, summed per character; its bounds are stated in `Utf8LenAtLeastLength` |
| Text.Lines | src/table.rs:75 | `str::lines` yields lines without newlines, and no lines exactly for empty text |
| Text.Fields | src/table.rs:82-96 | The fields the comma scan emits for one line; `FieldsCount`, `FieldsHaveNoComma`, `JoinFields` and `FieldsOfJoin` characterise them |
| Text.FieldsCount | src/table.rs:82-96 | A line with n commas splits into n + 1 fields, so the cells of row k are numbered 1 to n + 1 |
| Text.FieldsHaveNoComma | src/table.rs:84-96 | No field produced by the comma scan contains a comma |
| Text.JoinFields | src/table.rs:82-96 | Splitting a line at commas and joining the fields with commas gives back the line; every line has at least one field |
| Text.FieldsOfJoin | src/document.rs:364-372 | Joining comma-free fields with commas and splitting again gives back the fields |
| Text.LastIndexOf | src/document.rs:351 | `rfind` returns -1 or an index holding the character, with no later occurrence |
| Text.DropLast | src/document.rs:368-372 | `String::pop` with the popped character discarded; `DropLastRestores` states it |
| Text.DropLastRestores | src/document.rs:368-372 | `pop` removes exactly the last character and leaves empty text empty |
| Text.StripCR | src/table.rs:75 | The carriage-return rule of `str::lines`; `StripCRPrefix` states it |
| Text.StripCRPrefix | src/table.rs:75 | At most one trailing `'\r'` is removed, exactly when the line ends in one, and nothing else changes |
| Cells.EditContent | src/table.rs:42-45 | `edit_content` sets the text and sets the width to its UTF-8 byte length, keeping place and flag |
| Cells.FromText | src/table.rs:14-36 | `Cell::from`: the text with its display width from `measure`, at (0, 0), unselected; unlike `edit_content` it does not use the byte length |
| Cells.Highlight | src/table.rs:46-48 | `highlight` sets the flag and nothing else |
| Cells.Unhighlight | src/table.rs:49-51 | `unhighlight` clears the flag and nothing else |
| Tables.NumRowsOf | src/table.rs:162-170 | `num_rows` of an empty table is 0 |
| Tables.NumColsOf | src/table.rs:173-181 | `num_cols` of an empty table is 0 |
| Tables.NumRowsOfBounds | src/table.rs:162-170 | `num_rows` bounds every cell's row and is the row of some cell when there is one |
| Tables.NumColsOfBounds | src/table.rs:173-181 | `num_cols` bounds every cell's column and is the column of some cell when there is one |
| Tables.ColumnWidthOfBounds | src/table.rs:120-130 | `column_width(x)` is at least every width in column x, equals one of them, and is 0 for an empty column |
| Tables.ColumnWidthOf | src/table.rs:120-130 | The widest cell of a column over a cell sequence; `ColumnWidthOfBounds` states it |
| Tables.WidestOf | src/table.rs:91-93 | The running `widest_cell_length` over a cell sequence; `WidestOfBounds` states it |
| Tables.WidestOfBounds | src/table.rs:91-93 | The widest cell length bounds every cell width and is reached by one cell |
| Tables.FirstAt | src/table.rs:137-144 | The lookup index is the first cell at the position, or the length when none is there |
| Tables.ContentAt | src/table.rs:137-144 | `get_content_from` returns the text of a cell at the position, or "" when there is none |
| Tables.SamePlacesLookup | src/document.rs:225-247 | A rewrite that keeps every cell's coordinate keeps which coordinates hold a cell and which cell comes first |
| Tables.SamePlacesExtent | src/table.rs:162-181 | A rewrite that keeps every cell's coordinate keeps `num_rows` and `num_cols` |
| Tables.SamePlacesKeepShape | src/document.rs:225-247 | Coordinate-preserving rewrites keep coordinates distinct and 1-based, and keep a dense grid dense |
| Tables.RowCells | src/table.rs:84-96 | Line y yields one cell per field, the i-th at column i + 1 on row y, holding the field plus " " |
| Tables.ParsedCells | src/table.rs:75-97 | The cells `Table::from` builds, line by line; the `ParsedCells...` lemmas state their content, order, completeness and rows |
| Tables.LongestLine | src/table.rs:79-81 | `width_sum` after `Table::from` is at least the byte length of every line, is the byte length of one of them, and is 0 for text without lines |
| Tables.ParsedCellsContent | src/table.rs:75-97 | Every parsed cell is on an existing line, in a column that line has, holds that field plus one space with the measured width, and is not selected |
| Tables.ParsedCellsOrdered | src/table.rs:75-97 | Parsed cells come in strict row-major order: lines in order, fields in ascending column |
| Tables.ParsedCellsComplete | src/table.rs:75-97 | Every field of every line is present at its coordinate |
| Tables.ParsedCellsRows | src/table.rs:75-97 | The parsed table has exactly as many rows as the text has lines |
| Tables.ParsedCellsWellPlaced | src/table.rs:75-97 | Parsed coordinates are 1-based and pairwise distinct |
| Tables.ScanLine | src/table.rs:83-97 | The inner scan of one line appends exactly that line's cells and keeps the count and the widest width |
| Tables.Table.New | src/table.rs:109-117 | `Table::new` has no cells and zero counters |
| Tables.Table.From | src/table.rs:67-105 | `Table::from` builds the parsed cells, counts them, keeps the widest cell width, and keeps the longest line's byte length in `width_sum` |
| Tables.Table.ColumnWidth | src/table.rs:120-130 | The scan returns the column width its bounds lemma describes |
| Tables.Table.GetContentFrom | src/table.rs:137-144 | The scan returns the text of the first cell at the position, or "" |
| Tables.Table.Add | src/table.rs:147-154 | `add` appends the cell, adds 1 to `cell_count` and its width to `width_sum`, and keeps the maximum width |
| Tables.Table.NumRows | src/table.rs:162-170 | The scan returns the largest row index |
| Tables.Table.NumCols | src/table.rs:173-181 | The scan returns the largest column index |
| Tables.ExtentAfterAppend | src/table.rs:147-154 | After `add`, each extent is the larger of the old extent and the new cell's coordinate |
| Edits.HighlightedCells | src/document.rs:225-236 | `highlight(at)` keeps count, order, places, texts and widths, and selects a cell exactly when it is at `at` |
| Edits.MultiHighlightedCells | src/document.rs:238-247 | `multi_highlight(at)` selects the cells at `at`, keeps every other flag, and keeps texts, widths and places |
| Edits.Highlighted | src/document.rs:225-236 | The cells `highlight` rebuilds, one per old cell; `HighlightedCells` states them |
| Edits.MultiHighlighted | src/document.rs:238-247 | The cells `multi_highlight` rebuilds, one per old cell; `MultiHighlightedCells` states them |
| Edits.Inserted | src/document.rs:314-329 | The cells `insert` rebuilds, one per old cell; `InsertedCells` states them |
| Edits.Deleted | src/document.rs:331-341 | The cells `delete` rebuilds, one per old cell; `DeletedCells` states them |
| Edits.HighlightSelectsExactly | src/document.rs:225-236 | After `highlight(at)` a cell is selected if and only if it is at `at` |
| Edits.InsertedCells | src/document.rs:314-329 | `insert(at, s)` replaces each cell at `at` with an unselected cell holding `s` at the same place, leaves the rest, and creates no cell |
| Edits.DeletedCells | src/document.rs:331-341 | `delete` gives every selected cell the text " " with byte width 1, and leaves unselected cells identical |
| Edits.ContentAfterInsert | src/document.rs:314-329 | After `insert(at, s)` position `at` reads `s` if a cell was there, every other position reads as before, and no position gains a cell |
| Edits.ContentAfterDelete | src/document.rs:331-341 | After `delete` a selected cell reads " " and every other position reads as before |
| Edits.NewRow | src/document.rs:199-204 | The added row has one `""` cell per column, at columns 1 to n |
| Edits.NewCol | src/document.rs:213-218 | The added column has one `" "` cell per row, at rows 1 to n |
| Edits.FillerRow | src/document.rs:199-204 | A row of one cell per column at columns 1 to n, all holding the same filler: `""` as `insert_newrow` writes it, `" "` as it evidently means, the filler new columns get (src/document.rs:213-218) |
| Edits.GrownRow | src/document.rs:197-209 | `insert_newrow` on a cell sequence; `GrownRowExtent`, `GrownRowContent` and the keep lemmas state it |
| Edits.GrownCol | src/document.rs:211-223 | `insert_newcol` on a cell sequence; `GrownColExtent`, `GrownColContent` and the keep lemmas state it |
| Edits.ExtentOfConcat | src/table.rs:162-181 | The extent of two cell runs together is the larger of their extents |
| Edits.GrownRowExtent | src/document.rs:197-209 | Row growth changes nothing unless the focus is on row `num_rows + 1`, keeps `num_cols`, and otherwise adds exactly one row |
| Edits.GrownRowContent | src/document.rs:197-209 | The grown row holds a cell at every column, and each reads "" |
| Edits.GrownColExtent | src/document.rs:211-223 | Column growth changes nothing unless the focus is on column `num_cols + 1`, keeps `num_rows`, and otherwise adds exactly one column |
| Edits.GrownColContent | src/document.rs:211-223 | The grown column holds a cell at every row, and each reads " " |
| Edits.GrownRowKeepsDense | src/document.rs:197-209 | Row growth keeps a dense grid dense |
| Edits.GrownColKeepsDense | src/document.rs:211-223 | Column growth keeps a dense grid dense |
| Edits.GrownRowKeepsPlaces | src/document.rs:197-209 | Row growth keeps coordinates 1-based and distinct |
| Edits.GrownColKeepsPlaces | src/document.rs:211-223 | Column growth keeps coordinates 1-based and distinct |
| Clipboard.Selected | src/document.rs:249-267 | The clipboard is no longer than the table and holds only selected cells |
| Clipboard.SelectedMembers | src/document.rs:249-267 | A cell is on the clipboard if and only if it is a selected cell of the table |
| Clipboard.SelectedConcat | src/document.rs:249-267 | Copy distributes over concatenation, so the clipboard keeps table order |
| Clipboard.SelectedOrdered | src/document.rs:249-267 | Copying from a row-major table gives a row-major clipboard |
| Clipboard.SelectedAfterHighlight | src/document.rs:225-267 | After `highlight(at)` on distinct coordinates, the clipboard is exactly the cell at `at`, or empty |
| Clipboard.Clamped | src/document.rs:289-294 | `paste` sets a 0 start coordinate to exactly 1 and keeps a non-zero one |
| Clipboard.StepTarget | src/document.rs:296-300 | The paste cursor moves right if and only if the entry's column passed the previous one, else down if its row did, else stays |
| Clipboard.Overwritten | src/document.rs:273-279 | The insert loop shared by `undo` (lines 273-279) and `paste` (line 306): one `insert` per entry at the entry's place, in order; it keeps the cell count, and `OverwrittenPlaces` and `OverwrittenContent` state it |
| Clipboard.Snapshots | src/document.rs:301-305 | The undo record `paste` builds: one entry per pasted cell, at its target and holding the text there just before that cell was written; `SnapshotsPlaces` and `SnapshotsHoldOriginals` state it |
| Clipboard.Reanchored | src/document.rs:282-309 | Entry 0 lands on the start; every later entry lands one cursor step from the previous target; text, width and flag are kept |
| Clipboard.OverwrittenPlaces | src/document.rs:295-309 | A run of inserts moves, creates and removes no cell |
| Clipboard.SnapshotsPlaces | src/document.rs:301-305 | Each undo snapshot is its entry with only the text replaced by what the table held there |
| Clipboard.OverwrittenContent | src/document.rs:295-309 | After a run of inserts, a position reads the text of the last entry written there, if any, else what it read before |
| Clipboard.OverwrittenTwice | src/document.rs:269-280 | Replaying the same undo record twice leaves the same table as once |
| Clipboard.SnapshotsHoldOriginals | src/document.rs:301-305 | With distinct targets, each snapshot holds the text the table had there before the paste |
| Clipboard.UndoRestores | src/document.rs:269-312 | Undo after a paste to distinct targets restores the text at every position |
| Clipboard.ReanchoredOrdered | src/document.rs:295-309 | A row-major clipboard is pasted to row-major, hence distinct, targets |
| Clipboard.PasteThenUndo | src/document.rs:249-312 | Copy, paste anywhere, then undo restores every position of a row-major table |
| Clipboard.ReanchoredRow | src/document.rs:295-300 | A one-row clipboard is pasted along one row, entry k at k columns right of the start |
| Clipboard.ReanchoredColumn | src/document.rs:295-300 | A one-column clipboard is pasted down one column, entry k at k rows below the start |
| Clipboard.DeleteThenUndo | src/document.rs:331-341 | Writing the copied selection back over a delete restores every position of a well-placed table |
| Persist.TargetNameReplacesExtension | src/document.rs:346-358 | `.xlsx`, `.xls` and `.ods` names lose their extension and gain `.csv`; other names are kept |
| Persist.TargetNameIdempotent | src/document.rs:346-358 | A remapped name ends in `.csv` and is not remapped again on a later save |
| Persist.TargetName | src/document.rs:346-358 | The name `save` writes to; `TargetNameReplacesExtension` states it |
| Persist.IsSpreadsheet | src/document.rs:347-349 | The `.xlsx`, `.xls` and `.ods` suffix test `save` remaps by; `TargetNameReplacesExtension` states it |
| Persist.SavedLines | src/document.rs:361-376 | `save` writes one line per row, from 1 to `num_rows`, line i being the accumulated text of row i + 1 |
| Persist.RowAcc | src/document.rs:365-371 | The text the inner loop of `save` accumulates for one row: push the cell text, pop one character, push a comma |
| Persist.RowLine | src/document.rs:364-372 | The line written for one row: the accumulated text with its last character popped |
| Persist.RowAccOfTexts | src/document.rs:365-371 | When every cell on the row holds some text, the accumulated text is each text without its last character, followed by a comma, in table order |
| Persist.RowLineOfTexts | src/document.rs:364-372 | When every cell on the row holds some text, the written line is those texts without their last character, joined by commas, in table order |
| Persist.SaveGrownParsed | src/document.rs:361-376 | Saving a parsed table with cells added on the row below writes the original lines and then that row's line |
| Persist.NewRowAcc | src/document.rs:365-371 | As written, a row of `""` cells accumulates to a single comma |
| Persist.SaveGrownAsWritten | src/document.rs:197-209 | As written, a parsed table grown by a row of `""` cells (any positive number of columns) is saved as its lines and one empty line |
| Persist.ReopenGrownAsWritten | src/document.rs:197-209 | As written, the saved file of such a grown table reads back with a single `" "` cell on the new row |
| Persist.GrowSaveOpenAsWritten | src/document.rs:197-209 | As written, open, grow a row, save and open again loses cells on a table of at least two columns: the new row reads back as one cell |
| Persist.ShrinksAsWritten | src/document.rs:197-209 | The same as `GrowSaveOpenAsWritten`, stated over the parsed lines: the grown row reopens as one `" "` cell, so a table of at least two columns loses cells |
| Persist.EditedGrownRowShifts | src/document.rs:365-371 | As written, a grown row with only column 3 filled is saved as ",z", so `z` reads back in column 2 |
| Persist.BlankRowTexts | src/document.rs:365-371 | A row of `" "` cells is saved as one empty field per column |
| Persist.GrowSaveOpen | src/document.rs:361-376 | With the `" "` filler, open, grow a row, save and open again gives back the grown table cell for cell |
| Persist.RowAccOfRow | src/document.rs:365-371 | The cells of one parsed line serialise to its fields, each followed by a comma: the appended space is what `pop` removes |
| Persist.RowAccOfParsed | src/document.rs:364-372 | Row i of a parsed table serialises to line i's fields, each followed by a comma |
| Persist.SavedLinesOfParsed | src/document.rs:361-376 | Saving a table read by `Table::from` writes back exactly its lines |
| Persist.LinesOfFileText | src/document.rs:373-374 | The written text, each line followed by "\n", reads back as the same lines |
| Persist.FileText | src/document.rs:373-374 | Each row line written followed by "\n"; `LinesOfFileText` states that `str::lines` reads it back |
| Persist.SaveThenOpen | src/document.rs:144-145 | Opening the saved file of an opened CSV text gives the same cells, when no line ends in a carriage return |
| Documents.RowView | src/document.rs:171-195 | `get_row` has exactly `num_cols` entries |
| Documents.RowViewCells | src/document.rs:171-195 | Entry x - 1 of a row sits at (x, index) and shows the text at that position, or " " for a gap |
| Documents.MutatorsKeepPlaces | src/document.rs:197-341 | Selection, `insert`, `delete`, the overwrites of `paste` and `undo`, and growth keep coordinates 1-based and distinct |
| Documents.BlankSheet | src/document.rs:30 | `Table::from(" ")` is one well-placed two-space cell at (1, 1), and its longest line is 1 byte |
| Documents.BlankTable | src/document.rs:30 | The starting table holds one two-space cell at (1, 1) with matching counters |
| Documents.Document.Default | src/document.rs:28-42 | `Document::default` holds the single blank cell with `cell_count` 0; it is unnamed and unsaved with nothing to undo |
| Documents.Document.Open | src/document.rs:144-156 | `open` on CSV text holds the parsed cells with `cell_count` their number, `widest_cell_length` the widest cell and `width_sum` the longest line in bytes; it is named and saved with nothing to undo |
| Documents.Document.IsEmpty | src/document.rs:159-161 | `is_empty` holds exactly when `len()` is 0, that is when `cell_count` is 0 |
| Documents.Document.IsSaved | src/document.rs:163-165 | `is_saved` reads the `saved` flag |
| Documents.Document.Len | src/document.rs:167-169 | `len` reads `cell_count`, which `Default` leaves at 0 although the table holds one cell |
| Documents.Document.CellAt | src/document.rs:176-183 | The inner search finds a cell exactly when one is at the position, and it is the first |
| Documents.Document.GetRow | src/document.rs:171-195 | `get_row` returns the row view over `num_cols` columns |
| Documents.Document.InsertNewRow | src/document.rs:197-209 | `insert_newrow` grows a row only on row `num_rows + 1`, keeping every cell already there; it clears `saved` only then; the counters follow `add` |
| Documents.Document.AddRow | src/document.rs:199-204 | The loop adds the new row's cells in column order through `add` |
| Documents.Document.InsertNewCol | src/document.rs:211-223 | `insert_newcol` grows a column only on column `num_cols + 1`, keeping every cell already there; it clears `saved` only then; the counters follow `add` |
| Documents.Document.AddCol | src/document.rs:213-218 | The loop adds the new column's cells in row order through `add` |
| Documents.Document.Highlight | src/document.rs:225-236 | `highlight` rebuilds the cells as their point-selected version |
| Documents.Document.MultiHighlight | src/document.rs:238-247 | `multi_highlight` rebuilds the cells as their additively selected version |
| Documents.Document.GetHighlightCells | src/document.rs:259-267 | Returns exactly the selected cells in table order |
| Documents.Document.Copy | src/document.rs:249-257 | Returns exactly the selected cells in table order, and never fails |
| Documents.Document.Insert | src/document.rs:314-329 | `insert` rewrites the cells at the position and clears `saved` |
| Documents.Document.Delete | src/document.rs:331-341 | `delete` blanks the selected cells and clears `saved` |
| Documents.Document.Undo | src/document.rs:269-280 | With no recorded key, `undo` changes nothing; otherwise it re-inserts every recorded text in order, keeps the record, and clears `saved` when the record is non-empty |
| Documents.Document.Paste | src/document.rs:282-312 | `paste` writes the re-anchored clipboard from the clamped start, records one pre-write snapshot per entry under the old key, and clears `saved` |
| Documents.Document.PasteFrom | src/document.rs:295-309 | The paste loop writes each entry at the cursor and records its snapshot |
| Documents.Document.PasteEntry | src/document.rs:295-309 | One turn of the paste loop takes the loop state after `k` entries to the state after `k + 1`: cells, snapshots and cursor follow the re-anchored prefix |
| Documents.Document.PasteOne | src/document.rs:301-306 | One turn records the text at the target, then writes the entry's text there |
| Documents.Document.Save | src/document.rs:343-380 | Unnamed: nothing changes. Named: the name is remapped and stored; the row lines are written and `saved` is set, unless the file cannot be created |
| Documents.Document.Serialized | src/document.rs:361-376 | The nested loops produce exactly the row lines `save` writes |
| Documents.Advance | src/document.rs:296-300 | One cursor step of `paste` |
| Documents.ReanchoredStep | src/document.rs:295-309 | The re-anchored prefix grows by one entry at the cursor's next step |
| Documents.OverwrittenStep | src/document.rs:301-306 | One more written entry adds one insert to the table and one snapshot to the record |
| Editors.SatAdd | src/editor.rs:434 | `saturating_add` on `usize`: the sum when it fits, else 2^64 - 1 |
| Editors.SatSub | src/editor.rs:429 | `saturating_sub`: the difference, or 0 |
| Editors.WrappingSub | src/editor.rs:459 | `usize` subtraction in a release build: the difference modulo 2^64 |
| Editors.Moved | src/editor.rs:421-468 | The focus after one movement key; `MovedStaysNear`, `MovedArrowsInverse`, `PageUpBounds` and `PageDownBounds` state it |
| Editors.MovedStaysNear | src/editor.rs:421-468 | Arrows, Home, End and PageUp keep the focus within one past the table, and each moves only its own axis |
| Editors.MovedArrowsInverse | src/editor.rs:427-446 | Up undoes Down and Left undoes Right wherever these move; Down undoes Up and Right undoes Left above 0 |
| Editors.PageUpBounds | src/editor.rs:447-453 | PageUp lands on row 1 or later, never below the start, and exactly one page up when there is room |
| Editors.PageDownBounds | src/editor.rs:454-461 | PageDown lands inside a table of at least 2 rows; on fewer rows `num_rows - 2` wraps to near 2^64 |
| Editors.ScrolledX | src/editor.rs:407-417 | The horizontal offset moves by at most one column, and moves back only from at least 1 |
| Editors.ScrolledY | src/editor.rs:396-404 | The vertical offset `scroll` sets; `ScrollShowsFocus` and `ScrollYIdempotent` state it |
| Editors.Span | src/editor.rs:407-411 | The `strlen` of `scroll`: column widths plus 4 per column over the span |
| Editors.ScrollShowsFocus | src/editor.rs:396-404 | After scrolling, the focus row is inside the window of `height` rows, and an offset that already showed it is kept |
| Editors.ScrollYIdempotent | src/editor.rs:396-404 | Scrolling again without moving keeps the vertical offset |
| Editors.RowHighlighted | src/editor.rs:373-377 | Ray selection keeps the length, and an empty range changes nothing |
| Editors.ColHighlighted | src/editor.rs:386-390 | Ray selection keeps the length, and an empty range changes nothing |
| Editors.RowStep | src/editor.rs:373-377 | One `multi_highlight` at (x, y) extends the selected part of column x by row y |
| Editors.ColStep | src/editor.rs:386-390 | One `multi_highlight` at (x, y) extends the selected part of row y by column x |
| Editors.GrownCoversFocus | src/editor.rs:338-346 | On a dense grid, growth gives a focus within one past the table a cell, and keeps the grid dense and well placed |
| Editors.Grown | src/editor.rs:338-346 | Row growth, then column growth, as the post-key block applies them; `GrownCoversFocus` states it |
| Editors.SelectionAfterKey | src/editor.rs:361 | After the normal post-key branch, the selection is exactly the focus cell, when it has one |
| Editors.HighlightKeepsExtent | src/editor.rs:351-358 | `highlight` keeps `num_rows` and `num_cols`, so the ray bounds use the pre-highlight extent |
| Editors.Editor.constructor | src/editor.rs:103-104 | The focus starts at (1, 2) and the offset at (0, 1) |
| Editors.Editor.MovePosition | src/editor.rs:421-468 | `move_position` sets the focus to the movement function of the key, the extent and the terminal height |
| Editors.Editor.Scroll | src/editor.rs:393-418 | `scroll` sets the offset to the vertical and horizontal scroll functions with window height `terminal height - 1` |
| Editors.Editor.SpanWidth | src/editor.rs:407-411 | The loop sums column widths plus 4 per column over the focus span |
| Editors.Editor.HighlightRow | src/editor.rs:367-378 | Returns early only when `start < 1 && end > num_rows`; otherwise selects column x on rows start to end - 1, adding to the selection |
| Editors.Editor.HighlightCol | src/editor.rs:380-391 | Returns early when `start < 1` or `end > num_cols + 1`; otherwise selects row y on columns start to end - 1, adding to the selection |
| Editors.Editor.Grow | src/editor.rs:338-346 | Takes the row and column counts, then grows a row and a column when the focus is just past the table; `saved` survives only when neither fires; `cell_count`, `width_sum` and `widest_cell_length` follow `add` over every appended cell |
| Editors.Editor.GrowRow | src/editor.rs:338-343 | `insert_newrow` runs only when the focus row exceeds the row count taken before growing; the cells found are kept and the counters follow `add` |
| Editors.Editor.GrowCol | src/editor.rs:339-346 | `insert_newcol` runs only when the focus column exceeds the column count taken before growing; the cells found are kept and the counters follow `add` |
| Editors.GrowComposes | src/editor.rs:338-346 | Row growth then column growth, each keeping what it finds, make `Grown`; `saved` and the counters compose over both |
| Editors.Editor.AfterKey | src/editor.rs:338-363 | The focus becomes `FocusOf` of the old one and the cells `FocusedCells` of the grown table; the offset is kept on row 0 or column 0 and scrolled otherwise; `saved` survives only without growth; the counters follow `add` over the cells growth appended |
| Editors.Editor.Focus | src/editor.rs:348-362 | The selection step on the grown table: focus and cells as `FocusOf` and `FocusedCells`, the offset kept on the early returns and scrolled otherwise, the counters untouched |
| Editors.FocusedSelection | src/editor.rs:348-361 | The selection step moves no cell and keeps every text; a focus on row 0 ends with exactly the placed cells of its column selected, on column 0 exactly those of its row, otherwise exactly the cells at the focus |
| Editors.FocusOf | src/editor.rs:349-360 | The focus after the post-key block: row 0 becomes row 1, else column 0 becomes column 1, else it is kept; `AfterKey` states it |
| Editors.FocusedCells | src/editor.rs:348-361 | The cells after the selection step: the whole column from row 1 on row 0, the whole row from column 1 on column 0, else the focus cell alone; `FocusedSelection` states it |
| Editors.Editor.SelectColumn | src/editor.rs:350-352 | Point-selects the focus, then ray-selects its column over all rows |
| Editors.Editor.SelectRow | src/editor.rs:356-358 | Point-selects the focus, then ray-selects its row over all columns |
| Editors.NumToLetRepeatsA | src/editor.rs:670-682 | As written, column 26 gets the letter 'A', the same as column 1 |
| Editors.NumToLetValues | src/editor.rs:670-682 | As written: 'A' for multiples of 26, otherwise letter number n mod 26 |
| Editors.NumToLet | src/editor.rs:670-682 | `num_to_let` as written always returns a letter from A to Z; `NumToLetValues` gives its values |
| Editors.ColumnLetterAgrees | src/editor.rs:670-682 | The corrected letter agrees with `num_to_let` except on multiples of 26, where it is 'Z' |
| Editors.ColumnLetterPeriodic | src/editor.rs:670-682 | The corrected letters repeat with period 26 |
| Editors.ColumnLetterDistinct | src/editor.rs:670-682 | The corrected letters of columns 1 to 26 are pairwise distinct |

## Left out

- `Document::open` ingestion of `.ods` and `.xlsx`/`.xls` files (src/document.rs:45-142). ZIP/XML decoding and workbook reading are foreign libraries. Only the CSV branch, `Table::from` on the text, is modelled.
- Reading and writing files. The text `open` reads is a parameter. Whether `File::create` succeeds in `save` is the parameter `createOk`. A failing `write_all` is not modelled.
- `calc_summary` (src/table.rs:184-214). It uses floating-point parsing, division and square roots.
- `row_width` and both `filling_width` functions. They are used only for drawing.
- The display width `UnicodeWidthStr::width`. It is a foreign call, modelled as the uninterpreted parameter `measure`.
- Rendering and terminal I/O, `Editor::default`'s argument and terminal set-up, and status-message timing. They involve the terminal, the process environment and the wall clock. The constructor models only the initial focus and offset.
- The key dispatch of `process_keypress` (src/editor.rs:150-335), including the blocking selection, quit and prompt loops that read keys. The editor's `copy` field and the choice of `last_action.key` happen there. A single ray-selection step is modelled as one `highlight_row`/`highlight_col` call.
- Editors.Editor.Scroll: requires `terminal height >= 1`. At height 0 the source's `height - 1` underflows, which the model does not follow.
- Editors.Editor.Scroll: does not model the overflow of `x + 1` and of the `strlen` sum at 2^64.
- Editors.MovedArrowsInverse: requires the focus row to be below 2^64 - 1, where `saturating_add` stops.
- Editors.Editor.MovePosition: `x += 1` on Right is unbounded. The source would overflow only at column 2^64 - 1, which `num_cols` cannot reach for a table in memory.
- Tables.Table.Add: `cell_count += 1` and `width_sum += width` are unbounded `nat`. The `usize` sums would overflow only at 2^64, which no table held in memory reaches.
- Tables.ScanLine: `cell_count += 1` in `Table::from` is unbounded `nat`, for the same reason.
- Clipboard.StepTarget: the paste cursor's `x += 1` and `y += 1` are unbounded `nat`. The source would overflow only at coordinate 2^64 - 1, which no clipboard held in memory reaches.
- Documents.Advance: the same unbounded cursor step, as one loop turn.
- Editors.Moved: PageDown's `num_rows - 2` panics in a debug build when `num_rows < 2`. The model follows a release build, where it wraps.
- Several Dafny methods factor one loop or one loop turn of a source function into a method of its own. They do nothing the source function does not:
  - `Tables.ScanLine`
  - `Documents.Document.AddRow`
  - `Documents.Document.AddCol`
  - `Documents.Document.CellAt`
  - `Documents.Document.PasteFrom`
  - `Documents.Document.PasteEntry`
  - `Documents.Document.PasteOne`
  - `Documents.Document.Serialized`
  - `Documents.Advance`
  - `Documents.BlankTable`
  - `Editors.Editor.SpanWidth`
  - `Editors.Editor.Grow`
  - `Editors.Editor.GrowRow`
  - `Editors.Editor.GrowCol`
  - `Editors.Editor.Focus`
  - `Editors.Editor.SelectColumn`
  - `Editors.Editor.SelectRow`

## Findings

| source | as written | input that shows it | evidently intended | confidence | as-written member | corrected member |
|---|---|---|---|---|---|---|
| src/editor.rs:670-682 | `num_to_let` returns 'A' whenever `num % 26 == 0` | column 26: `num_to_let(26) == 'A'`, the same letter as column 1 | columns 1 to 26 labelled 'A' to 'Z', with column 26 as 'Z' | not executed | Editors.NumToLetRepeatsA | Editors.ColumnLetterDistinct |
| src/document.rs:199 | `insert_newrow` fills new cells with `""`, and `save` (src/document.rs:367-369) pops one character after each text, so each `""` cell removes the comma before it | open "a,b", move to row 2 so it grows, save: the file is "a,b\n\n" and row 2 reads back as one cell instead of two; a grown row with only column 3 filled is saved as ",z" | new rows filled like new columns, with `" "`, so an untouched row is saved as one empty field per column and reads back unchanged | not executed | Persist.GrowSaveOpenAsWritten | Persist.GrowSaveOpen |
