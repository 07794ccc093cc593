# Text-table editor commands, modelled in Dafny

This project models the command layer of a Visual Studio Code extension that
edits pipe-delimited text tables (`| a | b |` rows with a `| --- | --- |`
separator). Most commands take the table that the extension has parsed from
the document, together with the cursor position, and then either change the
table in place or compute a text edit. Two do not: `createTable` takes a row
count and a column count and builds a new table, and `clearCell` works on the
text of the cursor's line alone, without a table. The modelled commands are:

- creating an empty table;
- the guards of moving a row up or down;
- moving a column left or right;
- clearing the cell under the cursor;
- appending an empty row when the cursor would run off the end of the table;
- translating a cursor position into a (row, column) cell address.

Modules:

- `TableModel` (`table_model.dfy`): rows typed `Data`/`Separator`, each
  holding one cell string per column; column descriptors with width and
  alignment; and the `Table` class with the fields `rows`, `cols` and
  `startLine`, which the commands update. `Swap` and `SwapColumns` are the
  specification of a column exchange.
- `Navigation` (`navigation.dfy`): the layout arithmetic. Column `i` spans
  `width_i + 3` characters. The first span starts at character 1. `SpanStart`
  is the prefix sum of those spans. `ColumnAt` is the column whose span holds a
  character offset, or -1. `RowColFromPosition` is the loop that computes this
  with a running counter.
- `TextSearch` (`text_search.dfy`): UTF-16 code units, and JavaScript's
  `lastIndexOf` and `indexOf` for a one-character needle. Both clamp a
  negative `fromIndex` to 0.
- `Commands` (`commands.dfy`): the commands themselves. A refused command
  returns a `Notice` (a warning or an information message) with the exact
  message text, instead of showing a pop-up.

The table class, parser, stringifier and navigator come from the module
`src/ttTable`, which is not part of this model. Where the commands use them,
the model does the following:

- `addRow`, `getAt` and `setAt` are plain appends, reads and writes of
  sequences;
- the parser's separator-line test is a function parameter of `ClearCell`;
- the navigator's answer to "where is the next cell" is a parameter of
  `GotoNextCell`.

A cursor on the decoration between cells does not give column -1. In
`rowColFromPosition` each column's span is its width plus 3 characters, and
the spans sit end to end from character 1. So only an offset before
character 1 or past the last span gives -1 (`ColumnAtNone`).

Lines and character offsets count UTF-16 code units, as JavaScript strings
and editor positions do. A character outside the Basic Multilingual Plane is
two units, and `clearCell` blanks it with two spaces
(`ClearCellCountsCodeUnits`).

## Model

| member | source | states |
|---|---|---|
| `TableModel.Swap` | src/commands.ts:97 | the entries at `i` and `j` are exchanged, every other entry and the length are kept, and the multiset of entries is unchanged |
| `TableModel.SwapColumns` | src/commands.ts:99-104 | in every row the cells at `i` and `j` are exchanged, and every other cell, each row's type and cell count, and the number of rows are kept |
| `TableModel.SwapInvolution` | src/commands.ts:126 | exchanging the same two entries twice restores the sequence, in either index order |
| `TableModel.SwapColumnsInvolution` | src/commands.ts:128-133 | exchanging the same two columns twice restores every row, in either index order |
| `TableModel.EmptyCells` | src/commands.ts:10 | a new row's cells are `n` empty strings |
| `TableModel.ColumnsFor` | src/commands.ts:10 | the first row added to a column-less table gives it one column per cell |
| `TableModel.Table.constructor` | src/commands.ts:8 | a new table has no rows and no columns |
| `TableModel.Table.AddRow` | src/commands.ts:10 | appends exactly the given row and keeps every row one cell per column |
| `TableModel.Table.GetAt` | src/commands.ts:100-101 | the result is the cell at the given row and column |
| `TableModel.Table.SetAt` | src/commands.ts:102-103 | only the addressed cell changes, and row types and every other cell are kept |
| `Navigation.SpanStart` | src/commands.ts:193-201 | column `i`'s span starts at `1 + sum(w_j + 3, j < i)`, which is at least `1 + 3i` |
| `Navigation.SpanStartMonotone` | src/commands.ts:201 | span starts grow by at least 3 per column, so spans never overlap |
| `Navigation.FindSpan` | src/commands.ts:194-202 | the result is the leftmost column at or after `i` whose span holds the offset, or -1 when none does |
| `Navigation.ColumnAt` | src/commands.ts:193-204 | the result lies between -1 and the column count (exclusive), a column's span holds the offset when `c != -1`, and no span holds it when `c == -1` |
| `Navigation.SpansTile` | src/commands.ts:193-204 | every offset from 1 to the end of the last span lies in some column's span |
| `Navigation.ColumnAtExact` | src/commands.ts:196-198 | the result is `i` exactly when `1 + sum(w_j + 3, j < i) <= ch < 1 + sum(w_j + 3, j <= i)` |
| `Navigation.ColumnAtNone` | src/commands.ts:190-204 | the result is -1 exactly when `ch < 1` or `ch >= 1 + sum(w_j + 3)` |
| `Navigation.ColumnAtSpanStart` | src/commands.ts:196 | the first character of column `i`'s span resolves to column `i` |
| `Navigation.RowColFromPosition` | src/commands.ts:189-205 | the row is `line - startLine` whatever the character, and the column is `ColumnAt(cols, character)` |
| `TextSearch.ClampBelow` | src/commands.ts:153 | a negative search start counts as 0 |
| `TextSearch.LastAtOrBefore` | src/commands.ts:153 | the result is the greatest index at or below `i` that holds the character, or -1 |
| `TextSearch.FirstAtOrAfter` | src/commands.ts:154 | the result is the smallest index at or above `i` that holds the character, or -1 |
| `TextSearch.LastIndexOf` | src/commands.ts:153 | the result is the last occurrence at an index `<= max(fromIndex, 0)`, or -1 |
| `TextSearch.IndexOf` | src/commands.ts:154 | the result is the first occurrence at an index `>= max(fromIndex, 0)`, or -1 |
| `TextSearch.SearchesSeeOnlyOccurrences` | src/commands.ts:153-154 | both searches depend only on where the character occurs |
| `Commands.CreateTable` | src/commands.ts:7-12 | the table has `r + 1` rows and `c` columns, every row holds `c` empty strings, row 1 is the separator and all other rows are Data |
| `Commands.MoveRowDown` | src/commands.ts:22-29 | it proceeds exactly when a row exists below the cursor's row (`line - startLine + 1` is below the row count), and otherwise warns "Cannot move row further" |
| `Commands.MoveRowUp` | src/commands.ts:34-41 | it proceeds exactly when the cursor's row is below the table's first row, and otherwise warns "Cannot move row further" |
| `Commands.RowMoveGuardsAtEnds` | src/commands.ts:22-41 | for a cursor on row `k` of `n`: up is refused only on row 0, and down is refused only on row `n - 1` |
| `Commands.GotoNextCell` | src/commands.ts:49-57 | with no next cell, exactly one Data row with one empty cell per column is appended and a retry is signalled; otherwise the table is untouched and the cursor goes to the navigator's position |
| `Commands.NextRow` | src/commands.ts:173-178 | a row with one empty cell per column is appended exactly when the cursor line is the range's last line, and otherwise the table is untouched |
| `Commands.SwapColumnsInPlace` | src/commands.ts:99-104 | after the walk over the rows, every row has its cells at the two indices exchanged (`SwapColumns`) |
| `Commands.SwapByTwoWrites` | src/commands.ts:100-103 | reading both cells and then writing them crosswise is exactly the exchange |
| `Commands.MoveColRight` | src/commands.ts:85-104 | off every span: warns "Not in table data field" and changes nothing; in the last column: warns "Cannot move column further right" and changes nothing; otherwise `cols` and every row are swapped at `c` and `c + 1` |
| `Commands.MoveColLeft` | src/commands.ts:114-133 | off every span: warns "Not in table data field" and changes nothing; in column 0: warns "Cannot move column further left" and changes nothing; otherwise `cols` and every row are swapped at `c - 1` and `c` |
| `Commands.SwapColumnsSymmetric` | src/commands.ts:128-133 | exchanging columns `c` and `c - 1` is the same as exchanging `c - 1` and `c` |
| `Commands.MoveColRightThenLeft` | src/commands.ts:85-138 | a successful move right, followed by a move left from any position in the column's new span, restores `cols` and `rows` |
| `Commands.Spaces` | src/commands.ts:165 | the replacement text is exactly `n` spaces |
| `Commands.ClearCell` | src/commands.ts:143-168 | on a separator line it refuses with "Not in table data field". Otherwise it refuses exactly when the cursor is at column 0 of a line starting with a pipe. Else it blanks `[L + 1, R)`, where `L` is the last pipe before the cursor and `R` is the next pipe or the end of the line: for a cursor within the line the range holds the cursor; the range holds no pipe, is bounded by pipes or the line ends, gets `R - L - 1` spaces, and the cursor moves to `L + 2` |
| `Commands.ClearCellCountsCodeUnits` | src/commands.ts:153-165 | on a line whose cell holds one surrogate pair, the blanked range covers both code units and gets two spaces |
| `Commands.ApplyEdit` | src/commands.ts:164-165 | the edited line's length is the old length minus the range plus the replacement |
| `Commands.ClearCellKeepsLayout` | src/commands.ts:164-165 | clearing keeps the line length and every character outside the cell, puts a space at every position inside it, and leaves every pipe in place |
| `Commands.ClearCellIdempotent` | src/commands.ts:153-165 | provided the separator test does not take the cleared line for a separator, clearing the same cell again computes the same edit, and that edit changes nothing |

## Left out

- The editor calls themselves are outside the model: `editor.edit`, setting the selection, showing messages, and the `editor.action.moveLines…` commands that actually move a row. The effect of the `clearCell` replace on its line is modelled (`ApplyEdit`); the inserts and replaces that put rendered table text into the document are not, because the stringifier is not modelled. Refusals are returned as `Notice` values instead. The row-move commands are modelled only as their guards.
- The `async`/`await` sequencing of the commands is left out. It is host asynchrony and does not change the table.
- The parser (`isSeparatorRow`), the stringifier (`stringify`) and the navigator (`nextCell`, `previousCell`, `nextRow`) live in `src/ttTable`, which is not part of this model. They appear only as parameters, or are not used.
- `formatUnderCursor` and `gotoPreviousCell` are left out. They only render the table, replace text and set the selection.
- The tail of `moveColRight` and `moveColLeft` is left out: the call to `gotoNextCell` or `gotoPreviousCell`, which re-renders the table, moves the cursor and, when the navigator finds no next cell, appends a row. That tail, including any row it appends, is outside `Commands.MoveColRight`, `Commands.MoveColLeft` and the `Commands.MoveColRightThenLeft` round trip.
- `Commands.GotoNextCell` models one append-and-retry step, not the recursive retry. Whether the retry ends depends on the unseen navigator.
- `TableModel.Table.AddRow` gives new columns, when a table has none, a width equal to each first cell's length and Left alignment. This is a modelling choice; the real code is in `src/ttTable`. Cells are Dafny strings, so this stand-in width counts characters, not the UTF-16 code units that the line offsets of `Commands.ClearCell` count.
- `TableModel.Table.SetAt` writes the cell and nothing else. Any column-width bookkeeping that the real `setAt` may do is in `src/ttTable`.
- `Commands.CreateTable` requires at least one row. With zero rows, the source dereferences a row 1 that does not exist.
- The table model keeps one cell per column in every row, including separator rows (`Table.Valid`). Tables parsed from ragged text are padded or truncated by the parser, which is not modelled.
