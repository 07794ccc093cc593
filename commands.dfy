/** The table commands behind the editor's key bindings, with the editor
    itself stripped away: each command takes the parsed table and the cursor,
    changes the table in place or computes an edit, and reports a refusal as a
    `Notice` instead of showing a pop-up. Rendering the table back to text,
    replacing the document range, placing the selection and the editor's own
    line-move action are the host's work and are not modelled. */
module Commands {
  import opened TableModel
  import opened Navigation
  import opened TextSearch

  /** A message for the user: a warning or an information pop-up. */
  datatype Notice = Warning(text: string) | Information(text: string)

  /** What a guarded command did: went ahead, or refused with a notice. */
  datatype Outcome = Done | Refused(notice: Notice)

  const CannotMoveRow := "Cannot move row further"
  const NotInDataField := "Not in table data field"
  const CannotMoveColRight := "Cannot move column further right"
  const CannotMoveColLeft := "Cannot move column further left"

  // ---------------------------------------------------------------------------
  // createTable

  /** A new table of `rowsCount + 1` rows of `colsCount` empty cells, built by
      adding Data rows one at a time and then turning row 1 into the
      separator. Row 1 must exist, so at least one row is asked for. */
  method CreateTable(rowsCount: nat, colsCount: nat) returns (t: Table)
    requires rowsCount >= 1
    ensures fresh(t) && t.Valid()
    ensures |t.rows| == rowsCount + 1 && |t.cols| == colsCount
    ensures forall k :: 0 <= k < |t.rows| ==> t.rows[k].cells == EmptyCells(colsCount)
    ensures t.rows[1].kind == Separator
    ensures forall k :: 0 <= k < |t.rows| && k != 1 ==> t.rows[k].kind == Data
  {
    t := new Table();
    for i := 0 to rowsCount + 1
      invariant t.Valid()
      invariant |t.rows| == i
      invariant i > 0 ==> |t.cols| == colsCount
      invariant i == 0 ==> t.cols == []
      invariant forall k :: 0 <= k < i ==> t.rows[k] == Row(Data, EmptyCells(colsCount))
    {
      t.AddRow(Data, EmptyCells(colsCount));
    }
    t.rows := t.rows[1 := t.rows[1].(kind := Separator)];
  }

  // ---------------------------------------------------------------------------
  // moveRowDown / moveRowUp

  /** The guard of `moveRowDown`, for the cursor's end line. The editor's
      line move runs only when the table has a row below the cursor's row. */
  function MoveRowDown(selectionEndLine: nat, startLine: nat, rowCount: nat): (r: Outcome)
    ensures r == Done <==> selectionEndLine - startLine + 1 < rowCount
    ensures r != Done ==> r == Refused(Warning(CannotMoveRow))
  {
    var rowNum := selectionEndLine - startLine;
    if rowNum >= rowCount - 1 then Refused(Warning(CannotMoveRow)) else Done
  }

  /** The guard of `moveRowUp`, for the cursor's start line. The editor's
      line move runs only when the cursor's row has a table row above it. */
  function MoveRowUp(selectionStartLine: nat, startLine: nat): (r: Outcome)
    ensures r == Done <==> selectionStartLine - startLine - 1 >= 0
    ensures r != Done ==> r == Refused(Warning(CannotMoveRow))
  {
    var rowNum := selectionStartLine - startLine;
    if rowNum <= 0 then Refused(Warning(CannotMoveRow)) else Done
  }

  /** With the cursor on table row `k` of `n`: the first row cannot move up,
      the last cannot move down, and every other row can move both ways. */
  lemma RowMoveGuardsAtEnds(startLine: nat, n: nat, k: nat)
    requires k < n
    ensures MoveRowUp(startLine + k, startLine) == Done <==> k != 0
    ensures MoveRowDown(startLine + k, startLine, n) == Done <==> k != n - 1
  {
  }

  // ---------------------------------------------------------------------------
  // gotoNextCell / nextRow: the append-a-row step

  /** What `gotoNextCell` does next: move the cursor to the navigator's
      position, or try again on the table that has just grown by a row. */
  datatype NextCellStep = MoveCursor(target: Position) | Retry

  /** One step of `gotoNextCell`, given the navigator's answer `next` for the
      cursor. When there is no next cell, exactly one empty Data row is
      appended and the command is to be retried; otherwise the table is left
      alone and the cursor goes to `next`. */
  method GotoNextCell(t: Table, next: Option<Position>) returns (step: NextCellStep)
    requires t.Valid()
    modifies t`rows, t`cols
    ensures t.Valid() && t.cols == old(t.cols)
    ensures next.Some? ==> step == MoveCursor(next.value) && t.rows == old(t.rows)
    ensures next.None? ==> step == Retry && t.rows == old(t.rows) + [Row(Data, EmptyCells(|t.cols|))]
  {
    if next.Some? {
      step := MoveCursor(next.value);
    } else {
      t.AddRow(Data, EmptyCells(|t.cols|));
      step := Retry;
    }
  }

  /** The table-changing part of `nextRow`: an empty Data row is appended
      exactly when the cursor is on the last line of the table's range. */
  method NextRow(t: Table, rangeEndLine: nat, cursorLine: nat) returns (appended: bool)
    requires t.Valid()
    modifies t`rows, t`cols
    ensures t.Valid() && t.cols == old(t.cols)
    ensures appended <==> rangeEndLine == cursorLine
    ensures t.rows == if appended then old(t.rows) + [Row(Data, EmptyCells(|t.cols|))] else old(t.rows)
  {
    appended := rangeEndLine == cursorLine;
    if appended {
      t.AddRow(Data, EmptyCells(|t.cols|));
    }
  }

  // ---------------------------------------------------------------------------
  // moveColRight / moveColLeft

  /** The walk over the rows that both column moves make after exchanging
      the column descriptors: in each row, read the cells at `c` and `d`, then
      write the first at `d` and the second at `c`. */
  method SwapColumnsInPlace(t: Table, c: nat, d: nat)
    requires t.Valid() && c < |t.cols| && d < |t.cols| && c != d
    modifies t`rows
    ensures t.Valid()
    ensures t.rows == SwapColumns(old(t.rows), c, d)
  {
    ghost var rows0 := t.rows;
    var i := 0;
    while i < |t.rows|
      invariant 0 <= i <= |t.rows| == |rows0|
      invariant t.Valid()
      invariant forall k :: 0 <= k < i ==> t.rows[k] == rows0[k].(cells := Swap(rows0[k].cells, c, d))
      invariant forall k :: i <= k < |t.rows| ==> t.rows[k] == rows0[k]
    {
      var v1 := t.GetAt(i, c);
      var v2 := t.GetAt(i, d);
      t.SetAt(i, d, v1);
      t.SetAt(i, c, v2);
      SwapByTwoWrites(rows0[i].cells, c, d);
      i := i + 1;
    }
    assert forall k :: 0 <= k < |t.rows| ==> t.rows[k] == SwapColumns(rows0, c, d)[k];
  }

  /** Writing the old `s[c]` at `d` and then the old `s[d]` at `c` is the swap. */
  lemma SwapByTwoWrites(s: seq<string>, c: nat, d: nat)
    requires c < |s| && d < |s| && c != d
    ensures s[d := s[c]][c := s[d]] == Swap(s, c, d)
  {
  }

  /** `moveColRight`: refuses when the cursor is in no column or in the last
      one; otherwise exchanges the cursor's column with the one to its right,
      both the column descriptors and the cells of every row. */
  method MoveColRight(t: Table, pos: Position) returns (r: Outcome)
    requires t.Valid()
    modifies t`rows, t`cols
    ensures t.Valid() && |t.cols| == |old(t.cols)|
    ensures var c := ColumnAt(old(t.cols), pos.character);
      && (c < 0 ==>
            r == Refused(Warning(NotInDataField)) && t.cols == old(t.cols) && t.rows == old(t.rows))
      && (c >= 0 && c >= |old(t.cols)| - 1 ==>
            r == Refused(Warning(CannotMoveColRight)) && t.cols == old(t.cols) && t.rows == old(t.rows))
      && (0 <= c < |old(t.cols)| - 1 ==>
            r == Done && t.cols == Swap(old(t.cols), c, c + 1) && t.rows == SwapColumns(old(t.rows), c, c + 1))
  {
    var rowCol := RowColFromPosition(t.startLine, t.cols, pos);
    if rowCol.col < 0 {
      return Refused(Warning(NotInDataField));
    }
    if rowCol.col >= |t.cols| - 1 {
      return Refused(Warning(CannotMoveColRight));
    }
    var c := rowCol.col;
    t.cols := t.cols[c := t.cols[c + 1]][c + 1 := t.cols[c]];
    SwapColumnsInPlace(t, c, c + 1);
    r := Done;
  }

  /** `moveColLeft`: refuses when the cursor is in no column or in the first
      one; otherwise exchanges the cursor's column with the one to its left,
      both the column descriptors and the cells of every row. */
  method MoveColLeft(t: Table, pos: Position) returns (r: Outcome)
    requires t.Valid()
    modifies t`rows, t`cols
    ensures t.Valid() && |t.cols| == |old(t.cols)|
    ensures var c := ColumnAt(old(t.cols), pos.character);
      && (c < 0 ==>
            r == Refused(Warning(NotInDataField)) && t.cols == old(t.cols) && t.rows == old(t.rows))
      && (c == 0 ==>
            r == Refused(Warning(CannotMoveColLeft)) && t.cols == old(t.cols) && t.rows == old(t.rows))
      && (c >= 1 ==>
            r == Done && t.cols == Swap(old(t.cols), c - 1, c) && t.rows == SwapColumns(old(t.rows), c - 1, c))
  {
    var rowCol := RowColFromPosition(t.startLine, t.cols, pos);
    if rowCol.col < 0 {
      return Refused(Warning(NotInDataField));
    }
    if rowCol.col == 0 {
      return Refused(Warning(CannotMoveColLeft));
    }
    var c := rowCol.col;
    t.cols := t.cols[c := t.cols[c - 1]][c - 1 := t.cols[c]];
    SwapColumnsInPlace(t, c, c - 1);
    SwapColumnsSymmetric(old(t.rows), c, c - 1);
    r := Done;
  }

  /** Naming the two columns in the other order describes the same exchange. */
  lemma SwapColumnsSymmetric(rows: seq<Row>, i: nat, j: nat)
    requires forall k :: 0 <= k < |rows| ==> i < |rows[k].cells| && j < |rows[k].cells|
    ensures SwapColumns(rows, i, j) == SwapColumns(rows, j, i)
  {
    forall k | 0 <= k < |rows| ensures SwapColumns(rows, i, j)[k] == SwapColumns(rows, j, i)[k] {
      assert Swap(rows[k].cells, i, j) == Swap(rows[k].cells, j, i);
    }
  }

  /** Moving a column right at `pos` and then left again at `back`, any
      position inside the moved column's new place, gives back the table as
      it was. */
  method MoveColRightThenLeft(t: Table, pos: Position, back: Position) returns (right: Outcome, left: Outcome)
    requires t.Valid()
    requires var c := ColumnAt(t.cols, pos.character);
      0 <= c < |t.cols| - 1 ==> ColumnAt(Swap(t.cols, c, c + 1), back.character) == c + 1
    modifies t`rows, t`cols
    ensures right == Done ==> left == Done && t.cols == old(t.cols) && t.rows == old(t.rows)
  {
    var c := ColumnAt(t.cols, pos.character);
    right := MoveColRight(t, pos);
    if right == Done {
      left := MoveColLeft(t, back);
      SwapInvolution(old(t.cols), c, c + 1);
      SwapColumnsInvolution(old(t.rows), c, c + 1);
    } else {
      left := right;
    }
  }

  // ---------------------------------------------------------------------------
  // clearCell

  /** `n` spaces, as `' '.repeat(n)` builds them. */
  function Spaces(n: nat): (s: Utf16)
    ensures |s| == n && forall k :: 0 <= k < n ==> s[k] == Space
  {
    seq(n, _ => Space)
  }

  /** What `clearCell` does to the cursor's line: replace `[start, end)` with
      `text` and put the cursor at `cursor`; or refuse. */
  datatype CellClear = Blank(start: nat, end: nat, text: Utf16, cursor: nat) | NotCleared(notice: Notice)

  /** `clearCell` on the cursor's line `text` with the cursor at `character`.
      Both count UTF-16 code units, as JavaScript and the editor do.
      `isSeparatorRow` is the parser's test for a separator line. The cell is
      bounded by the last `|` before the cursor and the first `|` at or after
      it (or the end of the line); its content is overwritten by as many
      spaces and the cursor goes just past the left pipe and its space. */
  function ClearCell(text: Utf16, character: nat, isSeparatorRow: Utf16 -> bool): (r: CellClear)
    ensures r.NotCleared? ==> r.notice == Information(NotInDataField)
    ensures isSeparatorRow(text) ==> r.NotCleared?
    ensures !isSeparatorRow(text) ==> (r.NotCleared? <==> character == 0 && |text| > 0 && text[0] == Pipe)
    ensures r.Blank? ==> r.start <= r.end <= |text| && r.text == Spaces(r.end - r.start) && r.cursor == r.start + 1
    ensures r.Blank? ==> (r.start == 0 || text[r.start - 1] == Pipe) && (r.end == |text| || text[r.end] == Pipe)
    ensures r.Blank? ==> forall k :: r.start <= k < r.end ==> text[k] != Pipe
    ensures r.Blank? && character <= |text| ==> r.start <= character <= r.end
  {
    if isSeparatorRow(text) then NotCleared(Information(NotInDataField))
    else
      var left := LastIndexOf(text, Pipe, character - 1);
      var found := IndexOf(text, Pipe, character);
      var right := if found < 0 then |text| else found;
      if left == right then NotCleared(Information(NotInDataField))
      else Blank(left + 1, right, Spaces(right - left - 1), left + 2)
  }

  /** On `|😀|`, whose emoji is the surrogate pair D83D DE00, a cursor just
      after the first pipe clears both code units of the emoji: two spaces. */
  lemma ClearCellCountsCodeUnits()
    ensures ClearCell([Pipe, 0xD83D, 0xDE00, Pipe], 1, _ => false) == Blank(1, 3, [Space, Space], 2)
  {
    var line: Utf16 := [Pipe, 0xD83D, 0xDE00, Pipe];
    assert LastIndexOf(line, Pipe, 0) == 0;
    assert FirstAtOrAfter(line, Pipe, 3) == 3;
    assert FirstAtOrAfter(line, Pipe, 2) == 3;
    assert IndexOf(line, Pipe, 1) == 3;
  }

  /** The line after an edit that replaces `[start, end)` with `replacement`. */
  function ApplyEdit(text: Utf16, start: nat, end: nat, replacement: Utf16): (s: Utf16)
    requires start <= end <= |text|
    ensures |s| == |text| - (end - start) + |replacement|
  {
    text[..start] + replacement + text[end..]
  }

  /** Clearing a cell keeps the line's length and every character outside the
      cell, blanks every character inside it, and so leaves every pipe where
      it was. */
  lemma ClearCellKeepsLayout(text: Utf16, character: nat, isSeparatorRow: Utf16 -> bool)
    requires ClearCell(text, character, isSeparatorRow).Blank?
    ensures var r := ClearCell(text, character, isSeparatorRow);
      var s := ApplyEdit(text, r.start, r.end, r.text);
      && |s| == |text|
      && (forall k :: 0 <= k < |text| && (k < r.start || k >= r.end) ==> s[k] == text[k])
      && (forall k :: r.start <= k < r.end ==> s[k] == Space)
      && (forall k :: 0 <= k < |text| ==> (s[k] == Pipe <==> text[k] == Pipe))
  {
  }

  /** Clearing the same cell a second time finds the same boundaries and
      changes nothing more. */
  lemma ClearCellIdempotent(text: Utf16, character: nat, isSeparatorRow: Utf16 -> bool)
    requires ClearCell(text, character, isSeparatorRow).Blank?
    ensures var r := ClearCell(text, character, isSeparatorRow);
      var s := ApplyEdit(text, r.start, r.end, r.text);
      !isSeparatorRow(s) ==>
        && ClearCell(s, character, isSeparatorRow) == r
        && ApplyEdit(s, r.start, r.end, r.text) == s
  {
    var r := ClearCell(text, character, isSeparatorRow);
    var s := ApplyEdit(text, r.start, r.end, r.text);
    ClearCellKeepsLayout(text, character, isSeparatorRow);
    SearchesSeeOnlyOccurrences(text, s, Pipe, character - 1);
    SearchesSeeOnlyOccurrences(text, s, Pipe, character);
    var s2 := ApplyEdit(s, r.start, r.end, r.text);
    assert s2 == s by {
      forall k | 0 <= k < |s| ensures s2[k] == s[k] {
        if k < r.start {
          assert s2[k] == s[..r.start][k];
        } else if k < r.end {
          assert s2[k] == r.text[k - r.start];
        } else {
          assert s2[k] == s[r.end..][k - r.end];
        }
      }
    }
  }
}
