/** Translation of a cursor position to a table-local (row, column) address,
    following the canonical layout: a row is rendered as `| c0 | c1 | ... |`,
    so column `i` occupies its content width plus three decoration characters
    (the pipe and space before the content, the space after it). The first
    column's span begins at character 1, just after the leading pipe. */
module Navigation {
  import opened TableModel

  /** A cursor position in the document. */
  datatype Position = Position(line: nat, character: nat)

  /** An answer the navigator may not have, such as "no next cell". */
  datatype Option<T> = None | Some(value: T)

  /** A table-local cell address; `col` is -1 when the cursor is in no column. */
  datatype RowCol = RowCol(row: int, col: int)

  /** Characters each column spans beyond its content width. */
  const Decoration: nat := 3

  /** The character offset at which the first column's span begins. */
  const FirstSpanStart: nat := 1

  /** The character offset at which column `i`'s span begins: one plus the
      sum of `width + 3` over the columns before it. `SpanStart(cols, |cols|)`
      is the offset just past the last column's span. */
  function SpanStart(cols: seq<Column>, i: nat): (s: nat)
    requires i <= |cols|
    ensures s >= FirstSpanStart + Decoration * i
  {
    if i == 0 then FirstSpanStart else SpanStart(cols, i - 1) + cols[i - 1].width + Decoration
  }

  /** Column `i`'s span is the half-open range [SpanStart(i), SpanStart(i + 1)). */
  predicate InSpan(cols: seq<Column>, i: nat, ch: int)
    requires i < |cols|
  {
    SpanStart(cols, i) <= ch < SpanStart(cols, i + 1)
  }

  /** The first column at index `i` or later whose span holds `ch`, or -1. */
  function FindSpan(cols: seq<Column>, ch: int, i: nat): (c: int)
    requires i <= |cols|
    ensures c == -1 || i <= c < |cols|
    ensures c != -1 ==> InSpan(cols, c, ch)
    ensures c != -1 ==> forall k :: i <= k < c ==> !InSpan(cols, k, ch)
    ensures c == -1 ==> forall k :: i <= k < |cols| ==> !InSpan(cols, k, ch)
    decreases |cols| - i
  {
    if i == |cols| then -1
    else if InSpan(cols, i, ch) then i
    else FindSpan(cols, ch, i + 1)
  }

  /** The column whose span holds character offset `ch`, or -1 if none does. */
  function ColumnAt(cols: seq<Column>, ch: int): (c: int)
    ensures -1 <= c < |cols|
    ensures c != -1 ==> InSpan(cols, c, ch)
    ensures c == -1 ==> forall k :: 0 <= k < |cols| ==> !InSpan(cols, k, ch)
  {
    FindSpan(cols, ch, 0)
  }

  /** Span starts grow by at least three characters per column. */
  lemma {:induction false} SpanStartMonotone(cols: seq<Column>, i: nat, j: nat)
    requires i <= j <= |cols|
    ensures SpanStart(cols, i) + Decoration * (j - i) <= SpanStart(cols, j)
    decreases j - i
  {
    if i < j {
      SpanStartMonotone(cols, i, j - 1);
    }
  }

  /** Every offset from 1 up to the end of column `n - 1`'s span lies in the
      span of one of the first `n` columns: the spans tile that range. */
  lemma {:induction false} SpansTile(cols: seq<Column>, ch: int, n: nat)
    requires n <= |cols|
    requires FirstSpanStart <= ch < SpanStart(cols, n)
    ensures exists k :: 0 <= k < n && InSpan(cols, k, ch)
  {
    if n == 0 {
      assert false;
    } else if ch >= SpanStart(cols, n - 1) {
      assert InSpan(cols, n - 1, ch);
    } else {
      SpansTile(cols, ch, n - 1);
    }
  }

  /** The result is column `i` exactly when `ch` falls in column `i`'s span:
      1 + sum(w_j + 3, j < i) <= ch < 1 + sum(w_j + 3, j <= i). */
  lemma ColumnAtExact(cols: seq<Column>, ch: int, i: nat)
    requires i < |cols|
    ensures ColumnAt(cols, ch) == i <==> InSpan(cols, i, ch)
  {
    var c := ColumnAt(cols, ch);
    if InSpan(cols, i, ch) && c != i {
      // ColumnAt takes the leftmost matching span, so a different match lies left of `i`
      assert 0 <= c < i;
      SpanStartMonotone(cols, c + 1, i);
    }
  }

  /** The result is -1 exactly when `ch` is before the first column's span or
      at or after the end of the last one. */
  lemma ColumnAtNone(cols: seq<Column>, ch: int)
    ensures ColumnAt(cols, ch) == -1 <==> ch < FirstSpanStart || ch >= SpanStart(cols, |cols|)
  {
    if ColumnAt(cols, ch) == -1 {
      if FirstSpanStart <= ch < SpanStart(cols, |cols|) {
        SpansTile(cols, ch, |cols|);
      }
    } else {
      var c := ColumnAt(cols, ch);
      SpanStartMonotone(cols, c + 1, |cols|);
    }
  }

  /** The first character of a column's span resolves to that column. */
  lemma ColumnAtSpanStart(cols: seq<Column>, i: nat)
    requires i < |cols|
    ensures ColumnAt(cols, SpanStart(cols, i)) == i
  {
    ColumnAtExact(cols, SpanStart(cols, i), i);
  }

  /** The cell address under `pos` in a table that starts on `startLine` and
      has columns `cols`: the row is the line offset from the table's first
      line, whatever the character; the column is found by walking the spans
      left to right with a running counter. */
  method RowColFromPosition(startLine: nat, cols: seq<Column>, pos: Position) returns (rc: RowCol)
    ensures rc.row == pos.line - startLine
    ensures rc.col == ColumnAt(cols, pos.character)
  {
    rc := RowCol(-1, -1);
    rc := rc.(row := pos.line - startLine);
    var counter := FirstSpanStart;
    var i := 0;
    while i < |cols|
      invariant 0 <= i <= |cols|
      invariant counter == SpanStart(cols, i)
      invariant rc == RowCol(pos.line - startLine, -1)
      invariant FindSpan(cols, pos.character, i) == ColumnAt(cols, pos.character)
    {
      var col := cols[i];
      if pos.character >= counter && pos.character < counter + col.width + Decoration {
        rc := rc.(col := i);
        break;
      }
      counter := counter + col.width + Decoration;
      i := i + 1;
    }
  }
}
