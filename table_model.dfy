/** The in-memory table that the editor commands work on: an ordered list of
    typed rows of cell strings, an ordered list of column descriptors, and the
    document line on which the table starts.

    The table class itself lives in a module (`ttTable`) that is not part of
    this model; here its row/cell storage is plain sequences, and `AddRow`,
    `GetAt` and `SetAt` are plain appends, reads and writes. */
module TableModel {

  datatype RowType = Data | Separator

  datatype Alignment = Left | Center | Right

  /** A column descriptor: the rendered width of its content and its alignment. */
  datatype Column = Column(width: nat, alignment: Alignment)

  /** One table line: a Data row holds user text, a Separator row holds only
      alignment markers, but both keep one cell slot per column. */
  datatype Row = Row(kind: RowType, cells: seq<string>)

  /** The cells of a freshly added row: `n` empty strings. */
  function EmptyCells(n: nat): (cells: seq<string>)
    ensures |cells| == n
    ensures forall k :: 0 <= k < n ==> cells[k] == ""
  {
    seq(n, _ => "")
  }

  /** The columns a table gets from the first row added to it: one per cell. */
  function ColumnsFor(cells: seq<string>): (cols: seq<Column>)
    ensures |cols| == |cells|
    ensures forall k :: 0 <= k < |cells| ==> cols[k].width == |cells[k]|
  {
    seq(|cells|, k requires 0 <= k < |cells| => Column(|cells[k]|, Left))
  }

  /** Every row has exactly `width` cells. */
  ghost predicate Rectangular(rows: seq<Row>, width: nat)
  {
    forall k :: 0 <= k < |rows| ==> |rows[k].cells| == width
  }

  /** Exchanges the entries at `i` and `j`; every other entry stays where it is. */
  function Swap<T>(s: seq<T>, i: nat, j: nat): (r: seq<T>)
    requires i < |s| && j < |s|
    ensures |r| == |s| && r[i] == s[j] && r[j] == s[i]
    ensures forall k :: 0 <= k < |s| && k != i && k != j ==> r[k] == s[k]
    ensures multiset(r) == multiset(s)
  {
    s[i := s[j]][j := s[i]]
  }

  /** Exchanges, in every row, the cells at columns `i` and `j`. */
  function SwapColumns(rows: seq<Row>, i: nat, j: nat): (r: seq<Row>)
    requires forall k :: 0 <= k < |rows| ==> i < |rows[k].cells| && j < |rows[k].cells|
    ensures |r| == |rows|
    ensures forall k :: 0 <= k < |rows| ==>
      r[k].kind == rows[k].kind && |r[k].cells| == |rows[k].cells|
    ensures forall k :: 0 <= k < |rows| ==>
      r[k].cells[i] == rows[k].cells[j] && r[k].cells[j] == rows[k].cells[i]
    ensures forall k, m :: 0 <= k < |rows| && 0 <= m < |rows[k].cells| && m != i && m != j ==>
      r[k].cells[m] == rows[k].cells[m]
  {
    seq(|rows|, k requires 0 <= k < |rows| => rows[k].(cells := Swap(rows[k].cells, i, j)))
  }

  /** Swapping the same two entries twice gives back the original sequence,
      whichever order the two indices are named in. */
  lemma SwapInvolution<T>(s: seq<T>, i: nat, j: nat)
    requires i < |s| && j < |s|
    ensures Swap(Swap(s, i, j), j, i) == s
    ensures Swap(Swap(s, i, j), i, j) == s
  {
  }

  /** Swapping the same two columns twice gives back every row unchanged. */
  lemma {:induction false} SwapColumnsInvolution(rows: seq<Row>, i: nat, j: nat)
    requires forall k :: 0 <= k < |rows| ==> i < |rows[k].cells| && j < |rows[k].cells|
    ensures SwapColumns(SwapColumns(rows, i, j), j, i) == rows
    ensures SwapColumns(SwapColumns(rows, i, j), i, j) == rows
  {
    var once := SwapColumns(rows, i, j);
    forall k | 0 <= k < |rows|
      ensures SwapColumns(once, j, i)[k] == rows[k]
      ensures SwapColumns(once, i, j)[k] == rows[k]
    {
      SwapInvolution(rows[k].cells, i, j);
    }
  }

  class Table {
    var rows: seq<Row>
    var cols: seq<Column>
    /** The document line of the table's first row. */
    var startLine: nat

    /** Every row has one cell per column. */
    ghost predicate Valid()
      reads this
    {
      Rectangular(rows, |cols|)
    }

    constructor ()
      ensures Valid()
      ensures rows == [] && cols == [] && startLine == 0
    {
      rows := [];
      cols := [];
      startLine := 0;
    }

    /** Appends a row. The first row added to a table without columns fixes
        its columns; any other row must have one cell per column. */
    method AddRow(kind: RowType, cells: seq<string>)
      requires Valid()
      requires |cells| == |cols| || (cols == [] && rows == [])
      modifies this`rows, this`cols
      ensures Valid()
      ensures rows == old(rows) + [Row(kind, cells)]
      ensures cols == if old(cols) == [] then ColumnsFor(cells) else old(cols)
    {
      if cols == [] {
        cols := ColumnsFor(cells);
      }
      rows := rows + [Row(kind, cells)];
    }

    /** The cell at table-local row `row` and column `col`. */
    function GetAt(row: nat, col: nat): (v: string)
      reads this
      requires row < |rows| && col < |rows[row].cells|
      ensures v == rows[row].cells[col]
    {
      rows[row].cells[col]
    }

    /** Overwrites one cell, leaving every other cell, the row types and the
        columns as they were. */
    method SetAt(row: nat, col: nat, value: string)
      requires Valid() && row < |rows| && col < |cols|
      modifies this`rows
      ensures Valid()
      ensures |rows| == |old(rows)|
      ensures rows[row] == Row(old(rows)[row].kind, old(rows)[row].cells[col := value])
      ensures forall k :: 0 <= k < |rows| && k != row ==> rows[k] == old(rows)[k]
    {
      rows := rows[row := rows[row].(cells := rows[row].cells[col := value])];
    }
  }
}
