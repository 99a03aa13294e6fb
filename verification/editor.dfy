/** The empty-grid factory and the copy-returning structural edits. Every
    operation builds a new header or a new row list; its input is left as it was. */
module Editor {
  import opened Slices
  import opened Decimal
  import opened Sheet

  /** `"Column " + str(i)`: the label the factory gives column number `i`. */
  function FactoryLabel(i: nat): string {
    "Column " + DecimalString(i)
  }

  /** `"column" + str(i)`: the label an insertion gives the new column number `i`
      (lower case, no space, unlike the factory's). */
  function InsertedLabel(i: nat): string {
    "column" + DecimalString(i)
  }

  /** `create_empty_data_header`: labels `Column 1` to `Column n`; none for `n <= 0`. */
  function EmptyHeader(numCols: int): (h: Row)
    ensures |h| == if numCols <= 0 then 0 else numCols
    ensures forall i :: 0 <= i < |h| ==> h[i] == FactoryLabel(i + 1)
  {
    if numCols <= 0 then [] else EmptyHeader(numCols - 1) + [FactoryLabel(numCols)]
  }

  /** A row of `n` empty cells. */
  function EmptyRow(n: nat): (r: Row)
    ensures |r| == n && forall j :: 0 <= j < n ==> r[j] == ""
  {
    seq(n, _ => "")
  }

  /** `create_empty_data`: the factory header over `numRows` rows of empty cells. */
  function EmptyGrid(numCols: int, numRows: int): (g: Grid)
    ensures g.header == EmptyHeader(numCols)
    ensures |g.rows| == if numRows <= 0 then 0 else numRows
    ensures Rectangular(g)
    ensures forall i, j :: 0 <= i < |g.rows| && 0 <= j < |g.rows[i]| ==> g.rows[i][j] == ""
  {
    var width := if numCols <= 0 then 0 else numCols;
    var height := if numRows <= 0 then 0 else numRows;
    Grid(EmptyHeader(numCols), seq(height, _ => EmptyRow(width)))
  }

  /** Example: `create_empty_data(1, 1)`. */
  lemma FactoryOneByOne()
    ensures EmptyGrid(1, 1) == Grid(["Column 1"], [[""]])
  {
    assert DecimalString(1) == "1";
    assert FactoryLabel(1) == "Column 1";
    assert EmptyHeader(1) == EmptyHeader(0) + [FactoryLabel(1)] == ["Column 1"];
    assert EmptyRow(1) == [""];
  }

  /** The factory never repeats a label. */
  lemma EmptyHeaderDistinct(numCols: int)
    ensures var h := EmptyHeader(numCols);
      forall i, j :: 0 <= i < j < |h| ==> h[i] != h[j]
  {
    var h := EmptyHeader(numCols);
    forall i, j | 0 <= i < j < |h|
      ensures h[i] != h[j]
    {
      if h[i] == h[j] {
        assert DecimalString(i + 1) == h[i][7..];
        assert DecimalString(j + 1) == h[j][7..];
        DecimalStringInjective(i + 1, j + 1);
      }
    }
  }

  /** `create_new_header_column`: `column<idx+1>` placed at `idx` (at the end when
      `idx` is past it), the other labels kept in order. */
  function InsertHeaderLabel(header: Row, idx: nat): (r: Row)
    ensures |r| == |header| + 1
    ensures var p := Min(idx, |header|);
      r[p] == InsertedLabel(idx + 1) && r[..p] == header[..p] && r[p + 1..] == header[p..]
  {
    InsertAt(header, idx, InsertedLabel(idx + 1))
  }

  /** `create_new_column`: an empty cell at `idx` in every row (appended to rows
      shorter than `idx`), the other cells kept in order. */
  function InsertColumn(rows: seq<Row>, idx: nat): (r: seq<Row>)
    ensures |r| == |rows|
    ensures forall k :: 0 <= k < |rows| ==>
      var p := Min(idx, |rows[k]|);
      |r[k]| == |rows[k]| + 1 && r[k][p] == "" && r[k][..p] == rows[k][..p] && r[k][p + 1..] == rows[k][p..]
  {
    seq(|rows|, k requires 0 <= k < |rows| => InsertAt(rows[k], idx, ""))
  }

  /** `create_new_row`: a row of as many empty cells as the first row has (none when
      there are no rows) placed at `idx`, the other rows kept in order. */
  function InsertRow(rows: seq<Row>, idx: nat): (r: seq<Row>)
    ensures |r| == |rows| + 1
    ensures var p := Min(idx, |rows|);
      r[p] == EmptyRow(if rows == [] then 0 else |rows[0]|) && r[..p] == rows[..p] && r[p + 1..] == rows[p..]
  {
    var width := if rows == [] then 0 else |rows[0]|;
    InsertAt(rows, idx, EmptyRow(width))
  }

  /** `delete_header_column`: the header without label `idx`, or the header itself
      when `idx` is not a label position. */
  function DeleteHeaderLabel(header: Row, idx: int): (r: Row)
    ensures 0 <= idx < |header| ==> |r| == |header| - 1 && r[..idx] == header[..idx] && r[idx..] == header[idx + 1..]
    ensures !(0 <= idx < |header|) ==> r == header
  {
    if !(0 <= idx < |header|) then header
    else header[..idx] + header[idx + 1..]
  }

  /** `delete_column`: cell `idx` removed from every row that has one; shorter rows kept. */
  function DeleteColumn(rows: seq<Row>, idx: nat): (r: seq<Row>)
    ensures |r| == |rows|
    ensures forall k :: 0 <= k < |rows| && idx < |rows[k]| ==>
      |r[k]| == |rows[k]| - 1 && r[k][..idx] == rows[k][..idx] && r[k][idx..] == rows[k][idx + 1..]
    ensures forall k :: 0 <= k < |rows| && idx >= |rows[k]| ==> r[k] == rows[k]
  {
    seq(|rows|, k requires 0 <= k < |rows| => SliceOut(rows[k], idx))
  }

  /** `delete_row`: row `idx` removed when there is one; otherwise the rows unchanged. */
  function DeleteRow(rows: seq<Row>, idx: nat): (r: seq<Row>)
    ensures idx < |rows| ==> |r| == |rows| - 1 && r[..idx] == rows[..idx] && r[idx..] == rows[idx + 1..]
    ensures idx >= |rows| ==> r == rows
  {
    SliceOut(rows, idx)
  }

  /** `update_cell`: cell (`rowIdx`, `colIdx`) replaced when it exists; every other
      cell, every row length and the row count kept. */
  function UpdateCell(rows: seq<Row>, rowIdx: int, colIdx: int, value: string): (r: seq<Row>)
    ensures |r| == |rows|
    ensures forall i :: 0 <= i < |rows| ==> |r[i]| == |rows[i]|
    ensures forall i, j :: 0 <= i < |rows| && 0 <= j < |rows[i]| && (i, j) != (rowIdx, colIdx) ==> r[i][j] == rows[i][j]
    ensures 0 <= rowIdx < |rows| && 0 <= colIdx < |rows[rowIdx]| ==> r[rowIdx][colIdx] == value
    ensures !(0 <= rowIdx < |rows| && 0 <= colIdx < |rows[rowIdx]|) ==> r == rows
  {
    seq(|rows|, i requires 0 <= i < |rows| =>
      if i == rowIdx && 0 <= colIdx < |rows[i]| then rows[i][colIdx := value] else rows[i])
  }

  /** Deleting the label just inserted gives the header back. */
  lemma DeleteInsertedHeaderLabel(header: Row, idx: nat)
    requires idx <= |header|
    ensures DeleteHeaderLabel(InsertHeaderLabel(header, idx), idx) == header
  {
    SliceOutInsertAt(header, idx, InsertedLabel(idx + 1));
  }

  /** Deleting the column just inserted gives the rows back, when no row is shorter than `idx`. */
  lemma DeleteInsertedColumn(rows: seq<Row>, idx: nat)
    requires forall k :: 0 <= k < |rows| ==> idx <= |rows[k]|
    ensures DeleteColumn(InsertColumn(rows, idx), idx) == rows
  {
    var r := DeleteColumn(InsertColumn(rows, idx), idx);
    forall k | 0 <= k < |rows|
      ensures r[k] == rows[k]
    {
      SliceOutInsertAt(rows[k], idx, "");
    }
  }

  /** Deleting the row just inserted gives the rows back. */
  lemma DeleteInsertedRow(rows: seq<Row>, idx: nat)
    requires idx <= |rows|
    ensures DeleteRow(InsertRow(rows, idx), idx) == rows
  {
    SliceOutInsertAt(rows, idx, EmptyRow(if rows == [] then 0 else |rows[0]|));
  }

  /** Writing back a cell's old value undoes an update. */
  lemma UpdateCellUndo(rows: seq<Row>, rowIdx: nat, colIdx: nat, value: string)
    requires rowIdx < |rows| && colIdx < |rows[rowIdx]|
    ensures UpdateCell(UpdateCell(rows, rowIdx, colIdx, value), rowIdx, colIdx, rows[rowIdx][colIdx]) == rows
  {
    var r := UpdateCell(UpdateCell(rows, rowIdx, colIdx, value), rowIdx, colIdx, rows[rowIdx][colIdx]);
    forall i | 0 <= i < |rows|
      ensures r[i] == rows[i]
    {
    }
  }

  /** Inserting a label and a column at the same index, as the user interface does,
      keeps a rectangular grid rectangular. */
  lemma InsertColumnKeepsShape(g: Grid, idx: nat)
    requires Rectangular(g)
    ensures Rectangular(Grid(InsertHeaderLabel(g.header, idx), InsertColumn(g.rows, idx)))
  {
  }

  /** Deleting a label and a column at the same index keeps a rectangular grid rectangular. */
  lemma DeleteColumnKeepsShape(g: Grid, idx: nat)
    requires Rectangular(g)
    ensures Rectangular(Grid(DeleteHeaderLabel(g.header, idx), DeleteColumn(g.rows, idx)))
  {
  }

  /** Inserting a row keeps a rectangular grid rectangular when it already has a row;
      with no rows the new row has no cells whatever the header. */
  lemma InsertRowKeepsShape(g: Grid, idx: nat)
    requires Rectangular(g)
    ensures g.rows != [] ==> Rectangular(Grid(g.header, InsertRow(g.rows, idx)))
    ensures g.rows == [] ==> InsertRow(g.rows, idx) == [[]]
  {
    var r := InsertRow(g.rows, idx);
    var p := Min(idx, |g.rows|);
    if g.rows != [] {
      forall i | 0 <= i < |r|
        ensures |r[i]| == |g.header|
      {
        if i < p {
          assert r[i] == r[..p][i];
        } else if i > p {
          assert r[i] == r[p + 1..][i - p - 1];
        }
      }
    }
  }

  /** Deleting a row or updating a cell keeps a rectangular grid rectangular. */
  lemma RowEditsKeepShape(g: Grid, idx: nat, rowIdx: int, colIdx: int, value: string)
    requires Rectangular(g)
    ensures Rectangular(Grid(g.header, DeleteRow(g.rows, idx)))
    ensures Rectangular(Grid(g.header, UpdateCell(g.rows, rowIdx, colIdx, value)))
  {
    var r := DeleteRow(g.rows, idx);
    if idx < |g.rows| {
      forall i | 0 <= i < |r|
        ensures |r[i]| == |g.header|
      {
        if i < idx {
          assert r[i] == r[..idx][i];
        } else {
          assert r[i] == r[idx..][i - idx];
        }
      }
    }
  }

  /** The in-file examples of `create_new_column` (line 291). */
  lemma InsertColumnExample()
    ensures InsertColumn([["A1", "B1", "C1"], ["A2", "B2", "C2"]], 1) == [["A1", "", "B1", "C1"], ["A2", "", "B2", "C2"]]
  {
    var rows := [["A1", "B1", "C1"], ["A2", "B2", "C2"]];
    var r := InsertColumn(rows, 1);
    assert r[0] == InsertAt(rows[0], 1, "") == ["A1", "", "B1", "C1"];
    assert r[1] == InsertAt(rows[1], 1, "") == ["A2", "", "B2", "C2"];
  }

  /** `create_new_row` between two rows (line 303), and on no rows, where the code
      gives one row with no cells. */
  lemma InsertRowExample()
    ensures InsertRow([["A1", "B1"], ["A2", "B2"]], 1) == [["A1", "B1"], ["", ""], ["A2", "B2"]]
    ensures InsertRow([], 0) == [[]]
  {
    assert EmptyRow(2) == ["", ""];
    assert EmptyRow(0) == [];
  }

  /** `create_new_header_column` at 1: the new label is `column2`, the others keep theirs. */
  lemma InsertHeaderLabelExample()
    ensures InsertHeaderLabel(["Column 1", "Column 2", "Column 3"], 1) == ["Column 1", "column2", "Column 2", "Column 3"]
  {
    assert DecimalString(2) == "2";
    assert InsertedLabel(2) == "column2";
  }

  /** The in-file examples of `delete_column`, `delete_row` and `update_cell`, and
      `delete_header_column` at 0, which removes the first label. */
  lemma DeleteExamples()
    ensures DeleteColumn([["A", "10"], ["B", "20"]], 0) == [["10"], ["20"]]
    ensures DeleteRow([["A"], ["B"]], 0) == [["B"]]
    ensures UpdateCell([["A"]], 0, 0, "B") == [["B"]]
    ensures DeleteHeaderLabel(["Column 1", "Column 2"], 0) == ["Column 2"]
  {
    var rows := [["A", "10"], ["B", "20"]];
    var r := DeleteColumn(rows, 0);
    assert r[0] == SliceOut(rows[0], 0) == ["10"];
    assert r[1] == SliceOut(rows[1], 0) == ["20"];
    var u := UpdateCell([["A"]], 0, 0, "B");
    assert u[0] == ["B"];
  }
}
