/** The spreadsheet data model: a header row plus data rows, every cell a string. */
module Sheet {

  /** One line of the sheet: header labels or data cells, left to right. */
  type Row = seq<string>

  /** The `{'header': ..., 'data': ...}` dictionary the engine passes around. */
  datatype Grid = Grid(header: Row, rows: seq<Row>)

  /** Every data row has one cell per header label. */
  predicate Rectangular(g: Grid) {
    forall i :: 0 <= i < |g.rows| ==> |g.rows[i]| == |g.header|
  }

  /** Every row is long enough to be read at index `col`. */
  predicate Fits(rows: seq<Row>, col: nat) {
    forall i :: 0 <= i < |rows| ==> col < |rows[i]|
  }

  /** The cells at index `col`, top to bottom. */
  function Column(rows: seq<Row>, col: nat): (cells: seq<string>)
    requires Fits(rows, col)
    ensures |cells| == |rows|
  {
    if rows == [] then [] else [rows[0][col]] + Column(rows[1..], col)
  }

  lemma {:induction false} ColumnSnoc(rows: seq<Row>, r: Row, col: nat)
    requires Fits(rows, col) && col < |r|
    ensures Fits(rows + [r], col)
    ensures Column(rows + [r], col) == Column(rows, col) + [r[col]]
  {
    if rows != [] {
      assert (rows + [r])[1..] == rows[1..] + [r];
      ColumnSnoc(rows[1..], r, col);
    }
  }
}
