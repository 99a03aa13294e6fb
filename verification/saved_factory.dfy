/** The factory's empty sheet saved and reloaded: the lost last row of the save text
    as written, and its survival once the last line is terminated. */
module SavedFactory {
  import opened Sheet
  import opened Codec
  import opened Editor

  /** The factory's one-column, one-row sheet, saved as written, reloads with no rows. */
  lemma FactoryGridRowLost()
    ensures Parse(Serialize(EmptyGrid(1, 1))) == Grid(["Column 1"], [])
  {
    var g := Grid(["Column 1"], []);
    FactoryOneByOne();
    FactoryGridClean();
    TrailingEmptyRowLost(g);
    assert Grid(g.header, g.rows + [[""]]) == EmptyGrid(1, 1);
  }

  /** The same sheet saved with a terminated last line reloads unchanged. */
  lemma FactoryGridTerminated()
    ensures Parse(SerializeTerminated(EmptyGrid(1, 1))) == EmptyGrid(1, 1)
  {
    FactoryOneByOne();
    FactoryGridClean();
    TerminatedRoundTrip(Grid(["Column 1"], [[""]]));
  }

  lemma FactoryGridClean()
    ensures Clean(Grid(["Column 1"], [])) && NonEmptyRecords(Grid(["Column 1"], []))
    ensures Records(Grid(["Column 1"], []))[0] != [""]
    ensures Clean(Grid(["Column 1"], [[""]])) && NonEmptyRecords(Grid(["Column 1"], [[""]]))
  {
    assert "Column 1" == ['C', 'o', 'l', 'u', 'm', 'n', ' ', '1'];
    assert Records(Grid(["Column 1"], [])) == [["Column 1"]];
    assert Records(Grid(["Column 1"], [[""]])) == [["Column 1"], [""]];
  }
}
