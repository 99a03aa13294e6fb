/** CSV text to grid and back: `split_lines`, `csvtxt_to_data`, and the text
    `save_data` hands to `write_csv`. No quoting: `,` and `\n` always delimit. */
module Codec {
  import opened Text
  import opened Sheet

  predicate EndsWithNewline(s: string) {
    |s| > 0 && s[|s| - 1] == '\n'
  }

  /** `split_lines`: the lines of `content`, dropping one empty line after a final `\n`. */
  function SplitLines(content: string): (lines: seq<string>)
    ensures forall l :: l in lines ==> '\n' !in l
    ensures lines == [] <==> content == ""
  {
    var parts := Split(content, '\n');
    LastPieceEmpty(content, '\n');
    if parts[|parts| - 1] == "" then parts[..|parts| - 1] else parts
  }

  /** `split_lines` loses nothing but one line terminator, and drops at most one line. */
  lemma SplitLinesJoin(content: string)
    ensures var lines := SplitLines(content);
      && Join(lines, '\n') + (if EndsWithNewline(content) then "\n" else "") == content
      && |lines| == Count(content, '\n') + (if content == "" || EndsWithNewline(content) then 0 else 1)
  {
    var parts := Split(content, '\n');
    var lines := SplitLines(content);
    LastPieceEmpty(content, '\n');
    if EndsWithNewline(content) {
      var prefix := content[..|content| - 1];
      assert content == prefix + ['\n'];
      SplitSnocSep(prefix, '\n');
      assert parts == Split(prefix, '\n') + [[]];
      assert lines == parts[..|parts| - 1];
      assert lines == Split(prefix, '\n');
      JoinSplit(prefix, '\n');
    } else if content != "" {
      assert lines == parts;
      JoinSplit(content, '\n');
    }
  }

  /** The lines of the file `save_data` writes: the header first, then every data row. */
  function Records(g: Grid): seq<Row> {
    [g.header] + g.rows
  }

  /** No cell holds a delimiter, so no cell can be split apart by a reload. */
  predicate Clean(g: Grid) {
    forall r, c :: r in Records(g) && c in r ==> ',' !in c && '\n' !in c
  }

  /** Every line has at least one cell (`"".split(',')` is `[""]`, never `[]`). */
  predicate NonEmptyRecords(g: Grid) {
    forall r :: r in Records(g) ==> r != []
  }

  /** Each line split on `,` (the loop of `csvtxt_to_data`). */
  function SplitCells(lines: seq<string>): (rows: seq<Row>)
    ensures |rows| == |lines|
    ensures forall i :: 0 <= i < |lines| ==> rows[i] == Split(lines[i], ',')
  {
    seq(|lines|, i requires 0 <= i < |lines| => Split(lines[i], ','))
  }

  /** Each line's cells joined with `,` (the inner join of `write_csv`). */
  function JoinCells(records: seq<Row>): (lines: seq<string>)
    ensures |lines| == |records|
    ensures forall i :: 0 <= i < |records| ==> lines[i] == Join(records[i], ',')
  {
    seq(|records|, i requires 0 <= i < |records| => Join(records[i], ','))
  }

  /** `csvtxt_to_data`: the first line is the header, every later line one row, unpadded. */
  function Parse(text: string): (g: Grid)
    ensures g == Grid([], []) <==> text == ""
    ensures Clean(g)
    ensures text != "" ==> NonEmptyRecords(g) && |Records(g)| == |SplitLines(text)|
  {
    var lines := SplitLines(text);
    if lines == [] then Grid([], [])
    else
      SplitCellsClean(lines);
      Grid(Split(lines[0], ','), SplitCells(lines[1..]))
  }

  /** Cells split out of newline-free lines hold neither delimiter. */
  lemma SplitCellsClean(lines: seq<string>)
    requires |lines| >= 1
    requires forall l :: l in lines ==> '\n' !in l
    ensures Clean(Grid(Split(lines[0], ','), SplitCells(lines[1..])))
    ensures NonEmptyRecords(Grid(Split(lines[0], ','), SplitCells(lines[1..])))
  {
    var g := Grid(Split(lines[0], ','), SplitCells(lines[1..]));
    var recs := Records(g);
    assert |recs| == |lines|;
    forall i | 0 <= i < |lines|
      ensures recs[i] == Split(lines[i], ',')
      ensures forall c :: c in recs[i] ==> ',' !in c && '\n' !in c
    {
      if i > 0 {
        assert lines[1..][i - 1] == lines[i];
      }
      assert lines[i] in lines;
      SplitPiecesAvoid(lines[i], ',', '\n');
    }
    forall r, c | r in recs && c in r
      ensures ',' !in c && '\n' !in c
    {
      var i :| 0 <= i < |recs| && recs[i] == r;
    }
  }

  /** The text `save_data` writes: lines joined with `\n`, no final terminator. */
  function Serialize(g: Grid): string {
    Join(JoinCells(Records(g)), '\n')
  }

  /** The cells of one record of a clean grid hold no `,`. */
  lemma RecordCommaFree(g: Grid, i: nat)
    requires Clean(g) && i < |Records(g)|
    ensures forall c :: c in Records(g)[i] ==> ',' !in c
  {
    assert Records(g)[i] in Records(g);
  }

  /** A clean grid is read back from any text whose lines are its joined records. */
  lemma ParseOfLines(g: Grid, text: string)
    requires Clean(g) && NonEmptyRecords(g)
    requires SplitLines(text) == JoinCells(Records(g))
    ensures Parse(text) == g
  {
    var lines := JoinCells(Records(g));
    ParseUnfold(text, lines);
    HeaderBack(g);
    RowsBack(g);
  }

  lemma ParseUnfold(text: string, lines: seq<string>)
    requires SplitLines(text) == lines && lines != []
    ensures Parse(text) == Grid(Split(lines[0], ','), SplitCells(lines[1..]))
  {
  }

  /** Splitting the joined header of a clean grid gives the header back. */
  lemma HeaderBack(g: Grid)
    requires Clean(g) && NonEmptyRecords(g)
    ensures Split(JoinCells(Records(g))[0], ',') == g.header
  {
    var recs := Records(g);
    assert recs[0] == g.header && recs[0] in recs;
    RecordCommaFree(g, 0);
    SplitJoin(g.header, ',');
  }

  /** Splitting the joined data rows of a clean grid gives the rows back. */
  lemma RowsBack(g: Grid)
    requires Clean(g) && NonEmptyRecords(g)
    ensures SplitCells(JoinCells(Records(g))[1..]) == g.rows
  {
    var recs := Records(g);
    var lines := JoinCells(recs);
    var rows := SplitCells(lines[1..]);
    forall i | 0 <= i < |g.rows|
      ensures rows[i] == g.rows[i]
    {
      assert recs[i + 1] == g.rows[i] && recs[i + 1] in recs;
      RecordCommaFree(g, i + 1);
      assert lines[1..][i] == lines[i + 1];
      SplitJoin(g.rows[i], ',');
    }
  }

  /** The joined records of a clean grid are the lines its text splits into. */
  lemma SplitSerialized(g: Grid)
    requires Clean(g) && NonEmptyRecords(g)
    ensures Split(Serialize(g), '\n') == JoinCells(Records(g))
  {
    var recs := Records(g);
    var lines := JoinCells(recs);
    forall l | l in lines
      ensures '\n' !in l
    {
      var i :| 0 <= i < |lines| && lines[i] == l;
      assert recs[i] in recs;
      JoinAvoids(recs[i], ',', '\n');
    }
    SplitJoin(lines, '\n');
  }

  /** Round trip: saving then loading gives the grid back, provided no cell holds a
      delimiter, no line is empty, and the last line is not one empty cell; the empty
      grid is the one exception to the second condition, and comes back through `""`. */
  lemma ParseSerialize(g: Grid)
    requires Clean(g)
    requires g == Grid([], []) || (NonEmptyRecords(g) && Records(g)[|Records(g)| - 1] != [""])
    ensures Parse(Serialize(g)) == g
  {
    if g == Grid([], []) {
      assert JoinCells(Records(g)) == [""];
      assert Serialize(g) == "";
    } else {
      var recs := Records(g);
      var lines := JoinCells(recs);
      SplitSerialized(g);
      assert recs[|recs| - 1] in recs;
      JoinEmpty(recs[|recs| - 1], ',');
      assert lines[|lines| - 1] != "";
      ParseOfLines(g, Serialize(g));
    }
  }

  /** Loading then saving gives the text back, less one final line terminator. */
  lemma SerializeParse(text: string)
    ensures Serialize(Parse(text)) + (if EndsWithNewline(text) then "\n" else "") == text
  {
    SplitLinesJoin(text);
    var lines := SplitLines(text);
    if lines != [] {
      var g := Parse(text);
      var joined := JoinCells(Records(g));
      forall i | 0 <= i < |lines|
        ensures joined[i] == lines[i]
      {
        JoinSplit(lines[i], ',');
      }
      assert joined == lines;
    }
  }

  /** As written, a final row holding one empty cell is saved as nothing after the last
      `\n`-free line, so loading the file drops that row. */
  lemma TrailingEmptyRowLost(g: Grid)
    requires Clean(g) && NonEmptyRecords(g)
    requires Records(g)[|Records(g)| - 1] != [""]
    ensures Parse(Serialize(Grid(g.header, g.rows + [[""]]))) == g
  {
    var g' := Grid(g.header, g.rows + [[""]]);
    assert Records(g') == Records(g) + [[""]];
    var lines := JoinCells(Records(g));
    assert JoinCells(Records(g')) == lines + [""];
    JoinSnoc(lines, "", '\n');
    assert Serialize(g') == Serialize(g) + ['\n'];
    SplitSerialized(g);
    SplitSnocSep(Serialize(g), '\n');
    JoinEmpty(Records(g)[|Records(g)| - 1], ',');
    ParseOfLines(g, Serialize(g'));
  }

  /** The save text with one `\n` after every line, including the last. */
  function SerializeTerminated(g: Grid): string {
    Serialize(g) + "\n"
  }

  /** With a terminated last line every clean grid with non-empty lines round-trips,
      including one whose last row is a single empty cell. */
  lemma TerminatedRoundTrip(g: Grid)
    requires Clean(g) && NonEmptyRecords(g)
    ensures Parse(SerializeTerminated(g)) == g
  {
    SplitSerialized(g);
    SplitSnocSep(Serialize(g), '\n');
    ParseOfLines(g, SerializeTerminated(g));
  }

  /** A small sheet read from text: the header line and two rows. */
  lemma ParseExample()
    ensures Parse("h1,h2\n1,2\n3,4") == Grid(["h1", "h2"], [["1", "2"], ["3", "4"]])
  {
    var g := Grid(["h1", "h2"], [["1", "2"], ["3", "4"]]);
    ExampleClean(g);
    ExampleSerialized(g);
    ParseSerialize(g);
  }

  lemma ExampleClean(g: Grid)
    requires g == Grid(["h1", "h2"], [["1", "2"], ["3", "4"]])
    ensures Clean(g) && NonEmptyRecords(g)
    ensures Records(g)[|Records(g)| - 1] != [""]
  {
    var recs := Records(g);
    assert recs == [["h1", "h2"], ["1", "2"], ["3", "4"]];
    forall r, c | r in recs && c in r
      ensures ',' !in c && '\n' !in c
    {
      assert c in {"h1", "h2", "1", "2", "3", "4"};
    }
  }

  lemma ExampleSerialized(g: Grid)
    requires g == Grid(["h1", "h2"], [["1", "2"], ["3", "4"]])
    ensures Serialize(g) == "h1,h2\n1,2\n3,4"
  {
    var recs := Records(g);
    assert recs == [["h1", "h2"], ["1", "2"], ["3", "4"]];
    var lines := JoinCells(recs);
    JoinTwo("h1", "h2", ',');
    JoinTwo("1", "2", ',');
    JoinTwo("3", "4", ',');
    assert lines[0] == "h1" + [','] + "h2" == "h1,h2";
    assert lines[1] == "1" + [','] + "2" == "1,2";
    assert lines[2] == "3" + [','] + "4" == "3,4";
    assert lines == ["h1,h2", "1,2", "3,4"];
    JoinTwo("1,2", "3,4", '\n');
    assert ["h1,h2", "1,2", "3,4"][1..] == ["1,2", "3,4"];
  }

  lemma JoinTwo(a: string, b: string, sep: char)
    ensures Join([a, b], sep) == a + [sep] + b
  {
    assert [a, b][1..] == [b];
  }
}
