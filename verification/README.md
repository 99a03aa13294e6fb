# Spreadsheet grid engine in Dafny

This project models the data engine of a small spreadsheet application
(`spreadsheet/spreadsheet.py`). A sheet is a header row of labels plus a list of
data rows, and every cell is a string. The engine:

- reads and writes a sheet as flat CSV text, with no quoting;
- builds an empty sheet;
- inserts and deletes header labels, columns and rows, and updates a cell, always
  returning new lists;
- recognises numeric cells;
- sums a column;
- groups the rows by the values of one column and sums another column per group.

Modules, in dependency order:

| module | file | contents |
|---|---|---|
| `Wrappers` | wrappers.dfy | `Option`, standing in for Python's `None` |
| `Slices` | slices.dfy | Python slicing and `list.insert` for non-negative indices, where bounds past the end are clamped |
| `Text` | text.dfy | `str.split`, `str.join`, `str.count`, removing every `.` |
| `StringOrder` | order.dfy | Python's `<` on strings: lexicographic by code point; a proper prefix is smaller |
| `Decimal` | decimal.dfy | ASCII digits and `str(n)` |
| `Sheet` | sheet.dfy | the `Row` and `Grid` data model, and column extraction |
| `Codec` | codec.dfy | `split_lines`, `csvtxt_to_data`, the text `save_data` writes, and the round trips |
| `Editor` | editor.dfy | the empty-grid factory and the structural edits |
| `SavedFactory` | saved_factory.dfy | the factory's 1×1 sheet saved and reloaded, as written and with a terminated last line |
| `Validator` | validator.dfy | `valid_number` and the exact value `float` gives an accepted string |
| `Aggregator` | aggregator.dfy | `sums`, `get_sum`, `get_group_by` |

Numbers are exact reals: an accepted numeral `d₁…dₙ.f₁…fₘ` denotes its digits read
as an integer, divided by 10^m. Python's floating-point rounding is therefore not
modelled (see "Left out").

Python's `IndexError` on a row that is too short is stated as a precondition. This
covers `get_sum`, and `get_group_by` on both the key column and the summed column.

Where the code and the tests written beside it disagree, the model follows the code.
The tests in question are at lines 227, 241, 269, 280-286 and 309. Two points are
decided the same way:

- **The saved text has no final newline.** `write_csv` joins the lines with `\n` and
  adds nothing after the last one, although the file format and the test at line 241
  expect a terminated last line. This is the subject of the finding below.
- **Out-of-range edits keep the source's policies.**
  - `delete_header_column` checks its index.
  - `delete_column` and `delete_row` rely on slice clamping: an index past the end
    changes nothing.
  - `create_new_header_column`, `create_new_column` and `create_new_row` append when
    the index is past the end.

## Model

| member | source | states |
|---|---|---|
| `Text.Split` | spreadsheet/spreadsheet.py:47 | `str.split` yields one more piece than there are separators, and no piece contains the separator |
| `Text.Join` | spreadsheet/spreadsheet.py:20 | `str.join`: no contract of its own; `Text.JoinSplit` and `Text.SplitJoin` fix it as the inverse of `Split` on separator-free pieces |
| `Text.JoinSplit` | spreadsheet/spreadsheet.py:20 | joining the pieces of a split with the same separator gives the original string back |
| `Text.SplitJoin` | spreadsheet/spreadsheet.py:47 | splitting a join of one or more separator-free pieces gives the pieces back |
| `Slices.InsertAt` | spreadsheet/spreadsheet.py:93 | `s[:i] + [x] + s[i:]` holds `x` at `min(i, len(s))`, with everything before it and after it unchanged and in order |
| `Slices.SliceOut` | spreadsheet/spreadsheet.py:127 | `s[:i] + s[i+1:]` drops exactly element `i` when it exists, and is `s` itself when `i` is past the end |
| `Slices.SliceOutInsertAt` | spreadsheet/spreadsheet.py:136 | removing at `i` what was just inserted at `i` restores the list |
| `Slices.InsertAtSliceOut` | spreadsheet/spreadsheet.py:93 | re-inserting a removed element at its index restores the list |
| `StringOrder.Less` | spreadsheet/spreadsheet.py:185 | Python's `<` on strings: no contract of its own; `StringOrder.LessIrreflexive`, `StringOrder.LessTransitive` and `StringOrder.LessTotal` show it is a strict total order |
| `StringOrder.LessIrreflexive` | spreadsheet/spreadsheet.py:185 | no string sorts before itself |
| `StringOrder.LessTransitive` | spreadsheet/spreadsheet.py:185 | string order is transitive |
| `StringOrder.LessTotal` | spreadsheet/spreadsheet.py:185 | any two different strings are ordered one way or the other |
| `Decimal.DecimalString` | spreadsheet/spreadsheet.py:60 | `str(n)` is a non-empty run of digits without a leading zero (except `"0"`) |
| `Decimal.DecimalStringValue` | spreadsheet/spreadsheet.py:60 | reading the digits of `str(n)` back gives `n` |
| `Decimal.DecimalStringInjective` | spreadsheet/spreadsheet.py:60 | different numbers get different strings |
| `Codec.SplitLines` | spreadsheet/spreadsheet.py:14-18 | no line contains `\n`; there are no lines exactly when the content is empty |
| `Codec.SplitLinesJoin` | spreadsheet/spreadsheet.py:14-18 | only a single final `\n` is dropped: rejoining the lines with `\n` and restoring that terminator gives the content back; the number of lines is the number of `\n`s, plus one unless the content is empty or ends in `\n` |
| `Codec.Parse` | spreadsheet/spreadsheet.py:41-50 | empty text, and only empty text, gives the empty grid; no parsed cell holds `,` or `\n`; otherwise every line gives one non-empty record, the header first |
| `Codec.Serialize` | spreadsheet/spreadsheet.py:19-36 | the text `save_data` hands to `write_csv`: no contract of its own; `Codec.ParseSerialize`, `Codec.SerializeParse` and `Codec.ExampleSerialized` fix it |
| `Codec.ParseSerialize` | spreadsheet/spreadsheet.py:19-50 | saving then loading returns the grid when no cell holds a delimiter, no record is empty, and the last record is not a single empty cell; the empty grid round-trips through `""` |
| `Codec.SerializeParse` | spreadsheet/spreadsheet.py:19-50 | loading then saving returns the text, minus one final `\n` |
| `Codec.ParseExample` | spreadsheet/spreadsheet.py:41-50 | `"h1,h2\n1,2\n3,4"` loads as header `["h1", "h2"]` over rows `["1", "2"]` and `["3", "4"]` |
| `Codec.ExampleSerialized` | spreadsheet/spreadsheet.py:19-36 | that sheet is saved as `"h1,h2\n1,2\n3,4"`, with no `\n` after the last line |
| `Codec.TrailingEmptyRowLost` | spreadsheet/spreadsheet.py:19-20 | as written, a last row consisting of one empty cell is lost when the saved text is loaded back |
| `SavedFactory.FactoryGridRowLost` | spreadsheet/spreadsheet.py:19-20 | as written, `create_empty_data(1, 1)` saved then loaded comes back as `["Column 1"]` with no rows |
| `Codec.TerminatedRoundTrip` | spreadsheet/spreadsheet.py:19-20 | with a `\n` after the last line, every grid with delimiter-free cells and non-empty records round-trips, including one whose last row is a single empty cell |
| `SavedFactory.FactoryGridTerminated` | spreadsheet/spreadsheet.py:230-242 | with the terminated last line the test expects, `create_empty_data(1, 1)` round-trips unchanged |
| `Editor.EmptyHeader` | spreadsheet/spreadsheet.py:57-61 | `max(n, 0)` labels, label `i` being `"Column "` followed by `str(i + 1)` |
| `Editor.EmptyHeaderDistinct` | spreadsheet/spreadsheet.py:57-61 | the factory never repeats a label |
| `Editor.EmptyGrid` | spreadsheet/spreadsheet.py:67-75 | the factory header over `max(rows, 0)` rows, every row as wide as the header, and every cell `""` |
| `Editor.FactoryOneByOne` | spreadsheet/spreadsheet.py:67-75 | `create_empty_data(1, 1)` is header `["Column 1"]` over one row `[""]` |
| `Editor.InsertHeaderLabel` | spreadsheet/spreadsheet.py:81-84 | one more label: `"column"` followed by `str(idx + 1)`, at `idx` (at the end when `idx` is past it), with the other labels kept in order around it |
| `Editor.InsertColumn` | spreadsheet/spreadsheet.py:90-95 | same number of rows; each row gains one `""` cell at `idx` (appended when the row is shorter), with the other cells kept in order around it |
| `Editor.InsertRow` | spreadsheet/spreadsheet.py:101-109 | one more row: the new row has as many `""` cells as the first row (none when there are no rows) and sits at `idx`, with the other rows kept in order around it |
| `Editor.DeleteHeaderLabel` | spreadsheet/spreadsheet.py:114-119 | an index in range removes exactly that label and keeps the rest in order; any other index returns the header unchanged |
| `Editor.DeleteColumn` | spreadsheet/spreadsheet.py:124-129 | same number of rows; each row long enough loses exactly cell `idx`; shorter rows are unchanged |
| `Editor.DeleteRow` | spreadsheet/spreadsheet.py:135-136 | an index in range removes exactly that row; an index past the end changes nothing |
| `Editor.UpdateCell` | spreadsheet/spreadsheet.py:141-148 | the addressed cell takes the new value when it exists; every other cell, every row length and the row count are kept; an address outside the rows changes nothing |
| `Editor.InsertHeaderLabelExample` | spreadsheet/spreadsheet.py:81-84 | inserting at 1 into `Column 1..3` gives `["Column 1", "column2", "Column 2", "Column 3"]`: only the new label is computed |
| `Editor.InsertColumnExample` | spreadsheet/spreadsheet.py:90-95 | the test at line 291: an empty cell lands at index 1 of both rows |
| `Editor.InsertRowExample` | spreadsheet/spreadsheet.py:101-109 | the test at line 303, and `create_new_row([], 0)`, which gives `[[]]` |
| `Editor.DeleteExamples` | spreadsheet/spreadsheet.py:114-148 | the tests at lines 313, 317 and 321, and `delete_header_column` at 0, which removes `Column 1` |
| `Editor.DeleteInsertedHeaderLabel` | spreadsheet/spreadsheet.py:114-119 | deleting the label just inserted at the same index restores the header |
| `Editor.DeleteInsertedColumn` | spreadsheet/spreadsheet.py:124-129 | deleting the column just inserted at the same index restores the rows, when no row is shorter than the index |
| `Editor.DeleteInsertedRow` | spreadsheet/spreadsheet.py:135-136 | deleting the row just inserted at the same index restores the rows |
| `Editor.UpdateCellUndo` | spreadsheet/spreadsheet.py:141-148 | writing a cell's old value back undoes an update |
| `Editor.InsertColumnKeepsShape` | spreadsheet/spreadsheet.py:81-95 | inserting a label and a column at the same index keeps every row as wide as the header |
| `Editor.DeleteColumnKeepsShape` | spreadsheet/spreadsheet.py:114-129 | deleting a label and a column at the same index keeps every row as wide as the header |
| `Editor.InsertRowKeepsShape` | spreadsheet/spreadsheet.py:101-109 | a new row keeps the grid rectangular when there already is a row; with no rows the result is one row with no cells, whatever the header |
| `Editor.RowEditsKeepShape` | spreadsheet/spreadsheet.py:135-148 | deleting a row and updating a cell keep the grid rectangular |
| `Validator.ValidNumber` | spreadsheet/spreadsheet.py:153-159 | `valid_number`: no contract of its own; `Validator.ValidNumberIffNumeral` and `Validator.RejectedExamples` fix it |
| `Validator.ValidNumberIffNumeral` | spreadsheet/spreadsheet.py:153-159 | `valid_number` accepts exactly: digits, or digits `.` digits with a digit on at least one side, optionally after one `-` |
| `Validator.UnsignedIff` | spreadsheet/spreadsheet.py:157-159 | the checks after the sign (at most one `.`, and non-empty digits once it is removed) accept exactly the unsigned decimals |
| `Validator.RejectedExamples` | spreadsheet/spreadsheet.py:153-159 | `""`, `"-"`, `"1.2.3"` and `"abc"` are rejected |
| `Validator.Value` | spreadsheet/spreadsheet.py:170 | the exact number `float(val)` approximates: no contract of its own; `Validator.DigitsValid`, `Validator.FractionValue` and `Validator.NegateValue` fix it on every accepted string |
| `Validator.DigitsValid` | spreadsheet/spreadsheet.py:170 | a plain digit string is accepted, and `float` reads it as the integer it spells |
| `Validator.NegateValue` | spreadsheet/spreadsheet.py:156 | putting `-` before an accepted unsigned string gives an accepted string whose value is negated |
| `Validator.FractionValue` | spreadsheet/spreadsheet.py:170 | for any digit strings `a` and `b`, not both empty, `a.b` is accepted and `float` reads it as `a` plus `b` over ten to the number of digits of `b`; `-a.b` is accepted at the negation |
| `Validator.ValueOfDecimalString` | spreadsheet/spreadsheet.py:170 | `str(n)` and `"-" + str(n)` are accepted, and `float` reads them back as `n` and `-n` |
| `Validator.ValueExamples` | spreadsheet/spreadsheet.py:170 | `"10"`, `"20.5"` and `"-3.5"` are accepted at 10, 20.5 and -3.5 |
| `Aggregator.Sums` | spreadsheet/spreadsheet.py:22-23 | `sums`, the left fold of `+` from 0: no contract of its own; `Aggregator.SumsConcat` shows it distributes over concatenation |
| `Aggregator.SumsConcat` | spreadsheet/spreadsheet.py:22-23 | the `reduce` sum of a concatenation is the sum of the two parts' sums |
| `Aggregator.CellTotalExample` | spreadsheet/spreadsheet.py:164-171 | summing `"10"`, `"20.5"` and `"abc"` gives 30.5: non-numeric cells are skipped |
| `Aggregator.GetSum` | spreadsheet/spreadsheet.py:164-171 | `None` exactly when there are no rows, the column is outside the first row, or no cell in the column is a valid number; otherwise the exact sum of the valid cells |
| `Aggregator.SumStep` | spreadsheet/spreadsheet.py:167-170 | one loop step: the running sum covers exactly the valid cells seen so far, and the list is empty exactly while none has been seen |
| `Aggregator.GetSumDetermined` | spreadsheet/spreadsheet.py:323-325 | any result meeting `GetSum`'s contract on `[["10"], ["20"]]`, column 0, is `30.0`, as the test expects |
| `Aggregator.GroupTotal` | spreadsheet/spreadsheet.py:195-199 | the sum of a group's valid cells, `0.0` when none is valid |
| `Aggregator.SortByKey` | spreadsheet/spreadsheet.py:183-185 | the sorted rows are a permutation of the input |
| `Aggregator.SortSorted` | spreadsheet/spreadsheet.py:185 | the sorted rows are in ascending key order |
| `Aggregator.SortMatching` | spreadsheet/spreadsheet.py:185 | the key-only stable sort keeps, for every key, the rows with that key in their original order |
| `Aggregator.SortGroupsPermuted` | spreadsheet/spreadsheet.py:183-185 | for every key, the sorted rows with that key are the input rows with that key, counted with repetition |
| `Aggregator.TargetColumn` | spreadsheet/spreadsheet.py:180 | the summed column is the lowest column other than the grouping column: column 1 when grouping on column 0, otherwise column 0 |
| `Aggregator.GetGroupBy` | spreadsheet/spreadsheet.py:177-211 | `[]` when there are no rows or the column is outside the first row; otherwise one group per distinct value of the column, in strictly ascending order, each holding the exact sum of the valid cells of the other column (column 1 for column 0, else column 0) over exactly the rows with that value, `0.0` when none is valid |
| `Aggregator.GetGroupByDetermined` | spreadsheet/spreadsheet.py:327-330 | any result meeting `GetGroupBy`'s contract on `[["X", "10"], ["X", "5"]]`, column 0, is exactly `[("X", 15.0)]`, as the test expects |
| `Aggregator.ScanGroups` | spreadsheet/spreadsheet.py:187-211 | on key-sorted rows, the scan yields strictly ascending keys, exactly the keys present, each with its rows' total |
| `Aggregator.ScanFirstKey` | spreadsheet/spreadsheet.py:191-203 | the first row opens the first group with its own target cell |
| `Aggregator.ScanSameKey` | spreadsheet/spreadsheet.py:203 | a row with the open group's key adds its target cell to that group and changes nothing else |
| `Aggregator.ScanNewKey` | spreadsheet/spreadsheet.py:193-203 | a row with a new key closes the open group at its total (the new key is above every earlier key) and opens a new group |
| `Aggregator.ScanClose` | spreadsheet/spreadsheet.py:205-211 | closing the last open group completes the result |

## Left out

- File input and output: `write_file`, the file path arguments of `write_csv` and `save_data`, and reading a file. The model works on the text that would be written or read.
- Floating point: sums are exact reals. Python's `float` conversion and the rounding of `+` are not modelled, so two orders of adding the same cells give the same total here.
- `Validator.ValidNumber`: `str.isdigit` also accepts non-ASCII digit characters (some of which `float` then rejects). The model recognises the ASCII digits `0`-`9` only.
- Negative indices: Python counts them from the end. `InsertHeaderLabel`, `InsertColumn`, `InsertRow`, `DeleteColumn` and `DeleteRow` take a natural index. `DeleteHeaderLabel` and `UpdateCell` take any integer, because the source bounds-checks those. The case does arise: header cells carry row index -1 (spreadsheet/interface.py:55-57), and the insert-row and delete-row handlers (spreadsheet/interface.py:137-151, 178-182) pass that index on, so `delete_row(data, -1)` returns `data[:-1] + data` and duplicates rows. spreadsheet/interface.py is not part of this model.
- `Aggregator.GetSum`: when some row after the first is too short for the column, the source raises `IndexError`. The model requires every row to reach the column instead of modelling the exception.
- `Aggregator.GetGroupBy`: when a row is too short for the key column or the summed column, the source raises `IndexError`. The model requires both columns in every row. Grouping on column 0 of a one-column sheet is therefore excluded; the source raises there.
- `Aggregator.SortByKey`: the source sorts the rows with the key prepended, so rows with equal keys are also ordered by their cells. The model sorts on the key alone and stably. Group order and group contents do not depend on this, and exact totals do not depend on the order of addition.
- `Aggregator.SortMatching`: holds only of the model's stable sort on the key alone. Line 185 also orders rows with equal keys by their cells, so `[["X", "5"], ["X", "10"]]` grouped on column 0 puts `["X", "10"]` first. The difference only changes the order in which a group's cells are added; `Aggregator.SortGroupsPermuted` states what both sorts share.
- Aliasing: `create_new_row` and `delete_row` return new lists that share the row objects of their input, and `delete_header_column` returns its argument itself when the index is out of range. Immutable sequences make that sharing invisible, so it is not modelled.
- Zero-column grids: a record with no cells is saved as an empty line, which reads back as one empty cell; a final such record is dropped on reload, like a final `[""]` row, so `Grid(["a"], [[]])` is saved as `"a\n"` and reloads as `Grid(["a"], [])`. `Codec.ParseSerialize` and `Codec.TerminatedRoundTrip` therefore require every record to have a cell. The empty grid itself round-trips as written.
- `copy_data` (lines 216-223) is a test helper. `spreadsheet/interface.py` and `spreadsheet/__main__.py` are the user interface and the program entry. They are not part of this model.

## Findings

| source | as written | input that shows it | evidently intended | confidence | as-written member | corrected member |
|---|---|---|---|---|---|---|
| spreadsheet/spreadsheet.py:19-20 | the records are joined with `\n` and no `\n` follows the last one, so a last row of one empty cell leaves nothing after the final separator, and `split_lines` then drops that empty last line on reload | `create_empty_data(1, 1)` (header `["Column 1"]`, one row `[""]`) is saved as `"Column 1\n"` and reloads as header `["Column 1"]` with no rows | every line ends in `\n`, as the test at line 241 expects (`"...dat6\n"`), so the saved text is `"Column 1\n\n"` and reloads unchanged | not executed; shown by proof | `Codec.TrailingEmptyRowLost` | `Codec.TerminatedRoundTrip` |

`SavedFactory.FactoryGridRowLost` instantiates the as-written lemma on the factory sheet, and
`SavedFactory.FactoryGridTerminated` instantiates the corrected one. The corrected serializer
is `Codec.SerializeTerminated`. It round-trips every grid whose cells hold no delimiter
and whose records each have a cell, with no condition on the last row.
