# Sudoku reducer

A model of a constraint-propagation Sudoku reducer. The board is a 9x9 array of cell values:
Empty or the digits One to Nine. It is read from a small text grammar and reduced in place by
two rules:

- the naked-single rule: an Empty cell with exactly one free digit gets that digit, and an
  Empty cell with no free digit is an error;
- the hidden-single rule: inside a row, a column or a block, a digit that only one cell can
  take is set there.

One pass applies the naked-single rule at all 81 points, then the hidden-single rule over
every row, every column and every block. The solver repeats passes until a pass fails or
leaves the number of Empty cells unchanged. It does not search. A board on which propagation
stalls without a stuck cell comes back `Ok` with Empty cells left (AllEmptyAccepted). The board
is shown as a boxed text picture.

The project has one module per part of the program:

- `SudokuValues` (`sudoku_value.dfy`): the cell value, its digit decoder, the ordered digit
  list and the one-character display.
- `Points` (`point.dfy`): the geometry. It holds the 81 points, the rows, columns and blocks,
  and the row, column and block of one point. Coordinates are unsigned bytes.
- `Grids` (`grid.dfy`): the read-only queries of the state over the board as a value:
  - `get`;
  - `empty_count`;
  - the values of a point's row, column and block;
  - the candidate list of a cell;
  - the points of a group that can take a digit;
  - the relations used by the proofs: `Fills`, which says a board only filled Empty cells of
    another, and `Consistent`, which says no digit occurs twice in a row, column or block.
- `Reductions` (`reduction.dfy`): each mutating step written as a function of the board. It
  also holds the solver's properties:
  - givens are kept;
  - a digit only one point of a group can take is placed there, unless a later digit can
    also be taken only there and overwrites it;
  - consistency is kept;
  - the loop terminates;
  - on success the result is a fixpoint of a pass;
  - on failure some cell is stuck;
  - duplicate digits are never rejected.
- `SudokuParser` (`parser.dfy`): the grammar as functions over the remaining input. A layout
  datatype describes the accepted texts on its own terms. The parser is proved to accept
  exactly the texts of well-formed layouts, and to return their board.
- `Rendering` (`rendering.dfy`): the text the display loops build, and its picture of 13
  lines. The picture shows each cell at a fixed column.
- `SudokuStates` (`sudoku_state.dfy`): the state as a class over an `array2`. Its methods
  keep the loops and in-place updates of the program. Each is proved to leave the array
  holding what the matching `Reductions` function computes from the old board.

## Model

| member | source | states |
|---|---|---|
| SudokuValues.Ordinal | src/sudoku_value.rs:1-13 | The numeral of a value is at most 9, and it is 0 exactly for Empty |
| SudokuValues.OrdinalInjective | src/sudoku_value.rs:1-13 | Different values have different numerals |
| SudokuValues.FromDigit | src/sudoku_value.rs:16-29 | from_digit gives a digit exactly for '1'..'9', and the digit's numeral is the character's. Every other character, '0' and '_' included, gives Empty |
| SudokuValues.AllValues | src/sudoku_value.rs:31-43 | all_values has nine entries. Entry i has numeral i + 1, so they are ascending and distinct. It holds every value except Empty |
| SudokuValues.Display | src/sudoku_value.rs:46-62 | The display of a value is exactly one character |
| SudokuValues.Glyph | src/sudoku_value.rs:49-60 | Definition only: the match arm's character for each value, '1'..'9' for the digits and '_' for Empty. Display, DisplayReadsBack and DisplayInjective state its properties |
| SudokuValues.DisplayReadsBack | src/sudoku_value.rs:16-29 | Empty shows as "_" and a digit as its numeral. from_digit of the shown character gives the value back, Empty included |
| SudokuValues.DisplayInjective | src/sudoku_value.rs:49-60 | Two values with the same display are equal |
| Points.AllPoints | src/point.rs:6-11 | all_points has 81 entries, each inside the board |
| Points.AllPointsInOrder | src/point.rs:6-11 | all_points holds every board point, without repetition, x outer and y inner |
| Points.HorizontalLines | src/point.rs:14-22 | get_horizontal_lines gives nine groups of nine points, all inside the board |
| Points.HorizontalLinesAreRows | src/point.rs:14-22 | Group i is row i: exactly the points with y == i, distinct. It equals the row of any of its members |
| Points.VerticalLines | src/point.rs:24-32 | get_vertical_lines gives nine groups of nine points, all inside the board |
| Points.VerticalLinesAreColumns | src/point.rs:24-32 | Group i is column i: exactly the points with x == i, distinct. It equals the column of any of its members |
| Points.Blocks | src/point.rs:34-43 | get_blocks gives nine groups of nine points, all inside the board |
| Points.BlocksAreSquares | src/point.rs:34-43 | Block b is exactly the points with x / 3 == b / 3 and y / 3 == b % 3, distinct. It equals get_block_matching of any of its members |
| Points.HorizontalMatching | src/point.rs:45-47 | Nine points, inside the board when the point is |
| Points.HorizontalMatchingIsRow | src/point.rs:45-47 | The points are (0..9, p.y) in order and distinct, so p is among them |
| Points.VerticalMatching | src/point.rs:49-51 | Nine points, inside the board when the point is |
| Points.VerticalMatchingIsColumn | src/point.rs:49-51 | The points are (p.x, 0..9) in order and distinct, so p is among them |
| Points.BlockMatching | src/point.rs:52-60 | Nine points, the first being p rounded down to multiples of 3, inside the board when p is. The byte arithmetic never overflows |
| Points.BlockMatchingIsSquare | src/point.rs:52-60 | The points are distinct, and they are exactly those in p's 3x3 block |
| Points.MatchingArePeers | src/point.rs:45-60 | Every point in the same row, column or block as p is found by one of the three matchings |
| Grids.Assigned | src/sudoku_state.rs:170-172 | set writes the given value at p, and every other cell is kept |
| Grids.Get | src/sudoku_state.rs:166-168 | Definition only: get reads row p.y, column p.x of the board. GridsEqual, Assigned and the queries below state what follows from it |
| Grids.GridsEqual | src/sudoku_state.rs:166-168 | Two boards that agree on get at every point are equal |
| Grids.CountEmpty | src/sudoku_state.rs:174-178 | The count of Empty cells over a list of points is at most its length |
| Grids.CountEmptyZero | src/sudoku_state.rs:174-178 | The count is 0 exactly when no listed cell is Empty |
| Grids.CountEmptyAll | src/sudoku_state.rs:174-178 | When every listed cell is Empty, the count is the number of points listed |
| Grids.EmptyCount | src/sudoku_state.rs:174-178 | empty_count is in 0..81, and it is 0 exactly when no cell is Empty |
| Grids.FindHorizontalMatchingPoint | src/sudoku_state.rs:139-146 | Nine values, one per point of p's row (their contents are stated by RowValues) |
| Grids.RowValues | src/sudoku_state.rs:139-146 | A value is listed exactly when some cell of p's row holds it |
| Grids.FindVerticalMatchingPoint | src/sudoku_state.rs:148-155 | Nine values, one per point of p's column (their contents are stated by ColumnValues) |
| Grids.ColumnValues | src/sudoku_state.rs:148-155 | A value is listed exactly when some cell of p's column holds it |
| Grids.FindBlockMatchingPoint | src/sudoku_state.rs:157-164 | Nine values, one per point of p's block (their contents are stated by BlockValues) |
| Grids.BlockValues | src/sudoku_state.rs:157-164 | A value is listed exactly when some cell of p's block holds it |
| Grids.Absent | src/sudoku_state.rs:130-136 | The filter loop keeps exactly the values that occur in none of the three lists, in their order |
| Grids.Candidates | src/sudoku_state.rs:123-137 | Definition only: nothing for a filled cell, otherwise the filter of all_values against the row, column and block values. CandidatesAreFree states what it means |
| Grids.CandidatesAreFree | src/sudoku_state.rs:123-137 | find_values_at_point gives nothing for a filled cell. For an Empty cell it gives exactly the digits no peer holds, in ascending order, without repetition and never Empty |
| Grids.ConsistentHasNoDuplicate | src/sudoku_state.rs:61-77 | On a consistent board no row, column or block repeats a digit |
| Grids.PeersShareGroup | src/sudoku_state.rs:61-77 | With no repeats in rows, columns and blocks, no peer of a filled cell holds its digit |
| Grids.ConsistentIffNoDuplicates | src/sudoku_state.rs:61-77 | Consistent holds exactly when no row, column or block repeats a digit |
| Grids.Holders | src/sudoku_state.rs:105-108 | The indices whose candidate list holds the digit, each exactly once, in ascending order |
| Grids.SingleHolder | src/sudoku_state.rs:105-108 | There is exactly one such index exactly when one list alone holds the digit |
| Grids.GetPointsThatCanBeValue | src/sudoku_state.rs:99-109 | A point is returned exactly when its list holds the digit. The result has one point exactly when one list alone holds it, and then it is that list's point |
| Grids.FillsKeepsDigits | src/sudoku_state.rs:170-172 | A board that only fills Empty cells keeps every digit, and adds no Empty cell |
| Grids.FreeShrinks | src/sudoku_state.rs:123-137 | A digit free at p after filling was free before |
| Grids.FillsTransitive | src/sudoku_state.rs:51-59 | Filling after filling is filling |
| Grids.CountEmptyShrinks | src/sudoku_state.rs:174-178 | Filling never raises the Empty count of a list of points. An unchanged count means no listed cell changed |
| Grids.EmptyCountShrinks | src/sudoku_state.rs:40-49 | Filling never raises empty_count. An unchanged empty_count means an unchanged board: the loop's measure |
| Grids.AssignFreeKeepsConsistent | src/sudoku_state.rs:170-172 | Setting a digit that no peer holds keeps a consistent board consistent |
| Reductions.ReducedAtPoint | src/sudoku_state.rs:111-121 | On error the board is left as it was |
| Reductions.ReducedAtPointOutcomes | src/sudoku_state.rs:111-121 | The three outcomes. Err exactly when the cell is Empty with no free digit. With exactly one free digit it is written. Otherwise the board is unchanged |
| Reductions.ReducedAtPointSound | src/sudoku_state.rs:111-121 | The naked-single rule only fills an Empty cell with a digit, and keeps consistency |
| Reductions.NakedSingles | src/sudoku_state.rs:52-54 | Definition only: reduce_at_point at each point in turn on the board the last step left, stopping at the first error. NakedSinglesSound, NakedSinglesContradiction and NakedSinglesUnchanged state its properties |
| Reductions.NakedSinglesSound | src/sudoku_state.rs:52-54 | The walk over the points, each step on the board the last left, only fills cells and keeps consistency |
| Reductions.NakedSinglesContradiction | src/sudoku_state.rs:52-54 | An error from the walk names a point whose cell is stuck on the board left |
| Reductions.NakedSinglesUnchanged | src/sudoku_state.rs:52-54 | When no single step changes the board or fails, the walk gives the board back Ok |
| Reductions.Snapshot | src/sudoku_state.rs:84-89 | Entry i of the snapshot is find_values_at_point of point i, read from the one starting board |
| Reductions.MatchingCandidates | src/sudoku_state.rs:90-95 | Every point the matching returns is in the group and has the digit among its candidates |
| Reductions.HiddenSingleStep | src/sudoku_state.rs:93-95 | Placing a candidate of the snapshot board keeps a filling and keeps consistency, while no changed cell holds that digit yet |
| Reductions.HiddenSingles | src/sudoku_state.rs:90-96 | Definition only: for each digit in all_values order, the digit is set at the one point whose snapshot list alone holds it. HiddenSinglesPlaces, HiddenSinglesKeeps, HiddenSinglesSound, HiddenSinglesNone and HiddenSinglesOverwrite state its properties |
| Reductions.HiddenSinglesSound | src/sudoku_state.rs:84-96 | The digit loop over a stale snapshot only fills cells of the starting board and keeps consistency, overwrites included |
| Reductions.HiddenSinglesNone | src/sudoku_state.rs:90-96 | When none of the remaining digits is held by exactly one candidate list, the rest of the loop sets nothing |
| Reductions.HiddenSinglesOverwrite | src/sudoku_state.rs:90-95 | A point that alone holds both One and Two is set to One, then overwritten with Two |
| Reductions.HiddenSinglesKeeps | src/sudoku_state.rs:90-96 | A point that is the only holder of none of the remaining digits keeps its value through the digit loop |
| Reductions.HiddenSinglesPlaces | src/sudoku_state.rs:90-96 | For distinct points, a digit whose list alone holds it ends up at that list's point, unless a later digit has the same only holder |
| Reductions.RuledPointsReduced | src/sudoku_state.rs:79-97 | Definition only: the digit loop over the snapshot taken from the starting board. RuledPointsPlaces, RuledPointsKeeps, RuledPointsSound and RuledPointsUnchanged state its properties |
| Reductions.RuledPointsSound | src/sudoku_state.rs:79-97 | reduce_ruled_points only fills cells and keeps consistency |
| Reductions.RuledPointsPlaces | src/sudoku_state.rs:79-97 | For distinct points (every row, column and block is), a digit that only one point of the group can take is placed at that point, unless a later digit can also be taken only there |
| Reductions.RuledPointsKeeps | src/sudoku_state.rs:79-97 | A point that is no digit's only candidate point in the group keeps its value |
| Reductions.RuledPointsUnchanged | src/sudoku_state.rs:79-97 | When every point of a group of two or more can take every digit, no digit has a single holder and the board is kept |
| Reductions.GroupsReduced | src/sudoku_state.rs:61-77 | Definition only: reduce_ruled_points on each group in turn. GroupsSound and GroupsUnchanged state its properties |
| Reductions.GroupsSound | src/sudoku_state.rs:61-77 | Reducing the groups in turn only fills cells and keeps consistency |
| Reductions.GroupsUnchanged | src/sudoku_state.rs:61-77 | When no group on its own changes the board, the groups in turn give it back |
| Reductions.AllGroupsReduced | src/sudoku_state.rs:55-57 | Definition only: the rows, then the columns, then the blocks. AllGroupsSound states its properties |
| Reductions.AllGroupsSound | src/sudoku_state.rs:55-57 | The rows, then the columns, then the blocks: only filling, consistency kept |
| Reductions.ReducedOnce | src/sudoku_state.rs:51-59 | Definition only: the naked-single walk, then on success the three group families. ReducedOnceSound and ReducedOnceContradiction state its properties |
| Reductions.ReducedOnceSound | src/sudoku_state.rs:51-59 | One pass only fills cells and keeps consistency |
| Reductions.ReducedOnceContradiction | src/sudoku_state.rs:51-59 | A failed pass leaves a stuck cell on the board |
| Reductions.ReducedFully | src/sudoku_state.rs:40-49 | Definition only: passes repeat until a pass leaves empty_count unchanged or fails. Its termination measure is empty_count, proved to fall by EmptyCountShrinks. ReducedFullySound, ReducedFullyKeepsGivens, ReducedFullyIsFixpoint and ReducedFullyContradiction state its properties |
| Reductions.ReducedFullySound | src/sudoku_state.rs:40-49 | The solver only fills cells and keeps a consistent board consistent |
| Reductions.ReducedFullyKeepsGivens | src/sudoku_state.rs:34-49 | Every digit of the input is in place in the result |
| Reductions.ReducedFullyIsFixpoint | src/sudoku_state.rs:40-49 | On Ok, one more pass changes nothing, so the last pass left empty_count unchanged |
| Reductions.ReducedFullyContradiction | src/sudoku_state.rs:40-49 | On Err some cell is Empty with no free digit on the board left behind |
| Reductions.CompleteIsFixpoint | src/sudoku_state.rs:111-121 | A board with no Empty cell comes back unchanged and Ok, from one pass and from the solver |
| Reductions.AllOnesAccepted | src/sudoku_state.rs:116-118 | A board full of duplicate digits is inconsistent and still accepted unchanged: the only error is a cell with no candidate |
| Reductions.AllEmpty | src/sudoku_state.rs:34-38 | Every cell of this board is Empty |
| Reductions.AllEmptyCandidates | src/sudoku_state.rs:123-137 | On the all-Empty board every digit is a candidate at every point |
| Reductions.AllEmptyCount | src/sudoku_state.rs:174-178 | empty_count of the all-Empty board is 81 |
| Reductions.AllEmptyNakedUnchanged | src/sudoku_state.rs:52-54 | The naked-single walk over the all-Empty board sets nothing and reports no error |
| Reductions.AllEmptyGroupsUnchanged | src/sudoku_state.rs:61-77 | Any list of nine-point groups reduced in turn leaves the all-Empty board as it is |
| Reductions.AllEmptyAllGroupsUnchanged | src/sudoku_state.rs:55-57 | Rows, then columns, then blocks leave the all-Empty board as it is |
| Reductions.AllEmptyOnce | src/sudoku_state.rs:51-59 | One pass over the all-Empty board is Ok and sets nothing |
| Reductions.AllEmptyAccepted | src/sudoku_state.rs:34-49 | The solver does not search. On the all-Empty board it comes back Ok with the board unchanged and all 81 cells still Empty |
| SudokuParser.FilledCell | src/parser.rs:7-8 | On success the input left is shorter than the input |
| SudokuParser.EmptyCell | src/parser.rs:9-10 | On success the input left is shorter than the input |
| SudokuParser.CellValue | src/parser.rs:11-12 | On success the input left is shorter than the input |
| SudokuParser.CellValueReads | src/parser.rs:7-12 | sudoku_value succeeds exactly on a leading '0'..'9' or '_'. It reads that character through from_digit, so '_' and '0' give Empty |
| SudokuParser.CellValueReadsDisplay | src/parser.rs:7-12 | sudoku_value reads back the display of any value |
| SudokuParser.SeparatedValues | src/parser.rs:13-16 | On success, n values are read, and the input left is no longer than the input |
| SudokuParser.SkipSpaces | src/parser.rs:14 | What follows the spaces does not start with a space |
| SudokuParser.HorizontalLine | src/parser.rs:13-16 | On success, nine values are read, and the input left is shorter than the input |
| SudokuParser.SeparatedLines | src/parser.rs:17-18 | On success, n rows of nine values are read, and the input left is no longer than the input |
| SudokuParser.SkipNewlines | src/parser.rs:18 | What follows the newlines does not start with a newline |
| SudokuParser.Lines | src/parser.rs:17-21 | On success, nine rows of nine values are read |
| SudokuParser.Parse | src/parser.rs:17-21 | Definition only: nine lines, then newlines up to the end of the text. ParseAccepts, ParseOnlyAccepts and ParseWritten state what it accepts and returns |
| SudokuParser.Values | src/parser.rs:7-12 | Token j stands for from_digit of character j |
| SudokuParser.LineValues | src/parser.rs:18-20 | Row i of the board is the values of line i |
| SudokuParser.SeparatedValuesRead | src/parser.rs:13-16 | Spaced tokens are read as their values, leaving the rest |
| SudokuParser.SkipSpacesRead | src/parser.rs:14 | Any number of spaces is skipped up to the first non-space |
| SudokuParser.LineRead | src/parser.rs:13-16 | A well-formed line followed by a non-space is read as its nine values |
| SudokuParser.SeparatedLinesRead | src/parser.rs:17-18 | Newline-separated well-formed lines are read as their rows |
| SudokuParser.SkipNewlinesRead | src/parser.rs:18 | Any number of newlines is skipped |
| SudokuParser.LinesRead | src/parser.rs:17-21 | The nine lines of a well-formed input are read as its board |
| SudokuParser.ParseAccepts | src/parser.rs:17-21 | Completeness: every well-formed input parses, and values[i][j] is token j of line i |
| SudokuParser.SeparatedValuesOnly | src/parser.rs:13-16 | Whatever the spaced-values rule accepts is spaced tokens |
| SudokuParser.SkipSpacesOnly | src/parser.rs:14 | SkipSpaces only removes spaces |
| SudokuParser.LineOnly | src/parser.rs:13-16 | Whatever the line rule accepts is a well-formed line, and what follows does not start with a space |
| SudokuParser.SeparatedLinesOnly | src/parser.rs:17-18 | Whatever the lines rule accepts is newline-separated well-formed lines |
| SudokuParser.SkipNewlinesOnly | src/parser.rs:18 | SkipNewlines only removes newlines |
| SudokuParser.ParseOnlyAccepts | src/parser.rs:17-21 | Soundness: every accepted text is exactly the text of a well-formed layout, parsed as its board. Leading blanks, blank lines between rows and extra tokens are refused |
| SudokuParser.Written | src/parser.rs:43-49 | The layout a board is written in, each cell followed by one space and each line by a newline, is well formed |
| SudokuParser.WrittenGrid | src/parser.rs:41-56 | The board of the written layout is the board written |
| SudokuParser.ParseWritten | src/parser.rs:41-56 | Round trip: writing any board that way and parsing the text gives the board back |
| Rendering.CellsText | src/sudoku_state.rs:19-25 | Definition only: the text the inner loop has built after j cells, a bar and a space before cells 0, 3 and 6. AppendCell, CellsTextGroup and RowCells state its properties |
| Rendering.RowLine | src/sudoku_state.rs:19-26 | Definition only: the nine cells, then a closing bar and a newline. RowLineIsPicture states what it shows |
| Rendering.RowsText | src/sudoku_state.rs:15-27 | Definition only: the text the outer loop has built after i rows, a border before rows 0, 3 and 6. RowsTextIsConcat and FramedText state its properties |
| Rendering.Rendered | src/sudoku_state.rs:12-31 | Definition only: the rows, then the closing border. RenderedIsPicture, RenderedLayout, RenderedLine and RenderedCell state what it shows |
| Rendering.AppendCell | src/sudoku_state.rs:19-25 | One step of the inner loop extends the row's text by a bar and a space before cells 0, 3 and 6, then the cell and a space |
| Rendering.CellsTextGroup | src/sudoku_state.rs:19-25 | Three cells of the loop make one group: a bar and a space, then each cell and a space |
| Rendering.RowCells | src/sudoku_state.rs:19-25 | A row's cells are its three groups |
| Rendering.RowLineIsPicture | src/sudoku_state.rs:19-26 | The line a row's loop builds is the row's 26-character picture |
| Rendering.RowPictureCell | src/sudoku_state.rs:19-26 | Cell j shows at column 2 + 2j + 2(j / 3) of its line, and reads back as itself |
| Rendering.RowsTextIsConcat | src/sudoku_state.rs:15-27 | After i rows, the text is the first lines of the framed picture, borders before rows 0, 3 and 6 |
| Rendering.FramedText | src/sudoku_state.rs:15-28 | The rows and the closing border are the thirteen framed lines |
| Rendering.RenderedIsPicture | src/sudoku_state.rs:12-31 | The display is the thirteen picture lines in order |
| Rendering.PictureLines | src/sudoku_state.rs:12-31 | Every picture line is 25 characters and a newline |
| Rendering.PictureRow | src/sudoku_state.rs:15-27 | Row i is picture line i + i / 3 + 1 |
| Rendering.RenderedLine | src/sudoku_state.rs:12-31 | Picture line k is characters 26k to 26k + 25 of the display |
| Rendering.RenderedLayout | src/sudoku_state.rs:12-31 | The display is 13 lines of 26 characters, each ending in a newline, and they are the picture's lines |
| Rendering.RenderedCell | src/sudoku_state.rs:12-31 | Cell (i, j) shows at a fixed place in the display, and that character reads back as the cell |
| SudokuStates.SudokuState.New | src/parser.rs:32-34 | A fresh state holding the parsed board |
| SudokuStates.SudokuState.FromGrid | src/sudoku_state.rs:7-10 | A state holding a given board in a fresh array: the parse action and clone |
| SudokuStates.SudokuState.Set | src/sudoku_state.rs:170-172 | The array holds the old board with the one cell set |
| SudokuStates.SudokuState.FindValuesAtPoint | src/sudoku_state.rs:123-137 | The loop's result is the cell's candidate list |
| SudokuStates.SudokuState.ReduceAtPoint | src/sudoku_state.rs:111-121 | Ok exactly when the naked-single rule does not fail. The array holds the board the rule leaves |
| SudokuStates.SudokuState.FindValuesAtPoints | src/sudoku_state.rs:84-89 | The snapshot of the nine candidate lists, read without changing the board |
| SudokuStates.SudokuState.SetHiddenSingles | src/sudoku_state.rs:90-96 | The digit loop leaves the board the hidden-single walk computes |
| SudokuStates.SudokuState.ReduceRuledPoints | src/sudoku_state.rs:79-97 | The array holds the board of the hidden-single rule over the group |
| SudokuStates.SudokuState.ReduceGroups | src/sudoku_state.rs:61-77 | The array holds the board of the groups reduced in turn |
| SudokuStates.SudokuState.ReduceHorizontalLines | src/sudoku_state.rs:61-65 | The rows reduced in turn |
| SudokuStates.SudokuState.ReduceVerticalLines | src/sudoku_state.rs:67-71 | The columns reduced in turn |
| SudokuStates.SudokuState.ReduceBlocks | src/sudoku_state.rs:73-77 | The blocks reduced in turn |
| SudokuStates.SudokuState.ReduceOnce | src/sudoku_state.rs:51-59 | Ok exactly when the pass does not fail. The array holds the board the pass leaves, partly reduced on error |
| SudokuStates.SudokuState.ReduceWhileYouCan | src/sudoku_state.rs:40-49 | The loop terminates. Ok exactly when the solver succeeds, and the array holds its board |
| SudokuStates.SudokuState.Solve | src/sudoku_state.rs:34-38 | The receiver is not changed. Ok exactly when the reduction of a copy succeeds, and then a fresh state with a fresh array holds the reduced board. Empty cells may be left (AllEmptyAccepted) |
| SudokuStates.SudokuState.Display | src/sudoku_state.rs:12-31 | The nested loops build exactly the rendered picture of the board |

## Left out

- src/main.rs reads a file and prints the solution. That is I/O, so it is not part of this model.
- The `peg` crate and `itertools::cartesian_product` are not modelled. The grammar is written
  as functions on the remaining input. The enumerations are sequences in the order the
  iterators yield.
- `[Point; 9]` and `[SudokuValue; 9]` are sequences of length 9. The `try_into().unwrap()`
  conversions cannot fail and are not modelled.
- SudokuStates.SudokuState.New: the program panics when the text does not parse. Here that
  case is excluded by the precondition `Parse(input).Some?`. `Parse` itself returns `None` for it.
- SudokuStates.SudokuState.FromGrid stands for both the grammar's construction of the
  state and the derived `Clone`.
- Points.BlockMatching requires both coordinates below 255, the exact bound under which the
  `u8` addition cannot overflow. Every caller passes a board point.
- SudokuStates.SudokuState.FindValuesAtPoints, SudokuStates.SudokuState.SetHiddenSingles and
  SudokuStates.SudokuState.ReduceGroups are the statements of `reduce_ruled_points` and the
  loop shared by the three group methods, given names of their own.
- The test fixture files and the expected solutions of specific puzzles are not part of this
  model. Only the general claims of the tests are stated.
- The derived `Debug`/`PartialEq` and the `Formatter` plumbing are not modelled. Display is a
  function to a string.
