# Diagonal Sudoku solver

This project models the constraint-propagation solver of `Projects/1_Sudoku/solution.py` and proves properties of the model.

The puzzle is a diagonal Sudoku: 81 cells and 29 units (9 rows, 9 columns, 9 squares and the two main diagonals). Every cell has a string of remaining candidate digits. The solver has four parts:

- three strategies that narrow those strings in place: eliminate, only choice and naked twins;
- `reduce_puzzle`, which repeats eliminate and only choice until the number of solved cells stops changing;
- `search`, a depth-first search that branches on the unsolved cell with the fewest candidates;
- `solve`, which runs search on the board of a grid.

Modules:

- `Units`: the cells, the unit list and the peers of a cell. A cell name such as `C7` is the pair (row 2, column 6). The order of names is the order of these pairs.
- `Boards`: the board (`values`), the board as a map from cells to candidate strings. Also Python's `str.replace`, narrowing, the solved count, and what a solution is.
- `EliminateRule`, `OnlyChoiceRule`, `NakedTwinsRule`: each strategy as a specification function, with lemmas about it.
- `Reduction`: one pass of `reduce_puzzle`, the loop that repeats it, and what a pass does to a fully solved board.
- `Solver`: the dictionary the strategies rewrite in place is a class `Puzzle` with a `values` field. The strategies and `reduce_puzzle` are its methods, each proved equal to its specification function or to the properties of the loop. `get_unit_naked_twins`, `search` and `solve` are methods on board values.
- `SampleGrid`: one solved diagonal grid, given by a formula on the coordinates, with A1 and G2 holding 1 and A2 holding 2.
- `EarlyStop`: a family of boards on which the early exit of `reduce_puzzle` returns a board that breaks the rules, and one member of that family built from the sample grid (see Findings).

A solution is a map from every cell to a digit in which every unit holds every digit exactly once. A board allows a solution when every cell still lists that solution's digit. Every strategy is proved sound: it never removes a solution the board allows. `search`, run with the corrected `reduce_puzzle` of Findings, is proved correct:

- any board it returns is fully solved;
- that board spells a solution that the input allows;
- it returns a board whenever the input allows any solution;
- at a branch it commits to the first digit of the cell that some allowed solution puts there.

The specification functions follow these lines of `Projects/1_Sudoku/solution.py`; the lemmas of the table below state their properties:

- `Units.UnitList` (lines 8-12) and `Units.Peers` (lines 14-16);
- `Boards.Replace` (`str.replace`, lines 81 and 205) and `Boards.SolvedCount` (lines 132 and 144);
- `EliminateRule.Eliminated` (lines 63-83) and `OnlyChoiceRule.OnlyChosen` (lines 85-111);
- `NakedTwinsRule.StringsOfLength` (lines 195-196), `NakedTwinsRule.FirstOccurrences` and `NakedTwinsRule.Group` (line 197), `NakedTwinsRule.GroupsOfTwo` (line 198) and `NakedTwinsRule.UnitTwins` (lines 191-198);
- `NakedTwinsRule.NakedTwinsApplied` (lines 20-61);
- `Reduction.Pass` (lines 135-141), `Reduction.Passes`, n passes in a row, and `Reduction.ReduceLoop` (lines 129-150), which repeats the pass until `Reduction.Stops` holds: the pass emptied a cell, left the solved count unchanged or, with the early stop of lines 146-147, left 81 solved cells;
- `Solver.RanksFirst`, the order `min` uses on the pairs `(len(values[s]), s)` (line 181).

## Model

| member | source | states |
|---|---|---|
| Units.UnitListAt | Projects/1_Sudoku/solution.py:8-12 | the unit list has 29 units of nine cells. Units 0-8 are rows, 9-17 columns, 18-26 the 3x3 squares band by band, 27 the diagonal A1..I9 and 28 the diagonal A9..I1 |
| Units.UnitListShape | Projects/1_Sudoku/solution.py:8-12 | every unit has nine pairwise different cells |
| Units.UnitMembers | Projects/1_Sudoku/solution.py:8-12 | a cell is in unit k exactly when its coordinates put it in that row, column, square or diagonal |
| Units.PeersByPosition | Projects/1_Sudoku/solution.py:14-16 | the peers of c are the other cells of its row, its column and its square, plus the other cells of the diagonals it lies on |
| Units.PeersSymmetric | Projects/1_Sudoku/solution.py:14-16 | being peers is symmetric, and no cell is its own peer |
| Boards.ReplaceShrinks | Projects/1_Sudoku/solution.py:81 | `replace(t, '')` never lengthens a string and never adds a character |
| Boards.ReplaceDigit | Projects/1_Sudoku/solution.py:205 | `replace(d, '')` removes exactly the character d |
| Boards.CellsOfLength | Projects/1_Sudoku/solution.py:132 | the comprehension lists exactly the cells whose string has length n. It lists all the cells exactly when every cell has length n |
| Boards.CellsOfLengthNone | Projects/1_Sudoku/solution.py:152 | the comprehension is empty exactly when no cell has length n |
| Boards.SolvedCountAll | Projects/1_Sudoku/solution.py:144-147 | the solved count is at most 81. It is 81 exactly when every cell holds one candidate |
| Boards.SolvedCountMonotone | Projects/1_Sudoku/solution.py:150 | narrowing a board without emptying a cell never lowers the solved count |
| EliminateRule.ReplaceIn | Projects/1_Sudoku/solution.py:80-81 | deleting a string from a set of cells only narrows the board |
| EliminateRule.EliminateBox | Projects/1_Sudoku/solution.py:80-81 | one turn of the outer loop only narrows the board and leaves the box itself as it was |
| EliminateRule.EliminateAll | Projects/1_Sudoku/solution.py:79-81 | any run of the outer loop only narrows the board |
| EliminateRule.EliminatedNarrows | Projects/1_Sudoku/solution.py:79-83 | eliminate keeps the same cells and leaves each cell's string within its input |
| EliminateRule.EliminateBoxClears | Projects/1_Sudoku/solution.py:80-81 | the turn of a box holding the single digit d removes d from every peer |
| EliminateRule.EliminateAllClears | Projects/1_Sudoku/solution.py:79-81 | over cells solved on entry, a cell still solved at the end has its digit absent from all its peers |
| EliminateRule.EliminatedClearsPeers | Projects/1_Sudoku/solution.py:79-81 | after eliminate, a cell holding the single digit d on entry and on exit has d absent from every peer |
| EliminateRule.EliminateBoxSound | Projects/1_Sudoku/solution.py:80-81 | one turn of the outer loop keeps every solution the board allows |
| EliminateRule.EliminateAllSound | Projects/1_Sudoku/solution.py:79-81 | a run of the outer loop keeps every solution the board allows |
| EliminateRule.EliminatedSound | Projects/1_Sudoku/solution.py:63-83 | eliminate keeps every solution the board allows |
| OnlyChoiceRule.Places | Projects/1_Sudoku/solution.py:107 | `dplaces` lists exactly the cells of the unit that list the digit |
| OnlyChoiceRule.ChooseDigit | Projects/1_Sudoku/solution.py:107-109 | one turn of the inner loop only narrows the board |
| OnlyChoiceRule.ChooseInUnit | Projects/1_Sudoku/solution.py:106-109 | the digit loop for one unit only narrows the board |
| OnlyChoiceRule.ChooseInUnits | Projects/1_Sudoku/solution.py:105-109 | the unit loop only narrows the board |
| OnlyChoiceRule.ChooseDigitJustified | Projects/1_Sudoku/solution.py:107-109 | after a turn, every changed cell still holds one digit and is the only cell of some unit listing it |
| OnlyChoiceRule.ChooseInUnitJustified | Projects/1_Sudoku/solution.py:106-109 | the same holds after the digit loop of a unit |
| OnlyChoiceRule.ChooseInUnitsJustified | Projects/1_Sudoku/solution.py:105-109 | the same holds after any number of units |
| OnlyChoiceRule.OnlyChosenJustified | Projects/1_Sudoku/solution.py:85-111 | only_choice narrows the board. It changes a cell only by setting it to a single digit the cell already listed, and that cell is then the only one in some unit listing that digit. Every other cell is unchanged |
| OnlyChoiceRule.ChooseDigitSound | Projects/1_Sudoku/solution.py:107-109 | a digit that only one cell of a unit lists is that cell's digit in every allowed assignment whose unit holds all nine digits, so the turn keeps it |
| OnlyChoiceRule.ChooseInUnitSound | Projects/1_Sudoku/solution.py:106-109 | the digit loop for a unit keeps every allowed assignment whose unit holds all nine digits |
| OnlyChoiceRule.ChooseInUnitsSound | Projects/1_Sudoku/solution.py:105-109 | the unit loop keeps every allowed solution |
| OnlyChoiceRule.OnlyChosenSound | Projects/1_Sudoku/solution.py:85-111 | only_choice keeps every solution the board allows |
| NakedTwinsRule.StringsOfLengthMembers | Projects/1_Sudoku/solution.py:195-197 | the keys offered to `setdefault` are exactly the strings of the given length held by cells of the unit |
| NakedTwinsRule.FirstOccurrencesMembers | Projects/1_Sudoku/solution.py:197 | the dictionary's keys hold the same strings as its input, each once |
| NakedTwinsRule.GroupsOfTwoMembers | Projects/1_Sudoku/solution.py:198 | a pair is reported exactly for a key whose group of cells has more than one member, with that whole group as its cells. Distinct keys give distinct strings |
| NakedTwinsRule.UnitTwinsCharacterized | Projects/1_Sudoku/solution.py:191-198 | get_unit_naked_twins reports (cells, s) exactly when s has the requested length and the cells are all the cells of the unit holding s, at least two of them. No string is reported twice |
| NakedTwinsRule.RemoveDigits | Projects/1_Sudoku/solution.py:204-205 | removing each digit in turn leaves exactly the characters of the string that are not among the digits |
| NakedTwinsRule.RemoveDigitsNone | Projects/1_Sudoku/solution.py:204-205 | a string listing none of the digits is left as it is |
| Boards.ReplaceAbsent | Projects/1_Sudoku/solution.py:205 | replacing an absent digit changes nothing |
| NakedTwinsRule.Targets | Projects/1_Sudoku/solution.py:203 | the targets are exactly the unit's cells outside the pair that hold more than one candidate |
| NakedTwinsRule.RemoveTwin | Projects/1_Sudoku/solution.py:202-205 | handling one pair only narrows the board. Cells outside the unit, the pair's own cells and solved cells are untouched. Every other cell of the unit loses exactly the pair's digits |
| NakedTwinsRule.RemoveTwins | Projects/1_Sudoku/solution.py:200-206 | handling a unit's pairs only narrows the board and leaves every cell outside the unit untouched |
| NakedTwinsRule.NakedTwinsAt | Projects/1_Sudoku/solution.py:58-60 | one unit's turn, whose pairs are all found before any removal, only narrows the board |
| NakedTwinsRule.NakedTwinsUnits | Projects/1_Sudoku/solution.py:58-61 | naked_twins over any prefix of the unit list only narrows the board |
| NakedTwinsRule.SingleGroupTwins | Projects/1_Sudoku/solution.py:191-198 | if exactly two cells of a unit share a two-candidate string and nothing else in the unit does, that pair is the only one reported |
| NakedTwinsRule.NakedTwinsSingleGroup | Projects/1_Sudoku/solution.py:20-61 | in that situation the unit's turn keeps both twins and every cell outside the unit. Every other unsolved cell of the unit loses exactly the twins' two digits |
| NakedTwinsRule.RemoveTwinSound | Projects/1_Sudoku/solution.py:202-205 | removing a pair's digits keeps every assignment that the board and the board the pair was found on both allow, when the unit's cells hold different digits in it |
| NakedTwinsRule.RemoveTwinsSound | Projects/1_Sudoku/solution.py:200-206 | removing all of a unit's pairs keeps every such assignment |
| NakedTwinsRule.NakedTwinsAtSound | Projects/1_Sudoku/solution.py:58-60 | the turn of one unit keeps every allowed solution |
| NakedTwinsRule.NakedTwinsUnitsSound | Projects/1_Sudoku/solution.py:58-60 | naked_twins over any prefix of the unit list keeps every allowed solution |
| NakedTwinsRule.NakedTwinsSound | Projects/1_Sudoku/solution.py:20-61 | naked_twins keeps every solution the board allows |
| Reduction.Pass | Projects/1_Sudoku/solution.py:135-141 | one pass (eliminate, then only_choice) only narrows the board |
| Reduction.PassSound | Projects/1_Sudoku/solution.py:135-141 | a pass keeps every solution the board allows |
| Reduction.EliminateAllKeeps | Projects/1_Sudoku/solution.py:79-81 | a candidate survives the outer loop when no solved peer in the run holds exactly that candidate |
| Reduction.ChooseDigitSolved | Projects/1_Sudoku/solution.py:107-109 | on a fully solved board a turn of only_choice changes nothing |
| Reduction.ChooseInUnitSolved | Projects/1_Sudoku/solution.py:106-109 | on a fully solved board a unit's digit loop changes nothing |
| Reduction.ChooseInUnitsSolved | Projects/1_Sudoku/solution.py:105-111 | only_choice leaves a fully solved board as it is |
| Reduction.EliminatedKeepsCell | Projects/1_Sudoku/solution.py:79-83 | on a fully solved board whose peers all differ, eliminate leaves each cell's digit |
| Reduction.EliminatedConflictFree | Projects/1_Sudoku/solution.py:79-83 | on a fully solved board whose peers all differ, eliminate changes nothing |
| Reduction.EliminatedConflict | Projects/1_Sudoku/solution.py:79-83 | on a fully solved board, if eliminate empties no cell then no two peers hold the same digit |
| Reduction.SolvedPassStable | Projects/1_Sudoku/solution.py:132-150 | a pass over a fully solved board empties no cell exactly when no two peers hold the same digit. The pass then changes nothing |
| Reduction.UnitOfPeersDiffering | Projects/1_Sudoku/solution.py:179-180 | an assignment of digits to all cells in which no two peers agree holds nine different digits, hence all nine, in every unit |
| Reduction.SolvedBoardIsSolution | Projects/1_Sudoku/solution.py:179-180 | a fully solved board of digits with no two peers alike spells a solution, and that solution is allowed by the board |
| Reduction.EmptyCellRulesOut | Projects/1_Sudoku/solution.py:152-153 | a board with an empty cell allows no solution |
| Reduction.EmptyCount | Projects/1_Sudoku/solution.py:152 | the empty-cell comprehension is empty exactly when no cell is empty |
| Reduction.AllSolvedByCells | Projects/1_Sudoku/solution.py:179 | `all(len(values[s]) == 1 for s in boxes)` holds exactly when every cell is solved |
| Reduction.EliminateBoxUnchanged | Projects/1_Sudoku/solution.py:79-81 | one step of the outer loop changes nothing when the cell is solved and its digit is already absent from all its peers |
| Reduction.EliminateAllUnchanged | Projects/1_Sudoku/solution.py:79-81 | the outer loop changes nothing when every cell it visits is solved and its digit is already absent from all its peers |
| Reduction.StalledKeepsSolved | Projects/1_Sudoku/solution.py:132-150 | when a pass leaves the solved count unchanged and no cell empty, every cell solved after it was solved before it, with the same digit |
| Reduction.StalledSkipsOnlyChoice | Projects/1_Sudoku/solution.py:132-150 | in such a pass only_choice assigns nothing, so the pass ends with eliminate's board |
| Reduction.StalledClears | Projects/1_Sudoku/solution.py:132-150 | after such a pass every solved cell's digit is absent from all its peers |
| Reduction.StalledIsFixpoint | Projects/1_Sudoku/solution.py:128-150 | the stopping rule is sound: after a pass that leaves the solved count unchanged and no cell empty, a further pass changes nothing |
| Reduction.PassesSound | Projects/1_Sudoku/solution.py:129-141 | any number of passes keeps every solution the board allows |
| Reduction.ReduceLoop | Projects/1_Sudoku/solution.py:129-150 | the board the loop ends with only narrows its input |
| Reduction.ReduceLoopStep | Projects/1_Sudoku/solution.py:132-150 | where the stopping rule fires after a pass, the loop's board is that pass's board. Otherwise the solved count has grown and the loop's board is that of the next round |
| Reduction.ReduceLoopIsPasses | Projects/1_Sudoku/solution.py:129-150 | the loop's board is the board after some number of passes, at least one |
| Reduction.ReduceLoopSound | Projects/1_Sudoku/solution.py:129-150 | the loop keeps every solution the board allows |
| Reduction.ReduceLoopFixpoint | Projects/1_Sudoku/solution.py:128-150 | where the loop stops with no empty cell, other than at the early stop, a further pass changes nothing |
| Reduction.PassCounts | Projects/1_Sudoku/solution.py:144-153 | after a pass the solved count is at most 81 and is 81 only when every cell is solved. The empty-cell comprehension is empty exactly when no cell is empty |
| Reduction.ReduceLoopEarly | Projects/1_Sudoku/solution.py:146-147 | with the early stop, a first pass that solves every cell ends the loop with that pass's board |
| Reduction.ReduceLoopPeersDiffer | Projects/1_Sudoku/solution.py:128-150 | without the early stop, a fully solved loop result with no empty cell has no two peers holding the same digit |
| Reduction.ReduceLoopResult | Projects/1_Sudoku/solution.py:128-153 | the loop keeps every allowed solution, so it empties no cell when the input allows one. A further pass changes a result with no empty cell only at the early stop, which a first pass solving every cell takes at once. Without the early stop a fully solved result has no two peers alike |
| Reduction.SolvedCountGrows | Projects/1_Sudoku/solution.py:183-185 | fixing an unsolved cell to one of its digits raises the solved count. This is search's termination measure |
| Solver.Puzzle.Eliminate | Projects/1_Sudoku/solution.py:63-83 | the in-place loops leave `values` equal to the eliminate specification of the old board |
| Solver.Puzzle.ClearPeers | Projects/1_Sudoku/solution.py:80-81 | the loop over the peers, in any order, leaves the box's turn of eliminate |
| Solver.Puzzle.OnlyChoice | Projects/1_Sudoku/solution.py:85-111 | the in-place loops leave `values` equal to the only_choice specification of the old board |
| Solver.Puzzle.ChooseInUnitAt | Projects/1_Sudoku/solution.py:106-109 | the digit loop for one unit leaves `values` equal to that unit's turn of only_choice on the old board |
| Solver.Puzzle.EliminateNakedTwinsFromPeers | Projects/1_Sudoku/solution.py:200-206 | the in-place loops leave `values` equal to the pairs' removal from the old board |
| Solver.Puzzle.RemoveTwinFromPeers | Projects/1_Sudoku/solution.py:202-205 | one pair's loop leaves `values` equal to that pair's removal, with targets chosen as the turn starts |
| Solver.Puzzle.RemoveDigitsAt | Projects/1_Sudoku/solution.py:204-205 | the digit loop changes one cell, to its string without the digits |
| Solver.Puzzle.NakedTwins | Projects/1_Sudoku/solution.py:20-61 | the unit loop leaves `values` equal to the naked_twins specification of the old board |
| Solver.Puzzle.RunPass | Projects/1_Sudoku/solution.py:135-141 | one round of the loop body leaves `values` equal to a pass over the old board |
| Solver.Puzzle.ReducePuzzle | Projects/1_Sudoku/solution.py:114-154 | as written. The loop ends with `values` equal to `Reduction.ReduceLoop` of the old board with the early stop: passes repeated from the input until one empties a cell, leaves the solved count unchanged or reaches 81 solved cells. The result is `ok` exactly when no cell is empty. The board only narrows, and every allowed solution survives, so a board allowing one never fails. A success is either fully solved or a board that one more pass leaves unchanged. When the first pass leaves 81 solved cells, that pass is returned as success |
| Solver.Puzzle.ReducePuzzleCorrected | Projects/1_Sudoku/solution.py:128-154 | as ReducePuzzle, without the early exit: `values` ends equal to `Reduction.ReduceLoop` of the old board without the early stop. A success is a board that one more pass leaves unchanged, and a fully solved success has no two peers alike |
| Solver.UnitNakedTwins | Projects/1_Sudoku/solution.py:191-198 | the loop returns the get_unit_naked_twins specification: exactly the groups of at least two cells sharing a string of the requested length |
| Solver.GroupByString | Projects/1_Sudoku/solution.py:192-197 | the `setdefault` loop gives keys in first-occurrence order. Each key maps to all the unit's cells holding it |
| Solver.FewestCandidates | Projects/1_Sudoku/solution.py:181 | the cell chosen is unsolved, and it ranks first among unsolved cells by candidate count, then by name |
| Solver.Search | Projects/1_Sudoku/solution.py:157-189 | a returned board is fully solved, narrower than the input, and spells a solution the input allows. A board is returned whenever the input allows any solution |
| Solver.Branch | Projects/1_Sudoku/solution.py:182-189 | the digits of the cell are tried in string order and the first branch that succeeds is returned: a returned board fixes the cell to the first of its digits that some allowed solution puts there. It is fully solved, narrower than the input, and spells a solution the input allows. A board is returned exactly when the input allows a solution |
| Solver.TryDigit | Projects/1_Sudoku/solution.py:183-185 | one branch: a returned board is fully solved, narrower than the input, holds the digit in the cell, and spells a solution the input allows. The branch fails exactly when no allowed solution puts that digit in the cell |
| Solver.SomeDigitAllows | Projects/1_Sudoku/solution.py:182-189 | a board allowing some solution allows one with one of the digits that the branching cell lists, so failing on every digit means no solution |
| Solver.GridValues | Projects/1_Sudoku/solution.py:224 | the board of a grid has every cell and lists only digits |
| Solver.GridValuesAllows | Projects/1_Sudoku/solution.py:224 | the board of a grid allows exactly the solutions that keep the grid's given digits |
| Solver.Solve | Projects/1_Sudoku/solution.py:209-227 | search from the grid's board, with the corrected reduction it inherits from Solver.Search: a returned board is fully solved and spells a solution keeping the grid's givens. A board is returned whenever such a solution exists |
| EarlyStop.ThirteenSolved | Projects/1_Sudoku/solution.py:79-81 | a cell holding `13` that keeps 1 and loses 3 under eliminate ends holding exactly `1` |
| EarlyStop.OpenCellsSolved | Projects/1_Sudoku/solution.py:79-81 | on the board built from a solution g, eliminate solves each reopened cell to 1 |
| EarlyStop.FirstPass | Projects/1_Sudoku/solution.py:132-141 | on that board the first pass leaves every cell solved, and only_choice changes nothing |
| EarlyStop.EarlyStopAcceptsConflict | Projects/1_Sudoku/solution.py:146-147 | on that board the first pass reaches 81 solved cells with two peers both holding 1, although the board allows no solution |
| EarlyStop.ConflictRulesOut | Projects/1_Sudoku/solution.py:135-141 | a board whose pass leaves two peers with the same single digit allows no solution |
| EarlyStop.EarlyStopReachable | Projects/1_Sudoku/solution.py:146-147 | there is a board, built from the sample grid, on which the first pass reaches 81 solved cells with two peers alike although the board allows no solution |

## Left out

- Timing and logging are left out: `time.clock()`, `t0`, the `iteration` counter and the history that `assign_value` records. They do not affect the board. `assign_value(values, box, v, ...)` is the assignment `values[box] = v`.
- `main`, `display` and the visualisation are left out. They are I/O.
- `cross`, `rows`, `cols`, `boxes`, `extract_units`, `extract_peers` and `grid2values` come from `utils.py`, which is not part of this model. The cells are (row, column) pairs, and `boxes` and the key order of `values` are row-major. A peer is another cell sharing a unit. `grid2values` is taken to give each digit of the grid as that cell's only candidate and `'123456789'` for any other character (`Solver.GridValues`).
- The game-playing agent of the adversarial-search project is not part of this model.
- `reduce_puzzle` does not call naked_twins, because the call at line 138 is commented out. The strategy is modelled and proved on its own.
- The cells of a naked-twins group are a Python set turned into a list in no fixed order. The source only tests them with `in`, so the model keeps them as a set.
- A Python `False` or `None` result is `Option.None`, and a dictionary result is `Option.Some`.
- `search` modifies the dictionary its caller passes it, through `reduce_puzzle`. No caller reads that dictionary afterwards, so the model runs `search` on board values.
- Solver.Search: the contract states that any returned board is correct and that search fails only when no solution exists. It does not state which solution depth-first order finds first when there are several.
- Solver.Search: it calls Solver.Puzzle.ReducePuzzleCorrected, not the as-written reduction. With the early exit, the correctness part of its contract does not hold (see Findings).
- Solver.Branch: a returned board is the first success in the cell's digit order, but which board the search of that branch returns is left open as for Solver.Search.
- Solver.Solve: through Solver.Search it runs the corrected reduction. With the as-written `reduce_puzzle` its correctness part does not hold (see Findings).

## Findings

| source | as written | input that shows it | evidently intended | confidence | as-written member | corrected member |
|---|---|---|---|---|---|---|
| Projects/1_Sudoku/solution.py:146-147 | the loop of reduce_puzzle stops as soon as a pass leaves 81 solved cells, and returns the board as a solution. Cells that become solved during that pass's eliminate have not had their digits removed from their peers, so two peers can hold the same digit. | take the solved diagonal grid of `SampleGrid` (any solved grid relabelled so that A1 holds 1 and A2 holds 2 also works). Reopen A1, A2 and the cell of column 2 holding 1 to the candidates `13`. One pass solves all three to 1, and A1 and A2 are peers. reduce_puzzle returns this board although it allows no solution, and search would return it as the answer. | go on looping until the solved count is stable, so that a fully solved result has passed eliminate once more and a conflict shows as an empty cell | not executed | Solver.Puzzle.ReducePuzzle with EarlyStop.EarlyStopAcceptsConflict and EarlyStop.EarlyStopReachable | Solver.Puzzle.ReducePuzzleCorrected |
