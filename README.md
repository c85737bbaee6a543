# 6x6 Sudoku engine — a verified model

This project models the puzzle engine of a 6x6 Sudoku game whose blocks are
2 rows by 3 columns. The engine is the class `SudokuModel` and its mutable
`Cell` record. It covers:

- **The board.** 36 cells, each holding a value (0 means empty), a clue flag
  fixed at creation, and an error mark.
- **The validator.** It clears every error mark, then marks each non-zero
  value that is repeated in its row, its column or its block.
- **Queries.** The solved test and the error query.
- **The solver.** An in-place backtracking search over a plain 6x6 value
  array, with its legality test `isSafe`.
- **The generator.** It relabels a fixed solved template through a shuffle
  of the digits 1..6, then keeps exactly two clue cells in each block.
- **Two hint selectors.** One picks any empty cell; the other picks among the
  empty cells with the fewest legal digits. Both reveal the value that the
  solver puts in the chosen cell.

Modules:

- `Rules` (`rules.dfy`): grid geometry and the rules on plain value grids.
  - `Conflict` is the validator's marking condition.
  - `Consistent` says no two peers share a digit.
  - `Safe` is the solver's legality test.
  - `SolutionOf` says a grid completes another.
- `Cells` (`cell.dfy`): class `Cell`. `row`, `col` and `isFixed` are
  constants, as the source's final fields are; `value` and `isError` are
  updated in place.
- `Solver` (`solver.dfy`):
  - The methods `IsSafe` and `Solve` work in place on an `array2<int>`.
  - `Solve` is proved equal to a functional reference search, `Search` and
    `TryFrom`: it tries the first empty cell in row-major order with digits
    1..6 in ascending order.
  - Lemmas prove that `Search` is sound and complete.
- `Generator` (`generator.dfy`): the template, the relabelled solution
  `Solved`, the generated `Puzzle`, and lemmas about them.
- `Sudoku` (`sudoku.dfy`): class `SudokuModel`, whose `board` is an
  `array2<Cell?>` of cells that are updated in place, plus the generator's
  imperative steps.

Some long loops of the source are split into helper methods, one per pass
or step, so that each can carry its own contract:

- `ValidateRows`, `ValidateCols`, `ValidateBlocks` and `ValidateBlock` are
  the passes of `validateAllCells`.
- `CountValues` is the first loop of `validateLine`.
- `RelabelledTemplate`, `BlockPositions`, `ChooseClues`, `KeepBlockClues`
  and `PlaceCells` are the steps of `resetBoard`.
- `FindFirstEmpty`, `TryDigits` and `TryDigit` are the scan and the digit
  loop of `solve`.
- `CopyValues` and `CountCandidates` come from `countPossibleValues`.
- `EmptyCells`, `HintFromSolution`, `MostConstrainedCells` and `ScanCell`
  come from the two hint methods.

Where the code and its javadoc differ, the model follows the code:

- Reading a cell off the board yields `null` (a hash-map miss);
  `setCellValue` then returns false.
- `setCellValue` stores any integer; the code has no range check on the
  value.
- The javadoc of `countPossibleValues` says it returns 1-6. The code returns
  0 for an empty cell where no digit is legal, so the model bounds the count
  by 0..6. `NoCandidateMeansUnsolvable` shows that such a board cannot be
  completed.

`solve` does not check the given entries against each other. The
consistency of the result is therefore promised only for a consistent input
(`SearchSound`).

## Model

| member | source | states |
|---|---|---|
| Cells.Cell.constructor | src/main/java/com/example/sudoku/model/Cell.java:20-26 | stores row, col and value as given; the cell is a clue exactly when the initial value is non-zero; no error mark |
| Cells.Cell.SetValue | src/main/java/com/example/sudoku/model/Cell.java:36-40 | a clue keeps its value; any other cell takes exactly the new value; only `value` may change |
| Cells.Cell.SetError | src/main/java/com/example/sudoku/model/Cell.java:41 | sets the error mark to the argument and changes nothing else |
| Rules.Place | src/main/java/com/example/sudoku/model/SudokuModel.java:398 | the written cell holds the new value and every other cell is unchanged |
| Rules.BlockOffsets | src/main/java/com/example/sudoku/model/SudokuModel.java:430-431 | `row - row % 2` and `col - col % 3` are the top-left cell of a block that lies on the board and contains (row, col) |
| Rules.BlockLineAt | src/main/java/com/example/sudoku/model/SudokuModel.java:222-231 | entry k of the block's line is the cell at offset (k / 3, k % 3), which lies in the same block; it is the cell itself exactly at its own index |
| Rules.BlockLineHas | src/main/java/com/example/sudoku/model/SudokuModel.java:222-231 | every cell of a block appears in the block line at its own index, and two cells share an index only if they are the same cell |
| Rules.ConflictIffPeer | src/main/java/com/example/sudoku/model/SudokuModel.java:174-188 | the validator's marking condition holds exactly when the value is non-zero and some cell sharing its row, column or block holds the same value |
| Rules.ConflictHasPeer | src/main/java/com/example/sudoku/model/SudokuModel.java:182-186 | a marked cell is non-zero and some peer repeats its value |
| Rules.PeerMakesConflict | src/main/java/com/example/sudoku/model/SudokuModel.java:176-186 | a non-zero value repeated by a peer gets marked |
| Rules.ConsistentIffNoConflict | src/main/java/com/example/sudoku/model/SudokuModel.java:238-246 | a grid breaks no rule exactly when the validator marks no cell |
| Rules.SafeIffNoPeerHolds | src/main/java/com/example/sudoku/model/SudokuModel.java:420-438 | the row/column/block test holds exactly when neither the cell nor any of its peers holds the digit |
| Rules.PlaceSafeKeepsConsistent | src/main/java/com/example/sudoku/model/SudokuModel.java:396-398 | writing a safe digit into an empty cell keeps every given entry, and keeps a consistent grid consistent |
| Solver.IsSafe | src/main/java/com/example/sudoku/model/SudokuModel.java:420-438 | the result is true exactly when the digit is absent from the row, the column and the 2x3 block starting at (row - row % 2, col - col % 3) |
| Solver.FindEmpty | src/main/java/com/example/sudoku/model/SudokuModel.java:393-395 | a cell it returns lies on the board and is empty |
| Solver.FindEmptyIsFirst | src/main/java/com/example/sudoku/model/SudokuModel.java:393-395 | the returned cell is the first empty one in row-major order; every cell between the start and it is filled, and None means no empty cell remains |
| Solver.FindFirstEmpty | src/main/java/com/example/sudoku/model/SudokuModel.java:393-395 | the nested scan returns the first empty cell in row-major order, or None on a full board |
| Solver.Solve | src/main/java/com/example/sudoku/model/SudokuModel.java:392-410 | returns true exactly when the reference search succeeds, and then the array holds the search's result; on false the array is exactly as on entry |
| Solver.TryDigits | src/main/java/com/example/sudoku/model/SudokuModel.java:396-405 | tries digits 1..6 at the first empty cell; succeeds exactly when the reference search does from digit 1; on failure the array is restored |
| Solver.TryDigit | src/main/java/com/example/sudoku/model/SudokuModel.java:397-403 | one digit: success leaves the search's result in the array; failure resets the cell to 0 and the search moves on to the next digit |
| Solver.SearchSound | src/main/java/com/example/sudoku/model/SudokuModel.java:392-410 | a successful search leaves no 0, keeps every non-zero entry, puts a digit 1..6 in each gap, and yields a solution when the input was consistent |
| Solver.TryFromSound | src/main/java/com/example/sudoku/model/SudokuModel.java:396-405 | the same soundness for the digit loop started at any digit |
| Solver.TryFromWitness | src/main/java/com/example/sudoku/model/SudokuModel.java:396-403 | a successful digit loop returns the search's result after placing some safe digit at or above the starting digit |
| Solver.PlacedSound | src/main/java/com/example/sudoku/model/SudokuModel.java:397-400 | the search's result after a safe placement is complete, keeps the entries, fills the gaps with digits and is a solution for a consistent grid |
| Solver.SearchComplete | src/main/java/com/example/sudoku/model/SudokuModel.java:392-410 | whenever some solution completes the grid, the search succeeds |
| Solver.TryFromSolutionDigit | src/main/java/com/example/sudoku/model/SudokuModel.java:396-400 | trying the digit a solution holds at the empty cell succeeds |
| Solver.TryFromReaches | src/main/java/com/example/sudoku/model/SudokuModel.java:396-404 | if the digit loop succeeds from digit d, it succeeds from any smaller starting digit |
| Solver.SolutionDigitFits | src/main/java/com/example/sudoku/model/SudokuModel.java:397-398 | the digit a solution holds at an empty cell is safe there, and the solution still completes the grid with that digit placed |
| Solver.SearchSucceedsIffSolvable | src/main/java/com/example/sudoku/model/SudokuModel.java:392-410 | on a consistent grid the solver succeeds exactly when the grid can be completed |
| Generator.BlockCellInverse | src/main/java/com/example/sudoku/model/SudokuModel.java:81-92 | each cell is position IndexInBlock of block BlockIndex, both in 0..5, in the generator's visiting order |
| Generator.BlockCellPlacement | src/main/java/com/example/sudoku/model/SudokuModel.java:84-92 | position k of block b lies on the board, in block b, at index k |
| Generator.TemplateIsSolved | src/main/java/com/example/sudoku/model/SudokuModel.java:50-57 | the template holds digits 1..6 and no two peers share a digit |
| Generator.TemplatePeersDiffer | src/main/java/com/example/sudoku/model/SudokuModel.java:50-57 | two peers of the template hold different digits |
| Generator.TemplateRowDistinct | src/main/java/com/example/sudoku/model/SudokuModel.java:50-57 | the template's rows have distinct digits |
| Generator.TemplateColDistinct | src/main/java/com/example/sudoku/model/SudokuModel.java:50-57 | the template's columns have distinct digits |
| Generator.TemplateBlockDistinct | src/main/java/com/example/sudoku/model/SudokuModel.java:50-57 | the template's 2x3 blocks have distinct digits |
| Generator.SolvedIsSolution | src/main/java/com/example/sudoku/model/SudokuModel.java:59-73 | relabelling the template through a digit shuffle gives a complete grid that breaks no rule |
| Generator.PuzzleIsSolvable | src/main/java/com/example/sudoku/model/SudokuModel.java:75-101 | a cell of the puzzle is non-zero exactly when it is chosen as a clue; each clue equals the relabelled solution there; that solution completes the puzzle, which is consistent |
| Generator.PuzzleHasNoConflict | src/main/java/com/example/sudoku/model/SudokuModel.java:103-111 | no cell of a fresh puzzle meets the validator's marking condition |
| Generator.BlockClues | src/main/java/com/example/sudoku/model/SudokuModel.java:94-99 | the clues of block b are exactly the first two positions of its shuffle |
| Generator.TwoCluesPerBlock | src/main/java/com/example/sudoku/model/SudokuModel.java:94-99 | every block holds exactly two clues |
| Generator.TwelveClues | src/main/java/com/example/sudoku/model/SudokuModel.java:75-101 | a generated puzzle holds 12 clues in all |
| Generator.CluesTotal | src/main/java/com/example/sudoku/model/SudokuModel.java:80-101 | two clues in each of the six blocks make twelve clues on the board |
| Generator.UnionBelowSize | src/main/java/com/example/sudoku/model/SudokuModel.java:80-101 | n pairwise disjoint sets of k cells each hold k * n cells together |
| Sudoku.RelabelledTemplate | src/main/java/com/example/sudoku/model/SudokuModel.java:59-73 | builds the digit map d -> perm[d - 1] and a new array equal to the relabelled template |
| Sudoku.BlockPositions | src/main/java/com/example/sudoku/model/SudokuModel.java:84-92 | lists the six positions of the block row by row: entry k is (startRow + k / 3, startCol + k % 3) |
| Sudoku.ChooseClues | src/main/java/com/example/sudoku/model/SudokuModel.java:75-101 | a new array that holds the solved value at each chosen clue cell and 0 elsewhere |
| Sudoku.KeepBlockClues | src/main/java/com/example/sudoku/model/SudokuModel.java:94-99 | copies the solved values of the block's first two shuffled positions; everything else stays as the earlier blocks left it |
| Sudoku.BlockOfOffset | src/main/java/com/example/sudoku/model/SudokuModel.java:85-90 | offset k from the top-left cell of block (br, bc) lies in that block at index k |
| Sudoku.BlockOfCell | src/main/java/com/example/sudoku/model/SudokuModel.java:85-90 | a cell of block (br, bc) sits at offset IndexInBlock from the block's top-left cell |
| Sudoku.CandidatesBelowStep | src/main/java/com/example/sudoku/model/SudokuModel.java:378-382 | raising the digit bound by one adds that digit to the legal set exactly when it is safe |
| Sudoku.CandidatesBelowBound | src/main/java/com/example/sudoku/model/SudokuModel.java:378-382 | at most n - 1 legal digits lie below n, so a cell has at most six |
| Sudoku.SolutionDigitIsCandidate | src/main/java/com/example/sudoku/model/SudokuModel.java:366-385 | the digit a solution puts in an empty cell is among the cell's legal digits |
| Sudoku.NoCandidateMeansUnsolvable | src/main/java/com/example/sudoku/model/SudokuModel.java:366-385 | an empty cell with no legal digit means nothing completes the board |
| Sudoku.DuplicatedIffCount | src/main/java/com/example/sudoku/model/SudokuModel.java:175-187 | the counting test (value non-zero and counted more than once) agrees with "another position repeats the value" |
| Sudoku.CountCandidates | src/main/java/com/example/sudoku/model/SudokuModel.java:377-384 | the count equals the number of digits 1..6 that are safe at the cell, and lies in 0..6 |
| Sudoku.HintFromSolution | src/main/java/com/example/sudoku/model/SudokuModel.java:292-302 | null exactly when the search fails; otherwise a new cell at one of the given cells, holding the search's value there, a digit 1..6 |
| Sudoku.SudokuModel.constructor | src/main/java/com/example/sudoku/model/SudokuModel.java:27-30 | the board and all its cells are newly allocated; the board is the generated puzzle, its non-zero cells are exactly the clues, no cell is marked, and the marks match the values |
| Sudoku.SudokuModel.ResetBoard | src/main/java/com/example/sudoku/model/SudokuModel.java:48-112 | every position holds a fresh cell; the values are the generated puzzle, the clue flags are exactly the non-zero cells, no cell is marked, and the marks match the values |
| Sudoku.SudokuModel.PlaceCells | src/main/java/com/example/sudoku/model/SudokuModel.java:103-110 | a fresh cell for every position, with its own coordinates and the initial value, fixed exactly when non-zero, unmarked |
| Sudoku.SudokuModel.GetCell | src/main/java/com/example/sudoku/model/SudokuModel.java:120-122 | null exactly off the board; otherwise the cell with those coordinates |
| Sudoku.SudokuModel.SetCellValue | src/main/java/com/example/sudoku/model/SudokuModel.java:132-140 | true exactly for an on-board non-clue cell: only that cell's value changes, and every mark matches the new values; otherwise no value and no mark changes |
| Sudoku.SudokuModel.ValidateAllCells | src/main/java/com/example/sudoku/model/SudokuModel.java:146-168 | values are unchanged, and every cell's mark is exactly the marking condition of the current values, whatever the marks were before |
| Sudoku.SudokuModel.ValidateRows | src/main/java/com/example/sudoku/model/SudokuModel.java:152-155 | after the row pass, a cell is marked exactly when its row repeats its value |
| Sudoku.SudokuModel.ValidateCols | src/main/java/com/example/sudoku/model/SudokuModel.java:157-160 | after the column pass, the column repeats are added to the marks |
| Sudoku.SudokuModel.ValidateBlocks | src/main/java/com/example/sudoku/model/SudokuModel.java:162-167 | after the block pass, the block repeats are added to the marks |
| Sudoku.SudokuModel.ValidateBlock | src/main/java/com/example/sudoku/model/SudokuModel.java:165 | validating one block adds that block's repeats to the marks and leaves other cells alone |
| Sudoku.SudokuModel.BlockMembers | src/main/java/com/example/sudoku/model/SudokuModel.java:222-231 | the collected cells of a block are exactly the board cells of that block, each at its index |
| Sudoku.SudokuModel.CountValues | src/main/java/com/example/sudoku/model/SudokuModel.java:175-181 | the count map holds exactly the non-zero values of the line, each with its number of occurrences |
| Sudoku.SudokuModel.ValidateLine | src/main/java/com/example/sudoku/model/SudokuModel.java:174-188 | a cell becomes marked exactly when it was marked or its non-zero value occurs again in the line; marks are never cleared |
| Sudoku.SudokuModel.GetCellsInRow | src/main/java/com/example/sudoku/model/SudokuModel.java:195-201 | a new array holding the row's cells, left to right |
| Sudoku.SudokuModel.GetCellsInCol | src/main/java/com/example/sudoku/model/SudokuModel.java:208-214 | a new array holding the column's cells, top to bottom |
| Sudoku.SudokuModel.GetCellsInBlock | src/main/java/com/example/sudoku/model/SudokuModel.java:222-231 | a new array holding the block's six cells, row by row |
| Sudoku.SudokuModel.IsBoardSolved | src/main/java/com/example/sudoku/model/SudokuModel.java:238-246 | revalidates; true exactly when no cell is empty and the values break no rule |
| Sudoku.SudokuModel.HasErrors | src/main/java/com/example/sudoku/model/SudokuModel.java:252-259 | true exactly when some cell is marked; with current marks, exactly when the board breaks a rule |
| Sudoku.SudokuModel.CopyValues | src/main/java/com/example/sudoku/model/SudokuModel.java:285-290 | a new array holding the board's values |
| Sudoku.SudokuModel.CountPossibleValues | src/main/java/com/example/sudoku/model/SudokuModel.java:366-385 | the number of digits legal at the cell on the current board, in 0..6 |
| Sudoku.SudokuModel.GetHint | src/main/java/com/example/sudoku/model/SudokuModel.java:268-303 | null exactly when no cell is empty or the solver fails; otherwise a new cell at an empty position holding the solver's digit there |
| Sudoku.SudokuModel.EmptyCells | src/main/java/com/example/sudoku/model/SudokuModel.java:269-277 | lists exactly the empty positions |
| Sudoku.SudokuModel.GetSmartHint | src/main/java/com/example/sudoku/model/SudokuModel.java:312-357 | as the plain hint, and the chosen cell has no more legal digits than any empty cell |
| Sudoku.SudokuModel.MostConstrainedCells | src/main/java/com/example/sudoku/model/SudokuModel.java:313-332 | after the scan, the list holds exactly the scanned empty cells with the minimum count; no empty cell has fewer; an empty list means no empty cell |
| Sudoku.SudokuModel.ScanCell | src/main/java/com/example/sudoku/model/SudokuModel.java:319-330 | one scan step keeps that invariant for one more cell |
| Sudoku.ScanSkip | src/main/java/com/example/sudoku/model/SudokuModel.java:319-330 | a filled cell, or one with more legal digits than the minimum, leaves the scan's result valid |
| Sudoku.ScanRestart | src/main/java/com/example/sudoku/model/SudokuModel.java:323-326 | a cell with fewer legal digits becomes the only best cell, with its count as the new minimum |
| Sudoku.ScanJoin | src/main/java/com/example/sudoku/model/SudokuModel.java:327-328 | a cell with exactly the minimum count joins the best cells |
| Sudoku.ScanFinished | src/main/java/com/example/sudoku/model/SudokuModel.java:334-336 | after the full scan the list is empty exactly when the board is full; each listed cell is empty with a minimal count, and every empty cell with that count is listed |

## Left out

- Randomness. The digit shuffle, the per-block position shuffles and the
  random index of each hint are inputs or an arbitrary choice (`:|`), not
  drawn. Every valid shuffle and every index is allowed.
- The string-keyed hash map and `getKey`. The board is a 6x6 `array2<Cell?>`.
  Visiting the map's values in its own order becomes a row-major scan; the
  result of clearing marks or searching for a marked or empty cell does not
  depend on that order.
- `board.clear()`. `ResetBoard` puts a fresh cell in every position instead.
- Cell getters. They are field reads in the model.
- Java `int` overflow. The source does no arithmetic on cell values; it
  computes only counts (at most 6) and indexes (at most 35), so no overflow
  can occur.
- Sudoku.SudokuModel.ValidateLine: requires the six cells to be distinct
  objects. Every call site (SudokuModel.java lines 154, 159 and 165) passes
  a row, a column or a block, whose six cells are distinct.
- Sudoku.SudokuModel.GetSmartHint: the source picks among the best cells
  before it solves the copy; `HintFromSolution` picks after solving. The pick
  does not depend on the solve, so the outcomes are the same.
