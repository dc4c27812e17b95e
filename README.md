# Sudoku puzzle generator

A model of the board class of a small Java Sudoku game. The class builds a puzzle in
four steps on a 9x9 integer grid it owns:

1. **Diagonal seeding.** The three 3x3 boxes on the main diagonal, at (0, 0), (3, 3)
   and (6, 6), are filled with random digits. A box never holds a digit twice.
2. **Backtracking completion.** The other 54 cells are filled in row-major order. At each
   cell the digits 1..9 are tried in ascending order. A digit is placed only when its row,
   column and box do not hold it yet. The search then recurses. A branch that fails resets
   the cell to 0.
3. **Solution copy.** The completed grid is copied into a second array, the solution.
4. **Clue removal.** Randomly chosen non-empty cells are blanked until 30 clues remain.

The project has three modules:

- `Digits` holds pigeonhole facts about sequences of digits.
- `Grids` has the grid as a value. It defines what the scans decide, what a solved grid
  is, the order of the search and the clue count. It also proves the step lemmas the
  methods use.
- `SudokuBoard` holds the class. Both arrays are `array2<int>` fields. The methods update
  the board in place, as the Java code does.

Each scanning method is specified by a predicate on the grid. Each filling step is proved
against an invariant on the grid: a box filled up to cell k, the diagonal seeded up to
box n, and the fixed, filled and empty regions around the search position.

## Model

| member | source | states |
|---|---|---|
| SudokuBoard.Snapshot | src/SudokuBoard.java:7-8 | the grid value of an array agrees with the array at every cell |
| SudokuBoard.SudokuBoard.constructor | src/SudokuBoard.java:15-20 | both arrays are fresh 9x9 arrays and distinct. When the completion succeeded, the solution is a solved grid, the puzzle has exactly 30 clues, and every clue equals the solution's digit in that cell. When it failed, the grid still holds only the diagonal seeding and the puzzle equals it |
| SudokuBoard.SudokuBoard.GenerateBoard | src/SudokuBoard.java:25-28 | starting from an empty board, success leaves a solved grid and failure leaves the diagonal boxes seeded and every other cell empty |
| SudokuBoard.SudokuBoard.FillDiagonal | src/SudokuBoard.java:33-37 | on an empty board, the boxes at (0, 0), (3, 3) and (6, 6) each become a permutation of 1..9 and every other cell stays 0 |
| SudokuBoard.SudokuBoard.FillBox | src/SudokuBoard.java:94-105 | an empty 3x3 box becomes a permutation of 1..9, and no cell outside the box changes |
| SudokuBoard.SudokuBoard.IsSafeBox | src/SudokuBoard.java:114-123 | the result is true iff no cell of the 3x3 block at (row, col) equals num |
| SudokuBoard.SudokuBoard.FillRemaining | src/SudokuBoard.java:45-87 | failure leaves the board exactly as on entry. Success fills every cell outside the diagonal boxes from the entry position on. Cells before the entry position and all diagonal-box cells are never changed. Success on a consistent grid that is filled before the entry position yields a solved grid |
| SudokuBoard.SudokuBoard.FillCell | src/SudokuBoard.java:77-86 | the trial loop at one cell: the same four guarantees, with the cell itself as the entry position |
| SudokuBoard.SudokuBoard.IsSafe | src/SudokuBoard.java:132-134 | the result is true iff num is in neither row i, nor column j, nor the box with corner (i - i % 3, j - j % 3) |
| SudokuBoard.SudokuBoard.UsedInRow | src/SudokuBoard.java:142-149 | the result is true iff some cell of row i equals num |
| SudokuBoard.SudokuBoard.UsedInCol | src/SudokuBoard.java:157-164 | the result is true iff some cell of column j equals num |
| SudokuBoard.SudokuBoard.UsedInBox | src/SudokuBoard.java:173-182 | the result is true iff some cell of the 3x3 block at (rowStart, colStart) equals num |
| SudokuBoard.SudokuBoard.RemoveDigits | src/SudokuBoard.java:187-201 | exactly 81 - 30 = 51 clues are removed, and every remaining non-empty cell still holds its old value |
| SudokuBoard.SudokuBoard.CopyBoard | src/SudokuBoard.java:208-214 | the copy is a fresh 9x9 array with the same cells as the original |
| SudokuBoard.SudokuBoard.GetBoard | src/SudokuBoard.java:220-222 | the puzzle array itself is returned, not a copy |
| SudokuBoard.SudokuBoard.GetSolutionBoard | src/SudokuBoard.java:228-230 | the solution array itself is returned, not a copy |
| Grids.Place | src/SudokuBoard.java:79 | writing a cell changes that cell and no other |
| Grids.BoxOfCell | src/SudokuBoard.java:133 | the block with corner (r - r % 3, c - c % 3) holds v iff some cell in the same 3x3 box as (r, c) holds v |
| Grids.SafePlacement | src/SudokuBoard.java:78-79 | placing a digit that the safety scan accepts keeps a consistent grid consistent |
| Grids.SolvedHasEveryDigit | src/SudokuBoard.java:77-86 | in a solved grid every row, column and box holds each digit 1..9, and holds it in only one cell |
| Grids.BoxValuesAt | src/SudokuBoard.java:96-102 | cell (x, y) of a block is entry 3 * (x - r0) + (y - c0) of the block's values in fill order |
| Grids.BoxHasRoom | src/SudokuBoard.java:98-101 | while a box cell is still empty, some digit 1..9 is absent from the box, so the rejection loop has a digit to accept |
| Grids.BoxFillStep | src/SudokuBoard.java:102 | writing a digit the box lacks into the next empty cell keeps the filled cells distinct digits and leaves the later cells empty |
| Grids.BoxFillDone | src/SudokuBoard.java:94-105 | a box filled in all nine cells with distinct digits is a permutation box |
| Grids.BoxPermutationHasEveryDigit | src/SudokuBoard.java:94-105 | a permutation box holds every digit 1..9 |
| Grids.BoxPermutationFrame | src/SudokuBoard.java:34-35 | filling a later box leaves an earlier permutation box intact |
| Grids.SeedStart | src/SudokuBoard.java:33-34 | an empty grid is seeded up to box 0 |
| Grids.SeedEmptyBox | src/SudokuBoard.java:34-35 | before box (n, n) is filled, all of its cells are empty |
| Grids.SeedStep | src/SudokuBoard.java:34-35 | filling box (n, n) and nothing else extends the seeding to the next diagonal box |
| Grids.SeedDone | src/SudokuBoard.java:33-37 | after the loop the three diagonal boxes are permutations and every other cell is empty |
| Grids.DiagonalSeedingReady | src/SudokuBoard.java:25-28 | a diagonal seeding is consistent: the three boxes share no row, column or box. It is filled before (0, 3) and all-empty from (0, 3) on, which is what the root call of the search needs |
| Grids.SeededNotSolved | src/SudokuBoard.java:25-28 | a grid holding only the diagonal seeding is not solved, because cell (0, 3) is empty |
| Grids.Normalize | src/SudokuBoard.java:47-74 | the cell the search moves to is a non-diagonal cell at or after the entry position, and every cell skipped on the way lies in a diagonal box. Finished means every cell from the entry position on lies in a diagonal box. The branch at line 53 cannot be taken |
| Grids.Settle | src/SudokuBoard.java:57-74 | the same guarantees for the box-dependent skip, including the stop when row 8 reaches column 6 |
| Grids.PlaceNext | src/SudokuBoard.java:78-80 | a tentative placement at the next cell finds that cell empty and leaves every later cell empty. When the digit is safe, the placement extends the filled, consistent prefix by one cell |
| Grids.SuccessLifts | src/SudokuBoard.java:80-81 | a successful search from the following cell is a successful search from the current position |
| Grids.SkipSeeded | src/SudokuBoard.java:58-74 | skipping diagonal-box cells keeps the empty suffix and the filled prefix, and the frame and success guarantees carry back to the entry position |
| Grids.FinishedSolved | src/SudokuBoard.java:70-72 | when no non-diagonal cell remains, a consistent grid that is filled before the position is solved |
| Grids.VisitOrder | src/SudokuBoard.java:45-87 | from a cursor, the search reaches exactly the non-diagonal cells at or after the cursor, each once, in strictly increasing row-major order |
| Grids.SearchOrder | src/SudokuBoard.java:45-87 | from an entry position, the search reaches exactly the non-diagonal cells from that position on, in strictly row-major order |
| Grids.FreeCellsFollowRoot | src/SudokuBoard.java:27 | every cell outside the diagonal boxes lies at or after (0, 3) |
| Grids.RootTraversal | src/SudokuBoard.java:27 | the root call from (0, 3) reaches exactly the 54 cells outside the diagonal boxes, each once, in row-major order |
| Grids.ClearClue | src/SudokuBoard.java:196-198 | blanking a non-empty cell removes exactly one clue |
| Grids.CountClear | src/SudokuBoard.java:196-198 | blanking a non-zero entry of a row lowers its count of non-zero entries by one |
| Grids.SomeClue | src/SudokuBoard.java:193-197 | a grid that has a clue has a non-empty cell, so the random removal has a cell to accept |
| Grids.FullClues | src/SudokuBoard.java:188-189 | a grid without empty cells has 81 clues |
| Digits.MissingDigit | src/SudokuBoard.java:98-101 | fewer than n values cannot cover all of 1..n |
| Digits.DistinctFits | src/SudokuBoard.java:94-105 | distinct values drawn from 1..n number at most n |
| Digits.AllDigitsPresent | src/SudokuBoard.java:94-105 | n distinct values drawn from 1..n include every digit 1..n |

## Left out

- `java.util.Random` (lines 95-101 and 190-195) is modelled as a nondeterministic choice.
  - FillBox picks any digit that the box does not hold yet. That is the digit `isSafeBox` would accept.
  - RemoveDigits picks any cell that is non-empty. That is the cell the `board[i][j] != 0` test would accept.
  - The rejected draws are not modelled. Neither is the probability that the loops terminate.
- SudokuBoard.SudokuBoard.FillBox: the `isSafeBox` call inside the rejection loop is folded into the choice. The method IsSafeBox is still modelled and proved on its own.
- SudokuBoard.SudokuBoard.GenerateBoard: it returns the result of the completion; the Java method is `void` and discards it.
- SudokuBoard.SudokuBoard.constructor: clue removal runs only when the completion succeeded.
  - After a failed completion only 27 cells are non-empty. The Java `removeDigits` would then never stop.
  - The model therefore keeps the seeded grid as the puzzle instead.
- It is not proved that the root call `fillRemaining(0, 3)` succeeds for every diagonal seeding. That is a fact about Sudoku grids, not about this code. The model states both outcomes instead:
  - success gives a solved grid;
  - failure leaves the grid unchanged.
- SudokuBoard.SudokuBoard.FillCell: the trial loop of `fillRemaining` (lines 77-86) is its own method. FillRemaining and FillCell call each other, so the position skip and the digit loop are proved separately.
- `int[][]` becomes `array2<int>`. The Java rows are created together by `new int[9][9]` and are never shared. So a rectangular array captures them, and row aliasing is not modelled.
- Java `int` overflow does not arise: every value stays within 0..81.
- The Swing game window in `src/SudokuGame.java` is not part of this model. It covers the text fields, the colouring of entries against the solution, the timer, the dialogs, restart and `main`.
