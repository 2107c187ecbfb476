# Sudoku generator and game board, modelled in Dafny

This project models two parts of a single-player Sudoku game.

**The puzzle generator** (`SudokuGenerator` in `sudoku_generator.py`) builds a full grid in three steps:
- It seeds the boxes on the main diagonal with shuffled digits.
- It completes the rest of the grid by row-major backtracking that tries 1..n in ascending order.
- It keeps a copy of the finished grid as the solution, then empties a requested number of distinct filled cells.

**The game board** (`Board` and `Cell` in `screen.py`) is a 9 × 9 grid of cells. Each cell has a value, a sketched (pencilled) value and a selection flag, and the board records which cell is selected. The board supports selection, clicks, clearing, sketching, placing numbers, reset, and the full/empty/correct queries.

Files:
- `wrappers.dfy`: `Option`.
- `arith.dfy`: floor-division facts used to reason about boxes.
- `counting.dfy`: distinctness and the pigeonhole argument, plus cell counts.
- `sudoku_rules.dfy`: what a conflict-free, solved and diagonally seeded grid is, and what follows from each (every row, column and box holds each digit exactly once).
- `sudoku_generator.dfy`: the generator as a class over an `array2<int>` board, with the source's loops and in-place updates.
- `screen.dfy`: `Cell` and `Board` as classes whose methods update their fields in place.

Randomness is a parameter:
- `random.shuffle` becomes an argument `nums` (one for `fill_box`), or `perms` (one per diagonal box), that must be a permutation of 1..n.
- `random.randint` in `remove_cells` becomes a nondeterministic choice (`:|`) of a currently filled cell. A draw that hits an empty cell changes nothing in the source, so such draws are not modelled.

`Board` takes its solution and puzzle grids as constructor arguments instead of calling the generator.

Two facts about the code shape the contracts:
- The code maps an unrecognised difficulty label to 50 removals (screen.py:51-52).
- The code rejects no size and no removal count up front. The preconditions state when it neither crashes nor hangs.

## Model

| member | source | states |
|---|---|---|
| Generator.ISqrt | sudoku_generator.py:32 | the integer square root: r² ≤ n < (r+1)² |
| Generator.SudokuGenerator.constructor | sudoku_generator.py:29-33 | an all-zero row_length × row_length board, box_length the integer square root of row_length, no solution yet |
| Generator.SudokuGenerator.GetBoard | sudoku_generator.py:39-40 | returns the generator's own board (the same array, not a copy) |
| Generator.SudokuGenerator.ValidInRow | sudoku_generator.py:52-53 | true exactly when `num` occurs nowhere in row `row` |
| Generator.SudokuGenerator.ValidInCol | sudoku_generator.py:60-64 | true exactly when `num` occurs nowhere in column `col` |
| Generator.SudokuGenerator.ValidInBox | sudoku_generator.py:72-77 | true exactly when `num` occurs nowhere in the box_length × box_length block at (row_start, col_start) |
| Generator.SudokuGenerator.IsValid | sudoku_generator.py:84-93 | true exactly when `num` is absent from the row, the column and the block at (row − row % b, col − col % b); equivalently, no cell sharing a row, column or box with (row, col) holds `num` |
| SudokuRules.ConflictsByUnit | sudoku_generator.py:89-91 | the block at (row − row % b, col − col % b) lies inside the board and is exactly the box of (row, col), so row, column and block checks together find every conflicting cell |
| Generator.SudokuGenerator.FillBox | sudoku_generator.py:99-106 | the block at (row_start, col_start) holds `nums` in row-major order (idx = r·b + c), and no other cell changes |
| Generator.SudokuGenerator.FillDiagonal | sudoku_generator.py:112-114 | the k-th diagonal box holds the k-th shuffle, nothing off the diagonal changes, and from an empty board the result is the diagonal seeding |
| SudokuRules.SeedHasNoConflicts | sudoku_generator.py:112-114 | the diagonal seeding has no digit repeated in any row, column or box |
| SudokuRules.SeedBoxesComplete | sudoku_generator.py:112-114 | every seeded diagonal box holds each digit 1..n |
| Generator.NextCell | sudoku_generator.py:122-138 | the cell backtracking works on next: it wraps at a row's end and skips the diagonal box of the row's band; it passes over only diagonal cells; it is None only when no cell off the diagonal is left; the following position is again a valid entry |
| Generator.SudokuGenerator.FillRemaining | sudoku_generator.py:121-146 | keeps the board free of conflicts; never writes a diagonal cell or a cell before the entry; on False the board is exactly as on entry; on True every cell off the diagonal from the entry on holds a digit 1..n; the position strictly advances, so it terminates |
| Generator.SudokuGenerator.FillValues | sudoku_generator.py:153-156 | after seeding and backtracking, a successful fill leaves a solved board; a failed one leaves the diagonal seeding; `solution_board` is a fresh array equal to the board |
| SudokuRules.SolvedIsFull | sudoku_generator.py:153-156 | a solved board has all n·n cells filled |
| SudokuRules.SolvedRowsComplete | sudoku_generator.py:153-156 | each row of a solved board holds every digit 1..n exactly once |
| SudokuRules.SolvedColsComplete | sudoku_generator.py:153-156 | each column of a solved board holds every digit 1..n exactly once |
| SudokuRules.SolvedBoxesComplete | sudoku_generator.py:153-156 | each box of a solved board holds every digit 1..n exactly once |
| Generator.SudokuGenerator.RemoveCells | sudoku_generator.py:163-171 | with removed_cells at most the number of filled cells: exactly max(removed_cells, 0) previously filled cells become 0, every other cell is unchanged, the solution copy is untouched, and the board itself is returned |
| Generator.GenerateSudoku | sudoku_generator.py:181-185 | the returned puzzle is a fresh size × size board in which every cell is empty or agrees with a solved board, with exactly max(removed, 0) cells emptied |
| Screen.RemovalsFor | screen.py:47-52 | "easy" gives 30, "medium" 40, any other label 50, each exactly |
| Screen.Cell.constructor | screen.py:7-17 | a cell at (row, col) with sketch 0, not selected, 60 pixels wide at (col·60, row·60), given exactly when its value is not 0 |
| Screen.Cell.SetCellValue | screen.py:19-20 | sets the value only |
| Screen.Cell.SetSketchedValue | screen.py:22-23 | sets the sketch only |
| Screen.CellsFor | screen.py:62-70 | 81 fresh cells, cell (r, c) at row r, column c, holding puzzle[r][c] |
| Screen.Board.constructor | screen.py:41-72 | cells show the puzzle, nothing is selected, and `original` equals the solution, because the source copies the board before removing cells |
| Screen.Board.Select | screen.py:87-92 | afterwards (row, col) is the selected cell and the only one marked selected; values and sketches are unchanged |
| Screen.Board.Click | screen.py:94-103 | None exactly outside [0, width] × [0, height]; otherwise (row, col) with row·s ≤ y < (row+1)·s and col·s ≤ x < (col+1)·s, for cell size s = width // 9 |
| Screen.Board.ClickInBoard | screen.py:97-103 | on the 540-pixel board, a click strictly inside lands on a cell in 0..8 × 0..8 |
| Screen.Board.ClickRightEdge | screen.py:97-103 | a click at x == width is accepted and maps to column 9 |
| Screen.Board.Clear | screen.py:105-110 | no-op with nothing selected; otherwise only the selected cell changes, to value 0 and sketch 0 |
| Screen.Board.Sketch | screen.py:112-116 | no-op with nothing selected; otherwise only the selected cell's sketch changes |
| Screen.Board.PlaceNumber | screen.py:118-122 | no-op with nothing selected; otherwise only the selected cell's value changes, whether or not the cell was given |
| Screen.Board.ResetToOriginal | screen.py:124-128 | every value becomes `original`'s, every sketch 0, and the selection is unchanged |
| Screen.Board.IsFull | screen.py:130-135 | true exactly when no cell holds 0 |
| Screen.Board.UpdateBoard | screen.py:137-144 | the cell values read out row by row |
| Screen.Board.FindEmpty | screen.py:146-151 | the first cell holding 0 in row-major order; None exactly when the board is full |
| Screen.Board.CheckBoard | screen.py:153-158 | true exactly when every cell's value equals the solution's |
| Screen.ResetRevealsSolution | screen.py:124-128 | as written, a reset right after dealing makes the board full and equal to the solution |
| Screen.Board.FromPuzzle | screen.py:57 | corrected constructor: `original` is the puzzle as dealt |
| Screen.ResetRestoresPuzzle | screen.py:124-128 | with the corrected constructor, a reset shows the puzzle again, and a puzzle with an empty cell is not full |

## Left out

- `print_board` (sudoku_generator.py:43-45), `Cell.draw` and `Board.draw`: console output and rendering.
- The `screen` object that `Cell` and `Board` hold. It is used only for drawing.
- `main.py` and `sudoku.py`: window, event loop and buttons.
- The probability distribution of `random.shuffle` and `random.randint`. Shuffles are arbitrary permutations, and removal picks any filled cell.
- `math.sqrt` on floats: `ISqrt` is the exact integer square root.
- Generator.SudokuGenerator.FillDiagonal: covers only row_length == box_length² with box_length ≥ 2. `FillRemaining`, `FillValues` and `GenerateSudoku` require the same. Other sizes behave as follows:
  - row_length 0 gives box_length 0, and `range` with step 0 raises ValueError.
  - A row_length that is not a multiple of box_length (5, 7, 10, 11, 13, 14, …) makes the last `fill_box` write past the board (IndexError).
  - The other non-squares (2, 3, 6, 8, 12, 15, …) run, but a box has box_length² < row_length cells, so it cannot hold every digit.
  - row_length 1 is a perfect square but is left out as degenerate.
- Generator.SudokuGenerator.FillRemaining: requires an entry position that the traversal can reach. Those are (n, n), or a position either off the diagonal boxes or at the left edge of one, and not one past the last row's end. Some other arguments make the source index past the board, such as (n − 1, n), or overwrite a diagonal cell, such as (3, 4) when n = 9. It handles the rest, such as (0, 1) or (n, n − b). `fill_values` passes only (0, box_length), and every recursive call stays at an entry position (the `Entry` clause in `NextCell`'s contract).
- Generator.SudokuGenerator.FillRemaining: completeness is not proved. The model does not show that backtracking from any diagonal seeding succeeds.
- Generator.SudokuGenerator.FillValues: returns the outcome of the backtracking as `filled`; the source discards it. It requires an all-zero board, which is how the source always calls it (on a fresh generator).
- Generator.GenerateSudoku: returns None when backtracking reports failure. In that case the source would go on with the seeded grid alone.
- Generator.SudokuGenerator.RemoveCells: requires `removed_cells` to be at most the number of filled cells. Otherwise the source's loop never ends.
- Screen.Board.constructor: how `Board.__init__` obtains its grids from the generator (screen.py:54-60) is not modelled. The solution and the puzzle are arguments. `original` is set to the solution, which is what the copy at line 57 holds.
- Screen.Board.Click: requires width ≥ 9 for a click inside [0, width] × [0, height]. With 0 ≤ width < 9 the cell size width // 9 is 0 (screen.py:95), and such a click raises ZeroDivisionError at screen.py:100. Clicks outside return None for every width.
- Screen.Board.Select: requires 0 ≤ row, col ≤ 8. `click` returns row or column 9 for any y or x from 9 · (width // 9) up to height or width, and `select` then deselects the old cell and raises IndexError. The two callers differ:
  - main.py builds a 540-pixel board in a 540-pixel-wide window and forwards only clicks with y < 540 (main.py:133), so index 9 never reaches `select`.
  - sudoku.py builds `Board(460, 460, …)` (sudoku.py:51), whose cell size is 51, and passes every click result to `select` (sudoku.py:62-64). An x or y of 459 or 460 there gives index 9.
- `Cell.is_given` is recorded but never consulted. The contracts of `Clear` and `PlaceNumber` therefore apply to given cells too.

## Findings

| source | as written | input that shows it | evidently intended | confidence | as-written member | corrected member |
|---|---|---|---|---|---|---|
| screen.py:57-59 | `original` is copied from the generator's board before `remove_cells`, so it is the full solution; `reset_to_original` (124-128) then fills every cell with the solution | any new board, then Reset: the board is full and `check_board` is true, so the game reports a win without the player filling a cell | `original` is the puzzle as dealt, so Reset restores the puzzle and its empty cells | high; not executed | Screen.ResetRevealsSolution | Screen.ResetRestoresPuzzle |
