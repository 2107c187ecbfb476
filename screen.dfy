/**
 * The game-board state behind the Sudoku window: a 9 × 9 grid of cells, each with a value,
 * a pencilled-in sketch and a selection flag, plus the board's record of the selected cell.
 * Drawing is not modelled; the solution and the puzzle grids are given to the constructor.
 */
module Screen {
  import opened Arith
  import opened SudokuRules
  import opened Wrappers

  /** Number of cells to empty for a difficulty label: easy 30, medium 40, anything else 50. */
  function RemovalsFor(difficulty: string): (less: int)
    ensures less == 30 <==> difficulty == "easy"
    ensures less == 40 <==> difficulty == "medium"
    ensures less == 50 <==> difficulty != "easy" && difficulty != "medium"
  {
    if difficulty == "easy" then 30
    else if difficulty == "medium" then 40
    else 50
  }

  /** A 9 × 9 grid of numbers, as the board's lists of lists. */
  ghost predicate Is9x9(g: seq<seq<int>>) {
    |g| == 9 && forall r :: 0 <= r < 9 ==> |g[r]| == 9
  }

  /** No cell of the grid is empty (0). */
  ghost predicate NoBlank(g: seq<seq<int>>) {
    forall r, c :: 0 <= r < |g| && 0 <= c < |g[r]| ==> g[r][c] != 0
  }

  /** Every cell of the grid holds a digit 1..9. */
  ghost predicate AllDigits(g: seq<seq<int>>) {
    forall r, c :: 0 <= r < |g| && 0 <= c < |g[r]| ==> 1 <= g[r][c] <= 9
  }

  class Cell {
    var value: int
    var sketchedValue: int
    var selected: bool
    const row: int
    const col: int
    const size: int
    const x: int
    const y: int
    const isGiven: bool

    /** `Cell.__init__`: a 60-pixel square at (col * 60, row * 60), given when its value is not 0. */
    constructor(value: int, row: int, col: int)
      ensures this.value == value && sketchedValue == 0 && !selected
      ensures this.row == row && this.col == col
      ensures size == 60 && x == col * 60 && y == row * 60
      ensures isGiven <==> value != 0
    {
      this.value := value;
      sketchedValue := 0;
      this.row := row;
      this.col := col;
      selected := false;
      size := 60;
      x := col * 60;
      y := row * 60;
      isGiven := value != 0;
    }

    /** `set_cell_value`. */
    method SetCellValue(value: int)
      modifies this
      ensures this.value == value && sketchedValue == old(sketchedValue) && selected == old(selected)
    {
      this.value := value;
    }

    /** `set_sketched_value`. */
    method SetSketchedValue(value: int)
      modifies this
      ensures sketchedValue == value && this.value == old(this.value) && selected == old(selected)
    {
      sketchedValue := value;
    }
  }

  class Board {
    const width: int
    const height: int
    const difficulty: string
    const solution: seq<seq<int>>
    const original: seq<seq<int>>
    const cells: seq<seq<Cell>>
    var selectedCell: Option<(int, int)>

    /** The cells as a 9 × 9 list of lists. */
    ghost predicate Shaped() {
      |cells| == 9 && forall r :: 0 <= r < 9 ==> |cells[r]| == 9
    }

    ghost function Cells(): set<Cell>
      requires Shaped()
    {
      set r, c | 0 <= r < 9 && 0 <= c < 9 :: cells[r][c]
    }

    /**
     * Cell (r, c) knows its own position (so the 81 cells are distinct objects), the grids are
     * 9 × 9, and exactly the recorded selected cell, if any, is marked selected.
     */
    ghost predicate Valid()
      reads this, if Shaped() then Cells() else {}
    {
      Shaped() && Is9x9(solution) && Is9x9(original) &&
      (forall r, c :: 0 <= r < 9 && 0 <= c < 9 ==> cells[r][c].row == r && cells[r][c].col == c) &&
      match selectedCell
      case None => forall r, c :: 0 <= r < 9 && 0 <= c < 9 ==> !cells[r][c].selected
      case Some((sr, sc)) =>
        0 <= sr < 9 && 0 <= sc < 9 &&
        forall r, c :: 0 <= r < 9 && 0 <= c < 9 ==> (cells[r][c].selected <==> r == sr && c == sc)
    }

    /** The cell values as a grid, as `update_board` reads them. */
    ghost function Values(): (v: seq<seq<int>>)
      requires Shaped()
      reads this, Cells()
      ensures Is9x9(v) && forall r, c :: 0 <= r < 9 && 0 <= c < 9 ==> v[r][c] == cells[r][c].value
    {
      seq(9, r requires 0 <= r < 9 reads this, Cells() =>
        seq(9, c requires 0 <= c < 9 reads this, Cells() => cells[r][c].value))
    }

    /**
     * `Board.__init__` over a given solution and puzzle. As written, `original` is copied from
     * the generator's board before cells are removed, so it is the solution, not the puzzle.
     */
    constructor(width: int, height: int, difficulty: string, solution: seq<seq<int>>, puzzle: seq<seq<int>>)
      requires Is9x9(solution) && Is9x9(puzzle)
      ensures Valid() && selectedCell.None? && fresh(Cells())
      ensures this.width == width && this.height == height && this.difficulty == difficulty
      ensures this.solution == solution && original == solution
      ensures Values() == puzzle
      ensures forall r, c :: 0 <= r < 9 && 0 <= c < 9 ==>
        cells[r][c].sketchedValue == 0 && (cells[r][c].isGiven <==> puzzle[r][c] != 0)
    {
      var rows := CellsFor(puzzle);
      this.width := width;
      this.height := height;
      this.difficulty := difficulty;
      this.solution := solution;
      original := solution;
      cells := rows;
      selectedCell := None;
      new;
      assert forall r :: 0 <= r < 9 ==> Values()[r] == puzzle[r];
    }

    /** The corrected constructor: `original` is the puzzle as dealt, so a reset restores it. */
    constructor FromPuzzle(width: int, height: int, difficulty: string, solution: seq<seq<int>>, puzzle: seq<seq<int>>)
      requires Is9x9(solution) && Is9x9(puzzle)
      ensures Valid() && selectedCell.None? && fresh(Cells())
      ensures this.width == width && this.height == height && this.difficulty == difficulty
      ensures this.solution == solution && original == puzzle
      ensures Values() == puzzle
      ensures forall r, c :: 0 <= r < 9 && 0 <= c < 9 ==>
        cells[r][c].sketchedValue == 0 && (cells[r][c].isGiven <==> puzzle[r][c] != 0)
    {
      var rows := CellsFor(puzzle);
      this.width := width;
      this.height := height;
      this.difficulty := difficulty;
      this.solution := solution;
      original := puzzle;
      cells := rows;
      selectedCell := None;
      new;
      assert forall r :: 0 <= r < 9 ==> Values()[r] == puzzle[r];
    }

    /** `select`: deselect the previously selected cell, if any, and select (row, col). */
    method Select(row: int, col: int)
      requires Valid() && 0 <= row < 9 && 0 <= col < 9
      modifies this, Cells()
      ensures Valid() && selectedCell == Some((row, col))
      ensures forall r, c :: 0 <= r < 9 && 0 <= c < 9 ==>
        (cells[r][c].selected <==> r == row && c == col) &&
        cells[r][c].value == old(cells[r][c].value) &&
        cells[r][c].sketchedValue == old(cells[r][c].sketchedValue)
    {
      if selectedCell.Some? {
        var (r, c) := selectedCell.value;
        cells[r][c].selected := false;
      }
      cells[row][col].selected := true;
      selectedCell := Some((row, col));
    }

    /**
     * `click`: the (row, col) under pixel (x, y), by floor division by the cell size width / 9,
     * or None outside [0, width] × [0, height]. The right and bottom edges are inside, so
     * x == width gives column 9. The division happens only inside, so only there must the
     * cell size be positive.
     */
    function Click(x: int, y: int): (pos: Option<(int, int)>)
      requires width >= 9 || x < 0 || x > width || y < 0 || y > height
      reads this
      ensures pos.None? <==> x < 0 || x > width || y < 0 || y > height
      ensures pos.Some? ==>
        var (r, c) := pos.value;
        0 <= r && 0 <= c &&
        r * (width / 9) <= y < r * (width / 9) + width / 9 &&
        c * (width / 9) <= x < c * (width / 9) + width / 9
    {
      var cellSize := width / 9;
      if x < 0 || x > width || y < 0 || y > height then None
      else
        DivRange(y, cellSize);
        DivRange(x, cellSize);
        Some((y / cellSize, x / cellSize))
    }

    /** On the 540-pixel board every click inside the board, edges excluded, lands on a cell 0..8. */
    lemma ClickInBoard(x: int, y: int)
      requires width == 540 && height == 540 && 0 <= x < 540 && 0 <= y < 540
      ensures Click(x, y).Some? && 0 <= Click(x, y).value.0 < 9 && 0 <= Click(x, y).value.1 < 9
    {
    }

    /** A click on the right edge, x == width, maps to column 9, one past the last column. */
    lemma ClickRightEdge(y: int)
      requires width == 540 && 0 <= y <= height
      ensures Click(540, y).Some? && Click(540, y).value.1 == 9
    {
    }

    /** `clear`: empty the selected cell's value and sketch; no-op with nothing selected. */
    method Clear()
      requires Valid()
      modifies Cells()
      ensures Valid()
      ensures forall r, c :: 0 <= r < 9 && 0 <= c < 9 ==>
        cells[r][c].selected == old(cells[r][c].selected) &&
        if selectedCell == Some((r, c)) then cells[r][c].value == 0 && cells[r][c].sketchedValue == 0
        else cells[r][c].value == old(cells[r][c].value) && cells[r][c].sketchedValue == old(cells[r][c].sketchedValue)
    {
      if selectedCell.None? {
        return;
      }
      var (row, col) := selectedCell.value;
      cells[row][col].SetCellValue(0);
      cells[row][col].SetSketchedValue(0);
    }

    /** `sketch`: pencil `value` into the selected cell; no-op with nothing selected. */
    method Sketch(value: int)
      requires Valid()
      modifies Cells()
      ensures Valid()
      ensures forall r, c :: 0 <= r < 9 && 0 <= c < 9 ==>
        cells[r][c].selected == old(cells[r][c].selected) &&
        cells[r][c].value == old(cells[r][c].value) &&
        cells[r][c].sketchedValue == if selectedCell == Some((r, c)) then value else old(cells[r][c].sketchedValue)
    {
      if selectedCell.None? {
        return;
      }
      var (row, col) := selectedCell.value;
      cells[row][col].SetSketchedValue(value);
    }

    /**
     * `place_number`: set the selected cell's value; no-op with nothing selected. Whether the
     * cell was given is not consulted, so a given cell can be overwritten.
     */
    method PlaceNumber(value: int)
      requires Valid()
      modifies Cells()
      ensures Valid()
      ensures forall r, c :: 0 <= r < 9 && 0 <= c < 9 ==>
        cells[r][c].selected == old(cells[r][c].selected) &&
        cells[r][c].sketchedValue == old(cells[r][c].sketchedValue) &&
        cells[r][c].value == if selectedCell == Some((r, c)) then value else old(cells[r][c].value)
    {
      if selectedCell.None? {
        return;
      }
      var (row, col) := selectedCell.value;
      cells[row][col].SetCellValue(value);
    }

    /** `reset_to_original`: every value back to `original`, every sketch erased. */
    method ResetToOriginal()
      requires Valid()
      modifies Cells()
      ensures Valid() && Values() == original
      ensures forall r, c :: 0 <= r < 9 && 0 <= c < 9 ==>
        cells[r][c].sketchedValue == 0 && cells[r][c].selected == old(cells[r][c].selected)
    {
      for r := 0 to 9
        invariant forall i, j :: 0 <= i < 9 && 0 <= j < 9 ==>
          cells[i][j].selected == old(cells[i][j].selected) &&
          if i < r then cells[i][j].value == original[i][j] && cells[i][j].sketchedValue == 0
          else cells[i][j].value == old(cells[i][j].value) && cells[i][j].sketchedValue == old(cells[i][j].sketchedValue)
      {
        for c := 0 to 9
          invariant forall i, j :: 0 <= i < 9 && 0 <= j < 9 ==>
            cells[i][j].selected == old(cells[i][j].selected) &&
            if Before(i, j, r, c) || i < r then cells[i][j].value == original[i][j] && cells[i][j].sketchedValue == 0
            else cells[i][j].value == old(cells[i][j].value) && cells[i][j].sketchedValue == old(cells[i][j].sketchedValue)
        {
          cells[r][c].value := original[r][c];
          cells[r][c].sketchedValue := 0;
        }
      }
      assert forall r :: 0 <= r < 9 ==> Values()[r] == original[r];
    }

    /** `is_full`: no cell is empty. */
    method IsFull() returns (full: bool)
      requires Valid()
      ensures full <==> NoBlank(Values())
    {
      for r := 0 to 9
        invariant forall i, j :: 0 <= i < r && 0 <= j < 9 ==> cells[i][j].value != 0
      {
        for c := 0 to 9
          invariant forall j :: 0 <= j < c ==> cells[r][j].value != 0
        {
          if cells[r][c].value == 0 {
            return false;
          }
        }
      }
      return true;
    }

    /** `find_empty`: the first empty cell in row-major order, None exactly when the board is full. */
    method FindEmpty() returns (pos: Option<(int, int)>)
      requires Valid()
      ensures pos.None? <==> NoBlank(Values())
      ensures pos.Some? ==>
        var (r, c) := pos.value;
        0 <= r < 9 && 0 <= c < 9 && Values()[r][c] == 0 &&
        forall i, j :: 0 <= i < 9 && 0 <= j < 9 && Before(i, j, r, c) ==> Values()[i][j] != 0
    {
      for r := 0 to 9
        invariant forall i, j :: 0 <= i < r && 0 <= j < 9 ==> cells[i][j].value != 0
      {
        for c := 0 to 9
          invariant forall j :: 0 <= j < c ==> cells[r][j].value != 0
        {
          if cells[r][c].value == 0 {
            return Some((r, c));
          }
        }
      }
      return None;
    }

    /** `check_board`: every cell's value equals the solution's. */
    method CheckBoard() returns (correct: bool)
      requires Valid()
      ensures correct <==> Values() == solution
    {
      for r := 0 to 9
        invariant forall i, j :: 0 <= i < r && 0 <= j < 9 ==> cells[i][j].value == solution[i][j]
      {
        for c := 0 to 9
          invariant forall j :: 0 <= j < c ==> cells[r][j].value == solution[r][j]
        {
          if cells[r][c].value != solution[r][c] {
            return false;
          }
        }
      }
      assert forall i :: 0 <= i < 9 ==> Values()[i] == solution[i];
      return true;
    }

    /** `update_board`: the values read out row by row into a fresh list of lists. */
    method UpdateBoard() returns (board: seq<seq<int>>)
      requires Valid()
      ensures board == Values()
    {
      board := [];
      for r := 0 to 9
        invariant |board| == r
        invariant forall i :: 0 <= i < r ==> board[i] == Values()[i]
      {
        var row := [];
        for c := 0 to 9
          invariant |row| == c
          invariant forall j :: 0 <= j < c ==> row[j] == cells[r][j].value
        {
          row := row + [cells[r][c].value];
        }
        board := board + [row];
      }
    }
  }

  /** The 81 fresh cells of a new board, cell (r, c) holding `puzzle[r][c]`. */
  method CellsFor(puzzle: seq<seq<int>>) returns (rows: seq<seq<Cell>>)
    requires Is9x9(puzzle)
    ensures |rows| == 9 && forall r :: 0 <= r < 9 ==> |rows[r]| == 9
    ensures forall r, c :: 0 <= r < 9 && 0 <= c < 9 ==>
      fresh(rows[r][c]) && rows[r][c].row == r && rows[r][c].col == c &&
      rows[r][c].value == puzzle[r][c] && rows[r][c].sketchedValue == 0 && !rows[r][c].selected &&
      (rows[r][c].isGiven <==> puzzle[r][c] != 0)
  {
    rows := [];
    for r := 0 to 9
      invariant |rows| == r && forall i :: 0 <= i < r ==> |rows[i]| == 9
      invariant forall i, j :: 0 <= i < r && 0 <= j < 9 ==>
        fresh(rows[i][j]) && rows[i][j].row == i && rows[i][j].col == j &&
        rows[i][j].value == puzzle[i][j] && rows[i][j].sketchedValue == 0 && !rows[i][j].selected &&
        (rows[i][j].isGiven <==> puzzle[i][j] != 0)
    {
      var rowCells: seq<Cell> := [];
      for c := 0 to 9
        invariant |rowCells| == c
        invariant forall i, j :: 0 <= i < r && 0 <= j < 9 ==>
          rows[i][j].value == puzzle[i][j] && rows[i][j].sketchedValue == 0 && !rows[i][j].selected
        invariant forall j :: 0 <= j < c ==>
          fresh(rowCells[j]) && rowCells[j].row == r && rowCells[j].col == j &&
          rowCells[j].value == puzzle[r][j] && rowCells[j].sketchedValue == 0 && !rowCells[j].selected &&
          (rowCells[j].isGiven <==> puzzle[r][j] != 0)
      {
        var cell := new Cell(puzzle[r][c], r, c);
        rowCells := rowCells + [cell];
      }
      rows := rows + [rowCells];
    }
  }

  /**
   * As written, `original` is the solution, so pressing Reset right after the board is dealt
   * fills every cell with the solution: the board is full and correct, and the game is won.
   */
  method ResetRevealsSolution(solution: seq<seq<int>>, puzzle: seq<seq<int>>) returns (full: bool, correct: bool)
    requires Is9x9(solution) && Is9x9(puzzle) && AllDigits(solution)
    ensures full && correct
  {
    var board := new Board(540, 540, "easy", solution, puzzle);
    board.ResetToOriginal();
    full := board.IsFull();
    correct := board.CheckBoard();
  }

  /**
   * With `original` taken from the puzzle, Reset shows the puzzle as dealt again: a puzzle with
   * an empty cell stays unfinished.
   */
  method ResetRestoresPuzzle(solution: seq<seq<int>>, puzzle: seq<seq<int>>) returns (full: bool, shown: seq<seq<int>>)
    requires Is9x9(solution) && Is9x9(puzzle) && !NoBlank(puzzle)
    ensures !full && shown == puzzle
  {
    var board := new Board.FromPuzzle(540, 540, "easy", solution, puzzle);
    board.ResetToOriginal();
    full := board.IsFull();
    shown := board.UpdateBoard();
  }
}
