/**
 * The Sudoku generator: seeds the diagonal boxes with shuffled digits, completes the
 * grid by backtracking in row-major order, keeps a copy of the solution and then
 * empties a requested number of cells.
 */
module Generator {
  import opened Arith
  import opened SudokuRules
  import opened Wrappers

  /** `int(math.sqrt(n))`: the largest r with r * r <= n. */
  function ISqrt(n: nat): (r: nat)
    ensures r * r <= n < (r + 1) * (r + 1)
  {
    if n == 0 then 0
    else
      var s := ISqrt(n - 1);
      if (s + 1) * (s + 1) <= n then s + 1 else s
  }

  /** Facts about the first band of rows, whose diagonal box is the top-left one. */
  lemma FirstBand(r: int, c: int, b: int)
    requires b >= 2 && 0 <= r < b && 0 <= c
    ensures b < b * b && !Diagonal(r, b, b)
    ensures forall j :: 0 <= j < b ==> Diagonal(r, j, b)
    ensures b <= c ==> !Diagonal(r, c, b)
  {
    MulLeq(2, b, b);
    DivBounds(r, b, 0);
    DivBounds(b, b, 1);
    forall j | 0 <= j < b ensures Diagonal(r, j, b) {
      DivBounds(j, b, 0);
    }
    if b <= c {
      DivRange(c, b);
      if c / b <= 0 {
        MulLeq(c / b, 0, b);
        assert false;
      }
    }
  }

  /** Facts about a middle band of rows: its diagonal box starts at column (r / b) * b. */
  lemma MiddleBand(r: int, c: int, b: int)
    requires b >= 2 && b <= r < b * b - b && 0 <= c
    ensures 1 <= r / b && (r / b) * b + b + b <= b * b
    ensures forall j :: (r / b) * b <= j < (r / b) * b + b ==> Diagonal(r, j, b)
    ensures !Diagonal(r, (r / b) * b + b, b) && !Diagonal(r, 0, b)
    ensures Diagonal(r, c, b) && c % b == 0 ==> c == (r / b) * b
  {
    var q := r / b;
    DivRange(r, b);
    if q < 1 {
      MulLeq(q, 0, b);
      assert false;
    }
    assert (b - 1) * b == b * b - b;
    if q > b - 2 {
      MulLeq(b - 1, q, b);
      assert false;
    }
    MulLeq(q + 2, b, b);
    assert (q + 2) * b == q * b + b + b;
    forall j | q * b <= j < q * b + b ensures Diagonal(r, j, b) {
      DivBounds(j, b, q);
    }
    assert (q + 1) * b == q * b + b;
    DivBounds(q * b + b, b, q + 1);
    DivBounds(0, b, 0);
    if Diagonal(r, c, b) && c % b == 0 {
      DivRange(c, b);
    }
  }

  /** Facts about the last band of rows, whose diagonal box is the bottom-right one. */
  lemma LastBand(r: int, c: int, b: int)
    requires b >= 2 && b * b - b <= r < b * b && 0 <= c < b * b
    ensures 0 < b * b - b
    ensures forall j :: b * b - b <= j < b * b ==> Diagonal(r, j, b)
    ensures c < b * b - b ==> !Diagonal(r, c, b)
    ensures b * b - b < c ==> Diagonal(r, c, b) && c % b != 0
    ensures r + 1 < b * b ==> !Diagonal(r + 1, 0, b)
  {
    MulLeq(2, b, b);
    assert (b - 1) * b == b * b - b;
    DivBounds(r, b, b - 1);
    forall j | b * b - b <= j < b * b ensures Diagonal(r, j, b) {
      DivBounds(j, b, b - 1);
    }
    if c < b * b - b {
      DivRange(c, b);
      if c / b >= b - 1 {
        MulLeq(b - 1, c / b, b);
        assert false;
      }
    }
    if b * b - b < c {
      DivBounds(c, b, b - 1);
    }
    if r + 1 < b * b {
      DivBounds(r + 1, b, b - 1);
      DivBounds(0, b, 0);
    }
  }

  /** Moving one column right enters a new box only at a multiple of b. */
  lemma BlockBoundary(c: int, b: int)
    requires b > 0 && 0 <= c && (c + 1) / b != c / b
    ensures (c + 1) % b == 0
  {
    DivRange(c, b);
    DivRange(c + 1, b);
    if (c + 1) % b != 0 {
      DivBounds(c, b, (c + 1) / b);
      assert false;
    }
  }

  /** A cell of the last column that is off the diagonal lies above the last band. */
  lemma LastColumn(r: int, b: int)
    requires b >= 2 && 0 <= r < b * b && !Diagonal(r, b * b - 1, b)
    ensures r < b * b - b
  {
    assert (b - 1) * b == b * b - b;
    DivBounds(b * b - 1, b, b - 1);
    if r >= b * b - b {
      DivBounds(r, b, b - 1);
      assert false;
    }
  }

  /** The k-th diagonal box is exactly the cells whose row and column both lie in block k. */
  lemma DiagonalBoxCell(r: int, c: int, k: int, b: int)
    requires b > 0 && 0 <= k < b && 0 <= r && 0 <= c
    ensures (k * b <= r < k * b + b && k * b <= c < k * b + b) <==> (Diagonal(r, c, b) && r / b == k)
    ensures k * b <= r < k * b + b && k * b <= c < k * b + b ==> r - k * b == r % b && c - k * b == c % b
  {
    DivRange(r, b);
    DivRange(c, b);
    if k * b <= r < k * b + b && k * b <= c < k * b + b {
      DivBounds(r, b, k);
      DivBounds(c, b, k);
    }
  }

  /** The diagonal boxes start one box_length apart, and the last one ends the board. */
  lemma NextDiagonalStart(k: int, b: int)
    requires 0 <= k < b
    ensures k + 1 < b ==> DiagonalStart(k + 1, b) == DiagonalStart(k, b) + b
    ensures k + 1 == b ==> DiagonalStart(k, b) + b == b * b
  {
    assert (k + 1) * b == k * b + b;
  }

  /**
   * The positions `fill_remaining` is entered at: the end (n, n), or a cell of the board (or
   * one past a row's end, but not the last row's) that is either off the diagonal boxes or at
   * the left edge of one. `fill_values` and every recursive call keep to these.
   */
  predicate Entry(row: int, col: int, n: int, b: int)
    requires b > 0
  {
    (row == n && col == n) ||
    (0 <= row < n && 0 <= col <= n && (col == n ==> row < n - 1) &&
     (col < n && Diagonal(row, col, b) ==> col % b == 0))
  }

  /**
   * The cell `fill_remaining` works on when entered at (row, col): it wraps past a row's end,
   * skips the diagonal box of the row's band, and reports None when no cell is left.
   * Only diagonal cells are passed over, and the next entry, one column on, is again an Entry.
   */
  function NextCell(row: int, col: int, n: int, b: int): (next: Option<(int, int)>)
    requires b >= 2 && n == b * b && Entry(row, col, n, b)
    ensures next.None? ==> forall i, j :: 0 <= i < n && 0 <= j < n && !Diagonal(i, j, b) ==> Before(i, j, row, col)
    ensures next.Some? ==>
      var (r, c) := next.value;
      0 <= r < n && 0 <= c < n && !Diagonal(r, c, b) && !Before(r, c, row, col) &&
      Entry(r, c + 1, n, b) &&
      forall i, j :: 0 <= i < n && 0 <= j < n && !Before(i, j, row, col) && Before(i, j, r, c) ==> Diagonal(i, j, b)
  {
    var (r, c) := if col >= n && row < n - 1 then (row + 1, 0) else (row, col);
    if r >= n && c >= n then None
    else if r < b then
      FirstBand(r, c, b);
      var c' := if c < b then b else c;
      NextEntry(r, c', n, b);
      Some((r, c'))
    else if r < n - b then
      MiddleBand(r, c, b);
      var c' := if c == (r / b) * b then c + b else c;
      NextEntry(r, c', n, b);
      Some((r, c'))
    else
      LastBand(r, c, b);
      if c == n - b then
        if r + 1 >= n then None
        else
          NextEntry(r + 1, 0, n, b);
          Some((r + 1, 0))
      else
        NextEntry(r, c, n, b);
        Some((r, c))
  }

  /** One column on from a cell off the diagonal is again an entry position. */
  lemma NextEntry(r: int, c: int, n: int, b: int)
    requires b >= 2 && n == b * b && 0 <= r < n && 0 <= c < n && !Diagonal(r, c, b)
    ensures Entry(r, c + 1, n, b)
  {
    if c + 1 < n && Diagonal(r, c + 1, b) {
      BlockBoundary(c, b);
    }
    if c + 1 == n {
      LastColumn(r, b);
    }
  }

  class SudokuGenerator {
    const rowLength: nat
    const removedCells: int
    const boxLength: nat
    const board: array2<int>
    var solutionBoard: array2?<int>

    ghost predicate Valid()
      reads this
    {
      board.Length0 == rowLength && board.Length1 == rowLength &&
      boxLength == ISqrt(rowLength) &&
      (solutionBoard != null ==>
        solutionBoard != board &&
        solutionBoard.Length0 == rowLength && solutionBoard.Length1 == rowLength)
    }

    /** The board splits into boxes of side at least 2: row_length is box_length squared. */
    ghost predicate Boxed() {
      boxLength >= 2 && rowLength == boxLength * boxLength
    }

    /** `__init__`: an all-zero row_length × row_length board, box_length its integer square root. */
    constructor(rowLength: nat, removedCells: int)
      ensures Valid() && fresh(board) && solutionBoard == null
      ensures this.rowLength == rowLength && this.removedCells == removedCells
      ensures boxLength == ISqrt(rowLength)
      ensures boxLength * boxLength <= rowLength < (boxLength + 1) * (boxLength + 1)
      ensures forall i, j :: InGrid(board, i, j) ==> board[i, j] == 0
    {
      this.rowLength := rowLength;
      this.removedCells := removedCells;
      boxLength := ISqrt(rowLength);
      board := new int[rowLength, rowLength]((i, j) => 0);
      solutionBoard := null;
    }

    /** `valid_in_row`: `num` is not in row `row`. */
    function ValidInRow(row: int, num: int): (valid: bool)
      requires Valid() && 0 <= row < rowLength
      reads this, board
      ensures valid <==> !OccursInRow(board, row, num)
    {
      var cells := seq(rowLength, j requires 0 <= j < rowLength reads board => board[row, j]);
      assert forall j :: 0 <= j < rowLength ==> cells[j] == board[row, j];
      num !in cells
    }

    /** `valid_in_col`: scan the rows for `num` in column `col`. */
    method ValidInCol(col: int, num: int) returns (valid: bool)
      requires Valid() && 0 <= col < rowLength
      ensures valid <==> !OccursInCol(board, col, num)
    {
      for r := 0 to rowLength
        invariant forall i :: 0 <= i < r ==> board[i, col] != num
      {
        if board[r, col] == num {
          return false;
        }
      }
      return true;
    }

    /** `valid_in_box`: scan the box_length × box_length block at (rowStart, colStart). */
    method ValidInBox(rowStart: int, colStart: int, num: int) returns (valid: bool)
      requires Valid()
      requires 0 <= rowStart && rowStart + boxLength <= rowLength
      requires 0 <= colStart && colStart + boxLength <= rowLength
      ensures valid <==> !OccursInBox(board, rowStart, colStart, boxLength, num)
    {
      for r := rowStart to rowStart + boxLength
        invariant forall i, j :: rowStart <= i < r && colStart <= j < colStart + boxLength ==> board[i, j] != num
      {
        for c := colStart to colStart + boxLength
          invariant forall j :: colStart <= j < c ==> board[r, j] != num
        {
          if board[r, c] == num {
            return false;
          }
        }
      }
      return true;
    }

    /** `is_valid`: `num` may go at (row, col) unless its row, column or box already holds it. */
    method IsValid(row: int, col: int, num: int) returns (valid: bool)
      requires Valid() && boxLength >= 1 && rowLength == boxLength * boxLength
      requires 0 <= row < rowLength && 0 <= col < rowLength
      ensures valid <==>
        !OccursInRow(board, row, num) && !OccursInCol(board, col, num) &&
        !OccursInBox(board, row - row % boxLength, col - col % boxLength, boxLength, num)
      ensures valid <==> !Conflicts(board, boxLength, row, col, num)
    {
      ConflictsByUnit(board, boxLength, row, col, num);
      if !ValidInRow(row, num) {
        return false;
      }
      var inCol := ValidInCol(col, num);
      if !inCol {
        return false;
      }
      var rowStart := row - (row % boxLength);
      var colStart := col - (col % boxLength);
      var inBox := ValidInBox(rowStart, colStart, num);
      if !inBox {
        return false;
      }
      return true;
    }
  
    /**
     * `fill_box`: writes the shuffled digits `nums` row by row into the box_length ×
     * box_length block at (rowStart, colStart). The shuffle is a parameter.
     */
    method FillBox(rowStart: int, colStart: int, nums: seq<int>)
      requires Valid() && IsShuffle(nums, rowLength)
      requires 0 <= rowStart && rowStart + boxLength <= rowLength
      requires 0 <= colStart && colStart + boxLength <= rowLength
      modifies board
      ensures forall i, j :: rowStart <= i < rowStart + boxLength && colStart <= j < colStart + boxLength ==>
        board[i, j] == nums[Flat(i - rowStart, j - colStart, boxLength)]
      ensures forall i, j ::
        (InGrid(board, i, j) &&
         !(rowStart <= i < rowStart + boxLength && colStart <= j < colStart + boxLength)) ==>
        board[i, j] == old(board[i, j])
    {
      var b := boxLength;
      var idx := 0;
      for r := 0 to b
        invariant idx == r * b
        invariant forall i, j :: rowStart <= i < rowStart + r && colStart <= j < colStart + b ==>
          board[i, j] == nums[Flat(i - rowStart, j - colStart, b)]
        invariant forall i, j ::
          (InGrid(board, i, j) && !(rowStart <= i < rowStart + r && colStart <= j < colStart + b)) ==>
          board[i, j] == old(board[i, j])
      {
        for c := 0 to b
          invariant idx == r * b + c
          invariant forall i, j ::
            ((rowStart <= i < rowStart + r && colStart <= j < colStart + b) ||
             (i == rowStart + r && colStart <= j < colStart + c)) ==>
            board[i, j] == nums[Flat(i - rowStart, j - colStart, b)]
          invariant forall i, j ::
            (InGrid(board, i, j) &&
             !(rowStart <= i < rowStart + r && colStart <= j < colStart + b) &&
             !(i == rowStart + r && colStart <= j < colStart + c)) ==>
            board[i, j] == old(board[i, j])
        {
          assert idx == Flat(r, c, b);
          board[rowStart + r, colStart + c] := nums[idx];
          idx := idx + 1;
        }
        assert idx == (r + 1) * b;
      }
    }

    /** `fill_diagonal`: fills the k-th box on the main diagonal with the shuffle `perms[k]`. */
    method FillDiagonal(perms: seq<seq<int>>)
      requires Valid() && Boxed() && SeedPerms(perms, boxLength)
      modifies board
      ensures forall i, j :: InGrid(board, i, j) ==>
        board[i, j] == if Diagonal(i, j, boxLength) then SeedCell(perms, boxLength, i, j) else old(board[i, j])
      ensures (forall i, j :: InGrid(board, i, j) ==> old(board[i, j]) == 0) ==> DiagonalSeed(board, boxLength, perms)
    {
      var b := boxLength;
      var k := 0;
      var i := 0;
      while i < rowLength
        invariant 0 <= k <= b
        invariant k < b ==> i == DiagonalStart(k, b)
        invariant k == b ==> i == rowLength
        invariant forall r, c :: InGrid(board, r, c) ==>
          board[r, c] == if Diagonal(r, c, b) && r / b < k then SeedCell(perms, b, r, c) else old(board[r, c])
      {
        NextDiagonalStart(k, b);
        label Before:
        FillBox(i, i, perms[k]);
        forall r, c | InGrid(board, r, c)
          ensures board[r, c] == if Diagonal(r, c, b) && r / b < k + 1 then SeedCell(perms, b, r, c) else old(board[r, c])
        {
          DiagonalBoxCell(r, c, k, b);
          if i <= r < i + b && i <= c < i + b {
            assert board[r, c] == perms[k][Flat(r - i, c - i, b)];
          } else {
            assert board[r, c] == old@Before(board[r, c]);
          }
        }
        i := i + b;
        k := k + 1;
      }
      forall r, c | InGrid(board, r, c) ensures r / b < k {
        DivBelowSquare(r, b);
      }
    }
  
    /**
     * `fill_remaining`: backtracking over the cells off the diagonal boxes, in row-major order
     * from (row, col), trying the digits 1..n in increasing order. It keeps the board free of
     * conflicts and never touches the diagonal boxes or the cells before (row, col); on success
     * every remaining cell off the diagonal holds a digit, and on failure the board is as it was.
     */
    method FillRemaining(row: int, col: int) returns (ok: bool)
      requires Valid() && Boxed() && Entry(row, col, rowLength, boxLength)
      requires NoConflicts(board, boxLength)
      requires forall i, j :: InGrid(board, i, j) && !Diagonal(i, j, boxLength) && !Before(i, j, row, col) ==>
        board[i, j] == 0
      modifies board
      decreases rowLength - row, rowLength - col
      ensures NoConflicts(board, boxLength)
      ensures forall i, j :: InGrid(board, i, j) && (Diagonal(i, j, boxLength) || Before(i, j, row, col)) ==>
        board[i, j] == old(board[i, j])
      ensures !ok ==> forall i, j :: InGrid(board, i, j) ==> board[i, j] == old(board[i, j])
      ensures ok ==> forall i, j :: InGrid(board, i, j) && !Diagonal(i, j, boxLength) && !Before(i, j, row, col) ==>
        1 <= board[i, j] <= rowLength
    {
      var n, b := rowLength, boxLength;
      var next := NextCell(row, col, n, b);
      if next.None? {
        return true;
      }
      var (r, c) := next.value;
      for num := 1 to n + 1
        invariant forall i, j :: InGrid(board, i, j) ==> board[i, j] == old(board[i, j])
      {
        var valid := IsValid(r, c, num);
        if valid {
          board[r, c] := num;
          var filled := FillRemaining(r, c + 1);
          if filled {
            return true;
          }
          board[r, c] := 0;
        }
      }
      return false;
    }
  
    /**
     * `fill_values`: seeds the diagonal boxes, completes the board by backtracking from the
     * first cell after the top-left box, and keeps a copy as the solution. The source drops the
     * outcome of the backtracking; here it is returned as `filled`. When it holds the board is
     * solved; otherwise the board holds only the seeded diagonal boxes.
     */
    method FillValues(perms: seq<seq<int>>) returns (filled: bool)
      requires Valid() && Boxed() && SeedPerms(perms, boxLength)
      requires forall i, j :: InGrid(board, i, j) ==> board[i, j] == 0
      modifies this, board
      ensures Valid() && solutionBoard != null && fresh(solutionBoard)
      ensures filled ==> Solved(board, boxLength)
      ensures !filled ==> DiagonalSeed(board, boxLength, perms)
      ensures forall i, j :: InGrid(board, i, j) ==> solutionBoard[i, j] == board[i, j]
    {
      var n, b := rowLength, boxLength;
      FillDiagonal(perms);
      assert DiagonalSeed(board, b, perms);
      SeedHasNoConflicts(board, b, perms);
      FirstBand(0, b, b);
      filled := FillRemaining(0, b);
      if filled {
        forall i, j | InGrid(board, i, j) ensures 1 <= board[i, j] <= n {
          if Before(i, j, 0, b) {
            FirstBand(i, j, b);
          }
        }
      }
      solutionBoard := new int[n, n]((i, j) reads board => if 0 <= i < n && 0 <= j < n then board[i, j] else 0);
    }

    /**
     * `remove_cells`: empties `removedCells` distinct filled cells, one at a time (none when
     * the count is not positive). The random draw is a choice among the cells still filled;
     * draws that hit an empty cell change nothing in the source and are not modelled.
     */
    method RemoveCells() returns (result: array2<int>)
      requires Valid() && removedCells <= |FilledCells(board)|
      modifies board
      ensures result == board
      ensures FilledCells(board) <= old(FilledCells(board))
      ensures |old(FilledCells(board))| - |FilledCells(board)| == if removedCells > 0 then removedCells else 0
      ensures forall i, j :: InGrid(board, i, j) ==> board[i, j] == old(board[i, j]) || board[i, j] == 0
      ensures solutionBoard != null ==>
        forall i, j :: InGrid(solutionBoard, i, j) ==> solutionBoard[i, j] == old(solutionBoard[i, j])
    {
      var n := rowLength;
      var removed := 0;
      while removed < removedCells
        invariant 0 <= removed <= (if removedCells > 0 then removedCells else 0)
        invariant FilledCells(board) <= old(FilledCells(board))
        invariant |old(FilledCells(board))| - |FilledCells(board)| == removed
        invariant forall i, j :: InGrid(board, i, j) ==> board[i, j] == old(board[i, j]) || board[i, j] == 0
        decreases removedCells - removed
      {
        ghost var before := FilledCells(board);
        ghost var p :| p in before;
        assert board[p.0, p.1] != 0;
        var row, col :| 0 <= row < n && 0 <= col < n && board[row, col] != 0;
        board[row, col] := 0;
        removed := removed + 1;
        assert FilledCells(board) == before - {(row, col)};
      }
      return board;
    }

    /** `get_board`: the current board. */
    function GetBoard(): (b: array2<int>)
      reads this
      ensures b == board
    {
      board
    }
  }

  /**
   * `generate_sudoku`: builds a generator for a size × size board, fills it and removes
   * `removed` cells. The result is the puzzle, a board in which every cell is either empty
   * or agrees with a solved board, with exactly `removed` cells emptied. When backtracking
   * reports failure the model returns None.
   */
  method GenerateSudoku(size: nat, removed: int, perms: seq<seq<int>>)
    returns (puzzle: Option<array2<int>>, ghost solution: array2?<int>)
    requires ISqrt(size) >= 2 && ISqrt(size) * ISqrt(size) == size
    requires SeedPerms(perms, ISqrt(size)) && removed <= size * size
    ensures puzzle.Some? ==>
      var g := puzzle.value;
      fresh(g) && solution != null && fresh(solution) && g != solution &&
      Solved(solution, ISqrt(size)) && solution.Length0 == g.Length0 == size && solution.Length1 == g.Length1 == size &&
      (forall i, j :: InGrid(g, i, j) ==> g[i, j] == 0 || g[i, j] == solution[i, j]) &&
      |FilledCells(g)| == size * size - (if removed > 0 then removed else 0)
  {
    var sudoku := new SudokuGenerator(size, removed);
    var filled := sudoku.FillValues(perms);
    solution := sudoku.solutionBoard;
    if !filled {
      return None, solution;
    }
    SolvedIsFull(sudoku.board, sudoku.boxLength);
    var g := sudoku.RemoveCells();
    return Some(sudoku.GetBoard()), solution;
  }
}
