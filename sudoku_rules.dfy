/**
 * The rules of Sudoku over a grid stored as a two-dimensional integer array:
 * 0 marks an empty cell, and a grid of side n = b * b is split into b × b boxes.
 */
module SudokuRules {
  import opened Arith
  import opened Counting

  ghost predicate IsSquareGrid(g: array2<int>, b: int) {
    b >= 1 && g.Length0 == b * b && g.Length1 == b * b
  }

  predicate InGrid(g: array2<int>, i: int, j: int) {
    0 <= i < g.Length0 && 0 <= j < g.Length1
  }

  /** Cells (i, j) and (i', j') lie in the same b × b box. */
  predicate SameBox(i: int, j: int, i': int, j': int, b: int)
    requires b > 0
  {
    i / b == i' / b && j / b == j' / b
  }

  /** Cells that must hold different digits: same row, same column or same box. */
  predicate SharesUnit(i: int, j: int, i': int, j': int, b: int)
    requires b > 0
  {
    i == i' || j == j' || SameBox(i, j, i', j', b)
  }

  /** The block (band of rows, or stack of columns) that index `i` falls in. */
  function Block(i: int, b: int): (q: int)
    requires b > 0 && 0 <= i < b * b
    ensures 0 <= q < b && q == i / b
  {
    DivBelowSquare(i, b);
    i / b
  }

  /** Row-major position of cell (r, c) within a b × b box. */
  function Flat(r: int, c: int, b: int): (m: int)
    requires 0 <= r < b && 0 <= c < b
    ensures 0 <= m < b * b && m / b == r && m % b == c
  {
    MulLeq(r + 1, b, b);
    assert (r + 1) * b == r * b + b;
    DivBounds(r * b + c, b, r);
    r * b + c
  }

  /** Top-left row (and column) of the k-th box on the main diagonal. */
  function DiagonalStart(k: int, b: int): (s: int)
    requires 0 <= k < b
    ensures 0 <= s && s + b <= b * b && s % b == 0 && s / b == k
  {
    MulLeq(k + 1, b, b);
    assert (k + 1) * b == k * b + b;
    DivBounds(k * b, b, k);
    k * b
  }

  /** Cell (i, j) lies in one of the boxes on the main diagonal. */
  predicate Diagonal(i: int, j: int, b: int)
    requires b > 0
  {
    i / b == j / b
  }

  /** (i, j) comes strictly before (row, col) in row-major order. */
  predicate Before(i: int, j: int, row: int, col: int) {
    i < row || (i == row && j < col)
  }

  /** `num` occurs in row `row`. */
  ghost predicate OccursInRow(g: array2<int>, row: int, num: int)
    reads g
  {
    exists j :: 0 <= j < g.Length1 && 0 <= row < g.Length0 && g[row, j] == num
  }

  /** `num` occurs in column `col`. */
  ghost predicate OccursInCol(g: array2<int>, col: int, num: int)
    reads g
  {
    exists i :: 0 <= i < g.Length0 && 0 <= col < g.Length1 && g[i, col] == num
  }

  /** `num` occurs in the b × b block whose top-left cell is (rowStart, colStart). */
  ghost predicate OccursInBox(g: array2<int>, rowStart: int, colStart: int, b: int, num: int)
    reads g
  {
    exists i, j :: rowStart <= i < rowStart + b && colStart <= j < colStart + b &&
      InGrid(g, i, j) && g[i, j] == num
  }

  /** `num` already occurs in a cell that shares a row, column or box with (row, col). */
  ghost predicate Conflicts(g: array2<int>, b: int, row: int, col: int, num: int)
    requires b > 0
    reads g
  {
    exists i, j :: InGrid(g, i, j) && SharesUnit(i, j, row, col, b) && g[i, j] == num
  }

  /** No digit is repeated in any row, column or box (empty cells aside). */
  ghost predicate NoConflicts(g: array2<int>, b: int)
    requires b > 0
    reads g
  {
    forall i, j, i', j' ::
      (InGrid(g, i, j) && InGrid(g, i', j') && (i != i' || j != j') &&
       SharesUnit(i, j, i', j', b) && g[i, j] != 0) ==> g[i, j] != g[i', j']
  }

  /** Every cell holds a digit 1..n and no digit repeats in a row, column or box. */
  ghost predicate Solved(g: array2<int>, b: int)
    reads g
  {
    IsSquareGrid(g, b) &&
    (forall i, j :: InGrid(g, i, j) ==> 1 <= g[i, j] <= g.Length0) &&
    NoConflicts(g, b)
  }

  /** The positions of the non-empty cells. */
  ghost function FilledCells(g: array2<int>): set<(int, int)>
    reads g
  {
    set i, j | 0 <= i < g.Length0 && 0 <= j < g.Length1 && g[i, j] != 0 :: (i, j)
  }

  /** A solved grid has every cell filled. */
  lemma SolvedIsFull(g: array2<int>, b: int)
    requires Solved(g, b)
    ensures FilledCells(g) == Positions(g.Length0, g.Length1)
    ensures |FilledCells(g)| == g.Length0 * g.Length1
  {
    PositionsCount(g.Length0, g.Length1);
  }

  /** In a solved grid, each row holds every digit 1..n exactly once. */
  lemma SolvedRowsComplete(g: array2<int>, b: int, row: int)
    requires Solved(g, b) && 0 <= row < g.Length0
    ensures forall v :: 1 <= v <= g.Length0 ==> OccursInRow(g, row, v)
    ensures forall j, j' :: 0 <= j < j' < g.Length1 ==> g[row, j] != g[row, j']
  {
    var n := g.Length0;
    var s := seq(n, j requires 0 <= j < n reads g => g[row, j]);
    assert Distinct(s) by {
      forall k, l | 0 <= k < l < n ensures s[k] != s[l] {
        assert InGrid(g, row, k) && InGrid(g, row, l);
      }
    }
    DistinctDigitsCoverDigits(s, n);
    forall v | 1 <= v <= n ensures OccursInRow(g, row, v) {
      assert v in s;
      var j :| 0 <= j < n && s[j] == v;
    }
  }

  /** In a solved grid, each column holds every digit 1..n exactly once. */
  lemma SolvedColsComplete(g: array2<int>, b: int, col: int)
    requires Solved(g, b) && 0 <= col < g.Length1
    ensures forall v :: 1 <= v <= g.Length0 ==> OccursInCol(g, col, v)
    ensures forall i, i' :: 0 <= i < i' < g.Length0 ==> g[i, col] != g[i', col]
  {
    var n := g.Length0;
    var s := seq(n, i requires 0 <= i < n reads g => g[i, col]);
    assert Distinct(s) by {
      forall k, l | 0 <= k < l < n ensures s[k] != s[l] {
        assert InGrid(g, k, col) && InGrid(g, l, col);
      }
    }
    DistinctDigitsCoverDigits(s, n);
    forall v | 1 <= v <= n ensures OccursInCol(g, col, v) {
      assert v in s;
      var i :| 0 <= i < n && s[i] == v;
    }
  }

  /** The k-th cell, in row-major order, of the box whose top-left corner is (rs, cs). */
  lemma BoxCell(rs: int, cs: int, b: int, n: int, k: int)
    requires b > 0 && n == b * b && rs % b == 0 && cs % b == 0 && 0 <= k < n
    ensures 0 <= k / b < b && 0 <= k % b < b
    ensures (rs + k / b) / b == rs / b && (cs + k % b) / b == cs / b
  {
    DivBelowSquare(k, b);
    SameBlock(rs, rs + k / b, b);
    SameBlock(cs, cs + k % b, b);
  }

  /** One pair of cells of an aligned box, in a grid without conflicts. */
  lemma BoxPairDistinct(g: array2<int>, b: int, rs: int, cs: int, i: int, j: int, i': int, j': int)
    requires b > 0 && NoConflicts(g, b)
    requires 0 <= rs && rs + b <= g.Length0 && rs % b == 0 && 0 <= cs && cs + b <= g.Length1 && cs % b == 0
    requires rs <= i < rs + b && cs <= j < cs + b && rs <= i' < rs + b && cs <= j' < cs + b
    requires (i != i' || j != j') && g[i, j] != 0
    ensures g[i, j] != g[i', j']
  {
    SameBlock(rs, i, b); SameBlock(rs, i', b);
    SameBlock(cs, j, b); SameBlock(cs, j', b);
    assert InGrid(g, i, j) && InGrid(g, i', j') && SameBox(i, j, i', j', b);
  }

  /** The cells of the box at (rs, cs), read in row-major order. */
  ghost function BoxValues(g: array2<int>, rs: int, cs: int, b: int): (s: seq<int>)
    requires b > 0 && g.Length0 == b * b
    requires 0 <= rs && rs + b <= g.Length0 && 0 <= cs && cs + b <= g.Length1
    reads g
    ensures |s| == g.Length0
    ensures forall k :: 0 <= k < g.Length0 && k / b < b ==> s[k] == g[rs + k / b, cs + k % b]
  {
    seq(g.Length0, k requires 0 <= k < g.Length0 reads g =>
      DivBelowSquare(k, b); g[rs + k / b, cs + k % b])
  }

  /** In a solved grid, each aligned box holds every digit 1..n exactly once. */
  lemma SolvedBoxesComplete(g: array2<int>, b: int, rs: int, cs: int)
    requires Solved(g, b)
    requires 0 <= rs && rs + b <= g.Length0 && rs % b == 0
    requires 0 <= cs && cs + b <= g.Length1 && cs % b == 0
    ensures forall v :: 1 <= v <= g.Length0 ==> OccursInBox(g, rs, cs, b, v)
    ensures forall i, j, i', j' ::
      (rs <= i < rs + b && cs <= j < cs + b && rs <= i' < rs + b && cs <= j' < cs + b &&
       (i != i' || j != j')) ==> g[i, j] != g[i', j']
  {
    var n := g.Length0;
    forall i, j, i', j' |
      rs <= i < rs + b && cs <= j < cs + b && rs <= i' < rs + b && cs <= j' < cs + b && (i != i' || j != j')
      ensures g[i, j] != g[i', j']
    {
      BoxPairDistinct(g, b, rs, cs, i, j, i', j');
    }
    var s := BoxValues(g, rs, cs, b);
    assert Distinct(s) by {
      forall k, l | 0 <= k < l < n ensures s[k] != s[l] {
        BoxCell(rs, cs, b, n, k);
        BoxCell(rs, cs, b, n, l);
        DivRange(k, b);
        DivRange(l, b);
        assert rs + k / b != rs + l / b || cs + k % b != cs + l % b;
      }
    }
    forall k | 0 <= k < n ensures 1 <= s[k] <= n {
      BoxCell(rs, cs, b, n, k);
    }
    DistinctDigitsCoverDigits(s, n);
    forall v | 1 <= v <= n ensures OccursInBox(g, rs, cs, b, v) {
      assert v in s;
      var k :| 0 <= k < n && s[k] == v;
      BoxCell(rs, cs, b, n, k);
      assert InGrid(g, rs + k / b, cs + k % b);
    }
  }

  /** A permutation of the digits 1..n, as `random.shuffle` leaves `list(range(1, n + 1))`. */
  ghost predicate IsShuffle(nums: seq<int>, n: int) {
    |nums| == n && (forall k :: 0 <= k < n ==> 1 <= nums[k] <= n) && Distinct(nums)
  }

  /** One shuffle of the digits 1..b * b per diagonal box. */
  ghost predicate SeedPerms(perms: seq<seq<int>>, b: int) {
    |perms| == b && forall k :: 0 <= k < b ==> IsShuffle(perms[k], b * b)
  }

  /** The digit the seeding puts in diagonal cell (i, j): its box's shuffle read row by row. */
  ghost function SeedCell(perms: seq<seq<int>>, b: int, i: int, j: int): (v: int)
    requires b > 0 && SeedPerms(perms, b) && 0 <= i < b * b && 0 <= j < b * b
    ensures 1 <= v <= b * b
  {
    perms[Block(i, b)][Flat(i % b, j % b, b)]
  }

  /**
   * The grid after the diagonal boxes are seeded: the k-th diagonal box holds `perms[k]`
   * in row-major order and every other cell is empty.
   */
  ghost predicate DiagonalSeed(g: array2<int>, b: int, perms: seq<seq<int>>)
    reads g
  {
    IsSquareGrid(g, b) && SeedPerms(perms, b) &&
    forall i, j :: InGrid(g, i, j) ==>
      g[i, j] == if Diagonal(i, j, b) then SeedCell(perms, b, i, j) else 0
  }

  lemma SeedPairDistinct(g: array2<int>, b: int, perms: seq<seq<int>>, i: int, j: int, i': int, j': int)
    requires DiagonalSeed(g, b, perms)
    requires InGrid(g, i, j) && InGrid(g, i', j') && (i != i' || j != j')
    requires SharesUnit(i, j, i', j', b) && g[i, j] != 0
    ensures g[i, j] != g[i', j']
  {
    if g[i', j'] != 0 {
      var k := Block(i, b);
      assert Diagonal(i, j, b) && Diagonal(i', j', b);
      assert Block(i', b) == k && j / b == k && j' / b == k;
      var m, m' := Flat(i % b, j % b, b), Flat(i' % b, j' % b, b);
      if m == m' {
        DivRange(i, b); DivRange(i', b); DivRange(j, b); DivRange(j', b);
        assert false;
      }
      assert perms[k][m] != perms[k][m'] by {
        assert IsShuffle(perms[k], b * b);
        if m < m' { } else { }
      }
    }
  }

  /** A seeded grid has no conflicts: the diagonal boxes share no row, column or box. */
  lemma SeedHasNoConflicts(g: array2<int>, b: int, perms: seq<seq<int>>)
    requires DiagonalSeed(g, b, perms)
    ensures NoConflicts(g, b)
  {
    forall i, j, i', j' |
      InGrid(g, i, j) && InGrid(g, i', j') && (i != i' || j != j') &&
      SharesUnit(i, j, i', j', b) && g[i, j] != 0
      ensures g[i, j] != g[i', j']
    {
      SeedPairDistinct(g, b, perms, i, j, i', j');
    }
  }

  /** Each seeded diagonal box holds every digit 1..n. */
  lemma SeedBoxesComplete(g: array2<int>, b: int, perms: seq<seq<int>>, k: int)
    requires DiagonalSeed(g, b, perms) && 0 <= k < b
    ensures forall v :: 1 <= v <= b * b ==>
      OccursInBox(g, DiagonalStart(k, b), DiagonalStart(k, b), b, v)
  {
    var s := DiagonalStart(k, b);
    var n := b * b;
    DistinctDigitsCoverDigits(perms[k], n);
    forall v | 1 <= v <= n ensures OccursInBox(g, s, s, b, v) {
      assert v in perms[k];
      var m :| 0 <= m < n && perms[k][m] == v;
      DivBelowSquare(m, b);
      var i, j := s + m / b, s + m % b;
      SameBlock(s, i, b);
      SameBlock(s, j, b);
      DivRange(i, b);
      DivRange(j, b);
      assert i % b == m / b && j % b == m % b;
      DivRange(m, b);
      var m2 := Flat(i % b, j % b, b);
      DivRange(m2, b);
      assert m2 == m;
      assert InGrid(g, i, j) && Diagonal(i, j, b);
    }
  }

  /** The box containing (row, col) starts at (row - row % b, col - col % b) and fits in the grid. */
  lemma BoxOfCell(x: int, b: int, n: int)
    requires b > 0 && n == b * b && 0 <= x < n
    ensures 0 <= x - x % b && x - x % b + b <= n && (x - x % b) % b == 0
    ensures x - x % b <= x < x - x % b + b
  {
    DivRange(x, b);
    DivBounds((x / b) * b, b, x / b);
    AlignedFits(x - x % b, b);
  }

  /** The cells in the same box as (row, col) are those of the block at its start. */
  lemma SameBoxIffInBlock(row: int, col: int, i: int, j: int, b: int, n: int)
    requires b > 0 && n == b * b && 0 <= row < n && 0 <= col < n && 0 <= i && 0 <= j
    ensures SameBox(i, j, row, col, b) <==>
      row - row % b <= i < row - row % b + b && col - col % b <= j < col - col % b + b
  {
    BoxOfCell(row, b, n);
    BoxOfCell(col, b, n);
    SameBlock(row - row % b, row, b);
    SameBlock(col - col % b, col, b);
    if row - row % b <= i < row - row % b + b {
      SameBlock(row - row % b, i, b);
    }
    if col - col % b <= j < col - col % b + b {
      SameBlock(col - col % b, j, b);
    }
    DivRange(i, b);
    DivRange(j, b);
    DivRange(row, b);
    DivRange(col, b);
  }

  /** A conflict is an occurrence in the row, in the column or in the box at the cell's box start. */
  lemma ConflictsByUnit(g: array2<int>, b: int, row: int, col: int, num: int)
    requires IsSquareGrid(g, b) && InGrid(g, row, col)
    ensures 0 <= row - row % b && row - row % b + b <= g.Length0
    ensures 0 <= col - col % b && col - col % b + b <= g.Length1
    ensures Conflicts(g, b, row, col, num) <==>
      OccursInRow(g, row, num) || OccursInCol(g, col, num) ||
      OccursInBox(g, row - row % b, col - col % b, b, num)
  {
    var n := g.Length0;
    BoxOfCell(row, b, n);
    BoxOfCell(col, b, n);
    if Conflicts(g, b, row, col, num) {
      var i, j :| InGrid(g, i, j) && SharesUnit(i, j, row, col, b) && g[i, j] == num;
      SameBoxIffInBlock(row, col, i, j, b, n);
    }
    if OccursInBox(g, row - row % b, col - col % b, b, num) {
      var i, j :| row - row % b <= i < row - row % b + b && col - col % b <= j < col - col % b + b &&
        InGrid(g, i, j) && g[i, j] == num;
      SameBoxIffInBlock(row, col, i, j, b, n);
    }
  }
}
