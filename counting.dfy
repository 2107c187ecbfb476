/** Counting facts: distinct sequences, the digits 1..n and the cells of an n × n grid. */
module Counting {

  ghost predicate Distinct(s: seq<int>) {
    forall k, l :: 0 <= k < l < |s| ==> s[k] != s[l]
  }

  /** The digits a cell may hold, 1..n. */
  ghost function Digits(n: int): (d: set<int>)
    decreases n
  {
    if n <= 0 then {} else Digits(n - 1) + {n}
  }

  lemma {:induction false} DigitsCount(n: nat)
    ensures |Digits(n)| == n
    ensures forall v :: v in Digits(n) <==> 1 <= v <= n
  {
    if n > 0 {
      DigitsCount(n - 1);
    }
  }

  /** Pigeonhole: `|S|` distinct members of `S` exhaust `S`. */
  lemma {:induction false} DistinctCovers(s: seq<int>, S: set<int>)
    requires Distinct(s) && |s| == |S|
    requires forall k :: 0 <= k < |s| ==> s[k] in S
    ensures forall v :: v in S ==> v in s
  {
    if |s| > 0 {
      var rest := s[1..];
      assert forall k :: 0 <= k < |rest| ==> rest[k] == s[k + 1] && rest[k] != s[0];
      assert s[0] in S;
      assert |S - {s[0]}| == |S| - 1;
      DistinctCovers(rest, S - {s[0]});
      forall v | v in S ensures v in s {
        if v != s[0] {
          assert v in rest;
        }
      }
    }
  }

  /** A sequence of n distinct digits holds every digit 1..n. */
  lemma DistinctDigitsCoverDigits(s: seq<int>, n: nat)
    requires |s| == n && Distinct(s)
    requires forall k :: 0 <= k < n ==> 1 <= s[k] <= n
    ensures forall v :: 1 <= v <= n ==> v in s
  {
    DigitsCount(n);
    DistinctCovers(s, Digits(n));
  }

  /** The positions of the first `rows` rows of an n-column grid. */
  ghost function Positions(rows: int, n: int): set<(int, int)> {
    set i, j | 0 <= i < rows && 0 <= j < n :: (i, j)
  }

  ghost function RowPositions(i: int, cols: int): set<(int, int)> {
    set j | 0 <= j < cols :: (i, j)
  }

  lemma {:induction false} RowPositionsCount(i: int, cols: nat)
    ensures |RowPositions(i, cols)| == cols
  {
    if cols > 0 {
      RowPositionsCount(i, cols - 1);
      assert RowPositions(i, cols) == RowPositions(i, cols - 1) + {(i, cols - 1)};
    } else {
      assert RowPositions(i, cols) == {};
    }
  }

  /** The first `rows` rows are the first `rows - 1` rows plus, apart from them, the last one. */
  lemma PositionsSplit(rows: int, n: int)
    requires rows > 0
    ensures Positions(rows, n) == Positions(rows - 1, n) + RowPositions(rows - 1, n)
    ensures Positions(rows - 1, n) !! RowPositions(rows - 1, n)
  {
    var earlier, last := Positions(rows - 1, n), RowPositions(rows - 1, n);
    forall p | p in Positions(rows, n) ensures p in earlier + last {
      if p.0 < rows - 1 {
        assert p in earlier;
      } else {
        assert p in last;
      }
    }
    forall p | p in last ensures p !in earlier { }
  }

  /** An n × n grid has n * n cells. */
  lemma {:induction false} PositionsCount(rows: nat, n: nat)
    ensures |Positions(rows, n)| == rows * n
  {
    if rows > 0 {
      PositionsCount(rows - 1, n);
      RowPositionsCount(rows - 1, n);
      PositionsSplit(rows, n);
      assert rows * n == (rows - 1) * n + n;
    } else {
      assert Positions(rows, n) == {};
    }
  }
}
