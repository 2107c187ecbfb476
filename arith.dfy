/** Facts about Euclidean division by a positive box length. */
module Arith {

  lemma MulLeq(a: int, c: int, b: int)
    requires a <= c && 0 <= b
    ensures a * b <= c * b
  {
    assert c * b - a * b == (c - a) * b;
  }

  /** `x` lies in the `q`-th block of `b` consecutive integers exactly when `x / b == q`. */
  lemma DivBounds(x: int, b: int, q: int)
    requires b > 0 && q * b <= x < q * b + b
    ensures x / b == q && x % b == x - q * b
  {
    var d, m := x / b, x % b;
    assert x == d * b + m && 0 <= m < b;
    if d < q {
      assert (d + 1) * b == d * b + b;
      MulLeq(d + 1, q, b);
      assert false;
    } else if d > q {
      assert (q + 1) * b == q * b + b;
      MulLeq(q + 1, d, b);
      assert false;
    }
  }

  /** The converse: `x / b` names the block that contains `x`. */
  lemma DivRange(x: int, b: int)
    requires b > 0
    ensures (x / b) * b <= x < (x / b) * b + b
    ensures x % b == x - (x / b) * b
  {
    assert x == (x / b) * b + x % b;
  }

  /** Below `b * b`, the block index stays below `b`. */
  lemma DivBelowSquare(x: int, b: int)
    requires b > 0 && 0 <= x < b * b
    ensures 0 <= x / b < b
  {
    DivRange(x, b);
    if x / b < 0 {
      assert (x / b + 1) * b == (x / b) * b + b;
      MulLeq(x / b + 1, 0, b);
      assert false;
    } else if x / b >= b {
      MulLeq(b, x / b, b);
      assert false;
    }
  }

  /** The block that starts at a multiple `x` of `b` holds `x .. x + b - 1`. */
  lemma SameBlock(x: int, y: int, b: int)
    requires b > 0 && x % b == 0 && x <= y < x + b
    ensures y / b == x / b
  {
    DivRange(x, b);
    DivBounds(y, b, x / b);
  }

  /** A block that starts at a multiple of `b` below `b * b` ends by `b * b`. */
  lemma AlignedFits(x: int, b: int)
    requires b > 0 && 0 <= x < b * b && x % b == 0
    ensures x + b <= b * b
  {
    DivBelowSquare(x, b);
    DivRange(x, b);
    MulLeq(x / b + 1, b, b);
    assert (x / b + 1) * b == (x / b) * b + b;
  }
}
