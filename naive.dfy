// The naive kernel: `summe` accumulates a[i][k] * b[k][j] for k = 0, 1, ..., n-1,
// starting from 0. It appears as an entry loop, as a loop filling a fresh row
// buffer, and as a loop writing a row of the result matrix in place.

module Naive {
  import opened MatrixSpec
  import opened Output

  /** What computing row i of an n x n product reads: a[i][..n] (when n > 0) and b[..n][..n]. */
  predicate RowOk(a: Matrix, b: Matrix, i: nat, n: nat) {
    ShapeOk(b, n, n) && (n > 0 ==> i < |a| && n <= |a[i]|)
  }

  /** The innermost k-loop: one term per k, added in increasing k to an accumulator that starts at 0. */
  method DotLoop(a: Matrix, b: Matrix, i: nat, j: nat, n: nat) returns (summe: int)
    requires RowOk(a, b, i, n) && j < n
    ensures summe == Dot(a, b, i, j, n)
  {
    summe := 0;
    for k := 0 to n
      invariant summe == DotUpTo(a, b, i, j, k)
    {
      summe := summe + a[i][k] * b[k][j];
    }
  }

  /** A fresh zero row `zeile` of length n whose entry j is set to the j-th entry loop's sum. */
  method NaiveRow(a: Matrix, b: Matrix, i: nat, n: nat) returns (zeile: seq<int>)
    requires RowOk(a, b, i, n)
    ensures zeile == ProductRow(a, b, i, n)
  {
    var buffer := new int[n](_ => 0);
    for j := 0 to n
      invariant forall m :: 0 <= m < j ==> buffer[m] == Dot(a, b, i, m, n)
    {
      var summe := DotLoop(a, b, i, j, n);
      buffer[j] := summe;
    }
    zeile := buffer[..];
  }

  /**
   * Row i of `c` written in place, entry by entry (`c[i][j] = summe`): its first n
   * entries become the product row, its entries from n on and every other row stay.
   */
  method FillRow(c: ResultMatrix, a: Matrix, b: Matrix, i: nat, n: nat)
    requires RowOk(a, b, i, n)
    requires i < |c.rows| && n <= |c.rows[i]|
    modifies c
    ensures c.rows == old(c.rows)[i := ProductRow(a, b, i, n) + old(c.rows[i])[n..]]
  {
    ghost var before := c.rows;
    for j := 0 to n
      invariant |c.rows| == |before|
      invariant forall r :: 0 <= r < |before| && r != i ==> c.rows[r] == before[r]
      invariant |c.rows[i]| == |before[i]|
      invariant forall m :: 0 <= m < j ==> c.rows[i][m] == Dot(a, b, i, m, n)
      invariant forall m :: j <= m < |before[i]| ==> c.rows[i][m] == before[i][m]
    {
      var summe := DotLoop(a, b, i, j, n);
      c.rows := c.rows[i := c.rows[i][j := summe]];
    }
    assert c.rows[i] == ProductRow(a, b, i, n) + before[i][n..];
  }
}
