// The single-threaded reference (single.rs): row after row, entry after entry,
// the naive sum written in place into the result matrix.

module Single {
  import opened MatrixSpec
  import opened Output
  import opened Naive

  /**
   * single.rs: the first n entries of each row below n become the product row;
   * entries from column n on, rows from n on and the number of rows are unchanged.
   */
  method Multiply(a: Matrix, b: Matrix, c: ResultMatrix, n: nat)
    requires ShapeOk(a, n, n) && ShapeOk(b, n, n) && ShapeOk(c.rows, n, n)
    modifies c
    ensures |c.rows| == old(|c.rows|)
    ensures forall i :: 0 <= i < n ==> c.rows[i] == ProductRow(a, b, i, n) + old(c.rows[i])[n..]
    ensures forall i :: n <= i < |c.rows| ==> c.rows[i] == old(c.rows[i])
  {
    ghost var before := c.rows;
    for i := 0 to n
      invariant |c.rows| == |before|
      invariant forall r :: 0 <= r < i ==> c.rows[r] == ProductRow(a, b, r, n) + before[r][n..]
      invariant forall r :: i <= r < |before| ==> c.rows[r] == before[r]
    {
      FillRow(c, a, b, i, n);
    }
  }
}
