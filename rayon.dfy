// The work-stealing strategy (rayon.rs): every row of `c` is handed, together
// with its index, to some worker, which writes the naive sums into it in place.
// Which worker takes which row, and when, is up to the library; the model
// visits the rows in an arbitrary order `order` that lists every row index
// exactly once.

module Rayon {
  import opened MatrixSpec
  import opened Output
  import opened Naive

  /** `order` lists each of the indices 0 .. count-1 exactly once. */
  predicate VisitsEachOnce(order: seq<nat>, count: nat) {
    && (forall s :: 0 <= s < |order| ==> order[s] < count)
    && (forall s, s' :: 0 <= s < s' < |order| ==> order[s] != order[s'])
    && (forall i :: 0 <= i < count ==> i in order)
  }

  /**
   * rayon.rs: every row of `c` (not just the first n) has its first n entries
   * replaced by the product row, whatever the order in which the rows are taken;
   * entries from column n on and the number of rows are unchanged.
   */
  method Multiply(a: Matrix, b: Matrix, c: ResultMatrix, n: nat, order: seq<nat>)
    requires forall i :: 0 <= i < |c.rows| ==> RowOk(a, b, i, n) && n <= |c.rows[i]|
    requires VisitsEachOnce(order, |c.rows|)
    modifies c
    ensures |c.rows| == old(|c.rows|)
    ensures forall i :: 0 <= i < |c.rows| ==> c.rows[i] == ProductRow(a, b, i, n) + old(c.rows[i])[n..]
  {
    ghost var before := c.rows;
    for s := 0 to |order|
      invariant |c.rows| == |before|
      invariant forall i :: 0 <= i < |before| ==>
                  c.rows[i] == if i in order[..s] then ProductRow(a, b, i, n) + before[i][n..] else before[i]
    {
      var i := order[s];
      assert i !in order[..s];
      FillRow(c, a, b, i, n);
      assert order[..s + 1] == order[..s] + [i];
    }
    assert order[..|order|] == order;
  }
}
