// The blocked and vectorised kernel: j-blocks of 8 on the outside, k-blocks of
// 8 inside them; for each k the j-block is swept in steps of four, taking a
// four-lane step when `j + 4 < j_max` and otherwise adding the rest of the
// block column by column.

module SimdTiling {
  import opened MatrixSpec
  import opened Naive
  import opened Simd4

  /** Block size (`block`) of both the j- and the k-blocks. */
  const Block: nat := 8

  /**
   * One k of one j-block: the sweep over [jBlock, jMax) in steps of four. Every
   * column of the block gets exactly one term a[i][k] * b[k][m], by a lane step
   * or by the scalar fallback; the fallback reaches jMax, after which j + 4 is
   * at least jMax and the sweep ends. Columns outside the block do not change.
   */
  method BlockStep(buffer: array<int>, a: Matrix, b: Matrix, i: nat, k: nat, n: nat, jBlock: nat, jMax: nat)
    requires RowOk(a, b, i, n) && k < n
    requires buffer.Length == n && jBlock <= jMax <= n
    modifies buffer
    ensures forall m :: 0 <= m < n ==>
              buffer[m] == if jBlock <= m < jMax then old(buffer[m]) + a[i][k] * b[k][m] else old(buffer[m])
  {
    var j := jBlock;
    while j < jMax
      invariant jBlock <= j
      invariant forall m :: 0 <= m < n ==>
                  buffer[m] == if jBlock <= m < jMax && m < j then old(buffer[m]) + a[i][k] * b[k][m] else old(buffer[m])
    {
      if j + 4 < jMax {
        var summe := FromArray(buffer[j], buffer[j + 1], buffer[j + 2], buffer[j + 3]);
        var teil2 := FromArray(b[k][j], b[k][j + 1], b[k][j + 2], b[k][j + 3]);
        // summe + splat(a[i][k]) * teil2
        summe := MulAddLanes(summe, a[i][k], teil2);
        var zwischen := summe;
        for l := 0 to 4
          invariant forall m :: 0 <= m < n ==>
                      buffer[m] == if jBlock <= m < jMax && m < j + l then old(buffer[m]) + a[i][k] * b[k][m] else old(buffer[m])
        {
          buffer[j + l] := zwischen[l];
        }
      } else {
        for m := j to jMax
          invariant forall m' :: 0 <= m' < n ==>
                      buffer[m'] == if jBlock <= m' < jMax && m' < m then old(buffer[m']) + a[i][k] * b[k][m'] else old(buffer[m'])
        {
          buffer[m] := buffer[m] + a[i][k] * b[k][m];
        }
      }
      j := j + 4;
    }
  }

  /**
   * A fresh zero row updated block by block: a j-block before jBlock is
   * complete, the current one holds the first kBlock terms, later ones are 0.
   */
  method SimdTiledRow(a: Matrix, b: Matrix, i: nat, n: nat) returns (zeile: seq<int>)
    requires RowOk(a, b, i, n)
    ensures zeile == ProductRow(a, b, i, n)
  {
    var buffer := new int[n](_ => 0);
    var jBlock := 0;
    while jBlock < n
      invariant 0 <= jBlock
      invariant forall m :: 0 <= m < n ==> buffer[m] == if m < jBlock then Dot(a, b, i, m, n) else 0
    {
      var jMax := Min(jBlock + Block, n);
      var kBlock := 0;
      while kBlock < n
        invariant 0 <= kBlock
        invariant forall m :: 0 <= m < n ==>
                    buffer[m] == if m < jBlock then Dot(a, b, i, m, n)
                                 else if m < jMax then DotUpTo(a, b, i, m, Min(kBlock, n)) else 0
      {
        var kMax := Min(kBlock + Block, n);
        for k := kBlock to kMax
          invariant forall m :: 0 <= m < n ==>
                      buffer[m] == if m < jBlock then Dot(a, b, i, m, n)
                                   else if m < jMax then DotUpTo(a, b, i, m, k) else 0
        {
          BlockStep(buffer, a, b, i, k, n, jBlock, jMax);
        }
        kBlock := kBlock + Block;
      }
      jBlock := jBlock + Block;
    }
    zeile := buffer[..];
  }
}
