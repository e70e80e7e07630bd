// The blocked kernel: k-blocks of 8 on the outside, j-blocks of 8 inside them,
// and within a block pair `zeile[j] = zeile[j] + a[i][k] * b[k][j]` for every
// k of the k-block and every j of the j-block.

module Tiling {
  import opened MatrixSpec
  import opened Naive

  /** Block size (`block`) of both the k- and the j-blocks. */
  const Block: nat := 8

  /**
   * A fresh zero row updated block by block. After the k-blocks below kBlock,
   * column m holds the first kBlock terms of its sum; within a k-block, the
   * j-blocks before jBlock have taken the whole k-block, the others none of it.
   * So each pair (k, m) with k, m < n adds its one term, and every k reaches a
   * column in increasing order.
   */
  method TiledRow(a: Matrix, b: Matrix, i: nat, n: nat) returns (zeile: seq<int>)
    requires RowOk(a, b, i, n)
    ensures zeile == ProductRow(a, b, i, n)
  {
    var buffer := new int[n](_ => 0);
    var kBlock := 0;
    while kBlock < n
      invariant 0 <= kBlock
      invariant forall m :: 0 <= m < n ==> buffer[m] == DotUpTo(a, b, i, m, Min(kBlock, n))
    {
      var kMax := Min(kBlock + Block, n);
      var jBlock := 0;
      while jBlock < n
        invariant 0 <= jBlock
        invariant forall m :: 0 <= m < n ==>
                    buffer[m] == DotUpTo(a, b, i, m, if m < jBlock then kMax else kBlock)
      {
        var jMax := Min(jBlock + Block, n);
        var k := kBlock;
        while k < kMax
          invariant kBlock <= k <= kMax
          invariant forall m :: 0 <= m < n ==>
                      buffer[m] == DotUpTo(a, b, i, m, if m < jBlock then kMax else if m < jMax then k else kBlock)
        {
          var optimiert := a[i][k];
          var j := jBlock;
          while j < jMax
            invariant jBlock <= j <= jMax
            invariant forall m :: 0 <= m < n ==>
                        buffer[m] == DotUpTo(a, b, i, m,
                          if m < jBlock then kMax else if m < j then k + 1 else if m < jMax then k else kBlock)
          {
            buffer[j] := buffer[j] + optimiert * b[k][j];
            j := j + 1;
          }
          k := k + 1;
        }
        jBlock := jBlock + Block;
      }
      kBlock := kBlock + Block;
    }
    zeile := buffer[..];
  }
}
