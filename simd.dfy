// The vectorised kernel: columns are taken four at a time up to
// `rest = (n / 4) * 4`, each lane accumulating over the whole k-loop before it
// is stored; the trailing columns [rest, n) are computed one by one.

module Simd {
  import opened MatrixSpec
  import opened Naive
  import opened Simd4

  /** `rest`: the end of the four-column part, a multiple of four at most three below n. */
  function Rest(n: nat): (r: nat)
    ensures r % 4 == 0 && r <= n && n - r < 4
  {
    (n / 4) * 4
  }

  /**
   * The lane accumulator for the column group [j, j + 4): after the k-loop,
   * lane l holds entry (i, j + l) of the product.
   */
  method LaneDot(a: Matrix, b: Matrix, i: nat, j: nat, n: nat) returns (summe: F64x4)
    requires RowOk(a, b, i, n) && j + 4 <= n
    ensures forall l :: 0 <= l < 4 ==> summe[l] == Dot(a, b, i, j + l, n)
  {
    summe := Splat(0);
    for k := 0 to n
      invariant forall l :: 0 <= l < 4 ==> summe[l] == DotUpTo(a, b, i, j + l, k)
    {
      var teil2 := FromArray(b[k][j], b[k][j + 1], b[k][j + 2], b[k][j + 3]);
      // summe + splat(a[i][k]) * teil2
      summe := MulAddLanes(summe, a[i][k], teil2);
    }
  }

  /**
   * A fresh zero row filled group by group through the lanes, then column by
   * column for the tail. Each column is written once: a column not yet reached
   * still holds its initial 0.
   */
  method SimdRow(a: Matrix, b: Matrix, i: nat, n: nat) returns (zeile: seq<int>)
    requires RowOk(a, b, i, n)
    ensures zeile == ProductRow(a, b, i, n)
  {
    var rest := Rest(n);
    var buffer := new int[n](_ => 0);
    var j := 0;
    while j < rest
      invariant 0 <= j <= rest && j % 4 == 0
      invariant forall m :: 0 <= m < j ==> buffer[m] == Dot(a, b, i, m, n)
      invariant forall m :: j <= m < n ==> buffer[m] == 0
    {
      var summe := LaneDot(a, b, i, j, n);
      var zwischen := summe;
      for l := 0 to 4
        invariant forall m :: 0 <= m < j + l ==> buffer[m] == Dot(a, b, i, m, n)
        invariant forall m :: j + l <= m < n ==> buffer[m] == 0
      {
        buffer[j + l] := zwischen[l];
      }
      j := j + 4;
    }
    for x := rest to n
      invariant forall m :: 0 <= m < x ==> buffer[m] == Dot(a, b, i, m, n)
      invariant forall m :: x <= m < n ==> buffer[m] == 0
    {
      var summe2 := DotLoop(a, b, i, x, n);
      buffer[x] := summe2;
    }
    zeile := buffer[..];
  }
}
