// The loop-unrolled kernel: the k-loop runs four terms per step up to
// `grenze = n - n % 4`, then adds the remaining terms one at a time.

module Unroll {
  import opened MatrixSpec
  import opened Naive

  /** Terms taken per unrolled step (`faktor`). */
  const Factor: nat := 4

  /** `grenze`: the end of the unrolled part, a multiple of four at most three below n. */
  function Grenze(n: nat): (g: nat)
    ensures g % Factor == 0 && g <= n && n - g < Factor
  {
    n - n % Factor
  }

  /**
   * Entry (i, j) with the unrolled loop: each step adds
   * a[i][k]*b[k][j] + ... + a[i][k+3]*b[k+3][j] left to right, so every k below
   * `grenze` contributes one term in increasing order; the tail adds [grenze, n).
   */
  method UnrolledDot(a: Matrix, b: Matrix, i: nat, j: nat, n: nat) returns (summe: int)
    requires RowOk(a, b, i, n) && j < n
    ensures summe == Dot(a, b, i, j, n)
  {
    var grenze := Grenze(n);
    summe := 0;
    var k := 0;
    while k < grenze
      invariant 0 <= k <= grenze && k % Factor == 0
      invariant summe == DotUpTo(a, b, i, j, k)
    {
      FourTerms(a, b, i, j, k);
      summe := summe
        + a[i][k] * b[k][j]
        + a[i][k + 1] * b[k + 1][j]
        + a[i][k + 2] * b[k + 2][j]
        + a[i][k + 3] * b[k + 3][j];
      k := k + Factor;
    }
    k := grenze;
    while k < n
      invariant grenze <= k <= n
      invariant summe == DotUpTo(a, b, i, j, k)
    {
      summe := summe + a[i][k] * b[k][j];
      k := k + 1;
    }
  }

  /** A fresh zero row whose entry j is set to the unrolled sum for column j. */
  method UnrolledRow(a: Matrix, b: Matrix, i: nat, n: nat) returns (zeile: seq<int>)
    requires RowOk(a, b, i, n)
    ensures zeile == ProductRow(a, b, i, n)
  {
    var buffer := new int[n](_ => 0);
    for j := 0 to n
      invariant forall m :: 0 <= m < j ==> buffer[m] == Dot(a, b, i, m, n)
    {
      var summe := UnrolledDot(a, b, i, j, n);
      buffer[j] := summe;
    }
    zeile := buffer[..];
  }
}
