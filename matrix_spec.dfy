// Reference semantics shared by every strategy: the entries of a product,
// taken with exact integer arithmetic in place of f64.

module MatrixSpec {

  /** A dense matrix stored row by row (Vec<Vec<f64>>). */
  type Matrix = seq<seq<int>>

  function Min(x: int, y: int): int {
    if x <= y then x else y
  }

  /** `m` has at least `rows` rows, each of at least `cols` entries. */
  predicate ShapeOk(m: Matrix, rows: nat, cols: nat) {
    rows <= |m| && forall r :: 0 <= r < rows ==> cols <= |m[r]|
  }

  /** Entry (r, col) of `m`; a total reading that is 0 outside the stored entries. */
  function At(m: Matrix, r: int, col: int): int {
    if 0 <= r < |m| && 0 <= col < |m[r]| then m[r][col] else 0
  }

  /** The sum a[i][0]*b[0][j] + ... + a[i][k-1]*b[k-1][j], accumulated left to right from 0. */
  function DotUpTo(a: Matrix, b: Matrix, i: int, j: int, k: nat): int {
    if k == 0 then 0 else DotUpTo(a, b, i, j, k - 1) + At(a, i, k - 1) * At(b, k - 1, j)
  }

  /** Entry (i, j) of the n x n product a * b: the naive triple loop's value. */
  function Dot(a: Matrix, b: Matrix, i: int, j: int, n: nat): int {
    DotUpTo(a, b, i, j, n)
  }

  /** Row i of the n x n product. */
  function ProductRow(a: Matrix, b: Matrix, i: int, n: nat): (r: seq<int>)
    ensures |r| == n
  {
    seq(n, j requires 0 <= j < n => Dot(a, b, i, j, n))
  }

  /** The n x n identity matrix. */
  function Identity(n: nat): Matrix {
    seq(n, r requires 0 <= r < n => seq(n, col requires 0 <= col < n => if r == col then 1 else 0))
  }

  /** The n x n matrix whose entries are all 1. */
  function Ones(n: nat): Matrix {
    seq(n, r requires 0 <= r < n => seq(n, col requires 0 <= col < n => 1))
  }

  /** One step of four terms (the unrolled loop body) advances the accumulation by four. */
  lemma FourTerms(a: Matrix, b: Matrix, i: int, j: int, k: nat)
    ensures DotUpTo(a, b, i, j, k + 4)
         == DotUpTo(a, b, i, j, k) + At(a, i, k) * At(b, k, j) + At(a, i, k + 1) * At(b, k + 1, j)
            + At(a, i, k + 2) * At(b, k + 2, j) + At(a, i, k + 3) * At(b, k + 3, j)
  {
    assert DotUpTo(a, b, i, j, k + 1) == DotUpTo(a, b, i, j, k) + At(a, i, k) * At(b, k, j);
    assert DotUpTo(a, b, i, j, k + 2) == DotUpTo(a, b, i, j, k + 1) + At(a, i, k + 1) * At(b, k + 1, j);
    assert DotUpTo(a, b, i, j, k + 3) == DotUpTo(a, b, i, j, k + 2) + At(a, i, k + 2) * At(b, k + 2, j);
  }

  /** Multiplying by the identity on the right gives back the left factor. */
  lemma {:induction false} DotIdentityRight(a: Matrix, i: int, j: nat, n: nat)
    requires j < n
    ensures Dot(a, Identity(n), i, j, n) == At(a, i, j)
  {
    IdentityUpTo(a, i, j, n, n);
  }

  lemma {:induction false} IdentityUpTo(a: Matrix, i: int, j: nat, n: nat, k: nat)
    requires j < n && k <= n
    ensures DotUpTo(a, Identity(n), i, j, k) == if j < k then At(a, i, j) else 0
  {
    if k > 0 {
      IdentityUpTo(a, i, j, n, k - 1);
      assert At(Identity(n), k - 1, j) == if k - 1 == j then 1 else 0;
    }
  }

  /** The product of two all-ones n x n matrices has every entry equal to n. */
  lemma {:induction false} DotOnes(i: nat, j: nat, n: nat)
    requires i < n && j < n
    ensures Dot(Ones(n), Ones(n), i, j, n) == n
  {
    OnesUpTo(i, j, n, n);
  }

  lemma {:induction false} OnesUpTo(i: nat, j: nat, n: nat, k: nat)
    requires i < n && j < n && k <= n
    ensures DotUpTo(Ones(n), Ones(n), i, j, k) == k
  {
    if k > 0 {
      OnesUpTo(i, j, n, k - 1);
      assert At(Ones(n), i, k - 1) == 1 && At(Ones(n), k - 1, j) == 1;
    }
  }
}
