// The four-lane vector type `f64x4` as a sequence of exactly four entries,
// with `splat`, `from_array`, `to_array` and lane-wise `+` and `*`.

module Simd4 {

  type F64x4 = s: seq<int> | |s| == 4 witness [0, 0, 0, 0]

  /** `f64x4::splat(x)`: x in every lane. */
  function Splat(x: int): F64x4 {
    [x, x, x, x]
  }

  /** `f64x4::from_array([x0, x1, x2, x3])`. */
  function FromArray(x0: int, x1: int, x2: int, x3: int): F64x4 {
    [x0, x1, x2, x3]
  }

  /** Lane-wise `+`. */
  function Add(u: F64x4, v: F64x4): F64x4 {
    [u[0] + v[0], u[1] + v[1], u[2] + v[2], u[3] + v[3]]
  }

  /** Lane-wise `*`. */
  function Mul(u: F64x4, v: F64x4): F64x4 {
    [u[0] * v[0], u[1] * v[1], u[2] * v[2], u[3] * v[3]]
  }

  /** `acc + splat(x) * from_array(...)` is four independent scalar updates, one per lane. */
  function MulAddLanes(acc: F64x4, x: int, v: F64x4): (r: F64x4)
    ensures forall l :: 0 <= l < 4 ==> r[l] == acc[l] + x * v[l]
  {
    Add(acc, Mul(Splat(x), v))
  }
}
