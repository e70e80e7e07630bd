// Row chunks and index blocks: contiguous ranges [start, min(start + size, n))
// whose starts step by `size` from 0, and the shared claim counter that hands
// out chunk starts.

module Chunks {
  import opened MatrixSpec

  /** Rows taken per claim (`zeilen`). */
  const RowsPerClaim: nat := 4

  /** The number of starts 0, size, 2 * size, ... below n: the ceiling of n / size. */
  function NumBlocks(n: nat, size: nat): nat
    requires size > 0
  {
    (n + size - 1) / size
  }

  /** The end of the block that starts at `start`: `(start + size).min(n)`. */
  function BlockEnd(start: nat, size: nat, n: nat): nat {
    Min(start + size, n)
  }

  /** The t-th start, t * size, is below n exactly when t is below the ceiling of n / size. */
  lemma BlockCount(n: nat, size: nat, t: nat)
    requires size > 0
    ensures t < NumBlocks(n, size) <==> t * size < n
  {
    var m := n + size - 1;
    var q, r := m / size, m % size;
    assert m == q * size + r && r < size;
    assert (t + 1) * size == t * size + size;
    if t < q {
      MulMonotone(t + 1, q, size);
    } else {
      MulMonotone(q + 1, t + 1, size);
      assert (q + 1) * size == q * size + size;
    }
  }

  lemma {:induction false} MulMonotone(x: nat, y: nat, s: nat)
    requires x <= y
    ensures x * s <= y * s
    decreases y - x
  {
    if x < y {
      MulMonotone(x, y - 1, s);
      assert (y - 1) * s + s == y * s;
    }
  }

  /** Each block of the range is non-empty and lies inside [0, n). */
  lemma BlockInside(n: nat, size: nat, t: nat)
    requires size > 0 && t < NumBlocks(n, size)
    ensures t * size < BlockEnd(t * size, size, n) <= n
  {
    BlockCount(n, size, t);
  }

  /**
   * The blocks partition [0, n): a row x belongs to block t exactly when x < n
   * and t == x / size, so it lies in one block and in no other.
   */
  lemma BlocksPartition(n: nat, size: nat, t: nat, x: nat)
    requires size > 0
    ensures (t < NumBlocks(n, size) && t * size <= x < BlockEnd(t * size, size, n))
            <==> (x < n && t == x / size)
  {
    if x < n && t == x / size {
      assert t * size <= x < t * size + size;
      BlockCount(n, size, t);
    }
    if t * size <= x < t * size + size {
      DivisionUnique(x, size, t);
    }
  }

  /** Two different blocks share no index: rows claimed by different claims never alias. */
  lemma BlocksDisjoint(n: nat, size: nat, t1: nat, t2: nat, x: nat)
    requires size > 0
    requires t1 * size <= x < BlockEnd(t1 * size, size, n)
    requires t2 * size <= x < BlockEnd(t2 * size, size, n)
    ensures t1 == t2
  {
    DivisionUnique(x, size, t1);
    DivisionUnique(x, size, t2);
  }

  /**
   * Chunk starts handed out as 0, size, 2 * size, ..., at least the ceiling of
   * n / size of them (the claims of the counter pool, the queue of the channel
   * pool), partition [0, n): every row below n lies in the chunk of start
   * number x / size, and a row lying in the chunk of start number t is below n
   * with t == x / size.
   */
  lemma {:induction false} StartsPartition(starts: seq<nat>, n: nat, size: nat, x: nat)
    requires size > 0
    requires forall t :: 0 <= t < |starts| ==> starts[t] == t * size
    requires NumBlocks(n, size) <= |starts|
    ensures x < n ==> x / size < |starts| && starts[x / size] <= x < BlockEnd(starts[x / size], size, n)
    ensures forall t :: 0 <= t < |starts| && starts[t] <= x < BlockEnd(starts[t], size, n) ==> x < n && t == x / size
  {
    if x < n {
      BlocksPartition(n, size, x / size, x);
    }
    forall t | 0 <= t < |starts| && starts[t] <= x < BlockEnd(starts[t], size, n)
      ensures x < n && t == x / size
    {
      DivisionUnique(x, size, t);
    }
  }

  lemma DivisionUnique(x: nat, size: nat, t: nat)
    requires size > 0 && t * size <= x < t * size + size
    ensures x / size == t
  {
    var q, r := x / size, x % size;
    assert x == q * size + r && 0 <= r < size;
    assert (q + 1) * size == q * size + size && (t + 1) * size == t * size + size;
    if q < t {
      MulMonotone(q + 1, t, size);
    } else if q > t {
      MulMonotone(t + 1, q, size);
    }
  }

  /** The number of workers that have left their claim loop. */
  function CountStopped(running: seq<bool>): (count: nat)
    ensures count <= |running|
  {
    if running == [] then 0
    else CountStopped(running[..|running| - 1]) + (if running[|running| - 1] then 0 else 1)
  }

  /** Stopping one more worker adds one to the count. */
  lemma {:induction false} StopOne(running: seq<bool>, z: nat)
    requires z < |running| && running[z]
    ensures CountStopped(running[z := false]) == CountStopped(running) + 1
  {
    var last := |running| - 1;
    if z < last {
      StopOne(running[..last], z);
      assert running[z := false][..last] == running[..last][z := false];
    } else {
      assert running[z := false][..last] == running[..last];
    }
  }

  /** While every worker runs, none has stopped. */
  lemma {:induction false} AllRunning(running: seq<bool>)
    requires forall z :: 0 <= z < |running| ==> running[z]
    ensures CountStopped(running) == 0
  {
    if running != [] {
      AllRunning(running[..|running| - 1]);
    }
  }

  /** When no worker is running, every worker has stopped. */
  lemma {:induction false} AllStopped(running: seq<bool>)
    requires forall z :: 0 <= z < |running| ==> !running[z]
    ensures CountStopped(running) == |running|
  {
    if running != [] {
      AllStopped(running[..|running| - 1]);
    }
  }

  /**
   * The claim protocol after any interleaving of claims: `claims` lists the
   * values fetch_add returned, in order; they are 0, 4, 8, ...; before any
   * worker stops every claim was below n; once one has stopped the counter is
   * at least n, so every later claim fails too, and exactly the ceiling of
   * n / 4 claims succeeded plus one failing claim per stopped worker.
   */
  ghost predicate ClaimInv(counter: nat, claims: seq<nat>, running: seq<bool>, n: nat) {
    && counter == RowsPerClaim * |claims|
    && (forall t :: 0 <= t < |claims| ==> claims[t] == RowsPerClaim * t)
    && (CountStopped(running) == 0 ==> forall t :: 0 <= t < |claims| ==> claims[t] < n)
    && (CountStopped(running) > 0 ==>
          n <= counter && |claims| == NumBlocks(n, RowsPerClaim) + CountStopped(running))
  }

  /** A claim below n: the worker goes on, and the protocol state is kept. */
  lemma ClaimSucceeds(counter: nat, claims: seq<nat>, running: seq<bool>, n: nat)
    requires ClaimInv(counter, claims, running, n) && counter < n
    ensures CountStopped(running) == 0
    ensures ClaimInv(counter + RowsPerClaim, claims + [counter], running, n)
  {
  }

  /** A claim at or past n: the claiming worker stops, and the protocol state is kept. */
  lemma ClaimFails(counter: nat, claims: seq<nat>, running: seq<bool>, n: nat, z: nat)
    requires ClaimInv(counter, claims, running, n) && n <= counter
    requires z < |running| && running[z]
    ensures ClaimInv(counter + RowsPerClaim, claims + [counter], running[z := false], n)
  {
    StopOne(running, z);
    if CountStopped(running) == 0 {
      BlockCount(n, RowsPerClaim, |claims|);
      if |claims| > 0 {
        assert claims[|claims| - 1] < n;
        BlockCount(n, RowsPerClaim, |claims| - 1);
      }
      assert |claims| == NumBlocks(n, RowsPerClaim);
    }
  }

  /** The atomic counter (`AtomicUsize`), modelled with unbounded integers. */
  class ClaimCounter {
    var next: nat

    constructor ()
      ensures next == 0
    {
      next := 0;
    }

    /** `fetch_add(delta)`: returns the value before the increment. */
    method FetchAdd(delta: nat) returns (previous: nat)
      modifies this
      ensures previous == old(next) && next == old(next) + delta
    {
      previous := next;
      next := next + delta;
    }
  }
}
