// The shared-counter worker pool of manuell_sicher.rs, unroll.rs, tiling.rs,
// simd.rs and simd_tiling.rs. The five files run the same protocol and differ
// only in the kernel that computes a row: each worker repeatedly claims
// `anfang = counter.fetch_add(4)`, stops once `anfang >= n`, otherwise computes
// rows [anfang, min(anfang + 4, n)) into fresh buffers and keeps the
// (i, zeile) pairs; after the join the pairs are installed with `c[i] = zeile`.
//
// Threads are modelled by a schedule: a sequence of worker ids, each entry
// letting that worker take one step of its loop (one claim and the rows of the
// chunk). After the schedule every worker, in id order, runs to its end.

module CounterPool {
  import opened MatrixSpec
  import opened Output
  import opened Chunks
  import opened Naive
  import Unroll
  import Tiling
  import Simd
  import SimdTiling

  /** The row kernel a strategy runs. */
  datatype Kernel = NaiveKernel | UnrollKernel | TilingKernel | SimdKernel | SimdTilingKernel

  /** Row i computed into a fresh buffer by the chosen kernel. */
  method ComputeRow(kernel: Kernel, a: Matrix, b: Matrix, i: nat, n: nat) returns (zeile: seq<int>)
    requires RowOk(a, b, i, n)
    ensures zeile == ProductRow(a, b, i, n)
  {
    match kernel
    case NaiveKernel => zeile := NaiveRow(a, b, i, n);
    case UnrollKernel => zeile := Unroll.UnrolledRow(a, b, i, n);
    case TilingKernel => zeile := Tiling.TiledRow(a, b, i, n);
    case SimdKernel => zeile := Simd.SimdRow(a, b, i, n);
    case SimdTilingKernel => zeile := SimdTiling.SimdTiledRow(a, b, i, n);
  }

  /** The shared state of the pool: the claim protocol and the rows held so far. */
  ghost predicate PoolInv(counter: nat, claims: seq<nat>, running: seq<bool>, lists: seq<seq<Computed>>,
                          owner: map<nat, (nat, nat)>, a: Matrix, b: Matrix, n: nat)
  {
    && |lists| == |running|
    && ClaimInv(counter, claims, running, n)
    && Ledger(lists, owner, Min(counter, n), a, b, n)
  }

  /**
   * One pass of worker z's loop: a claim `anfang = fetch_add(4)`; the worker
   * stops if `anfang >= n`, otherwise it computes rows [anfang, min(anfang + 4, n))
   * and appends them to its list.
   */
  method WorkerStep(counter: ClaimCounter, kernel: Kernel, a: Matrix, b: Matrix, n: nat,
                    lists: seq<seq<Computed>>, running: seq<bool>, z: nat,
                    ghost claims: seq<nat>, ghost owner: map<nat, (nat, nat)>)
    returns (lists': seq<seq<Computed>>, running': seq<bool>, ghost claims': seq<nat>, ghost owner': map<nat, (nat, nat)>)
    requires ShapeOk(a, n, n) && ShapeOk(b, n, n)
    requires z < |running| && running[z]
    requires PoolInv(counter.next, claims, running, lists, owner, a, b, n)
    modifies counter
    ensures PoolInv(counter.next, claims', running', lists', owner', a, b, n)
    ensures counter.next == old(counter.next) + RowsPerClaim
    ensures running' == running[z := old(counter.next) < n]
    ensures |lists'| == |lists|
    ensures forall z' :: 0 <= z' < |lists| && z' != z ==> lists'[z'] == lists[z']
    ensures lists'[z] == lists[z] + ChunkRows(a, b, Min(old(counter.next), n), Min(old(counter.next) + RowsPerClaim, n), n)
  {
    var anfang := counter.FetchAdd(RowsPerClaim);
    claims' := claims + [anfang];
    if anfang >= n {
      ClaimFails(anfang, claims, running, n, z);
      running' := running[z := false];
      lists', owner' := lists, owner;
      assert lists'[z] == lists[z] + [];
      return;
    }
    ClaimSucceeds(anfang, claims, running, n);
    running' := running;
    var ende := Min(anfang + RowsPerClaim, n);
    lists', owner' := lists, owner;
    assert counter.next == RowsPerClaim * |claims'|;
    for i := anfang to ende
      invariant counter.next == old(counter.next) + RowsPerClaim
      invariant |lists'| == |running|
      invariant Ledger(lists', owner', i, a, b, n)
      invariant forall z' :: 0 <= z' < |lists| && z' != z ==> lists'[z'] == lists[z']
      invariant lists'[z] == lists[z] + ChunkRows(a, b, anfang, i, n)
    {
      var zeile := ComputeRow(kernel, a, b, i, n);
      LedgerExtend(lists', owner', i, a, b, n, z, zeile);
      owner' := owner'[i := (z, |lists'[z]|)];
      lists' := lists'[z := lists'[z] + [Computed(i, zeile)]];
      assert ChunkRows(a, b, anfang, i + 1, n) == ChunkRows(a, b, anfang, i, n) + [Computed(i, zeile)];
    }
  }

  /**
   * All workers' claim loops under the given interleaving. Whatever the
   * schedule and the number of threads, the claims return 0, 4, 8, ... in claim
   * order, the ceiling of n / 4 of them succeed, each worker stops on exactly
   * one failing claim, and the returned lists hold every row of [0, n) exactly
   * once, each equal to its product row. With no thread, nothing is computed.
   */
  method RunWorkers(kernel: Kernel, a: Matrix, b: Matrix, n: nat, threads: nat, schedule: seq<nat>)
    returns (lists: seq<seq<Computed>>, ghost claims: seq<nat>)
    requires ShapeOk(a, n, n) && ShapeOk(b, n, n)
    requires forall s :: 0 <= s < |schedule| ==> schedule[s] < threads
    ensures |lists| == threads
    ensures RowsCorrect(lists, a, b, n)
    ensures ExactlyOnce(lists, if threads == 0 then 0 else n)
    ensures forall t :: 0 <= t < |claims| ==> claims[t] == RowsPerClaim * t
    ensures threads > 0 ==> |claims| == NumBlocks(n, RowsPerClaim) + threads
  {
    var counter := new ClaimCounter();
    lists := seq(threads, _ => []);
    var running := seq(threads, _ => true);
    claims := [];
    ghost var owner: map<nat, (nat, nat)> := map[];
    AllRunning(running);
    for s := 0 to |schedule|
      invariant |running| == threads
      invariant PoolInv(counter.next, claims, running, lists, owner, a, b, n)
    {
      var z := schedule[s];
      if running[z] {
        lists, running, claims, owner := WorkerStep(counter, kernel, a, b, n, lists, running, z, claims, owner);
      }
    }
    for z := 0 to threads
      invariant |running| == threads
      invariant forall z' :: 0 <= z' < z ==> !running[z']
      invariant PoolInv(counter.next, claims, running, lists, owner, a, b, n)
    {
      while running[z]
        invariant |running| == threads
        invariant forall z' :: 0 <= z' < z ==> !running[z']
        invariant PoolInv(counter.next, claims, running, lists, owner, a, b, n)
        decreases (if running[z] then 1 else 0), n - Min(counter.next, n)
      {
        lists, running, claims, owner := WorkerStep(counter, kernel, a, b, n, lists, running, z, claims, owner);
      }
    }
    if threads > 0 {
      AllStopped(running);
    }
    LedgerExactlyOnce(lists, owner, Min(counter.next, n), a, b, n);
  }

  /**
   * The whole strategy: run the workers, join, install. Afterwards rows [0, n)
   * of `c` are the product rows (when at least one thread runs), the rows from
   * n on are untouched and the number of rows is unchanged.
   */
  method Multiply(kernel: Kernel, a: Matrix, b: Matrix, c: ResultMatrix, n: nat,
                  threads: nat, pinnen: seq<nat>, schedule: seq<nat>)
    requires ShapeOk(a, n, n) && ShapeOk(b, n, n) && n <= |c.rows|
    requires threads <= |pinnen|
    requires forall s :: 0 <= s < |schedule| ==> schedule[s] < threads
    modifies c
    ensures |c.rows| == old(|c.rows|)
    ensures forall i :: 0 <= i < n ==> c.rows[i] == if threads == 0 then old(c.rows[i]) else ProductRow(a, b, i, n)
    ensures forall i :: n <= i < |c.rows| ==> c.rows[i] == old(c.rows[i])
  {
    var lists, claims := RunWorkers(kernel, a, b, n, threads, schedule);
    // With no thread the lists are empty and installing them changes nothing.
    if threads > 0 {
      InstallProduct(c, lists, a, b, n);
    } else {
      Install(c, lists);
    }
  }

  // The five strategies of this shape, one per source file.

  /** manuell_sicher.rs: the naive kernel. */
  method MultiplySafe(a: Matrix, b: Matrix, c: ResultMatrix, n: nat, threads: nat, pinnen: seq<nat>, schedule: seq<nat>)
    requires ShapeOk(a, n, n) && ShapeOk(b, n, n) && n <= |c.rows|
    requires threads <= |pinnen|
    requires forall s :: 0 <= s < |schedule| ==> schedule[s] < threads
    modifies c
    ensures |c.rows| == old(|c.rows|)
    ensures forall i :: 0 <= i < n ==> c.rows[i] == if threads == 0 then old(c.rows[i]) else ProductRow(a, b, i, n)
    ensures forall i :: n <= i < |c.rows| ==> c.rows[i] == old(c.rows[i])
  {
    Multiply(NaiveKernel, a, b, c, n, threads, pinnen, schedule);
  }

  /** unroll.rs: the unrolled kernel. */
  method MultiplyUnrolled(a: Matrix, b: Matrix, c: ResultMatrix, n: nat, threads: nat, pinnen: seq<nat>, schedule: seq<nat>)
    requires ShapeOk(a, n, n) && ShapeOk(b, n, n) && n <= |c.rows|
    requires threads <= |pinnen|
    requires forall s :: 0 <= s < |schedule| ==> schedule[s] < threads
    modifies c
    ensures |c.rows| == old(|c.rows|)
    ensures forall i :: 0 <= i < n ==> c.rows[i] == if threads == 0 then old(c.rows[i]) else ProductRow(a, b, i, n)
    ensures forall i :: n <= i < |c.rows| ==> c.rows[i] == old(c.rows[i])
  {
    Multiply(UnrollKernel, a, b, c, n, threads, pinnen, schedule);
  }

  /** tiling.rs: the blocked kernel. */
  method MultiplyTiled(a: Matrix, b: Matrix, c: ResultMatrix, n: nat, threads: nat, pinnen: seq<nat>, schedule: seq<nat>)
    requires ShapeOk(a, n, n) && ShapeOk(b, n, n) && n <= |c.rows|
    requires threads <= |pinnen|
    requires forall s :: 0 <= s < |schedule| ==> schedule[s] < threads
    modifies c
    ensures |c.rows| == old(|c.rows|)
    ensures forall i :: 0 <= i < n ==> c.rows[i] == if threads == 0 then old(c.rows[i]) else ProductRow(a, b, i, n)
    ensures forall i :: n <= i < |c.rows| ==> c.rows[i] == old(c.rows[i])
  {
    Multiply(TilingKernel, a, b, c, n, threads, pinnen, schedule);
  }

  /** simd.rs: the vectorised kernel. */
  method MultiplySimd(a: Matrix, b: Matrix, c: ResultMatrix, n: nat, threads: nat, pinnen: seq<nat>, schedule: seq<nat>)
    requires ShapeOk(a, n, n) && ShapeOk(b, n, n) && n <= |c.rows|
    requires threads <= |pinnen|
    requires forall s :: 0 <= s < |schedule| ==> schedule[s] < threads
    modifies c
    ensures |c.rows| == old(|c.rows|)
    ensures forall i :: 0 <= i < n ==> c.rows[i] == if threads == 0 then old(c.rows[i]) else ProductRow(a, b, i, n)
    ensures forall i :: n <= i < |c.rows| ==> c.rows[i] == old(c.rows[i])
  {
    Multiply(SimdKernel, a, b, c, n, threads, pinnen, schedule);
  }

  /** simd_tiling.rs: the blocked and vectorised kernel. */
  method MultiplySimdTiled(a: Matrix, b: Matrix, c: ResultMatrix, n: nat, threads: nat, pinnen: seq<nat>, schedule: seq<nat>)
    requires ShapeOk(a, n, n) && ShapeOk(b, n, n) && n <= |c.rows|
    requires threads <= |pinnen|
    requires forall s :: 0 <= s < |schedule| ==> schedule[s] < threads
    modifies c
    ensures |c.rows| == old(|c.rows|)
    ensures forall i :: 0 <= i < n ==> c.rows[i] == if threads == 0 then old(c.rows[i]) else ProductRow(a, b, i, n)
    ensures forall i :: n <= i < |c.rows| ==> c.rows[i] == old(c.rows[i])
  {
    Multiply(SimdTilingKernel, a, b, c, n, threads, pinnen, schedule);
  }
}
