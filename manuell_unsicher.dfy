// The shared-counter pool whose workers write straight into the rows of `c`
// (manuell_unsicher.rs). The raw row pointer becomes an indexed write into
// `c.rows`. The ghost map `writer` records, for each row written so far, the
// claim whose chunk holds it, and the loop invariants show that each row below
// n is written once, by that claim. That the chunks of two different claims
// share no row is `Chunks.BlocksDisjoint`; within this model, where a worker's
// step is atomic, the once-only writes follow from the rows being written in
// claim order.

module ManuellUnsicher {
  import opened MatrixSpec
  import opened Output
  import opened Chunks
  import opened Naive

  /** Rows below `done` hold the product in their first n entries; all other entries are as before. */
  ghost predicate RowsDone(rows: Matrix, orig: Matrix, done: nat, a: Matrix, b: Matrix, n: nat) {
    && |rows| == |orig|
    && (forall i :: 0 <= i < done && i < |orig| ==>
          n <= |orig[i]| && rows[i] == ProductRow(a, b, i, n) + orig[i][n..])
    && (forall i :: done <= i < |orig| ==> rows[i] == orig[i])
  }

  /**
   * The pool's state: the claim protocol, the rows written so far, and for each
   * written row the number of the claim that wrote it, whose chunk holds the row.
   */
  ghost predicate UnsafeInv(counter: nat, claims: seq<nat>, running: seq<bool>, rows: Matrix, orig: Matrix,
                            writer: map<nat, nat>, a: Matrix, b: Matrix, n: nat)
  {
    && ClaimInv(counter, claims, running, n)
    && RowsDone(rows, orig, Min(counter, n), a, b, n)
    && (forall i: nat :: i in writer <==> i < Min(counter, n))
    && (forall i :: i in writer ==>
          writer[i] < |claims| && claims[writer[i]] <= i < BlockEnd(claims[writer[i]], RowsPerClaim, n))
  }

  /**
   * One pass of worker z's loop: claim a chunk, stop if `anfang >= n`, else
   * write rows [anfang, min(anfang + 4, n)) of `c` in place. Each of those rows
   * is one no earlier claim has written.
   */
  method WorkerStep(counter: ClaimCounter, c: ResultMatrix, a: Matrix, b: Matrix, n: nat, running: seq<bool>, z: nat,
                    ghost claims: seq<nat>, ghost writer: map<nat, nat>, ghost orig: Matrix)
    returns (running': seq<bool>, ghost claims': seq<nat>, ghost writer': map<nat, nat>)
    requires ShapeOk(a, n, n) && ShapeOk(b, n, n) && ShapeOk(orig, n, n)
    requires z < |running| && running[z]
    requires UnsafeInv(counter.next, claims, running, c.rows, orig, writer, a, b, n)
    modifies counter, c
    ensures UnsafeInv(counter.next, claims', running', c.rows, orig, writer', a, b, n)
    ensures counter.next == old(counter.next) + RowsPerClaim
    ensures running' == running[z := old(counter.next) < n]
  {
    var anfang := counter.FetchAdd(RowsPerClaim);
    claims' := claims + [anfang];
    if anfang >= n {
      ClaimFails(anfang, claims, running, n, z);
      running', writer' := running[z := false], writer;
      return;
    }
    ClaimSucceeds(anfang, claims, running, n);
    running' := running;
    writer' := writer;
    var ende := Min(anfang + RowsPerClaim, n);
    for i := anfang to ende
      invariant counter.next == old(counter.next) + RowsPerClaim
      invariant ClaimInv(counter.next, claims', running', n)
      invariant RowsDone(c.rows, orig, i, a, b, n)
      invariant forall i': nat :: i' in writer' <==> i' < i
      invariant forall i' :: i' in writer' ==>
                  writer'[i'] < |claims'| && claims'[writer'[i']] <= i' < BlockEnd(claims'[writer'[i']], RowsPerClaim, n)
    {
      // the row this claim is about to write belongs to no earlier claim
      assert i !in writer';
      FillRow(c, a, b, i, n);
      writer' := writer'[i := |claims|];
    }
  }

  /**
   * manuell_unsicher.rs: the pool writing in place. With at least one thread,
   * the first n entries of every row below n become the product row; entries
   * from column n on, rows from n on and the number of rows are unchanged. The
   * result is the same for every thread count and every interleaving.
   */
  method Multiply(a: Matrix, b: Matrix, c: ResultMatrix, n: nat, threads: nat, pinnen: seq<nat>, schedule: seq<nat>)
    requires ShapeOk(a, n, n) && ShapeOk(b, n, n) && ShapeOk(c.rows, n, n)
    requires threads <= |pinnen|
    requires forall s :: 0 <= s < |schedule| ==> schedule[s] < threads
    modifies c
    ensures |c.rows| == old(|c.rows|)
    ensures forall i :: 0 <= i < n ==>
              c.rows[i] == if threads == 0 then old(c.rows[i]) else ProductRow(a, b, i, n) + old(c.rows[i])[n..]
    ensures forall i :: n <= i < |c.rows| ==> c.rows[i] == old(c.rows[i])
  {
    ghost var orig := c.rows;
    var counter := new ClaimCounter();
    var running := seq(threads, _ => true);
    ghost var claims: seq<nat> := [];
    ghost var writer: map<nat, nat> := map[];
    AllRunning(running);
    for s := 0 to |schedule|
      invariant |running| == threads
      invariant threads == 0 ==> counter.next == 0
      invariant UnsafeInv(counter.next, claims, running, c.rows, orig, writer, a, b, n)
    {
      var z := schedule[s];
      if running[z] {
        running, claims, writer := WorkerStep(counter, c, a, b, n, running, z, claims, writer, orig);
      }
    }
    for z := 0 to threads
      invariant |running| == threads
      invariant threads == 0 ==> counter.next == 0
      invariant forall z' :: 0 <= z' < z ==> !running[z']
      invariant UnsafeInv(counter.next, claims, running, c.rows, orig, writer, a, b, n)
    {
      while running[z]
        invariant |running| == threads
        invariant forall z' :: 0 <= z' < z ==> !running[z']
        invariant UnsafeInv(counter.next, claims, running, c.rows, orig, writer, a, b, n)
        decreases (if running[z] then 1 else 0), n - Min(counter.next, n)
      {
        running, claims, writer := WorkerStep(counter, c, a, b, n, running, z, claims, writer, orig);
      }
    }
    if threads > 0 {
      AllStopped(running);
    }
  }
}
