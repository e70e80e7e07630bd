// The queue strategy (crossbeam.rs): the chunk starts 0, 4, 8, ... below n are
// sent into an unbounded channel before any worker starts and the sender is
// dropped; each worker receives starts until the channel is empty, computes the
// chunk's rows with the naive kernel into fresh rows and returns the (i, row)
// pairs, which are installed after the join.
//
// The channel is the sequence `queue` with a read position `head`: a receive
// takes queue[head]. Threads are modelled by a schedule of worker ids, each
// entry letting that worker receive once; after the schedule every worker, in
// id order, receives until the channel is empty.

module Crossbeam {
  import opened MatrixSpec
  import opened Output
  import opened Chunks
  import opened Naive

  /**
   * The queue as filled by `for i in (0..n).step_by(4) { sender.send(i) }`:
   * the starts 0, 4, 8, ... below n in increasing order, the ceiling of n / 4
   * of them (none when n is 0).
   */
  method FillQueue(n: nat) returns (queue: seq<nat>)
    ensures |queue| == NumBlocks(n, RowsPerClaim)
    ensures forall t :: 0 <= t < |queue| ==> queue[t] == RowsPerClaim * t && queue[t] < n
  {
    queue := [];
    var i := 0;
    while i < n
      invariant i == RowsPerClaim * |queue|
      invariant forall t :: 0 <= t < |queue| ==> queue[t] == RowsPerClaim * t && queue[t] < n
    {
      queue := queue + [i];
      i := i + RowsPerClaim;
    }
    BlockCount(n, RowsPerClaim, |queue|);
    if |queue| > 0 {
      assert queue[|queue| - 1] == RowsPerClaim * (|queue| - 1) < n;
      BlockCount(n, RowsPerClaim, |queue| - 1);
    }
  }

  /** The pool's state: items before `head` have been received and their rows are held exactly once. */
  ghost predicate QueueInv(queue: seq<nat>, head: nat, running: seq<bool>, lists: seq<seq<Computed>>,
                           owner: map<nat, (nat, nat)>, a: Matrix, b: Matrix, n: nat)
  {
    && |queue| == NumBlocks(n, RowsPerClaim)
    && (forall t :: 0 <= t < |queue| ==> queue[t] == RowsPerClaim * t && queue[t] < n)
    && head <= |queue|
    && |lists| == |running|
    && (forall z :: 0 <= z < |running| && !running[z] ==> head == |queue|)
    && Ledger(lists, owner, Min(RowsPerClaim * head, n), a, b, n)
  }

  /**
   * One receive by worker z: on an empty channel (sender dropped) its loop ends;
   * otherwise it takes the next start and computes rows [anfang, min(anfang + 4, n)).
   */
  method WorkerStep(queue: seq<nat>, head: nat, a: Matrix, b: Matrix, n: nat,
                    lists: seq<seq<Computed>>, running: seq<bool>, z: nat, ghost owner: map<nat, (nat, nat)>)
    returns (head': nat, lists': seq<seq<Computed>>, running': seq<bool>, ghost owner': map<nat, (nat, nat)>)
    requires ShapeOk(a, n, n) && ShapeOk(b, n, n)
    requires z < |running| && running[z]
    requires QueueInv(queue, head, running, lists, owner, a, b, n)
    ensures QueueInv(queue, head', running', lists', owner', a, b, n)
    ensures head < |queue| ==> head' == head + 1 && running' == running
    ensures head == |queue| ==> head' == head && running' == running[z := false]
    ensures |lists'| == |lists|
    ensures forall z' :: 0 <= z' < |lists| && z' != z ==> lists'[z'] == lists[z']
    ensures head == |queue| ==> lists'[z] == lists[z]
    ensures head < |queue| ==>
              lists'[z] == lists[z] + ChunkRows(a, b, queue[head], Min(queue[head] + RowsPerClaim, n), n)
  {
    if head == |queue| {
      head', lists', running', owner' := head, lists, running[z := false], owner;
      return;
    }
    var anfang := queue[head];
    head' := head + 1;
    running' := running;
    var ende := Min(anfang + RowsPerClaim, n);
    lists', owner' := lists, owner;
    for i := anfang to ende
      invariant |lists'| == |running|
      invariant Ledger(lists', owner', i, a, b, n)
      invariant forall z' :: 0 <= z' < |lists| && z' != z ==> lists'[z'] == lists[z']
      invariant lists'[z] == lists[z] + ChunkRows(a, b, anfang, i, n)
    {
      var ergebnis := NaiveRow(a, b, i, n);
      LedgerExtend(lists', owner', i, a, b, n, z, ergebnis);
      owner' := owner'[i := (z, |lists'[z]|)];
      lists' := lists'[z := lists'[z] + [Computed(i, ergebnis)]];
      assert ChunkRows(a, b, anfang, i + 1, n) == ChunkRows(a, b, anfang, i, n) + [Computed(i, ergebnis)];
    }
  }

  /**
   * All workers' receive loops under the given interleaving: whatever the
   * schedule, each queued start is received once, and the returned lists hold
   * every row of [0, n) exactly once (none when there is no thread), each equal
   * to its product row.
   */
  method RunWorkers(a: Matrix, b: Matrix, n: nat, threads: nat, schedule: seq<nat>)
    returns (lists: seq<seq<Computed>>)
    requires ShapeOk(a, n, n) && ShapeOk(b, n, n)
    requires forall s :: 0 <= s < |schedule| ==> schedule[s] < threads
    ensures |lists| == threads
    ensures RowsCorrect(lists, a, b, n)
    ensures ExactlyOnce(lists, if threads == 0 then 0 else n)
  {
    var queue := FillQueue(n);
    var head := 0;
    lists := seq(threads, _ => []);
    var running := seq(threads, _ => true);
    ghost var owner: map<nat, (nat, nat)> := map[];
    for s := 0 to |schedule|
      invariant |running| == threads
      invariant threads == 0 ==> head == 0
      invariant QueueInv(queue, head, running, lists, owner, a, b, n)
    {
      var z := schedule[s];
      if running[z] {
        head, lists, running, owner := WorkerStep(queue, head, a, b, n, lists, running, z, owner);
      }
    }
    for z := 0 to threads
      invariant |running| == threads
      invariant threads == 0 ==> head == 0
      invariant forall z' :: 0 <= z' < z ==> !running[z']
      invariant QueueInv(queue, head, running, lists, owner, a, b, n)
    {
      while running[z]
        invariant |running| == threads
        invariant forall z' :: 0 <= z' < z ==> !running[z']
        invariant QueueInv(queue, head, running, lists, owner, a, b, n)
        decreases (if running[z] then 1 else 0), |queue| - head
      {
        head, lists, running, owner := WorkerStep(queue, head, a, b, n, lists, running, z, owner);
      }
    }
    if threads > 0 {
      assert !running[0];
      BlockCount(n, RowsPerClaim, |queue|);
    }
    LedgerExactlyOnce(lists, owner, Min(RowsPerClaim * head, n), a, b, n);
  }

  /**
   * crossbeam.rs: fill the queue, run the workers, install after the join. With
   * at least one thread, rows [0, n) of `c` become the product rows; rows from n
   * on and the number of rows are unchanged; with no thread nothing receives
   * and `c` is unchanged.
   */
  method Multiply(a: Matrix, b: Matrix, c: ResultMatrix, n: nat, threads: nat, pinnen: seq<nat>, schedule: seq<nat>)
    requires ShapeOk(a, n, n) && ShapeOk(b, n, n) && n <= |c.rows|
    requires threads <= |pinnen|
    requires forall s :: 0 <= s < |schedule| ==> schedule[s] < threads
    modifies c
    ensures |c.rows| == old(|c.rows|)
    ensures forall i :: 0 <= i < n ==> c.rows[i] == if threads == 0 then old(c.rows[i]) else ProductRow(a, b, i, n)
    ensures forall i :: n <= i < |c.rows| ==> c.rows[i] == old(c.rows[i])
  {
    var lists := RunWorkers(a, b, n, threads, schedule);
    // With no thread the lists are empty and installing them changes nothing.
    if threads > 0 {
      InstallProduct(c, lists, a, b, n);
    } else {
      Install(c, lists);
    }
  }
}
