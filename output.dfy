// The result matrix and the install-after-join step shared by the strategies
// whose workers hand back owned (row index, row) pairs.

module Output {
  import opened MatrixSpec

  /** The caller's `c: &mut Vec<Vec<f64>>`: rows are replaced or written in place. */
  class ResultMatrix {
    var rows: Matrix

    constructor (initial: Matrix)
      ensures rows == initial
    {
      rows := initial;
    }
  }

  /** One computed row as a worker returns it: `(i, zeile)`. */
  datatype Computed = Computed(index: nat, row: seq<int>)

  /** Every index carried by the workers' result lists is below n. */
  ghost predicate Within(lists: seq<seq<Computed>>, n: nat) {
    forall z, p :: 0 <= z < |lists| && 0 <= p < |lists[z]| ==> lists[z][p].index < n
  }

  /** No row index is carried twice, by one worker or by two. */
  ghost predicate Distinct(lists: seq<seq<Computed>>) {
    forall z1, p1, z2, p2 ::
      0 <= z1 < |lists| && 0 <= p1 < |lists[z1]| && 0 <= z2 < |lists| && 0 <= p2 < |lists[z2]| &&
      lists[z1][p1].index == lists[z2][p2].index
      ==> z1 == z2 && p1 == p2
  }

  /** Every row index below n is carried by some worker. */
  ghost predicate Covers(lists: seq<seq<Computed>>, n: nat) {
    forall i :: 0 <= i < n ==> i in Indices(lists)
  }

  /** The result lists hold each row index in [0, n) exactly once and nothing else. */
  ghost predicate ExactlyOnce(lists: seq<seq<Computed>>, n: nat) {
    Within(lists, n) && Distinct(lists) && Covers(lists, n)
  }

  /** Every carried row is the product row for its index. */
  ghost predicate RowsCorrect(lists: seq<seq<Computed>>, a: Matrix, b: Matrix, n: nat) {
    forall z, p :: 0 <= z < |lists| && 0 <= p < |lists[z]| ==>
      lists[z][p].row == ProductRow(a, b, lists[z][p].index, n)
  }

  /** The pairs a worker pushes for rows [start, end): each index with its product row, in increasing order. */
  ghost function ChunkRows(a: Matrix, b: Matrix, start: nat, end: nat, n: nat): seq<Computed>
    requires start <= end
  {
    seq(end - start, p requires 0 <= p < end - start => Computed(start + p, ProductRow(a, b, start + p, n)))
  }

  /** The set of row indices the result lists carry. */
  ghost function Indices(lists: seq<seq<Computed>>): set<nat> {
    set z, p | 0 <= z < |lists| && 0 <= p < |lists[z]| :: lists[z][p].index
  }

  /**
   * After the join: for each worker in spawn order, each returned pair (i, zeile)
   * is installed with `c[i] = zeile`. Distinct indices mean each row is written
   * once, so every carried row ends up in place and every other row is untouched.
   */
  method Install(c: ResultMatrix, lists: seq<seq<Computed>>)
    requires Distinct(lists)
    requires forall z, p :: 0 <= z < |lists| && 0 <= p < |lists[z]| ==> lists[z][p].index < |c.rows|
    modifies c
    ensures |c.rows| == old(|c.rows|)
    ensures forall z, p :: 0 <= z < |lists| && 0 <= p < |lists[z]| ==>
              c.rows[lists[z][p].index] == lists[z][p].row
    ensures forall i :: 0 <= i < |c.rows| && i !in Indices(lists) ==> c.rows[i] == old(c.rows[i])
  {
    ghost var installed: set<nat> := {};
    var z := 0;
    while z < |lists|
      invariant 0 <= z <= |lists|
      invariant |c.rows| == old(|c.rows|)
      invariant forall z', p' :: 0 <= z' < z && 0 <= p' < |lists[z']| ==>
                  c.rows[lists[z'][p'].index] == lists[z'][p'].row
      invariant installed <= Indices(lists)
      invariant forall i :: 0 <= i < |c.rows| && i !in installed ==> c.rows[i] == old(c.rows[i])
    {
      var returned := lists[z];
      var p := 0;
      while p < |returned|
        invariant 0 <= p <= |returned|
        invariant |c.rows| == old(|c.rows|)
        invariant forall z', p' :: 0 <= z' < z && 0 <= p' < |lists[z']| ==>
                    c.rows[lists[z'][p'].index] == lists[z'][p'].row
        invariant forall p' :: 0 <= p' < p ==> c.rows[lists[z][p'].index] == lists[z][p'].row
        invariant installed <= Indices(lists)
        invariant forall i :: 0 <= i < |c.rows| && i !in installed ==> c.rows[i] == old(c.rows[i])
      {
        var entry := returned[p];
        c.rows := c.rows[entry.index := entry.row];
        installed := installed + {entry.index};
        p := p + 1;
      }
      z := z + 1;
    }
  }

  /**
   * Bookkeeping of the computed rows: `owner` maps each row index below `done`
   * to the one (worker, position) that holds it, and nothing else is held.
   */
  ghost predicate Ledger(lists: seq<seq<Computed>>, owner: map<nat, (nat, nat)>, done: nat,
                         a: Matrix, b: Matrix, n: nat)
  {
    && (forall i: nat :: i in owner <==> i < done)
    && (forall i :: i in owner ==>
          owner[i].0 < |lists| && owner[i].1 < |lists[owner[i].0]| && lists[owner[i].0][owner[i].1].index == i)
    && (forall z, p :: 0 <= z < |lists| && 0 <= p < |lists[z]| ==>
          lists[z][p].index in owner && owner[lists[z][p].index] == (z, p))
    && RowsCorrect(lists, a, b, n)
  }

  /** A ledger over [0, done) says the lists hold each of those rows exactly once. */
  lemma LedgerExactlyOnce(lists: seq<seq<Computed>>, owner: map<nat, (nat, nat)>, done: nat,
                          a: Matrix, b: Matrix, n: nat)
    requires Ledger(lists, owner, done, a, b, n)
    ensures ExactlyOnce(lists, done)
  {
    forall i | 0 <= i < done
      ensures i in Indices(lists)
    {
      var (z, p) := owner[i];
      assert lists[z][p].index == i;
    }
  }

  /** Worker z appending the next row `done` keeps the ledger, now over [0, done + 1). */
  lemma LedgerExtend(lists: seq<seq<Computed>>, owner: map<nat, (nat, nat)>, done: nat,
                     a: Matrix, b: Matrix, n: nat, z: nat, zeile: seq<int>)
    requires Ledger(lists, owner, done, a, b, n)
    requires z < |lists| && zeile == ProductRow(a, b, done, n)
    ensures Ledger(lists[z := lists[z] + [Computed(done, zeile)]], owner[done := (z, |lists[z]|)], done + 1, a, b, n)
  {
    var lists': seq<seq<Computed>> := lists[z := lists[z] + [Computed(done, zeile)]];
    var owner': map<nat, (nat, nat)> := owner[done := (z, |lists[z]|)];
    forall z', p' | 0 <= z' < |lists'| && 0 <= p' < |lists'[z']|
      ensures lists'[z'][p'].index in owner' && owner'[lists'[z'][p'].index] == (z', p')
    {
      if z' != z || p' < |lists[z]| {
        assert lists'[z'][p'] == lists[z'][p'];
      }
    }
  }

  /**
   * Installing lists that hold every row of [0, n) exactly once, each the product
   * row: rows [0, n) become the product, the rows from n on are untouched.
   */
  method InstallProduct(c: ResultMatrix, lists: seq<seq<Computed>>, a: Matrix, b: Matrix, n: nat)
    requires ExactlyOnce(lists, n) && RowsCorrect(lists, a, b, n) && n <= |c.rows|
    modifies c
    ensures |c.rows| == old(|c.rows|)
    ensures forall i :: 0 <= i < n ==> c.rows[i] == ProductRow(a, b, i, n)
    ensures forall i :: n <= i < |c.rows| ==> c.rows[i] == old(c.rows[i])
  {
    Install(c, lists);
    forall i | 0 <= i < n
      ensures c.rows[i] == ProductRow(a, b, i, n)
    {
      assert i in Indices(lists);
      var z, p :| 0 <= z < |lists| && 0 <= p < |lists[z]| && lists[z][p].index == i;
    }
  }
}
