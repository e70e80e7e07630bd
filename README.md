# Matrix product strategies, modelled in Dafny

This project models the matrix multiplication strategies of `matrix_multiplikation`.
Each strategy computes `c = a * b` for n x n matrices stored as vectors of rows.
The model has three parts.

- **The naive reference kernel** (`single.rs`). Entry (i, j) is the sum over
  k < n of `a[i][k] * b[k][j]`, accumulated from 0 in increasing k. It is stated
  once as the specification function `MatrixSpec.Dot`, and `MatrixSpec.ProductRow`
  gives the row of such sums. Every kernel and every strategy is proved against them.
- **The loop-restructured row kernels.** These are the 4-way unrolled k-loop
  (`unroll.rs`), 8 x 8 blocking (`tiling.rs`), 4-lane column groups (`simd.rs`),
  and blocking with 4-lane steps (`simd_tiling.rs`). Each fills a fresh zero row
  buffer, and each is proved to produce exactly `ProductRow`.
- **Row distribution and result assembly.**
  - The shared claim counter (`fetch_add(4)`) is used by `manuell_sicher.rs`,
    `unroll.rs`, `tiling.rs`, `simd.rs`, `simd_tiling.rs` and `manuell_unsicher.rs`.
  - The pre-filled queue of chunk starts is used by `crossbeam.rs`.
  - Enumerated rows are used by `rayon.rs`.
  - Results are either installed after the join (`c[i] = zeile`) or written in
    place (`manuell_unsicher.rs`, `rayon.rs`, `single.rs`).

Threads are modelled by a schedule: a sequence of worker ids. Each entry lets
that worker take one step of its loop: one claim or receive, then the rows of
that chunk. After the schedule, every worker in id order runs until its loop
ends. All strategy contracts hold for every schedule and every thread count.
They state that the claims return the chunk starts 0, 4, 8, ... in claim
order and how many are made (`CounterPool.RunWorkers`), or that the queue holds
exactly those starts below n (`Crossbeam.FillQueue`); `Chunks.StartsPartition`
turns either into the fact that the chunks handed out partition [0, n). They
also state that every row is computed and installed exactly once, and that
nothing else in `c` changes.

Modules, one per file:

| file | module | models |
|---|---|---|
| matrix_spec.dfy | MatrixSpec | `Dot`, `ProductRow` and facts about them |
| output.dfy | Output | the result matrix `c` as a class; the `(i, zeile)` lists workers return; install after join |
| naive.dfy | Naive | the naive entry loop, row buffer and in-place row write |
| single.dfy | Single | `single.rs` |
| simd4.dfy | Simd4 | `f64x4` as a four-element sequence with lane-wise `+` and `*` |
| unroll.dfy, tiling.dfy, simd.dfy, simd_tiling.dfy | Unroll, Tiling, Simd, SimdTiling | the row kernels of those files |
| chunks.dfy | Chunks | chunk bounds, the atomic counter, the claim protocol |
| counter_pool.dfy | CounterPool | the counter pool with install after join (five source files) |
| manuell_unsicher.dfy | ManuellUnsicher | the counter pool writing into `c` in place |
| crossbeam.dfy | Crossbeam | the queue pool |
| rayon.dfy | Rayon | `rayon.rs` |

`manuell_sicher.rs`, `unroll.rs`, `tiling.rs`, `simd.rs` and `simd_tiling.rs`
have the same claim loop, result lists and install loop, line for line; they
differ only in the code that computes one row. The model has that skeleton once,
in `CounterPool.Multiply`, parameterised by a `Kernel`. Each source file has its
own entry point, such as `CounterPool.MultiplyTiled`, which passes its kernel.

## Model

| member | source | states |
|---|---|---|
| MatrixSpec.FourTerms | src/algorithmen/unroll.rs:63-67 | adding the four left-associated terms for k .. k+3 advances the accumulated sum exactly as four steps of the naive loop |
| MatrixSpec.DotIdentityRight | src/algorithmen/single.rs:15-22 | the reference sum with the identity as right factor gives back entry (i, j) of a |
| MatrixSpec.DotOnes | src/algorithmen/single.rs:15-22 | the reference sum of two all-ones n x n matrices is n in every entry |
| Naive.DotLoop | src/algorithmen/single.rs:17-20 | an accumulator starting at 0 that adds one term per k, in increasing k, ends at Dot(a, b, i, j, n); earlier contents of the target play no part |
| Naive.NaiveRow | src/algorithmen/manuell_sicher.rs:42-50 | a fresh zero row whose entry j is set to the j-th naive sum is the product row |
| Naive.FillRow | src/algorithmen/manuell_unsicher.rs:56-64 | writing row i in place sets its first n entries to the product row and leaves its later entries and every other row unchanged |
| Single.Multiply | src/algorithmen/single.rs:6-24 | every row i < n gets the product row in its first n entries; entries from column n on, rows from n on and the row count are unchanged (so n == 0 changes nothing) |
| Simd4.MulAddLanes | src/algorithmen/simd.rs:51-55 | `acc + splat(x) * from_array(v)` is four independent scalar updates, lane l becoming acc[l] + x * v[l] |
| Unroll.Grenze | src/algorithmen/unroll.rs:55 | `n - n % 4` is a multiple of 4, at most n, and less than 4 below n |
| Unroll.UnrolledDot | src/algorithmen/unroll.rs:61-73 | the unrolled loop up to grenze plus the scalar remainder over [grenze, n) yields Dot(a, b, i, j, n) |
| Unroll.UnrolledRow | src/algorithmen/unroll.rs:57-77 | the unrolled kernel's row is the product row |
| Tiling.TiledRow | src/algorithmen/tiling.rs:55-75 | k-blocks of 8 outside, j-blocks of 8 inside, each (k, j) adding one term to a zero row, yield the product row |
| Simd.Rest | src/algorithmen/simd.rs:40 | `(n / 4) * 4` is a multiple of 4, at most n, and less than 4 below n |
| Simd.LaneDot | src/algorithmen/simd.rs:48-56 | for a lane group start j with j + 4 <= n, after the k-loop lane l holds Dot(a, b, i, j + l, n) |
| Simd.SimdRow | src/algorithmen/simd.rs:45-74 | the lane groups below rest and the scalar tail columns [rest, n) together set every column exactly once, to the product row |
| SimdTiling.BlockStep | src/algorithmen/simd_tiling.rs:71-100 | for one k, the step-by-4 sweep of [jBlock, jMax) adds a[i][k] * b[k][m] to each column of the block once, taking a lane step only when j + 4 < jMax and the scalar fallback otherwise; columns outside the block do not change |
| SimdTiling.SimdTiledRow | src/algorithmen/simd_tiling.rs:60-104 | j-blocks outside, k-blocks inside, yield the product row |
| Chunks.BlockCount | src/algorithmen/crossbeam.rs:23-25 | the t-th start t * 4 is below n exactly when t is below the ceiling of n / 4, so the starts below n number ceil(n / 4) |
| Chunks.BlockInside | src/algorithmen/manuell_sicher.rs:39 | a chunk [start, min(start + 4, n)) of a successful claim is non-empty and inside [0, n) |
| Chunks.BlocksPartition | src/algorithmen/manuell_sicher.rs:33-41 | row x lies in chunk t exactly when x < n and t == x / 4: the successful chunks cover [0, n) and no row lies in two |
| Chunks.StartsPartition | src/algorithmen/manuell_sicher.rs:33-41 | for starts numbered t with start t == 4t and at least ceil(n / 4) of them (the issued claims, the queued starts), every row below n lies in the chunk of start x / 4, and a row lying in the chunk of start t is below n with t == x / 4: the issued chunks partition [0, n) |
| Chunks.BlocksDisjoint | src/algorithmen/manuell_unsicher.rs:53-56 | two chunks that share a row are the same chunk: different claims never hand out a common row, the property the unchecked row access relies on |
| Chunks.ClaimFails | src/algorithmen/manuell_sicher.rs:31-36 | a claim at or past n stops its worker, and the claim protocol stays intact: claims are 0, 4, 8, ..., ceil(n / 4) of them succeed, and each stopped worker made one failing claim |
| Chunks.ClaimCounter.FetchAdd | src/algorithmen/manuell_sicher.rs:33 | `fetch_add` returns the old counter value and advances it by the increment |
| Output.Install | src/algorithmen/manuell_sicher.rs:61-66 | installing the lists replaces each carried row index by its row and leaves every other row and the row count unchanged |
| Output.InstallProduct | src/algorithmen/manuell_sicher.rs:61-66 | installing lists that hold each row of [0, n) exactly once, correctly computed, makes rows [0, n) the product rows and leaves the rest |
| Output.LedgerExactlyOnce | src/algorithmen/manuell_sicher.rs:41-51 | when each row below `done` is recorded at exactly one position of one worker's list, the lists hold [0, done) exactly once |
| Output.LedgerExtend | src/algorithmen/manuell_sicher.rs:51 | pushing the next row onto a worker's list keeps the exactly-once record, one row further |
| CounterPool.ComputeRow | src/algorithmen/manuell_sicher.rs:42-50 | whichever of the five kernels a strategy uses, the row it computes is the product row |
| CounterPool.WorkerStep | src/algorithmen/manuell_sicher.rs:31-53 | one pass of the claim loop advances the counter by 4; it stops the worker exactly when the claim is at or past n; otherwise it appends the chunk's rows, in increasing order and each with its product row, to worker z's own list and leaves every other worker's list unchanged; the claim protocol and the exactly-once record are kept |
| CounterPool.RunWorkers | src/algorithmen/manuell_sicher.rs:15-58 | under any schedule, the claims are 0, 4, 8, ... in claim order, and ceil(n / 4) + threads claims are made; the lists hold each row of [0, n) exactly once, equal to its product row (no row without threads) |
| CounterPool.Multiply | src/algorithmen/manuell_sicher.rs:7-68 | with at least one thread, rows [0, n) of c become the product rows for every schedule; rows from n on and the row count are unchanged |
| CounterPool.MultiplySafe | src/algorithmen/manuell_sicher.rs:7-68 | the strategy of manuell_sicher.rs, with the naive kernel: the contract of CounterPool.Multiply |
| CounterPool.MultiplyUnrolled | src/algorithmen/unroll.rs:10-94 | the strategy of unroll.rs: the contract of CounterPool.Multiply |
| CounterPool.MultiplyTiled | src/algorithmen/tiling.rs:10-92 | the strategy of tiling.rs: the contract of CounterPool.Multiply |
| CounterPool.MultiplySimd | src/algorithmen/simd.rs:9-91 | the strategy of simd.rs: the contract of CounterPool.Multiply |
| CounterPool.MultiplySimdTiled | src/algorithmen/simd_tiling.rs:15-121 | the strategy of simd_tiling.rs: the contract of CounterPool.Multiply |
| ManuellUnsicher.WorkerStep | src/algorithmen/manuell_unsicher.rs:43-66 | one pass of the claim loop writes the chunk's rows in place; each is a row no earlier claim wrote, recorded with the one claim whose chunk holds it |
| ManuellUnsicher.Multiply | src/algorithmen/manuell_unsicher.rs:10-70 | with at least one thread, the first n entries of every row below n become the product row, whatever the schedule; entries from column n on, rows from n on and the row count are unchanged |
| Crossbeam.FillQueue | src/algorithmen/crossbeam.rs:23-28 | the queue holds the starts 0, 4, 8, ... below n in increasing order, ceil(n / 4) of them |
| Crossbeam.WorkerStep | src/algorithmen/crossbeam.rs:50-67 | a receive takes the next queued start and appends that chunk's rows, in increasing order and each with its product row, to worker z's own list, leaving every other list unchanged; on an empty queue the worker's loop ends and no list changes |
| Crossbeam.RunWorkers | src/algorithmen/crossbeam.rs:31-73 | under any split of the queue among workers, each start is received once; the lists hold each row of [0, n) exactly once, equal to its product row (no row without threads) |
| Crossbeam.Multiply | src/algorithmen/crossbeam.rs:8-86 | with at least one thread, rows [0, n) of c become the product rows; rows from n on and the row count are unchanged; n == 0 queues nothing and changes nothing |
| Rayon.Multiply | src/algorithmen/rayon.rs:9-21 | in any order that visits every row of c once, every row of c (not only the first n) gets the product row in its first n entries; later entries and the row count are unchanged |

## Left out

- Floating point: entries are unbounded integers, so `f64` arithmetic itself (rounding, overflow to infinity, NaN) is left out, and the 1e-10 comparison in src/test.rs is not modelled. Every kernel adds the terms a[i][k] * b[k][j] to an accumulator starting at 0 one at a time in increasing k, as single.rs does; the proofs follow that left-to-right prefix sum (`MatrixSpec.DotUpTo`) step by step and never regroup terms.
- Inputs too small for the indexing are excluded by the `requires` clauses: `a` or `b` with fewer than n rows or a row shorter than n, `c` with fewer than n rows (or, for the in-place strategies, a row shorter than n), and fewer `pinnen` entries than threads. For the strategies that index with bounds checks the source panics on such inputs (for example manuell_sicher.rs:20,47,64), and the worker's panic is passed on when it is joined. In manuell_unsicher.rs a `c` with fewer than n rows is undefined behaviour, not a panic: `zeiger.add(i)` (line 56) offsets the raw pointer past the end of the vector unchecked, and the requirement of at least n rows is exactly the condition that pointer access needs to be safe. A row of `c` shorter than n still panics at line 63, and the thread scope (line 28) passes that panic on. The model does not describe panics or undefined behaviour.
- Threads: `thread::scope`, `spawn`, `join`, crossbeam's scoped threads and channel, rayon's scheduler and atomic memory orderings are not modelled. A step of one worker is taken to be atomic (one claim or receive, then that chunk's rows), and interleavings are the sequential schedules described above.
- Core pinning: `set_for_current` and the `CoreId` values only place threads. `pinnen` is kept only for the requirement `threads <= |pinnen|`, and `single.rs`'s `kern` is dropped.
- Raw pointers and `AtomicPtr` in manuell_unsicher.rs: the write through `zeiger.add(i)` is an indexed write into row i of `c`.
- `usize` wrap-around of the claim counter is not modelled; the counter is an unbounded natural number.
- rayon.rs: the row range comes from the number of rows of `c`, not from n. So when n > 0 the model requires `a` to have at least as many rows as `c`, and the product is complete only when `c` has exactly n rows.
- With zero threads, the counter, queue and manuell_unsicher strategies change nothing in `c`; their contracts say so rather than promising the product.
- tiling.rs: the comment at line 57 says the outer loop runs over j-blocks, but the code runs over k-blocks. The model follows the code.
- benches/benchmark.rs (timing harness), src/lib.rs (module declarations) and the random matrix generator are not part of this model.
- src/test.rs calls a module `manuell` that src/lib.rs does not declare. Its intent, that each strategy matches the single-threaded result, is what the `ProductRow` postconditions state for every strategy.
