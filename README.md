# lab1.cpp in Dafny: matrix fill, row-product kernel and static row partition

`lab1.cpp` is a small benchmark. It fills a square matrix of C++ `int`s:

- every cell of the secondary (anti-)diagonal holds 1;
- every other cell holds `rand() % 10 + 1`.

The kernel `compute_product(start, end)` then writes, for every row in
`[start, end)`, the product of the row's cells into that row's anti-diagonal
cell. `measure_execution_time` runs the kernel either inline over all rows or
split into one chunk of rows per thread, and `main` runs it once inline and
then once per thread count of a list, always on the same matrix.

The model has six modules, one per file:

- `Int32Arith` (`int32.dfy`) — 32-bit two's-complement wrap-around `Wrap32`,
  which is how the benchmark's `product *= matrix[i][j]` behaves on overflow.
- `MatrixStore` (`matrix_store.dfy`) — the matrix as an `array2<Int32>` of any
  square size n, its snapshot `Cells` as a `seq<seq<int>>`, and `fill_matrix`
  as the method `FillMatrix`. The random source is a sequence of raw draws.
- `RowProductKernel` (`row_product_kernel.dfy`) — `compute_product` as the
  in-place method `ComputeProductInPlace`, proved against the specification
  function `ComputeProduct`, and the facts about one and about repeated passes.
- `Partitioner` (`partitioner.dfy`) — the chunking arithmetic of
  `measure_execution_time` as the pure function `WorkerRange`, with its bounds,
  contiguity, lengths and the unique owner of each row.
- `TimingHarness` (`timing_harness.dfy`) — `measure_execution_time` without the
  clock. The workers run one after another, in any order (a schedule), and
  the result is proved equal to the inline call over all rows.
- `Driver` (`driver.dfy`) — `main` as a sequence of configurations on one
  matrix: each configuration is one more full pass of the kernel.

The property the threading relies on, proved as
`TimingHarness.AnyScheduleEqualsSingleCall`: no row reads another row's cells,
and the worker ranges are disjoint and cover every row. So running the
workers' ranges in any order gives the same matrix as `compute_product(0, N)`.

## Model

| member | source | states |
|---|---|---|
| Int32Arith.Wrap32 | lab1.cpp:35 | the result is the Int32 congruent to its argument modulo 2^32 |
| Int32Arith.WrapUnique | lab1.cpp:35 | only one Int32 is congruent to a given integer modulo 2^32, so Wrap32 is the two's-complement value |
| Int32Arith.WrapOfInt32 | lab1.cpp:35 | wrapping a value that is already an Int32 leaves it unchanged |
| Int32Arith.WrapMul | lab1.cpp:33-36 | wrapping an intermediate product does not change the wrapped final product |
| MatrixStore.Cells | lab1.cpp:13 | the snapshot has the array's dimensions and holds each array cell at the same row and column |
| MatrixStore.AntiDiagonal | lab1.cpp:20 | the anti-diagonal column `MATRIX_SIZE - 1 - i` of a row inside the matrix is itself inside the matrix, and column plus row is n - 1 |
| MatrixStore.DrawIndex | lab1.cpp:18-24 | the draw that fills an off-diagonal cell is one of the n*n - n draws `fill_matrix` makes |
| MatrixStore.DrawIndexInjective | lab1.cpp:18-24 | two different off-diagonal cells are filled from two different draws |
| MatrixStore.DrawIndexOnto | lab1.cpp:18-24 | every one of the n * (n - 1) `rand()` calls `fill_matrix` makes fills some off-diagonal cell; with DrawIndexInjective, draws and off-diagonal cells correspond one to one |
| MatrixStore.CellValue | lab1.cpp:24 | `rand() % 10 + 1` lies in [1, 10] and is congruent to draw + 1 modulo 10; C++ `%` truncates toward zero and Dafny's is Euclidean, but the two agree here because `rand()` is never negative |
| MatrixStore.FilledCell | lab1.cpp:20-24 | the value `fill_matrix` writes into cell (i, j): 1 on the anti-diagonal, a value in [1, 10] elsewhere |
| MatrixStore.FilledGrid | lab1.cpp:18-26 | the matrix `fill_matrix` leaves for a given draw sequence: square of size n, with every cell holding its FilledCell value; it is the reference FillMatrix is proved against |
| MatrixStore.FilledGridIsFreshlyFilled | lab1.cpp:18-26 | for any draws, every anti-diagonal cell of the filled matrix is 1, every other cell lies in [1, 10], and each other cell is its own draw `% 10 + 1` |
| MatrixStore.FillRow | lab1.cpp:19-26 | one row pass writes the fill value into every cell of row i, leaves all other rows unchanged, and consumes exactly n - 1 draws |
| MatrixStore.FillMatrix | lab1.cpp:16-28 | afterwards the array holds exactly the filled matrix for the given draws |
| RowProductKernel.RowProduct | lab1.cpp:33-36 | the inner loop's accumulator (start at 1, wrapping multiply cell by cell) ends at the row's mathematical product reduced to 32 bits |
| RowProductKernel.ProductConcat | lab1.cpp:34-35 | the product of two concatenated rows is the product of their products |
| RowProductKernel.ProductSplit | lab1.cpp:34-37 | a row's product is its anti-diagonal cell times the product of its other cells |
| RowProductKernel.OffDiagonalUpdate | lab1.cpp:37 | overwriting the anti-diagonal cell leaves the row's other cells unchanged |
| RowProductKernel.UpdatedRow | lab1.cpp:33-37 | one row after the kernel has visited it: same length, the anti-diagonal cell holds the wrapped product of the row as it was, every other cell is unchanged |
| RowProductKernel.ApplyRows | lab1.cpp:32-37 | the rows in the set become their updated row; every other row is unchanged |
| RowProductKernel.Span | lab1.cpp:32 | the set of rows holds exactly the i with start <= i < end, and is empty when start >= end |
| RowProductKernel.ComputeProduct | lab1.cpp:31-39 | each row i in [start, end) has its anti-diagonal cell set to the wrapped product of that row before the call; every other cell, and every row outside the range, is unchanged |
| RowProductKernel.ComputeProductIsApplyRows | lab1.cpp:32 | a call over [start, end) is the kernel applied to exactly the rows of that range |
| RowProductKernel.ApplyRowsCompose | lab1.cpp:32-37 | running the kernel over two disjoint row sets one after the other equals one run over their union |
| RowProductKernel.AntiDiagonalAfterPass | lab1.cpp:33-37 | after a call, the anti-diagonal cell of a row in range is its previous value times the product of the row's other cells, wrapped |
| RowProductKernel.FreshRowProduct | lab1.cpp:33-37 | on a freshly filled matrix, the value written is exactly the wrapped product of the row's off-diagonal cells |
| RowProductKernel.SecondPassProduct | lab1.cpp:77-82 | a second full pass multiplies the off-diagonal product once more into the first pass's result, instead of recomputing the first result |
| RowProductKernel.SecondPassKeepsZero | lab1.cpp:77-82 | when a row's first result has wrapped to 0, the second pass writes 0 again |
| RowProductKernel.FirstPassScenario | lab1.cpp:31-39 | on the 4 x 4 matrix with anti-diagonal 1 and other cells 2, one pass writes 8 into every anti-diagonal cell |
| RowProductKernel.SecondPassScenario | lab1.cpp:77-82 | a pass on that result writes 64 into every anti-diagonal cell |
| RowProductKernel.AccumulateRow | lab1.cpp:33-36 | the inner loop returns the wrapped product of row i's current cells |
| RowProductKernel.ComputeProductInPlace | lab1.cpp:31-39 | the array afterwards is ComputeProduct of its contents before the call |
| RowProductKernel.KernelByCells | lab1.cpp:32-37 | a grid that agrees cell by cell with the kernel's effect on [start, end) is ComputeProduct's result |
| Partitioner.ChunkSize | lab1.cpp:51 | `chunk_size = MATRIX_SIZE / threads` is the largest chunk such that `threads` chunks fit in the n rows: chunk * threads <= n < (chunk + 1) * threads |
| Partitioner.WorkerRange | lab1.cpp:51-56 | every worker's range satisfies 0 <= start <= end <= n, including when there are more threads than rows |
| Partitioner.WorkerRangeBounds | lab1.cpp:54-56 | worker i starts at i * (n / threads); it ends one chunk later, except the last worker, which ends at n |
| Partitioner.PartitionIsContiguous | lab1.cpp:54-56 | the first range starts at 0, the last ends at n, and each range ends where the next one starts |
| Partitioner.PartitionLengths | lab1.cpp:51-56 | the first threads - 1 ranges have length n / threads; the last has length n - (threads - 1) * (n / threads), which is less than n / threads + threads |
| Partitioner.PartitionIsOrdered | lab1.cpp:54-56 | a lower-numbered worker's range ends no later than a higher-numbered worker's range starts |
| Partitioner.Owner | lab1.cpp:54-56 | every row in [0, n) lies in the range of some worker |
| Partitioner.OwnerIsUnique | lab1.cpp:54-56 | a worker's range holds a row if and only if that worker is the row's owner, so no two ranges overlap |
| Partitioner.SingleThreadIsOneWorker | lab1.cpp:46-47 | the inline call covers the same rows as a one-worker partition, [0, n) |
| TimingHarness.RunRanges | lab1.cpp:54-63 | running the kernel over a sequence of ranges keeps the matrix square and of the same size |
| TimingHarness.RunDisjointRanges | lab1.cpp:54-63 | pairwise disjoint ranges, run in sequence, update exactly the rows they cover |
| TimingHarness.ScheduledRanges | lab1.cpp:54-57 | the k-th range of a schedule is the range of the k-th worker it runs |
| TimingHarness.ScheduleIsDisjoint | lab1.cpp:54-56 | in any schedule, no two workers' ranges share a row |
| TimingHarness.ScheduleCoversAllRows | lab1.cpp:54-56 | in any schedule, the workers' ranges together cover exactly the rows [0, n) |
| TimingHarness.AnyScheduleEqualsSingleCall | lab1.cpp:46-63 | running the workers' ranges in any order leaves the same matrix as compute_product(0, N) |
| TimingHarness.ThreadCountIsInvisible | lab1.cpp:46-66 | any two thread counts, with any schedules, leave the same matrix |
| TimingHarness.MeasureExecutionTime | lab1.cpp:42-66 | with one thread, or with any thread count and any worker order, the array afterwards is a full pass ComputeProduct(old, 0, n) |
| Driver.Passes | lab1.cpp:77-82 | any number of full passes keeps the matrix square and of the same size |
| Driver.PassesKeepOffDiagonal | lab1.cpp:77-82 | no number of passes changes a cell off the anti-diagonal |
| Driver.PassesRow | lab1.cpp:77-82 | after any number of passes a row differs from the original at most in its anti-diagonal cell |
| Driver.PassesAntiDiagonal | lab1.cpp:77-82 | after k >= 1 passes, the anti-diagonal cell is the original value times the k-th power of the off-diagonal product, wrapped |
| Driver.PowerStep | lab1.cpp:35 | multiplying one more factor into a wrapped power gives the wrapped next power |
| Driver.FreshMatrixAfterPasses | lab1.cpp:74-82 | on a freshly filled matrix, after k >= 1 passes, the anti-diagonal cell is the k-th power of the off-diagonal product, wrapped |
| Driver.RunConfigurations | lab1.cpp:76-83 | after the inline configuration and then each listed configuration, the array holds its contents before the call after 1 + (number of configurations) passes |
| Driver.RunBenchmark | lab1.cpp:73-86 | for any draws and any runnable configurations, the array ends as the filled matrix after 1 + (number of configurations) passes |

## Left out

- Threads: creating, launching and joining them, and the `new`/`delete` thread pool (lab1.cpp:50, 57, 61-65). They are modelled by their sequential equivalent: the worker ranges run one after another, in an arbitrary order given as a schedule. Finer interleavings are not modelled. They are harmless because the rows are disjoint and each row reads only its own cells.
- Wall-clock timing and the `double` elapsed value (lab1.cpp:43, 68-69): floating point, and not part of the matrix's behaviour.
- All `cout` output (lab1.cpp:70, 76, 81): I/O.
- `srand(time(0))` and `rand()` (lab1.cpp:17, 24): a clock and a foreign random source. The draws are a parameter `draws: seq<nat>` of raw non-negative `rand()` results, consumed row by row and left to right, skipping the anti-diagonal. Any upper bound `RAND_MAX` is not modelled, because no property depends on it.
- The fixed size 20000 and the global array (lab1.cpp:12-13): the matrix is an `array2<Int32>` of any square size n passed to the methods, and the model's n plays the role of `MATRIX_SIZE`.
- The thread-count list {4, 8, 16, 32, 64, 128, 256} of `main` (lab1.cpp:79): `RunBenchmark` takes any list of configurations, each a thread count with a worker order.
- TimingHarness.MeasureExecutionTime: the C++ function takes the kernel as a function pointer `func` (lab1.cpp:42, 47, 57). The model calls the kernel directly, because `main` only ever passes `compute_product`, so no behaviour is lost.
- TimingHarness.MeasureExecutionTime: requires `threads >= 1`. For `threads <= 0` the C++ body divides by zero or allocates a negative-sized array, which is undefined behaviour or an exception, not a result.
- RowProductKernel.ComputeProductInPlace: for a non-empty range it requires `0 <= start` and `end <= n`, because the C++ kernel would index outside the matrix. An empty range (`end <= start`) is accepted wherever it lies and changes nothing, as in C++.
- Int32Arith.Wrap32: signed overflow is undefined behaviour in C++. The model fixes the usual two's-complement wrap-around that the benchmark relies on, since a row of 20000 factors in [1, 10] overflows.
