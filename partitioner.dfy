/** The static split of the row range among worker threads in
    `measure_execution_time`: every worker gets `n / threads` rows and the
    last one also takes the remainder. */
module Partitioner {

  /** A half-open range [start, end) of row indices. */
  datatype RowRange = RowRange(start: int, end: int) {
    predicate Contains(row: int) {
      start <= row < end
    }
  }

  /** The rows handed to each worker but the last. */
  function ChunkSize(n: nat, threads: int): (chunk: nat)
    requires threads >= 1
    ensures chunk * threads <= n < (chunk + 1) * threads
  {
    var q := n / threads;
    QuotientBounds(n, threads);
    q
  }

  /** The range of worker `i` out of `threads` over `n` rows. */
  function WorkerRange(n: nat, threads: int, i: int): (r: RowRange)
    requires threads >= 1 && 0 <= i < threads
    ensures 0 <= r.start <= r.end <= n
  {
    var chunk := ChunkSize(n, threads);
    ChunkBounds(n, threads, i);
    RowRange(i * chunk, if i == threads - 1 then n else (i + 1) * chunk)
  }

  /** All the chunks up to and including the `(i + 1)`-th fit in the `n` rows. */
  lemma ChunkBounds(n: nat, threads: int, i: int)
    requires threads >= 1 && 0 <= i < threads
    ensures 0 <= i * ChunkSize(n, threads) <= (i + 1) * ChunkSize(n, threads) <= n
  {
    var chunk := ChunkSize(n, threads);
    assert threads * chunk <= n;
    assert (i + 1) * chunk <= threads * chunk by {
      MulMonotone(i + 1, threads, chunk);
    }
  }

  lemma MulMonotone(a: int, b: int, k: nat)
    requires a <= b
    ensures a * k <= b * k
  {
    var d: nat := b - a;
    assert b * k == a * k + d * k;
  }

  /** Worker `i` starts at `i` chunks; every worker except the last ends one
      chunk later, and the last ends at `n`. */
  lemma WorkerRangeBounds(n: nat, threads: int, i: int)
    requires threads >= 1 && 0 <= i < threads
    ensures WorkerRange(n, threads, i).start == i * (n / threads)
    ensures i < threads - 1 ==> WorkerRange(n, threads, i).end == (i + 1) * (n / threads)
    ensures i == threads - 1 ==> WorkerRange(n, threads, i).end == n
  {
  }

  /** The ranges follow each other without gap or overlap from row 0 to row n. */
  lemma PartitionIsContiguous(n: nat, threads: int)
    requires threads >= 1
    ensures WorkerRange(n, threads, 0).start == 0
    ensures WorkerRange(n, threads, threads - 1).end == n
    ensures forall i :: 0 <= i < threads - 1 ==> WorkerRange(n, threads, i).end == WorkerRange(n, threads, i + 1).start
  {
  }

  /** The first `threads - 1` ranges hold one chunk each; the last holds the
      rest: one chunk plus the `n % threads` leftover rows. */
  lemma PartitionLengths(n: nat, threads: int, i: int)
    requires threads >= 1 && 0 <= i < threads
    ensures var r := WorkerRange(n, threads, i);
      r.end - r.start == if i < threads - 1 then n / threads else n - (threads - 1) * (n / threads)
    ensures var r := WorkerRange(n, threads, i);
      n / threads <= r.end - r.start < n / threads + threads
  {
    var chunk := n / threads;
    var r := WorkerRange(n, threads, i);
    if i < threads - 1 {
      assert r.end - r.start == (i + 1) * chunk - i * chunk;
    } else {
      assert n == threads * chunk + n % threads;
      assert r.end - r.start == n - (threads - 1) * chunk;
      assert n - (threads - 1) * chunk == chunk + n % threads;
    }
  }

  /** Ranges of different workers start apart in the order of the workers. */
  lemma {:induction false} PartitionIsOrdered(n: nat, threads: int, i: int, j: int)
    requires threads >= 1 && 0 <= i < j < threads
    ensures WorkerRange(n, threads, i).end <= WorkerRange(n, threads, j).start
  {
    MulMonotone(i + 1, j, n / threads);
  }

  /** The worker whose range holds `row`. */
  function Owner(n: nat, threads: int, row: int): (i: int)
    requires threads >= 1 && 0 <= row < n
    ensures 0 <= i < threads
    ensures WorkerRange(n, threads, i).Contains(row)
  {
    var chunk := ChunkSize(n, threads);
    if chunk == 0 then
      threads - 1
    else
      var q := row / chunk;
      QuotientBounds(row, chunk);
      if q >= threads - 1 then
        MulMonotone(threads - 1, q, chunk);
        threads - 1
      else
        q
  }

  /** Row `row` lies in the `row / chunk`-th chunk. */
  lemma QuotientBounds(row: nat, chunk: nat)
    requires chunk > 0
    ensures (row / chunk) * chunk <= row < (row / chunk + 1) * chunk
  {
    assert row == (row / chunk) * chunk + row % chunk;
  }

  /** Each row belongs to exactly one worker: the ranges cover [0, n) and no two
      of them share a row. */
  lemma {:induction false} OwnerIsUnique(n: nat, threads: int, row: int, i: int)
    requires threads >= 1 && 0 <= row < n && 0 <= i < threads
    ensures WorkerRange(n, threads, i).Contains(row) <==> i == Owner(n, threads, row)
  {
    var o := Owner(n, threads, row);
    if i < o {
      PartitionIsOrdered(n, threads, i, o);
    } else if o < i {
      PartitionIsOrdered(n, threads, o, i);
    }
  }

  /** The inline single-thread call `func(0, N)` covers the same rows as the
      one-worker partition would. */
  lemma SingleThreadIsOneWorker(n: nat)
    ensures WorkerRange(n, 1, 0) == RowRange(0, n)
  {
  }
}
