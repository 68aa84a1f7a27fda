/** `main`: fill the matrix once, then run one configuration after another on
    the same matrix, first inline and then with each thread count of a list.
    Nothing resets the matrix between configurations, so every configuration
    is one more pass of the kernel over all rows. */
module Driver {
  import opened Int32Arith
  import opened MatrixStore
  import opened RowProductKernel
  import opened Partitioner
  import opened TimingHarness

  /** The matrix after `k` full passes of the kernel. */
  function Passes(g: Grid, k: nat): (h: Grid)
    requires IsSquare(g)
    ensures IsSquare(h) && |h| == |g|
  {
    if k == 0 then g else ComputeProduct(Passes(g, k - 1), 0, |g|)
  }

  function Power(x: int, k: nat): (p: int) {
    if k == 0 then 1 else Power(x, k - 1) * x
  }

  /** Passes never change a cell off the anti-diagonal. */
  lemma {:induction false} PassesKeepOffDiagonal(g: Grid, k: nat, i: int, j: int)
    requires IsSquare(g)
    requires 0 <= i < |g| && 0 <= j < |g| && j != AntiDiagonal(|g|, i)
    ensures Passes(g, k)[i][j] == g[i][j]
  {
    if k > 0 {
      PassesKeepOffDiagonal(g, k - 1, i, j);
    }
  }

  /** So after any number of passes a row differs from the original row at
      most in its anti-diagonal cell. */
  lemma PassesRow(g: Grid, k: nat, i: int)
    requires IsSquare(g)
    requires 0 <= i < |g|
    ensures Passes(g, k)[i] == g[i][AntiDiagonal(|g|, i) := Passes(g, k)[i][AntiDiagonal(|g|, i)]]
  {
    var p, a := Passes(g, k), AntiDiagonal(|g|, i);
    forall c | 0 <= c < |g| && c != a
      ensures p[i][c] == g[i][c]
    {
      PassesKeepOffDiagonal(g, k, i, c);
    }
  }

  /** After `k` passes the anti-diagonal cell of each row has had the product
      of the row's other cells multiplied in `k` times. */
  lemma {:induction false} PassesAntiDiagonal(g: Grid, k: nat, i: int)
    requires IsSquare(g)
    requires 0 <= i < |g|
    ensures var a := AntiDiagonal(|g|, i);
      Passes(g, k)[i][a] ==
      if k == 0 then g[i][a] else Wrap32(g[i][a] * Power(Product(OffDiagonal(g[i], i)), k))
  {
    if k > 0 {
      var a := AntiDiagonal(|g|, i);
      var p := Passes(g, k - 1);
      var other := Product(OffDiagonal(g[i], i));
      assert Passes(g, k)[i][a] == Wrap32(p[i][a] * other) by {
        PassesRow(g, k - 1, i);
        OffDiagonalUpdate(g[i], i, p[i][a]);
        AntiDiagonalAfterPass(p, 0, |g|, i);
      }
      PassesAntiDiagonal(g, k - 1, i);
      if k == 1 {
        assert Power(other, 1) == other;
      } else {
        PowerStep(g[i][a], other, k);
      }
    }
  }

  /** Multiplying one more factor into a wrapped power is the wrapped next power. */
  lemma PowerStep(d: int, x: int, k: nat)
    requires k >= 1
    ensures Wrap32(Wrap32(d * Power(x, k - 1)) * x) == Wrap32(d * Power(x, k))
  {
    var q := Power(x, k - 1);
    WrapMul(d * q, x);
    assert (d * q) * x == d * (q * x);
  }

  /** On a freshly filled matrix, after `k` passes the anti-diagonal cell of
      row `i` holds the `k`-th power of the product of the row's other cells,
      reduced to 32 bits; one pass gives the product itself. */
  lemma FreshMatrixAfterPasses(g: Grid, k: nat, i: int)
    requires IsFreshlyFilled(g)
    requires k >= 1 && 0 <= i < |g|
    ensures Passes(g, k)[i][AntiDiagonal(|g|, i)] == Wrap32(Power(Product(OffDiagonal(g[i], i)), k))
  {
    assert g[i][AntiDiagonal(|g|, i)] == 1;
    PassesAntiDiagonal(g, k, i);
  }

  /** One call of `measure_execution_time`: a thread count and the order in
      which its workers run (the threads' interleaving, which the program
      does not control). */
  datatype Configuration = Configuration(threads: int, order: seq<int>)

  /** A configuration the harness can run: at least one thread, and an order
      that runs each worker once. */
  ghost predicate IsRunnable(cfg: Configuration) {
    cfg.threads >= 1 && IsSchedule(cfg.order, cfg.threads)
  }

  /** `main`: fill the matrix, run the inline configuration, then one
      configuration per thread count of the list, whatever order the workers
      of each run in. The matrix ends as the filled matrix after one pass per
      configuration. */
  method RunBenchmark(m: array2<Int32>, draws: seq<nat>, configs: seq<Configuration>)
    requires m.Length0 == m.Length1
    requires |draws| >= DrawCount(m.Length0)
    requires forall c :: 0 <= c < |configs| ==> IsRunnable(configs[c])
    modifies m
    ensures Cells(m) == Passes(FilledGrid(m.Length0, draws), 1 + |configs|)
  {
    FillMatrix(m, draws);
    RunConfigurations(m, configs);
  }

  /** The configurations of `main` after the fill: the inline one, then each
      configuration of the list, each on the matrix the previous one left. */
  method RunConfigurations(m: array2<Int32>, configs: seq<Configuration>)
    requires m.Length0 == m.Length1
    requires forall c :: 0 <= c < |configs| ==> IsRunnable(configs[c])
    modifies m
    ensures Cells(m) == Passes(old(Cells(m)), 1 + |configs|)
  {
    ghost var start := Cells(m);
    assert IsSchedule([0], 1);
    MeasureExecutionTime(m, 1, [0]);
    for c := 0 to |configs|
      invariant Cells(m) == Passes(start, 1 + c)
    {
      var cfg := configs[c];
      assert IsRunnable(cfg);
      ghost var before := Cells(m);
      MeasureExecutionTime(m, cfg.threads, cfg.order);
      assert Passes(start, 1 + c + 1) == ComputeProduct(before, 0, |before|);
    }
  }
}
