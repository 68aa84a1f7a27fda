/** `measure_execution_time` without the clock: one inline kernel call over
    all rows for a single thread, otherwise one kernel call per worker range.
    The workers' concurrent execution is modelled by its sequential
    equivalent: the ranges are run one after another in an arbitrary order
    (the schedule). */
module TimingHarness {
  import opened Int32Arith
  import opened MatrixStore
  import opened RowProductKernel
  import opened Partitioner

  /** The matrix after the kernel has run over each range of `rs` in turn. */
  function RunRanges(g: Grid, rs: seq<RowRange>): (h: Grid)
    requires IsSquare(g)
    ensures IsSquare(h) && |h| == |g|
    decreases |rs|
  {
    if rs == [] then
      g
    else
      var last := rs[|rs| - 1];
      ComputeProduct(RunRanges(g, rs[..|rs| - 1]), last.start, last.end)
  }

  /** The rows visited by a sequence of ranges. */
  function Covered(rs: seq<RowRange>): (s: set<int>)
    decreases |rs|
  {
    if rs == [] then {} else Covered(rs[..|rs| - 1]) + Span(rs[|rs| - 1].start, rs[|rs| - 1].end)
  }

  lemma {:induction false} CoveredMembers(rs: seq<RowRange>, x: int)
    decreases |rs|
    ensures x in Covered(rs) <==> exists k :: 0 <= k < |rs| && rs[k].Contains(x)
  {
    if rs != [] {
      var pre := rs[..|rs| - 1];
      CoveredMembers(pre, x);
      if exists k :: 0 <= k < |pre| && pre[k].Contains(x) {
        var k :| 0 <= k < |pre| && pre[k].Contains(x);
        assert rs[k] == pre[k];
      }
      if exists k :: 0 <= k < |rs| && rs[k].Contains(x) {
        var k :| 0 <= k < |rs| && rs[k].Contains(x);
        if k < |pre| {
          assert pre[k] == rs[k];
        }
      }
    }
  }

  /** No row lies in two of the ranges. */
  ghost predicate PairwiseDisjoint(rs: seq<RowRange>) {
    forall a, b, x :: 0 <= a < b < |rs| && rs[a].Contains(x) ==> !(rs[b].Contains(x))
  }

  lemma DisjointPrefix(rs: seq<RowRange>)
    requires rs != [] && PairwiseDisjoint(rs)
    ensures PairwiseDisjoint(rs[..|rs| - 1])
  {
    var pre := rs[..|rs| - 1];
    forall a, b, x | 0 <= a < b < |pre| && pre[a].Contains(x)
      ensures !pre[b].Contains(x)
    {
      assert pre[a] == rs[a] && pre[b] == rs[b];
    }
  }

  /** The last range shares no row with the ones before it. */
  lemma LastIsApart(rs: seq<RowRange>)
    requires rs != [] && PairwiseDisjoint(rs)
    ensures Covered(rs[..|rs| - 1]) !! Span(rs[|rs| - 1].start, rs[|rs| - 1].end)
  {
    var pre := rs[..|rs| - 1];
    forall x | x in Covered(pre)
      ensures !rs[|rs| - 1].Contains(x)
    {
      CoveredMembers(pre, x);
      var k :| 0 <= k < |pre| && pre[k].Contains(x);
      assert pre[k] == rs[k];
    }
  }

  /** Running disjoint ranges one after another updates exactly the rows they
      cover, whatever their order. */
  lemma {:induction false} RunDisjointRanges(g: Grid, rs: seq<RowRange>)
    requires IsSquare(g)
    requires PairwiseDisjoint(rs)
    decreases |rs|
    ensures RunRanges(g, rs) == ApplyRows(g, Covered(rs))
  {
    if rs == [] {
      assert ApplyRows(g, {}) == g;
    } else {
      var pre, last := rs[..|rs| - 1], rs[|rs| - 1];
      DisjointPrefix(rs);
      RunDisjointRanges(g, pre);
      LastIsApart(rs);
      ComputeProductIsApplyRows(ApplyRows(g, Covered(pre)), last.start, last.end);
      ApplyRowsCompose(g, Covered(pre), Span(last.start, last.end));
    }
  }

  /** An execution order of the workers: every worker's index exactly once. */
  ghost predicate IsSchedule(order: seq<int>, threads: int) {
    && (forall k :: 0 <= k < |order| ==> 0 <= order[k] < threads)
    && (forall k, l :: 0 <= k < l < |order| ==> order[k] != order[l])
    && (forall t :: 0 <= t < threads ==> t in order)
  }

  /** The workers' ranges in the order of the schedule. */
  function ScheduledRanges(n: nat, threads: int, order: seq<int>): (rs: seq<RowRange>)
    requires threads >= 1
    requires forall k :: 0 <= k < |order| ==> 0 <= order[k] < threads
    ensures |rs| == |order|
    ensures forall k :: 0 <= k < |order| ==> rs[k] == WorkerRange(n, threads, order[k])
  {
    seq(|order|, k requires 0 <= k < |order| => WorkerRange(n, threads, order[k]))
  }

  /** In any schedule no two workers' ranges share a row ... */
  lemma ScheduleIsDisjoint(n: nat, threads: int, order: seq<int>)
    requires threads >= 1
    requires IsSchedule(order, threads)
    ensures PairwiseDisjoint(ScheduledRanges(n, threads, order))
  {
    var rs := ScheduledRanges(n, threads, order);
    forall a, b, x | 0 <= a < b < |rs| && rs[a].Contains(x)
      ensures !rs[b].Contains(x)
    {
      OwnerIsUnique(n, threads, x, order[a]);
      OwnerIsUnique(n, threads, x, order[b]);
    }
  }

  /** ... and together they cover exactly the rows [0, n). */
  lemma ScheduleCoversAllRows(n: nat, threads: int, order: seq<int>)
    requires threads >= 1
    requires IsSchedule(order, threads)
    ensures Covered(ScheduledRanges(n, threads, order)) == Span(0, n)
  {
    var rs := ScheduledRanges(n, threads, order);
    forall x
      ensures x in Covered(rs) <==> 0 <= x < n
    {
      CoveredMembers(rs, x);
      if 0 <= x < n {
        var t := Owner(n, threads, x);
        assert t in order;
        var k :| 0 <= k < |order| && order[k] == t;
        assert rs[k].Contains(x);
      }
    }
  }

  /** The property the threading depends on: running the workers' ranges in
      any order leaves the same matrix as the single call over [0, n). */
  lemma AnyScheduleEqualsSingleCall(g: Grid, threads: int, order: seq<int>)
    requires IsSquare(g)
    requires threads >= 1
    requires IsSchedule(order, threads)
    ensures RunRanges(g, ScheduledRanges(|g|, threads, order)) == ComputeProduct(g, 0, |g|)
  {
    ScheduleIsDisjoint(|g|, threads, order);
    ScheduleCoversAllRows(|g|, threads, order);
    RunDisjointRanges(g, ScheduledRanges(|g|, threads, order));
  }

  /** Two configurations with different thread counts and schedules leave the
      same matrix. */
  lemma ThreadCountIsInvisible(g: Grid, t1: int, order1: seq<int>, t2: int, order2: seq<int>)
    requires IsSquare(g)
    requires t1 >= 1 && IsSchedule(order1, t1)
    requires t2 >= 1 && IsSchedule(order2, t2)
    ensures RunRanges(g, ScheduledRanges(|g|, t1, order1)) == RunRanges(g, ScheduledRanges(|g|, t2, order2))
  {
    AnyScheduleEqualsSingleCall(g, t1, order1);
    AnyScheduleEqualsSingleCall(g, t2, order2);
  }

  /** One benchmark configuration; the workers run one after another in the
      order `order`. The call does not return before every worker is done,
      and the matrix is then that of the single-thread path. The order is
      used only when threads > 1: one thread is a plain call. */
  method MeasureExecutionTime(m: array2<Int32>, threads: int, order: seq<int>)
    requires m.Length0 == m.Length1
    requires threads >= 1
    requires threads > 1 ==> IsSchedule(order, threads)
    modifies m
    ensures Cells(m) == ComputeProduct(old(Cells(m)), 0, m.Length0)
  {
    var n := m.Length0;
    if threads == 1 {
      ComputeProductInPlace(m, 0, n);
    } else {
      ghost var g := Cells(m);
      ghost var rs := ScheduledRanges(n, threads, order);
      var k := 0;
      while k < |order|
        invariant 0 <= k <= |order|
        invariant Cells(m) == RunRanges(g, rs[..k])
      {
        var r := WorkerRange(n, threads, order[k]);
        ComputeProductInPlace(m, r.start, r.end);
        assert rs[..k + 1][..k] == rs[..k];
        k := k + 1;
      }
      assert rs[..k] == rs;
      AnyScheduleEqualsSingleCall(g, threads, order);
    }
  }
}
