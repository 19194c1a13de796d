/**
 The test loop over a generator that ends: `TestIterator` repeats the workload for a number of iterations, and each
 round of the loop draws one row, one batch of rows or one token range.

 How long the loop may go on is a parameter: `quiet` is the number of reads of the stop flag that still find it clear.
 A run nobody stops is one with a large `quiet`.
 */
module RunLoop {
  import opened Generators
  import Arithmetic

  datatype Generator = Sequential(rows: SequentialVisitAll) | Scan(ranges: RangeScan)

  function Min(a: int, b: int): int { if a < b then a else b }

  class TestIterator {
    const workload: Generator
    /** How often to go through the workload; 0 means without end. */
    const iterations: nat
    var iteration: nat

    constructor (workload: Generator, iterations: nat)
      ensures this.workload == workload && this.iterations == iterations && iteration == 0
    {
      this.workload := workload;
      this.iterations := iterations;
      iteration := 0;
    }

    function State(): object {
      match workload
      case Sequential(rows) => rows
      case Scan(ranges) => ranges
    }

    predicate WorkloadDone()
      reads State()
    {
      match workload
      case Sequential(rows) => rows.IsDone()
      case Scan(ranges) => ranges.IsDone()
    }

    /** The workload is at its first row or range. */
    ghost predicate AtStart()
      reads State()
    {
      match workload
      case Sequential(rows) => rows.Valid() && rows.AtStart()
      case Scan(ranges) => ranges.nextRange == ranges.rangeOffset
    }

    method IsDone(stopAll: bool) returns (done: bool)
      requires workload.Sequential? ==> workload.rows.Valid()
      modifies this, State()
      ensures done <==> stopAll || (old(WorkloadDone()) && old(iteration) + 1 == iterations)
      ensures if !done && old(WorkloadDone()) then AtStart() && iteration == old(iteration) + 1
              else unchanged(this) && unchanged(State())
      ensures workload.Sequential? ==> old(workload.rows.InPartition()) ==> workload.rows.InPartition()
    {
      if stopAll {
        return true;
      }
      if WorkloadDone() {
        if iteration + 1 == iterations {
          return true;
        }
        match workload {
          case Sequential(rows) => rows.Restart();
          case Scan(ranges) => ranges.Restart();
        }
        iteration := iteration + 1;
        return false;
      }
      return false;
    }
  }

  // ---- what a run attempts ----

  /** The number of operation `i` in a workload of `n` steps that starts at number `start` and is repeated. */
  function Cyclic(start: int, n: int, i: nat): int {
    start + if n >= 1 then i % n else 0
  }

  /** How many operations a run that nobody stops attempts: an empty share still gets one on every restart. */
  function Complete(n: int, iterations: nat): int
    requires iterations > 0
  {
    if n >= 1 then iterations * n else iterations - 1
  }

  function Operations(n: int, iterations: nat, quiet: nat): int {
    if iterations == 0 then quiet else Min(quiet, Complete(n, iterations))
  }

  /** Where the loop stands after `k` operations: `position` steps into pass number `iteration`. */
  ghost predicate Progress(k: nat, n: int, iterations: nat, iteration: nat, position: int) {
    && (iterations > 0 ==> iteration < iterations)
    && (if n >= 1 then k == iteration * n + position && 0 <= position <= n else k == iteration && 0 <= position)
  }

  lemma ProgressNext(k: nat, n: int, iterations: nat, iteration: nat, position: int)
    requires Progress(k, n, iterations, iteration, position)
    requires if n >= 1 then position < n else position == 0 && iteration > 0
    ensures Cyclic(0, n, k) == position
  {
    if n >= 1 {
      Arithmetic.DivModUnique(k, n, iteration, position);
    }
  }

  lemma ProgressRestart(k: nat, n: int, iterations: nat, iteration: nat, position: int)
    requires Progress(k, n, iterations, iteration, position)
    requires position >= n && iteration + 1 != iterations
    ensures n >= 1 ==> Progress(k, n, iterations, iteration + 1, 0)
    ensures n < 1 ==> Progress(k + 1, n, iterations, iteration + 1, 1)
  {
    assert (iteration + 1) * n == iteration * n + n;
  }

  lemma ProgressEnd(k: nat, n: int, iterations: nat, iteration: nat, position: int, quiet: nat)
    requires Progress(k, n, iterations, iteration, position)
    requires k == quiet || (k <= quiet && position >= n && iteration + 1 == iterations)
    ensures k == Operations(n, iterations, quiet)
  {
    if iterations > 0 && n >= 1 {
      Arithmetic.MulMonotone(iteration + 1, iterations, n);
      assert (iteration + 1) * n == iteration * n + n;
    }
  }

  // ---- one row per operation ----

  /** The key is that of row `x`; a generator that started in no partition's row may call the row by another key. */
  ghost predicate Names(key: (int, int), x: int, c: int, inPartition: bool) {
    key.0 * c + key.1 == x && (inPartition && c > 0 ==> key == Key(x, c))
  }

  /** Attempts one row per round: writes, counter updates and reads that draw one clustering key. */
  method RunRows(iter: TestIterator, quiet: nat) returns (keys: seq<(int, int)>)
    requires iter.workload.Sequential? && iter.AtStart() && iter.iteration == 0
    modifies iter, iter.workload.rows
    ensures |keys| == Operations(iter.workload.rows.rowCount, iter.iterations, quiet)
    ensures forall i | 0 <= i < |keys| ::
              Names(keys[i], Cyclic(iter.workload.rows.Start(), iter.workload.rows.rowCount, i),
                    iter.workload.rows.clusteringRowCount, old(iter.workload.rows.InPartition()))
  {
    var rows := iter.workload.rows;
    ghost var n, c, start, inPartition := rows.rowCount, rows.clusteringRowCount, rows.Start(), rows.InPartition();
    keys := [];
    var left := quiet;
    while true
      invariant rows.Valid() && |keys| + left == quiet
      invariant Progress(|keys|, n, iter.iterations, iter.iteration, rows.processedRowCount)
      invariant n >= 1 ==> rows.Cursor() == start + rows.processedRowCount
      invariant n < 1 && iter.iteration == 0 ==> |keys| == 0
      invariant inPartition ==> rows.InPartition()
      invariant forall i | 0 <= i < |keys| :: Names(keys[i], Cyclic(start, n, i), c, inPartition)
      decreases left
    {
      ghost var iteration, position := iter.iteration, rows.processedRowCount;
      var done := iter.IsDone(left == 0);
      if done {
        ProgressEnd(|keys|, n, iter.iterations, iteration, position, quiet);
        break;
      }
      left := left - 1;
      if position >= n {
        ProgressRestart(|keys|, n, iter.iterations, iteration, position);
      }
      if n >= 1 {
        ProgressNext(|keys|, n, iter.iterations, iter.iteration, rows.processedRowCount);
      }
      var pk := rows.NextPartitionKey();
      var ck := rows.NextClusteringKey();
      keys := keys + [(pk, ck)];
    }
  }

  /**
   Reads without a lower bound draw a partition key and no clustering key, so the workload never moves on: over a share
   that is not empty the loop asks for the first partition again and again until it is stopped. Only an empty share,
   which is done at every check, comes to an end.
   */
  method RunUnboundedReads(iter: TestIterator, quiet: nat) returns (pks: seq<int>)
    requires iter.workload.Sequential? && iter.AtStart() && iter.iteration == 0
    modifies iter, iter.workload.rows
    ensures |pks| == if iter.workload.rows.rowCount >= 1 then quiet
                     else Operations(iter.workload.rows.rowCount, iter.iterations, quiet)
    ensures forall i | 0 <= i < |pks| :: pks[i] == iter.workload.rows.startPartition
  {
    var rows := iter.workload.rows;
    ghost var n := rows.rowCount;
    pks := [];
    var left := quiet;
    while true
      invariant rows.Valid() && rows.AtStart()
      invariant |pks| + left == quiet
      invariant n < 1 ==> |pks| == iter.iteration && (iter.iterations > 0 ==> iter.iteration < iter.iterations)
      invariant forall i | 0 <= i < |pks| :: pks[i] == rows.startPartition
      decreases left
    {
      var done := iter.IsDone(left == 0);
      if done {
        break;
      }
      left := left - 1;
      var pk := rows.NextPartitionKey();
      pks := pks + [pk];
    }
  }

  // ---- one token range per operation ----

  /** Scans one token range per round. */
  method RunScan(iter: TestIterator, quiet: nat) returns (scanned: seq<TokenRange>)
    requires iter.workload.Scan? && iter.AtStart() && iter.iteration == 0
    requires 0 < iter.workload.ranges.totalRangeCount < GoInts.TWO_63
    modifies iter, iter.workload.ranges
    ensures var ranges := iter.workload.ranges;
            var n := ranges.rangeCount - ranges.rangeOffset;
            && |scanned| == Operations(n, iter.iterations, quiet)
            && forall i | 0 <= i < |scanned| ::
                scanned[i] == RangeAt(ranges.totalRangeCount, Cyclic(ranges.rangeOffset, n, i))
  {
    var ranges := iter.workload.ranges;
    ghost var n, start, total := ranges.rangeCount - ranges.rangeOffset, ranges.rangeOffset, ranges.totalRangeCount;
    scanned := [];
    var left := quiet;
    while true
      invariant |scanned| + left == quiet
      invariant Progress(|scanned|, n, iter.iterations, iter.iteration, ranges.nextRange - start)
      invariant n < 1 && iter.iteration == 0 ==> |scanned| == 0
      invariant forall i | 0 <= i < |scanned| :: scanned[i] == RangeAt(total, Cyclic(start, n, i))
      decreases left
    {
      ghost var iteration, position := iter.iteration, ranges.nextRange - start;
      var done := iter.IsDone(left == 0);
      if done {
        ProgressEnd(|scanned|, n, iter.iterations, iteration, position, quiet);
        break;
      }
      left := left - 1;
      if position >= n {
        ProgressRestart(|scanned|, n, iter.iterations, iteration, position);
      }
      if n >= 1 {
        ProgressNext(|scanned|, n, iter.iterations, iter.iteration, ranges.nextRange - start);
      }
      var r := ranges.NextTokenRange();
      scanned := scanned + [r];
    }
  }
}
