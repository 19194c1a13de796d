/** Batched writes: each operation sends up to `rowsPerRequest` consecutive rows of one partition. */
module Batches {
  import opened Generators
  import opened RunLoop
  import Arithmetic

  datatype Batch = Batch(pk: int, startingCk: int, size: nat)

  /** A batch by row numbers: `len` rows from row number `start` on. */
  datatype Span = Span(start: int, len: nat)

  function ToBatch(s: Span, c: int): Batch
    requires c > 0
  {
    Batch(s.start / c, s.start % c, s.len)
  }

  /** A batch ends with the partition or with the last row a request may carry. */
  function SpanAt(x: int, r: int, c: int): Span
    requires c > 0
  {
    Span(x, if r <= 0 then 0 else Min(r, c - x % c))
  }

  /** A batch is as large as the request and the partition allow: it is full, or it ends with its partition. */
  predicate Full(b: Batch, rowsPerRequest: int, c: int) {
    && 1 <= b.size <= rowsPerRequest && 0 <= b.startingCk && b.startingCk + b.size <= c
    && (b.size == rowsPerRequest || b.startingCk + b.size == c)
  }

  lemma SpanFull(x: int, r: int, c: int)
    requires r > 0 && c > 0
    ensures Full(ToBatch(SpanAt(x, r, c), c), r, c)
  {}

  /** The batches that take `todo` or slightly more rows from row number `x` on. */
  function Pass(x: int, todo: int, r: int, c: int): (pass: seq<Span>)
    requires r > 0 && c > 0
    ensures todo > 0 <==> pass != []
    decreases if todo > 0 then todo else 0
  {
    if todo <= 0 then []
    else
      var s := SpanAt(x, r, c);
      [s] + Pass(x + s.len, todo - s.len, r, c)
  }

  /** The batches of a pass are as large as can be, and each begins where the one before ended. */
  ghost predicate InTurn(pass: seq<Span>, x: int, r: int, c: int)
    requires c > 0
  {
    && (pass != [] ==> pass[0].start == x)
    && (forall i | 0 <= i < |pass| :: Full(ToBatch(pass[i], c), r, c))
    && forall i | 0 < i < |pass| :: pass[i].start == pass[i - 1].start + pass[i - 1].len
  }

  lemma {:induction false} PassInTurn(x: int, todo: int, r: int, c: int)
    requires r > 0 && c > 0
    ensures InTurn(Pass(x, todo, r, c), x, r, c)
    decreases if todo > 0 then todo else 0
  {
    if todo > 0 {
      var s := SpanAt(x, r, c);
      SpanFull(x, r, c);
      PassInTurn(x + s.len, todo - s.len, r, c);
    }
  }

  lemma SharePassFull(start: int, n: int, r: int, c: int)
    requires r > 0 && c > 0
    ensures forall i | 0 <= i < |SharePass(start, n, r, c)| :: Full(ToBatch(SharePass(start, n, r, c)[i], c), r, c)
  {
    PassInTurn(start, n, r, c);
    SpanFull(start, r, c);
  }

  /** The batches of one pass over a share of `n` rows; an empty share still sends one on every restart. */
  function SharePass(start: int, n: int, r: int, c: int): (pass: seq<Span>)
    requires r > 0 && c > 0
    ensures pass != []
  {
    if n >= 1 then Pass(start, n, r, c) else [SpanAt(start, r, c)]
  }

  /** How many batches a run that nobody stops sends. */
  function CompleteBatches(start: int, n: int, r: int, c: int, iterations: nat): int
    requires r > 0 && c > 0 && iterations > 0
  {
    if n >= 1 then iterations * |Pass(start, n, r, c)| else iterations - 1
  }

  /**
   One operation. The stop flag is read before each row: `quiet` is how many reads find it clear. A batch that is cut
   short is dropped, and so is an empty one.
   */
  method DrawBatch(rows: SequentialVisitAll, rowsPerRequest: int, quiet: nat)
    returns (written: bool, batch: Batch, left: nat)
    requires rows.Valid() && rows.InPartition()
    modifies rows
    ensures rows.Valid() && rows.InPartition()
    ensures written ==>
              && 1 <= batch.size <= rowsPerRequest && 0 <= batch.startingCk
              && (batch.size == rowsPerRequest || batch.startingCk + batch.size == rows.clusteringRowCount)
    ensures !written && rowsPerRequest > 0 ==> left == 0
    ensures var s := SpanAt(old(rows.Cursor()), rowsPerRequest, rows.clusteringRowCount);
            && (written <==> 0 < s.len <= quiet)
            && (written ==>
                  && batch == ToBatch(s, rows.clusteringRowCount) && left == quiet - s.len
                  && rows.Cursor() == old(rows.Cursor()) + s.len
                  && rows.processedRowCount == old(rows.processedRowCount) + s.len)
            && (!written && s.len > 0 ==> left == 0)
            && (s.len == 0 ==> left == quiet && rows.Cursor() == old(rows.Cursor())
                               && rows.processedRowCount == old(rows.processedRowCount))
  {
    var currentPk := rows.NextPartitionKey();
    var batchSize, startingCk := 0, 0;
    left := quiet;
    ghost var first := rows.nextClusteringRow;
    while !rows.IsPartitionDone() && batchSize < rowsPerRequest
      invariant rows.Valid() && rows.InPartition() && rows.nextPartition == currentPk
      invariant rows.nextClusteringRow == first + batchSize
      invariant rows.processedRowCount == old(rows.processedRowCount) + batchSize
      invariant batchSize > 0 ==> startingCk == first && batchSize <= rowsPerRequest
      invariant 0 <= batchSize && left == quiet - batchSize
      decreases rows.clusteringRowCount - rows.nextClusteringRow
    {
      if left == 0 {
        return false, Batch(0, 0, 0), left;
      }
      left := left - 1;
      var ck := rows.NextClusteringKey();
      if batchSize == 0 {
        startingCk := ck;
      }
      batchSize := batchSize + 1;
    }
    if batchSize == 0 {
      return false, Batch(0, 0, 0), left;
    }
    return true, Batch(currentPk, startingCk, batchSize), left;
  }

  /** `j` batches of the current pass have been sent, and they took `done` rows. */
  ghost predicate PassProgress(k: nat, start: int, n: int, r: int, c: int, iteration: nat, j: nat, done: int)
    requires r > 0 && c > 0
  {
    var pass := Pass(start, n, r, c);
    j <= |pass| && k == iteration * |pass| + j && pass[j..] == Pass(start + done, n - done, r, c)
  }

  lemma BatchNext(k: nat, start: int, n: int, r: int, c: int, iteration: nat, j: nat, done: int)
    requires r > 0 && c > 0 && n >= 1 && done < n
    requires PassProgress(k, start, n, r, c, iteration, j, done)
    ensures var s, pass := SpanAt(start + done, r, c), Pass(start, n, r, c);
            s == pass[k % |pass|] && PassProgress(k + 1, start, n, r, c, iteration, j + 1, done + s.len)
  {
    var pass, s := Pass(start, n, r, c), SpanAt(start + done, r, c);
    assert pass[j..] == [s] + Pass(start + done + s.len, n - done - s.len, r, c);
    assert pass[j] == s && pass[j..][1..] == pass[j + 1..];
    Arithmetic.DivModUnique(k, |pass|, iteration, j);
  }

  lemma BatchRestart(k: nat, start: int, n: int, r: int, c: int, iteration: nat, j: nat, done: int)
    requires r > 0 && c > 0 && n >= 1 && done >= n
    requires PassProgress(k, start, n, r, c, iteration, j, done)
    ensures j == |Pass(start, n, r, c)|
    ensures k == (iteration + 1) * |Pass(start, n, r, c)|
    ensures PassProgress(k, start, n, r, c, iteration + 1, 0, 0)
  {
    var m := |Pass(start, n, r, c)|;
    assert (iteration + 1) * m == iteration * m + m;
  }

  /** Where the loop stands after `k` batches. */
  ghost predicate BatchProgress(k: nat, start: int, n: int, r: int, c: int, iterations: nat, iteration: nat, j: nat,
                                done: int)
    requires r > 0 && c > 0
  {
    && (iterations > 0 ==> iteration < iterations)
    && if n >= 1 then PassProgress(k, start, n, r, c, iteration, j, done) else k == iteration && 0 <= done
  }

  lemma BatchEnd(k: nat, start: int, n: int, r: int, c: int, iterations: nat, iteration: nat, j: nat, done: int)
    requires r > 0 && c > 0
    requires BatchProgress(k, start, n, r, c, iterations, iteration, j, done)
    ensures iterations > 0 ==> k <= CompleteBatches(start, n, r, c, iterations)
    ensures iterations > 0 && done >= n && iteration + 1 == iterations ==>
              k == CompleteBatches(start, n, r, c, iterations)
  {
    if iterations > 0 && n >= 1 {
      var m := |Pass(start, n, r, c)|;
      Arithmetic.MulMonotone(iteration + 1, iterations, m);
      assert (iteration + 1) * m == iteration * m + m;
    }
  }

  /** Sends one batch per round, for the whole run. */
  method RunBatches(iter: TestIterator, rowsPerRequest: int, quiet: nat) returns (batches: seq<Batch>)
    requires iter.workload.Sequential? && iter.AtStart() && iter.iteration == 0
    requires iter.workload.rows.InPartition()
    modifies iter, iter.workload.rows
    ensures rowsPerRequest <= 0 ==> batches == []
    ensures forall b | b in batches ::
              && 1 <= b.size <= rowsPerRequest && 0 <= b.startingCk
              && (b.size == rowsPerRequest || b.startingCk + b.size == iter.workload.rows.clusteringRowCount)
    ensures rowsPerRequest > 0 ==>
              var rows := iter.workload.rows;
              Explained(batches, rows.Start(), rows.rowCount, rowsPerRequest, rows.clusteringRowCount, iter.iterations,
                        quiet)
  {
    if rowsPerRequest > 0 {
      batches := RunNonEmptyBatches(iter, rowsPerRequest, quiet);
      ExplainedFull(batches, iter.workload.rows.Start(), iter.workload.rows.rowCount, rowsPerRequest,
        iter.workload.rows.clusteringRowCount, iter.iterations, quiet);
      return;
    }
    var rows := iter.workload.rows;
    var left := quiet;
    while true
      invariant rows.Valid() && rows.InPartition()
      decreases left
    {
      var done := iter.IsDone(left == 0);
      if done {
        return [];
      }
      var written, batch, left' := DrawBatch(rows, rowsPerRequest, left - 1);
      left := left';
    }
  }

  /** How often the first `k` batches of a pass sent again and again read the stop flag: once a round and once a row. */
  function Reads(pass: seq<Span>, k: nat): nat
    requires pass != []
  {
    if k == 0 then 0 else Reads(pass, k - 1) + 1 + pass[(k - 1) % |pass|].len
  }

  /** Batch number `k` of a pass sent again and again takes the rows `s`. */
  ghost predicate IsNext(pass: seq<Span>, k: nat, s: Span) { pass != [] && s == pass[k % |pass|] }

  lemma ReadOn(pass: seq<Span>, k: nat, s: Span)
    requires IsNext(pass, k, s)
    ensures Reads(pass, k + 1) == Reads(pass, k) + 1 + s.len
  {}

  /** The batches are the pass again and again, as many as the run and the reads of the stop flag allow. */
  ghost predicate Explained(batches: seq<Batch>, start: int, n: int, r: int, c: int, iterations: nat, quiet: nat)
    requires r > 0 && c > 0
  {
    var pass := SharePass(start, n, r, c);
    && (forall i | 0 <= i < |batches| :: batches[i] == ToBatch(pass[i % |pass|], c))
    && (iterations > 0 ==> |batches| <= CompleteBatches(start, n, r, c, iterations))
    && Reads(pass, |batches|) <= quiet
    && ((iterations > 0 && |batches| == CompleteBatches(start, n, r, c, iterations))
        || quiet < Reads(pass, |batches| + 1))
  }

  lemma ExplainedFull(batches: seq<Batch>, start: int, n: int, r: int, c: int, iterations: nat, quiet: nat)
    requires r > 0 && c > 0 && Explained(batches, start, n, r, c, iterations, quiet)
    ensures forall b | b in batches :: Full(b, r, c)
  {
    SharePassFull(start, n, r, c);
    forall b | b in batches
      ensures Full(b, r, c)
    {
      var i :| 0 <= i < |batches| && batches[i] == b;
      var pass := SharePass(start, n, r, c);
      assert 0 <= i % |pass| < |pass|;
    }
  }

  /** What has been sent so far is the start of the repeated pass, and the loop stands where it says. */
  ghost predicate Stage(batches: seq<Batch>, start: int, n: int, r: int, c: int, iterations: nat, iteration: nat,
                        j: nat, done: int)
    requires r > 0 && c > 0
  {
    var pass := SharePass(start, n, r, c);
    && BatchProgress(|batches|, start, n, r, c, iterations, iteration, j, done)
    && forall i | 0 <= i < |batches| :: batches[i] == ToBatch(pass[i % |pass|], c)
  }

  /** One round of the loop, in which a finished pass is begun again. */
  lemma Round(batches: seq<Batch>, start: int, n: int, r: int, c: int, iterations: nat, iteration: nat, j: nat,
              done: int) returns (j': nat)
    requires r > 0 && c > 0
    requires Stage(batches, start, n, r, c, iterations, iteration, j, done)
    requires !(done >= n && iteration + 1 == iterations)
    requires n < 1 ==> done >= n
    ensures var from := if done >= n then 0 else done;
            var s := SpanAt(start + from, r, c);
            var pass := SharePass(start, n, r, c);
            && IsNext(pass, |batches|, s)
            && Stage(batches + [ToBatch(s, c)], start, n, r, c, iterations,
                     if done >= n then iteration + 1 else iteration, j', from + s.len)
  {
    var from, iteration', k := if done >= n then 0 else done, if done >= n then iteration + 1 else iteration, |batches|;
    var s, pass := SpanAt(start + from, r, c), SharePass(start, n, r, c);
    j' := j + 1;
    if n >= 1 {
      if done >= n {
        BatchRestart(k, start, n, r, c, iteration, j, done);
        j' := 1;
      }
      BatchNext(k, start, n, r, c, iteration', j' - 1, from);
    }
    assert pass[k % |pass|] == s;
  }

  /** Where the loop stands: how far the generator is, and how many reads of the stop flag are left. */
  ghost predicate Standing(batches: seq<Batch>, start: int, n: int, r: int, c: int, iterations: nat, iteration: nat,
                           j: nat, done: int, cursor: int, quiet: nat, left: nat)
    requires r > 0 && c > 0
  {
    && Stage(batches, start, n, r, c, iterations, iteration, j, done)
    && Reads(SharePass(start, n, r, c), |batches|) == quiet - left
    && (done < n ==> cursor == start + done)
  }

  /** The run ends at the head of the loop: the flag is up, or the last pass is done. */
  lemma Ended(batches: seq<Batch>, start: int, n: int, r: int, c: int, iterations: nat, iteration: nat, j: nat,
              done: int, cursor: int, quiet: nat, left: nat)
    requires r > 0 && c > 0
    requires Standing(batches, start, n, r, c, iterations, iteration, j, done, cursor, quiet, left)
    requires left == 0 || (done >= n && iteration + 1 == iterations)
    ensures Explained(batches, start, n, r, c, iterations, quiet)
  {
    BatchEnd(|batches|, start, n, r, c, iterations, iteration, j, done);
  }

  lemma Dropped(batches: seq<Batch>, start: int, n: int, r: int, c: int, iterations: nat, iteration: nat, j: nat,
                done: int, quiet: nat, left: nat, s: Span)
    requires r > 0 && c > 0
    requires Stage(batches, start, n, r, c, iterations, iteration, j, done)
    requires Reads(SharePass(start, n, r, c), |batches|) == quiet - left
    requires IsNext(SharePass(start, n, r, c), |batches|, s) && left <= s.len
    ensures Explained(batches, start, n, r, c, iterations, quiet)
  {
    ReadOn(SharePass(start, n, r, c), |batches|, s);
    BatchEnd(|batches|, start, n, r, c, iterations, iteration, j, done);
  }

  /** The run goes on with the next batch or, if the flag is up before all its rows are drawn, drops it and ends. */
  lemma Sent(batches: seq<Batch>, start: int, n: int, r: int, c: int, iterations: nat, iteration: nat, j: nat,
             done: int, cursor: int, quiet: nat, left: nat) returns (s: Span, j': nat)
    requires r > 0 && c > 0 && left > 0
    requires Standing(batches, start, n, r, c, iterations, iteration, j, done, cursor, quiet, left)
    requires !(done >= n && iteration + 1 == iterations)
    ensures s == SpanAt(start + if done >= n then 0 else done, r, c) && 0 < s.len
    ensures s.len < left ==>
              Standing(batches + [ToBatch(s, c)], start, n, r, c, iterations,
                       if done >= n then iteration + 1 else iteration, j', s.start - start + s.len, s.start + s.len,
                       quiet, left - 1 - s.len)
    ensures left <= s.len ==> Explained(batches, start, n, r, c, iterations, quiet)
  {
    s := SpanAt(start + if done >= n then 0 else done, r, c);
    j' := Round(batches, start, n, r, c, iterations, iteration, j, done);
    ReadOn(SharePass(start, n, r, c), |batches|, s);
    if left <= s.len {
      Dropped(batches, start, n, r, c, iterations, iteration, j, done, quiet, left, s);
    }
  }

  /** One round of the loop after its check, which has begun a finished pass again. */
  method SendBatch(rows: SequentialVisitAll, r: int, left: nat, ghost batches: seq<Batch>, ghost iterations: nat,
                   ghost iteration: nat, ghost j: nat, ghost done: int, ghost cursor: int, ghost quiet: nat)
    returns (written: bool, batch: Batch, left': nat, ghost j': nat)
    requires r > 0 && left > 0 && rows.Valid() && rows.InPartition()
    requires Standing(batches, rows.Start(), rows.rowCount, r, rows.clusteringRowCount, iterations, iteration, j, done,
                      cursor, quiet, left)
    requires !(done >= rows.rowCount && iteration + 1 == iterations)
    requires rows.processedRowCount == if done >= rows.rowCount then 0 else done
    requires rows.Cursor() == rows.Start() + rows.processedRowCount
    modifies rows
    ensures rows.Valid() && rows.InPartition()
    ensures if written then
              left' < left && Standing(batches + [batch], rows.Start(), rows.rowCount, r, rows.clusteringRowCount,
                iterations, if done >= rows.rowCount then iteration + 1 else iteration, j', rows.processedRowCount,
                rows.Cursor(), quiet, left')
            else Explained(batches, rows.Start(), rows.rowCount, r, rows.clusteringRowCount, iterations, quiet)
  {
    ghost var s, j'' := Sent(batches, rows.Start(), rows.rowCount, r, rows.clusteringRowCount, iterations, iteration, j,
                             done, cursor, quiet, left);
    j' := j'';
    assert s == SpanAt(rows.Cursor(), r, rows.clusteringRowCount);
    written, batch, left' := DrawBatch(rows, r, left - 1);
    if written {
      assert rows.Cursor() == s.start + s.len;
    }
  }

  method RunNonEmptyBatches(iter: TestIterator, r: int, quiet: nat) returns (batches: seq<Batch>)
    requires r > 0
    requires iter.workload.Sequential? && iter.AtStart() && iter.iteration == 0
    requires iter.workload.rows.InPartition()
    modifies iter, iter.workload.rows
    ensures var rows := iter.workload.rows;
            Explained(batches, rows.Start(), rows.rowCount, r, rows.clusteringRowCount, iter.iterations, quiet)
  {
    var rows := iter.workload.rows;
    ghost var n, c, start, j: nat := rows.rowCount, rows.clusteringRowCount, rows.Start(), 0;
    batches := [];
    var left := quiet;
    while true
      invariant rows.Valid() && rows.InPartition()
      invariant Standing(batches, start, n, r, c, iter.iterations, iter.iteration, j, rows.processedRowCount,
                         rows.Cursor(), quiet, left)
      decreases left
    {
      ghost var iteration, done, cursor := iter.iteration, rows.processedRowCount, rows.Cursor();
      var end := iter.IsDone(left == 0);
      if end {
        Ended(batches, start, n, r, c, iter.iterations, iteration, j, done, cursor, quiet, left);
        break;
      }
      var written, batch, left', j' := SendBatch(rows, r, left, batches, iter.iterations, iteration, j, done, cursor,
                                                 quiet);
      if !written {
        // The batch is dropped, and the flag that cut it short ends the loop at its next round.
        var stopped := iter.IsDone(true);
        return;
      }
      left, j := left', j';
      batches := batches + [batch];
    }
  }
}
