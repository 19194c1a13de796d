/** Batched sequential writes by a whole fleet: a thread may run past its share, but never past its partition. */
module BatchFleet {
  import opened GoInts
  import opened Generators
  import opened RunLoop
  import opened Batches
  import opened SequentialFleet
  import Arithmetic

  ghost predicate Covers(pass: seq<Span>, y: int) {
    exists i | 0 <= i < |pass| :: InSpan(pass[i], y)
  }

  predicate InSpan(s: Span, y: int) { s.start <= y < s.start + s.len }

  /** The row number one pass stops at. */
  function PassEnd(x: int, todo: int, r: int, c: int): int
    requires r > 0 && c > 0
    decreases if todo > 0 then todo else 0
  {
    if todo <= 0 then x else PassEnd(x + SpanAt(x, r, c).len, todo - SpanAt(x, r, c).len, r, c)
  }

  lemma SpanBounds(x: int, r: int, c: int)
    requires r > 0 && c > 0
    ensures 1 <= SpanAt(x, r, c).len <= r
    ensures x + SpanAt(x, r, c).len <= (x / c + 1) * c
    ensures (x + SpanAt(x, r, c).len - 1) / c == x / c
  {
    assert x == (x / c) * c + x % c;
    assert (x / c + 1) * c == (x / c) * c + c;
    Arithmetic.DivBetween(x + SpanAt(x, r, c).len - 1, c, x / c);
  }

  lemma PassEndAfter(x: int, todo: int, r: int, c: int)
    requires r > 0 && c > 0
    ensures x <= PassEnd(x, todo, r, c)
    decreases if todo > 0 then todo else 0
  {
    if todo > 0 {
      PassEndAfter(x + SpanAt(x, r, c).len, todo - SpanAt(x, r, c).len, r, c);
    }
  }

  /** The batches of a pass cover exactly the rows from its start to its end. */
  lemma {:induction false} PassCovers(x: int, todo: int, r: int, c: int, y: int)
    requires r > 0 && c > 0
    ensures Covers(Pass(x, todo, r, c), y) <==> x <= y < PassEnd(x, todo, r, c)
    decreases if todo > 0 then todo else 0
  {
    if todo > 0 {
      var s := SpanAt(x, r, c);
      var rest := Pass(x + s.len, todo - s.len, r, c);
      PassCovers(x + s.len, todo - s.len, r, c, y);
      PassEndAfter(x + s.len, todo - s.len, r, c);
      CoversCons(s, rest, y);
    }
  }

  lemma CoversCons(s: Span, rest: seq<Span>, y: int)
    ensures Covers([s] + rest, y) <==> InSpan(s, y) || Covers(rest, y)
  {
    var all := [s] + rest;
    if InSpan(s, y) {
      assert InSpan(all[0], y);
    }
    if Covers(rest, y) {
      var i :| 0 <= i < |rest| && InSpan(rest[i], y);
      assert InSpan(all[i + 1], y);
    }
    if Covers(all, y) {
      var i :| 0 <= i < |all| && InSpan(all[i], y);
      if i > 0 {
        assert InSpan(rest[i - 1], y);
      }
    }
  }

  /** A pass does its share, overshoots it by less than one request, and stays in the share's last partition. */
  lemma {:induction false} PassEndBounds(x: int, todo: int, r: int, c: int)
    requires r > 0 && c > 0 && todo > 0
    ensures x + todo <= PassEnd(x, todo, r, c) < x + todo + r
    ensures PassEnd(x, todo, r, c) <= ((x + todo - 1) / c + 1) * c
    decreases todo
  {
    var len := SpanAt(x, r, c).len;
    SpanBounds(x, r, c);
    if todo > len {
      PassEndBounds(x + len, todo - len, r, c);
    } else {
      Arithmetic.DivMonotone(x, x + todo - 1, c);
      Arithmetic.MulMonotone(x / c + 1, (x + todo - 1) / c + 1, c);
    }
  }

  // ---- the fleet ----

  /** Whether a thread that nobody stops sends row `y` in some batch. */
  ghost predicate ThreadWrites(l: Load, thread: int, r: int, iterations: nat, y: int)
    requires l.Valid() && 0 <= thread < l.threads && r > 0 && iterations > 0
  {
    var share := GetShare(l, thread);
    var pass := SharePass(share.rowOffset, share.rowCount, r, l.c);
    exists i | 0 <= i < CompleteBatches(share.rowOffset, share.rowCount, r, l.c, iterations) ::
      InSpan(pass[i % |pass|], y)
  }

  lemma {:induction false} ReadsMonotone(pass: seq<Span>, i: nat, j: nat)
    requires pass != [] && i <= j
    ensures Reads(pass, i) <= Reads(pass, j)
  {
    if i < j {
      ReadsMonotone(pass, i, j - 1);
    }
  }

  /**
   A thread from the split of the table to the end of the loop: it sends its pass again and again, as long as the stop
   flag lets it, and to the end if the flag stays clear for all the reads that takes.
   */
  method RunBatchThread(l: Load, thread: int, r: int, iterations: nat, quiet: nat) returns (batches: seq<Batch>)
    requires l.Valid() && 0 <= thread < l.threads && r > 0 && iterations > 0
    ensures var share := GetShare(l, thread);
            var pass := SharePass(share.rowOffset, share.rowCount, r, l.c);
            var all := CompleteBatches(share.rowOffset, share.rowCount, r, l.c, iterations);
            && Explained(batches, share.rowOffset, share.rowCount, r, l.c, iterations, quiet)
            && 0 <= all && (|batches| == all <==> Reads(pass, all) <= quiet)
  {
    var rows := GetSequentialWorkload(l, thread);
    ShareExact(l, thread);
    ShareBounds(l, thread);
    var iter := new TestIterator(Sequential(rows), iterations);
    batches := RunBatches(iter, r, quiet);
    ghost var pass := SharePass(rows.Start(), rows.rowCount, r, l.c);
    ghost var all := CompleteBatches(rows.Start(), rows.rowCount, r, l.c, iterations);
    if |batches| < all {
      ReadsMonotone(pass, |batches| + 1, all);
    }
  }

  ghost predicate FleetWrites(l: Load, r: int, iterations: nat, y: int)
    requires l.Valid() && r > 0 && iterations > 0
  {
    exists thread | 0 <= thread < l.threads :: ThreadWrites(l, thread, r, iterations, y)
  }

  lemma ThreadWritesPass(l: Load, thread: int, r: int, iterations: nat, y: int)
    requires l.Valid() && 0 <= thread < l.threads && r > 0 && iterations > 0
    requires GetShare(l, thread).rowCount >= 1
    ensures ThreadWrites(l, thread, r, iterations, y)
            <==> Boundary(l, thread) <= y < PassEnd(Boundary(l, thread), GetShare(l, thread).rowCount, r, l.c)
  {
    var share := GetShare(l, thread);
    ShareExact(l, thread);
    var pass := Pass(share.rowOffset, share.rowCount, r, l.c);
    PassCovers(share.rowOffset, share.rowCount, r, l.c, y);
    Arithmetic.MulMonotone(1, iterations, |pass|);
    if Covers(pass, y) {
      var i :| 0 <= i < |pass| && InSpan(pass[i], y);
      Arithmetic.DivModUnique(i, |pass|, 0, i);
      assert InSpan(pass[i % |pass|], y);
    }
  }

  /** A thread writes nothing beyond the end of the table. */
  lemma PassInTable(l: Load, thread: int, r: int)
    requires l.Valid() && 0 <= thread < l.threads && r > 0
    requires GetShare(l, thread).rowCount >= 1
    ensures Boundary(l, thread + 1) <= PassEnd(Boundary(l, thread), GetShare(l, thread).rowCount, r, l.c)
    ensures PassEnd(Boundary(l, thread), GetShare(l, thread).rowCount, r, l.c) < Boundary(l, thread + 1) + r
    ensures PassEnd(Boundary(l, thread), GetShare(l, thread).rowCount, r, l.c) <= (l.offset + l.partitions) * l.c
  {
    var start, n := Boundary(l, thread), GetShare(l, thread).rowCount;
    NextBoundary(l, thread);
    ShareBounds(l, thread + 1);
    PassEndBounds(start, n, r, l.c);
    Arithmetic.PartitionEnd(start + n - 1, l.c, l.offset + l.partitions);
  }

  lemma IdleThreadWritesNothing(l: Load, thread: int, r: int, y: int)
    requires l.Valid() && 0 <= thread < l.threads && r > 0
    requires GetShare(l, thread).rowCount < 1
    ensures !ThreadWrites(l, thread, r, 1, y)
  {}

  lemma FleetStaysInTable(l: Load, r: int, iterations: nat, y: int)
    requires l.Valid() && r > 0 && iterations > 0
    requires l.threads <= l.Total() || iterations == 1
    requires FleetWrites(l, r, iterations, y)
    ensures l.InTable(y)
  {
    var thread :| 0 <= thread < l.threads && ThreadWrites(l, thread, r, iterations, y);
    NonEmptyShares(l);
    if GetShare(l, thread).rowCount < 1 {
      IdleThreadWritesNothing(l, thread, r, y);
    } else {
      ThreadWritesPass(l, thread, r, iterations, y);
      PassInTable(l, thread, r);
      ShareBounds(l, thread);
    }
  }

  lemma FleetCoversTable(l: Load, r: int, iterations: nat, y: int)
    requires l.Valid() && r > 0 && iterations > 0
    requires l.InTable(y)
    ensures FleetWrites(l, r, iterations, y)
  {
    OuterBoundaries(l);
    var thread := FindThread(l, y, l.threads);
    NextBoundary(l, thread);
    ThreadWritesPass(l, thread, r, iterations, y);
    PassInTable(l, thread, r);
  }

  lemma IdleThreadWritesPastTable(l: Load, r: int, iterations: nat)
    requires l.Valid() && r > 0 && iterations > 1 && l.Total() < l.threads
    ensures FleetWrites(l, r, iterations, (l.offset + l.partitions) * l.c)
  {
    var end := (l.offset + l.partitions) * l.c;
    LastShareEmpty(l);
    SpanBounds(end, r, l.c);
    var pass := SharePass(end, 0, r, l.c);
    assert InSpan(pass[0 % |pass|], end);
    assert ThreadWrites(l, l.threads - 1, r, iterations, end);
  }

  /**
   Batched writes of the whole fleet touch exactly the rows of the table, if and only if no share is empty or there is
   a single iteration: the overshoot of a share always falls into later shares.
   */
  lemma BatchesCoverTable(l: Load, r: int, iterations: nat)
    requires l.Valid() && r > 0 && iterations > 0
    ensures (forall y :: FleetWrites(l, r, iterations, y) <==> l.InTable(y))
            <==> l.threads <= l.Total() || iterations == 1
  {
    if l.threads <= l.Total() || iterations == 1 {
      forall y
        ensures FleetWrites(l, r, iterations, y) <==> l.InTable(y)
      {
        if FleetWrites(l, r, iterations, y) {
          FleetStaysInTable(l, r, iterations, y);
        }
        if l.InTable(y) {
          FleetCoversTable(l, r, iterations, y);
        }
      }
    } else {
      IdleThreadWritesPastTable(l, r, iterations);
      assert !l.InTable((l.offset + l.partitions) * l.c);
    }
  }

  /** The keys of a batch are those of the rows of its span: one partition, consecutive clustering keys. */
  lemma BatchKeys(x: int, r: int, c: int, y: int)
    requires r > 0 && c > 0
    ensures var b := ToBatch(SpanAt(x, r, c), c);
            InSpan(SpanAt(x, r, c), y)
            <==> Key(y, c).0 == b.pk && b.startingCk <= Key(y, c).1 < b.startingCk + b.size
  {
    SpanBounds(x, r, c);
    assert x == (x / c) * c + x % c && y == (y / c) * c + y % c;
    if InSpan(SpanAt(x, r, c), y) {
      Arithmetic.DivMonotone(x, y, c);
      Arithmetic.DivMonotone(y, x + SpanAt(x, r, c).len - 1, c);
    }
  }
}
