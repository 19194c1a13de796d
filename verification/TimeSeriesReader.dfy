/**
 The time-series reader with uniform draws, and its agreement with the writer: every key it asks for is one that some
 writer thread is scheduled to have written by then.
 */
module TimeSeriesReader {
  import opened GoInts
  import opened TimeSeriesKeys
  import opened TimeSeriesWriter
  import Arithmetic

  /** A key component, or the run-time panic of a division by zero or of `Int63n` with a bound that is not positive. */
  datatype Draw = Panics | Draws(value: int)

  /** The length of a generation as the reader computes it. */
  function Span(s: Series): int64 { Wrap64(s.period * s.ckCount) }

  /** How many generations have begun by `now`; `rand.Int63n` draws below this bound. */
  function MaxGeneration(s: Series, now: int): int64
    requires Span(s) != 0
  {
    Wrap64(Quo(Wrap64(now - s.start), Span(s)) + 1)
  }

  /** How many rows of the generation have been due by `now`. */
  function MaxRange(s: Series, generation: int, now: int): int
    requires s.period != 0
  {
    var maxRange := Wrap64(Quo(Wrap64(now - s.start), s.period) - Wrap64(generation * s.ckCount) + 1);
    if s.ckCount < maxRange then s.ckCount else maxRange
  }

  /** One reader thread. The clock and the random source are parameters: `roll` stands for the word drawn. */
  class TimeSeriesRead {
    const pkStride: int
    const pkOffset: int
    const pkCount: int
    const startTimestamp: int
    const ckCount: int
    const period: int
    var pkPosition: int
    var currentGeneration: int
    ghost const series: Series
    ghost const thread: int
    ghost var drawn: nat

    ghost predicate Valid()
      reads this
    {
      && 1 <= pkCount
      && series == Series(pkStride, pkCount, pkOffset - thread % pkCount, ckCount, startTimestamp, period)
      && series.Valid()
      && pkPosition == if drawn == 0 then pkOffset - pkStride else Position(series, thread % pkCount, drawn - 1)
    }

    constructor (threadId: int, threadCount: int, pkCount: int, basicPkOffset: int, ckCount: int, writeRate: int,
                 startTimestamp: int)
      requires 0 <= threadId && pkCount != 0 && writeRate != 0
      ensures drawn == 0 && thread == threadId && (series.Valid() ==> Valid())
      ensures series == Series(threadCount, pkCount, basicPkOffset, ckCount, startTimestamp, ReaderPeriod(writeRate))
    {
      this.pkStride := threadCount;
      this.pkOffset := Rem(threadId, pkCount) + basicPkOffset;
      this.pkCount := pkCount;
      this.startTimestamp := startTimestamp;
      this.ckCount := ckCount;
      this.period := Quo(NANOS_PER_SECOND, writeRate);
      pkPosition := Rem(threadId, pkCount) + basicPkOffset - threadCount;
      currentGeneration := 0;
      series := Series(threadCount, pkCount, basicPkOffset, ckCount, startTimestamp, Quo(NANOS_PER_SECOND, writeRate));
      thread := threadId;
      drawn := 0;
    }

    method NextPartitionKey(now: int, roll: nat) returns (pk: Draw)
      requires Valid()
      modifies this
      ensures Valid() && drawn == old(drawn) + 1
      ensures pk.Panics? <==> Span(series) == 0 || MaxGeneration(series, now) <= 0
      ensures pk.Draws? ==>
                && currentGeneration == roll % MaxGeneration(series, now)
                && pk.value == Pack(Position(series, thread % pkCount, old(drawn)), currentGeneration)
    {
      StepPosition(series, drawn);
      pkPosition := pkPosition + pkStride;
      if pkPosition >= pkCount + pkOffset {
        pkPosition := pkOffset;
      }
      drawn := drawn + 1;
      var span := Wrap64(period * ckCount);
      if span == 0 {
        return Panics;
      }
      var maxGeneration := Wrap64(Quo(Wrap64(now - startTimestamp), span) + 1);
      if maxGeneration <= 0 {
        return Panics;
      }
      currentGeneration := roll % maxGeneration;
      return Draws(Pack(pkPosition, currentGeneration));
    }

    method NextClusteringKey(now: int, roll: nat) returns (ck: Draw)
      requires Valid()
      ensures ck.Panics? <==> period == 0 || MaxRange(series, currentGeneration, now) <= 0
      ensures ck.Draws? ==>
                ck.value == ReadCk(series, Wrap64(currentGeneration * ckCount)
                                           + roll % MaxRange(series, currentGeneration, now))
    {
      if period == 0 {
        return Panics;
      }
      var first := Wrap64(currentGeneration * ckCount);
      var maxRange: int := Wrap64(Quo(Wrap64(now - startTimestamp), period) - first + 1);
      maxRange := if ckCount < maxRange then ckCount else maxRange;
      if maxRange <= 0 {
        return Panics;
      }
      var timestampDelta := Wrap64(Wrap64(first + roll % maxRange) * period);
      return Draws(Wrap64(-(Wrap64(timestampDelta + startTimestamp) as int)));
    }
  }

  /** The clustering key the reader forms for row number `c`. */
  function ReadCk(s: Series, c: int): int {
    Wrap64(-(Wrap64(Wrap64(Wrap64(c) * s.period) + s.start) as int))
  }

  function ReaderPeriod(writeRate: int): int
    requires writeRate != 0
  {
    Quo(NANOS_PER_SECOND, writeRate)
  }

  /** Writer and reader form the same clustering key for the same row. */
  lemma SameCk(s: Series, c: int64)
    ensures ReadCk(s, c) == CkOfRow(s, c)
  {
    assert c * s.period == s.period * c;
  }

  // ---- no panic, and when there is one ----

  lemma QuoBound(a: int, b: int)
    requires 0 <= a && 0 < b
    ensures 0 <= Quo(a, b) && Quo(a, b) * b <= a < (Quo(a, b) + 1) * b
  {
    Arithmetic.QuotientNatural(a, b);
    Arithmetic.DivModParts(a, b);
    Arithmetic.Distribute(a / b + 1, a / b, b);
  }

  /** Counting whole multiples of `b` below `a` and comparing `a` with one of them is the same. */
  lemma QuoAtLeast(a: int, b: int, n: int)
    requires 0 <= a && 0 < b
    ensures n <= Quo(a, b) <==> n * b <= a
  {
    QuoBound(a, b);
    if n <= Quo(a, b) {
      Arithmetic.MulMonotone(n, Quo(a, b), b);
    } else {
      Arithmetic.MulMonotone(Quo(a, b) + 1, n, b);
    }
  }

  lemma QuoAtMost(a: int, b: int)
    requires 0 <= a && 0 < b
    ensures 0 <= Quo(a, b) <= a
  {
    QuoBound(a, b);
    Arithmetic.MulMonotone(1, b, Quo(a, b));
  }

  /** The numbers of a running reader: 64-bit integers, of which the period and the row count are positive. */
  predicate Running(s: Series) {
    s.Valid() && 0 < s.period < TWO_63 && s.ckCount < TWO_63
  }

  function Abs(x: int): int { if x < 0 then -x else x }

  /** The length of a generation is exact, or its wrapped value is not reached `elapsed` nanoseconds after the start. */
  predicate SpanFits(s: Series, elapsed: int) {
    FitsInt64(s.period * s.ckCount) || elapsed < Abs(Span(s))
  }

  lemma QuoSmall(a: int, b: int)
    requires 0 <= a < Abs(b)
    ensures Quo(a, b) == 0
  {
    if b > 0 {
      Arithmetic.DivModUnique(a, b, 0, a);
    } else {
      var q := a / b;
      assert a == b * q + a % b && 0 <= a % b < -b;
      assert (-q) * (-b) == b * q;
      Arithmetic.ZeroMultiple(-q, -b);
    }
  }

  /** Then the generations that have begun are counted exactly. */
  lemma GenerationsCounted(s: Series, now: int)
    requires Running(s) && s.start <= now && now - s.start < MAX_INT64
    requires SpanFits(s, now - s.start)
    ensures s.period * s.ckCount >= 1 && Span(s) != 0
    ensures MaxGeneration(s, now) == Quo(now - s.start, s.period * s.ckCount) + 1 >= 1
  {
    var elapsed, span := now - s.start, s.period * s.ckCount;
    Arithmetic.MulMonotone(1, s.ckCount, s.period);
    QuoAtMost(elapsed, span);
    if !FitsInt64(span) {
      QuoSmall(elapsed, Span(s));
      QuoSmall(elapsed, span);
    }
  }

  /** The first row of a generation that has begun has been due at any later time. */
  lemma FirstRowDue(s: Series, generation: nat, before: int, now: int)
    requires Running(s) && s.start <= before <= now && now - s.start < MAX_INT64
    requires SpanFits(s, before - s.start)
    requires generation < MaxGeneration(s, before)
    ensures 0 <= generation * s.ckCount <= Quo(now - s.start, s.period) <= now - s.start
  {
    var span, first := s.period * s.ckCount, generation * s.ckCount;
    GenerationsCounted(s, before);
    QuoAtLeast(before - s.start, span, generation);
    assert generation * span == first * s.period;
    QuoAtLeast(now - s.start, s.period, first);
    QuoAtMost(now - s.start, s.period);
    Arithmetic.MulMonotone(0, generation, s.ckCount);
  }

  /** Then its rows are counted exactly. */
  lemma RowsCounted(s: Series, generation: nat, before: int, now: int)
    requires Running(s) && s.start <= before <= now && now - s.start < MAX_INT64
    requires SpanFits(s, before - s.start)
    requires generation < MaxGeneration(s, before)
    ensures 0 <= generation * s.ckCount <= Quo(now - s.start, s.period) <= now - s.start
    ensures MaxRange(s, generation, now)
            == Min(s.ckCount, Quo(now - s.start, s.period) - generation * s.ckCount + 1) >= 1
  {
    FirstRowDue(s, generation, before, now);
    ExactRange(s, generation, generation * s.ckCount, now, now - s.start);
  }

  lemma ExactRange(s: Series, generation: nat, first: nat, now: int, elapsed: int)
    requires s.period > 0 && first == generation * s.ckCount && elapsed == now - s.start
    requires -MAX_INT64 <= elapsed < MAX_INT64
    requires -MAX_INT64 <= Quo(elapsed, s.period) - first && Quo(elapsed, s.period) < MAX_INT64 && first < MAX_INT64
    ensures MaxRange(s, generation, now) == Min(s.ckCount, Quo(elapsed, s.period) - first + 1)
  {}

  function Min(a: int, b: int): int { if a < b then a else b }

  /** Whether a read panics whose generation is drawn at `before` and whose row at `now`. */
  predicate ReadPanics(s: Series, before: int, now: int, roll: nat)
    requires s.period != 0
  {
    || Span(s) == 0
    || MaxGeneration(s, before) <= 0
    || MaxRange(s, roll % MaxGeneration(s, before), now) <= 0
  }

  /** The moment at which a generation counted by its wrapped length is drawn although none of its rows is due. */
  lemma WrappedSpanPanics(s: Series, elapsed: int)
    requires Running(s) && 0 <= elapsed < MAX_INT64 && !SpanFits(s, elapsed)
    ensures exists before, now, roll: nat | s.start <= before <= now <= s.start + elapsed ::
              ReadPanics(s, before, now, roll)
  {
    var w := Span(s);
    var at := s.start + Abs(w);
    if w != 0 {
      assert Abs(w) <= elapsed;
      QuoOfItself(w);
      if w > 0 {
        assert MaxGeneration(s, at) == 2 && 1 % 2 == 1;
        Arithmetic.MulMonotone(1, s.ckCount, s.period);
        QuoAtLeast(w, s.period, s.ckCount);
        QuoAtMost(w, s.period);
        assert s.ckCount * s.period == s.period * s.ckCount;
      }
    }
    assert ReadPanics(s, at, at, 1);
  }

  lemma QuoOfItself(w: int)
    requires w != 0
    ensures Quo(Abs(w), w) == if w > 0 then 1 else -1
  {
    if w > 0 {
      Arithmetic.DivModUnique(w, w, 1, 0);
    } else {
      var q := -w / w;
      assert -w == w * q + -w % w && 0 <= -w % w < -w;
      assert (q + 1) * -w == -(w * q) - w;
      Arithmetic.ZeroMultiple(q + 1, -w);
    }
  }

  /**
   With a clock that does not go back from the start on, a reader never panics in its first `elapsed` nanoseconds, if
   and only if the length of a generation fits 64 bits or its wrapped value is not reached by then.
   */
  lemma NeverPanics(s: Series, elapsed: int)
    requires Running(s) && 0 <= elapsed < MAX_INT64
    ensures (forall before, now, roll: nat | s.start <= before <= now <= s.start + elapsed ::
               !ReadPanics(s, before, now, roll))
            <==> SpanFits(s, elapsed)
  {
    if SpanFits(s, elapsed) {
      forall before, now, roll: nat | s.start <= before <= now <= s.start + elapsed
        ensures !ReadPanics(s, before, now, roll)
      {
        GenerationsCounted(s, before);
        RowsCounted(s, roll % MaxGeneration(s, before), before, now);
      }
    } else {
      WrappedSpanPanics(s, elapsed);
    }
  }

  /** One row a second and 18446744074 rows to a partition: a read panics within the first second. */
  lemma LargePartitionsPanic(start: int64)
    ensures var s := Series(1, 1, 0, 18_446_744_074, start, ReaderPeriod(1));
            s.period == 1_000_000_000
            && exists before, now, roll: nat | start <= before <= now <= start + 1_000_000_000 ::
              ReadPanics(s, before, now, roll)
  {
    var s := Series(1, 1, 0, 18_446_744_074, start, ReaderPeriod(1));
    assert Span(s) == 290_448_384;
    NeverPanics(s, 1_000_000_000);
  }

  /** Before the start quotients are rounded toward zero. */
  lemma QuoBeforeStart(d: int, b: int, n: int)
    requires d < 0 && 0 < b && n <= 0
    ensures d <= Quo(d, b) <= 0
    ensures Quo(d, b) < n <==> d <= (n - 1) * b
  {
    QuoAtMost(-d, b);
    QuoAtLeast(-d, b, 1 - n);
    assert (1 - n) * b == -((n - 1) * b);
  }

  lemma ExactGenerations(s: Series, now: int)
    requires Running(s) && FitsInt64(s.period * s.ckCount) && -MAX_INT64 <= now - s.start < MAX_INT64
    ensures Span(s) == s.period * s.ckCount >= 1
    ensures MaxGeneration(s, now) == Quo(now - s.start, s.period * s.ckCount) + 1
  {
    var d, span := now - s.start, s.period * s.ckCount;
    Arithmetic.MulMonotone(1, s.ckCount, s.period);
    if d >= 0 {
      QuoAtMost(d, span);
    } else {
      QuoBeforeStart(d, span, 0);
    }
  }

  /**
   Before the start the first draw panics once a whole generation is missing, and the second once the first row of its
   generation is a period away or not yet due; neither does otherwise.
   */
  lemma PanicsBeforeStart(s: Series, generation: nat, now: int)
    requires Running(s) && FitsInt64(s.period * s.ckCount)
    requires 0 <= generation * s.ckCount && generation * s.ckCount + Abs(now - s.start) < MAX_INT64
    ensures Span(s) != 0
    ensures MaxGeneration(s, now) <= 0 <==> now <= s.start - s.period * s.ckCount
    ensures MaxRange(s, generation, now) <= 0
            <==> if generation == 0 then now <= s.start - s.period
                 else now < s.start + generation * s.ckCount * s.period
  {
    var d, span := now - s.start, s.period * s.ckCount;
    ExactGenerations(s, now);
    if d >= 0 {
      QuoAtMost(d, span);
    } else {
      QuoBeforeStart(d, span, 0);
    }
    RowsMissing(s, generation, generation * s.ckCount, now, d);
  }

  lemma RowsMissing(s: Series, generation: nat, first: nat, now: int, d: int)
    requires Running(s) && d == now - s.start
    requires first == generation * s.ckCount && first + Abs(d) < MAX_INT64
    ensures MaxRange(s, generation, now) <= 0
            <==> if generation == 0 then d <= -s.period else d < first * s.period
  {
    Arithmetic.MulMonotone(0, first, s.period);
    if generation >= 1 {
      Arithmetic.MulMonotone(1, generation, s.ckCount);
    }
    if d >= 0 {
      QuoAtMost(d, s.period);
      QuoAtLeast(d, s.period, first);
    } else {
      QuoBeforeStart(d, s.period, 0);
    }
    ExactRange(s, generation, first, now, d);
  }

  /** Some thread of the writer makes the draw that writes row `c` of position `p`. */
  ghost predicate Scheduled(w: Series, p: int, generation: int, c: int)
    requires w.Valid()
  {
    exists thread, k: nat | 0 <= thread < w.threads ::
      Position(w, thread, k) == p && Generation(w, k) == generation && RowNumber(w, k) == c
  }

  lemma ScheduledRow(w: Series, p: int, generation: int, c: int)
    requires w.Valid() && 0 <= c && generation == c / w.ckCount
    requires w.pkOffset <= p < w.pkOffset + w.threads * w.Cycle()
    ensures Scheduled(w, p, generation, c)
  {
    var d, m := p - w.pkOffset, w.Cycle();
    var thread, j := d % w.threads, d / w.threads;
    Arithmetic.DivModParts(d, w.threads);
    Arithmetic.QuotientNatural(d, w.threads);
    if j >= m {
      Arithmetic.MulMonotone(m, j, w.threads);
    }
    Arithmetic.MulMonotone(0, c, m);
    var k := c * m + j;
    Arithmetic.DivModUnique(k, m, c, j);
    PositionOwner(w, thread, k, p);
  }

  /**
   With the same period, the same rows per generation and a clock that does not go back, whatever position inside the
   writer's span the reader is at: it does not panic, the key it forms is one a writer thread writes, and that write was
   due at or before the time of the draw.
   */
  lemma ReadsWhatIsDue(w: Series, p: int, before: int, now: int, roll: nat, roll': nat)
    requires Running(w) && w.start <= before <= now && now - w.start < MAX_INT64
    requires SpanFits(w, before - w.start)
    requires w.pkOffset <= p < w.pkOffset + w.threads * w.Cycle()
    ensures !ReadPanics(w, before, now, roll)
    ensures var generation := roll % MaxGeneration(w, before);
            var c := Wrap64(generation * w.ckCount) + roll' % MaxRange(w, generation, now);
            Scheduled(w, p, generation, c) && ReadCk(w, c) == CkOfRow(w, c) && w.start + w.period * c <= now
  {
    GenerationsCounted(w, before);
    var generation := roll % MaxGeneration(w, before);
    RowsCounted(w, generation, before, now);
    var i := roll' % MaxRange(w, generation, now);
    var c := generation * w.ckCount + i;
    QuoAtMost(now - w.start, w.period);
    Arithmetic.DivModUnique(c, w.ckCount, generation, i);
    ScheduledRow(w, p, generation, c);
    SameCk(w, c);
    QuoAtLeast(now - w.start, w.period, c);
  }

  /** Every row due at the first draw can be the one that is read: no row of the schedule is out of reach. */
  lemma EveryDueRowReachable(w: Series, before: int, now: int, c: nat) returns (roll: nat, roll': nat)
    requires Running(w) && before <= now && now - w.start < MAX_INT64
    requires w.start + w.period * c <= before && SpanFits(w, before - w.start)
    ensures w.start <= before && !ReadPanics(w, before, now, roll)
    ensures var generation := roll % MaxGeneration(w, before);
            c == Wrap64(generation * w.ckCount) + roll' % MaxRange(w, generation, now)
  {
    Arithmetic.MulMonotone(0, c, w.period);
    assert c * w.period == w.period * c;
    var g, i := c / w.ckCount, c % w.ckCount;
    Arithmetic.DivModParts(c, w.ckCount);
    Arithmetic.QuotientNatural(c, w.ckCount);
    GenerationsCounted(w, before);
    GenerationDue(w, before, c);
    Arithmetic.DivModUnique(g, MaxGeneration(w, before), 0, g);
    RowsCounted(w, g, before, now);
    QuoAtLeast(now - w.start, w.period, c);
    QuoAtMost(now - w.start, w.period);
    Arithmetic.DivModUnique(i, MaxRange(w, g, now), 0, i);
    roll, roll' := g, i;
  }

  lemma GenerationDue(w: Series, before: int, c: nat)
    requires Running(w) && w.start <= before && c * w.period <= before - w.start
    requires w.period * w.ckCount >= 1
    ensures c / w.ckCount <= Quo(before - w.start, w.period * w.ckCount)
  {
    var g, span := c / w.ckCount, w.period * w.ckCount;
    Arithmetic.DivModParts(c, w.ckCount);
    Arithmetic.MulMonotone(g * w.ckCount, c, w.period);
    assert g * span == (g * w.ckCount) * w.period;
    QuoAtLeast(before - w.start, span, g);
  }

  // ---- which positions the reader visits ----

  /** How far the positions of all reader threads reach. */
  function ReaderSpan(r: Series): int
    requires r.Valid()
  {
    if r.threads > r.pkCount then r.pkCount else r.threads * r.Cycle()
  }

  lemma ReaderPositions(r: Series, thread: int, k: nat)
    requires r.Valid() && 0 <= thread < r.threads
    ensures r.pkOffset <= Position(r, thread % r.pkCount, k) < r.pkOffset + ReaderSpan(r)
  {
    var t, m := thread % r.pkCount, r.Cycle();
    RoundUp(r.pkCount, r.threads);
    if r.threads > r.pkCount {
      if m > 1 {
        Arithmetic.MulMonotone(1, m - 1, r.threads);
      }
      assert k % m == 0;
    } else {
      Arithmetic.ModAtMost(thread, r.pkCount);
      PositionOwner(r, t, k, Position(r, t, k));
    }
  }

  /** The last position of the span is visited. */
  lemma LastPositionVisited(r: Series) returns (thread: int, k: nat)
    requires r.Valid()
    ensures 0 <= thread < r.threads
    ensures Position(r, thread % r.pkCount, k) == r.pkOffset + ReaderSpan(r) - 1
  {
    var m := r.Cycle();
    RoundUp(r.pkCount, r.threads);
    if r.threads > r.pkCount {
      thread, k := r.pkCount - 1, 0;
      Arithmetic.DivModUnique(0, m, 0, 0);
    } else {
      thread, k := r.threads - 1, m - 1;
      Arithmetic.DivModUnique(k, m, 0, k);
      Arithmetic.Distribute(m, 1, r.threads);
    }
    Arithmetic.DivModUnique(thread, r.pkCount, 0, thread);
  }

  /** Reader threads stay at positions the writer fills, if and only if their span is no longer than the writer's. */
  lemma ReaderInsideWriter(r: Series, w: Series)
    requires r.Valid() && w.Valid() && r.pkOffset == w.pkOffset
    ensures (forall thread, k: nat | 0 <= thread < r.threads ::
               w.pkOffset <= Position(r, thread % r.pkCount, k) < w.pkOffset + w.threads * w.Cycle())
            <==> ReaderSpan(r) <= w.threads * w.Cycle()
  {
    forall thread, k: nat | 0 <= thread < r.threads
      ensures r.pkOffset <= Position(r, thread % r.pkCount, k) < r.pkOffset + ReaderSpan(r)
    {
      ReaderPositions(r, thread, k);
    }
    var thread, k := LastPositionVisited(r);
  }

  /** In particular when both numbers of threads divide the number of partitions. */
  lemma EvenThreadsAgree(r: Series, w: Series)
    requires r.Valid() && w.Valid() && r.pkCount == w.pkCount
    requires r.pkCount % r.threads == 0 && w.pkCount % w.threads == 0
    ensures ReaderSpan(r) <= w.threads * w.Cycle()
  {
    EvenThreads(r);
    EvenThreads(w);
  }

  // ---- a reader next to its writers ----

  /** The keys are those of a draw of some writer thread, and the row was due by `now`. */
  ghost predicate WrittenRow(w: Series, pk: int, ck: int, now: int)
    requires w.Valid()
  {
    exists thread, k: nat | 0 <= thread < w.threads ::
      pk == Pk(w, thread, k) && ck == Ck(w, k) && w.start + w.period * RowNumber(w, k) <= now
  }

  lemma ScheduledWritten(w: Series, p: int, generation: int, c: int, now: int)
    requires w.Valid() && Scheduled(w, p, generation, c) && w.start + w.period * c <= now
    ensures WrittenRow(w, Pack(p, generation), CkOfRow(w, c), now)
  {
    var thread, k: nat :| 0 <= thread < w.threads
      && Position(w, thread, k) == p && Generation(w, k) == generation && RowNumber(w, k) == c;
    assert Pack(p, generation) == Pk(w, thread, k) && CkOfRow(w, c) == Ck(w, k);
  }

  /** The reader goes by the same schedule as the writer, and its threads reach no further. */
  ghost predicate Follows(r: Series, w: Series)
    requires r.Valid() && w.Valid()
  {
    && r.start == w.start && r.period == w.period && r.ckCount == w.ckCount && r.pkOffset == w.pkOffset
    && ReaderSpan(r) <= w.threads * w.Cycle()
  }

  lemma SameBounds(r: Series, w: Series, now: int)
    requires r.start == w.start && r.period == w.period && r.ckCount == w.ckCount && r.period != 0
    ensures Span(r) == Span(w)
    ensures Span(r) != 0 ==> MaxGeneration(r, now) == MaxGeneration(w, now)
    ensures forall generation :: MaxRange(r, generation, now) == MaxRange(w, generation, now)
    ensures forall c :: ReadCk(r, c) == ReadCk(w, c)
  {}

  lemma ReadRowWritten(r: Series, w: Series, thread: nat, k: nat, before: int, now: int, roll: nat, roll': nat)
    requires r.Valid() && thread < r.threads && Running(w) && Follows(r, w)
    requires w.start <= before <= now && now - w.start < MAX_INT64 && SpanFits(w, before - w.start)
    ensures !ReadPanics(w, before, now, roll)
    ensures var generation := roll % MaxGeneration(w, before);
            var c := Wrap64(generation * w.ckCount) + roll' % MaxRange(w, generation, now);
            WrittenRow(w, Pack(Position(r, thread % r.pkCount, k), generation), ReadCk(w, c), now)
  {
    var p := Position(r, thread % r.pkCount, k);
    ReaderPositions(r, thread, k);
    ReadsWhatIsDue(w, p, before, now, roll, roll');
    ghost var generation: nat := roll % MaxGeneration(w, before);
    ScheduledWritten(w, p, generation, Wrap64(generation * w.ckCount) + roll' % MaxRange(w, generation, now), now);
  }

  /** One read: whatever is drawn, it asks for a row that some writer thread writes and that was due by then. */
  method ReadRow(reader: TimeSeriesRead, ghost w: Series, before: int, now: int, roll: nat, roll': nat)
    returns (pk: Draw, ck: Draw)
    requires reader.Valid() && 0 <= reader.thread < reader.series.threads
    requires Running(w) && Follows(reader.series, w)
    requires w.start <= before <= now && now - w.start < MAX_INT64 && SpanFits(w, before - w.start)
    modifies reader
    ensures reader.Valid() && reader.drawn == old(reader.drawn) + 1
    ensures pk.Draws? && ck.Draws? && WrittenRow(w, pk.value, ck.value, now)
  {
    ReadRowWritten(reader.series, w, reader.thread, reader.drawn, before, now, roll, roll');
    SameBounds(reader.series, w, before);
    SameBounds(reader.series, w, now);
    pk := reader.NextPartitionKey(before, roll);
    ck := reader.NextClusteringKey(now, roll');
  }

  // ---- the period travels as a rate ----

  /** The rate per partition that the writer prints and the reader is started with. */
  function PrintedRate(maximumRate: int, pkCount: int): int
    requires pkCount != 0
  {
    Quo(maximumRate, pkCount)
  }

  /** A writer at `rate` rows a second goes round its partitions once a period, rounded down to a nanosecond. */
  lemma WriterPeriodIs(threads: int, pkCount: int, rate: int)
    requires 1 <= threads && 0 <= pkCount && 1 <= rate && 1_000_000_000 * (pkCount / threads) < TWO_63
    ensures var period := WriterPeriod(threads, pkCount, rate);
            period * rate <= 1_000_000_000 * (pkCount / threads) < (period + 1) * rate
  {
    Arithmetic.QuotientNatural(pkCount, threads);
    QuoBound(1_000_000_000 * (pkCount / threads), rate);
  }

  /** A reader told of `writeRate` rows a second in each partition expects one every period, rounded down as well. */
  lemma ReaderPeriodIs(writeRate: int)
    requires 1 <= writeRate
    ensures var period := ReaderPeriod(writeRate);
            period * writeRate <= 1_000_000_000 < (period + 1) * writeRate
  {
    QuoBound(1_000_000_000, writeRate);
  }

  /** Writer and reader start without a division by zero, and the writer's product fits 64 bits. */
  predicate PeriodsDefined(threads: int, pkCount: int, maximumRate: int) {
    1 <= threads <= maximumRate && 1 <= pkCount <= maximumRate && 1_000_000_000 * (pkCount / threads) < TWO_63
  }

  /** Whether the writers' period is the one a reader gets from the rate they print. */
  predicate SamePeriod(threads: int, pkCount: int, maximumRate: int)
    requires PeriodsDefined(threads, pkCount, maximumRate)
  {
    AtLeastOnce(maximumRate, threads);
    AtLeastOnce(maximumRate, pkCount);
    WriterPeriod(threads, pkCount, Quo(maximumRate, threads)) == ReaderPeriod(PrintedRate(maximumRate, pkCount))
  }

  lemma AtLeastOnce(a: int, b: int)
    requires 1 <= b <= a
    ensures Quo(a, b) >= 1
  {
    QuoAtLeast(a, b, 1);
  }

  lemma Expanded(n: int, a: int, b: int, q: int, m: int, i: int)
    requires n == m * q + i
    ensures n * a == m * b + (i * a - m * (b - q * a))
  {
    assert n * a == m * q * a + i * a;
    assert m * (b - q * a) == m * b - m * (q * a);
    assert m * q * a == m * (q * a);
  }

  lemma QuotientIs(x: int, b: int, m: int, rest: int)
    requires 1 <= b && x == m * b + rest && rest < b
    ensures x / b == m <==> 0 <= rest
  {
    if 0 <= rest {
      Arithmetic.DivModUnique(x, b, m, rest);
    } else {
      Arithmetic.DivModParts(x, b);
    }
  }

  lemma RemainderPart(i: int, q: int, a: nat, b: int)
    requires 0 <= i < q && q * a <= b && 1 <= b
    ensures i * a < b
  {
    if a >= 1 {
      Arithmetic.MulMonotone(i + 1, q, a);
      Arithmetic.Distribute(i + 1, i, a);
    }
  }

  /** For `b` from `q * a` on, `n * a / b` is `n / q` unless the remainder of `n` is too small to make up for it. */
  lemma SameQuotient(n: nat, a: nat, b: int, q: int)
    requires 1 <= b && 1 <= q && q * a <= b
    ensures (n * a) / b == n / q <==> (n / q) * (b - q * a) <= (n % q) * a
  {
    var m, i := n / q, n % q;
    Arithmetic.DivModParts(n, q);
    Expanded(n, a, b, q, m, i);
    Arithmetic.QuotientNatural(n, q);
    Arithmetic.MulMonotone(0, m, b - q * a);
    RemainderPart(i, q, a, b);
    QuotientIs(n * a, b, m, i * a - m * (b - q * a));
  }

  /** Rounding down twice never gives more than rounding down once. */
  lemma RoundedTwice(threads: int, pkCount: int, maximumRate: int)
    requires 1 <= threads && 1 <= pkCount && 0 <= maximumRate
    ensures (maximumRate / pkCount) * (pkCount / threads) <= maximumRate / threads
  {
    var q, p := maximumRate / pkCount, pkCount / threads;
    Arithmetic.DivModParts(maximumRate, pkCount);
    Arithmetic.DivModParts(pkCount, threads);
    Arithmetic.QuotientNatural(maximumRate, pkCount);
    Arithmetic.MulMonotone(p * threads, pkCount, q);
    assert p * threads * q == (q * p) * threads;
    QuoAtLeast(maximumRate, threads, q * p);
  }

  /**
   When writer and reader use one period, for all threads, partitions and rates. With `q` the printed rate, a second
   holds `1e9 / q` periods and a remainder; the writers of `P / T` partitions each send `R / T - q * (P / T)` rows a
   second more than printed, and only the remainder can make up for those.
   */
  lemma PeriodsAgreeIff(threads: int, pkCount: int, maximumRate: int)
    requires PeriodsDefined(threads, pkCount, maximumRate)
    ensures var q, p, r := maximumRate / pkCount, pkCount / threads, maximumRate / threads;
            q >= 1 && (SamePeriod(threads, pkCount, maximumRate)
                       <==> (1_000_000_000 / q) * (r - q * p) <= (1_000_000_000 % q) * p)
  {
    AtLeastOnce(maximumRate, threads);
    AtLeastOnce(maximumRate, pkCount);
    Arithmetic.QuotientNatural(pkCount, threads);
    RoundedTwice(threads, pkCount, maximumRate);
    SameQuotient(1_000_000_000, pkCount / threads, maximumRate / threads, maximumRate / pkCount);
  }

  /** Threads that divide both numbers cancel. */
  lemma ThreadsCancel(threads: int, pkCount: int, maximumRate: int)
    requires 1 <= threads && 1 <= pkCount <= maximumRate
    requires pkCount % threads == 0 && maximumRate % threads == 0
    ensures var p, r := pkCount / threads, maximumRate / threads;
            1 <= p <= r && maximumRate / pkCount == r / p && maximumRate % pkCount == (r % p) * threads
  {
    var p, r := pkCount / threads, maximumRate / threads;
    Arithmetic.DivModParts(pkCount, threads);
    Arithmetic.DivModParts(maximumRate, threads);
    if p < 1 {
      Arithmetic.MulMonotone(p, 0, threads);
    }
    Arithmetic.DivMonotone(pkCount, maximumRate, threads);
    Arithmetic.CancelQuotient(r, p, threads);
    Arithmetic.DivModParts(r, p);
    Arithmetic.DivModParts(maximumRate, pkCount);
    var q := r / p;
    assert q * (p * threads) == (q * p) * threads;
    Arithmetic.Distribute(r, q * p, threads);
  }

  /** When threads divide partitions and rate, only the remainders of rate and of second matter. */
  lemma EvenPeriodsAgreeIff(threads: int, pkCount: int, maximumRate: int)
    requires PeriodsDefined(threads, pkCount, maximumRate)
    requires pkCount % threads == 0 && maximumRate % threads == 0
    ensures var p, r := pkCount / threads, maximumRate / threads;
            1 <= p <= r && r / p >= 1
            && (SamePeriod(threads, pkCount, maximumRate)
                <==> (r % p) * (1_000_000_000 / (r / p)) <= p * (1_000_000_000 % (r / p)))
  {
    var p, r := pkCount / threads, maximumRate / threads;
    ThreadsCancel(threads, pkCount, maximumRate);
    PeriodsAgreeIff(threads, pkCount, maximumRate);
    Arithmetic.DivModParts(r, p);
    Commutes(1_000_000_000 / (r / p), r % p);
    Commutes(1_000_000_000 % (r / p), p);
  }

  lemma Commutes(a: int, b: int)
    ensures a * b == b * a
  {}

  lemma ProductZero(a: int, b: nat)
    requires a >= 1
    ensures a * b <= 0 <==> b == 0
  {
    if b >= 1 {
      Arithmetic.MulMonotone(1, b, a);
      Commutes(a, b);
    }
  }

  /** If the printed rate divides a second, no rows may be left over at all. */
  lemma WholePeriodsAgreeIff(threads: int, pkCount: int, maximumRate: int)
    requires PeriodsDefined(threads, pkCount, maximumRate)
    ensures var q := maximumRate / pkCount;
            q >= 1 && (1_000_000_000 % q == 0 ==>
              (SamePeriod(threads, pkCount, maximumRate) <==> maximumRate / threads == q * (pkCount / threads)))
  {
    var q, p, r := maximumRate / pkCount, pkCount / threads, maximumRate / threads;
    PeriodsAgreeIff(threads, pkCount, maximumRate);
    RoundedTwice(threads, pkCount, maximumRate);
    if 1_000_000_000 % q == 0 {
      WholeQuotient(1_000_000_000, q);
      ProductZero(1_000_000_000 / q, r - q * p);
    }
  }

  lemma WholeQuotient(n: int, q: int)
    requires 1 <= n && 1 <= q && n % q == 0
    ensures n / q >= 1
  {
    Arithmetic.DivModParts(n, q);
    if n / q < 1 {
      Arithmetic.MulMonotone(n / q, 0, q);
    }
  }

  /** Whatever the printed rate, one period is used when threads divide partitions and rate and partitions the rate. */
  lemma PeriodsAgree(threads: int, pkCount: int, maximumRate: int)
    requires PeriodsDefined(threads, pkCount, maximumRate)
    requires pkCount % threads == 0 && maximumRate % threads == 0 && maximumRate % pkCount == 0
    ensures SamePeriod(threads, pkCount, maximumRate)
  {
    var p, r := pkCount / threads, maximumRate / threads;
    ThreadsCancel(threads, pkCount, maximumRate);
    EvenPeriodsAgreeIff(threads, pkCount, maximumRate);
    Commutes(threads, r % p);
    ProductZero(threads, r % p);
    Arithmetic.MulMonotone(0, 1_000_000_000 % (r / p), p);
  }

  lemma QuotientOfMultiple(q: int, pkCount: int, threads: int)
    requires 1 <= q && 1 <= pkCount && 1 <= threads
    ensures (q * pkCount) / threads == q * (pkCount / threads) <==> q * (pkCount % threads) < threads
  {
    var p, s := pkCount / threads, pkCount % threads;
    Arithmetic.DivModParts(pkCount, threads);
    assert q * pkCount == (q * p) * threads + q * s;
    Arithmetic.MulMonotone(0, s, q);
    if q * s < threads {
      Arithmetic.DivModUnique(q * pkCount, threads, q * p, q * s);
    } else {
      Arithmetic.MulMonotone(0, pkCount, q);
      assert (q * p + 1) * threads == (q * p) * threads + threads;
      QuoAtLeast(q * pkCount, threads, q * p + 1);
    }
  }

  /**
   At `q` operations a second for each partition, where `q` divides a second, the periods agree if and only if all
   operations on the partitions that threads leave over are fewer than the threads.
   */
  lemma WholeRatesAgreeIff(threads: int, pkCount: int, q: int)
    requires 1 <= q && 1_000_000_000 % q == 0 && PeriodsDefined(threads, pkCount, q * pkCount)
    ensures SamePeriod(threads, pkCount, q * pkCount) <==> q * (pkCount % threads) < threads
  {
    Arithmetic.DivModUnique(q * pkCount, pkCount, q, 0);
    WholePeriodsAgreeIff(threads, pkCount, q * pkCount);
    QuotientOfMultiple(q, pkCount, threads);
  }

  /** For instance with 100 operations a second on 10 partitions, for 1, 2, 5 and 10 threads and for no others. */
  lemma TenPartitions(threads: int)
    requires 1 <= threads <= 100
    ensures SamePeriod(threads, 10, 100) <==> 10 % threads == 0
  {
    WholeRatesAgreeIff(threads, 10, 10);
    if threads > 10 {
      Arithmetic.DivModUnique(10, threads, 0, 10);
    }
  }
}
