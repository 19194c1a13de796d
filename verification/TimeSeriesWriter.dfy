/**
 The time-series writer: each thread goes round its partitions, adding to each a row newer than the last, and starts a
 new generation of partitions when they are full. What a thread does is given in closed form by the number of the draw.
 */
module TimeSeriesWriter {
  import opened GoInts
  import opened TimeSeriesKeys
  import Arithmetic

  const NANOS_PER_SECOND := 1_000_000_000

  /** What all threads of one time series share. */
  datatype Series = Series(threads: int, pkCount: int, pkOffset: int, ckCount: int, start: int, period: int)
  {
    predicate Valid() { 1 <= threads && 1 <= pkCount && 1 <= ckCount }

    /** How many partitions a thread goes round: `pkCount / threads`, rounded up. */
    function Cycle(): (m: int)
      requires Valid()
      ensures 1 <= m
    {
      RoundUp(pkCount, threads);
      (pkCount + threads - 1) / threads
    }
  }

  lemma RoundUp(p: int, t: int)
    requires 1 <= p && 1 <= t
    ensures var m := (p + t - 1) / t; 1 <= m && (m - 1) * t < p <= m * t
  {
    var m := (p + t - 1) / t;
    assert p + t - 1 == m * t + (p + t - 1) % t;
    Arithmetic.Distribute(m, 1, t);
    if m < 1 {
      Arithmetic.MulMonotone(m, 0, t);
    }
  }

  // ---- draw number `k` of a thread, in closed form ----

  function Position(s: Series, thread: int, k: nat): int
    requires s.Valid()
  {
    s.pkOffset + thread + (k % s.Cycle()) * s.threads
  }

  /** The number of the row within its position, counted over all generations. */
  function RowNumber(s: Series, k: nat): (c: int)
    requires s.Valid()
  {
    k / s.Cycle()
  }

  function Generation(s: Series, k: nat): int
    requires s.Valid()
  {
    RowNumber(s, k) / s.ckCount
  }

  function Pk(s: Series, thread: int, k: nat): int
    requires s.Valid()
  {
    Pack(Position(s, thread, k), Generation(s, k))
  }

  /** The clustering key of row number `c`: its time, negated so that newer rows sort first. */
  function CkOfRow(s: Series, c: int): int {
    Wrap64(-(Wrap64(s.start + Wrap64(s.period * c)) as int))
  }

  function Ck(s: Series, k: nat): int
    requires s.Valid()
  {
    CkOfRow(s, RowNumber(s, k))
  }

  /** The period between two rows of one position. */
  function WriterPeriod(threads: int, pkCount: int, rate: int): int
    requires threads != 0 && rate != 0
  {
    Quo(Wrap64(NANOS_PER_SECOND * Quo(pkCount, threads)), rate)
  }

  class TimeSeriesWrite {
    const startTime: int
    const pkStride: int
    const pkOffset: int
    const pkCount: int
    const ckCount: int
    const period: int
    var pkPosition: int
    var pkGeneration: int
    var ckPosition: int
    var moveToNextPartition: bool
    ghost const series: Series
    ghost const thread: int
    /** How many partition keys have been drawn. */
    ghost var drawn: nat

    ghost predicate Valid()
      reads this
    {
      && series == Series(pkStride, pkCount, pkOffset - thread, ckCount, startTime, period) && series.Valid()
      && if drawn == 0 then pkPosition == pkOffset - pkStride && ckPosition == 0 && pkGeneration == 0
         else
           && pkPosition == Position(series, thread, drawn - 1)
           && pkGeneration == Generation(series, drawn - 1)
           && ckPosition == RowNumber(series, drawn - 1) % ckCount
    }

    constructor (threadId: int, threadCount: int, pkCount: int, basicPkOffset: int, ckCount: int, startTime: int,
                 rate: int)
      requires threadCount != 0 && rate != 0
      ensures drawn == 0 && thread == threadId && (series.Valid() ==> Valid())
      ensures series == Series(threadCount, pkCount, basicPkOffset, ckCount, startTime,
                               WriterPeriod(threadCount, pkCount, rate))
    {
      var period := Quo(Wrap64(NANOS_PER_SECOND * Quo(pkCount, threadCount)), rate);
      this.startTime := startTime;
      this.pkStride := threadCount;
      this.pkOffset := threadId + basicPkOffset;
      this.pkCount := pkCount;
      this.ckCount := ckCount;
      this.period := period;
      pkPosition := threadId + basicPkOffset - threadCount;
      pkGeneration := 0;
      ckPosition := 0;
      moveToNextPartition := false;
      series := Series(threadCount, pkCount, basicPkOffset, ckCount, startTime, period);
      thread := threadId;
      drawn := 0;
    }

    method NextPartitionKey() returns (pk: int)
      requires Valid()
      modifies this
      ensures Valid() && drawn == old(drawn) + 1
      ensures pk == Pk(series, thread, old(drawn)) && !moveToNextPartition
    {
      StepPosition(series, drawn);
      StepRow(series, drawn);
      pkPosition := pkPosition + pkStride;
      if pkPosition >= pkCount + pkOffset {
        pkPosition := pkOffset;
        ckPosition := ckPosition + 1;
        if ckPosition >= ckCount {
          pkGeneration := pkGeneration + 1;
          ckPosition := 0;
        }
      }
      moveToNextPartition := false;
      drawn := drawn + 1;
      pk := Pack(pkPosition, pkGeneration);
    }

    method NextClusteringKey() returns (ck: int)
      requires Valid()
      modifies this`moveToNextPartition
      ensures Valid() && moveToNextPartition
      ensures ck == if drawn == 0 then CkOfRow(series, 0) else Ck(series, drawn - 1)
    {
      moveToNextPartition := true;
      var position := ckPosition + pkGeneration * ckCount;
      if drawn > 0 {
        Arithmetic.DivModParts(RowNumber(series, drawn - 1), ckCount);
      }
      ck := Wrap64(-(Wrap64(startTime + Wrap64(period * position)) as int));
    }
  }

  /** From one draw to the next a thread takes its next partition, or starts again with its first. */
  lemma StepPosition(s: Series, k: nat)
    requires s.Valid()
    ensures k == 0 ==> Position(s, 0, k) == s.pkOffset && RowNumber(s, k) == 0
    ensures k > 0 ==>
              var next := Position(s, 0, k - 1) + s.threads;
              if next >= s.pkCount + s.pkOffset
              then Position(s, 0, k) == s.pkOffset && RowNumber(s, k) == RowNumber(s, k - 1) + 1
              else Position(s, 0, k) == next && RowNumber(s, k) == RowNumber(s, k - 1)
  {
    var m := s.Cycle();
    RoundUp(s.pkCount, s.threads);
    if k == 0 {
      Arithmetic.DivModUnique(0, m, 0, 0);
    } else {
      var q, j := (k - 1) / m, (k - 1) % m;
      assert k - 1 == q * m + j;
      assert (j + 1) * s.threads == j * s.threads + s.threads;
      if j + 1 < m {
        Arithmetic.DivModUnique(k, m, q, j + 1);
        Arithmetic.MulMonotone(j + 1, m - 1, s.threads);
      } else {
        assert (q + 1) * m == q * m + m;
        Arithmetic.DivModUnique(k, m, q + 1, 0);
      }
    }
  }

  /** The generation and the row's place in it follow the row number. */
  lemma StepRow(s: Series, k: nat)
    requires s.Valid()
    ensures RowNumber(s, k) >= 0
    ensures RowNumber(s, 0) == 0 && 0 / s.ckCount == 0 && 0 % s.ckCount == 0
    ensures k > 0 ==>
              var c := RowNumber(s, k - 1);
              if c % s.ckCount + 1 >= s.ckCount
              then (c + 1) / s.ckCount == c / s.ckCount + 1 && (c + 1) % s.ckCount == 0
              else (c + 1) / s.ckCount == c / s.ckCount && (c + 1) % s.ckCount == c % s.ckCount + 1
  {
    Arithmetic.DivModUnique(0, s.ckCount, 0, 0);
    Arithmetic.DivModUnique(0, s.Cycle(), 0, 0);
    Arithmetic.QuotientNatural(k, s.Cycle());
    if k > 0 {
      var c := RowNumber(s, k - 1);
      var q, i := c / s.ckCount, c % s.ckCount;
      assert c == q * s.ckCount + i;
      if i + 1 >= s.ckCount {
        assert (q + 1) * s.ckCount == q * s.ckCount + s.ckCount;
        Arithmetic.DivModUnique(c + 1, s.ckCount, q + 1, 0);
      } else {
        Arithmetic.DivModUnique(c + 1, s.ckCount, q, i + 1);
      }
    }
  }

  // ---- the rows of a whole fleet ----

  /** The keys of the draw are what exact arithmetic makes them. */
  ghost predicate Representable(s: Series, thread: int, k: nat)
    requires s.Valid()
  {
    var time := s.start + s.period * RowNumber(s, k);
    Packable(Position(s, thread, k), Generation(s, k)) && FitsInt64(time) && FitsInt64(-time)
  }

  /** In range, the clustering key of row number `c` is the time `c` periods after the start, negated. */
  lemma CkExact(s: Series, c: int)
    requires FitsInt64(s.start + s.period * c) && FitsInt64(-(s.start + s.period * c))
    ensures CkOfRow(s, c) == -(s.start + s.period * c)
  {
    WrapSum(s.start, s.period * c);
  }

  lemma WrapSum(a: int, x: int)
    requires FitsInt64(a + x)
    ensures Wrap64(a + Wrap64(x)) == a + x
  {}

  /** A position belongs to one thread and one place in its cycle: together the threads cover `threads * Cycle()`. */
  lemma PositionOwner(s: Series, thread: int, k: nat, p: int)
    requires s.Valid() && 0 <= thread < s.threads
    ensures Position(s, thread, k) == p
            <==> && s.pkOffset <= p < s.pkOffset + s.threads * s.Cycle()
                 && thread == (p - s.pkOffset) % s.threads && k % s.Cycle() == (p - s.pkOffset) / s.threads
  {
    var d, j := p - s.pkOffset, k % s.Cycle();
    Arithmetic.DivModParts(k, s.Cycle());
    Arithmetic.MulMonotone(0, j, s.threads);
    Arithmetic.MulMonotone(j + 1, s.Cycle(), s.threads);
    Arithmetic.Distribute(j + 1, j, s.threads);
    if Position(s, thread, k) == p {
      Arithmetic.DivModUnique(d, s.threads, j, thread);
    } else {
      Arithmetic.DivModParts(d, s.threads);
    }
  }

  /** The positions are exactly `[pkOffset, pkOffset + pkCount)` when the threads divide the partitions evenly. */
  lemma EvenThreads(s: Series)
    requires s.Valid()
    ensures s.threads * (s.Cycle() - 1) < s.pkCount <= s.threads * s.Cycle()
    ensures s.threads * s.Cycle() == s.pkCount <==> s.pkCount % s.threads == 0
  {
    RoundUp(s.pkCount, s.threads);
    var m := s.Cycle();
    if s.pkCount % s.threads == 0 {
      var q := s.pkCount / s.threads;
      Arithmetic.DivModParts(s.pkCount, s.threads);
      assert s.pkCount + s.threads - 1 == q * s.threads + (s.threads - 1);
      Arithmetic.DivModUnique(s.pkCount + s.threads - 1, s.threads, q, s.threads - 1);
    }
    if m * s.threads == s.pkCount {
      Arithmetic.DivModUnique(s.pkCount, s.threads, m, 0);
    }
  }

  /** A draw is recovered from its place in the cycle and its row number. */
  lemma DrawOf(s: Series, k: nat)
    requires s.Valid()
    ensures k == RowNumber(s, k) * s.Cycle() + k % s.Cycle()
    ensures RowNumber(s, k) == Generation(s, k) * s.ckCount + RowNumber(s, k) % s.ckCount
  {
    Arithmetic.DivModParts(k, s.Cycle());
    Arithmetic.DivModParts(RowNumber(s, k), s.ckCount);
  }

  /** No two draws of a run, of one thread or of two, produce the same key. */
  lemma DrawsDistinct(s: Series, t: int, k: nat, t': int, k': nat)
    requires s.Valid() && 0 <= t < s.threads && 0 <= t' < s.threads
    requires s.period != 0 || s.ckCount == 1
    requires Representable(s, t, k) && Representable(s, t', k')
    requires Pk(s, t, k) == Pk(s, t', k') && Ck(s, k) == Ck(s, k')
    ensures t == t' && k == k'
  {
    PackInjective(Position(s, t, k), Generation(s, k), Position(s, t', k'), Generation(s, k'));
    PositionOwner(s, t, k, Position(s, t, k));
    PositionOwner(s, t', k', Position(s, t, k));
    var c, c' := RowNumber(s, k), RowNumber(s, k');
    CkExact(s, c);
    CkExact(s, c');
    DrawOf(s, k);
    DrawOf(s, k');
    if s.period != 0 {
      assert s.period * c == s.period * c';
      CancelFactor(s.period, c, c');
    }
  }

  lemma CancelFactor(f: int, a: int, b: int)
    requires f != 0 && f * a == f * b
    ensures a == b
  {}

  ghost predicate SameKey(s: Series, t: int, k: nat, t': int, k': nat)
    requires s.Valid()
  {
    Pk(s, t, k) == Pk(s, t', k') && Ck(s, k) == Ck(s, k')
  }

  /** No key comes up twice in any run of the fleet, if and only if rows have different times or partitions one row. */
  lemma NoKeyTwice(s: Series)
    requires s.Valid() && Representable(s, 0, 0)
    ensures (forall t, k: nat, t', k': nat
              | 0 <= t < s.threads && 0 <= t' < s.threads && Representable(s, t, k) && Representable(s, t', k')
              :: SameKey(s, t, k, t', k') ==> t == t' && k == k')
            <==> s.period != 0 || s.ckCount == 1
  {
    if s.period != 0 || s.ckCount == 1 {
      forall t, k: nat, t', k': nat
        | 0 <= t < s.threads && 0 <= t' < s.threads && Representable(s, t, k) && Representable(s, t', k')
          && SameKey(s, t, k, t', k')
        ensures t == t' && k == k'
      {
        DrawsDistinct(s, t, k, t', k');
      }
    } else {
      SecondRoundRepeats(s);
    }
  }

  /** With period zero the second row of a partition repeats the key of the first. */
  lemma SecondRoundRepeats(s: Series)
    requires s.Valid() && s.period == 0 && s.ckCount > 1 && Representable(s, 0, 0)
    ensures Representable(s, 0, s.Cycle()) && SameKey(s, 0, 0, 0, s.Cycle())
  {
    var m := s.Cycle();
    Arithmetic.DivModUnique(0, m, 0, 0);
    Arithmetic.DivModUnique(m, m, 1, 0);
    Arithmetic.DivModUnique(0, s.ckCount, 0, 0);
    Arithmetic.DivModUnique(1, s.ckCount, 0, 1);
  }

  /** The draw that adds row `i` of generation `g` to place `j` of the cycle. */
  function DrawAt(s: Series, j: int, g: int, i: int): int
    requires s.Valid()
  {
    (g * s.ckCount + i) * s.Cycle() + j
  }

  lemma DrawAtRow(s: Series, k: nat, j: nat, g: nat, i: nat)
    requires s.Valid() && j < s.Cycle() && i < s.ckCount
    ensures k == DrawAt(s, j, g, i)
            <==> k % s.Cycle() == j && Generation(s, k) == g && RowNumber(s, k) % s.ckCount == i
  {
    DrawOf(s, k);
    if k == DrawAt(s, j, g, i) {
      Arithmetic.DivModUnique(k, s.Cycle(), g * s.ckCount + i, j);
      Arithmetic.DivModUnique(g * s.ckCount + i, s.ckCount, g, i);
    }
  }

  lemma DrawsDiffer(s: Series, j: int, g: int, i: int, i': int)
    requires s.Valid() && i < i'
    ensures DrawAt(s, j, g, i) < DrawAt(s, j, g, i')
  {
    var m, from := s.Cycle(), g * s.ckCount;
    Arithmetic.MulMonotone(from + i + 1, from + i', m);
    Arithmetic.Distribute(from + i + 1, from + i, m);
  }

  /** Whether draw `k` adds one of the rows of generation `g` to place `j` of the cycle. */
  ghost predicate FillsGeneration(s: Series, k: nat, j: nat, g: nat)
    requires s.Valid()
  {
    exists i | 0 <= i < s.ckCount :: k == DrawAt(s, j, g, i)
  }

  /** One generation of one position is filled by exactly `ckCount` draws of its thread, one for each row of it. */
  lemma GenerationRows(s: Series, k: nat, j: nat, g: nat)
    requires s.Valid() && j < s.Cycle()
    ensures k % s.Cycle() == j && Generation(s, k) == g <==> FillsGeneration(s, k, j, g)
    ensures forall i, i' | 0 <= i < i' < s.ckCount :: DrawAt(s, j, g, i) < DrawAt(s, j, g, i')
  {
    if k % s.Cycle() == j && Generation(s, k) == g {
      DrawOf(s, k);
      DrawAtRow(s, k, j, g, RowNumber(s, k) % s.ckCount);
    }
    if FillsGeneration(s, k, j, g) {
      var i :| 0 <= i < s.ckCount && k == DrawAt(s, j, g, i);
      DrawAtRow(s, k, j, g, i);
    }
    forall i, i' | 0 <= i < i' < s.ckCount
      ensures DrawAt(s, j, g, i) < DrawAt(s, j, g, i')
    {
      DrawsDiffer(s, j, g, i, i');
    }
  }

  /** Later rows of a position have strictly smaller clustering keys. */
  lemma NewerRowsSortFirst(s: Series, thread: int, k: nat, k': nat)
    requires s.Valid() && s.period > 0 && k < k' && k % s.Cycle() == k' % s.Cycle()
    requires Representable(s, thread, k) && Representable(s, thread, k')
    ensures Ck(s, k') < Ck(s, k)
  {
    var c, c' := RowNumber(s, k), RowNumber(s, k');
    CkExact(s, c);
    CkExact(s, c');
    LaterRow(s, k, k');
    LaterTime(s.period, c, c');
  }

  lemma LaterRow(s: Series, k: nat, k': nat)
    requires s.Valid() && k < k' && k % s.Cycle() == k' % s.Cycle()
    ensures RowNumber(s, k) < RowNumber(s, k')
  {
    DrawOf(s, k);
    DrawOf(s, k');
    if RowNumber(s, k') <= RowNumber(s, k) {
      Arithmetic.MulMonotone(RowNumber(s, k'), RowNumber(s, k), s.Cycle());
    }
  }

  lemma LaterTime(period: int, c: int, c': int)
    requires period > 0 && c < c'
    ensures period * c < period * c'
  {
    Arithmetic.MulMonotone(c + 1, c', period);
    Arithmetic.Distribute(c + 1, c, period);
  }
}
