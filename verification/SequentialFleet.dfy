/**
 The sequential workload over a whole fleet of threads: how `GetWorkload` splits a table, and which rows all threads
 together write, and how often.

 Rows are numbered so that row `x` of a table with `c` rows per partition is row `x % c` of partition `x / c`.
 */
module SequentialFleet {
  import opened GoInts
  import opened Generators
  import opened RunLoop
  import opened Batches
  import Arithmetic

  /** The table written by one loader: partitions `[offset, offset + partitions)` of `c` rows each. */
  datatype Load = Load(offset: int, partitions: int, c: int, threads: int)
  {
    /** The loader was started with sensible numbers, and its row numbers fit 64 bits. */
    ghost predicate Valid() {
      && 0 <= offset && 0 <= partitions && 1 <= c && 1 <= threads
      && (offset + partitions) * c <= MAX_INT64
    }

    ghost predicate InTable(x: int) {
      offset * c <= x < (offset + partitions) * c
    }

    function Total(): int { partitions * c }
  }

  datatype Share = Share(rowOffset: int, rowCount: int)

  /** The share of a thread as the program computes it. */
  function GetShare(l: Load, thread: int): Share
    requires l.threads != 0
  {
    var totalRowCount := Wrap64(l.partitions * l.c);
    var rowCount, rowRemainder := Quo(totalRowCount, l.threads), Rem(totalRowCount, l.threads);
    var additionalRows := if thread < rowRemainder then 1 else 0;
    var currentRemainderPartialOffset := if thread < rowRemainder then thread else rowRemainder;
    var rowOffset := Wrap64(Wrap64(Wrap64(l.offset * l.c) + Wrap64(thread * rowCount)) + currentRemainderPartialOffset);
    Share(rowOffset, rowCount + additionalRows)
  }

  /** The generator a thread gets for the sequential workload; `null` stands for the panic without clustering rows. */
  method GetSequentialWorkload(l: Load, thread: int) returns (rows: SequentialVisitAll?)
    requires l.threads != 0
    ensures rows == null <==> l.c <= 0
    ensures rows != null ==>
              && fresh(rows) && rows.Valid() && rows.AtStart() && rows.clusteringRowCount == l.c
              && rows.Start() == GetShare(l, thread).rowOffset && rows.rowCount == GetShare(l, thread).rowCount
              && (0 <= GetShare(l, thread).rowOffset ==> rows.InPartition())
  {
    var share := GetShare(l, thread);
    rows := NewSequentialVisitAll(share.rowOffset, share.rowCount, l.c);
  }

  // ---- the shares tile the table ----

  /** Where the share of a thread starts, in exact arithmetic; thread `l.threads` would start where the table ends. */
  function Boundary(l: Load, thread: int): int
    requires l.threads > 0
  {
    l.offset * l.c + thread * (l.Total() / l.threads) + Min(thread, l.Total() % l.threads)
  }

  lemma TableSpan(l: Load)
    requires l.Valid()
    ensures (l.offset + l.partitions) * l.c == l.offset * l.c + l.Total()
    ensures 0 <= l.offset * l.c && 0 <= l.Total()
  {
    Arithmetic.MulMonotone(0, l.offset, l.c);
    Arithmetic.MulMonotone(0, l.partitions, l.c);
    Arithmetic.Distribute(l.offset + l.partitions, l.offset, l.c);
  }

  lemma QuotientBounds(l: Load, thread: int)
    requires l.Valid() && 0 <= thread <= l.threads
    ensures 0 <= thread * (l.Total() / l.threads) <= l.Total()
    ensures thread * (l.Total() / l.threads) + Min(thread, l.Total() % l.threads) <= l.Total()
  {
    TableSpan(l);
    var q := l.Total() / l.threads;
    assert q >= 0;
    Arithmetic.MulMonotone(0, thread, q);
    Arithmetic.MulMonotone(thread, l.threads, q);
    assert l.Total() == l.threads * q + l.Total() % l.threads;
  }

  lemma QuoRem(n: int, d: int)
    requires 0 <= n && 0 < d
    ensures Quo(n, d) == n / d && Rem(n, d) == n % d
  {
    Arithmetic.DivModParts(n, d);
  }

  lemma SumFits(a: int, b: int, c: int)
    requires 0 <= a && 0 <= b && 0 <= c && a + b + c <= MAX_INT64
    ensures Wrap64(Wrap64(Wrap64(a) + Wrap64(b)) + c) == a + b + c
  {}

  /** The share by quotient and remainder, before it is known that nothing wraps. */
  lemma ShareFrom(l: Load, thread: int, total: int, q: int, m: int, first: int)
    requires l.threads != 0 && total == Wrap64(l.partitions * l.c)
    requires q == Quo(total, l.threads) && m == Rem(total, l.threads)
    requires first == Wrap64(Wrap64(Wrap64(l.offset * l.c) + Wrap64(thread * q)) + Min(thread, m))
    ensures GetShare(l, thread) == Share(first, q + if thread < m then 1 else 0)
  {}

  /** No step of the computation wraps: it yields the exact share. */
  lemma ShareExact(l: Load, thread: int)
    requires l.Valid() && 0 <= thread < l.threads
    ensures GetShare(l, thread)
            == Share(Boundary(l, thread), l.Total() / l.threads + if thread < l.Total() % l.threads then 1 else 0)
  {
    var q, m := l.Total() / l.threads, l.Total() % l.threads;
    TableSpan(l);
    QuotientBounds(l, thread);
    QuoRem(l.Total(), l.threads);
    SumFits(l.offset * l.c, thread * q, Min(thread, m));
    ShareFrom(l, thread, l.Total(), q, m, Boundary(l, thread));
  }

  /** Shares follow one another without gap or overlap. */
  lemma NextBoundary(l: Load, thread: int)
    requires l.Valid() && 0 <= thread < l.threads
    ensures Boundary(l, thread + 1) == Boundary(l, thread) + GetShare(l, thread).rowCount
  {
    ShareExact(l, thread);
    Arithmetic.Distribute(thread + 1, thread, l.Total() / l.threads);
  }

  /** The first share starts with the table and the last one ends with it. */
  lemma OuterBoundaries(l: Load)
    requires l.Valid()
    ensures Boundary(l, 0) == l.offset * l.c
    ensures Boundary(l, l.threads) == (l.offset + l.partitions) * l.c
  {
    TableSpan(l);
    assert l.Total() == l.threads * (l.Total() / l.threads) + l.Total() % l.threads;
  }

  lemma ShareBounds(l: Load, thread: int)
    requires l.Valid() && 0 <= thread <= l.threads
    ensures l.offset * l.c <= Boundary(l, thread) <= (l.offset + l.partitions) * l.c
  {
    TableSpan(l);
    QuotientBounds(l, thread);
  }

  /** No share is empty exactly when there are at least as many rows as threads. */
  lemma NonEmptyShares(l: Load)
    requires l.Valid()
    ensures l.threads <= l.Total() <==> forall thread | 0 <= thread < l.threads :: GetShare(l, thread).rowCount >= 1
  {
    TableSpan(l);
    var q, m := l.Total() / l.threads, l.Total() % l.threads;
    assert l.Total() == l.threads * q + m;
    forall thread | 0 <= thread < l.threads
      ensures GetShare(l, thread).rowCount == q + if thread < m then 1 else 0
    {
      ShareExact(l, thread);
    }
    if l.threads <= l.Total() {
      if q <= 0 {
        Arithmetic.MulMonotone(q, 0, l.threads);
      }
    } else {
      if q >= 1 {
        Arithmetic.MulMonotone(1, q, l.threads);
      }
      assert GetShare(l, l.threads - 1).rowCount == q + if l.threads - 1 < m then 1 else 0;
    }
  }

  /** Every row of the table lies in the share of some thread. */
  lemma {:induction false} FindThread(l: Load, x: int, bound: int) returns (thread: int)
    requires l.Valid() && 0 < bound <= l.threads
    requires l.offset * l.c <= x < Boundary(l, bound)
    ensures 0 <= thread < bound && Boundary(l, thread) <= x < Boundary(l, thread + 1)
  {
    OuterBoundaries(l);
    if Boundary(l, bound - 1) <= x {
      thread := bound - 1;
    } else {
      thread := FindThread(l, x, bound - 1);
    }
  }

  // ---- one row per operation: every row the same number of times ----

  /** How often row `x` comes up in the first `k` operations of a share. */
  ghost function Touches(start: int, n: int, k: nat, x: int): nat {
    if k == 0 then 0 else Touches(start, n, k - 1, x) + if Cyclic(start, n, k - 1) == x then 1 else 0
  }

  lemma {:induction false} PartialPass(start: int, n: int, k: nat, p: nat, x: int)
    requires n >= 1 && p <= n
    ensures k * n + p >= 0
    ensures Touches(start, n, k * n + p, x) == Touches(start, n, k * n, x) + if start <= x < start + p then 1 else 0
  {
    if p != 0 {
      PartialPass(start, n, k, p - 1, x);
      Arithmetic.DivModUnique(k * n + (p - 1), n, k, p - 1);
    }
  }

  lemma {:induction false} FullPasses(start: int, n: int, k: nat, x: int)
    requires n >= 1
    ensures k * n >= 0
    ensures Touches(start, n, k * n, x) == if start <= x < start + n then k else 0
  {
    if k != 0 {
      FullPasses(start, n, k - 1, x);
      PartialPass(start, n, k - 1, n, x);
      assert (k - 1) * n + n == k * n;
    }
  }

  lemma {:induction false} EmptyShareTouches(start: int, n: int, k: nat, x: int)
    requires n < 1
    ensures Touches(start, n, k, x) == if x == start then k else 0
  {
    if k != 0 {
      EmptyShareTouches(start, n, k - 1, x);
    }
  }

  /** How often a thread that nobody stops attempts row `x`. */
  ghost function ThreadTouches(l: Load, thread: int, iterations: nat, x: int): nat
    requires l.Valid() && 0 <= thread < l.threads && iterations > 0
  {
    var share := GetShare(l, thread);
    var k := Complete(share.rowCount, iterations);
    if k < 0 then 0 else Touches(share.rowOffset, share.rowCount, k, x)
  }

  lemma ThreadTouchesRow(l: Load, thread: int, iterations: nat, x: int)
    requires l.Valid() && 0 <= thread < l.threads && iterations > 0
    ensures ThreadTouches(l, thread, iterations, x)
            == if GetShare(l, thread).rowCount >= 1
               then if Boundary(l, thread) <= x < Boundary(l, thread + 1) then iterations else 0
               else if x == Boundary(l, thread) then iterations - 1 else 0
  {
    var share := GetShare(l, thread);
    ShareExact(l, thread);
    NextBoundary(l, thread);
    if share.rowCount >= 1 {
      FullPasses(share.rowOffset, share.rowCount, iterations, x);
    } else {
      EmptyShareTouches(share.rowOffset, share.rowCount, iterations - 1, x);
    }
  }

  /** How often the first `bound` threads together attempt row `x`. */
  ghost function FleetTouches(l: Load, bound: nat, iterations: nat, x: int): nat
    requires l.Valid() && bound <= l.threads && iterations > 0
  {
    if bound == 0 then 0 else FleetTouches(l, bound - 1, iterations, x) + ThreadTouches(l, bound - 1, iterations, x)
  }

  /** A row from `lo` to `hi` is attempted `k` times, any other not at all. */
  function Between(lo: int, hi: int, x: int, k: nat): nat { if lo <= x < hi then k else 0 }

  lemma BetweenParts(lo: int, mid: int, hi: int, x: int, k: nat)
    requires lo <= mid <= hi
    ensures Between(lo, hi, x, k) == Between(lo, mid, x, k) + Between(mid, hi, x, k)
  {}

  lemma ThreadTouchesShare(l: Load, thread: int, iterations: nat, x: int)
    requires l.Valid() && 0 <= thread < l.threads && iterations > 0
    requires l.threads <= l.Total() || iterations == 1
    ensures Boundary(l, thread) <= Boundary(l, thread + 1)
    ensures ThreadTouches(l, thread, iterations, x)
            == Between(Boundary(l, thread), Boundary(l, thread + 1), x, iterations)
  {
    ThreadTouchesRow(l, thread, iterations, x);
    NextBoundary(l, thread);
    NonEmptyShares(l);
    RowCountNatural(l, thread);
  }

  lemma RowCountNatural(l: Load, thread: int)
    requires l.Valid() && 0 <= thread < l.threads
    ensures GetShare(l, thread).rowCount >= 0
  {
    TableSpan(l);
    Arithmetic.QuotientNatural(l.Total(), l.threads);
    ShareExact(l, thread);
  }

  lemma ShareStartNatural(l: Load, thread: int)
    requires l.Valid() && 0 <= thread < l.threads
    ensures 0 <= GetShare(l, thread).rowOffset
  {
    TableSpan(l);
    ShareExact(l, thread);
    ShareBounds(l, thread);
  }

  lemma NotBeforeFirst(l: Load, thread: int)
    requires l.Valid() && 0 <= thread <= l.threads
    ensures Boundary(l, 0) <= Boundary(l, thread)
  {
    ShareBounds(l, thread);
    OuterBoundaries(l);
  }

  /** Shares that follow one another add up. */
  lemma {:induction false} SharesAddUp(l: Load, bound: nat, iterations: nat, x: int, boundary: nat -> int)
    requires l.Valid() && bound <= l.threads && iterations > 0
    requires forall thread: nat | thread < bound ::
               && boundary(0) <= boundary(thread) <= boundary(thread + 1)
               && ThreadTouches(l, thread, iterations, x)
                  == Between(boundary(thread), boundary(thread + 1), x, iterations)
    ensures FleetTouches(l, bound, iterations, x) == Between(boundary(0), boundary(bound), x, iterations)
  {
    if bound != 0 {
      SharesAddUp(l, bound - 1, iterations, x, boundary);
      BetweenParts(boundary(0), boundary(bound - 1), boundary(bound), x, iterations);
    }
  }

  lemma FleetPrefix(l: Load, bound: nat, iterations: nat, x: int)
    requires l.Valid() && bound <= l.threads && iterations > 0
    requires l.threads <= l.Total() || iterations == 1
    ensures FleetTouches(l, bound, iterations, x) == Between(Boundary(l, 0), Boundary(l, bound), x, iterations)
  {
    var boundary: nat -> int := thread => if l.threads > 0 then Boundary(l, thread) else 0;
    forall thread: nat | thread < bound
      ensures boundary(0) <= boundary(thread) <= boundary(thread + 1)
      ensures ThreadTouches(l, thread, iterations, x)
              == Between(boundary(thread), boundary(thread + 1), x, iterations)
    {
      ThreadTouchesShare(l, thread, iterations, x);
      NotBeforeFirst(l, thread);
    }
    SharesAddUp(l, bound, iterations, x, boundary);
  }

  /**
   All threads together attempt every row of the table exactly `iterations` times and no other row, if and only if no
   share is empty or there is a single iteration.
   */
  lemma EveryRowEquallyOften(l: Load, iterations: nat)
    requires l.Valid() && iterations > 0
    ensures (forall x :: FleetTouches(l, l.threads, iterations, x) == if l.InTable(x) then iterations else 0)
            <==> l.threads <= l.Total() || iterations == 1
  {
    OuterBoundaries(l);
    if l.threads <= l.Total() || iterations == 1 {
      forall x
        ensures FleetTouches(l, l.threads, iterations, x) == if l.InTable(x) then iterations else 0
      {
        FleetPrefix(l, l.threads, iterations, x);
      }
    } else {
      RowPastTheTable(l, iterations);
      assert !l.InTable((l.offset + l.partitions) * l.c);
    }
  }

  /** With more threads than rows, restarting makes the idle threads touch the first row past the table. */
  lemma RowPastTheTable(l: Load, iterations: nat)
    requires l.Valid() && l.Total() < l.threads && iterations > 1
    ensures FleetTouches(l, l.threads, iterations, (l.offset + l.partitions) * l.c) >= iterations - 1
  {
    var thread := l.threads - 1;
    var end := (l.offset + l.partitions) * l.c;
    LastShareEmpty(l);
    ThreadTouchesRow(l, thread, iterations, end);
  }

  lemma LastShareEmpty(l: Load)
    requires l.Valid() && l.Total() < l.threads
    ensures GetShare(l, l.threads - 1) == Share((l.offset + l.partitions) * l.c, 0)
    ensures Boundary(l, l.threads - 1) == (l.offset + l.partitions) * l.c
  {
    TableSpan(l);
    Arithmetic.DivModUnique(l.Total(), l.threads, 0, l.Total());
    ShareExact(l, l.threads - 1);
  }

  // ---- the same in terms of keys ----

  /** A row number inside the table is a key inside the table's partitions, and the other way round. */
  lemma TableKeys(l: Load, x: int)
    requires l.Valid()
    ensures l.InTable(x) <==> l.offset <= Key(x, l.c).0 < l.offset + l.partitions
  {
    var p, r := x / l.c, x % l.c;
    assert x == p * l.c + r;
    Arithmetic.RowAtOrAfter(p, r, l.c, l.offset);
    Arithmetic.RowAtOrAfter(p, r, l.c, l.offset + l.partitions);
  }

  ghost function Count(keys: seq<(int, int)>, key: (int, int)): nat {
    if keys == [] then 0 else Count(keys[..|keys| - 1], key) + if keys[|keys| - 1] == key then 1 else 0
  }

  /** The keys a run draws contain each key as often as its row comes up. */
  lemma {:induction false} KeysTouched(keys: seq<(int, int)>, start: int, n: int, c: int, p: int, r: int)
    requires c > 0
    requires forall i | 0 <= i < |keys| :: keys[i] == Key(Cyclic(start, n, i), c)
    ensures Count(keys, (p, r)) == if 0 <= r < c then Touches(start, n, |keys|, p * c + r) else 0
  {
    if keys != [] {
      var k := |keys| - 1;
      KeysTouched(keys[..k], start, n, c, p, r);
      var x := Cyclic(start, n, k);
      if 0 <= r < c {
        Generators.KeyOf(p, r, c);
        assert x == (x / c) * c + x % c;
      }
    }
  }

  /** The keys a thread draws when nobody stops it. */
  ghost function ThreadKeys(l: Load, thread: int, iterations: nat): (keys: seq<(int, int)>)
    requires l.Valid() && 0 <= thread < l.threads && iterations > 0
  {
    var share := GetShare(l, thread);
    var k := Complete(share.rowCount, iterations);
    seq(if k < 0 then 0 else k, i requires 0 <= i => Key(Cyclic(share.rowOffset, share.rowCount, i), l.c))
  }

  /** What a thread attempts, from the split of the table to the end of the loop: its keys, cut where it is stopped. */
  method RunThread(l: Load, thread: int, iterations: nat, quiet: nat) returns (keys: seq<(int, int)>)
    requires l.Valid() && 0 <= thread < l.threads && iterations > 0
    ensures var all := ThreadKeys(l, thread, iterations);
            keys == if quiet < |all| then all[..quiet] else all
  {
    var rows := GetSequentialWorkload(l, thread);
    ShareStartNatural(l, thread);
    RowCountNatural(l, thread);
    var iter := new TestIterator(Sequential(rows), iterations);
    keys := RunRows(iter, quiet);
    ghost var all := ThreadKeys(l, thread, iterations);
    if rows.rowCount >= 1 {
      Arithmetic.MulMonotone(0, iterations, rows.rowCount);
    }
    assert |keys| == Min(quiet, |all|);
  }

  ghost function FleetCount(l: Load, bound: nat, iterations: nat, key: (int, int)): nat
    requires l.Valid() && bound <= l.threads && iterations > 0
  {
    if bound == 0 then 0
    else FleetCount(l, bound - 1, iterations, key) + Count(ThreadKeys(l, bound - 1, iterations), key)
  }

  lemma ThreadCount(l: Load, thread: int, iterations: nat, p: int, r: int)
    requires l.Valid() && 0 <= thread < l.threads && iterations > 0
    ensures Count(ThreadKeys(l, thread, iterations), (p, r))
            == if 0 <= r < l.c then ThreadTouches(l, thread, iterations, p * l.c + r) else 0
  {
    var share := GetShare(l, thread);
    KeysTouched(ThreadKeys(l, thread, iterations), share.rowOffset, share.rowCount, l.c, p, r);
  }

  lemma {:induction false} FleetCountTouches(l: Load, bound: nat, iterations: nat, p: int, r: int)
    requires l.Valid() && bound <= l.threads && iterations > 0
    ensures FleetCount(l, bound, iterations, (p, r))
            == if 0 <= r < l.c then FleetTouches(l, bound, iterations, p * l.c + r) else 0
  {
    if bound != 0 {
      FleetCountTouches(l, bound - 1, iterations, p, r);
      ThreadCount(l, bound - 1, iterations, p, r);
    }
  }

  /** Whether all threads together draw each key of the table exactly `iterations` times, and no other key. */
  ghost predicate ExactlyOnceEachIteration(l: Load, iterations: nat)
    requires l.Valid() && iterations > 0
  {
    forall p, r :: FleetCount(l, l.threads, iterations, (p, r))
                   == if l.offset <= p < l.offset + l.partitions && 0 <= r < l.c then iterations else 0
  }

  /** The fleet visits the table evenly if and only if no share is empty or there is a single iteration. */
  lemma FleetExactlyOnce(l: Load, iterations: nat)
    requires l.Valid() && iterations > 0
    ensures ExactlyOnceEachIteration(l, iterations) <==> l.threads <= l.Total() || iterations == 1
  {
    forall p, r
      ensures FleetCount(l, l.threads, iterations, (p, r))
              == if 0 <= r < l.c then FleetTouches(l, l.threads, iterations, p * l.c + r) else 0
      ensures 0 <= r < l.c ==> (l.InTable(p * l.c + r) <==> l.offset <= p < l.offset + l.partitions)
    {
      FleetCountTouches(l, l.threads, iterations, p, r);
      if 0 <= r < l.c {
        TableKeys(l, p * l.c + r);
        Generators.KeyOf(p, r, l.c);
      }
    }
    if l.threads <= l.Total() || iterations == 1 {
      EveryRowEquallyOften(l, iterations);
    } else {
      RowPastTheTable(l, iterations);
      var p := l.offset + l.partitions;
      assert FleetCount(l, l.threads, iterations, (p, 0)) == FleetTouches(l, l.threads, iterations, p * l.c + 0);
    }
  }

  // ---- several loaders ----

  /** With idle threads and a second iteration a loader also touches the row after its last. */
  predicate Overruns(l: Load, iterations: nat) { l.Total() < l.threads && iterations > 1 }

  /** The keys a loader draws: those of its partitions, and the first of the next if it overruns. */
  predicate Draws(l: Load, iterations: nat, p: int, r: int) {
    0 <= r < l.c && (l.offset <= p < l.offset + l.partitions
                     || (Overruns(l, iterations) && p == l.offset + l.partitions && r == 0))
  }

  lemma {:induction false} FleetTouchesSome(l: Load, bound: nat, iterations: nat, x: int, thread: nat)
    requires l.Valid() && thread < bound <= l.threads && iterations > 0
    requires ThreadTouches(l, thread, iterations, x) > 0
    ensures FleetTouches(l, bound, iterations, x) > 0
  {
    if thread < bound - 1 {
      FleetTouchesSome(l, bound - 1, iterations, x, thread);
    }
  }

  lemma {:induction false} FleetTouchesNone(l: Load, bound: nat, iterations: nat, x: int)
    requires l.Valid() && bound <= l.threads && iterations > 0
    requires forall thread | 0 <= thread < bound :: ThreadTouches(l, thread, iterations, x) == 0
    ensures FleetTouches(l, bound, iterations, x) == 0
  {
    if bound != 0 {
      FleetTouchesNone(l, bound - 1, iterations, x);
    }
  }

  /** A share that is not empty lies in the table, and an empty one is at its end. */
  lemma TouchesInside(l: Load, thread: int, iterations: nat, x: int)
    requires l.Valid() && 0 <= thread < l.threads && iterations > 0
    requires ThreadTouches(l, thread, iterations, x) > 0
    ensures l.InTable(x) || (Overruns(l, iterations) && x == (l.offset + l.partitions) * l.c)
  {
    ThreadTouchesRow(l, thread, iterations, x);
    NextBoundary(l, thread);
    ShareBounds(l, thread);
    ShareBounds(l, thread + 1);
    if GetShare(l, thread).rowCount < 1 {
      IdleAtEnd(l, thread);
    }
  }

  lemma IdleAtEnd(l: Load, thread: int)
    requires l.Valid() && 0 <= thread < l.threads
    requires GetShare(l, thread).rowCount < 1
    ensures l.Total() < l.threads && Boundary(l, thread) == (l.offset + l.partitions) * l.c
  {
    TableSpan(l);
    ShareExact(l, thread);
    Arithmetic.QuotientNatural(l.Total(), l.threads);
    var q := l.Total() / l.threads;
    Arithmetic.DivModParts(l.Total(), l.threads);
  }

  /** The rows a fleet touches at all. */
  lemma FleetTouchesIff(l: Load, iterations: nat, x: int)
    requires l.Valid() && iterations > 0
    ensures FleetTouches(l, l.threads, iterations, x) > 0
            <==> l.InTable(x) || (Overruns(l, iterations) && x == (l.offset + l.partitions) * l.c)
  {
    if l.InTable(x) {
      OuterBoundaries(l);
      var thread := FindThread(l, x, l.threads);
      NextBoundary(l, thread);
      ThreadTouchesRow(l, thread, iterations, x);
      FleetTouchesSome(l, l.threads, iterations, x, thread);
    } else if Overruns(l, iterations) && x == (l.offset + l.partitions) * l.c {
      RowPastTheTable(l, iterations);
    } else {
      forall thread | 0 <= thread < l.threads
        ensures ThreadTouches(l, thread, iterations, x) == 0
      {
        if ThreadTouches(l, thread, iterations, x) > 0 {
          TouchesInside(l, thread, iterations, x);
        }
      }
      FleetTouchesNone(l, l.threads, iterations, x);
    }
  }

  /** The keys a fleet draws at all. */
  lemma FleetDraws(l: Load, iterations: nat, p: int, r: int)
    requires l.Valid() && iterations > 0
    ensures FleetCount(l, l.threads, iterations, (p, r)) > 0 <==> Draws(l, iterations, p, r)
  {
    FleetCountTouches(l, l.threads, iterations, p, r);
    if 0 <= r < l.c {
      var end := l.offset + l.partitions;
      FleetTouchesIff(l, iterations, p * l.c + r);
      TableKeys(l, p * l.c + r);
      Generators.KeyOf(p, r, l.c);
      Generators.KeyOf(end, 0, l.c);
    }
  }

  /** Whether one loader runs into the partitions of the other or into the row the other runs into. */
  predicate RunsInto(l: Load, iterations: nat, l': Load, iterations': nat) {
    var end := l.offset + l.partitions;
    Overruns(l, iterations) && (l'.offset <= end < l'.offset + l'.partitions
                                || (Overruns(l', iterations') && end == l'.offset + l'.partitions))
  }

  ghost predicate DrawInCommon(l: Load, iterations: nat, l': Load, iterations': nat)
    requires l.Valid() && l'.Valid() && iterations > 0 && iterations' > 0
  {
    exists p, r ::
      FleetCount(l, l.threads, iterations, (p, r)) > 0 && FleetCount(l', l'.threads, iterations', (p, r)) > 0
  }

  /**
   Loaders with disjoint ranges of partitions draw a key in common if and only if idle threads of one of them run into
   the other's keys.
   */
  lemma LoadersDisjoint(l: Load, l': Load, iterations: nat, iterations': nat)
    requires l.Valid() && l'.Valid() && iterations > 0 && iterations' > 0
    requires l.offset + l.partitions <= l'.offset || l'.offset + l'.partitions <= l.offset
    ensures DrawInCommon(l, iterations, l', iterations')
            <==> RunsInto(l, iterations, l', iterations') || RunsInto(l', iterations', l, iterations)
  {
    forall p, r
      ensures FleetCount(l, l.threads, iterations, (p, r)) > 0 <==> Draws(l, iterations, p, r)
      ensures FleetCount(l', l'.threads, iterations', (p, r)) > 0 <==> Draws(l', iterations', p, r)
    {
      FleetDraws(l, iterations, p, r);
      FleetDraws(l', iterations', p, r);
    }
    if RunsInto(l, iterations, l', iterations') {
      var p := l.offset + l.partitions;
      assert Draws(l, iterations, p, 0) && Draws(l', iterations', p, 0);
      assert FleetCount(l, l.threads, iterations, (p, 0)) > 0;
    }
    if RunsInto(l', iterations', l, iterations) {
      var p := l'.offset + l'.partitions;
      assert Draws(l, iterations, p, 0) && Draws(l', iterations', p, 0);
      assert FleetCount(l, l.threads, iterations, (p, 0)) > 0;
    }
  }
}
