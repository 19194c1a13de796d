/** The token ring cut into ranges, the ranges split over threads, and how often a scan reads each token. */
module TokenScan {
  import opened GoInts
  import opened Generators
  import opened RunLoop
  import SequentialFleet
  import Arithmetic

  predicate Contains(r: TokenRange, token: int64) { r.start <= token <= r.end }

  /** The lemmas below speak of a ring cut into `n` ranges; `n` is a positive Go `int`. */
  predicate RangeCount(n: int) { 1 <= n < TWO_63 }

  lemma TileBounds(n: int, i: int)
    requires RangeCount(n) && 0 <= i <= n
    ensures 1 <= TokensPerRange(n)
    ensures 0 <= i * TokensPerRange(n) <= n * TokensPerRange(n) <= TWO_64 - 1
    ensures n * TokensPerRange(n) == TWO_64 - 1 - (TWO_64 - 1) % n
  {
    var t := TokensPerRange(n);
    assert TWO_64 - 1 == n * t + (TWO_64 - 1) % n;
    if t < 1 {
      Arithmetic.MulMonotone(t, 0, n);
    }
    Arithmetic.MulMonotone(i, n, t);
    Arithmetic.MulMonotone(0, i, t);
  }

  /** Although the products wrap, every range is where exact arithmetic puts it. */
  lemma RangeExact(n: int, i: int)
    requires RangeCount(n) && 0 <= i < n
    ensures RangeAt(n, i).start == MIN_INT64 + i * TokensPerRange(n)
    ensures RangeAt(n, i).end == if i + 1 == n then MAX_INT64 else MIN_INT64 + (i + 1) * TokensPerRange(n) - 1
  {
    var t := TokensPerRange(n);
    TileBounds(n, i);
    TileBounds(n, i + 1);
    Arithmetic.Distribute(i + 1, i, t);
  }

  /** The number of the range a token belongs to. */
  function Owner(n: int, token: int64): int
    requires RangeCount(n)
  {
    if TokensPerRange(n) == 0 then 0 else Min((token - MIN_INT64) / TokensPerRange(n), n - 1)
  }

  lemma OwnerBounds(n: int, token: int64)
    requires RangeCount(n)
    ensures 0 <= Owner(n, token) < n
  {
    TileBounds(n, 0);
    Arithmetic.QuotientNatural(token - MIN_INT64, TokensPerRange(n));
  }

  /** A token belongs to range `i` or a later one exactly when it is not before the start of that range. */
  lemma NotBefore(n: int, i: int, token: int64)
    requires RangeCount(n) && 0 <= i < n
    ensures MIN_INT64 + i * TokensPerRange(n) <= token <==> i <= Owner(n, token)
  {
    var t, d := TokensPerRange(n), token - MIN_INT64;
    TileBounds(n, i);
    Arithmetic.DivModParts(d, t);
    Arithmetic.RowAtOrAfter(d / t, d % t, t, i);
  }

  /** Every token of the ring lies in exactly one range. */
  lemma RangesTile(n: int, i: int, token: int64)
    requires RangeCount(n) && 0 <= i < n
    ensures 0 <= Owner(n, token) < n
    ensures Contains(RangeAt(n, i), token) <==> i == Owner(n, token)
  {
    RangeExact(n, i);
    OwnerBounds(n, token);
    NotBefore(n, i, token);
    if i + 1 < n {
      NotBefore(n, i + 1, token);
    }
  }

  /** All ranges but the last have the same size, and the last is larger by one plus a remainder. */
  lemma RangeSizes(n: int, i: int)
    requires RangeCount(n) && 2 <= n && 0 <= i < n
    ensures RangeAt(n, i).end - RangeAt(n, i).start + 1
            == (TWO_64 - 1) / n + if i + 1 == n then 1 + (TWO_64 - 1) % n else 0
  {
    RangeExact(n, i);
    TileBounds(n, i + 1);
    Arithmetic.Distribute(i + 1, i, TokensPerRange(n));
  }

  // ---- the split over threads ----

  datatype ScanShare = ScanShare(offset: int, count: int)

  /** The ranges of a thread as `GetWorkload` computes them. */
  function GetScanShare(rangeCount: int, concurrency: int, thread: int): ScanShare
    requires concurrency != 0
  {
    var rangesPerThread := Quo(rangeCount, concurrency);
    var thisOffset := rangesPerThread * thread;
    ScanShare(thisOffset, if thread + 1 == concurrency then rangeCount - thisOffset else rangesPerThread)
  }

  method GetScanWorkload(rangeCount: int, concurrency: int, thread: int) returns (ranges: RangeScan)
    requires concurrency != 0
    ensures fresh(ranges) && ranges.totalRangeCount == rangeCount
    ensures ranges.nextRange == ranges.rangeOffset == GetScanShare(rangeCount, concurrency, thread).offset
    ensures ranges.rangeCount - ranges.rangeOffset == GetScanShare(rangeCount, concurrency, thread).count
  {
    var share := GetScanShare(rangeCount, concurrency, thread);
    ranges := new RangeScan(rangeCount, share.offset, share.count);
  }

  /** Where the share of a thread starts; thread `concurrency` would start past the last range. */
  function ScanBoundary(n: int, concurrency: int, thread: int): int
    requires concurrency > 0
  {
    if thread == concurrency then n else (n / concurrency) * thread
  }

  lemma ScanShares(n: int, concurrency: int, thread: int)
    requires RangeCount(n) && 1 <= concurrency && 0 <= thread < concurrency
    ensures GetScanShare(n, concurrency, thread)
            == ScanShare(ScanBoundary(n, concurrency, thread),
                         ScanBoundary(n, concurrency, thread + 1) - ScanBoundary(n, concurrency, thread))
    ensures 0 <= ScanBoundary(n, concurrency, thread) <= ScanBoundary(n, concurrency, thread + 1)
    ensures concurrency <= n ==> ScanBoundary(n, concurrency, thread) < ScanBoundary(n, concurrency, thread + 1)
  {
    var q := n / concurrency;
    assert n == concurrency * q + n % concurrency;
    Arithmetic.QuotientNatural(n, concurrency);
    Arithmetic.MulMonotone(0, thread, q);
    Arithmetic.Distribute(thread + 1, thread, q);
    if concurrency <= n && q < 1 {
      Arithmetic.MulMonotone(q, 0, concurrency);
    }
    Arithmetic.MulMonotone(thread + 1, concurrency, q);
  }

  /** All threads but the last get equally many ranges, one after the other; the last also gets what is left over. */
  lemma EqualScanShares(n: int, concurrency: int, thread: int)
    requires RangeCount(n) && 1 <= concurrency && 0 <= thread < concurrency
    ensures var q, share := n / concurrency, GetScanShare(n, concurrency, thread);
            && share.offset == thread * q
            && share.count == q + if thread + 1 == concurrency then n % concurrency else 0
  {
    var q := n / concurrency;
    Arithmetic.DivModParts(n, concurrency);
    assert q * thread == thread * q;
    if thread + 1 == concurrency {
      Arithmetic.Distribute(concurrency, 1, q);
    }
  }

  // ---- how often each token is read ----

  /** What a thread scans, from the split to the end of the loop, with the number of operations it gets to. */
  method RunScanThread(n: int, concurrency: int, thread: int, iterations: nat, quiet: nat)
    returns (scanned: seq<TokenRange>)
    requires RangeCount(n) && 0 <= thread < concurrency && iterations > 0
    ensures |scanned| == Min(quiet, Complete(GetScanShare(n, concurrency, thread).count, iterations))
    ensures forall i | 0 <= i < |scanned| ::
              var share := GetScanShare(n, concurrency, thread);
              scanned[i] == RangeAt(n, Cyclic(share.offset, share.count, i))
  {
    var ranges := GetScanWorkload(n, concurrency, thread);
    var iter := new TestIterator(Scan(ranges), iterations);
    scanned := RunScan(iter, quiet);
  }

  /** How often a thread that nobody stops scans a range that contains the token. */
  ghost function ThreadScans(n: int, concurrency: int, thread: int, iterations: nat, token: int64): nat
    requires RangeCount(n) && 0 <= thread < concurrency && iterations > 0
  {
    var share := GetScanShare(n, concurrency, thread);
    var k := Complete(share.count, iterations);
    if k < 0 then 0 else Scans(n, share.offset, share.count, k, token)
  }

  /** Among the first `k` operations of a share, those whose range contains the token. */
  ghost function Scans(n: int, offset: int, count: int, k: nat, token: int64): nat
    requires RangeCount(n)
  {
    if k == 0 then 0
    else Scans(n, offset, count, k - 1, token)
         + if Contains(RangeAt(n, Cyclic(offset, count, k - 1)), token) then 1 else 0
  }

  ghost function FleetScans(n: int, concurrency: int, bound: nat, iterations: nat, token: int64): nat
    requires RangeCount(n) && bound <= concurrency && iterations > 0
  {
    if bound == 0 then 0
    else FleetScans(n, concurrency, bound - 1, iterations, token)
         + ThreadScans(n, concurrency, bound - 1, iterations, token)
  }

  /** Reading the token is drawing the number of its range. */
  lemma {:induction false} ScansTouch(n: int, offset: int, count: int, k: nat, token: int64)
    requires RangeCount(n) && 0 <= offset < n && offset + count <= n
    ensures Scans(n, offset, count, k, token) == SequentialFleet.Touches(offset, count, k, Owner(n, token))
  {
    if k != 0 {
      ScansTouch(n, offset, count, k - 1, token);
      var i := Cyclic(offset, count, k - 1);
      if count >= 1 {
        assert 0 <= (k - 1) % count < count;
      }
      RangesTile(n, i, token);
    }
  }

  lemma ThreadScansToken(n: int, concurrency: int, thread: int, iterations: nat, token: int64)
    requires RangeCount(n) && 0 <= thread < concurrency && iterations > 0
    ensures ThreadScans(n, concurrency, thread, iterations, token)
            == if GetScanShare(n, concurrency, thread).count >= 1
               then SequentialFleet.Between(ScanBoundary(n, concurrency, thread),
                      ScanBoundary(n, concurrency, thread + 1), Owner(n, token), iterations)
               else if Owner(n, token) == ScanBoundary(n, concurrency, thread) then iterations - 1 else 0
  {
    var share := GetScanShare(n, concurrency, thread);
    ScanShares(n, concurrency, thread);
    ScanBoundaryInside(n, concurrency, thread);
    if share.count >= 1 {
      ScansTouch(n, share.offset, share.count, Complete(share.count, iterations), token);
      SequentialFleet.FullPasses(share.offset, share.count, iterations, Owner(n, token));
    } else {
      ScansTouch(n, share.offset, share.count, iterations - 1, token);
      SequentialFleet.EmptyShareTouches(share.offset, share.count, iterations - 1, Owner(n, token));
    }
  }

  lemma ScanBoundaryInside(n: int, concurrency: int, thread: int)
    requires RangeCount(n) && 0 <= thread < concurrency
    ensures 0 <= ScanBoundary(n, concurrency, thread) < n
    ensures ScanBoundary(n, concurrency, thread + 1) <= n
  {
    var q := n / concurrency;
    ScanShares(n, concurrency, thread);
    assert n == concurrency * q + n % concurrency;
    Arithmetic.QuotientNatural(n, concurrency);
    if q > 0 {
      Arithmetic.MulMonotone(thread + 1, concurrency, q);
      Arithmetic.Distribute(thread + 1, thread, q);
    }
  }

  lemma ThreadScansShare(n: int, concurrency: int, thread: int, iterations: nat, token: int64)
    requires RangeCount(n) && 0 <= thread < concurrency && iterations > 0
    requires concurrency <= n || iterations == 1
    ensures ScanBoundary(n, concurrency, thread) <= ScanBoundary(n, concurrency, thread + 1)
    ensures ThreadScans(n, concurrency, thread, iterations, token)
            == SequentialFleet.Between(ScanBoundary(n, concurrency, thread), ScanBoundary(n, concurrency, thread + 1),
                 Owner(n, token), iterations)
  {
    ThreadScansToken(n, concurrency, thread, iterations, token);
    ScanShares(n, concurrency, thread);
  }

  lemma FirstScanBoundary(n: int, concurrency: int, thread: int)
    requires RangeCount(n) && 0 <= thread <= concurrency && 1 <= concurrency
    ensures ScanBoundary(n, concurrency, 0) == 0 <= ScanBoundary(n, concurrency, thread)
  {
    if thread < concurrency {
      ScanShares(n, concurrency, thread);
    }
  }

  lemma {:induction false} ScanPrefix(n: int, concurrency: int, bound: nat, iterations: nat, token: int64)
    requires RangeCount(n) && bound <= concurrency && 1 <= concurrency && iterations > 0
    requires concurrency <= n || iterations == 1
    ensures FleetScans(n, concurrency, bound, iterations, token)
            == SequentialFleet.Between(0, ScanBoundary(n, concurrency, bound), Owner(n, token), iterations)
  {
    if bound == 0 {
      FirstScanBoundary(n, concurrency, 0);
    } else {
      ScanPrefix(n, concurrency, bound - 1, iterations, token);
      ThreadScansShare(n, concurrency, bound - 1, iterations, token);
      FirstScanBoundary(n, concurrency, bound - 1);
      SequentialFleet.BetweenParts(0, ScanBoundary(n, concurrency, bound - 1), ScanBoundary(n, concurrency, bound),
        Owner(n, token), iterations);
    }
  }

  /**
   A scan by all threads reads every token of the ring exactly once per iteration, if and only if there are no more
   threads than ranges or there is a single iteration.
   */
  lemma EveryTokenOncePerIteration(n: int, concurrency: int, iterations: nat)
    requires RangeCount(n) && 1 <= concurrency && iterations > 0
    ensures (forall token: int64 :: FleetScans(n, concurrency, concurrency, iterations, token) == iterations)
            <==> concurrency <= n || iterations == 1
  {
    if concurrency <= n || iterations == 1 {
      forall token: int64
        ensures FleetScans(n, concurrency, concurrency, iterations, token) == iterations
      {
        RangesTile(n, 0, token);
        ScanPrefix(n, concurrency, concurrency, iterations, token);
      }
    } else {
      FirstTokenTooOften(n, concurrency, iterations);
    }
  }

  /** How many threads scan mode starts: no more than there are ranges. */
  function ScanConcurrency(rangeCount: int, concurrency: int): int {
    if concurrency > rangeCount then rangeCount else concurrency
  }

  /** So a table scan reads every token exactly once per iteration, however many threads are asked for. */
  lemma ScanModeReadsEveryToken(n: int, concurrency: int, iterations: nat, token: int64)
    requires RangeCount(n) && 1 <= concurrency && iterations > 0
    ensures 1 <= ScanConcurrency(n, concurrency)
    ensures FleetScans(n, ScanConcurrency(n, concurrency), ScanConcurrency(n, concurrency), iterations, token)
            == iterations
  {
    EveryTokenOncePerIteration(n, ScanConcurrency(n, concurrency), iterations);
  }

  /**
   With more threads than ranges, restarting makes the first thread read range 0 besides the last one. The split alone
   allows that; scan mode does not start as many threads.
   */
  lemma FirstTokenTooOften(n: int, concurrency: int, iterations: nat)
    requires RangeCount(n) && n < concurrency && iterations > 1
    ensures FleetScans(n, concurrency, concurrency, iterations, MIN_INT64) > iterations
  {
    Arithmetic.DivModUnique(n, concurrency, 0, n);
    RangesTile(n, 0, MIN_INT64);
    RangeExact(n, 0);
    ThreadScansToken(n, concurrency, 0, iterations, MIN_INT64);
    ThreadScansToken(n, concurrency, concurrency - 1, iterations, MIN_INT64);
    FleetScansGrow(n, concurrency, 1, concurrency - 1, iterations, MIN_INT64);
  }

  lemma {:induction false} FleetScansGrow(n: int, concurrency: int, i: nat, j: nat, iterations: nat, token: int64)
    requires RangeCount(n) && i <= j <= concurrency && iterations > 0
    ensures FleetScans(n, concurrency, i, iterations, token) <= FleetScans(n, concurrency, j, iterations, token)
  {
    if i < j {
      FleetScansGrow(n, concurrency, i, j - 1, iterations, token);
    }
  }
}
