/**
 The rate limiter on a manual clock, and the latency corrected for coordinated omission that the test loop records:
 it is the time an operation would have spent in a queue it entered on schedule.

 Times are nanoseconds.
 */
module RateLimiter {
  import opened GoInts
  import Arithmetic

  function Max(a: int, b: int): int { if a < b then b else a }

  /** A clock that only moves when it is told to. */
  class Manual {
    var current: int
    var slept: int

    constructor (t: int)
      ensures current == t && slept == 0
    {
      current := t;
      slept := 0;
    }

    /** Panics on a negative duration, which callers therefore must not pass. */
    method Advance(d: int)
      requires 0 <= d
      modifies this
      ensures current == old(current) + d && slept == old(slept)
    {
      current := current + d;
    }

    method Sleep(d: int)
      modifies this
      ensures current == old(current) + d && slept == old(slept) + d
    {
      current := current + d;
      slept := slept + d;
    }
  }

  class MaximumRateLimiter {
    const clk: Manual
    const startTime: int
    const period: int
    var completedOperations: int

    constructor (clk: Manual, period: int)
      ensures this.clk == clk && startTime == clk.current && this.period == period && completedOperations == 0
    {
      this.clk := clk;
      this.startTime := clk.current;
      this.period := period;
      completedOperations := 0;
    }

    function Expected(): int
      reads this
    {
      startTime + period * completedOperations
    }

    /** Sleeps until the next operation is due, or not at all if it is overdue. */
    method Wait()
      modifies this`completedOperations, clk
      ensures completedOperations == old(completedOperations) + 1
      ensures clk.current == Max(old(clk.current), Expected())
      ensures clk.slept - old(clk.slept) == clk.current - old(clk.current)
    {
      completedOperations := completedOperations + 1;
      var nextRequest := startTime + period * completedOperations;
      var now := clk.current;
      if now < nextRequest {
        clk.Sleep(nextRequest - now);
      }
    }
  }

  /** No limiter at all when the rate is zero. */
  method NewRateLimiter(clk: Manual, maximumRate: int) returns (limiter: MaximumRateLimiter?)
    ensures limiter == null <==> maximumRate == 0
    ensures limiter != null ==>
              && fresh(limiter) && limiter.clk == clk && limiter.startTime == clk.current
              && limiter.period == Quo(1_000_000_000, maximumRate) && limiter.completedOperations == 0
  {
    if maximumRate == 0 {
      return null;
    }
    var period := Quo(1_000_000_000, maximumRate);
    limiter := new MaximumRateLimiter(clk, period);
  }

  // ---- the loop ----

  /**
   A run of as many operations as there are pairs: before operation `k` the worker spends `gap` outside it, and the
   operation itself takes `service`.
   */
  datatype Op = Op(gap: nat, service: nat)

  /** The corrected latency of the last operation, as the recursion of a queue fed once per period. */
  function CoFixed(ops: seq<Op>, period: int): int {
    if ops == [] then 0
    else
      var last := ops[|ops| - 1];
      last.service + Max(0, CoFixed(ops[..|ops| - 1], period) + last.gap - period)
  }

  /** When the last operation starts, counted from the start of the limiter. */
  function StartOffset(ops: seq<Op>, period: int): int
    requires ops != []
  {
    |ops| * period + CoFixed(ops, period) - ops[|ops| - 1].service
  }

  lemma NextOp(ops: seq<Op>, i: nat, period: int)
    requires i < |ops|
    ensures CoFixed(ops[..i + 1], period) == ops[i].service + Max(0, CoFixed(ops[..i], period) + ops[i].gap - period)
    ensures StartOffset(ops[..i + 1], period) == (i + 1) * period + CoFixed(ops[..i + 1], period) - ops[i].service
    ensures (i + 1) * period == i * period + period == period * (i + 1)
  {
    assert ops[..i + 1][..i] == ops[..i];
  }

  /** The loop with a limiter; the operations' own latencies play no part in what is recorded here. */
  method RunLimited(clk: Manual, limiter: MaximumRateLimiter, ops: seq<Op>)
    returns (starts: seq<int>, coFixed: seq<int>)
    requires limiter.clk == clk && limiter.completedOperations == 0 && clk.current == limiter.startTime
    modifies clk, limiter
    ensures |starts| == |coFixed| == |ops|
    ensures forall k | 0 <= k < |ops| ::
              && coFixed[k] == CoFixed(ops[..k + 1], limiter.period)
              && starts[k] == limiter.startTime + StartOffset(ops[..k + 1], limiter.period)
  {
    starts, coFixed := [], [];
    var i := 0;
    while i < |ops|
      invariant 0 <= i <= |ops| && |starts| == |coFixed| == i == limiter.completedOperations
      invariant clk.current == limiter.startTime + i * limiter.period + CoFixed(ops[..i], limiter.period)
      invariant forall k | 0 <= k < i ::
                  && coFixed[k] == CoFixed(ops[..k + 1], limiter.period)
                  && starts[k] == limiter.startTime + StartOffset(ops[..k + 1], limiter.period)
    {
      NextOp(ops, i, limiter.period);
      clk.Advance(ops[i].gap);
      limiter.Wait();
      var expectedStartTime := limiter.Expected();
      starts := starts + [clk.current];
      clk.Advance(ops[i].service);
      var endTime := clk.current;
      coFixed := coFixed + [endTime - expectedStartTime];
      i := i + 1;
    }
  }

  /** The loop without a limiter: an operation is expected when it starts. */
  method RunUnlimited(clk: Manual, ops: seq<Op>) returns (coFixed: seq<int>)
    modifies clk
    ensures |coFixed| == |ops| && forall k | 0 <= k < |ops| :: coFixed[k] == ops[k].service
  {
    coFixed := [];
    var i := 0;
    while i < |ops|
      invariant 0 <= i <= |ops| && |coFixed| == i
      invariant forall k | 0 <= k < i :: coFixed[k] == ops[k].service
    {
      clk.Advance(ops[i].gap);
      var expectedStartTime := clk.current;
      clk.Advance(ops[i].service);
      coFixed := coFixed + [clk.current - expectedStartTime];
      i := i + 1;
    }
  }

  // ---- what the recursion means ----

  function Services(ops: seq<Op>): nat {
    if ops == [] then 0 else Services(ops[..|ops| - 1]) + ops[|ops| - 1].service
  }

  function Gaps(ops: seq<Op>): nat {
    if ops == [] then 0 else Gaps(ops[..|ops| - 1]) + ops[|ops| - 1].gap
  }

  /**
   The latency of the last operation if the worker has been busy since operation `j` started on schedule, or, for
   `j == 0`, since the limiter started: the work done since, less the periods gone by.
   */
  function BusySince(ops: seq<Op>, period: int, j: nat): int
    requires j <= |ops|
  {
    if j == 0 then Services(ops) + Gaps(ops) - |ops| * period
    else Services(ops[j - 1..]) + Gaps(ops[j..]) - (|ops| - j) * period
  }

  lemma BusyOneMore(ops: seq<Op>, op: Op, period: int, j: nat)
    requires j <= |ops|
    ensures BusySince(ops + [op], period, j) == BusySince(ops, period, j) + op.service + op.gap - period
  {
    var all := ops + [op];
    assert all[..|ops|] == ops;
    assert (|ops| + 1) * period == |ops| * period + period;
    if j > 0 {
      assert all[j - 1..][..|ops| - (j - 1)] == ops[j - 1..];
      assert all[j..][..|ops| - j] == ops[j..];
      assert (|ops| + 1 - j) * period == (|ops| - j) * period + period;
    }
  }

  lemma BusyFresh(ops: seq<Op>, op: Op, period: int)
    ensures BusySince(ops + [op], period, |ops| + 1) == op.service
  {
    var all := ops + [op];
    assert all[|ops|..] == [op] && all[|ops| + 1..] == [];
    assert [op][..0] == [];
    assert Services([op]) == op.service;
  }

  /** The corrected latency is the largest of these, over every place the busy period may have begun. */
  lemma {:induction false} CoFixedIsLargest(ops: seq<Op>, period: int)
    requires ops != []
    ensures forall j | 0 <= j <= |ops| :: BusySince(ops, period, j) <= CoFixed(ops, period)
    ensures exists j | 0 <= j <= |ops| :: BusySince(ops, period, j) == CoFixed(ops, period)
  {
    var n := |ops| - 1;
    var before, op := ops[..n], ops[n];
    assert ops == before + [op];
    BusyFresh(before, op, period);
    forall j | 0 <= j <= n
      ensures BusySince(ops, period, j) == BusySince(before, period, j) + op.service + op.gap - period
    {
      BusyOneMore(before, op, period, j);
    }
    if before == [] {
      assert BusySince(before, period, 0) == 0;
      assert BusySince(ops, period, 0) == op.service + op.gap - period;
    } else {
      CoFixedIsLargest(before, period);
      var j :| 0 <= j <= n && BusySince(before, period, j) == CoFixed(before, period);
      assert BusySince(ops, period, j) == CoFixed(before, period) + op.service + op.gap - period;
    }
    assert BusySince(ops, period, n + 1) == op.service;
  }

  /** The corrected latency is never below the time the operation itself took, so never below what it reports. */
  lemma RawAtMostCoFixed(ops: seq<Op>, period: int, raw: int)
    requires ops != [] && raw <= ops[|ops| - 1].service
    ensures raw <= ops[|ops| - 1].service <= CoFixed(ops, period)
  {}

  /**
   An operation starts when it is due, one period after another, or when the worker is free: once the operation before
   has ended and the time outside it has gone by.
   */
  lemma StartsWhenDueAndFree(ops: seq<Op>, period: int)
    requires ops != []
    ensures var n := |ops| - 1;
            var free := ops[n].gap + if n == 0 then 0 else StartOffset(ops[..n], period) + ops[n - 1].service;
            StartOffset(ops, period) == if free < (n + 1) * period then (n + 1) * period else free
  {
    var n := |ops| - 1;
    assert (n + 1) * period == n * period + period;
    if n > 0 {
      assert ops[..n][|ops[..n]| - 1] == ops[n - 1];
    } else {
      assert ops[..n] == [];
    }
  }

  /** Operation number `|ops|` starts no sooner than `|ops|` periods in, so at most `x / period` start within `x`. */
  lemma RateNotExceeded(ops: seq<Op>, period: int, x: nat)
    requires ops != [] && 0 < period
    requires StartOffset(ops, period) <= x
    ensures |ops| <= x / period
  {
    RawAtMostCoFixed(ops, period, ops[|ops| - 1].service);
    Arithmetic.DivModParts(x, period);
    if x / period < |ops| {
      Arithmetic.MulMonotone(x / period + 1, |ops|, period);
      Arithmetic.Distribute(x / period + 1, x / period, period);
    }
  }

  lemma {:induction false} NoGaps(ops: seq<Op>)
    requires forall i | 0 <= i < |ops| :: ops[i].gap == 0
    ensures Gaps(ops) == 0
  {
    if ops != [] {
      NoGaps(ops[..|ops| - 1]);
    }
  }

  /** The time operations have taken since operation `j` started on schedule, less the periods gone by. */
  function WorkSince(ops: seq<Op>, period: int, j: nat): int
    requires 1 <= j <= |ops|
  {
    Services(ops[j - 1..]) - (|ops| - j) * period
  }

  lemma BusyWithoutGaps(ops: seq<Op>, period: int, j: nat)
    requires 1 <= j <= |ops| && forall i | 0 <= i < |ops| :: ops[i].gap == 0
    ensures BusySince(ops, period, j) == WorkSince(ops, period, j)
  {
    NoGaps(ops[j..]);
  }

  lemma FirstOperationFirst(ops: seq<Op>, period: int)
    requires ops != [] && 0 <= period && forall i | 0 <= i < |ops| :: ops[i].gap == 0
    ensures BusySince(ops, period, 0) <= BusySince(ops, period, 1)
  {
    NoGaps(ops);
    NoGaps(ops[1..]);
    assert ops[0..] == ops;
    assert (|ops| - 1) * period == |ops| * period - period;
  }

  /** Without time spent between operations, the corrected latency is the largest amount of work since an operation. */
  lemma BackToBack(ops: seq<Op>, period: int)
    requires ops != [] && 0 <= period && forall i | 0 <= i < |ops| :: ops[i].gap == 0
    ensures forall j | 1 <= j <= |ops| :: WorkSince(ops, period, j) <= CoFixed(ops, period)
    ensures exists j | 1 <= j <= |ops| :: WorkSince(ops, period, j) == CoFixed(ops, period)
  {
    CoFixedIsLargest(ops, period);
    forall j | 1 <= j <= |ops|
      ensures WorkSince(ops, period, j) <= CoFixed(ops, period)
    {
      BusyWithoutGaps(ops, period, j);
    }
    var j :| 0 <= j <= |ops| && BusySince(ops, period, j) == CoFixed(ops, period);
    FirstOperationFirst(ops, period);
    var first := if j == 0 then 1 else j;
    BusyWithoutGaps(ops, period, first);
    assert BusySince(ops, period, first) <= CoFixed(ops, period);
    assert WorkSince(ops, period, first) == CoFixed(ops, period);
  }
}
