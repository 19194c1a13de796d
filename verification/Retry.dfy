/** Retrying a failed operation with exponentially growing pauses. Durations are nanoseconds. */
module Retry {
  import opened Words

  const MILLISECOND := 1_000_000

  /** `sb` is the handler of this program; any other leaves retries to the driver. */
  datatype Config = Config(sbHandler: bool, retryNumber: int, min: int, max: int)
  {
    /** How often a failed operation is tried again. */
    function Retries(): nat { if sbHandler && retryNumber > 0 then retryNumber else 0 }

    /** The bounds in force: what is not positive is replaced. */
    function Min(): (m: int)
      ensures m > 0
    {
      if min <= 0 then 100 * MILLISECOND else min
    }

    function Max(): (m: int)
      ensures m > 0
    {
      if max <= 0 then 10_000 * MILLISECOND else max
    }
  }

  /** `m * 2^(k - 1)` */
  function Grown(m: real, k: nat): real
    decreases k, m
  {
    if k == 0 then m / 2.0 else 2.0 * Grown(m, k - 1)
  }

  /** What is added to the grown pause; `jitter` is a number in `[0, 1)`. */
  function Shake(m: real, jitter: real): real { jitter * m - m / 2.0 }

  /** The pause before attempt number `attempts + 1`. */
  function ExponentialTime(c: Config, attempts: nat, jitter: real): int {
    var minFloat := c.Min() as real;
    var nap := Grown(minFloat, attempts) + Shake(minFloat, jitter);
    if nap > c.Max() as real then c.Max() else nap.Floor
  }

  ghost predicate Jitter(jitter: nat -> real) { forall i: nat :: 0.0 <= jitter(i) < 1.0 }

  /** The pauses before the first `n` repetitions together. */
  function Backoff(c: Config, n: nat, jitter: nat -> real): int {
    if n == 0 then 0 else Backoff(c, n - 1, jitter) + ExponentialTime(c, n - 1, jitter(n - 1))
  }

  /** What the handler does after a failure: give up, or pause and let the operation be tried again. */
  datatype Decision = GiveUp | RetryAfter(pause: int)

  function HandleSbRetryError(c: Config, currentAttempts: nat, jitter: real): Decision {
    if c.retryNumber <= currentAttempts then GiveUp else RetryAfter(ExponentialTime(c, currentAttempts, jitter))
  }

  /** Executes an operation whose attempt number `i` succeeds if `succeeds(i)`. */
  method Execute(c: Config, succeeds: nat -> bool, jitter: nat -> real)
    returns (ok: bool, executions: nat, slept: int)
    ensures 1 <= executions <= c.Retries() + 1
    ensures ok <==> succeeds(executions - 1)
    ensures forall i | 0 <= i < executions - 1 :: !succeeds(i)
    ensures !ok ==> executions == c.Retries() + 1
    ensures executions <= 1 + if c.sbHandler && c.retryNumber > 0 then c.retryNumber else 0
    ensures slept == Backoff(c, executions - 1, jitter)
  {
    var currentAttempts := 0;
    slept := 0;
    while true
      invariant 0 <= currentAttempts <= c.Retries()
      invariant forall i | 0 <= i < currentAttempts :: !succeeds(i)
      invariant slept == Backoff(c, currentAttempts, jitter)
      decreases c.Retries() - currentAttempts
    {
      if succeeds(currentAttempts) {
        return true, currentAttempts + 1, slept;
      }
      if !c.sbHandler {
        return false, currentAttempts + 1, slept;
      }
      match HandleSbRetryError(c, currentAttempts, jitter(currentAttempts)) {
        case GiveUp => return false, currentAttempts + 1, slept;
        case RetryAfter(pause) => slept := slept + pause;
      }
      currentAttempts := currentAttempts + 1;
    }
  }

  // ---- how long the pauses can get ----

  lemma {:induction false} GrownAtLeast(m: real, k: nat)
    requires 0.0 <= m
    ensures m / 2.0 <= Grown(m, k)
  {
    if k != 0 {
      GrownAtLeast(m, k - 1);
    }
  }

  lemma Product(a: real, b: real)
    requires 0.0 <= a && 0.0 <= b
    ensures 0.0 <= a * b
  {}

  lemma ShakeBounds(m: real, jitter: real)
    requires 0.0 <= m && 0.0 <= jitter < 1.0
    ensures -(m / 2.0) <= Shake(m, jitter) <= m / 2.0
  {
    var rest := 1.0 - jitter;
    Product(jitter, m);
    Product(rest, m);
    assert rest * m == m - jitter * m;
  }

  lemma FloorBounds(x: real, n: int)
    requires 0.0 <= x <= n as real
    ensures 0 <= x.Floor <= n && x.Floor as real <= x
  {}

  /** A single pause is never negative, and bounded both by the maximum and by its place in the progression. */
  lemma PauseBounds(c: Config, attempts: nat, jitter: real)
    requires 0.0 <= jitter < 1.0
    ensures 0 <= ExponentialTime(c, attempts, jitter) <= c.Max()
    ensures ExponentialTime(c, attempts, jitter) as real <= Grown(c.Min() as real, attempts) + c.Min() as real / 2.0
  {
    var m := c.Min() as real;
    GrownAtLeast(m, attempts);
    ShakeBounds(m, jitter);
    var nap := Grown(m, attempts) + Shake(m, jitter);
    if nap <= c.Max() as real {
      FloorBounds(nap, c.Max());
    }
  }

  /** Where the maximum does not cap it, a pause lies within half a minimum of its place in the progression. */
  lemma PauseSpread(c: Config, attempts: nat, jitter: real)
    requires 0.0 <= jitter < 1.0
    ensures var m := c.Min() as real;
            ExponentialTime(c, attempts, jitter) == c.Max()
            || ExponentialTime(c, attempts, jitter) as real > Grown(m, attempts) - m / 2.0 - 1.0
  {
    var m := c.Min() as real;
    ShakeBounds(m, jitter);
    var nap := Grown(m, attempts) + Shake(m, jitter);
    assert nap.Floor as real > nap - 1.0;
  }

  lemma {:induction false} GrownIsPower(m: real, k: nat)
    ensures Grown(m, k) == m / 2.0 * (Pow2(k) as real)
  {
    if k == 0 {
      assert m / 2.0 * (1 as real) == m / 2.0;
    } else {
      GrownIsPower(m, k - 1);
      DoublePower(m / 2.0, Pow2(k - 1) as real);
    }
  }

  lemma DoublePower(h: real, p: real)
    ensures 2.0 * (h * p) == h * (2.0 * p)
  {}

  lemma NapIs(m: real, attempts: nat, jitter: real)
    ensures Grown(m, attempts) + Shake(m, jitter)
            == m / 2.0 * (Pow2(attempts) as real) + (jitter * m - m / 2.0)
  {
    GrownIsPower(m, attempts);
  }

  /**
   Every pause: the minimum doubled with each attempt and halved once, shaken by less than half a minimum either way,
   capped at the maximum and rounded down.
   */
  lemma PauseIs(c: Config, attempts: nat, jitter: real)
    ensures var m := c.Min() as real;
            var nap := m / 2.0 * (Pow2(attempts) as real) + (jitter * m - m / 2.0);
            ExponentialTime(c, attempts, jitter) == if nap > c.Max() as real then c.Max() else nap.Floor
  {
    NapIs(c.Min() as real, attempts, jitter);
  }

  /** Without bounds of their own pauses lie between 100 milliseconds and 10 seconds. */
  lemma DefaultBounds(c: Config)
    ensures c.Min() == if c.min <= 0 then 100_000_000 else c.min
    ensures c.Max() == if c.max <= 0 then 10_000_000_000 else c.max
  {}

  /** The first pause is the jitter's share of the minimum: the grown part and the shift cancel. */
  lemma FirstPause(c: Config, jitter: real)
    requires 0.0 <= jitter < 1.0
    ensures var share := jitter * (c.Min() as real);
            ExponentialTime(c, 0, jitter) == if share > c.Max() as real then c.Max() else share.Floor
  {
    var m := c.Min() as real;
    assert Grown(m, 0) == m / 2.0;
  }

  /** The sum of the first `n` grown pauses and of half a minimum for each. */
  function Progression(m: real, n: nat): real {
    m / 2.0 * ((Pow2(n) - 1 + n) as real)
  }

  lemma ProgressionStep(m: real, n: nat)
    requires n > 0
    ensures Progression(m, n) == Progression(m, n - 1) + Grown(m, n - 1) + m / 2.0
  {
    var p, before := Pow2(n - 1), Pow2(n - 1) - 1 + (n - 1);
    GrownIsPower(m, n - 1);
    assert Pow2(n) - 1 + n == before + p + 1;
    AddParts(m / 2.0, before as real, p as real);
  }

  lemma AddParts(h: real, a: real, p: real)
    ensures h * (a + p + 1.0) == h * a + h * p + h
  {}

  lemma Sums(n: nat, m: int)
    ensures n * m == (n - 1) * m + m
  {}

  /** All pauses together stay below `n` maxima. */
  lemma {:induction false} BackoffBelowMaxima(c: Config, n: nat, jitter: nat -> real)
    requires Jitter(jitter)
    ensures 0 <= Backoff(c, n, jitter) <= n * c.Max()
  {
    if n != 0 {
      BackoffBelowMaxima(c, n - 1, jitter);
      PauseBounds(c, n - 1, jitter(n - 1));
      Sums(n, c.Max());
    }
  }

  /** All pauses together stay below the sum of the progression, whatever the jitter. */
  lemma {:induction false} BackoffBelowProgression(c: Config, n: nat, jitter: nat -> real)
    requires Jitter(jitter)
    ensures Backoff(c, n, jitter) as real <= Progression(c.Min() as real, n)
  {
    var m := c.Min() as real;
    if n == 0 {
      assert m / 2.0 * (0 as real) == 0.0;
    } else {
      BackoffBelowProgression(c, n - 1, jitter);
      PauseBounds(c, n - 1, jitter(n - 1));
      ProgressionStep(m, n);
    }
  }

  lemma {:induction false} BackoffGrows(c: Config, i: nat, n: nat, jitter: nat -> real)
    requires Jitter(jitter) && i <= n
    ensures Backoff(c, i, jitter) <= Backoff(c, n, jitter)
  {
    if i < n {
      BackoffGrows(c, i, n - 1, jitter);
      PauseBounds(c, n - 1, jitter(n - 1));
    }
  }

  lemma ProgressionAbove(x: int, y: int, m: real, n: nat)
    requires x <= y && y as real <= Progression(m, n)
    ensures x as real <= m / 2.0 * ((Pow2(n) - 1 + n) as real)
  {}

  lemma SomeBelowMaxima(c: Config, i: nat, n: nat, jitter: nat -> real)
    requires Jitter(jitter) && i <= n
    ensures 0 <= Backoff(c, i, jitter) <= n * c.Max()
  {
    BackoffGrows(c, 0, i, jitter);
    BackoffGrows(c, i, n, jitter);
    BackoffBelowMaxima(c, n, jitter);
  }

  lemma SomeBelowPower(c: Config, i: nat, n: nat, jitter: nat -> real, m: real)
    requires Jitter(jitter) && i <= n && m == c.Min() as real
    ensures Backoff(c, i, jitter) as real <= m / 2.0 * ((Pow2(n) - 1 + n) as real)
  {
    BackoffGrows(c, i, n, jitter);
    BackoffBelowProgression(c, n, jitter);
    ProgressionAbove(Backoff(c, i, jitter), Backoff(c, n, jitter), m, n);
  }

  /** However the attempts end, the pauses of one operation respect the bounds for all its retries. */
  lemma TotalBackoffBounded(c: Config, executions: nat, jitter: nat -> real)
    requires Jitter(jitter) && 1 <= executions <= c.Retries() + 1
    ensures 0 <= Backoff(c, executions - 1, jitter) <= c.Retries() * c.Max()
    ensures var m, r := c.Min() as real, c.Retries();
            Backoff(c, executions - 1, jitter) as real <= m / 2.0 * ((Pow2(r) - 1 + r) as real)
  {
    SomeBelowMaxima(c, executions - 1, c.Retries(), jitter);
    SomeBelowPower(c, executions - 1, c.Retries(), jitter, c.Min() as real);
  }
}
