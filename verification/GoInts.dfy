/** Go's 64-bit integers: wrap-around, and division that truncates toward zero. */
module GoInts {
  const TWO_63 := 0x8000_0000_0000_0000
  const TWO_64 := 0x1_0000_0000_0000_0000
  const MIN_INT64 := -TWO_63
  const MAX_INT64 := TWO_63 - 1

  /** The integers a Go `int64` can hold. */
  type int64 = x: int | -TWO_63 <= x < TWO_63

  predicate FitsInt64(x: int) { -TWO_63 <= x < TWO_63 }

  /** The `int64` congruent to `x` modulo 2^64: what 64-bit arithmetic leaves of an exact result. */
  function Wrap64(x: int): (r: int64)
    ensures (x - r) % TWO_64 == 0
    ensures FitsInt64(x) ==> r == x
  {
    (x + TWO_63) % TWO_64 - TWO_63
  }

  lemma WrapParts(x: int) returns (k: int)
    ensures x == Wrap64(x) + TWO_64 * k
  {
    k := (x - Wrap64(x)) / TWO_64;
  }

  lemma WrapUnique(x: int, r: int64, k: int)
    requires x == r + TWO_64 * k
    ensures Wrap64(x) == r
  {}

  /** Wrapping a part of a sum changes nothing once the sum is wrapped. */
  lemma WrapPart(a: int, b: int)
    ensures Wrap64(Wrap64(a) + b) == Wrap64(a + b)
  {
    var i := WrapParts(a);
    var j := WrapParts(a + b);
    WrapUnique(Wrap64(a) + b, Wrap64(a + b), j - i);
  }

  lemma WrapBoth(a: int, b: int)
    ensures Wrap64(Wrap64(a) + Wrap64(b)) == Wrap64(a + b)
  {
    WrapPart(a, Wrap64(b));
    assert Wrap64(b) + a == a + Wrap64(b);
    WrapPart(b, a);
  }

  /** Go's `a / b`. */
  function Quo(a: int, b: int): (q: int)
    requires b != 0
  {
    if a >= 0 then a / b else -(-a / b)
  }

  /** Go's `a % b`: the remainder has the sign of `a`. */
  function Rem(a: int, b: int): (r: int)
    requires b != 0
  {
    a - b * Quo(a, b)
  }

  /** Quotients are truncated: the remainder is smaller than the divisor and has the sign of the dividend. */
  lemma QuoTruncates(a: int, b: int)
    requires b != 0
    ensures a == b * Quo(a, b) + Rem(a, b)
    ensures a >= 0 ==> 0 <= Rem(a, b) && (b > 0 ==> Rem(a, b) < b) && (b < 0 ==> Rem(a, b) < -b)
    ensures a <= 0 ==> Rem(a, b) <= 0 && (b > 0 ==> -b < Rem(a, b)) && (b < 0 ==> b < Rem(a, b))
  {
    var n := if a >= 0 then a else -a;
    assert n == b * (n / b) + n % b;
    assert b * -(n / b) == -(b * (n / b));
  }
}

/** Facts about products and quotients that the solver does not find on its own. */
module Arithmetic {

  lemma MulMonotone(a: int, b: int, c: int)
    requires a <= b && 0 <= c
    ensures a * c <= b * c
  {}

  lemma ZeroMultiple(k: int, c: int)
    requires -c < k * c < c
    ensures k == 0
  {
    if k >= 1 {
      MulMonotone(1, k, c);
    } else if k <= -1 {
      MulMonotone(k, -1, c);
    }
  }

  /** Quotient and remainder are determined by what they must satisfy. */
  lemma DivModUnique(n: int, c: int, q: int, r: int)
    requires n == q * c + r && 0 <= r < c
    ensures n / c == q && n % c == r
  {
    var q', r' := n / c, n % c;
    assert n == q' * c + r' by {
      assert n == c * q' + r';
    }
    assert (q' - q) * c == r - r' by {
      Distribute(q', q, c);
    }
    ZeroMultiple(q' - q, c);
  }

  lemma Distribute(a: int, b: int, c: int)
    ensures (a - b) * c == a * c - b * c
  {}

  /** Dividing a multiple of `c`, or anything less than `c` above it, gives the multiplier. */
  lemma DivBetween(n: int, c: int, q: int)
    requires 0 < c && q * c <= n < (q + 1) * c
    ensures n / c == q && n % c == n - q * c
  {
    Distribute(q + 1, q, c);
    DivModUnique(n, c, q, n - q * c);
  }

  lemma QuotientNatural(a: int, b: int)
    requires 0 <= a && 0 < b
    ensures 0 <= a / b
  {}

  /** Row `r` of partition `p` lies at or after the start of partition `bound` exactly when `p` does. */
  lemma RowAtOrAfter(p: int, r: int, c: int, bound: int)
    requires 0 <= r < c
    ensures bound * c <= p * c + r <==> bound <= p
  {
    if bound <= p {
      MulMonotone(bound, p, c);
    } else {
      MulMonotone(p + 1, bound, c);
      Distribute(p + 1, p, c);
    }
  }

  lemma DivMonotone(a: int, b: int, c: int)
    requires a <= b && 0 < c
    ensures a / c <= b / c
  {
    var p, q := a / c, b / c;
    assert a == c * p + a % c && b == c * q + b % c;
    if p > q {
      MulMonotone(q + 1, p, c);
      Distribute(q + 1, q, c);
    }
  }

  /** The partition of a row before partition `limit` ends no later than that partition begins. */
  lemma PartitionEnd(z: int, c: int, limit: int)
    requires 0 < c && z < limit * c
    ensures (z / c + 1) * c <= limit * c
  {
    assert z == (z / c) * c + z % c;
    RowAtOrAfter(z / c, z % c, c, limit);
    MulMonotone(z / c + 1, limit, c);
  }

  lemma DivModParts(n: int, c: int)
    requires 0 < c
    ensures n == (n / c) * c + n % c && 0 <= n % c < c
  {}

  lemma ModAtMost(n: int, c: int)
    requires 0 <= n && 0 < c
    ensures n % c <= n
  {
    DivModParts(n, c);
    QuotientNatural(n, c);
    MulMonotone(0, n / c, c);
  }

  /** A common factor drops out of a quotient. */
  lemma CancelQuotient(a: int, b: int, f: int)
    requires 0 <= a && 0 < b && 0 < f
    ensures 0 < b * f && (a * f) / (b * f) == a / b
  {
    DivModParts(a, b);
    var q, r := a / b, a % b;
    MulMonotone(1, b, f);
    assert a * f == q * (b * f) + r * f;
    MulMonotone(0, r, f);
    MulMonotone(r + 1, b, f);
    Distribute(r + 1, r, f);
    DivModUnique(a * f, b * f, q, r * f);
  }

  lemma EuclidRemainder(n: int, c: int)
    requires 0 <= n && c != 0
    ensures n % c <= n
  {
    if c > 0 {
      ModAtMost(n, c);
    } else {
      var q := n / c;
      assert n == c * q + n % c && n % c < -c;
      assert c * q == -(q * -c);
      if q >= 1 {
        MulMonotone(1, q, -c);
      } else {
        MulMonotone(q, 0, -c);
      }
    }
  }

  lemma EuclidQuotient(n: int, c: int)
    requires 0 <= n && c != 0
    ensures -n <= n / c <= n
  {
    var q := n / c;
    EuclidRemainder(n, c);
    assert 0 <= q * c <= n;
    var aq, ac := if q < 0 then -q else q, if c < 0 then -c else c;
    assert q * c == aq * ac || q * c == -(aq * ac);
    MulMonotone(1, ac, aq);
  }
}
