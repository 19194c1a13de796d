/** The counter table: what updates leave in a row, and what the check on reading accepts. */
module Counters {
  import opened GoInts
  import Arithmetic

  datatype Row = Row(c1: int64, c2: int64, c3: int64, c4: int64, c5: int64)

  const ZERO := Row(0, 0, 0, 0, 0)

  /** One whole counter update of the row with clustering key `ck`. */
  function Update(row: Row, ck: int64): Row {
    Row(Wrap64(row.c1 + ck), Wrap64(row.c2 + Wrap64(ck + 1)), Wrap64(row.c3 + Wrap64(ck + 2)),
        Wrap64(row.c4 + Wrap64(ck + 3)), Wrap64(row.c5 + Wrap64(ck + 4)))
  }

  /** The row after `u` updates, those that a retry applied twice included. */
  function After(ck: int64, u: nat): Row {
    if u == 0 then ZERO else Update(After(ck, u - 1), ck)
  }

  /** The multiples of `ck`, `ck + 1`, ... by `u`, as 64-bit values. */
  function Multiples(ck: int64, u: int): Row {
    Row(Wrap64(u * ck), Wrap64(u * (ck + 1)), Wrap64(u * (ck + 2)), Wrap64(u * (ck + 3)), Wrap64(u * (ck + 4)))
  }

  /** The number of updates the check infers; 64-bit division wraps in the one case where the quotient does not fit. */
  function UpdateNum(ck: int64, row: Row): int64 {
    if ck == 0 then row.c2 else Wrap64(Quo(row.c1, ck))
  }

  /** The comparisons of the check, for a given number of updates and the first column it leads to. */
  predicate Matches(row: Row, first: int64, updateNum: int64) {
    && row.c1 == first
    && row.c2 == Wrap64(row.c1 + updateNum)
    && row.c3 == Wrap64(row.c1 + Wrap64(updateNum * 2))
    && row.c4 == Wrap64(row.c1 + Wrap64(updateNum * 3))
    && row.c5 == Wrap64(row.c1 + Wrap64(updateNum * 4))
  }

  /** The check of a row read back. */
  predicate Check(ck: int64, row: Row) {
    var updateNum := UpdateNum(ck, row);
    Matches(row, Wrap64(ck * updateNum), updateNum)
  }

  lemma AddMultiple(a: int64, u: int, x: int)
    requires a == Wrap64((u - 1) * x)
    ensures Wrap64(a + Wrap64(x)) == Wrap64(u * x)
  {
    Arithmetic.Distribute(u, 1, x);
    WrapBoth((u - 1) * x, x);
  }

  function Col(row: Row, i: nat): int64
    requires i < 5
  {
    if i == 0 then row.c1 else if i == 1 then row.c2 else if i == 2 then row.c3 else if i == 3 then row.c4 else row.c5
  }

  /** An update adds to each column its increment; that of the first is a 64-bit value to begin with. */
  lemma UpdateColumn(row: Row, ck: int64, i: nat, x: int)
    requires i < 5 && x == ck + i
    ensures Col(Update(row, ck), i) == Wrap64(Col(row, i) + Wrap64(x))
  {
    assert Wrap64(ck) == ck;
  }

  lemma {:induction false} AfterColumn(ck: int64, u: nat, i: nat, x: int)
    requires i < 5 && x == ck + i
    ensures Col(After(ck, u), i) == Wrap64(u * x)
  {
    if u != 0 {
      AfterColumn(ck, u - 1, i, x);
      UpdateColumn(After(ck, u - 1), ck, i, x);
      AddMultiple(Col(After(ck, u - 1), i), u, x);
    }
  }

  /** Any number of whole updates leaves the same multiple of every increment. */
  lemma AfterUpdates(ck: int64, u: nat)
    ensures After(ck, u) == Multiples(ck, u)
    ensures var row := After(ck, u);
            && row.c1 == Wrap64(u * ck) && row.c2 == Wrap64(u * (ck + 1)) && row.c3 == Wrap64(u * (ck + 2))
            && row.c4 == Wrap64(u * (ck + 3)) && row.c5 == Wrap64(u * (ck + 4))
  {
    var row, r := After(ck, u), Multiples(ck, u);
    assert row.c1 == r.c1 by {
      AfterColumn(ck, u, 0, ck);
    }
    assert row.c2 == r.c2 by {
      AfterColumn(ck, u, 1, ck + 1);
    }
    assert row.c3 == r.c3 by {
      AfterColumn(ck, u, 2, ck + 2);
    }
    assert row.c4 == r.c4 by {
      AfterColumn(ck, u, 3, ck + 3);
    }
    assert row.c5 == r.c5 by {
      AfterColumn(ck, u, 4, ck + 4);
    }
    RowEquals(row, r);
  }

  /** The multiple written from its first column on. */
  function FromFirst(p: int, u: int): Row {
    Row(Wrap64(p), Wrap64(p + u), Wrap64(p + u * 2), Wrap64(p + u * 3), Wrap64(p + u * 4))
  }

  lemma MultiplesFromFirst(ck: int64, u: int)
    ensures Multiples(ck, u) == FromFirst(u * ck, u)
  {
    assert u * (ck + 1) == u * ck + u;
    assert u * (ck + 2) == u * ck + u * 2;
    assert u * (ck + 3) == u * ck + u * 3;
    assert u * (ck + 4) == u * ck + u * 4;
  }

  /** What the check computes for a column is what the multiple has there. */
  lemma ColumnFrom(first: int64, p: int, k: int)
    requires first == Wrap64(p)
    ensures Wrap64(first + k) == Wrap64(p + k) && Wrap64(first + Wrap64(k)) == Wrap64(p + k)
  {
    WrapPart(p, k);
    WrapBoth(p, k);
  }

  /** The columns the check computes from the first. */
  function Computed(first: int64, u: int64): Row {
    Row(first, Wrap64(first + u), Wrap64(first + Wrap64(u * 2)), Wrap64(first + Wrap64(u * 3)),
        Wrap64(first + Wrap64(u * 4)))
  }

  lemma ComputedIsMultiple(p: int, u: int64)
    ensures Computed(Wrap64(p), u) == FromFirst(p, u)
  {
    var a, b := Computed(Wrap64(p), u), FromFirst(p, u);
    assert a.c2 == b.c2 by {
      ColumnFrom(Wrap64(p), p, u);
    }
    assert a.c3 == b.c3 by {
      ColumnFrom(Wrap64(p), p, u * 2);
    }
    assert a.c4 == b.c4 by {
      ColumnFrom(Wrap64(p), p, u * 3);
    }
    assert a.c5 == b.c5 by {
      ColumnFrom(Wrap64(p), p, u * 4);
    }
    RowEquals(a, b);
  }

  lemma MatchesComputed(row: Row, first: int64, u: int64)
    ensures Matches(row, first, u) <==> row == Computed(first, u)
  {
    RowEquals(row, Computed(first, u));
  }

  /** For a given number of updates one row matches: that multiple. */
  lemma OneRowMatches(row: Row, p: int, u: int64)
    ensures Matches(row, Wrap64(p), u) <==> row == FromFirst(p, u)
  {
    MatchesComputed(row, Wrap64(p), u);
    ComputedIsMultiple(p, u);
  }

  lemma RowEquals(a: Row, b: Row)
    ensures a == b <==> a.c1 == b.c1 && a.c2 == b.c2 && a.c3 == b.c3 && a.c4 == b.c4 && a.c5 == b.c5
  {}

  lemma CheckIsMatch(ck: int64, row: Row, u: int64, p: int)
    requires u == UpdateNum(ck, row) && p == u * ck
    ensures Check(ck, row) <==> Matches(row, Wrap64(p), u)
  {
    assert ck * u == u * ck;
  }

  /** The check compares the row with the multiple it infers. */
  lemma CheckMeaning(ck: int64, row: Row, u: int64)
    requires u == UpdateNum(ck, row)
    ensures Check(ck, row) <==> row == Multiples(ck, u)
  {
    var p := u * ck;
    CheckIsMatch(ck, row, u, p);
    OneRowMatches(row, p, u);
    MultiplesFromFirst(ck, u);
  }

  lemma QuoOfMultiple(u: nat, ck: int)
    requires ck != 0
    ensures Quo(u * ck, ck) == u
  {
    if ck > 0 {
      Arithmetic.MulMonotone(0, u, ck);
      Arithmetic.DivModUnique(u * ck, ck, u, 0);
    } else {
      Arithmetic.MulMonotone(0, u, -ck);
      assert u * ck == -(u * -ck);
      NegativeDivisor(u, -ck);
    }
  }

  lemma NegativeDivisor(u: nat, d: int)
    requires 0 < d && 0 <= u * d
    ensures Quo(-(u * d), -d) == u
  {
    var n := u * d;
    if n == 0 {
      if u > 0 {
        Arithmetic.MulMonotone(1, u, d);
      }
    } else {
      EuclidNegative(n, d, u);
    }
  }

  /** Division by a negative number of a multiple of it. */
  lemma EuclidNegative(n: int, d: int, u: int)
    requires 0 < d && n == u * d
    ensures n / -d == -u
  {
    var q, r := n / -d, n % -d;
    assert n == -d * q + r && 0 <= r < d;
    assert r == (u + q) * d by {
      Arithmetic.Distribute(u, -q, d);
    }
    Arithmetic.ZeroMultiple(u + q, d);
  }

  /** The same for negative numbers of updates. */
  lemma QuoOfAnyMultiple(u: int, ck: int)
    requires ck != 0
    ensures Quo(u * ck, ck) == u
  {
    if u >= 0 {
      QuoOfMultiple(u, ck);
    } else {
      QuoOfMultiple(-u, ck);
      assert u * ck == -(-u * ck);
      QuoNegated(-u * ck, ck);
    }
  }

  lemma QuoNegated(n: int, d: int)
    requires d != 0
    ensures Quo(-n, d) == -Quo(n, d)
  {
    if n == 0 {
      ZeroQuotient(d);
    }
  }

  lemma ZeroQuotient(d: int)
    requires d != 0
    ensures 0 / d == 0
  {}

  /** Truncation never makes a product larger than the dividend. */
  lemma QuoTimes(c: int64, ck: int64)
    requires ck != 0
    ensures FitsInt64(Quo(c, ck) * ck)
  {
    var a: int := if c >= 0 then c else -(c as int);
    var q := a / ck;
    Arithmetic.EuclidRemainder(a, ck);
    assert a == q * ck + a % ck;
    assert -q * ck == -(q * ck);
  }

  /**
   The product of updates and clustering key fits 64 bits, or it is the one product whose wrapped value divides back:
   that of -2^63 and -1.
   */
  predicate Divides(ck: int64, u: int64) { FitsInt64(u * ck) || (u == MIN_INT64 && ck == -1) }

  /** The multiple by `u` is inferred back exactly when the first column divides back. */
  lemma InferredBack(ck: int64, u: int64)
    ensures UpdateNum(ck, Multiples(ck, u)) == u <==> Divides(ck, u)
  {
    if ck != 0 {
      if FitsInt64(u * ck) {
        QuoOfAnyMultiple(u, ck);
      } else if u == MIN_INT64 && ck == -1 {
        assert Wrap64(u * ck) == MIN_INT64;
      } else {
        NotInferred(ck, u, Wrap64(u * ck));
      }
    }
  }

  lemma NotInferred(ck: int64, u: int64, c1: int64)
    requires ck != 0 && !Divides(ck, u) && c1 == Wrap64(u * ck)
    ensures Wrap64(Quo(c1, ck)) != u
  {
    QuoTimes(c1, ck);
    QuoRange(c1, ck);
  }

  /** The one quotient that does not fit is that of the smallest integer and -1. */
  lemma QuoRange(c: int64, ck: int64)
    requires ck != 0
    ensures FitsInt64(Quo(c, ck)) || (Wrap64(Quo(c, ck)) == MIN_INT64 && c == MIN_INT64 && ck == -1)
  {
    var a: int := if c >= 0 then c else -(c as int);
    var q := a / ck;
    assert a == q * ck + a % ck;
    Arithmetic.EuclidRemainder(a, ck);
    if q > a {
      Arithmetic.EuclidQuotient(a, ck);
    }
    Arithmetic.EuclidQuotient(a, ck);
  }

  /** The check of a multiple succeeds exactly when its first column divides back. */
  lemma MultipleChecked(ck: int64, u: int64)
    ensures Check(ck, Multiples(ck, u)) <==> Divides(ck, u)
  {
    var row := Multiples(ck, u);
    InferredBack(ck, u);
    var n := UpdateNum(ck, row);
    CheckMeaning(ck, row, n);
    if row == Multiples(ck, n) {
      SameMultiplier(ck, u, n);
    }
  }

  /** The row is the multiple of the increments by `u`, and the first column of that divides back. */
  ghost predicate IsMultiple(ck: int64, row: Row, u: int64) {
    && Divides(ck, u) && row.c1 == Wrap64(u * ck) && row.c2 == Wrap64(u * (ck + 1)) && row.c3 == Wrap64(u * (ck + 2))
    && row.c4 == Wrap64(u * (ck + 3)) && row.c5 == Wrap64(u * (ck + 4))
  }

  /** Five values pass the check if and only if they are one multiple of the five increments that divides back. */
  lemma CheckedIsMultiple(ck: int64, row: Row)
    ensures Check(ck, row) <==> exists u: int64 :: IsMultiple(ck, row, u)
  {
    if Check(ck, row) {
      var u := UpdateNum(ck, row);
      CheckMeaning(ck, row, u);
      MultipleChecked(ck, u);
      assert IsMultiple(ck, row, u);
    }
    if u: int64 :| IsMultiple(ck, row, u) {
      MultipleChecked(ck, u);
      RowEquals(row, Multiples(ck, u));
    }
  }

  /**
   A row that has only seen whole updates passes the check if and only if the number of updates times the clustering key
   still fits 64 bits.
   */
  lemma UpdatedRowPasses(ck: int64, u: nat)
    requires u < TWO_63
    ensures Check(ck, After(ck, u)) <==> FitsInt64(u * ck)
  {
    AfterUpdates(ck, u);
    MultipleChecked(ck, u);
  }

  /** Equal multiples have equal multipliers: the second column exceeds the first by just that. */
  lemma SameMultiplier(ck: int64, u: int64, n: int64)
    requires Wrap64(u * ck) == Wrap64(n * ck) && Wrap64(u * (ck + 1)) == Wrap64(n * (ck + 1))
    ensures u == n
  {
    assert u * (ck + 1) == u * ck + u && n * (ck + 1) == n * ck + n;
    WrapPart(u * ck, u);
    WrapPart(n * ck, n);
    SameResidue(Wrap64(u * ck), u, n);
  }

  lemma SameResidue(c: int64, u: int64, n: int64)
    requires Wrap64(c + u) == Wrap64(c + n)
    ensures u == n
  {}
}
