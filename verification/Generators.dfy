/** The two generators that come to an end: every row of a range of rows, and every token range of a range of ranges. */
module Generators {
  import opened GoInts
  import Arithmetic

  // ---- rows in sequence ----

  /** The key of row number `x` when every partition holds `c` rows. */
  function Key(x: int, c: int): (int, int)
    requires c > 0
  {
    (x / c, x % c)
  }

  class SequentialVisitAll {
    const rowCount: int
    const clusteringRowCount: int
    const startPartition: int
    const startClusteringRow: int
    var nextPartition: int
    var nextClusteringRow: int
    var processedRowCount: int

    ghost predicate Valid()
      reads this
    {
      && startClusteringRow < clusteringRowCount && 0 < clusteringRowCount
      && nextClusteringRow <= clusteringRowCount
      && 0 <= processedRowCount
    }

    /** Both rows are rows of their partitions, as they are unless the generator was given a negative row offset. */
    ghost predicate InPartition()
      reads this
    {
      0 <= startClusteringRow && 0 <= nextClusteringRow
    }

    /** The generator is where it was made and where it is restarted. */
    ghost predicate AtStart()
      reads this
    {
      nextPartition == startPartition && nextClusteringRow == startClusteringRow && processedRowCount == 0
    }

    /** The number of the first row. */
    ghost function Start(): int {
      startPartition * clusteringRowCount + startClusteringRow
    }

    /** The number of the row that comes next. */
    ghost function Cursor(): int
      reads this
    {
      nextPartition * clusteringRowCount + nextClusteringRow
    }

    constructor (rowOffset: int, rowCount: int, clusteringRowCount: int)
      requires 0 < clusteringRowCount
      ensures Valid() && (InPartition() <==> 0 <= rowOffset || rowOffset % clusteringRowCount == 0)
      ensures this.rowCount == rowCount && this.clusteringRowCount == clusteringRowCount
      ensures AtStart() && Start() == rowOffset
    {
      var partition, row := Quo(rowOffset, clusteringRowCount), Rem(rowOffset, clusteringRowCount);
      this.rowCount := rowCount;
      this.clusteringRowCount := clusteringRowCount;
      startPartition, nextPartition := partition, partition;
      startClusteringRow, nextClusteringRow := row, row;
      processedRowCount := 0;
      StartRowInPartition(rowOffset, clusteringRowCount);
    }

    method NextPartitionKey() returns (pk: int)
      requires Valid()
      modifies this
      ensures Valid() && nextClusteringRow < clusteringRowCount && (old(InPartition()) ==> InPartition())
      ensures Cursor() == old(Cursor()) && processedRowCount == old(processedRowCount)
      ensures old(nextClusteringRow) < clusteringRowCount ==> unchanged(this)
      ensures pk == nextPartition && (InPartition() ==> (pk, nextClusteringRow) == Key(Cursor(), clusteringRowCount))
    {
      if nextClusteringRow < clusteringRowCount {
        pk := nextPartition;
      } else {
        nextClusteringRow := 0;
        nextPartition := nextPartition + 1;
        pk := nextPartition;
      }
      if InPartition() {
        KeyOf(nextPartition, nextClusteringRow, clusteringRowCount);
      }
    }

    method NextClusteringKey() returns (ck: int)
      requires Valid() && !IsPartitionDone()
      modifies this
      ensures Valid() && nextPartition == old(nextPartition) && (old(InPartition()) ==> InPartition())
      ensures ck == old(nextClusteringRow) && nextClusteringRow == ck + 1
      ensures processedRowCount == old(processedRowCount) + 1
    {
      ck := nextClusteringRow;
      nextClusteringRow := nextClusteringRow + 1;
      processedRowCount := processedRowCount + 1;
    }

    predicate IsDone()
      reads this
    {
      processedRowCount >= rowCount
    }

    predicate IsPartitionDone()
      reads this
    {
      nextClusteringRow == clusteringRowCount
    }

    method Restart()
      requires Valid()
      modifies this
      ensures Valid() && AtStart() && (old(InPartition()) ==> InPartition())
    {
      nextPartition := startPartition;
      nextClusteringRow := startClusteringRow;
      processedRowCount := 0;
    }
  }

  /** `NewSequentialVisitAll`: an error, here `null`, unless partitions hold at least one row. */
  method NewSequentialVisitAll(rowOffset: int, rowCount: int, clusteringRowCount: int)
    returns (sva: SequentialVisitAll?)
    ensures sva == null <==> clusteringRowCount <= 0
    ensures sva != null ==>
              && fresh(sva) && sva.Valid()
              && (sva.InPartition() <==> 0 <= rowOffset || rowOffset % clusteringRowCount == 0)
              && sva.rowCount == rowCount && sva.clusteringRowCount == clusteringRowCount
              && sva.AtStart() && sva.Start() == rowOffset
  {
    if clusteringRowCount <= 0 {
      return null;
    }
    sva := new SequentialVisitAll(rowOffset, rowCount, clusteringRowCount);
  }

  /** A partition and a row inside it are recovered from the row's number. */
  lemma KeyOf(p: int, r: int, c: int)
    requires 0 <= r < c
    ensures Key(p * c + r, c) == (p, r)
  {
    Arithmetic.DivModUnique(p * c + r, c, p, r);
  }

  /** The cursor starts at a row of its partition exactly for offsets from zero and for whole numbers of partitions. */
  lemma StartRowInPartition(rowOffset: int, c: int)
    requires 0 < c
    ensures Rem(rowOffset, c) < c
    ensures 0 <= Rem(rowOffset, c) <==> 0 <= rowOffset || rowOffset % c == 0
  {
    if rowOffset < 0 {
      Arithmetic.DivModParts(-rowOffset, c);
      var q := -rowOffset / c;
      if -rowOffset % c == 0 {
        Arithmetic.DivModUnique(rowOffset, c, -q, 0);
      } else {
        Arithmetic.DivModUnique(rowOffset, c, -q - 1, c - -rowOffset % c);
      }
    } else {
      Arithmetic.DivModParts(rowOffset, c);
    }
  }

  // ---- token ranges in sequence ----

  /** Both bounds belong to the range. */
  datatype TokenRange = TokenRange(start: int64, end: int64)

  /** The tokens a range is given when the ring is cut into `total`, two or more: one too few tokens are divided. */
  function TokensPerRange(total: int): int
    requires total > 0
  {
    (TWO_64 - 1) / total
  }

  /** Range number `current` of `total`: its exact bounds, modulo 2^64. */
  function RangeAt(total: int, current: int): TokenRange
    requires total > 0
  {
    if total == 1 then TokenRange(MIN_INT64, MAX_INT64)
    else
      var t := TokensPerRange(total);
      TokenRange(Wrap64(MIN_INT64 + current * t),
                 if current + 1 == total then MAX_INT64 else Wrap64(MIN_INT64 + (current + 1) * t - 1))
  }

  /** Each bound wraps several times over in the computation, which leaves the same as wrapping once. */
  lemma WrappedBounds(current: int, t: int)
    ensures var first := Wrap64(MIN_INT64 + Wrap64(current * t));
            && first == Wrap64(MIN_INT64 + current * t)
            && Wrap64(Wrap64(first + t) - 1) == Wrap64(MIN_INT64 + (current + 1) * t - 1)
  {
    WrapPart(current * t, MIN_INT64);
    WrapPart(MIN_INT64 + current * t, t);
    assert (current + 1) * t == current * t + t;
    WrapPart(MIN_INT64 + current * t + t, -1);
  }

  class RangeScan {
    const totalRangeCount: int
    const rangeOffset: int
    /** One past the last range. */
    const rangeCount: int
    var nextRange: int

    constructor (totalRangeCount: int, rangeOffset: int, rangeCount: int)
      ensures this.totalRangeCount == totalRangeCount && this.rangeOffset == rangeOffset
      ensures this.rangeCount == rangeOffset + rangeCount && nextRange == rangeOffset
    {
      this.totalRangeCount := totalRangeCount;
      this.rangeOffset := rangeOffset;
      this.rangeCount := rangeOffset + rangeCount;
      nextRange := rangeOffset;
    }

    method NextTokenRange() returns (r: TokenRange)
      requires 0 < totalRangeCount < TWO_63
      modifies this
      ensures r == RangeAt(totalRangeCount, old(nextRange)) && nextRange == old(nextRange) + 1
    {
      if totalRangeCount == 1 {
        nextRange := nextRange + 1;
        return TokenRange(MIN_INT64, MAX_INT64);
      }
      var tokensPerRange := (TWO_64 - 1) / totalRangeCount;
      var currentRange := nextRange;
      WrappedBounds(currentRange, tokensPerRange);
      nextRange := nextRange + 1;
      var firstToken := Wrap64(MIN_INT64 + Wrap64(currentRange * tokensPerRange));
      var lastToken: int64;
      if nextRange == totalRangeCount {
        lastToken := MAX_INT64;
      } else {
        lastToken := Wrap64(Wrap64(firstToken + tokensPerRange) - 1);
      }
      return TokenRange(firstToken, lastToken);
    }

    predicate IsDone()
      reads this
    {
      nextRange >= rangeCount
    }

    method Restart()
      modifies this
      ensures nextRange == rangeOffset
    {
      nextRange := rangeOffset;
    }
  }
}
