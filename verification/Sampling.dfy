/** Drawing an integer below a bound without bias: words that would favour some results are rejected. */
module Sampling {
  import opened GoInts
  import Arithmetic

  type uint64 = x: int | 0 <= x < TWO_64

  /** `(-un) % un` on `uint64`. */
  function Threshold(n: int): int
    requires 0 < n < TWO_63
  {
    ((TWO_64 - n) % TWO_64) % n
  }

  predicate Accepted(n: int, v: uint64)
    requires 0 < n < TWO_63
  {
    v >= Threshold(n)
  }

  /** The threshold is 2^64 modulo `n`. */
  lemma ThresholdIsRemainder(n: int)
    requires 0 < n < TWO_63
    ensures Threshold(n) == TWO_64 % n
    ensures TWO_64 - Threshold(n) == (TWO_64 / n) * n
  {
    var q, r := TWO_64 / n, TWO_64 % n;
    Arithmetic.DivModParts(TWO_64, n);
    Arithmetic.Distribute(q, 1, n);
    Arithmetic.DivModUnique(TWO_64 - n, n, q - 1, r);
  }

  /** What a draw leaves: the run-time panic of a bound that is not positive, no word left, or a value. */
  datatype Draw = Panics | Starves | Draws(value: int)

  /** The first accepted word of a stream, from word `from` on; the end of the stream if there is none. */
  function FirstAccepted(n: int, words: seq<uint64>, from: nat): (i: nat)
    requires 0 < n < TWO_63 && from <= |words|
    ensures from <= i <= |words|
    ensures forall j | from <= j < i :: !Accepted(n, words[j])
    ensures i < |words| ==> Accepted(n, words[i])
    decreases |words| - from
  {
    if from == |words| || Accepted(n, words[from]) then from else FirstAccepted(n, words, from + 1)
  }

  /** The result of `Int64N` on a stream of random words. */
  function Result(n: int, words: seq<uint64>): Draw {
    if !(0 < n < TWO_63) then Panics
    else
      var i := FirstAccepted(n, words, 0);
      if i == |words| then Starves else Draws(words[i] % n)
  }

  /** The first word from 2^64 modulo `n` up is word number `i`. */
  ghost predicate FirstGood(n: int, words: seq<uint64>, i: nat)
    requires 0 < n
  {
    && i < |words| && TWO_64 % n <= words[i]
    && forall j | 0 <= j < i :: words[j] < TWO_64 % n
  }

  /** Draws words until one is accepted: the first that is not among the 2^64 modulo `n` lowest. */
  method Int64N(n: int64, words: seq<uint64>) returns (d: Draw)
    ensures d == Result(n, words)
    ensures d.Panics? <==> n <= 0
    ensures d.Starves? ==> forall j | 0 <= j < |words| :: words[j] < TWO_64 % n
    ensures d.Draws? ==> exists i: nat :: FirstGood(n, words, i) && d.value == words[i] % n
    ensures d.Draws? ==> 0 <= d.value < n
  {
    if n <= 0 {
      return Panics;
    }
    var un := n;
    var threshold := ((TWO_64 - un) % TWO_64) % un;
    ThresholdIsRemainder(n);
    var i := 0;
    while i < |words|
      invariant 0 <= i <= |words|
      invariant FirstAccepted(n, words, 0) == FirstAccepted(n, words, i)
      invariant forall j | 0 <= j < i :: words[j] < TWO_64 % n
    {
      var v := words[i];
      if v >= threshold {
        assert FirstGood(n, words, i);
        return Draws(v % un);
      }
      i := i + 1;
    }
    return Starves;
  }

  // ---- one word: every result has the same number of accepted words ----

  /** The numbers in `[lo, hi)` with residue `r`. */
  ghost function Residues(lo: int, hi: int, n: int, r: int): set<int>
    requires 0 < n
  {
    set v: int | lo <= v < hi && v % n == r
  }

  /** One word is enough exactly when it is not among the 2^64 modulo `n` lowest. */
  lemma OneWord(n: int, v: uint64)
    requires 0 < n < TWO_63
    ensures Result(n, [v]) == if TWO_64 % n <= v then Draws(v % n) else Starves
  {
    ThresholdIsRemainder(n);
    assert FirstAccepted(n, [v], 0) == if Accepted(n, v) then 0 else 1;
  }

  /** The words that by themselves give result `r`. */
  ghost function WordsFor(n: int, r: int): set<int>
    requires 0 < n < TWO_63
  {
    set v: int | 0 <= v < TWO_64 && Result(n, [v]) == Draws(r)
  }

  /** The words that by themselves give any result. */
  ghost function GoodWords(n: int): set<int>
    requires 0 < n < TWO_63
  {
    set v: int | 0 <= v < TWO_64 && Result(n, [v]).Draws?
  }

  lemma WordsAreResidues(n: int, r: int)
    requires 0 < n < TWO_63 && 0 <= r < n
    ensures WordsFor(n, r) == Residues(TWO_64 % n, TWO_64, n, r)
  {
    forall v: int | 0 <= v < TWO_64
      ensures Result(n, [v]) == if TWO_64 % n <= v then Draws(v % n) else Starves
    {
      OneWord(n, v);
    }
  }

  /** Every number is one of the residues modulo one. */
  lemma GoodWordsAreInterval(n: int)
    requires 0 < n < TWO_63
    ensures GoodWords(n) == Residues(TWO_64 % n, TWO_64, 1, 0)
  {
    forall v: int | 0 <= v < TWO_64
      ensures v in GoodWords(n) <==> TWO_64 % n <= v
    {
      OneWord(n, v);
    }
  }

  lemma NextPeriod(lo: int, hi: int, n: int, r: int)
    requires 0 < n && 0 <= r < n && lo <= hi
    ensures |Residues(lo, hi + n, n, r)| == |Residues(lo, hi, n, r)| + 1
  {
    var w := OneInPeriod(hi, n, r);
    assert Residues(lo, hi + n, n, r) == Residues(lo, hi, n, r) + {w};
  }

  /** `k` whole periods contain each residue `k` times. */
  lemma {:induction false} ResiduesInPeriods(start: int, n: int, k: nat, r: int)
    requires 0 < n && 0 <= r < n
    ensures start <= start + k * n
    ensures |Residues(start, start + k * n, n, r)| == k
  {
    Arithmetic.MulMonotone(0, k, n);
    if k == 0 {
      assert Residues(start, start + k * n, n, r) == {};
    } else {
      ResiduesInPeriods(start, n, k - 1, r);
      Arithmetic.Distribute(k, 1, n);
      NextPeriod(start, start + (k - 1) * n, n, r);
    }
  }

  /** One period contains each residue exactly once. */
  lemma OneInPeriod(start: int, n: int, r: int) returns (w: int)
    requires 0 < n && 0 <= r < n
    ensures start <= w < start + n && w % n == r
    ensures forall v | start <= v < start + n && v % n == r :: v == w
  {
    var q, m := start / n, start % n;
    Arithmetic.DivModParts(start, n);
    w := if m <= r then q * n + r else (q + 1) * n + r;
    assert (q + 1) * n == q * n + n;
    Arithmetic.DivModUnique(w, n, if m <= r then q else q + 1, r);
    forall v | start <= v < start + n && v % n == r
      ensures v == w
    {
      Arithmetic.DivModParts(v, n);
      Arithmetic.DivModParts(w, n);
      Arithmetic.Distribute(v / n, w / n, n);
      Arithmetic.ZeroMultiple(v / n - w / n, n);
    }
  }

  /** Every result below `n` comes from exactly `2^64 / n` words, and more than half of all words give a result. */
  lemma EveryResultEquallyOften(n: int, r: int)
    requires 0 < n < TWO_63 && 0 <= r < n
    ensures |set v: int | 0 <= v < TWO_64 && Result(n, [v]) == Draws(r)| == TWO_64 / n
    ensures |set v: int | 0 <= v < TWO_64 && Result(n, [v]).Draws?| == TWO_64 - TWO_64 % n > TWO_63
  {
    var k := TWO_64 / n;
    Arithmetic.DivModParts(TWO_64, n);
    Arithmetic.QuotientNatural(TWO_64, n);
    WordsAreResidues(n, r);
    ResiduesInPeriods(TWO_64 % n, n, k, r);
    assert WordsFor(n, r) == set v: int | 0 <= v < TWO_64 && Result(n, [v]) == Draws(r);
    GoodWordsAreInterval(n);
    ResiduesInPeriods(TWO_64 % n, 1, TWO_64 - TWO_64 % n, 0);
    assert GoodWords(n) == set v: int | 0 <= v < TWO_64 && Result(n, [v]).Draws?;
  }

  // ---- whole streams: no result is favoured however many words are drawn ----

  /** The word in the same period of the accepted words that gives result `r`. */
  function Retarget(n: int, v: int, r: int): int
    requires 0 < n < TWO_63
  {
    var t := Threshold(n);
    t + ((v - t) / n) * n + (r - t) % n
  }

  lemma RetargetWord(n: int, v: int, r: int)
    requires 0 < n < TWO_63 && 0 <= r < n && Threshold(n) <= v < TWO_64
    ensures Threshold(n) <= Retarget(n, v, r) < TWO_64
    ensures Retarget(n, v, r) % n == r
    ensures Retarget(n, Retarget(n, v, r), v % n) == v
  {
    var t := Threshold(n);
    ThresholdIsRemainder(n);
    PeriodOf(v - t, n, TWO_64 / n);
    InPeriod((v - t) / n, (r - t) % n, n, TWO_64 / n);
    SameResidue(r, t, n);
    ShiftResidue(t + (r - t) % n, (v - t) / n, n);
    Arithmetic.DivModUnique(Retarget(n, v, r) - t, n, (v - t) / n, (r - t) % n);
    ResidueDifference(v, t, n);
  }

  lemma PeriodOf(d: int, n: int, periods: int)
    requires 0 < n && 0 <= d < periods * n
    ensures 0 <= d / n < periods && d == (d / n) * n + d % n
  {
    Arithmetic.DivModParts(d, n);
    Arithmetic.QuotientNatural(d, n);
    if d / n >= periods {
      Arithmetic.MulMonotone(periods, d / n, n);
    }
  }

  lemma InPeriod(q: int, o: int, n: int, periods: int)
    requires 0 <= q < periods && 0 <= o < n
    ensures 0 <= q * n + o < periods * n
  {
    Arithmetic.MulMonotone(0, q, n);
    Arithmetic.MulMonotone(q + 1, periods, n);
    Arithmetic.Distribute(q + 1, q, n);
  }

  lemma SameResidue(r: int, t: int, n: int)
    requires 0 < n && 0 <= r < n
    ensures (t + (r - t) % n) % n == r
  {
    Arithmetic.DivModParts(r - t, n);
    Arithmetic.DivModUnique(t + (r - t) % n, n, -((r - t) / n), r);
  }

  lemma ShiftResidue(a: int, q: int, n: int)
    requires 0 < n
    ensures (a + q * n) % n == a % n
  {
    Arithmetic.DivModParts(a, n);
    assert (a / n + q) * n == (a / n) * n + q * n;
    Arithmetic.DivModUnique(a + q * n, n, a / n + q, a % n);
  }

  lemma ResidueDifference(v: int, t: int, n: int)
    requires 0 < n
    ensures (v % n - t) % n == (v - t) % n
  {
    Arithmetic.DivModParts(v, n);
    ShiftResidue(v % n - t, v / n, n);
  }

  /** The stream with its first accepted word replaced by the one in the same period that gives `r`. */
  function RetargetStream(n: int, words: seq<uint64>, r: int): seq<uint64>
    requires 0 < n < TWO_63 && 0 <= r < n
    requires Result(n, words).Draws?
  {
    var i := FirstAccepted(n, words, 0);
    RetargetWord(n, words[i], r);
    words[i := Retarget(n, words[i], r)]
  }

  lemma {:induction false} FirstAcceptedKept(n: int, words: seq<uint64>, words': seq<uint64>, from: nat, i: nat)
    requires 0 < n < TWO_63 && from <= i < |words| == |words'|
    requires i == FirstAccepted(n, words, from)
    requires forall j | 0 <= j < i :: words[j] == words'[j]
    requires Accepted(n, words'[i])
    ensures FirstAccepted(n, words', from) == i
    decreases i - from
  {
    if from < i {
      FirstAcceptedKept(n, words, words', from + 1, i);
    }
  }

  /**
   For any two results the streams of any length that lead to one are matched one to one with those that lead to the
   other: the replacement leads to `r` and is undone by replacing back.
   */
  lemma StreamsMatch(n: int, words: seq<uint64>, r: int)
    requires 0 < n < TWO_63 && 0 <= r < n
    requires Result(n, words).Draws?
    ensures var other := RetargetStream(n, words, r);
            && |other| == |words| && Result(n, other) == Draws(r)
            && RetargetStream(n, other, Result(n, words).value) == words
  {
    var i := FirstAccepted(n, words, 0);
    var other := RetargetStream(n, words, r);
    RetargetWord(n, words[i], r);
    FirstAcceptedKept(n, words, other, 0, i);
    assert other[i := words[i]] == words;
  }

  // ---- the uniform distribution ----

  datatype Uniform = Uniform(min: int64, max: int64)

  /**
   For `min < max` the value lies in `[min, max)`, or the width does not fit and there is a panic. Bounds in the wrong
   order panic too, unless they are so far apart that their difference wraps to a positive width: then the value lies
   outside `[max, min)`.
   */
  method GenerateUsing(u: Uniform, words: seq<uint64>) returns (d: Draw)
    ensures u.min == u.max ==> d == Draws(u.min)
    ensures u.min < u.max ==>
              && (d.Panics? <==> u.max - u.min >= TWO_63)
              && (d.Draws? ==> u.min <= d.value < u.max
                               && Result(u.max - u.min, words) == Draws(d.value - u.min))
    ensures u.max < u.min ==>
              && (d.Panics? <==> u.min - u.max <= TWO_63)
              && (d.Draws? ==> (MIN_INT64 <= d.value < u.max || u.min <= d.value <= MAX_INT64)
                               && Result(u.max - u.min + TWO_64, words) == Draws((d.value - u.min) % TWO_64))
  {
    if u.max == u.min {
      return Draws(u.min);
    }
    var n := Wrap64(u.max - u.min);
    Width(u.min, u.max);
    d := Int64N(n, words);
    if d.Draws? {
      WrapAround(u.min, d.value, n);
      d := Draws(Wrap64(u.min + d.value));
    }
  }

  lemma Width(min: int64, max: int64)
    ensures var w := Wrap64(max - min);
            if max - min >= TWO_63 then w == max - min - TWO_64 < 0
            else if max - min < -TWO_63 then w == max - min + TWO_64 > 0
            else w == max - min
  {}

  /** A step of less than 2^63 from `a` either stays in range or comes round from below. */
  lemma WrapAround(a: int64, step: int, n: int64)
    requires 0 <= step < n
    ensures Wrap64(a + step) == if a + step < TWO_63 then a + step else a + step - TWO_64
    ensures (Wrap64(a + step) - a) % TWO_64 == step
  {
    Arithmetic.DivModUnique(Wrap64(a + step) - a, TWO_64, if a + step < TWO_63 then 0 else -1, step);
  }
}
