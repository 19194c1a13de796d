/**
 The pseudo-random payload of a row: a xorshift64 stream seeded from the partition and clustering keys and cut to the
 length of the buffer.
 */
module Payload {
  import opened GoInts
  import opened Words

  const PK_FACTOR := 6364136223846793005
  const CK_FACTOR := 1442695040888963407

  /** The word the two keys are mixed into. */
  function Mix(pk: int64, ck: int64): Word {
    Xor(Uint64(pk * PK_FACTOR), Uint64(ck * CK_FACTOR))
  }

  /** The state the stream starts from: xorshift64 would stay at zero for ever. */
  function Seed(pk: int64, ck: int64): Word {
    if Mix(pk, ck) == ZERO then Uint64(1) else Mix(pk, ck)
  }

  /** `w ^ w << k` */
  function XorLeft(w: Word, k: nat): Word {
    seq(64, i requires 0 <= i < 64 => w[i] != (i >= k && w[i - k]))
  }

  /** `w ^ w >> k` */
  function XorRight(w: Word, k: nat): Word {
    seq(64, i requires 0 <= i < 64 => w[i] != (i + k < 64 && w[i + k]))
  }

  /** One xorshift64 step. */
  function Next(w: Word): Word { XorLeft(XorRight(XorLeft(w, 13), 7), 17) }

  /** The state after `k` steps. */
  function Iterate(w: Word, k: nat): Word
    decreases k, w
  {
    if k == 0 then w else Iterate(Next(w), k - 1)
  }

  /** Byte `i` of the endless string of little-endian words that follow state `w`. */
  function StreamByte(w: Word, i: nat): byte {
    Put64(Iterate(w, i / 8 + 1))[i % 8]
  }

  /** The first `n` bytes of that string. */
  function Stream(w: Word, n: nat): (s: seq<byte>)
    ensures |s| == n
  {
    seq(n, i requires 0 <= i < n => StreamByte(w, i))
  }

  // ---- filling a buffer ----

  lemma {:induction false} IterateNext(w: Word, k: nat)
    ensures Iterate(w, k + 1) == Next(Iterate(w, k))
    decreases k
  {
    if k != 0 {
      IterateNext(Next(w), k - 1);
    }
  }

  /** `binary.LittleEndian.PutUint64(buf[at:], w)` */
  method PutUint64(buf: array<byte>, at: nat, w: Word)
    requires at + 8 <= buf.Length
    modifies buf
    ensures buf[..] == old(buf[..at]) + Put64(w) + old(buf[at + 8..])
  {
    var bytes := Put64(w);
    forall k | 0 <= k < 8 {
      buf[at + k] := bytes[k];
    }
  }

  /** The three assignments that advance the state. */
  method Advance(state: Word) returns (next: Word)
    ensures next == Next(state)
  {
    next := XorLeft(state, 13);
    next := XorRight(next, 7);
    next := XorLeft(next, 17);
  }

  /** Fills `buf[lo..hi]` with the payload of the row `(pk, ck)`. */
  method FillPayload(buf: array<byte>, lo: nat, hi: nat, pk: int64, ck: int64)
    requires lo <= hi <= buf.Length
    modifies buf
    ensures buf[..] == old(buf[..lo]) + Stream(Seed(pk, ck), hi - lo) + old(buf[hi..])
  {
    var state := Mix(pk, ck);
    if state == ZERO {
      state := Uint64(1);
    }
    FillFrom(buf, lo, hi, state);
  }

  method FillFrom(buf: array<byte>, lo: nat, hi: nat, seed: Word)
    requires lo <= hi <= buf.Length
    modifies buf
    ensures buf[..] == old(buf[..lo]) + Stream(seed, hi - lo) + old(buf[hi..])
  {
    ghost var before, rest := buf[..lo], buf[lo..];
    assert rest[hi - lo..] == buf[hi..];
    var i, state, k := FillWords(buf, lo, hi, seed);
    if i < hi - lo {
      ghost var now := buf[..];
      state := Advance(state);
      IterateNext(seed, k);
      FillTail(buf, lo + i, hi, state, seed, k);
      Complete(seed, before, rest, i, hi - lo, now, buf[..]);
    }
  }

  lemma Complete(seed: Word, before: seq<byte>, rest: seq<byte>, i: nat, n: nat, s: seq<byte>, t: seq<byte>)
    requires i <= n <= |rest|
    requires s == before + Stream(seed, i) + rest[i..]
    requires t == s[..|before| + i] + Stream(seed, n)[i..] + s[|before| + n..]
    ensures t == before + Stream(seed, n) + rest[n..]
  {
    StreamSplit(seed, i, n);
    Splice(before, Stream(seed, i), rest, i, s, Stream(seed, n)[i..], t);
  }

  /** Stores as many whole words after `seed` as fit, and says how many. */
  method FillWords(buf: array<byte>, lo: nat, hi: nat, seed: Word) returns (i: nat, state: Word, ghost k: nat)
    requires lo <= hi <= buf.Length
    modifies buf
    ensures i == 8 * k <= hi - lo < i + 8
    ensures state == Iterate(seed, k)
    ensures buf[..] == old(buf[..lo]) + Stream(seed, i) + old(buf[lo..])[i..]
  {
    ghost var before, rest := buf[..lo], buf[lo..];
    state := seed;
    i, k := 0, 0;
    assert buf[..] == before + rest && Stream(seed, 0) == [] && rest[0..] == rest;
    while i + 8 <= hi - lo
      invariant i == 8 * k && i <= hi - lo
      invariant state == Iterate(seed, k)
      invariant buf[..] == before + Stream(seed, i) + rest[i..]
    {
      state := StoreNext(buf, lo + i, state, seed, k, before, rest);
      i, k := i + 8, k + 1;
    }
  }

  /** One round of the word loop: advances the state and stores it as word `k`. */
  method StoreNext(buf: array<byte>, at: nat, state: Word, ghost seed: Word, ghost k: nat, ghost before: seq<byte>,
                   ghost rest: seq<byte>) returns (next: Word)
    requires at == |before| + 8 * k && 8 * k + 8 <= |rest|
    requires state == Iterate(seed, k)
    requires buf[..] == before + Stream(seed, 8 * k) + rest[8 * k..]
    modifies buf
    ensures next == Iterate(seed, k + 1)
    ensures buf[..] == before + Stream(seed, 8 * k + 8) + rest[8 * k + 8..]
  {
    ghost var now := buf[..];
    assert buf.Length == |now|;
    next := Advance(state);
    StreamWord(seed, k, next);
    PutUint64(buf, at, next);
    Splice(before, Stream(seed, 8 * k), rest, 8 * k, now, Put64(next), buf[..]);
  }

  /** Stores the first bytes of word `k` where no whole word fits. */
  method FillTail(buf: array<byte>, at: nat, hi: nat, word: Word, ghost seed: Word, ghost k: nat)
    requires at <= hi <= buf.Length && hi - at < 8
    requires word == Iterate(seed, k + 1)
    modifies buf
    ensures buf[..] == old(buf[..at]) + Stream(seed, 8 * k + (hi - at))[8 * k..] + old(buf[hi..])
  {
    var state := word;
    var j := at;
    while j < hi
      invariant at <= j <= hi
      invariant state[..64 - 8 * (j - at)] == word[8 * (j - at)..]
      invariant forall m | 0 <= m < buf.Length
                  :: buf[m] == if at <= m < j then StreamByte(seed, 8 * k + (m - at)) else old(buf[m])
    {
      StreamByteOf(seed, k, j - at);
      TailByte(j - at, word, state);
      if j - at < 7 {
        TailShift(j - at, word, state);
      }
      buf[j] := FromBits(state[..8]);
      state := state[8..] + Fill(8, false);
      j := j + 1;
    }
  }

  lemma StreamSplit(seed: Word, i: nat, n: nat)
    requires i <= n
    ensures Stream(seed, n) == Stream(seed, i) + Stream(seed, n)[i..]
  {}

  /** Overwriting the start of the unfilled rest moves the boundary of the filled part. */
  lemma Splice(before: seq<byte>, filled: seq<byte>, rest: seq<byte>, i: nat, s: seq<byte>, w: seq<byte>, t: seq<byte>)
    requires i == |filled| && i + |w| <= |rest|
    requires s == before + filled + rest[i..]
    requires t == s[..|before| + i] + w + s[|before| + i + |w|..]
    ensures t == before + (filled + w) + rest[i + |w|..]
  {}

  lemma StreamWord(seed: Word, k: nat, word: Word)
    requires word == Next(Iterate(seed, k))
    ensures word == Iterate(seed, k + 1)
    ensures Stream(seed, 8 * k + 8) == Stream(seed, 8 * k) + Put64(word)
  {
    IterateNext(seed, k);
    forall m | 0 <= m < 8
      ensures StreamByte(seed, 8 * k + m) == Put64(word)[m]
    {
      StreamByteOf(seed, k, m);
    }
  }

  lemma StreamByteOf(seed: Word, k: nat, m: nat)
    requires m < 8
    ensures StreamByte(seed, 8 * k + m) == Put64(Iterate(seed, k + 1))[m]
  {
    assert (8 * k + m) / 8 == k && (8 * k + m) % 8 == m;
  }

  /** After `m` shifts by a byte the low byte of the state is byte `m` of the word. */
  lemma TailByte(m: nat, word: Word, state: Word)
    requires m < 8
    requires state[..64 - 8 * m] == word[8 * m..]
    ensures 0 <= FromBits(state[..8]) < 256
    ensures FromBits(state[..8]) == Put64(word)[m]
  {
    ByteAt(word, m);
    var rest := word[8 * m..];
    assert state[..8] == rest[..8] == word[8 * m..8 * m + 8];
  }

  lemma TailShift(m: nat, word: Word, state: Word)
    requires m < 7
    requires state[..64 - 8 * m] == word[8 * m..]
    ensures state[8..][..64 - 8 * (m + 1)] == word[8 * (m + 1)..]
  {
    assert state[8..][..64 - 8 * (m + 1)] == word[8 * m..][8..];
  }

  // ---- the step is a bijection that fixes zero ----

  lemma {:induction false} XorLeftInjective(u: Word, v: Word, k: nat, i: nat)
    requires k > 0 && i < 64
    requires XorLeft(u, k) == XorLeft(v, k)
    ensures u[i] == v[i]
  {
    assert XorLeft(u, k)[i] == XorLeft(v, k)[i];
    if i >= k {
      XorLeftInjective(u, v, k, i - k);
    }
  }

  lemma {:induction false} XorRightInjective(u: Word, v: Word, k: nat, i: nat)
    requires k > 0 && i < 64
    requires XorRight(u, k) == XorRight(v, k)
    ensures u[i] == v[i]
    decreases 64 - i
  {
    assert XorRight(u, k)[i] == XorRight(v, k)[i];
    if i + k < 64 {
      XorRightInjective(u, v, k, i + k);
    }
  }

  /** Xorshift64 never takes two states to one. */
  lemma NextInjective(u: Word, v: Word)
    requires Next(u) == Next(v)
    ensures u == v
  {
    var u1, v1 := XorLeft(u, 13), XorLeft(v, 13);
    var u2, v2 := XorRight(u1, 7), XorRight(v1, 7);
    forall i | 0 <= i < 64 ensures u2[i] == v2[i] {
      XorLeftInjective(u2, v2, 17, i);
    }
    forall i | 0 <= i < 64 ensures u1[i] == v1[i] {
      XorRightInjective(u1, v1, 7, i);
    }
    forall i | 0 <= i < 64 ensures u[i] == v[i] {
      XorLeftInjective(u, v, 13, i);
    }
  }

  lemma NextZero()
    ensures Next(ZERO) == ZERO
  {
    assert XorLeft(ZERO, 13) == ZERO;
    assert XorRight(ZERO, 7) == ZERO;
    assert XorLeft(ZERO, 17) == ZERO;
  }

  lemma NextNonZero(w: Word)
    requires w != ZERO
    ensures Next(w) != ZERO
  {
    NextZero();
    if Next(w) == ZERO {
      NextInjective(w, ZERO);
    }
  }

  lemma {:induction false} IterateNonZero(w: Word, k: nat)
    requires w != ZERO
    ensures Iterate(w, k) != ZERO
    decreases k
  {
    if k != 0 {
      NextNonZero(w);
      IterateNonZero(Next(w), k - 1);
    }
  }

  lemma LowestBit(n: int, k: nat)
    requires k > 0
    ensures ToBits(n, k)[0] == (n % 2 == 1)
  {}

  lemma SeedNonZero(pk: int64, ck: int64)
    ensures Seed(pk, ck) != ZERO
  {
    LowestBit(1, 64);
  }

  /** Every payload of at least eight bytes has a non-zero byte among the first eight. */
  lemma PayloadNonZero(pk: int64, ck: int64, n: nat)
    requires n >= 8
    ensures exists i | 0 <= i < 8 :: Stream(Seed(pk, ck), n)[i] != 0
  {
    var w := Iterate(Seed(pk, ck), 1);
    SeedNonZero(pk, ck);
    IterateNonZero(Seed(pk, ck), 1);
    FirstWord(Seed(pk, ck), n);
    if forall i | 0 <= i < 8 :: Stream(Seed(pk, ck), n)[i] == 0 {
      ZeroBytes(w, Stream(Seed(pk, ck), n)[..8]);
    }
  }

  lemma FirstWord(seed: Word, n: nat)
    requires n >= 8
    ensures Stream(seed, n)[..8] == Put64(Iterate(seed, 1))
  {
    forall i | 0 <= i < 8
      ensures Stream(seed, n)[i] == Put64(Iterate(seed, 1))[i]
    {
      assert i / 8 == 0 && i % 8 == i;
    }
  }

  lemma ZeroBytes(w: Word, s: seq<byte>)
    requires s == Put64(w) && forall m | 0 <= m < 8 :: s[m] == 0
    ensures w == ZERO
  {
    forall i | 0 <= i < 64
      ensures !w[i]
    {
      var m := i / 8;
      ByteAt(w, m);
      ZeroBits(w[8 * m..8 * m + 8]);
      assert w[i] == w[8 * m..8 * m + 8][i - 8 * m];
    }
  }

  lemma {:induction false} ZeroBits(bits: seq<bool>)
    requires FromBits(bits) == 0
    ensures forall i | 0 <= i < |bits| :: !bits[i]
  {
    if bits != [] {
      ZeroBits(bits[1..]);
    }
  }

  /** Two streams cut to the same length of at least eight bytes agree only if they start from one state. */
  lemma StreamInjective(u: Word, v: Word, n: nat)
    requires n >= 8
    requires Stream(u, n) == Stream(v, n)
    ensures u == v
  {
    FirstWord(u, n);
    FirstWord(v, n);
    Put64Injective(Iterate(u, 1), Iterate(v, 1));
    NextInjective(u, v);
  }

  // ---- which rows share a payload ----

  const ONE: Word := Uint64(1)

  /** The one pair of different mixes that starts one stream. */
  ghost predicate ZeroOnePair(u: Word, v: Word) {
    (u == ZERO && v == ONE) || (u == ONE && v == ZERO)
  }

  lemma SeedsEqual(pk: int64, ck: int64, pk': int64, ck': int64)
    ensures Seed(pk, ck) == Seed(pk', ck')
            <==> Mix(pk, ck) == Mix(pk', ck') || ZeroOnePair(Mix(pk, ck), Mix(pk', ck'))
  {}

  lemma XorCancel(u: Word, v: Word, w: Word)
    ensures Xor(u, w) == Xor(v, w) ==> u == v
    ensures Xor(w, u) == Xor(w, v) ==> u == v
  {
    if Xor(u, w) == Xor(v, w) {
      forall i | 0 <= i < 64
        ensures u[i] == v[i]
      {
        assert Xor(u, w)[i] == Xor(v, w)[i];
      }
    }
    if Xor(w, u) == Xor(w, v) {
      forall i | 0 <= i < 64
        ensures u[i] == v[i]
      {
        assert Xor(w, u)[i] == Xor(w, v)[i];
      }
    }
  }

  // Each factor is odd, so multiplying by it is undone modulo 2^64 by multiplying by its inverse.

  lemma PkFactorInjective(a: int64, b: int64)
    requires Uint64(a * PK_FACTOR) == Uint64(b * PK_FACTOR)
    ensures a == b
  {
    Uint64Congruent(a * PK_FACTOR, b * PK_FACTOR);
    var d := a - b;
    var q := (d * PK_FACTOR) / TWO_64;
    assert d * PK_FACTOR == q * TWO_64;
    assert d == TWO_64 * (q * 13877824140714322085 - d * 4787856489426250814);
  }

  lemma CkFactorInjective(a: int64, b: int64)
    requires Uint64(a * CK_FACTOR) == Uint64(b * CK_FACTOR)
    ensures a == b
  {
    Uint64Congruent(a * CK_FACTOR, b * CK_FACTOR);
    var d := a - b;
    var q := (d * CK_FACTOR) / TWO_64;
    assert d * CK_FACTOR == q * TWO_64;
    assert d == TWO_64 * (q * 16613134689194145199 - d * 1299290917353797112);
  }

  /** Within one clustering key, two partitions share a payload exactly when their mixes are the pair zero and one. */
  lemma PartitionsShareStream(pk: int64, pk': int64, ck: int64, n: nat)
    requires n >= 8 && pk != pk'
    ensures Stream(Seed(pk, ck), n) == Stream(Seed(pk', ck), n) <==> ZeroOnePair(Mix(pk, ck), Mix(pk', ck))
  {
    if Stream(Seed(pk, ck), n) == Stream(Seed(pk', ck), n) {
      StreamInjective(Seed(pk, ck), Seed(pk', ck), n);
    }
    SeedsEqual(pk, ck, pk', ck);
    if Mix(pk, ck) == Mix(pk', ck) {
      XorCancel(Uint64(pk * PK_FACTOR), Uint64(pk' * PK_FACTOR), Uint64(ck * CK_FACTOR));
      PkFactorInjective(pk, pk');
    }
  }

  /** Within one partition, two rows share a payload exactly when their mixes are the pair zero and one. */
  lemma RowsShareStream(pk: int64, ck: int64, ck': int64, n: nat)
    requires n >= 8 && ck != ck'
    ensures Stream(Seed(pk, ck), n) == Stream(Seed(pk, ck'), n) <==> ZeroOnePair(Mix(pk, ck), Mix(pk, ck'))
  {
    if Stream(Seed(pk, ck), n) == Stream(Seed(pk, ck'), n) {
      StreamInjective(Seed(pk, ck), Seed(pk, ck'), n);
    }
    SeedsEqual(pk, ck, pk, ck');
    if Mix(pk, ck) == Mix(pk, ck') {
      XorCancel(Uint64(ck * CK_FACTOR), Uint64(ck' * CK_FACTOR), Uint64(pk * PK_FACTOR));
      CkFactorInjective(ck, ck');
    }
  }

  /** The exception is real: partitions 0 and 1/PK_FACTOR modulo 2^64 share every payload of clustering key 0. */
  lemma SharedStreamExists(n: nat)
    ensures Stream(Seed(0, 0), n) == Stream(Seed(-4568919932995229531, 0), n)
  {
    ZeroDigits(64);
    XorZeroWord(ZERO);
    InverseOfPkFactor();
    XorZeroWord(ONE);
    SeedsEqual(0, 0, -4568919932995229531, 0);
  }

  lemma InverseOfPkFactor()
    ensures Uint64(-4568919932995229531 * PK_FACTOR) == ONE
  {
    assert -4568919932995229531 * PK_FACTOR - 1 == TWO_64 * -1576279734420542191;
    CongruentWords(-4568919932995229531 * PK_FACTOR, 1, -1576279734420542191);
  }

  /** Rows 0 and 1/CK_FACTOR modulo 2^64 of partition 0 share every payload, too. */
  lemma SharedRowsExist(n: nat)
    ensures Stream(Seed(0, 0), n) == Stream(Seed(0, -1833609384515406417), n)
  {
    ZeroDigits(64);
    XorZeroWord(ZERO);
    InverseOfCkFactor();
    ZeroXorWord(ONE);
    SeedsEqual(0, 0, 0, -1833609384515406417);
  }

  lemma InverseOfCkFactor()
    ensures Uint64(-1833609384515406417 * CK_FACTOR) == ONE
  {
    assert -1833609384515406417 * CK_FACTOR - 1 == TWO_64 * -143404123535166295;
    CongruentWords(-1833609384515406417 * CK_FACTOR, 1, -143404123535166295);
  }

  lemma ZeroXorWord(w: Word)
    ensures Xor(ZERO, w) == w
  {}

  lemma CongruentWords(n: int, m: int, k: int)
    requires n - m == TWO_64 * k
    ensures Uint64(n) == Uint64(m)
  {
    Uint64Congruent(n, m);
  }

  lemma XorZeroWord(w: Word)
    ensures Xor(w, ZERO) == w
  {}

  // ---- a non-zero value of any length ----

  /** A short payload that came out all zeros gets a one in its first byte. */
  method EnsureNonZero(buf: array<byte>)
    modifies buf
    ensures buf[..] == NonZero(old(buf[..]))
    ensures if 1 <= buf.Length <= 7 && forall i | 0 <= i < buf.Length :: old(buf[i]) == 0
            then buf[0] == 1 && forall i | 1 <= i < buf.Length :: buf[i] == 0
            else buf[..] == old(buf[..])
  {
    if buf.Length == 0 || buf.Length >= 8 {
      return;
    }
    var i := 0;
    while i < buf.Length
      invariant 0 <= i <= buf.Length
      invariant forall m | 0 <= m < i :: buf[m] == 0
      invariant buf[..] == old(buf[..])
    {
      if buf[i] != 0 {
        return;
      }
      i := i + 1;
    }
    buf[0] := 1;
  }

  ghost predicate AllZero(s: seq<byte>) {
    forall i | 0 <= i < |s| :: s[i] == 0
  }

  ghost function NonZero(s: seq<byte>): seq<byte> {
    if 0 < |s| < 8 && AllZero(s) then s[0 := 1] else s
  }

  /** The value written without validation is never all zero, whatever its length. */
  lemma DefaultValueNonZero(pk: int64, ck: int64, n: nat)
    requires n >= 1
    ensures !AllZero(NonZero(Stream(Seed(pk, ck), n)))
  {
    var s := Stream(Seed(pk, ck), n);
    if n >= 8 {
      PayloadNonZero(pk, ck, n);
      var i :| 0 <= i < 8 && s[i] != 0;
      assert NonZero(s)[i] != 0;
    } else if AllZero(s) {
      assert NonZero(s)[0] == 1;
    }
  }

  /** A shorter payload is a prefix of a longer one. */
  lemma StreamPrefix(w: Word, m: nat, n: nat)
    requires m <= n
    ensures Stream(w, m) == Stream(w, n)[..m]
  {}
}
