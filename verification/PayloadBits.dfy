/** The payload bit by bit and in numbers: which xorshift64 generator it comes from, and from which seed. */
module PayloadBits {
  import opened GoInts
  import opened Words
  import opened Payload

  // ---- which generator it is ----

  /** What a shift of `w` to the left by `k` places moves to bit `i`; `k` may be negative. */
  predicate Moved(w: Word, k: int, i: int) { 0 <= i - k < 64 && w[i - k] }

  function Plus(a: bool, b: bool): bool { a != b }

  /**
   Every bit of the next state is a sum, modulo two, of up to eight bits of the state: those moved by 0 and 13; if
   bit `i + 7` exists, those by -7 and 6; and if bit `i - 17` exists, those by 17, 30, 10 and 23.
   */
  lemma NextBit(w: Word, i: nat)
    requires i < 64
    ensures Next(w)[i]
            == Plus(Plus(w[i], Moved(w, 13, i)),
                    Plus(i + 7 < 64 && Plus(Moved(w, -7, i), Moved(w, 6, i)),
                         i >= 17 && Plus(Plus(Moved(w, 17, i), Moved(w, 30, i)),
                                         Plus(Moved(w, 10, i), Moved(w, 23, i)))))
  {}

  lemma XorLeftLinear(u: Word, v: Word, k: nat)
    ensures XorLeft(Xor(u, v), k) == Xor(XorLeft(u, k), XorLeft(v, k))
  {}

  lemma XorRightLinear(u: Word, v: Word, k: nat)
    ensures XorRight(Xor(u, v), k) == Xor(XorRight(u, k), XorRight(v, k))
  {}

  /** The step is linear. */
  lemma NextLinear(u: Word, v: Word)
    ensures Next(Xor(u, v)) == Xor(Next(u), Next(v))
  {
    XorLeftLinear(u, v, 13);
    var u1, v1 := XorLeft(u, 13), XorLeft(v, 13);
    XorRightLinear(u1, v1, 7);
    XorLeftLinear(XorRight(u1, 7), XorRight(v1, 7), 17);
  }

  /** The word with one bit set. */
  function Bit(j: nat): Word
    requires j < 64
  {
    seq(64, i requires 0 <= i < 64 => i == j)
  }

  /** The bits of the state after one with a single bit set. */
  lemma NextOfBit(j: nat, i: nat)
    requires j < 64 && i < 64
    ensures Next(Bit(j))[i]
            <==> i == j || i == j + 13 || ((i == j - 7 || i == j + 6) && i < 57)
                 || (17 <= i && (i == j + 17 || i == j + 30 || i == j + 10 || i == j + 23))
  {
    NextBit(Bit(j), i);
  }

  lemma {:induction false} NoBits(bits: seq<bool>)
    requires forall i | 0 <= i < |bits| :: !bits[i]
    ensures FromBits(bits) == 0
  {
    if bits != [] {
      NoBits(bits[1..]);
    }
  }

  /** The word with six given bits set. */
  ghost predicate SixBits(w: Word) {
    forall i | 0 <= i < 64 :: w[i] <==> i == 0 || i == 6 || i == 13 || i == 17 || i == 23 || i == 30
  }

  lemma SixBitsOctets(w: Word)
    requires SixBits(w)
    ensures Octet(w, 0) == 0x41 && Octet(w, 8) == 0x20 && Octet(w, 16) == 0x82 && Octet(w, 24) == 0x40
  {}

  lemma SixBitsValue(w: Word)
    requires SixBits(w)
    ensures FromBits(w) == 1_082_269_761
  {
    SixBitsOctets(w);
    FromSuffix8(w, 0);
    FromSuffix8(w, 8);
    FromSuffix8(w, 16);
    FromSuffix8(w, 24);
    NoBits(w[32..]);
    assert w[0..] == w;
  }

  lemma OneIsBit()
    ensures Uint64(1) == Bit(0)
  {
    ZeroDigits(63);
  }

  lemma SixBitsAfterOne()
    ensures SixBits(Next(Uint64(1)))
  {
    OneIsBit();
    forall i | 0 <= i < 64
      ensures Next(Bit(0))[i] <==> i == 0 || i == 6 || i == 13 || i == 17 || i == 23 || i == 30
    {
      NextOfBit(0, i);
    }
  }

  /** The state after 1 is 1082269761. */
  lemma NextOfOne()
    ensures FromBits(Next(Uint64(1))) == 1_082_269_761
  {
    SixBitsAfterOne();
    SixBitsValue(Next(Uint64(1)));
  }

  // ---- the seed ----

  /** Every bit of the seed: where the products of the keys differ. */
  lemma SeedBits(pk: int64, ck: int64, i: nat)
    requires i < 64
    ensures (forall j | 0 <= j < 64 ::
               Uint64(pk * 6364136223846793005)[j] == Uint64(ck * 1442695040888963407)[j]) ==>
              Seed(pk, ck) == Uint64(1)
    ensures (exists j | 0 <= j < 64 ::
               Uint64(pk * 6364136223846793005)[j] != Uint64(ck * 1442695040888963407)[j]) ==>
              Seed(pk, ck)[i] == (Uint64(pk * 6364136223846793005)[i] != Uint64(ck * 1442695040888963407)[i])
  {
    var u, v := Uint64(pk * PK_FACTOR), Uint64(ck * CK_FACTOR);
    if j :| 0 <= j < 64 && u[j] != v[j] {
      assert Mix(pk, ck)[j] && !ZERO[j];
    } else {
      assert Mix(pk, ck) == ZERO;
    }
  }

  lemma SeedOfZero()
    ensures Seed(0, 0) == Uint64(1)
  {
    ZeroDigits(64);
    XorZeroWord(ZERO);
  }

  lemma SixBitsBytes(w: Word)
    requires SixBits(w)
    ensures Put64(w)[..4] == [0x41, 0x20, 0x82, 0x40]
  {
    SixBitsOctets(w);
    OctetOf(w, 0);
    OctetOf(w, 1);
    OctetOf(w, 2);
    OctetOf(w, 3);
  }

  lemma FirstBytes(seed: Word, n: nat)
    requires n >= 8 && SixBits(Next(seed))
    ensures Stream(seed, n)[..4] == [0x41, 0x20, 0x82, 0x40]
  {
    FirstWord(seed, n);
    SixBitsBytes(Next(seed));
    assert Iterate(seed, 1) == Next(seed);
    assert Stream(seed, n)[..4] == Stream(seed, n)[..8][..4];
  }

  /** The first payload: of row (0, 0), whose keys mix to zero. */
  lemma FirstPayload(n: nat)
    requires n >= 8
    ensures Stream(Seed(0, 0), n)[..4] == [0x41, 0x20, 0x82, 0x40]
  {
    SeedOfZero();
    SixBitsAfterOne();
    FirstBytes(Seed(0, 0), n);
  }

  /** Word by word: each whole word of a payload is the state one step after that of the word before. */
  lemma PayloadWords(seed: Word, k: nat, n: nat)
    requires 8 * k + 8 <= n
    ensures k == 0 ==> Get64(Stream(seed, n)[0..8]) == Next(seed)
    ensures k > 0 ==> Get64(Stream(seed, n)[8 * k..8 * k + 8]) == Next(Get64(Stream(seed, n)[8 * k - 8..8 * k]))
  {
    WordOfPayload(seed, k, n);
    IterateNext(seed, k);
    if k > 0 {
      WordOfPayload(seed, k - 1, n);
    }
  }

  lemma WordOfPayload(seed: Word, k: nat, n: nat)
    requires 8 * k + 8 <= n
    ensures Get64(Stream(seed, n)[8 * k..8 * k + 8]) == Iterate(seed, k + 1)
  {
    var w := Iterate(seed, k + 1);
    forall m | 0 <= m < 8
      ensures StreamByte(seed, 8 * k + m) == Put64(w)[m]
    {
      StreamByteOf(seed, k, m);
    }
    assert Stream(seed, n)[8 * k..8 * k + 8] == Put64(w);
    BitsBytes(w);
  }
}
