/**
 Fixed-width words as sequences of bits, lowest bit first, with their little-endian bytes and the conversions
 between Go's `int64` and `uint64`.
 */
module Words {
  import opened GoInts

  type byte = x: int | 0 <= x < 256

  function Fill(n: nat, b: bool): (bits: seq<bool>)
    ensures |bits| == n
  {
    seq(n, i requires 0 <= i < n => b)
  }

  /** A `uint64`. */
  type Word = w: seq<bool> | |w| == 64 witness Fill(64, false)

  const ZERO: Word := Fill(64, false)

  function Pow2(k: nat): (p: nat)
    ensures p >= 1
  {
    if k == 0 then 1 else 2 * Pow2(k - 1)
  }

  /** The `k` lowest bits of `n` in two's complement. */
  function ToBits(n: int, k: nat): (bits: seq<bool>)
    ensures |bits| == k
    decreases k, n
  {
    if k == 0 then [] else [n % 2 == 1] + ToBits(n / 2, k - 1)
  }

  /** The number whose binary digits are `bits`. */
  function FromBits(bits: seq<bool>): nat {
    if bits == [] then 0 else (if bits[0] then 1 else 0) + 2 * FromBits(bits[1..])
  }

  /** The conversion `uint64(n)`. */
  function Uint64(n: int): Word { ToBits(n, 64) }

  /** The conversion `int64(w)`. */
  function Int64(w: Word): int {
    var u := FromBits(w);
    if u < TWO_63 then u else u - TWO_64
  }

  function Xor(u: Word, v: Word): Word {
    seq(64, i requires 0 <= i < 64 => u[i] != v[i])
  }

  // ---- bytes ----

  /** The bits of a string of bytes, each byte lowest bit first. */
  function Bits(data: seq<byte>): (bits: seq<bool>)
    ensures |bits| == 8 * |data|
  {
    if data == [] then [] else ToBits(data[0], 8) + Bits(data[1..])
  }

  /** The bytes made of consecutive groups of eight bits. */
  function Bytes(bits: seq<bool>): (data: seq<byte>)
    requires |bits| % 8 == 0
    ensures 8 * |data| == |bits|
  {
    if bits == [] then []
    else
      FromBitsBound(bits[..8]);
      assert Pow2(8) == 256;
      [FromBits(bits[..8])] + Bytes(bits[8..])
  }

  /** The eight bytes `binary.LittleEndian.PutUint64` stores. */
  function Put64(w: Word): (s: seq<byte>)
    ensures |s| == 8
  {
    Bytes(w)
  }

  /** The word `binary.LittleEndian.Uint64` reads. */
  function Get64(s: seq<byte>): Word
    requires |s| == 8
  {
    Bits(s)
  }

  // ---- binary digits ----

  lemma {:induction false} FromBitsBound(bits: seq<bool>)
    ensures FromBits(bits) < Pow2(|bits|)
  {
    if bits != [] {
      FromBitsBound(bits[1..]);
    }
  }

  lemma {:induction false} ToBitsFromBits(bits: seq<bool>)
    ensures ToBits(FromBits(bits), |bits|) == bits
  {
    if bits != [] {
      ToBitsFromBits(bits[1..]);
      var n := FromBits(bits);
      assert n / 2 == FromBits(bits[1..]);
      assert bits == [bits[0]] + bits[1..];
    }
  }

  lemma {:induction false} ZeroDigits(k: nat)
    ensures ToBits(0, k) == Fill(k, false)
  {
    if k != 0 {
      ZeroDigits(k - 1);
    }
  }

  /** What is left of `n` above its `k` lowest bits. */
  ghost function Above(n: int, k: nat): int
    decreases k, n
  {
    if k == 0 then n else Above(n / 2, k - 1)
  }

  lemma {:induction false} FromBitsToBits(n: int, k: nat)
    ensures n == FromBits(ToBits(n, k)) + Pow2(k) * Above(n, k)
    decreases k
  {
    if k != 0 {
      FromBitsToBits(n / 2, k - 1);
      assert ToBits(n, k)[1..] == ToBits(n / 2, k - 1);
      DoubleProduct(Pow2(k - 1), Above(n / 2, k - 1));
    }
  }

  lemma {:induction false} ToBitsSplit(n: int, i: nat, j: nat)
    ensures ToBits(n, i + j) == ToBits(n, i) + ToBits(Above(n, i), j)
    decreases i, n
  {
    if i != 0 {
      ToBitsSplit(n / 2, i - 1, j);
    } else {
      assert ToBits(n, 0) == [];
    }
  }

  lemma DoubleProduct(p: int, a: int)
    ensures (2 * p) * a == 2 * (p * a)
  {}

  lemma Pow64()
    ensures Pow2(64) == TWO_64
  {
    Pow2Plus8(0); Pow2Plus8(8); Pow2Plus8(16); Pow2Plus8(24);
    Pow2Plus8(32); Pow2Plus8(40); Pow2Plus8(48); Pow2Plus8(56);
  }

  lemma Pow2Plus8(k: nat)
    ensures Pow2(k + 8) == 256 * Pow2(k)
  {
    assert Pow2(k + 4) == 16 * Pow2(k) by {
      assert Pow2(k + 2) == 4 * Pow2(k);
    }
    assert Pow2(k + 6) == 4 * Pow2(k + 4);
  }

  /** Two integers convert to one word exactly when they differ by a multiple of 2^64. */
  lemma Uint64Congruent(n: int, m: int)
    ensures Uint64(n) == Uint64(m) <==> (n - m) % TWO_64 == 0
  {
    var f, g := FromBits(Uint64(n)), FromBits(Uint64(m));
    Pow64();
    FromBitsToBits(n, 64);
    FromBitsToBits(m, 64);
    FromBitsBound(Uint64(n));
    FromBitsBound(Uint64(m));
    Residues(n, m, f, g, Above(n, 64), Above(m, 64));
    ToBitsFromBits(Uint64(n));
    ToBitsFromBits(Uint64(m));
  }

  lemma Residues(n: int, m: int, f: nat, g: nat, a: int, b: int)
    requires n == f + TWO_64 * a && m == g + TWO_64 * b
    requires f < TWO_64 && g < TWO_64
    ensures f == g <==> (n - m) % TWO_64 == 0
  {}

  /** `int64` and `uint64` conversions undo each other. */
  lemma Int64Uint64(n: int64, w: Word)
    ensures Int64(w) == n <==> w == Uint64(n)
  {
    var u := FromBits(w);
    WordBound(w);
    ToBitsFromBits(w);
    Uint64Congruent(u, n);
    SignedResidue(u, n);
  }

  lemma WordBound(w: Word)
    ensures FromBits(w) < TWO_64
  {
    Pow64();
    FromBitsBound(w);
  }

  lemma SignedResidue(u: nat, n: int64)
    requires u < TWO_64
    ensures (if u < TWO_63 then u else u - TWO_64) == n <==> (u - n) % TWO_64 == 0
  {}

  lemma Uint64Injective(n: int64, m: int64)
    requires Uint64(n) == Uint64(m)
    ensures n == m
  {
    Uint64Congruent(n, m);
  }

  // ---- bytes and bits ----

  lemma ToBitsByte(b: byte)
    ensures FromBits(ToBits(b, 8)) == b
  {
    FromBitsToBits(b, 8);
    FromBitsBound(ToBits(b, 8));
    Pow2Plus8(0);
    OneResidue(b, FromBits(ToBits(b, 8)), Above(b, 8));
  }

  lemma OneResidue(b: byte, f: nat, a: int)
    requires b == f + 256 * a && f < 256
    ensures f == b
  {}

  lemma {:induction false} BytesBits(data: seq<byte>)
    ensures Bytes(Bits(data)) == data
  {
    if data != [] {
      BytesBits(data[1..]);
      ToBitsByte(data[0]);
      var bits := Bits(data);
      assert bits[..8] == ToBits(data[0], 8) && bits[8..] == Bits(data[1..]);
    }
  }

  lemma {:induction false} BitsBytes(bits: seq<bool>)
    requires |bits| % 8 == 0
    ensures Bits(Bytes(bits)) == bits
  {
    if bits != [] {
      BitsBytes(bits[8..]);
      ToBitsFromBits(bits[..8]);
      assert Bytes(bits)[1..] == Bytes(bits[8..]);
      assert bits == bits[..8] + bits[8..];
    }
  }

  lemma BitsInjective(s: seq<byte>, t: seq<byte>)
    requires Bits(s) == Bits(t)
    ensures s == t
  {
    BytesBits(s);
    BytesBits(t);
  }

  lemma Put64Injective(u: Word, v: Word)
    requires Put64(u) == Put64(v)
    ensures u == v
  {
    BitsBytes(u);
    BitsBytes(v);
  }

  lemma {:induction false} BitsAppend(s: seq<byte>, t: seq<byte>)
    ensures Bits(s + t) == Bits(s) + Bits(t)
  {
    if s == [] {
      assert s + t == t;
    } else {
      BitsAppend(s[1..], t);
      assert (s + t)[1..] == s[1..] + t;
      ConcatAssociative(ToBits(s[0], 8), Bits(s[1..]), Bits(t));
    }
  }

  lemma ConcatAssociative(a: seq<bool>, b: seq<bool>, c: seq<bool>)
    ensures a + (b + c) == (a + b) + c
  {}

  lemma {:induction false} ByteAt(bits: seq<bool>, m: nat)
    requires |bits| % 8 == 0 && 8 * m < |bits|
    ensures 8 * m + 8 <= |bits|
    ensures Bytes(bits)[m] == FromBits(bits[8 * m..8 * m + 8])
  {
    if m != 0 {
      ByteAt(bits[8..], m - 1);
      assert bits[8..][8 * (m - 1)..8 * (m - 1) + 8] == bits[8 * m..8 * m + 8];
    }
  }

  /** The lowest byte of a number and the bytes of the rest. */
  lemma NextByte(n: int, b: byte, rest: int, k: nat)
    requires n == b + 256 * rest
    ensures Bytes(ToBits(n, 8 * (k + 1))) == [b] + Bytes(ToBits(rest, 8 * k))
  {
    var low := ToBits(n, 8);
    ToBitsSplit(n, 8, 8 * k);
    FromBitsToBits(n, 8);
    FromBitsBound(low);
    Pow2Plus8(0);
    SameByte(b, rest, FromBits(low), Above(n, 8));
    assert ToBits(n, 8 * (k + 1))[..8] == low && ToBits(n, 8 * (k + 1))[8..] == ToBits(rest, 8 * k);
  }

  lemma SameByte(b: byte, rest: int, f: nat, a: int)
    requires b + 256 * rest == f + 256 * a && f < 256
    ensures f == b && a == rest
  {}

  // ---- values by hexadecimal digits ----

  function Nibble(p: seq<bool>, k: nat): nat
    requires k + 4 <= |p|
  {
    (if p[k] then 1 else 0) + (if p[k + 1] then 2 else 0) + (if p[k + 2] then 4 else 0) + (if p[k + 3] then 8 else 0)
  }

  lemma FromSuffix(p: seq<bool>, k: nat)
    requires k < |p|
    ensures FromBits(p[k..]) == (if p[k] then 1 else 0) + 2 * FromBits(p[k + 1..])
  {
    assert p[k..][1..] == p[k + 1..];
  }

  lemma FromSuffix4(p: seq<bool>, k: nat)
    requires k + 4 <= |p|
    ensures FromBits(p[k..]) == Nibble(p, k) + 16 * FromBits(p[k + 4..])
  {
    FromSuffix(p, k);
    FromSuffix(p, k + 1);
    FromSuffix(p, k + 2);
    FromSuffix(p, k + 3);
  }

  function Octet(p: seq<bool>, k: nat): nat
    requires k + 8 <= |p|
  {
    Nibble(p, k) + 16 * Nibble(p, k + 4)
  }

  lemma FromSuffix8(p: seq<bool>, k: nat)
    requires k + 8 <= |p|
    ensures FromBits(p[k..]) == Octet(p, k) + 256 * FromBits(p[k + 8..])
  {
    FromSuffix4(p, k);
    FromSuffix4(p, k + 4);
  }

  /** A byte of a word by its eight bits. */
  lemma OctetOf(w: Word, m: nat)
    requires m < 8
    ensures Put64(w)[m] == Octet(w, 8 * m)
  {
    ByteAt(w, m);
    EightBits(w[8 * m..8 * m + 8]);
    SliceOctet(w, w[8 * m..8 * m + 8], 8 * m);
  }

  lemma EightBits(s: seq<bool>)
    requires |s| == 8
    ensures FromBits(s) == Octet(s, 0)
  {
    FromSuffix8(s, 0);
    assert s[0..] == s && s[8..] == [];
  }

  lemma SliceOctet(w: Word, s: seq<bool>, k: nat)
    requires k + 8 <= 64 && s == w[k..k + 8]
    ensures Octet(s, 0) == Octet(w, k)
  {
    SliceNibble(w, s, k, 0);
    SliceNibble(w, s, k, 4);
  }

  lemma SliceNibble(w: Word, s: seq<bool>, k: nat, i: nat)
    requires k + 8 <= 64 && s == w[k..k + 8] && i <= 4
    ensures Nibble(s, i) == Nibble(w, k + i)
  {
    assert s[i] == w[k + i] && s[i + 1] == w[k + i + 1] && s[i + 2] == w[k + i + 2] && s[i + 3] == w[k + i + 3];
  }
}
