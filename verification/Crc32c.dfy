/**
 The CRC32C (Castagnoli) checksum of section 12.1 of RFC 3720, one message bit at a time, and the error classes it
 detects: every burst of at most 32 bits, and every odd number of flipped bits.

 Registers and messages are sequences of bits, lowest bit first, which is the order CRC32C reads each byte in.
 */
module Crc32c {
  import opened Words

  /** A 32-bit register; bit `i` is the bit of weight `2^i`. */
  type Register = r: seq<bool> | |r| == 32 witness Fill(32, false)

  /** The bits set in 0x82F63B78, the Castagnoli polynomial 0x1EDC6F41 with its 32 bits reversed. */
  predicate Tap(i: nat) {
    i == 3 || i == 4 || i == 5 || i == 6 || i == 8 || i == 9 || i == 11 || i == 12 || i == 13
    || i == 17 || i == 18 || i == 20 || i == 21 || i == 22 || i == 23 || i == 25 || i == 31
  }

  const POLY: Register := seq(32, i requires 0 <= i < 32 => Tap(i))

  const EMPTY: Register := Fill(32, false)

  /** 0xFFFFFFFF, the value the register starts from. */
  const INIT: Register := Fill(32, true)

  /** One step of the shift register: shift right and, if a one fell out, add the polynomial. */
  function Shift(r: Register): Register {
    seq(32, i requires 0 <= i < 32 => (i < 31 && r[i + 1]) != (r[0] && Tap(i)))
  }

  function FeedBit(r: Register, b: bool): Register { Shift(r[0 := r[0] != b]) }

  lemma FeedBitAt(r: Register, b: bool, i: nat)
    requires i < 32
    ensures FeedBit(r, b)[i] == ((i < 31 && r[i + 1]) != ((r[0] != b) && Tap(i)))
  {}

  function FeedBits(r: Register, bits: seq<bool>): Register
    decreases |bits|
  {
    if bits == [] then r else FeedBits(FeedBit(r, bits[0]), bits[1..])
  }

  function Complement(r: Register): Register {
    seq(32, i requires 0 <= i < 32 => !r[i])
  }

  /** `crc32.Checksum(data, crc32.MakeTable(crc32.Castagnoli))`. */
  function Checksum(data: seq<byte>): Register { Complement(FeedBits(INIT, Bits(data))) }

  /** The four bytes `binary.LittleEndian.PutUint32` stores for a register. */
  function Put32(r: Register): (s: seq<byte>)
    ensures |s| == 4
  {
    Bytes(r)
  }

  // ---- windows of at most 32 bits ----

  lemma {:induction false} FeedAppend(r: Register, u: seq<bool>, v: seq<bool>)
    ensures FeedBits(r, u + v) == FeedBits(FeedBits(r, u), v)
    decreases |u|
  {
    if u == [] {
      assert u + v == v;
    } else {
      assert (u + v)[1..] == u[1..] + v;
      FeedAppend(FeedBit(r, u[0]), u[1..], v);
    }
  }

  /** The registers differ exactly where the windows do. */
  ghost predicate SameDifference(r: Register, r': Register, m: seq<bool>, m': seq<bool>)
    requires |m| == |m'|
  {
    forall i | 0 <= i < 32 :: (r[i] != r'[i]) == (i < |m| && m[i] != m'[i])
  }

  /** Two windows lead two registers to the same register exactly when they differ where the registers differ. */
  lemma {:induction false} Window(r: Register, m: seq<bool>, r': Register, m': seq<bool>)
    requires |m| == |m'| <= 32
    ensures FeedBits(r, m) == FeedBits(r', m') <==> SameDifference(r, r', m, m')
    decreases |m|
  {
    if m == [] {
      if SameDifference(r, r', m, m') {
        assert forall i | 0 <= i < 32 :: r[i] == r'[i];
        assert r == r';
      }
    } else {
      Window(FeedBit(r, m[0]), m[1..], FeedBit(r', m'[0]), m'[1..]);
      if SameDifference(r, r', m, m') {
        WindowForward(r, m, r', m');
      }
      if FeedBits(r, m) == FeedBits(r', m') {
        WindowBackward(r, m, r', m');
      }
    }
  }

  /** After a step the top bits are the bits that fell out, so nothing new can appear above the window. */
  lemma WindowBackward(r: Register, m: seq<bool>, r': Register, m': seq<bool>)
    requires 1 <= |m| == |m'| <= 32
    requires SameDifference(FeedBit(r, m[0]), FeedBit(r', m'[0]), m[1..], m'[1..])
    ensures SameDifference(r, r', m, m')
  {
    var s, s' := FeedBit(r, m[0]), FeedBit(r', m'[0]);
    assert s[31] == s'[31];
    FeedBitAt(r, m[0], 31);
    FeedBitAt(r', m'[0], 31);
    forall i | 0 <= i < 32
      ensures (r[i] != r'[i]) == (i < |m| && m[i] != m'[i])
    {
      if i > 0 {
        FeedBitAt(r, m[0], i - 1);
        FeedBitAt(r', m'[0], i - 1);
        assert (s[i - 1] != s'[i - 1]) == (i - 1 < |m| - 1 && m[1..][i - 1] != m'[1..][i - 1]);
      }
    }
  }

  lemma WindowForward(r: Register, m: seq<bool>, r': Register, m': seq<bool>)
    requires 1 <= |m| == |m'| <= 32
    requires SameDifference(r, r', m, m')
    ensures SameDifference(FeedBit(r, m[0]), FeedBit(r', m'[0]), m[1..], m'[1..])
  {
    var s, s' := FeedBit(r, m[0]), FeedBit(r', m'[0]);
    var t, t' := m[1..], m'[1..];
    assert (r[0] != r'[0]) == (m[0] != m'[0]);
    forall i | 0 <= i < 32
      ensures (s[i] != s'[i]) == (i < |t| && t[i] != t'[i])
    {
      FeedBitAt(r, m[0], i);
      FeedBitAt(r', m'[0], i);
      if i < 31 {
        assert (r[i + 1] != r'[i + 1]) == (i + 1 < |m| && m[i + 1] != m'[i + 1]);
      }
    }
  }

  lemma {:induction false} FeedInjective(r: Register, r': Register, bits: seq<bool>)
    requires FeedBits(r, bits) == FeedBits(r', bits)
    ensures r == r'
    decreases |bits|
  {
    if bits != [] {
      FeedInjective(FeedBit(r, bits[0]), FeedBit(r', bits[0]), bits[1..]);
      Window(r, bits[..1], r', bits[..1]);
      assert bits[..1][1..] == [];
      assert forall i | 0 <= i < 32 :: r[i] == r'[i];
    }
  }

  /** Two messages that differ, but only inside one window of 32 bits, never leave the register the same. */
  lemma BurstChangesRegister(r: Register, u: seq<bool>, v: seq<bool>, i: nat, j: nat)
    requires |u| == |v| && u != v
    requires i <= j <= |u| && j - i <= 32
    requires u[..i] == v[..i] && u[j..] == v[j..]
    ensures FeedBits(r, u) != FeedBits(r, v)
  {
    FeedThreeParts(r, u, i, j);
    FeedThreeParts(r, v, i, j);
    MiddlesDiffer(u, v, i, j);
    if FeedBits(r, u) == FeedBits(r, v) {
      var s := FeedBits(r, u[..i]);
      FeedInjective(FeedBits(s, u[i..j]), FeedBits(s, v[i..j]), u[j..]);
      SameWindow(s, u[i..j], v[i..j]);
    }
  }

  lemma MiddlesDiffer(u: seq<bool>, v: seq<bool>, i: nat, j: nat)
    requires |u| == |v| && u != v
    requires i <= j <= |u|
    requires u[..i] == v[..i] && u[j..] == v[j..]
    ensures u[i..j] != v[i..j]
  {
    assert u == u[..i] + u[i..j] + u[j..] && v == v[..i] + v[i..j] + v[j..];
  }

  lemma FeedThreeParts(r: Register, u: seq<bool>, i: nat, j: nat)
    requires i <= j <= |u|
    ensures FeedBits(r, u) == FeedBits(FeedBits(FeedBits(r, u[..i]), u[i..j]), u[j..])
  {
    assert u == u[..i] + (u[i..j] + u[j..]);
    FeedAppend(r, u[..i], u[i..j] + u[j..]);
    FeedAppend(FeedBits(r, u[..i]), u[i..j], u[j..]);
  }

  lemma SameWindow(s: Register, m: seq<bool>, m': seq<bool>)
    requires |m| == |m'| <= 32 && FeedBits(s, m) == FeedBits(s, m')
    ensures m == m'
  {
    Window(s, m, s, m');
    forall k | 0 <= k < |m|
      ensures m[k] == m'[k]
    {
      assert (s[k] != s[k]) == (k < |m| && m[k] != m'[k]);
    }
  }

  // ---- two checksums ----

  lemma {:induction false} ZerosKeepZero(k: nat)
    ensures FeedBits(EMPTY, Fill(k, false)) == EMPTY
  {
    if k != 0 {
      assert FeedBit(EMPTY, false) == EMPTY;
      assert Fill(k, false)[1..] == Fill(k - 1, false);
      ZerosKeepZero(k - 1);
    }
  }

  /** The checksum of no bytes is zero: what the register starts from is what complements it in the end. */
  lemma ChecksumOfNothing()
    ensures forall i | 0 <= i < 32 :: !Checksum([])[i]
  {
    assert FeedBits(INIT, []) == INIT;
  }

  lemma OnesToZero()
    ensures FeedBits(INIT, INIT) == EMPTY
  {
    Window(INIT, INIT, EMPTY, EMPTY);
    assert SameDifference(INIT, EMPTY, INIT, EMPTY);
    ZerosKeepZero(32);
  }

  lemma EightOnes(b: byte)
    requires b == 255
    ensures ToBits(b, 8) == Fill(8, true)
  {
    assert ToBits(255, 4) == Fill(4, true) && ToBits(15, 4) == Fill(4, true);
    ToBitsSplit(255, 4, 4);
    assert Above(255, 4) == 15;
  }

  lemma {:induction false} OnesBits(data: seq<byte>)
    requires forall i | 0 <= i < |data| :: data[i] == 255
    ensures Bits(data) == Fill(8 * |data|, true)
  {
    if data != [] {
      EightOnes(data[0]);
      OnesBits(data[1..]);
    }
  }

  /** The checksum of four bytes of ones is four bytes of ones: they take the register to zero. */
  lemma ChecksumOfOnes(data: seq<byte>)
    requires |data| == 4 && forall i | 0 <= i < 4 :: data[i] == 255
    ensures forall i | 0 <= i < 32 :: Checksum(data)[i]
  {
    OnesBits(data);
    OnesToZero();
  }

  // ---- the residue of a protected message ----

  /** The register every message reaches when its own checksum is appended. */
  const RESIDUE: Register := FeedBits(EMPTY, INIT)

  lemma ResidueWindow(s: Register, c: Register)
    ensures FeedBits(s, c) == RESIDUE <==> c == Complement(s)
  {
    Window(s, c, EMPTY, INIT);
    if c == Complement(s) {
      assert SameDifference(s, EMPTY, c, INIT);
    }
    if SameDifference(s, EMPTY, c, INIT) {
      OppositeBits(s, c);
    }
  }

  lemma OppositeBits(s: Register, c: Register)
    requires SameDifference(s, EMPTY, c, INIT)
    ensures c == Complement(s)
  {
    forall i | 0 <= i < 32
      ensures c[i] == Complement(s)[i]
    {
      assert (s[i] != EMPTY[i]) == (i < |c| && c[i] != INIT[i]);
    }
  }

  /** The bits `c` after `data` bring the register to the residue exactly when they are its checksum. */
  lemma ResidueIffChecksum(data: seq<byte>, c: Register)
    ensures FeedBits(INIT, Bits(data) + c) == RESIDUE <==> c == Checksum(data)
  {
    FeedAppend(INIT, Bits(data), c);
    ResidueWindow(FeedBits(INIT, Bits(data)), c);
  }

  // ---- parity ----

  /** Whether an odd number of the bits are set. */
  function Odd(bits: seq<bool>): bool {
    if bits == [] then false else bits[0] != Odd(bits[1..])
  }

  /** How many positions two equally long bit sequences differ in. */
  function Flips(u: seq<bool>, v: seq<bool>): nat
    requires |u| == |v|
  {
    if u == [] then 0 else (if u[0] != v[0] then 1 else 0) + Flips(u[1..], v[1..])
  }

  lemma {:induction false} OddFlips(u: seq<bool>, v: seq<bool>)
    requires |u| == |v|
    ensures (Flips(u, v) % 2 == 1) == (Odd(u) != Odd(v))
  {
    if u != [] {
      OddFlips(u[1..], v[1..]);
    }
  }

  lemma {:induction false} OddXor(u: seq<bool>, v: seq<bool>, w: seq<bool>)
    requires |u| == |v| == |w|
    requires forall i | 0 <= i < |u| :: w[i] == (u[i] != v[i])
    ensures Odd(w) == (Odd(u) != Odd(v))
  {
    if u != [] {
      OddXor(u[1..], v[1..], w[1..]);
    }
  }

  lemma {:induction false} OddSnoc(u: seq<bool>, b: bool)
    ensures Odd(u + [b]) == (Odd(u) != b)
  {
    if u == [] {
      assert u + [b] == [b] && [b][1..] == [];
    } else {
      OddSnoc(u[1..], b);
      assert (u + [b])[1..] == u[1..] + [b];
    }
  }

  lemma OddSuffix(p: seq<bool>, k: nat)
    requires k < |p|
    ensures Odd(p[k..]) == (p[k] != Odd(p[k + 1..]))
  {
    assert p[k..][1..] == p[k + 1..];
  }

  function OddRow(p: seq<bool>, k: nat): bool
    requires k + 8 <= |p|
  {
    p[k] != (p[k + 1] != (p[k + 2] != (p[k + 3] != (p[k + 4] != (p[k + 5] != (p[k + 6] != p[k + 7]))))))
  }

  lemma OddSuffix8(p: seq<bool>, k: nat)
    requires k + 8 <= |p|
    ensures Odd(p[k..]) == (OddRow(p, k) != Odd(p[k + 8..]))
  {
    OddSuffix(p, k); OddSuffix(p, k + 1); OddSuffix(p, k + 2); OddSuffix(p, k + 3);
    OddSuffix(p, k + 4); OddSuffix(p, k + 5); OddSuffix(p, k + 6); OddSuffix(p, k + 7);
  }

  /** The polynomial has odd weight, so a step keeps the parity of the register. */
  lemma ShiftKeepsParity(r: Register)
    ensures Odd(Shift(r)) == Odd(r)
  {
    var moved := r[1..] + [false];
    OddSnoc(r[1..], false);
    if r[0] {
      PolyOdd();
      OddXor(moved, POLY, Shift(r));
    } else {
      assert Shift(r) == moved;
    }
  }

  lemma OddRows(p: seq<bool>)
    requires |p| == 32
    ensures Odd(p) == (OddRow(p, 0) != (OddRow(p, 8) != (OddRow(p, 16) != OddRow(p, 24))))
  {
    OddSuffix8(p, 0);
    OddSuffix8(p, 8);
    OddSuffix8(p, 16);
    OddSuffix8(p, 24);
    assert p[0..] == p && p[32..] == [];
  }

  predicate TapRow(k: nat) {
    Tap(k) != (Tap(k + 1) != (Tap(k + 2) != (Tap(k + 3) != (Tap(k + 4) != (Tap(k + 5) != (Tap(k + 6) != Tap(k + 7)))))))
  }

  lemma PolyRow(k: nat)
    requires k <= 24
    ensures OddRow(POLY, k) == TapRow(k)
  {}

  /** The weights of the polynomial's four bytes 0x78, 0x3B, 0xF6 and 0x82 are even, odd, even and even. */
  lemma PolyOdd()
    ensures Odd(POLY)
  {
    OddRows(POLY);
    PolyRow(0);
    PolyRow(8);
    PolyRow(16);
    PolyRow(24);
    assert !TapRow(0) && TapRow(8) && !TapRow(16) && !TapRow(24);
  }

  lemma OddUpdate(r: seq<bool>, b: bool)
    requires r != []
    ensures Odd(r[0 := r[0] != b]) == (Odd(r) != b)
  {
    assert r[0 := r[0] != b][1..] == r[1..];
  }

  lemma {:induction false} FeedParity(r: Register, bits: seq<bool>)
    ensures Odd(FeedBits(r, bits)) == (Odd(r) != Odd(bits))
    decreases |bits|
  {
    if bits != [] {
      OddUpdate(r, bits[0]);
      ShiftKeepsParity(r[0 := r[0] != bits[0]]);
      FeedParity(FeedBit(r, bits[0]), bits[1..]);
    }
  }

  /** Two messages that differ in an odd number of bits never leave the register the same. */
  lemma OddFlipsChangeRegister(r: Register, u: seq<bool>, v: seq<bool>)
    requires |u| == |v| && Flips(u, v) % 2 == 1
    ensures FeedBits(r, u) != FeedBits(r, v)
  {
    OddFlips(u, v);
    FeedParity(r, u);
    FeedParity(r, v);
  }

  // ---- the polynomial as a number ----

  /** The value of 32 bits from their four bytes. */
  lemma FromOctets(p: seq<bool>)
    requires |p| == 32
    ensures FromBits(p)
            == Octet(p, 0) + 0x100 * Octet(p, 8) + 0x1_0000 * Octet(p, 16) + 0x100_0000 * Octet(p, 24)
  {
    FromSuffix8(p, 0);
    FromSuffix8(p, 8);
    FromSuffix8(p, 16);
    FromSuffix8(p, 24);
    assert p[0..] == p && p[32..] == [];
  }

  function TapNibble(k: nat): nat {
    (if Tap(k) then 1 else 0) + (if Tap(k + 1) then 2 else 0) + (if Tap(k + 2) then 4 else 0)
    + if Tap(k + 3) then 8 else 0
  }

  lemma PolyNibble(k: nat)
    requires k <= 28
    ensures Nibble(POLY, k) == TapNibble(k)
  {}

  lemma PolyOctet(k: nat)
    requires k <= 24
    ensures Octet(POLY, k) == TapNibble(k) + 16 * TapNibble(k + 4)
  {
    PolyNibble(k);
    PolyNibble(k + 4);
  }

  /** The taps are the bits of the reflected Castagnoli polynomial. */
  lemma PolyValue()
    ensures FromBits(POLY) == 0x82F6_3B78
  {
    FromOctets(POLY);
    PolyOctet(0);
    PolyOctet(8);
    PolyOctet(16);
    PolyOctet(24);
    assert TapNibble(0) == 0x8 && TapNibble(4) == 0x7 && TapNibble(8) == 0xB && TapNibble(12) == 0x3;
    assert TapNibble(16) == 0x6 && TapNibble(20) == 0xF && TapNibble(24) == 0x2 && TapNibble(28) == 0x8;
  }
}
