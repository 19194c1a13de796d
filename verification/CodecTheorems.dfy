/** What acceptance by `ValidateData` means, and which corruptions it never misses. */
module CodecTheorems {
  import opened GoInts
  import opened Words
  import opened Codec
  import Crc32c
  import Payload

  // ---- what is written where ----

  lemma BitOfByte(w: Word, m: nat, b: nat)
    requires m < 8 && b < 8
    ensures ToBits(Put64(w)[m], 8)[b] == w[8 * m + b]
  {
    ByteAt(w, m);
    ToBitsFromBits(w[8 * m..8 * m + 8]);
  }

  /**
   A value of 2 to 23 bytes, bit by bit: after the size, a bit is set where the keys differ in it, for as many of their
   eight bytes as fit, lowest byte first.
   */
  lemma SmallBits(pk: int64, ck: int64, size: nat, i: nat, b: nat)
    requires 2 <= size <= 23 && 1 <= i < size && i <= 8 && b < 8
    ensures Validated(pk, ck, size)[0] == size
    ensures ToBits(Validated(pk, ck, size)[i], 8)[b]
            == (Uint64(pk)[8 * (i - 1) + b] != Uint64(ck)[8 * (i - 1) + b])
  {
    BitOfByte(Xor(Uint64(pk), Uint64(ck)), i - 1, b);
  }

  /** What does not fit the eight bytes of the keys is zero. */
  lemma SmallZeros(pk: int64, ck: int64, size: nat, i: nat)
    requires 1 <= size <= 23 && 9 <= i < size
    ensures Validated(pk, ck, size)[i] == 0
  {}

  /** From 24 bytes on a value begins with size, partition key and clustering key, lowest bit and byte first. */
  lemma HeaderBits(pk: int64, ck: int64, size: nat, m: nat, b: nat)
    requires 24 <= size && m < 8 && b < 8
    ensures ToBits(Validated(pk, ck, size)[m], 8)[b] == Uint64(size)[8 * m + b]
    ensures ToBits(Validated(pk, ck, size)[8 + m], 8)[b] == Uint64(pk)[8 * m + b]
    ensures ToBits(Validated(pk, ck, size)[16 + m], 8)[b] == Uint64(ck)[8 * m + b]
  {
    BitOfByte(Uint64(size), m, b);
    BitOfByte(Uint64(pk), m, b);
    BitOfByte(Uint64(ck), m, b);
  }

  /** Up to 56 bytes zeros follow. */
  lemma TailZeros(pk: int64, ck: int64, size: nat, i: nat)
    requires 24 <= i < size <= 56
    ensures Validated(pk, ck, size)[i] == 0
  {
    assert Validated(pk, ck, size) == Header(pk, ck, size) + Zeros(size - 24);
  }

  lemma BodyParts(pk: int64, ck: int64, size: nat)
    requires 57 <= size
    ensures var body := Body(pk, ck, size);
            && body[..size - 28] == Payload.Stream(Payload.Seed(pk, ck), size - 28)
            && Bits(body[size - 28..]) == Crc32c.Checksum(body[..size - 28])
  {
    var payload := Payload.Stream(Payload.Seed(pk, ck), size - 28);
    assert Body(pk, ck, size)[..size - 28] == payload;
    assert Body(pk, ck, size)[size - 28..] == Crc32c.Put32(Crc32c.Checksum(payload));
    BitsBytes(Crc32c.Checksum(payload));
  }

  lemma DropHeader(v: seq<byte>, h: seq<byte>, body: seq<byte>)
    requires v == h + body && |h| == 24 && |body| >= 4
    ensures v[24..|v| - 4] == body[..|body| - 4] && v[|v| - 4..] == body[|body| - 4..]
  {}

  /** From 57 bytes on the payload of the row follows and, in the last four bytes, its checksum. */
  lemma TailBytes(pk: int64, ck: int64, size: nat)
    requires 57 <= size
    ensures var payload := Validated(pk, ck, size)[24..size - 4];
            && payload == Payload.Stream(Payload.Seed(pk, ck), size - 28)
            && Bits(Validated(pk, ck, size)[size - 4..]) == Crc32c.Checksum(payload)
  {
    DropHeader(Validated(pk, ck, size), Header(pk, ck, size), Body(pk, ck, size));
    BodyParts(pk, ck, size);
  }

  /** Below 57 bytes the reasons for a rejection: no byte at all, another size than stored, another value. */
  lemma SmallVerdict(pk: int64, ck: int64, data: seq<byte>)
    requires |data| <= 56
    ensures var verdict := ValidateData(pk, ck, data, true);
            && (verdict == TooShort <==> |data| == 0)
            && (1 <= |data| <= 23 ==> (verdict == SizeMismatch <==> data[0] != |data|))
            && (24 <= |data| ==> (verdict == SizeMismatch <==> Bits(data[..8]) != Uint64(|data|)))
            && (verdict == Valid <==> |data| >= 1 && data == Validated(pk, ck, |data|))
            && (verdict == Valid || verdict == TooShort || verdict == SizeMismatch || verdict == ValueMismatch)
  {
    SmallExact(pk, ck, data);
    if 24 <= |data| {
      assert data[0..8] == data[..8];
      Int64Uint64(|data|, Get64(data[0..8]));
    }
  }

  /**
   What is written without validation: zeros, or the payload of the row; if that is shorter than eight bytes and all
   zeros, a one and zeros.
   */
  lemma PlainValues(pk: int64, ck: int64, size: nat)
    ensures |Value(pk, ck, size, false, false)| == size
    ensures forall i | 0 <= i < size :: Value(pk, ck, size, false, false)[i] == 0
    ensures var payload, v := Payload.Stream(Payload.Seed(pk, ck), size), Value(pk, ck, size, false, true);
            && |v| == size
            && if 1 <= size <= 7 && forall i | 0 <= i < size :: payload[i] == 0
               then v[0] == 1 && forall i | 1 <= i < size :: v[i] == 0
               else v == payload
    ensures size >= 1 ==> exists i | 0 <= i < size :: Value(pk, ck, size, false, true)[i] != 0
  {
    if size >= 1 {
      Payload.DefaultValueNonZero(pk, ck, size);
    }
  }

  /** With validation off nothing is rejected. */
  lemma UncheckedAccepted(pk: int64, ck: int64, data: seq<byte>)
    ensures ValidateData(pk, ck, data, false) == Valid
  {}

  // ---- exact acceptance ----

  /** Below 57 bytes the generated value is accepted and nothing else is. */
  lemma SmallExact(pk: int64, ck: int64, data: seq<byte>)
    requires |data| < FULL_MIN_SIZE
    ensures Accepts(pk, ck, data) <==> 1 <= |data| && data == Validated(pk, ck, |data|)
  {
    if 1 <= |data| && data == Validated(pk, ck, |data|) && |data| >= HEADER_SIZE {
      assert data[0..8] == Put64(Uint64(|data|));
      BitsBytes(Uint64(|data|));
      Int64Uint64(|data|, Get64(data[0..8]));
    }
  }

  /** The header checks hold exactly when the first 24 bytes are the generated header. */
  lemma HeaderChecks(pk: int64, ck: int64, data: seq<byte>)
    requires FULL_MIN_SIZE <= |data| < TWO_63
    ensures Int64(Get64(data[0..8])) == |data| && Int64(Get64(data[8..16])) == pk && Int64(Get64(data[16..24])) == ck
            <==> data[..HEADER_SIZE] == Header(pk, ck, |data|)
  {
    FieldCheck(data[0..8], |data|);
    FieldCheck(data[8..16], pk);
    FieldCheck(data[16..24], ck);
    var h := Header(pk, ck, |data|);
    assert h[0..8] == Put64(Uint64(|data|)) && h[8..16] == Put64(Uint64(pk)) && h[16..24] == Put64(Uint64(ck));
    assert h == h[0..8] + h[8..16] + h[16..24];
    assert data[..HEADER_SIZE] == data[0..8] + data[8..16] + data[16..24];
    if data[..HEADER_SIZE] == h {
      assert data[0..8] == h[0..8] && data[8..16] == h[8..16] && data[16..24] == h[16..24];
    }
  }

  lemma FieldCheck(field: seq<byte>, n: int64)
    requires |field| == 8
    ensures Int64(Get64(field)) == n <==> field == Put64(Uint64(n))
  {
    Int64Uint64(n, Get64(field));
    BytesBits(field);
    BitsBytes(Uint64(n));
  }

  /** Everything after the header: a payload followed by four bytes. */
  ghost predicate ChecksumHolds(tail: seq<byte>) {
    Crc32c.FeedBits(Crc32c.INIT, Bits(tail)) == Crc32c.RESIDUE
  }

  lemma ChecksumCheck(tail: seq<byte>, n: nat)
    requires n + CHECKSUM_SIZE == |tail|
    ensures Bits(tail[n..]) == Crc32c.Checksum(tail[..n]) <==> ChecksumHolds(tail)
  {
    assert tail == tail[..n] + tail[n..];
    BitsAppend(tail[..n], tail[n..]);
    Crc32c.ResidueIffChecksum(tail[..n], Bits(tail[n..]));
  }

  /** From 57 bytes on a value is accepted exactly when its header is the row's and its checksum holds. */
  lemma FullExact(pk: int64, ck: int64, data: seq<byte>)
    requires FULL_MIN_SIZE <= |data| < TWO_63
    ensures Accepts(pk, ck, data)
            <==> data[..HEADER_SIZE] == Header(pk, ck, |data|) && ChecksumHolds(data[HEADER_SIZE..])
  {
    HeaderChecks(pk, ck, data);
    var n := |data| - HEADER_SIZE - CHECKSUM_SIZE;
    var tail := data[HEADER_SIZE..];
    assert tail[n..] == data[|data| - CHECKSUM_SIZE..] && tail[..n] == data[HEADER_SIZE..|data| - CHECKSUM_SIZE];
    ChecksumCheck(tail, n);
  }

  /** The verdict on a full value names the first part that is not what was written for the row. */
  lemma VerdictNamesFault(pk: int64, ck: int64, data: seq<byte>)
    requires FULL_MIN_SIZE <= |data| < TWO_63
    ensures var verdict, good := ValidateData(pk, ck, data, true), Header(pk, ck, |data|);
            && (verdict == SizeMismatch <==> data[..8] != good[..8])
            && (verdict == PkMismatch <==> data[..8] == good[..8] && data[8..16] != good[8..16])
            && (verdict == CkMismatch <==> data[..16] == good[..16] && data[16..24] != good[16..])
            && (verdict == CorruptChecksum <==> data[..HEADER_SIZE] == good && !ChecksumHolds(data[HEADER_SIZE..]))
  {
    var h := Header(pk, ck, |data|);
    FieldCheck(data[0..8], |data|);
    FieldCheck(data[8..16], pk);
    FieldCheck(data[16..24], ck);
    assert h[..8] == Put64(Uint64(|data|)) && h[8..16] == Put64(Uint64(pk)) && h[16..] == Put64(Uint64(ck));
    SamePrefix(data[..16], h[..16], 8);
    FullExact(pk, ck, data);
    HeaderChecks(pk, ck, data);
  }

  lemma SamePrefix(s: seq<byte>, t: seq<byte>, i: nat)
    requires |s| == |t| && i <= |s|
    ensures s == t <==> s[..i] == t[..i] && s[i..] == t[i..]
  {
    assert s == s[..i] + s[i..] && t == t[..i] + t[i..];
  }

  lemma BodyChecksumHolds(pk: int64, ck: int64, size: nat)
    requires FULL_MIN_SIZE <= size
    ensures ChecksumHolds(Body(pk, ck, size))
  {
    var n := size - HEADER_SIZE - CHECKSUM_SIZE;
    var body := Body(pk, ck, size);
    var payload := Payload.Stream(Payload.Seed(pk, ck), n);
    assert body[..n] == payload && body[n..] == Crc32c.Put32(Crc32c.Checksum(payload));
    BitsBytes(Crc32c.Checksum(payload));
    ChecksumCheck(body, n);
  }

  /** Whatever is written with validation on validates when it is read back. */
  lemma GeneratedAccepted(pk: int64, ck: int64, size: nat)
    requires 1 <= size < TWO_63
    ensures Accepts(pk, ck, Validated(pk, ck, size))
  {
    var data := Validated(pk, ck, size);
    if size < FULL_MIN_SIZE {
      SmallExact(pk, ck, data);
    } else {
      FullExact(pk, ck, data);
      BodyChecksumHolds(pk, ck, size);
      assert data[..HEADER_SIZE] == Header(pk, ck, size) && data[HEADER_SIZE..] == Body(pk, ck, size);
    }
  }

  /** A full value's payload is not compared with anything, but only one checksum is accepted with it. */
  lemma OneChecksumPerPayload(pk: int64, ck: int64, data: seq<byte>, data': seq<byte>)
    requires FULL_MIN_SIZE <= |data| == |data'| < TWO_63
    requires Accepts(pk, ck, data) && Accepts(pk, ck, data')
    requires data[HEADER_SIZE..|data| - CHECKSUM_SIZE] == data'[HEADER_SIZE..|data| - CHECKSUM_SIZE]
    ensures data == data'
  {
    HeaderChecks(pk, ck, data);
    HeaderChecks(pk, ck, data');
    var end := |data| - CHECKSUM_SIZE;
    BitsInjective(data[end..], data'[end..]);
    SameParts(data, data', HEADER_SIZE, end);
  }

  lemma SameParts(s: seq<byte>, t: seq<byte>, i: nat, j: nat)
    requires |s| == |t| && i <= j <= |s|
    requires s[..i] == t[..i] && s[i..j] == t[i..j] && s[j..] == t[j..]
    ensures s == t
  {
    assert s == s[..i] + s[i..j] + s[j..] && t == t[..i] + t[i..j] + t[j..];
  }

  // ---- one row's value under another row's key ----

  lemma HeaderInjective(pk: int64, ck: int64, pk': int64, ck': int64, size: int)
    requires Header(pk, ck, size) == Header(pk', ck', size)
    ensures pk == pk' && ck == ck'
  {
    var h, h' := Header(pk, ck, size), Header(pk', ck', size);
    assert h[8..16] == Put64(Uint64(pk)) && h[16..24] == Put64(Uint64(ck));
    assert h'[8..16] == Put64(Uint64(pk')) && h'[16..24] == Put64(Uint64(ck'));
    Put64Injective(Uint64(pk), Uint64(pk'));
    Put64Injective(Uint64(ck), Uint64(ck'));
    Uint64Injective(pk, pk');
    Uint64Injective(ck, ck');
  }

  /** From 24 bytes on a value is accepted for its own row only. */
  lemma AcceptedForOwnRowOnly(pk: int64, ck: int64, pk': int64, ck': int64, size: nat)
    requires HEADER_SIZE <= size < TWO_63
    ensures Accepts(pk', ck', Validated(pk, ck, size)) <==> pk == pk' && ck == ck'
  {
    var data := Validated(pk, ck, size);
    GeneratedAccepted(pk, ck, size);
    assert data[..HEADER_SIZE] == Header(pk, ck, size);
    if Accepts(pk', ck', data) {
      if size < FULL_MIN_SIZE {
        SmallExact(pk', ck', data);
        assert Validated(pk', ck', size)[..HEADER_SIZE] == Header(pk', ck', size);
      } else {
        FullExact(pk', ck', data);
      }
      HeaderInjective(pk, ck, pk', ck', size);
    }
  }

  /** Below 24 bytes rows are told apart only by the bytes of `pk ^ ck` that fit. */
  lemma SmallAcceptedByXor(pk: int64, ck: int64, pk': int64, ck': int64, size: nat)
    requires 1 <= size < HEADER_SIZE
    ensures Accepts(pk', ck', Validated(pk, ck, size))
            <==> XorBytes(pk, ck)[..Min(8, size - 1)] == XorBytes(pk', ck')[..Min(8, size - 1)]
  {
    var data, data' := Validated(pk, ck, size), Validated(pk', ck', size);
    var n := Min(8, size - 1);
    SmallExact(pk', ck', data);
    assert data[1..1 + n] == XorBytes(pk, ck)[..n] && data'[1..1 + n] == XorBytes(pk', ck')[..n];
  }

  lemma WholePrefix(s: seq<byte>)
    ensures s[..|s|] == s
  {}

  /** From 9 bytes on all of `pk ^ ck` fits, so within one clustering key only the row's own partition is accepted. */
  lemma SmallTellsPartitionsApart(pk: int64, pk': int64, ck: int64, size: nat)
    requires 9 <= size < HEADER_SIZE
    ensures Accepts(pk', ck, Validated(pk, ck, size)) <==> pk == pk'
  {
    SmallAcceptedByXor(pk, ck, pk', ck, size);
    WholePrefix(XorBytes(pk, ck));
    WholePrefix(XorBytes(pk', ck));
    if XorBytes(pk, ck) == XorBytes(pk', ck) {
      Put64Injective(Xor(Uint64(pk), Uint64(ck)), Xor(Uint64(pk'), Uint64(ck)));
      Payload.XorCancel(Uint64(pk), Uint64(pk'), Uint64(ck));
      Uint64Injective(pk, pk');
    }
  }

  /** A small value is accepted just as well with partition and clustering key exchanged. */
  lemma SmallAcceptsExchangedKeys(pk: int64, ck: int64, size: nat)
    requires 1 <= size < HEADER_SIZE
    ensures Accepts(ck, pk, Validated(pk, ck, size))
  {
    assert Xor(Uint64(pk), Uint64(ck)) == Xor(Uint64(ck), Uint64(pk));
    SmallAcceptedByXor(pk, ck, ck, pk, size);
  }

  // ---- corruptions ----

  lemma SplitBits(data: seq<byte>, n: nat)
    requires n <= |data|
    ensures Bits(data) == Bits(data[..n]) + Bits(data[n..])
  {
    assert data == data[..n] + data[n..];
    BitsAppend(data[..n], data[n..]);
  }

  lemma AcceptedLikeGenerated(pk: int64, ck: int64, size: nat, data: seq<byte>)
    requires FULL_MIN_SIZE <= size < TWO_63
    requires |data| == size && Accepts(pk, ck, data)
    ensures data[..HEADER_SIZE] == Validated(pk, ck, size)[..HEADER_SIZE]
    ensures ChecksumHolds(data[HEADER_SIZE..]) && ChecksumHolds(Validated(pk, ck, size)[HEADER_SIZE..])
  {
    GeneratedAccepted(pk, ck, size);
    FullExact(pk, ck, Validated(pk, ck, size));
    FullExact(pk, ck, data);
  }

  /** Changes of a full value confined to 32 consecutive bits, wherever they fall, are always noticed. */
  lemma BurstRejected(pk: int64, ck: int64, size: nat, data: seq<byte>, i: nat)
    requires FULL_MIN_SIZE <= size < TWO_63
    requires |data| == size && data != Validated(pk, ck, size)
    requires i + 32 <= 8 * size
    requires Bits(data)[..i] == Bits(Validated(pk, ck, size))[..i]
    requires Bits(data)[i + 32..] == Bits(Validated(pk, ck, size))[i + 32..]
    ensures !Accepts(pk, ck, data)
  {
    var good := Validated(pk, ck, size);
    if Accepts(pk, ck, data) {
      AcceptedLikeGenerated(pk, ck, size, data);
      var u, v := Bits(data[HEADER_SIZE..]), Bits(good[HEADER_SIZE..]);
      TailsDiffer(data, good);
      SplitBits(data, HEADER_SIZE);
      SplitBits(good, HEADER_SIZE);
      var h := 8 * HEADER_SIZE;
      assert u == Bits(data)[h..] && v == Bits(good)[h..];
      var lo, hi := if i < h then 0 else i - h, if i + 32 < h then 0 else i + 32 - h;
      WindowInTail(Bits(data), Bits(good), h, i, i + 32, lo, hi);
      Crc32c.BurstChangesRegister(Crc32c.INIT, u, v, lo, hi);
    }
  }

  lemma TailsDiffer(data: seq<byte>, good: seq<byte>)
    requires |data| == |good| >= HEADER_SIZE && data != good
    requires data[..HEADER_SIZE] == good[..HEADER_SIZE]
    ensures Bits(data[HEADER_SIZE..]) != Bits(good[HEADER_SIZE..])
  {
    assert data == data[..HEADER_SIZE] + data[HEADER_SIZE..] && good == good[..HEADER_SIZE] + good[HEADER_SIZE..];
    if Bits(data[HEADER_SIZE..]) == Bits(good[HEADER_SIZE..]) {
      BitsInjective(data[HEADER_SIZE..], good[HEADER_SIZE..]);
    }
  }

  lemma WindowInTail(a: seq<bool>, b: seq<bool>, h: nat, i: nat, j: nat, lo: nat, hi: nat)
    requires h <= |a| == |b| && i <= j <= |a|
    requires a[..i] == b[..i] && a[j..] == b[j..]
    requires lo == (if i < h then 0 else i - h) && hi == (if j < h then 0 else j - h)
    ensures a[h..][..lo] == b[h..][..lo] && a[h..][hi..] == b[h..][hi..]
  {
    assert forall k | h <= k < h + lo :: a[k] == a[..i][k] && b[k] == b[..i][k];
    assert forall k | h + hi <= k < |a| :: a[k] == a[j..][k - j] && b[k] == b[j..][k - j];
  }

  /** In particular no change of up to four consecutive bytes goes unnoticed. */
  lemma FourByteChangeRejected(pk: int64, ck: int64, size: nat, data: seq<byte>, i: nat)
    requires FULL_MIN_SIZE <= size < TWO_63
    requires |data| == size && data != Validated(pk, ck, size)
    requires i + 4 <= size
    requires data[..i] == Validated(pk, ck, size)[..i] && data[i + 4..] == Validated(pk, ck, size)[i + 4..]
    ensures !Accepts(pk, ck, data)
  {
    var good := Validated(pk, ck, size);
    SplitBits(data, i);
    SplitBits(good, i);
    SplitBits(data, i + 4);
    SplitBits(good, i + 4);
    BurstRejected(pk, ck, size, data, 8 * i);
  }

  lemma {:induction false} FlipsAppend(a: seq<bool>, b: seq<bool>, u: seq<bool>, v: seq<bool>)
    requires |a| == |b| && |u| == |v|
    ensures Crc32c.Flips(a + u, b + v) == Crc32c.Flips(a, b) + Crc32c.Flips(u, v)
  {
    if a == [] {
      assert a + u == u && b + v == v;
    } else {
      FlipsAppend(a[1..], b[1..], u, v);
      assert (a + u)[1..] == a[1..] + u && (b + v)[1..] == b[1..] + v;
    }
  }

  lemma {:induction false} NoFlips(a: seq<bool>)
    ensures Crc32c.Flips(a, a) == 0
  {
    if a != [] {
      NoFlips(a[1..]);
    }
  }

  /** An odd number of flipped bits, anywhere in a full value, is always noticed. */
  lemma OddFlipsRejected(pk: int64, ck: int64, size: nat, data: seq<byte>)
    requires FULL_MIN_SIZE <= size < TWO_63
    requires |data| == size
    requires Crc32c.Flips(Bits(data), Bits(Validated(pk, ck, size))) % 2 == 1
    ensures !Accepts(pk, ck, data)
  {
    if Accepts(pk, ck, data) {
      var good := Validated(pk, ck, size);
      AcceptedLikeGenerated(pk, ck, size, data);
      FlipsInTail(data, good);
      Crc32c.OddFlipsChangeRegister(Crc32c.INIT, Bits(data[HEADER_SIZE..]), Bits(good[HEADER_SIZE..]));
    }
  }

  lemma FlipsInTail(data: seq<byte>, good: seq<byte>)
    requires |data| == |good| >= HEADER_SIZE
    requires data[..HEADER_SIZE] == good[..HEADER_SIZE]
    ensures Crc32c.Flips(Bits(data), Bits(good))
            == Crc32c.Flips(Bits(data[HEADER_SIZE..]), Bits(good[HEADER_SIZE..]))
  {
    SplitBits(data, HEADER_SIZE);
    SplitBits(good, HEADER_SIZE);
    FlipsAppend(Bits(data[..HEADER_SIZE]), Bits(good[..HEADER_SIZE]),
      Bits(data[HEADER_SIZE..]), Bits(good[HEADER_SIZE..]));
    NoFlips(Bits(data[..HEADER_SIZE]));
  }

  // ---- values of the wrong length ----

  /**
   While the size field it needs is kept, a value that has another length is noticed, whatever else has changed, as
   long as both lengths are below 24 bytes or neither is: the field is one byte wide below that and eight from there on.
   */
  lemma ResizedRejected(pk: int64, ck: int64, size: nat, data: seq<byte>)
    requires 1 <= size < TWO_63 && 1 <= |data| < TWO_63 && |data| != size
    requires size < HEADER_SIZE <==> |data| < HEADER_SIZE
    requires var field := if size < HEADER_SIZE then 1 else 8; data[..field] == Validated(pk, ck, size)[..field]
    ensures !Accepts(pk, ck, data)
  {
    if size < HEADER_SIZE {
      assert data[0] == data[..1][0] == Validated(pk, ck, size)[..1][0] == size;
    } else {
      assert Validated(pk, ck, size)[..8] == Put64(Uint64(size)) == data[0..8];
      BitsBytes(Uint64(size));
      Int64Uint64(size, Get64(data[0..8]));
    }
  }

  /** The small value of `small` bytes is the beginning of the header of a value of `large` bytes. */
  ghost predicate HeaderBegins(pk: int64, ck: int64, small: nat, large: nat)
    requires 1 <= small < HEADER_SIZE
  {
    Header(pk, ck, large)[..small] == Small(pk, ck, small)
  }

  lemma ValueStart(pk: int64, ck: int64, size: nat, n: nat)
    requires n <= HEADER_SIZE <= size
    ensures Validated(pk, ck, size)[..n] == Header(pk, ck, size)[..n]
  {
    var v, h := Validated(pk, ck, size), Header(pk, ck, size);
    assert v[..HEADER_SIZE] == h;
    assert v[..n] == v[..HEADER_SIZE][..n];
  }

  lemma CutToHeader(pk: int64, ck: int64, size: nat, n: nat)
    requires 1 <= n < HEADER_SIZE <= size
    ensures Accepts(pk, ck, Validated(pk, ck, size)[..n]) <==> HeaderBegins(pk, ck, n, size)
  {
    ValueStart(pk, ck, size, n);
    SmallExact(pk, ck, Header(pk, ck, size)[..n]);
  }

  lemma AcceptedHeader(pk: int64, ck: int64, data: seq<byte>)
    requires HEADER_SIZE <= |data| < TWO_63 && Accepts(pk, ck, data)
    ensures data[..HEADER_SIZE] == Header(pk, ck, |data|)
  {
    if |data| < FULL_MIN_SIZE {
      SmallExact(pk, ck, data);
      ValueStart(pk, ck, |data|, HEADER_SIZE);
    } else {
      FullExact(pk, ck, data);
    }
  }

  lemma ExtendedToHeader(pk: int64, ck: int64, size: nat, data: seq<byte>)
    requires 1 <= size < HEADER_SIZE <= |data| < TWO_63
    requires data[..size] == Small(pk, ck, size) && Accepts(pk, ck, data)
    ensures HeaderBegins(pk, ck, size, |data|)
  {
    AcceptedHeader(pk, ck, data);
    assert data[..HEADER_SIZE][..size] == data[..size];
  }

  /** The bytes after the first: seven of `s`, then those of `p` and `k`, against those of `x` followed by zeros. */
  predicate PartsRead(s: seq<byte>, p: seq<byte>, k: seq<byte>, x: seq<byte>, n: nat)
    requires |s| == |p| == |k| == |x| == 8
  {
    && (forall i | 1 <= i < 8 && i < n :: s[i] == x[i - 1])
    && (n > 8 ==> p[0] == x[7])
    && (forall i | 1 <= i < 8 && 8 + i < n :: p[i] == 0)
    && (forall i | 0 <= i < 8 && 16 + i < n :: k[i] == 0)
  }

  lemma PartsCompared(s: seq<byte>, p: seq<byte>, k: seq<byte>, x: seq<byte>, n: nat)
    requires |s| == |p| == |k| == |x| == 8 && 1 <= n < 24
    requires s[0] == n
    ensures (s + p + k)[..n] == [n] + x[..Min(8, n - 1)] + Zeros(n - 1 - Min(8, n - 1)) <==> PartsRead(s, p, k, x, n)
  {
    var h, v := (s + p + k)[..n], [n] + x[..Min(8, n - 1)] + Zeros(n - 1 - Min(8, n - 1));
    if h == v {
      forall i | 1 <= i < 8 && i < n
        ensures s[i] == x[i - 1]
      {
        assert h[i] == v[i];
      }
      assert n > 8 ==> h[8] == v[8];
      forall i | 1 <= i < 8 && 8 + i < n
        ensures p[i] == 0
      {
        assert h[8 + i] == v[8 + i];
      }
      forall i | 0 <= i < 8 && 16 + i < n
        ensures k[i] == 0
      {
        assert h[16 + i] == v[16 + i];
      }
    }
    if PartsRead(s, p, k, x, n) {
      forall i | 0 <= i < n
        ensures h[i] == v[i]
      {
        if 8 < i < 16 {
          assert p[i - 8] == 0;
        } else if 16 <= i {
          assert k[i - 16] == 0;
        }
      }
    }
  }

  /**
   The same by the bytes of sizes and keys. The one size byte of the small value is the low byte of the large size; the
   rest of the large size must read as the low bytes of `pk ^ ck`, the low byte of `pk` as the highest of them, and what
   follows must be zero.
   */
  ghost predicate ReadsAsSmall(pk: int64, ck: int64, small: nat, large: nat) {
    && large % 256 == small
    && PartsRead(Put64(Uint64(large)), Put64(Uint64(pk)), Put64(Uint64(ck)), XorBytes(pk, ck), small)
  }

  lemma HeaderParts(pk: int64, ck: int64, small: nat, large: nat)
    requires 1 <= small < HEADER_SIZE
    ensures HeaderBegins(pk, ck, small, large) <==> ReadsAsSmall(pk, ck, small, large)
  {
    var s, p, k, x := Put64(Uint64(large)), Put64(Uint64(pk)), Put64(Uint64(ck)), XorBytes(pk, ck);
    NextByte(large, large % 256, large / 256, 7);
    if s[0] == small {
      PartsCompared(s, p, k, x, small);
    } else {
      assert Header(pk, ck, large)[..small][0] == s[0] && Small(pk, ck, small)[0] == small;
    }
  }

  /** A value cut short is accepted exactly when less than a header is left and that reads as a small value. */
  lemma CutAccepted(pk: int64, ck: int64, size: nat, n: nat)
    requires n < size < TWO_63
    ensures Accepts(pk, ck, Validated(pk, ck, size)[..n])
            <==> 1 <= n < HEADER_SIZE <= size && ReadsAsSmall(pk, ck, n, size)
  {
    var data := Validated(pk, ck, size)[..n];
    if 1 <= n < HEADER_SIZE <= size {
      CutToHeader(pk, ck, size, n);
      HeaderParts(pk, ck, n, size);
    } else if 1 <= n {
      ResizedRejected(pk, ck, size, data);
    }
  }

  ghost predicate Extends(data: seq<byte>, v: seq<byte>, n: nat) { |data| == n && |v| <= n && data[..|v|] == v }

  /** A value can be extended to an accepted one of `n` bytes exactly under the same condition, lengths exchanged. */
  lemma ExtensionAccepted(pk: int64, ck: int64, size: nat, n: nat)
    requires 1 <= size < n < TWO_63
    ensures (exists data :: Extends(data, Validated(pk, ck, size), n) && Accepts(pk, ck, data))
            <==> size < HEADER_SIZE <= n && ReadsAsSmall(pk, ck, size, n)
  {
    if data :| Extends(data, Validated(pk, ck, size), n) && Accepts(pk, ck, data) {
      if size < HEADER_SIZE <= n {
        ExtendedToHeader(pk, ck, size, data);
        HeaderParts(pk, ck, size, n);
      } else {
        var field := if size < HEADER_SIZE then 1 else 8;
        assert data[..field] == data[..size][..field];
        ResizedRejected(pk, ck, size, data);
      }
    }
    if size < HEADER_SIZE <= n && ReadsAsSmall(pk, ck, size, n) {
      HeaderParts(pk, ck, size, n);
      ValueStart(pk, ck, n, size);
      GeneratedAccepted(pk, ck, n);
      assert Extends(Validated(pk, ck, n), Validated(pk, ck, size), n);
    }
  }

  lemma {:induction false} ZeroBytes(k: nat)
    ensures Bytes(ToBits(0, 8 * k)) == Zeros(k)
  {
    if k != 0 {
      NextByte(0, 0, 0, k - 1);
      ZeroBytes(k - 1);
    }
  }

  /** Cut to its first byte, a value of 257 bytes, or of any size that ends in that byte, is accepted for every row. */
  lemma OneByteLeft(pk: int64, ck: int64, size: nat)
    requires HEADER_SIZE <= size < TWO_63 && size % 256 == 1
    ensures Accepts(pk, ck, Validated(pk, ck, size)[..1])
  {
    CutAccepted(pk, ck, size, 1);
  }

  lemma TwoBytesOf(low: byte, high: byte, k: nat)
    ensures Bytes(ToBits(low + 256 * high, 8 * (k + 2))) == [low, high] + Zeros(k)
  {
    NextByte(low + 256 * high, low, high, k + 1);
    NextByte(high, high, 0, k);
    ZeroBytes(k);
  }

  /** A number of two bytes. */
  lemma TwoBytes(n: nat, low: byte, high: byte)
    requires n == low + 256 * high
    ensures Put64(Uint64(n)) == [low, high] + Zeros(6)
  {
    TwoBytesOf(low, high, 6);
  }

  lemma XorZero(zero: int64, n: int64)
    requires zero == 0
    ensures XorBytes(zero, n) == Put64(Uint64(n))
  {
    ZeroDigits(64);
    assert Xor(Uint64(zero), Uint64(n)) == Uint64(n);
  }

  lemma NineRead(s: seq<byte>, p: seq<byte>, k: seq<byte>, x: seq<byte>, c: byte, zero: byte)
    requires s == [9, c] + Zeros(6) && p == [zero, 0] + Zeros(6) && |k| == 8 && x == [c, 0] + Zeros(6)
    ensures PartsRead(s, p, k, x, 9) <==> zero == 0
  {}

  lemma NineBytes(pk: byte, ck: byte, size: nat)
    requires size == 9 + 256 * ck && XorBytes(pk, ck) == Put64(Uint64(ck))
    ensures PartsRead(Put64(Uint64(size)), Put64(Uint64(pk)), Put64(Uint64(ck)), XorBytes(pk, ck), 9) <==> pk == 0
  {
    TwoBytes(size, 9, ck);
    TwoBytes(ck, ck, 0);
    TwoBytes(pk, pk, 0);
    NineRead(Put64(Uint64(size)), Put64(Uint64(pk)), Put64(Uint64(ck)), XorBytes(pk, ck), ck, pk);
  }

  lemma LastByteNine(ck: byte, size: nat)
    requires size == 9 + 256 * ck
    ensures size % 256 == 9
  {}

  /** A cut that keeps all eight bytes of the size can be accepted, too: 265 bytes for the row (0, 1) cut to nine. */
  lemma NineBytesLeft(pk: int64, ck: byte, size: nat)
    requires pk == 0 && ck >= 1 && size == 9 + 256 * ck
    ensures Accepts(pk, ck, Validated(pk, ck, size)[..9])
  {
    LastByteNine(ck, size);
    XorZero(pk, ck);
    NineBytes(pk, ck, size);
    CutAccepted(pk, ck, size, 9);
  }
}
