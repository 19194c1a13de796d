/**
 The self-validating value: how `GenerateData` lays it out for a row, what `ValidateData` accepts for that row, and
 which corruptions it is certain to notice.
 */
module Codec {
  import opened GoInts
  import opened Words
  import Crc32c
  import Payload

  const HEADER_SIZE: nat := 24
  const CHECKSUM_SIZE: nat := 4
  const FULL_MIN_SIZE: nat := 57

  function Zeros(n: nat): (s: seq<byte>)
    ensures |s| == n
  {
    seq(n, i requires 0 <= i < n => 0)
  }

  /** `[size] [pk] [ck]`, eight bytes each. */
  function Header(pk: int64, ck: int64, size: int): (s: seq<byte>)
    ensures |s| == HEADER_SIZE
  {
    Put64(Uint64(size)) + Put64(Uint64(pk)) + Put64(Uint64(ck))
  }

  /** The bytes of `pk ^ ck`. */
  function XorBytes(pk: int64, ck: int64): (s: seq<byte>)
    ensures |s| == 8
  {
    Put64(Xor(Uint64(pk), Uint64(ck)))
  }

  function Min(a: int, b: int): int { if a < b then a else b }

  /** A validated value of fewer than 24 bytes. */
  function Small(pk: int64, ck: int64, size: nat): (s: seq<byte>)
    requires 1 <= size < HEADER_SIZE
    ensures |s| == size
  {
    var n := Min(8, size - 1);
    [size] + XorBytes(pk, ck)[..n] + Zeros(size - 1 - n)
  }

  function Body(pk: int64, ck: int64, size: nat): (s: seq<byte>)
    requires FULL_MIN_SIZE <= size
    ensures |s| == size - HEADER_SIZE
  {
    var payload := Payload.Stream(Payload.Seed(pk, ck), size - HEADER_SIZE - CHECKSUM_SIZE);
    payload + Crc32c.Put32(Crc32c.Checksum(payload))
  }

  /** The validated value of `size` bytes for the row `(pk, ck)`. */
  function Validated(pk: int64, ck: int64, size: nat): (s: seq<byte>)
    requires 1 <= size
    ensures |s| == size
  {
    if size < HEADER_SIZE then Small(pk, ck, size)
    else if size < FULL_MIN_SIZE then Header(pk, ck, size) + Zeros(size - HEADER_SIZE)
    else Header(pk, ck, size) + Body(pk, ck, size)
  }

  /** Every value the program writes. */
  ghost function Value(pk: int64, ck: int64, size: nat, validateData: bool, randomData: bool): seq<byte>
    requires validateData ==> 1 <= size
  {
    if validateData then Validated(pk, ck, size)
    else if randomData then Payload.NonZero(Payload.Stream(Payload.Seed(pk, ck), size))
    else Zeros(size)
  }

  // ---- writing ----

  /** Builds the value for a row; `null` stands for the panics on a negative size and on an empty validated value. */
  method GenerateData(pk: int64, ck: int64, size: int64, validateData: bool, randomData: bool)
    returns (value: array?<byte>)
    ensures value == null <==> size < 0 || (validateData && size == 0)
    ensures value != null ==> fresh(value) && value[..] == Value(pk, ck, size, validateData, randomData)
  {
    if size < 0 {
      return null;
    }
    var v := new byte[size](_ => 0);
    if !validateData {
      if randomData {
        Payload.FillPayload(v, 0, size, pk, ck);
        assert v[..] == Payload.Stream(Payload.Seed(pk, ck), size);
        Payload.EnsureNonZero(v);
      } else {
        assert v[..] == Zeros(size);
      }
      return v;
    }
    if size < HEADER_SIZE {
      if size == 0 {
        return null;
      }
      FillSmall(v, pk, ck);
    } else {
      FillChecked(v, pk, ck);
    }
    return v;
  }

  /** The layout of fewer than 24 bytes. */
  method FillSmall(v: array<byte>, pk: int64, ck: int64)
    requires 1 <= v.Length < HEADER_SIZE
    requires forall i | 0 <= i < v.Length :: v[i] == 0
    modifies v
    ensures v[..] == Small(pk, ck, v.Length)
  {
    var size := v.Length;
    v[0] := size;
    if size > 1 {
      var xorBytes := XorBytes(pk, ck);
      var i := 0;
      while i < 8 && i < size - 1
        invariant 0 <= i <= Min(8, size - 1)
        invariant v[0] == size
        invariant forall m | 1 <= m < size :: v[m] == if m - 1 < i then xorBytes[m - 1] else 0
      {
        v[1 + i] := xorBytes[i];
        i := i + 1;
      }
    }
  }

  /** The layouts of 24 bytes and more: a header, then zeros or a payload with its checksum. */
  method FillChecked(v: array<byte>, pk: int64, ck: int64)
    requires HEADER_SIZE <= v.Length
    requires forall i | 0 <= i < v.Length :: v[i] == 0
    modifies v
    ensures v[..] == Validated(pk, ck, v.Length)
  {
    var size := v.Length;
    FillHeader(v, pk, ck);
    if size >= FULL_MIN_SIZE {
      FillBody(v, pk, ck);
    }
  }

  method FillHeader(v: array<byte>, pk: int64, ck: int64)
    requires HEADER_SIZE <= v.Length
    requires forall i | 0 <= i < v.Length :: v[i] == 0
    modifies v
    ensures v[..] == Header(pk, ck, v.Length) + Zeros(v.Length - HEADER_SIZE)
  {
    Payload.PutUint64(v, 0, Uint64(v.Length));
    Payload.PutUint64(v, 8, Uint64(pk));
    Payload.PutUint64(v, 16, Uint64(ck));
  }

  method FillBody(v: array<byte>, pk: int64, ck: int64)
    requires FULL_MIN_SIZE <= v.Length
    modifies v
    ensures v[..] == old(v[..HEADER_SIZE]) + Body(pk, ck, v.Length)
  {
    var payloadEnd := v.Length - CHECKSUM_SIZE;
    Payload.FillPayload(v, HEADER_SIZE, payloadEnd, pk, ck);
    var payload := v[HEADER_SIZE..payloadEnd];
    assert payload == Payload.Stream(Payload.Seed(pk, ck), payloadEnd - HEADER_SIZE);
    assert v[..payloadEnd] == old(v[..HEADER_SIZE]) + payload;
    PutUint32(v, payloadEnd, Crc32c.Checksum(payload));
    assert v[payloadEnd + CHECKSUM_SIZE..] == [];
  }

  /** `binary.LittleEndian.PutUint32(v[at:], r)` */
  method PutUint32(v: array<byte>, at: nat, r: Crc32c.Register)
    requires at + 4 <= v.Length
    modifies v
    ensures v[..] == old(v[..at]) + Crc32c.Put32(r) + old(v[at + 4..])
  {
    var bytes := Crc32c.Put32(r);
    forall k | 0 <= k < 4 {
      v[at + k] := bytes[k];
    }
  }

  // ---- reading ----

  datatype Verdict =
    | Valid | TooShort | SizeMismatch | ValueMismatch | PkMismatch | CkMismatch | CorruptChecksum

  /** The conversion `int64(int8(b))`. */
  function SignedByte(b: byte): int { if b < 128 then b else b - 256 }

  /** Checks a value read back for the row `(pk, ck)`. */
  function ValidateData(pk: int64, ck: int64, data: seq<byte>, validateData: bool): Verdict {
    var size := |data|;
    if !validateData then Valid
    else if size < 1 then TooShort
    else if size != (if size < HEADER_SIZE then SignedByte(data[0]) else Int64(Get64(data[0..8]))) then SizeMismatch
    else if size < FULL_MIN_SIZE then
      if data == Validated(pk, ck, size) then Valid else ValueMismatch
    else if Int64(Get64(data[8..16])) != pk then PkMismatch
    else if Int64(Get64(data[16..24])) != ck then CkMismatch
    else
      var payloadEnd := size - CHECKSUM_SIZE;
      if Bits(data[payloadEnd..]) != Crc32c.Checksum(data[HEADER_SIZE..payloadEnd]) then CorruptChecksum
      else Valid
  }

  predicate Accepts(pk: int64, ck: int64, data: seq<byte>) { ValidateData(pk, ck, data, true) == Valid }
}
