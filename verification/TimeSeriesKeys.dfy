/** How the time-series workload packs a position and a generation into one partition key. */
module TimeSeriesKeys {
  import opened GoInts
  import opened Words

  const TWO_32 := 0x1_0000_0000

  function Or(u: Word, v: Word): Word {
    seq(64, i requires 0 <= i < 64 => u[i] || v[i])
  }

  /** `position << 32 | generation` */
  function Pack(position: int, generation: int): int {
    Int64(Or(Uint64(position * TWO_32), Uint64(generation)))
  }

  /** Positions and generations that keep to their own half of the key. */
  predicate Packable(position: int, generation: int) {
    -0x8000_0000 <= position < 0x8000_0000 && 0 <= generation < TWO_32
  }

  lemma Pow32()
    ensures Pow2(32) == TWO_32
  {
    Pow2Plus8(0);
    Pow2Plus8(8);
    Pow2Plus8(16);
    Pow2Plus8(24);
  }

  /** The upper and lower half of `p * 2^32 + g`. */
  lemma Halves(p: int, g: nat)
    requires g < TWO_32
    ensures Uint64(p * TWO_32 + g) == ToBits(g, 32) + ToBits(p, 32)
  {
    var n := p * TWO_32 + g;
    var low := FromBits(ToBits(n, 32));
    ToBitsSplit(n, 32, 32);
    FromBitsToBits(n, 32);
    FromBitsBound(ToBits(n, 32));
    ToBitsFromBits(ToBits(n, 32));
    Pow32();
    SameSplit(p, g, Above(n, 32), low);
  }

  lemma SameSplit(p: int, g: nat, p': int, g': nat)
    requires g < TWO_32 && g' < TWO_32
    requires p * TWO_32 + g == g' + TWO_32 * p'
    ensures p == p' && g == g'
  {}

  /** The shifted position and the generation have no bit in common. */
  lemma OrOfHalves(position: int, generation: nat)
    requires generation < TWO_32
    ensures Or(Uint64(position * TWO_32), Uint64(generation)) == Uint64(position * TWO_32 + generation)
  {
    Halves(position, 0);
    Halves(0, generation);
    Halves(position, generation);
    ZeroDigits(32);
    JoinHalves(ToBits(generation, 32), ToBits(position, 32));
  }

  /** In range, packing is exact, so both parts can be read back from a key. */
  lemma PackExact(position: int, generation: int)
    requires Packable(position, generation)
    ensures Pack(position, generation) == position * 4_294_967_296 + generation
  {
    OrOfHalves(position, generation);
    Int64Uint64(position * TWO_32 + generation, Uint64(position * TWO_32 + generation));
  }

  lemma JoinHalves(low: seq<bool>, high: seq<bool>)
    requires |low| == |high| == 32
    ensures Or(Fill(32, false) + high, low + Fill(32, false)) == low + high
  {}

  lemma PackInjective(p: int, g: int, p': int, g': int)
    requires Packable(p, g) && Packable(p', g')
    requires Pack(p, g) == Pack(p', g')
    ensures p == p' && g == g'
  {
    PackExact(p, g);
    PackExact(p', g');
  }
}
