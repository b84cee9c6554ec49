/** The lane codecs for int, bool and double. An int is its own 32-bit
    pattern; a double is its 64-bit IEEE-754 pattern (what
    BitConverter.DoubleToInt64Bits gives), split into a low and a high
    32-bit lane. */
module Codecs {
  import opened Bits
  import opened Secure

  /** IntCodec: one lane holding the int itself. */
  function IntToLanes(v: Word32): (l: Quad)
    ensures l[0] == v && l[1] == 0 && l[2] == 0 && l[3] == 0
  {
    [v, 0, 0, 0]
  }

  function IntFromLanes(l: Quad): Word32 { l[0] }

  function IntCodec(): (c: Codec<Word32>)
    ensures c.lanes == 1
  {
    Codec(1, IntToLanes, IntFromLanes)
  }

  /** The int codec round-trips every int and pads with zeros; re-encoding
      what it decodes restores lane 0 and reproduces the lanes exactly when
      the others are 0. */
  lemma IntCodecValid(l: Quad)
    ensures ValidCodec(IntCodec())
    ensures forall v: Word32 :: IntFromLanes(IntToLanes(v)) == v
    ensures IntToLanes(IntFromLanes(l))[0] == l[0]
    ensures IntToLanes(IntFromLanes(l)) == l <==> l[1] == 0 && l[2] == 0 && l[3] == 0
  {
  }

  /** BoolCodec: true is stored as 1 and false as 0. */
  function BoolToLanes(v: bool): (l: Quad)
    ensures l[1] == 0 && l[2] == 0 && l[3] == 0
  {
    [if v then 1 else 0, 0, 0, 0]
  }

  /** Any non-zero lane reads as true. */
  function BoolFromLanes(l: Quad): bool { l[0] != 0 }

  function BoolCodec(): (c: Codec<bool>)
    ensures c.lanes == 1
  {
    Codec(1, BoolToLanes, BoolFromLanes)
  }

  /** The bool codec round-trips both values, and re-encoding what it
      decodes reproduces the lanes exactly when lane 0 is 0 or 1 and the
      other lanes are 0: any other non-zero word reads as true but is not
      the canonical encoding. */
  lemma BoolCodecValid(l: Quad)
    ensures ValidCodec(BoolCodec())
    ensures BoolFromLanes(BoolToLanes(true)) && !BoolFromLanes(BoolToLanes(false))
    ensures BoolToLanes(BoolFromLanes(l))[0] == (if l[0] == 0 then 0 else 1)
    ensures BoolToLanes(BoolFromLanes(l)) == l <==> (l[0] == 0 || l[0] == 1) && l[1] == 0 && l[2] == 0 && l[3] == 0
  {
    assert BoolToLanes(true)[0] == 1;
  }

  /** 0xFFFFFFFF, the low-half mask (a uint literal widened to long). */
  const LowOnes: nat := 0xFFFF_FFFF

  const SignBit32: int := 0x8000_0000
  const SignBit64: int := 0x8000_0000_0000_0000

  /** (long)x for an int: sign extension fills the high half with ones
      when x is negative. */
  function Widen(x: Word32): (r: Word64)
    ensures r % Two32 == x
    ensures r / Two32 == (if x < SignBit32 then 0 else Two32 - 1)
  {
    if x < SignBit32 then x else x + (Two64 - Two32)
  }

  /** (int)x for a long: truncation to the low 32 bits. */
  function Narrow(x: Word64): (r: Word32)
    ensures x < Two32 ==> r == x
  {
    x % Two32
  }

  /** x & 0xFFFFFFFF on a long. */
  function MaskLow(x: Word64): (r: Word64)
    ensures r == x % Two32
  {
    Pow2Widths();
    AndLowOnes(x, 32);
    And(x, LowOnes)
  }

  /** x << 32 on a long: the high half is shifted out. */
  function ShiftUp(x: Word64): (r: Word64)
    ensures r == (x % Two32) * Two32
  {
    (x * Two32) % Two64
  }

  /** x >> 32 on a long: an arithmetic shift, filling with the sign. */
  function ShiftDown(x: Word64): (r: Word64)
    ensures r % Two32 == x / Two32
  {
    if x < SignBit64 then x / Two32 else x / Two32 + (Two64 - Two32)
  }

  /** x | y on longs. */
  function Or64(x: Word64, y: Word64): Word64 {
    Pow2Widths();
    OrBelow(x, y, 64);
    Or(x, y)
  }

  /** DoubleCodec.ToLanes on the double's bit pattern. */
  function DoubleToLanes(bits: Word64): (l: Quad)
    ensures l[2] == 0 && l[3] == 0
  {
    [Narrow(MaskLow(bits)), Narrow(MaskLow(ShiftDown(bits))), 0, 0]
  }

  /** DoubleCodec.FromLanes, giving the bit pattern of the double. */
  function DoubleFromLanes(l: Quad): Word64 {
    Or64(ShiftUp(Widen(l[1])), MaskLow(Widen(l[0])))
  }

  function DoubleCodec(): (c: Codec<Word64>)
    ensures c.lanes == 2
  {
    Codec(2, DoubleToLanes, DoubleFromLanes)
  }

  /** The double's pattern splits into its low and its high 32 bits. */
  lemma DoubleLanesAreHalves(bits: Word64)
    ensures DoubleToLanes(bits)[0] == bits % Two32
    ensures DoubleToLanes(bits)[1] == bits / Two32
  {
  }

  /** Reassembling two lanes puts lane 1 in the high half and lane 0 in the
      low half. Lane 0 is masked after widening, so the sign extension of a
      negative low lane never reaches the high half. */
  lemma DoubleFromHalves(l: Quad)
    ensures DoubleFromLanes(l) == l[1] * Two32 + l[0]
  {
    Pow2Widths();
    OrDisjoint(l[1], l[0], 32);
  }

  /** Without the mask, a low lane with its sign bit set would fill the
      high half with ones: joining lanes (0x80000000, 0) by a plain OR of
      the widened lanes gives a high half of 0xFFFFFFFF, not 0. */
  lemma MaskIsNeeded()
    ensures var l: Quad := [SignBit32, 0, 0, 0];
      Or64(ShiftUp(Widen(l[1])), Widen(l[0])) / Two32 == Two32 - 1
      && DoubleFromLanes(l) / Two32 == 0
  {
    var l: Quad := [SignBit32, 0, 0, 0];
    OrZeroLeft(Widen(l[0]));
    DoubleFromHalves(l);
  }

  /** Decoding what was encoded gives the same bit pattern back. */
  lemma DoubleRoundTrip(bits: Word64)
    ensures DoubleFromLanes(DoubleToLanes(bits)) == bits
  {
    DoubleLanesAreHalves(bits);
    DoubleFromHalves(DoubleToLanes(bits));
  }

  /** Encoding what was decoded gives the same two lanes back. */
  lemma DoubleLanesRoundTrip(l: Quad)
    requires l[2] == 0 && l[3] == 0
    ensures DoubleToLanes(DoubleFromLanes(l)) == l
  {
    var bits := DoubleFromLanes(l);
    DoubleFromHalves(l);
    DivModOfHalves(l[1], l[0]);
    DoubleLanesAreHalves(bits);
    var r := DoubleToLanes(bits);
    assert r[0] == l[0] && r[1] == l[1];
    assert r == l;
  }

  lemma DivModOfHalves(high: Word32, low: Word32)
    ensures (high * Two32 + low) % Two32 == low && (high * Two32 + low) / Two32 == high
  {
  }

  /** The double codec is one the wrapper can give values back through. */
  lemma DoubleCodecValid()
    ensures ValidCodec(DoubleCodec())
  {
    forall bits: Word64
      ensures DoubleFromLanes(DoubleToLanes(bits)) == bits
    {
      DoubleRoundTrip(bits);
    }
  }

  /** Wrapping an int, a bool or a double and reading it back gives the
      same value without raising the flag, whatever salt and keys are
      drawn. */
  lemma SecureValuesRoundTrip(i: Word32, b: bool, d: Word64, salt: Word32, keys: Quad, keys': Quad)
    ensures var r := Get(IntCodec(), Construct(IntCodec(), i, salt, keys), keys');
      r.value == i && r.flags == 0
    ensures var r := Get(BoolCodec(), Construct(BoolCodec(), b, salt, keys), keys');
      r.value == b && r.flags == 0
    ensures var r := Get(DoubleCodec(), Construct(DoubleCodec(), d, salt, keys), keys');
      r.value == d && r.flags == 0
  {
    IntCodecValid(Zeros);
    BoolCodecValid(Zeros);
    DoubleCodecValid();
    ConstructThenGet(IntCodec(), i, salt, keys, keys');
    ConstructThenGet(BoolCodec(), b, salt, keys, keys');
    ConstructThenGet(DoubleCodec(), d, salt, keys, keys');
  }
}
