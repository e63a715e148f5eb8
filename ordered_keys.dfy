/**
 * The order-mapping codec: a bijection between IEEE 754 bit patterns and
 * unsigned "ordered keys" of the same width whose unsigned order is the value
 * order of the patterns, -0 just below +0.
 *
 * Layout of a pattern (IEEE 754-2008, section 3.4): the sign bit is the top
 * bit; the remaining bits (biased exponent, then trailing significand) form
 * the magnitude, so among patterns of one sign, ordering by magnitude is
 * ordering by absolute value. NaN patterns are encoded and decoded like any
 * other pattern; they have no place in value order, and the sampler filters
 * them out after decoding.
 */
module OrderedKeys {
  import opened Words

  /* --------------------- reference value order, 32 --------------------- */

  /**
   * Sign-magnitude value order, on the sign bit (TopBit32: negative, -0, or
   * a NaN with the sign set) and the magnitude below it (LowBits32: biased
   * exponent and trailing significand): every negative pattern precedes every
   * non-negative one (so -0 precedes +0); two negatives are ordered by
   * decreasing magnitude, two non-negatives by increasing magnitude.
   */
  predicate Precedes32(a: uint32, b: uint32) {
    if TopBit32(a) && TopBit32(b) then LowBits32(b) < LowBits32(a)
    else if TopBit32(a) then true
    else if TopBit32(b) then false
    else LowBits32(a) < LowBits32(b)
  }

  /**
   * Position of a pattern on the value line when every pattern is counted:
   * non-negative patterns count up from 0 (+0) by magnitude, negative ones
   * count down from -1 (-0).
   */
  function ValueRank32(bits: uint32): int {
    if TopBit32(bits) then -1 - LowBits32(bits) as int else LowBits32(bits) as int
  }

  /* ---------------------------- codec, 32 ------------------------------ */

  /** float_to_ordered: complement negative patterns, set the sign bit of the others */
  function FloatToOrdered(bits: uint32): (ord: uint32)
    ensures TopBit32(bits) <==> ord < 0x8000_0000
  {
    if TopBit32(bits) then Not32(bits) else FlipTopBit32(bits)
  }

  /** ordered_to_floatbits: the inverse of FloatToOrdered */
  function OrderedToFloatBits(ord: uint32): (bits: uint32)
    ensures TopBit32(bits) <==> ord < 0x8000_0000
  {
    if TopBit32(ord) then FlipTopBit32(ord) else Not32(ord)
  }

  lemma DecodeEncode32(bits: uint32)
    ensures OrderedToFloatBits(FloatToOrdered(bits)) == bits
  {
  }

  lemma EncodeDecode32(ord: uint32)
    ensures FloatToOrdered(OrderedToFloatBits(ord)) == ord
  {
  }

  /** The key of a pattern is its value rank shifted up by 2^31: no two patterns share a key and there are no gaps. */
  lemma EncodeIsValueRank32(bits: uint32)
    ensures FloatToOrdered(bits) as int == 0x8000_0000 + ValueRank32(bits)
  {
  }

  /** Key order is value order, in both directions. */
  lemma EncodeMonotonic32(a: uint32, b: uint32)
    ensures Precedes32(a, b) <==> FloatToOrdered(a) < FloatToOrdered(b)
  {
    EncodeIsValueRank32(a);
    EncodeIsValueRank32(b);
  }

  /** -0 (0x8000_0000) and +0 (0) get adjacent keys, -0 first. */
  lemma ZeroKeysAdjacent32()
    ensures FloatToOrdered(0x8000_0000) == 0x7FFF_FFFF
    ensures FloatToOrdered(0) == 0x8000_0000
  {
  }

  /* --------------------- reference value order, 64 --------------------- */

  /** Sign-magnitude value order of binary64 patterns, as Precedes32. */
  predicate Precedes64(a: uint64, b: uint64) {
    if TopBit64(a) && TopBit64(b) then LowBits64(b) < LowBits64(a)
    else if TopBit64(a) then true
    else if TopBit64(b) then false
    else LowBits64(a) < LowBits64(b)
  }

  function ValueRank64(bits: uint64): int {
    if TopBit64(bits) then -1 - LowBits64(bits) as int else LowBits64(bits) as int
  }

  /* ---------------------------- codec, 64 ------------------------------ */

  /** double_to_ordered: the 64-bit twin of FloatToOrdered */
  function DoubleToOrdered(bits: uint64): (ord: uint64)
    ensures TopBit64(bits) <==> ord < 0x8000_0000_0000_0000
  {
    if TopBit64(bits) then Not64(bits) else FlipTopBit64(bits)
  }

  /** ordered_to_doublebits: the inverse of DoubleToOrdered */
  function OrderedToDoubleBits(ord: uint64): (bits: uint64)
    ensures TopBit64(bits) <==> ord < 0x8000_0000_0000_0000
  {
    if TopBit64(ord) then FlipTopBit64(ord) else Not64(ord)
  }

  lemma DecodeEncode64(bits: uint64)
    ensures OrderedToDoubleBits(DoubleToOrdered(bits)) == bits
  {
  }

  lemma EncodeDecode64(ord: uint64)
    ensures DoubleToOrdered(OrderedToDoubleBits(ord)) == ord
  {
  }

  lemma EncodeIsValueRank64(bits: uint64)
    ensures DoubleToOrdered(bits) as int == 0x8000_0000_0000_0000 + ValueRank64(bits)
  {
  }

  lemma EncodeMonotonic64(a: uint64, b: uint64)
    ensures Precedes64(a, b) <==> DoubleToOrdered(a) < DoubleToOrdered(b)
  {
    EncodeIsValueRank64(a);
    EncodeIsValueRank64(b);
  }

  lemma ZeroKeysAdjacent64()
    ensures DoubleToOrdered(0x8000_0000_0000_0000) == 0x7FFF_FFFF_FFFF_FFFF
    ensures DoubleToOrdered(0) == 0x8000_0000_0000_0000
  {
  }
}
