/**
 * Fixed-width unsigned machine words and the bit operations the codec and
 * the sampler use, each stated as the arithmetic it performs on the word's
 * unsigned value. For an N-bit word x:
 *   - the top bit is set exactly when x >= 2^(N-1);
 *   - x & (2^(N-1) - 1), the low N-1 bits, is x % 2^(N-1);
 *   - the bitwise complement ~x is (2^N - 1) - x;
 *   - x ^ 2^(N-1) toggles the top bit, so it adds 2^(N-1) when the bit is
 *     clear and subtracts it when the bit is set;
 *   - (x >> s) & (2^w - 1) is (x / 2^s) % 2^w.
 */
module Words {

  newtype uint32 = x: int | 0 <= x < 0x1_0000_0000
  newtype uint64 = x: int | 0 <= x < 0x1_0000_0000_0000_0000

  /* ------------------------------ 32 bits ------------------------------ */

  /** x & 0x8000_0000 != 0: bit 31, the sign bit of a binary32 pattern, is set */
  function TopBit32(x: uint32): (b: bool)
    ensures b <==> (x as int / 0x8000_0000) % 2 == 1
  {
    x >= 0x8000_0000
  }

  /** x & 0x7FFF_FFFF */
  function LowBits32(x: uint32): (r: uint32)
    ensures r < 0x8000_0000
    ensures x == r + (if TopBit32(x) then 0x8000_0000 else 0)
  {
    x % 0x8000_0000
  }

  /** ~x */
  function Not32(x: uint32): (r: uint32)
    ensures TopBit32(r) <==> !TopBit32(x)
    ensures LowBits32(r) == 0x7FFF_FFFF - LowBits32(x)
  {
    0xFFFF_FFFF - x
  }

  /** x ^ 0x8000_0000 */
  function FlipTopBit32(x: uint32): (r: uint32)
    ensures TopBit32(r) <==> !TopBit32(x)
    ensures LowBits32(r) == LowBits32(x)
  {
    if TopBit32(x) then x - 0x8000_0000 else x + 0x8000_0000
  }

  /** (uint32_t)x: keeps the low 32 bits of a 64-bit word */
  function Truncate32(x: uint64): (r: uint32)
    ensures x < 0x1_0000_0000 ==> r as uint64 == x
  {
    (x % 0x1_0000_0000) as uint32
  }

  /* ------------------------------ 64 bits ------------------------------ */

  /** x & 0x8000_0000_0000_0000 != 0: bit 63, the sign bit of a binary64 pattern, is set */
  function TopBit64(x: uint64): (b: bool)
    ensures b <==> (x as int / 0x8000_0000_0000_0000) % 2 == 1
  {
    x >= 0x8000_0000_0000_0000
  }

  /** x & 0x7FFF_FFFF_FFFF_FFFF */
  function LowBits64(x: uint64): (r: uint64)
    ensures r < 0x8000_0000_0000_0000
    ensures x == r + (if TopBit64(x) then 0x8000_0000_0000_0000 else 0)
  {
    x % 0x8000_0000_0000_0000
  }

  /** ~x */
  function Not64(x: uint64): (r: uint64)
    ensures TopBit64(r) <==> !TopBit64(x)
    ensures LowBits64(r) == 0x7FFF_FFFF_FFFF_FFFF - LowBits64(x)
  {
    0xFFFF_FFFF_FFFF_FFFF - x
  }

  /** x ^ 0x8000_0000_0000_0000 */
  function FlipTopBit64(x: uint64): (r: uint64)
    ensures TopBit64(r) <==> !TopBit64(x)
    ensures LowBits64(r) == LowBits64(x)
  {
    if TopBit64(x) then x - 0x8000_0000_0000_0000 else x + 0x8000_0000_0000_0000
  }
}
