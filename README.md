# FloatTest number-line sampler, modelled in Dafny

FloatTest is a Win32 program that draws every representable binary32 value in
the visible part of the real line as a dot. When there are too many dots it
draws only a sample. This project models the integer core of that program and
proves properties of the model.

- **Order-mapping codec.** `float_to_ordered` / `ordered_to_floatbits` and
  their binary64 twins map an IEEE 754 bit pattern to an unsigned "ordered
  key" of the same width, and back. Unsigned key order is the value order of
  the patterns, with -0 just below +0 (module `OrderedKeys`). The bit
  operations of the source are written as arithmetic on unsigned integers in
  module `Words`:
  - `x & 0x8000_0000` tests whether x ≥ 2^31;
  - `~x` is 2^32 - 1 - x;
  - `x ^ 0x8000_0000` adds or subtracts 2^31;
  - `(uint32_t)x` is x mod 2^32.
- **Stride walk of Render** (module `FloatSampler`). The two ends of the view
  are encoded and put in order. The number of keys between them is counted in
  64 bits, and a stride is chosen so that at most `maxPointsToDraw` keys are
  visited. The keys are walked with a 64-bit counter. Each visited key is
  decoded, NaN and infinite patterns are skipped, and every remaining pattern
  gets the unbiased exponent used for its colour band.
- **Viewer state and keys** (module `ViewerControls`). Class `Viewer` holds
  - the format switch (`showDoubleMode`),
  - the point budget (`maxPointsToDraw`),
  - the camera.

  `OnKeyDown` is the `WM_KEYDOWN` handler. `Render` is the sampling part of a
  frame: in binary64 mode nothing is sampled.

The main results:
- the codec is a bijection whose key order is exactly sign-magnitude value
  order;
- the walk visits exactly `lo + i * step` for `i < (hi - lo) / step + 1`,
  never more than the budget, and ends within one stride of the upper end;
- the filter keeps exactly the finite patterns, in key order, each with a
  band exponent in [-127, 127];
- the budget stays in [1000, 1000000] under every key sequence, with 'D'
  never lowering it and 'S' never raising it.

`FloatTest/FloatTest.cpp:233-236` is the only place that divides by the
budget. A budget of 0 cannot reach it, because the budget starts at 100000
and the keys keep it at 1000 or more.

For [-1, 1] the walk spans 2130706434 binary32 keys, so with a budget of
1000000 the stride is 2131 (`FloatSampler.UnitIntervalStride`).

## Model

| member | source | states |
|---|---|---|
| Words.TopBit32 | FloatTest/FloatTest.cpp:51 | the `& 0x80000000u` test holds exactly when bit 31 of the word is 1 (also the test at line 55) |
| Words.Not32 | FloatTest/FloatTest.cpp:51 | complement flips the sign bit and maps the low 31 bits m to 2^31 - 1 - m |
| Words.FlipTopBit32 | FloatTest/FloatTest.cpp:52 | xor with the sign mask flips the sign bit and keeps the low 31 bits |
| Words.Truncate32 | FloatTest/FloatTest.cpp:244 | the cast to uint32_t is the identity on a key below 2^32 |
| Words.TopBit64 | FloatTest/FloatTest.cpp:60 | the `& 0x8000000000000000ull` test holds exactly when bit 63 of the word is 1 (also the test at line 64) |
| Words.Not64 | FloatTest/FloatTest.cpp:60-61 | 64-bit complement flips the sign bit and maps the low 63 bits m to 2^63 - 1 - m (also used at line 65) |
| Words.FlipTopBit64 | FloatTest/FloatTest.cpp:61 | 64-bit xor with the sign mask flips the sign bit and keeps the low 63 bits (also used at line 64) |
| OrderedKeys.FloatToOrdered | FloatTest/FloatTest.cpp:50-53 | a pattern gets a key below 2^31 exactly when its sign bit is set |
| OrderedKeys.OrderedToFloatBits | FloatTest/FloatTest.cpp:54-57 | a key below 2^31 decodes to a pattern with the sign bit set, and only such keys do |
| OrderedKeys.DecodeEncode32 | FloatTest/FloatTest.cpp:50-57 | decoding the key of any 32-bit pattern gives the pattern back |
| OrderedKeys.EncodeDecode32 | FloatTest/FloatTest.cpp:50-57 | encoding the decoded pattern of any key gives the key back, so the codec is a bijection on 32-bit words |
| OrderedKeys.EncodeIsValueRank32 | FloatTest/FloatTest.cpp:50-53 | the key is 2^31 plus the pattern's rank in sign-magnitude value order: negatives count down from -1 at -0, the rest count up from 0 at +0 |
| OrderedKeys.EncodeMonotonic32 | FloatTest/FloatTest.cpp:50-53 | for all patterns a, b: a's key is smaller than b's iff a precedes b in sign-magnitude value order |
| OrderedKeys.ZeroKeysAdjacent32 | FloatTest/FloatTest.cpp:50-53 | -0 maps to 0x7FFFFFFF and +0 to 0x80000000, adjacent keys with -0 first |
| OrderedKeys.DoubleToOrdered | FloatTest/FloatTest.cpp:59-62 | a 64-bit pattern gets a key below 2^63 exactly when its sign bit is set |
| OrderedKeys.OrderedToDoubleBits | FloatTest/FloatTest.cpp:63-66 | a key below 2^63 decodes to a pattern with the sign bit set, and only such keys do |
| OrderedKeys.DecodeEncode64 | FloatTest/FloatTest.cpp:59-66 | decoding the key of any 64-bit pattern gives the pattern back |
| OrderedKeys.EncodeDecode64 | FloatTest/FloatTest.cpp:59-66 | encoding the decoded pattern of any 64-bit key gives the key back |
| OrderedKeys.EncodeIsValueRank64 | FloatTest/FloatTest.cpp:59-62 | the key is 2^63 plus the pattern's sign-magnitude value rank |
| OrderedKeys.EncodeMonotonic64 | FloatTest/FloatTest.cpp:59-62 | key order is sign-magnitude value order, in both directions |
| OrderedKeys.ZeroKeysAdjacent64 | FloatTest/FloatTest.cpp:59-62 | -0 maps to 0x7FFF...F and +0 to 0x8000...0 |
| FloatSampler.ExponentField | FloatTest/FloatTest.cpp:323 | the field is the 8-bit value formed by bits 23-30: the magnitude below the sign bit divided by 2^23 |
| FloatSampler.IsNonFinite | FloatTest/FloatTest.cpp:247 | a pattern is NaN or infinite exactly when its magnitude is at least that of infinity, 0x7F800000 |
| FloatSampler.UnbiasedExponent | FloatTest/FloatTest.cpp:326 | the band exponent is -127 exactly for field 0 (zeros and subnormals) and field - 127 for every other field; it lies in [-127, 127] for every finite pattern |
| FloatSampler.UnbiasedExponentMonotonic | FloatTest/FloatTest.cpp:326 | a larger exponent field never gets a lower band exponent |
| FloatSampler.ExponentFollowsMagnitude | FloatTest/FloatTest.cpp:323-326 | a pattern with a larger magnitude never has a smaller field or a lower band, so band order follows value order among non-negative patterns |
| FloatSampler.Stride | FloatTest/FloatTest.cpp:232-236 | the stride is 1 when the keys fit in the budget, otherwise the least s with s * budget ≥ totalPoints; it is at least 1 and never exceeds the key count |
| FloatSampler.WalkFitsBudget | FloatTest/FloatTest.cpp:232-241 | a walk over totalPoints keys with that stride visits (totalPoints - 1) / step + 1 keys, never more than the budget |
| FloatSampler.DecodeKey | FloatTest/FloatTest.cpp:244 | a visited key below 2^32 decodes to the pattern whose ordered key is that key |
| FloatSampler.LowKey | FloatTest/FloatTest.cpp:228-230 | after the swap the lower end is one of the two endpoint keys, and not above either |
| FloatSampler.HighKey | FloatTest/FloatTest.cpp:228-230 | after the swap the upper end is below 2^32 and not below the lower end, and the two ends are exactly the two endpoint keys; so totalPoints at line 232 is in [1, 2^32] |
| FloatSampler.KeptSamples | FloatTest/FloatTest.cpp:241-247 | every kept sample comes from a visited key, decodes to a finite pattern, carries that key's decoding and has band exponent in [-127, 127] |
| FloatSampler.KeptSamplesComplete | FloatTest/FloatTest.cpp:244-247 | every visited key whose pattern is finite is kept: only NaN and infinities are skipped |
| FloatSampler.KeptSamplesOrdered | FloatTest/FloatTest.cpp:241-247 | samples kept from strictly increasing keys have strictly increasing keys |
| FloatSampler.KeptSamplesAppend | FloatTest/FloatTest.cpp:244-247 | one more visited key adds its sample at the end when finite and nothing otherwise |
| FloatSampler.SampleFloats | FloatTest/FloatTest.cpp:226-247 | for any two ends and any budget ≥ 1: the stride is Stride of the key count between the ordered ends; keys lo + i * step are visited for i < (hi - lo) / step + 1; no more keys than the budget; all visited keys at most hi, the last within one stride of hi; kept samples are the finite ones |
| FloatSampler.WalkKeys | FloatTest/FloatTest.cpp:241-247 | the loop visits lo, lo + step, ... up to hi, (hi - lo) / step + 1 keys with uniform spacing, last one within one stride of hi, and keeps the finite samples |
| FloatSampler.StrideWalkShape | FloatTest/FloatTest.cpp:241 | keys of the form lo + i * step up to hi are all at most hi and one stride apart |
| FloatSampler.WalkLength | FloatTest/FloatTest.cpp:241 | a loop from lo by step that stops after passing hi runs (hi - lo) / step + 1 times |
| FloatSampler.UnitIntervalStride | FloatTest/FloatTest.cpp:226-236 | [-1, 1] has keys 0x407FFFFF to 0xBF800000, and with a budget of 1000000 the stride is 2131 |
| FloatSampler.FullRangeStride | FloatTest/FloatTest.cpp:222-236 | the full finite range [-FLT_MAX, FLT_MAX] has keys 0x00800000 to 0xFF7FFFFF; with the start-up budget the stride is 42782 and exactly 100000 keys are visited |
| ViewerControls.DoubledBudget | FloatTest/FloatTest.cpp:452 | 'D' doubles the budget, capped at 1000000; from inside [1000, 1000000] it stays inside and never decreases |
| ViewerControls.HalvedBudget | FloatTest/FloatTest.cpp:456 | 'S' halves the budget, with a floor of 1000; from inside [1000, 1000000] it stays inside and never increases |
| ViewerControls.BudgetAfterKey | FloatTest/FloatTest.cpp:450-457 | one key press keeps an in-range budget in range; 'D' never lowers it, 'S' never raises it, other keys leave it unchanged |
| ViewerControls.BudgetAfterKeys | FloatTest/FloatTest.cpp:440-459 | a key sequence with neither 'D' nor 'S' leaves the budget unchanged |
| ViewerControls.BudgetStaysInRange | FloatTest/FloatTest.cpp:450-457 | any sequence of key presses keeps a budget in [1000, 1000000] in that range |
| ViewerControls.ReachableBudgetsInRange | FloatTest/FloatTest.cpp:94 | from the start-up budget of 100000, every key sequence leaves a budget ≥ 1 that is in range |
| ViewerControls.BudgetMonotoneInKeys | FloatTest/FloatTest.cpp:450-457 | key sequences without 'S' never lower the budget, and sequences without 'D' never raise it |
| ViewerControls.Viewer.constructor | FloatTest/FloatTest.cpp:82-94 | start-up state: binary32 mode, budget 100000, centre 0, half-width FLT_MAX |
| ViewerControls.Viewer.OnKeyDown | FloatTest/FloatTest.cpp:440-459 | 'F' toggles the format, 'R' resets the camera to centre 0 and half-width 10, 'D' and 'S' update the budget; every other field is left unchanged and the budget stays in range |
| ViewerControls.Viewer.Render | FloatTest/FloatTest.cpp:221-247 | in binary64 mode nothing is sampled; in binary32 mode exactly the keys lo + i * step are visited, for i < (hi - lo) / step + 1, where step is the stride for the current budget; that is at least one and at most maxPointsToDraw keys, none past the upper end, and the finite ones are kept |

## Left out

- Direct2D and DirectWrite drawing, the window, mouse and wheel handling, and text output. This is I/O.
- The `memcpy` reinterpretation between floats and their bit patterns (`float_to_u32`, `u32_to_float` and the 64-bit pair). The model works on bit patterns throughout, so these are the identity.
- All floating-point arithmetic. It is outside an integer model. It covers:
  - converting the view's ends to binary32 with clamping, and the `leftF <= rightF` check (lines 222-224);
  - `worldToScreenX` and the off-screen filter after the finite filter (lines 249-250); the model's kept samples are therefore the candidates before that filter;
  - the dot radius, detail mode, HSV band colours, tick labels, zoom and pan.
- Render in binary64 mode draws only axes and text, so the model samples nothing there. There is no 64-bit walk to model.
- The focal recentring of zoom: it is commented out in the source.
- Window invalidation after a key press: it only schedules a repaint.
- Words.Truncate32: states only the value below 2^32, because the walk never passes a larger key.
- The NaN and infinity test is made on the exponent field (all ones) rather than on the float value. In IEEE 754-2008, section 3.4, both classify the same patterns.
