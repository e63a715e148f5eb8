/**
 * The level-of-detail sampler of the binary32 number line: the integer part
 * of the render pass. The two ends of the visible interval arrive as bit
 * patterns; they are mapped to ordered keys, put in order, and the keys
 * between them are walked with a uniform stride chosen so that at most
 * `budget` keys are visited. Each visited key is decoded back to a pattern;
 * patterns that are NaN or infinite are skipped, and every other one becomes
 * a sample carrying the unbiased exponent used for colour banding.
 */
module FloatSampler {
  import opened Words
  import opened OrderedKeys

  /* ------------------------- bit-pattern fields ------------------------- */

  /** The biased exponent field of a binary32 pattern, bits 23 to 30: (bits >> 23) & 0xFF. */
  function ExponentField(bits: uint32): (field: nat)
    ensures field < 0x100
    ensures field == LowBits32(bits) as int / 0x80_0000
  {
    (bits as int / 0x80_0000) % 0x100
  }

  /**
   * NaN or infinity (std::isnan || std::isinf): in IEEE 754-2008, section
   * 3.4, exactly the patterns whose biased exponent field is all ones, that
   * is, whose magnitude is at least that of infinity, 0x7F80_0000.
   */
  function IsNonFinite(bits: uint32): (nonFinite: bool)
    ensures nonFinite <==> LowBits32(bits) >= 0x7F80_0000
  {
    ExponentField(bits) == 0xFF
  }

  /**
   * The exponent used for colour banding: the biased field minus the bias
   * 127, except that zeros and subnormals (field 0) get -127.
   */
  function UnbiasedExponent(bits: uint32): (e: int)
    ensures -127 <= e <= 128
    ensures !IsNonFinite(bits) ==> e <= 127
    ensures e == -127 <==> ExponentField(bits) == 0
    ensures ExponentField(bits) != 0 ==> e == ExponentField(bits) - 127
  {
    var biased := ExponentField(bits);
    if biased == 0 then -127 else biased - 127
  }

  /** Colour banding never puts a larger exponent field in a lower band. */
  lemma UnbiasedExponentMonotonic(a: uint32, b: uint32)
    requires ExponentField(a) <= ExponentField(b)
    ensures UnbiasedExponent(a) <= UnbiasedExponent(b)
  {
  }

  /**
   * The band exponent follows the magnitude: of two patterns, the one with
   * the larger magnitude (so, for two non-negative patterns, the larger
   * value) never gets the lower band.
   */
  lemma ExponentFollowsMagnitude(a: uint32, b: uint32)
    requires LowBits32(a) <= LowBits32(b)
    ensures ExponentField(a) <= ExponentField(b)
    ensures UnbiasedExponent(a) <= UnbiasedExponent(b)
  {
  }

  /* ------------------------------- stride ------------------------------- */

  /**
   * The stride of the walk: 1 when every key fits in the budget, otherwise
   * the ceiling of totalPoints / budget, computed in 64 bits as
   * (totalPoints + budget - 1) / budget. The total never exceeds 2^32 (it
   * counts the keys between two 32-bit keys), so the sum cannot overflow.
   */
  function Stride(totalPoints: uint64, budget: uint64): (step: uint64)
    requires 1 <= budget
    requires totalPoints <= 0x1_0000_0000
    ensures 1 <= step
    ensures totalPoints <= budget ==> step == 1
    ensures totalPoints > budget ==>
      (step as int - 1) * budget as int < totalPoints as int <= step as int * budget as int
    ensures step == 1 || step <= totalPoints
  {
    if totalPoints > budget then
      var step := (totalPoints + budget - 1) / budget;
      CeilingDivision(totalPoints as int, budget as int, step as int);
      step
    else
      1
  }

  /** q = (t + b - 1) / b is the smallest q with q * b >= t. */
  lemma CeilingDivision(t: int, b: int, q: int)
    requires 1 <= b < t
    requires q == (t + b - 1) / b
    ensures (q - 1) * b < t <= q * b
    ensures 1 <= q <= t
  {
    var r := (t + b - 1) % b;
    assert t + b - 1 == q * b + r;
    assert (q - 1) * b == q * b - b;
    assert q * b <= t + b - 1 < 2 * t;
  }

  /**
   * A walk of totalPoints consecutive keys with this stride visits
   * (totalPoints - 1) / step + 1 keys, and that is never more than the
   * budget.
   */
  lemma WalkFitsBudget(totalPoints: uint64, budget: uint64)
    requires 1 <= budget
    requires 1 <= totalPoints <= 0x1_0000_0000
    ensures (totalPoints as int - 1) / Stride(totalPoints, budget) as int + 1 <= budget as int
  {
    var t, b, s := totalPoints as int, budget as int, Stride(totalPoints, budget) as int;
    if t > b {
      var q := (t - 1) / s;
      assert q * s <= t - 1;
      assert t - 1 < s * b;
      if q >= b {
        assert false;
      }
    }
  }

  /* --------------------------- samples kept ----------------------------- */

  /** A kept point: the visited key, the pattern it decodes to, and its band exponent. */
  datatype Sample = Sample(key: uint64, bits: uint32, exponent: int)

  /** ordered_to_floatbits((uint32_t)key): the pattern a visited 64-bit key stands for. */
  function DecodeKey(key: uint64): (bits: uint32)
    ensures key < 0x1_0000_0000 ==> FloatToOrdered(bits) as uint64 == key
  {
    EncodeDecode32(Truncate32(key));
    OrderedToFloatBits(Truncate32(key))
  }

  function SampleAt(key: uint64): Sample {
    var bits := DecodeKey(key);
    Sample(key, bits, UnbiasedExponent(bits))
  }

  /**
   * The samples kept from a sequence of visited keys, in visiting order:
   * one per key whose decoded pattern is finite. Every kept sample comes
   * from a visited key, is finite, and has a band exponent in [-127, 127].
   */
  function KeptSamples(keys: seq<uint64>): (kept: seq<Sample>)
    ensures |kept| <= |keys|
    ensures forall s :: s in kept ==>
      s.key in keys && s == SampleAt(s.key) && !IsNonFinite(s.bits) && -127 <= s.exponent <= 127
  {
    if keys == [] then []
    else
      var last := keys[|keys| - 1];
      KeptSamples(keys[..|keys| - 1]) + (if IsNonFinite(DecodeKey(last)) then [] else [SampleAt(last)])
  }

  /** A visited key is skipped exactly when its pattern is NaN or infinite: every finite one is kept. */
  lemma {:induction false} KeptSamplesComplete(keys: seq<uint64>, k: uint64)
    requires k in keys
    requires !IsNonFinite(DecodeKey(k))
    ensures SampleAt(k) in KeptSamples(keys)
  {
    var last := keys[|keys| - 1];
    if k != last {
      assert k in keys[..|keys| - 1] by {
        var i :| 0 <= i < |keys| && keys[i] == k;
        assert i < |keys| - 1;
        assert keys[..|keys| - 1][i] == k;
      }
      KeptSamplesComplete(keys[..|keys| - 1], k);
    }
  }

  /** The keys of a sequence of samples strictly increase. */
  predicate KeysIncrease(samples: seq<Sample>) {
    forall i, j :: 0 <= i < j < |samples| ==> samples[i].key < samples[j].key
  }

  /** Filtering keeps the visiting order: strictly increasing keys give samples with strictly increasing keys. */
  lemma {:induction false} KeptSamplesOrdered(keys: seq<uint64>)
    requires forall i, j :: 0 <= i < j < |keys| ==> keys[i] < keys[j]
    ensures KeysIncrease(KeptSamples(keys))
  {
    if keys != [] {
      var init := keys[..|keys| - 1];
      var last := keys[|keys| - 1];
      KeptSamplesOrdered(init);
      var front := KeptSamples(init);
      if IsNonFinite(DecodeKey(last)) {
        assert KeptSamples(keys) == front;
      } else {
        assert KeptSamples(keys) == front + [SampleAt(last)];
        forall s | s in front
          ensures s.key < last
        {
          var i :| 0 <= i < |init| && init[i] == s.key;
          assert keys[i] == s.key;
        }
        AppendLargerKey(front, SampleAt(last));
      }
    }
  }

  lemma AppendLargerKey(front: seq<Sample>, s: Sample)
    requires KeysIncrease(front)
    requires forall t :: t in front ==> t.key < s.key
    ensures KeysIncrease(front + [s])
  {
    var all := front + [s];
    forall i, j | 0 <= i < j < |all|
      ensures all[i].key < all[j].key
    {
      assert all[i] == front[i];
      if j == |front| {
        assert all[i] in front;
      }
    }
  }

  /* ------------------------------- the walk ----------------------------- */

  /** The keys lo, lo + step, lo + 2 * step, ..., one per index. */
  predicate StepsFrom(visited: seq<uint64>, lo: int, step: int) {
    forall i :: 0 <= i < |visited| ==> visited[i] as int == lo + i * step
  }

  /** The next key of a stride walk lies one step past the last. */
  lemma StepsFromAppend(visited: seq<uint64>, lo: int, step: int)
    requires StepsFrom(visited, lo, step)
    ensures forall k: uint64 :: k as int == lo + |visited| * step ==> StepsFrom(visited + [k], lo, step)
    ensures (|visited| + 1) * step == |visited| * step + step
  {
  }

  /** The samples kept from one more key: those kept so far, then that key's sample if it is finite. */
  lemma KeptSamplesAppend(keys: seq<uint64>, k: uint64)
    ensures KeptSamples(keys + [k]) ==
      KeptSamples(keys) + (if IsNonFinite(DecodeKey(k)) then [] else [SampleAt(k)])
  {
    assert (keys + [k])[..|keys|] == keys;
  }

  /**
   * The ordered keys of the two ends after the swap, widened to 64 bits:
   * LowKey is the smaller of the two, HighKey the larger.
   */
  function LowKey(leftBits: uint32, rightBits: uint32): (lo: uint64)
    ensures lo == FloatToOrdered(leftBits) as uint64 || lo == FloatToOrdered(rightBits) as uint64
    ensures lo <= FloatToOrdered(leftBits) as uint64 && lo <= FloatToOrdered(rightBits) as uint64
  {
    var l, r := FloatToOrdered(leftBits), FloatToOrdered(rightBits);
    if l <= r then l as uint64 else r as uint64
  }

  function HighKey(leftBits: uint32, rightBits: uint32): (hi: uint64)
    ensures LowKey(leftBits, rightBits) <= hi < 0x1_0000_0000
    ensures {LowKey(leftBits, rightBits), hi} == {FloatToOrdered(leftBits) as uint64, FloatToOrdered(rightBits) as uint64}
  {
    var l, r := FloatToOrdered(leftBits), FloatToOrdered(rightBits);
    if l <= r then r as uint64 else l as uint64
  }

  /**
   * The sampling pass of Render for binary32: visits the keys
   * lo, lo + step, lo + 2 * step, ... up to hi, where lo and hi are the
   * ordered keys of the two ends, and keeps the finite patterns among them.
   * The visited keys are reported whether or not they are kept.
   */
  method SampleFloats(leftBits: uint32, rightBits: uint32, budget: uint64)
    returns (step: uint64, visited: seq<uint64>, kept: seq<Sample>)
    requires 1 <= budget
    ensures var lo, hi := LowKey(leftBits, rightBits), HighKey(leftBits, rightBits);
      && step == Stride(hi - lo + 1, budget)
      && |visited| == (hi - lo) as int / step as int + 1
      && StepsFrom(visited, lo as int, step as int)
    ensures |visited| <= budget as int
    ensures forall i :: 0 <= i < |visited| ==> visited[i] <= HighKey(leftBits, rightBits)
    ensures visited[|visited| - 1] as int + step as int > HighKey(leftBits, rightBits) as int
    ensures forall i :: 0 < i < |visited| ==> visited[i] as int == visited[i - 1] as int + step as int
    ensures kept == KeptSamples(visited)
  {
    var leftOrd := FloatToOrdered(leftBits);
    var rightOrd := FloatToOrdered(rightBits);
    if leftOrd > rightOrd {
      leftOrd, rightOrd := rightOrd, leftOrd;
    }
    var totalPoints := rightOrd as uint64 - leftOrd as uint64 + 1;
    step := Stride(totalPoints, budget);
    visited, kept := WalkKeys(leftOrd as uint64, rightOrd as uint64, step);
    WalkFitsBudget(totalPoints, budget);
  }

  /**
   * The loop of the sampling pass: for (ord = lo; ord <= hi; ord += step),
   * decoding (uint32_t)ord and skipping NaN and infinite patterns. The
   * counter is 64 bits wide, so the last increment cannot wrap around.
   */
  method WalkKeys(lo: uint64, hi: uint64, step: uint64) returns (visited: seq<uint64>, kept: seq<Sample>)
    requires lo <= hi < 0x1_0000_0000
    requires 1 <= step <= 0x1_0000_0000
    ensures |visited| == (hi - lo) as int / step as int + 1
    ensures StepsFrom(visited, lo as int, step as int)
    ensures forall i :: 0 <= i < |visited| ==> visited[i] <= hi
    ensures visited[|visited| - 1] as int + step as int > hi as int
    ensures forall i :: 0 < i < |visited| ==> visited[i] as int == visited[i - 1] as int + step as int
    ensures kept == KeptSamples(visited)
  {
    visited, kept := [], [];
    var ord := lo;
    while ord <= hi
      invariant ord as int == lo as int + |visited| * step as int
      invariant StepsFrom(visited, lo as int, step as int)
      invariant |visited| == 0 || lo as int + (|visited| - 1) * step as int <= hi as int
      invariant kept == KeptSamples(visited)
      decreases hi as int + 1 - ord as int
    {
      var pickedOrd := ord;
      var bits := OrderedToFloatBits(Truncate32(pickedOrd));
      KeptSamplesAppend(visited, pickedOrd);
      StepsFromAppend(visited, lo as int, step as int);
      visited := visited + [pickedOrd];
      if !IsNonFinite(bits) {
        kept := kept + [Sample(pickedOrd, bits, UnbiasedExponent(bits))];
      }
      ord := ord + step;
    }
    assert visited[|visited| - 1] as int + step as int == ord as int by {
      assert (|visited| - 1) * step as int + step as int == |visited| * step as int;
    }
    WalkLength(hi as int - lo as int, step as int, |visited|);
    StrideWalkShape(visited, lo as int, hi as int, step as int);
  }

  /** Keys lo + i * step whose last one is at most hi: all of them are at most hi, and neighbours are one step apart. */
  lemma StrideWalkShape(visited: seq<uint64>, lo: int, hi: int, step: int)
    requires 1 <= step && 1 <= |visited|
    requires lo + (|visited| - 1) * step <= hi
    requires StepsFrom(visited, lo, step)
    ensures forall i :: 0 <= i < |visited| ==> visited[i] as int <= hi
    ensures forall i :: 0 < i < |visited| ==> visited[i] as int == visited[i - 1] as int + step
  {
    forall i | 0 <= i < |visited|
      ensures visited[i] as int <= hi
    {
      assert i * step <= (|visited| - 1) * step by {
        assert (|visited| - 1 - i) * step >= 0;
      }
    }
    forall i | 0 < i < |visited|
      ensures visited[i] as int == visited[i - 1] as int + step
    {
      assert i * step == (i - 1) * step + step;
    }
  }

  /** n keys lo, lo + step, ... with the last at most span above lo and one more step past it: n = span / step + 1. */
  lemma WalkLength(span: int, step: int, n: int)
    requires 0 <= span && 1 <= step && 1 <= n
    requires (n - 1) * step <= span < n * step
    ensures n == span / step + 1
  {
    var q := span / step;
    assert q * step <= span < (q + 1) * step;
    CancelFactor(n - 1, q + 1, step);
    CancelFactor(q, n, step);
  }

  /** A positive factor can be cancelled from a strict inequality. */
  lemma CancelFactor(a: int, b: int, c: int)
    requires 0 < c && a * c < b * c
    ensures a < b
  {
    assert (b - a) * c == b * c - a * c;
  }

  /* ----------------------------- scenarios ------------------------------ */

  /**
   * The binary32 interval [-1, 1] (patterns 0xBF80_0000 and 0x3F80_0000)
   * spans 0x7F00_0002 = 2130706434 keys, far more than the largest budget:
   * with 1000000 points the stride is 2131.
   */
  lemma UnitIntervalStride()
    ensures LowKey(0xBF80_0000, 0x3F80_0000) == 0x407F_FFFF
    ensures HighKey(0xBF80_0000, 0x3F80_0000) == 0xBF80_0000
    ensures Stride(0xBF80_0000 - 0x407F_FFFF + 1, 1_000_000) == 2131
  {
  }

  /**
   * The whole finite binary32 range, -FLT_MAX to FLT_MAX, with the start-up
   * budget of 100000: the stride is 42782 and the walk visits exactly
   * 100000 keys.
   */
  lemma FullRangeStride()
    ensures LowKey(0xFF7F_FFFF, 0x7F7F_FFFF) == 0x0080_0000
    ensures HighKey(0xFF7F_FFFF, 0x7F7F_FFFF) == 0xFF7F_FFFF
    ensures Stride(0xFF7F_FFFF - 0x0080_0000 + 1, 100_000) == 42782
    ensures (0xFF7F_FFFF - 0x0080_0000) / 42782 + 1 == 100_000
  {
  }
}
