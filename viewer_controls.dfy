/**
 * The viewer's interactive state and its keyboard controls: the format
 * shown (binary32 or binary64), the point budget of the sampler, and the
 * camera. The budget starts at 100000; 'D' doubles it up to a cap of
 * 1000000 and 'S' halves it down to a floor of 1000, so it always stays
 * within [1000, 1000000] and in particular never reaches 0, which the
 * stride computation divides by.
 */
module ViewerControls {
  import opened Words
  import opened FloatSampler

  const InitialBudget: uint64 := 100_000
  const MinBudget: uint64 := 1_000
  const MaxBudget: uint64 := 1_000_000

  /** The largest finite binary32 value, (2^24 - 1) * 2^104: the initial half-width of the view. */
  const FloatMax: real := 340282346638528859811704183484516925440.0

  predicate BudgetInRange(budget: uint64) {
    MinBudget <= budget <= MaxBudget
  }

  /* ------------------------------ budget -------------------------------- */

  /**
   * The 'D' key: the smaller of twice the budget and 1000000. The doubling
   * is a 64-bit unsigned multiplication and wraps modulo 2^64.
   */
  function DoubledBudget(budget: uint64): (r: uint64)
    ensures r <= MaxBudget
    ensures BudgetInRange(budget) ==> BudgetInRange(r) && budget <= r
    ensures 2 * budget as int <= MaxBudget as int ==> r as int == 2 * budget as int
    ensures MaxBudget as int <= 2 * budget as int < 0x1_0000_0000_0000_0000 ==> r == MaxBudget
  {
    var doubled := ((budget as int * 2) % 0x1_0000_0000_0000_0000) as uint64;
    if doubled < MaxBudget then doubled else MaxBudget
  }

  /** The 'S' key: the larger of 1000 and half the budget, rounded down. */
  function HalvedBudget(budget: uint64): (r: uint64)
    ensures MinBudget <= r
    ensures BudgetInRange(budget) ==> BudgetInRange(r) && r <= budget
    ensures 2 * MinBudget <= budget ==> r == budget / 2
    ensures budget < 2 * MinBudget ==> r == MinBudget
  {
    var halved := budget / 2;
    if MinBudget < halved then halved else MinBudget
  }

  /** The budget after one key press; keys other than 'D' and 'S' leave it alone. */
  function BudgetAfterKey(budget: uint64, key: char): (r: uint64)
    ensures BudgetInRange(budget) ==> BudgetInRange(r)
    ensures BudgetInRange(budget) && key == 'D' ==> budget <= r
    ensures BudgetInRange(budget) && key == 'S' ==> r <= budget
    ensures key != 'D' && key != 'S' ==> r == budget
  {
    if key == 'D' then DoubledBudget(budget)
    else if key == 'S' then HalvedBudget(budget)
    else budget
  }

  /** The budget after a sequence of key presses, first press first. */
  function BudgetAfterKeys(budget: uint64, keys: seq<char>): (r: uint64)
    ensures (forall i :: 0 <= i < |keys| ==> keys[i] != 'D' && keys[i] != 'S') ==> r == budget
    decreases |keys|
  {
    if keys == [] then budget else BudgetAfterKeys(BudgetAfterKey(budget, keys[0]), keys[1..])
  }

  /** Whatever keys are pressed, a budget in [1000, 1000000] stays there. */
  lemma {:induction false} BudgetStaysInRange(budget: uint64, keys: seq<char>)
    requires BudgetInRange(budget)
    ensures BudgetInRange(BudgetAfterKeys(budget, keys))
    decreases |keys|
  {
    if keys != [] {
      BudgetStaysInRange(BudgetAfterKey(budget, keys[0]), keys[1..]);
    }
  }

  /** From the start-up budget, every sequence of key presses leaves a budget the sampler accepts. */
  lemma ReachableBudgetsInRange(keys: seq<char>)
    ensures 1 <= BudgetAfterKeys(InitialBudget, keys)
    ensures BudgetInRange(BudgetAfterKeys(InitialBudget, keys))
  {
    BudgetStaysInRange(InitialBudget, keys);
  }

  /** Pressing 'D' only ever adds keys to the budget and pressing 'S' only ever removes them. */
  lemma {:induction false} BudgetMonotoneInKeys(budget: uint64, keys: seq<char>)
    requires BudgetInRange(budget)
    ensures (forall i :: 0 <= i < |keys| ==> keys[i] != 'S') ==> budget <= BudgetAfterKeys(budget, keys)
    ensures (forall i :: 0 <= i < |keys| ==> keys[i] != 'D') ==> BudgetAfterKeys(budget, keys) <= budget
    decreases |keys|
  {
    if keys != [] {
      var next := BudgetAfterKey(budget, keys[0]);
      BudgetMonotoneInKeys(next, keys[1..]);
      assert forall i :: 0 <= i < |keys[1..]| ==> keys[1..][i] == keys[i + 1];
    }
  }

  /* ------------------------------ viewer -------------------------------- */

  /**
   * The window's state: which format is shown, the sampler's point budget,
   * and the camera (centre and half-width of the visible interval, in
   * world units).
   */
  class Viewer {
    var showDoubleMode: bool
    var maxPointsToDraw: uint64
    var viewCenter: real
    var viewHalfWidth: real

    predicate Valid()
      reads this
    {
      BudgetInRange(maxPointsToDraw)
    }

    /** Start-up state: binary32 shown, budget 100000, view centred on 0 and as wide as the binary32 range. */
    constructor ()
      ensures Valid()
      ensures !showDoubleMode && maxPointsToDraw == InitialBudget
      ensures viewCenter == 0.0 && viewHalfWidth == FloatMax
    {
      showDoubleMode := false;
      maxPointsToDraw := InitialBudget;
      viewCenter := 0.0;
      viewHalfWidth := FloatMax;
    }

    /**
     * A key press: 'F' switches format, 'R' resets the camera to centre 0
     * and half-width 10, 'D' and 'S' change the budget. Any other key
     * changes nothing.
     */
    method OnKeyDown(key: char)
      requires Valid()
      modifies this
      ensures Valid()
      ensures showDoubleMode == (if key == 'F' then !old(showDoubleMode) else old(showDoubleMode))
      ensures maxPointsToDraw == BudgetAfterKey(old(maxPointsToDraw), key)
      ensures key == 'D' ==> old(maxPointsToDraw) <= maxPointsToDraw
      ensures key == 'S' ==> maxPointsToDraw <= old(maxPointsToDraw)
      ensures key == 'R' ==> viewCenter == 0.0 && viewHalfWidth == 10.0
      ensures key != 'R' ==> viewCenter == old(viewCenter) && viewHalfWidth == old(viewHalfWidth)
    {
      if key == 'F' {
        showDoubleMode := !showDoubleMode;
      } else if key == 'R' {
        viewCenter := 0.0;
        viewHalfWidth := 10.0;
      } else if key == 'D' {
        maxPointsToDraw := DoubledBudget(maxPointsToDraw);
      } else if key == 'S' {
        maxPointsToDraw := HalvedBudget(maxPointsToDraw);
      }
    }

    /**
     * The sampling part of a frame, given the bit patterns of the two ends
     * of the visible interval: in binary32 mode the stride walk runs with
     * the current budget; in binary64 mode nothing is sampled.
     */
    method Render(leftBits: uint32, rightBits: uint32) returns (visited: seq<uint64>, kept: seq<Sample>)
      requires Valid()
      ensures showDoubleMode ==> visited == [] && kept == []
      ensures !showDoubleMode ==>
        && 1 <= |visited| <= maxPointsToDraw as int
        && visited[0] == LowKey(leftBits, rightBits)
        && (forall i :: 0 <= i < |visited| ==> visited[i] <= HighKey(leftBits, rightBits))
        && kept == KeptSamples(visited)
      ensures !showDoubleMode ==>
        var lo, hi := LowKey(leftBits, rightBits), HighKey(leftBits, rightBits);
        var step := Stride(hi - lo + 1, maxPointsToDraw);
        && |visited| == (hi - lo) as int / step as int + 1
        && StepsFrom(visited, lo as int, step as int)
    {
      if !showDoubleMode {
        var step;
        step, visited, kept := SampleFloats(leftBits, rightBits, maxPointsToDraw);
      } else {
        visited, kept := [], [];
      }
    }
  }
}
