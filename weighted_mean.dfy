/** The weighted mean behind `simulate_historical_usage` (energy usage) and
    `simulate_historical_price_data` (DeFi): a loop that accumulates the saturating sums of
    `values[i] * weights[i]` and of the weights, then divides with `safe_div`. */
module WeightedMeans {
  import opened Saturating

  /** The saturating sum of `values[i] * weights[i]`, accumulated from the left. */
  function WeightedSum(values: seq<uint64>, weights: seq<uint64>): uint64
    requires |values| == |weights|
  {
    if values == [] then 0
    else
      var n := |values| - 1;
      SafeAddU64(WeightedSum(values[..n], weights[..n]), SafeMulU64(values[n], weights[n]))
  }

  /** The saturating sum of the weights. */
  function WeightTotal(weights: seq<uint64>): uint64 {
    if weights == [] then 0
    else SafeAddU64(WeightTotal(weights[..|weights| - 1]), weights[|weights| - 1])
  }

  /** The weights both oracles use: the middle reading counts twice. */
  const WEIGHTS: seq<uint64> := [1, 2, 1]

  /** The accumulator loop shared by the two oracles, which computes the weighted mean. */
  method WeightedMean(values: seq<uint64>, weights: seq<uint64>) returns (m: uint64)
    requires |values| == |weights|
    ensures m == SafeDivU64(WeightedSum(values, weights), WeightTotal(weights))
  {
    var weightedSum: uint64 := 0;
    var weightTotal: uint64 := 0;
    for i := 0 to |values|
      invariant weightedSum == WeightedSum(values[..i], weights[..i])
      invariant weightTotal == WeightTotal(weights[..i])
    {
      assert values[..i + 1][..i] == values[..i];
      assert weights[..i + 1][..i] == weights[..i];
      weightedSum := SafeAddU64(weightedSum, SafeMulU64(values[i], weights[i]));
      weightTotal := SafeAddU64(weightTotal, weights[i]);
    }
    assert values[..|values|] == values;
    assert weights[..|weights|] == weights;
    m := SafeDivU64(weightedSum, weightTotal);
  }

  /** For three readings `[lo, mid, hi]` whose weighted sum does not saturate, the weighted
      sum is `lo + 2 mid + hi` and the weights add up to 4. */
  lemma WeightedSumOfThree(values: seq<uint64>)
    requires |values| == 3 && values[0] + 2 * values[1] + values[2] <= U64_MAX
    ensures WeightedSum(values, WEIGHTS) == values[0] + 2 * values[1] + values[2]
    ensures WeightTotal(WEIGHTS) == 4
  {
    assert values[..2][..1] == values[..1] && values[..1][..0] == [] && values[..3] == values;
    assert WEIGHTS[..2][..1] == WEIGHTS[..1] && WEIGHTS[..1][..0] == [] && WEIGHTS[..3] == WEIGHTS;
    assert WeightedSum(values[..1], WEIGHTS[..1]) == values[0];
    assert WeightedSum(values[..2], WEIGHTS[..2]) == values[0] + 2 * values[1];
    assert WeightTotal(WEIGHTS[..1]) == 1 && WeightTotal(WEIGHTS[..2]) == 3;
  }
}
