/** The energy-usage oracle: input validation, a weighted historical-usage estimate, line
    losses, an overhead adjustment, a health check, a chain of battery, penalty, quality,
    rebate and cost adjustments, a three-level fallback that halves the consumption, and an
    XOR combination of the intermediate values.

    The weighted-sum loop of `simulate_historical_usage` is the shared `WeightedMean` method,
    proved against `HistoricalUsage`; everything else is an expression chain and is modelled as functions,
    with closed forms for the subtraction chains proved as postconditions. */
module EnergyUsage {
  import opened Saturating
  import opened NumberTheory
  import opened XorFolds
  import opened WeightedMeans

  // ---------------------------------------------------------------- validation

  /** `validate_inputs`: at least one device, and no more consumed than produced. */
  function ValidateInputs(produced: uint64, consumed: uint64, devices: uint64): (ok: bool)
    ensures ok <==> devices != 0 && consumed <= produced
  {
    if devices == 0 then false
    else if consumed > produced then false
    else true
  }

  // ---------------------------------------------------------------- historical usage

  /** The three past readings: 100 less (floored at 0), the reading itself, 50 more. */
  function PastValues(consumed: uint64): (s: seq<uint64>)
    ensures |s| == 3
  {
    [SafeSubU64(consumed, 100), consumed, SafeAddU64(consumed, 50)]
  }

  /** What `simulate_historical_usage` returns: the weighted mean of the past readings. */
  function HistoricalUsage(consumed: uint64): uint64 {
    SafeDivU64(WeightedSum(PastValues(consumed), WEIGHTS), WeightTotal(WEIGHTS))
  }

  /** `simulate_historical_usage`: the weighted-mean loop over the three readings. */
  method SimulateHistoricalUsage(consumed: uint64) returns (h: uint64)
    ensures h == HistoricalUsage(consumed)
  {
    h := WeightedMean(PastValues(consumed), WEIGHTS);
  }

  /** Without saturation the estimate is `(sat(c - 100) + 3c + 50) / 4`, and from 100 on it
      is `c - 13`. */
  lemma HistoricalUsageClosedForm(consumed: uint64)
    requires 4 * consumed + 50 <= U64_MAX
    ensures HistoricalUsage(consumed) == (Max(consumed - 100, 0) + 3 * consumed + 50) / 4
    ensures consumed >= 100 ==> HistoricalUsage(consumed) == consumed - 13
  {
    WeightedSumOfThree(PastValues(consumed));
    if consumed >= 100 {
      DivModUnique(4 * consumed - 50, 4, consumed - 13, 2);
    }
  }

  // ---------------------------------------------------------------- losses, overhead, health

  /** `compute_line_losses`: 2% of the production per full thousand of historical usage. */
  function LineLosses(produced: uint64, hist: uint64): (r: uint64)
    ensures hist < 1000 ==> r == 0
    ensures 2 * (hist / 1000) * produced <= U64_MAX ==> r == produced * (2 * (hist / 1000)) / 100
  {
    var lossFactor := if hist == 0 then 0 else SafeMulU64(SafeDivU64(hist, 1000), 2);
    SafeDivU64(SafeMulU64(produced, lossFactor), 100)
  }

  /** `compute_overhead_adjustment`: 2% overhead on top of the consumption, and the layered
      subtractions for small values only lift them to 8. */
  function OverheadAdjustment(consumed: uint64): (r: uint64)
    ensures r == Max(SafeAddU64(consumed, SafeDivU64(SafeMulU64(consumed, 2), 100)), 8)
    ensures 2 * consumed <= U64_MAX ==> r == Max(consumed + (2 * consumed) / 100, 8)
    ensures r >= consumed
  {
    var overhead := SafeDivU64(SafeMulU64(consumed, 2), 100);
    var adjusted := SafeAddU64(consumed, overhead);
    if adjusted < 10 then
      var delta := SafeSubU64(10, adjusted);
      var deltaExtra := SafeSubU64(delta, 2);
      var pseudoAdjusted := SafeAddU64(adjusted, deltaExtra);
      SafeSubU64(SafeAddU64(pseudoAdjusted, 5), 5)
    else
      adjusted
  }

  /** `check_system_health`: more than 100 left after the adjusted consumption and the
      losses, which with exact arithmetic is a strict inequality on the sum. */
  function SystemHealthy(produced: uint64, adjusted: uint64, losses: uint64): (ok: bool)
    ensures ok <==> produced > adjusted + losses + 100
  {
    var remainder := SafeSubU64(produced, adjusted);
    var net := SafeSubU64(remainder, losses);
    net > 100
  }

  /** `per_device_metric`: the value shared among at least one device. */
  function PerDeviceMetric(value: uint64, devices: uint64): (r: uint64)
    ensures r == value / Max(devices, 1) && r <= value
  {
    DivIsAtMost(value, Max(devices, 1));
    SafeDivU64(value, Max(devices, 1))
  }

  // ---------------------------------------------------------------- the adjustment chain

  /** `simulate_battery`: draw a tenth of the historical usage, inject half of it back and
      lose the rest as overhead; the battery never adds energy. */
  function SimulateBattery(net: uint64, hist: uint64): (r: uint64)
    ensures r <= net
    ensures net >= hist / 10 ==> r == Max(net - 2 * (hist / 10 - hist / 10 / 2), 0)
  {
    var draw := SafeDivU64(hist, 10);
    var injection := SafeDivU64(draw, 2);
    var overhead := SafeSubU64(draw, injection);
    var afterDraw := SafeSubU64(net, draw);
    var afterInjection := SafeAddU64(afterDraw, injection);
    SafeSubU64(afterInjection, overhead)
  }

  /** `apply_peak_usage_penalty`: five times the adjusted consumption above 100, or the
      shortfall below 85, is subtracted; the penalty never adds energy. */
  function PeakUsagePenalty(net: uint64, adjusted: uint64): (r: uint64)
    ensures r <= net
    ensures 5 * adjusted <= U64_MAX && 5 * adjusted > 100 ==> r == Max(net - (5 * adjusted - 100), 0)
    ensures 5 * adjusted <= 100 ==> r == Max(net - Max(85 - 5 * adjusted, 0), 0)
  {
    var multiplied := SafeMulU64(adjusted, 5);
    var penaltyBase :=
      if multiplied > 100 then SafeSubU64(multiplied, 100)
      else
        var temp := SafeSubU64(100, multiplied);
        var temp2 := SafeSubU64(temp, 10);
        SafeSubU64(temp2, 5);
    SafeSubU64(net, penaltyBase)
  }

  /** `apply_regulatory_adjustments`: the steps 20, 5 and 20 - 5 remove 40 in total. */
  function RegulatoryAdjustments(cost: uint64): (r: uint64)
    ensures r == Max(cost - 40, 0)
  {
    var adjustmentA := 20;
    var adjustmentB := 5;
    var adjustmentC := SafeSubU64(adjustmentA, adjustmentB);
    var afterA := SafeSubU64(cost, adjustmentA);
    var afterB := SafeSubU64(afterA, adjustmentB);
    SafeSubU64(afterB, adjustmentC)
  }

  /** `apply_quality_factor`: the deduction is half the per-device historical usage plus 5
      (the +10 -5 and +5 -5 steps never saturate). */
  function QualityFactor(net: uint64, hist: uint64, devices: uint64): (r: uint64)
    ensures devices == 0 ==> r == Max(net - 5, 0)
    ensures devices != 0 ==> r == Max(net - (hist / devices / 2 + 5), 0)
    ensures r <= net
  {
    var baseQ := if devices == 0 then 0 else SafeDivU64(hist, devices);
    var halfBase := SafeDivU64(baseQ, 2);
    var withFixedSub := SafeSubU64(SafeAddU64(halfBase, 10), 5);
    var qualityDeduction := SafeSubU64(SafeAddU64(withFixedSub, 5), 5);
    SafeSubU64(net, qualityDeduction)
  }

  /** `apply_off_peak_rebate`: 100 off above 2000, otherwise 70 off (floored at 0). */
  function OffPeakRebate(x: uint64): (r: uint64)
    ensures x > 2000 ==> r == x - 100
    ensures x <= 2000 ==> r == Max(x - 70, 0)
  {
    if x > 2000 then SafeSubU64(x, 100)
    else
      var step1 := SafeSubU64(x, 50);
      var step2 := SafeSubU64(step1, 20);
      SafeSubU64(SafeAddU64(step2, 5), 5)
  }

  /** `apply_auditing_adjustments`: three layers remove 30 in total. */
  function AuditingAdjustments(cost: uint64): (r: uint64)
    ensures r == Max(cost - 30, 0)
  {
    var after1 := SafeSubU64(cost, 10);
    var after2 := SafeSubU64(after1, 15);
    SafeSubU64(after2, 5)
  }

  // ---------------------------------------------------------------- one pass of the pipeline

  /** The intermediate values of one pass of the pipeline for a given consumption; `main`
      runs it on the consumption, the fallback on its half, quarter and eighth. */
  datatype Pass = Pass(
    hist: uint64, losses: uint64, overhead: uint64, net: uint64, battery: uint64,
    penalty: uint64, quality: uint64, rebate: uint64, finalCost: uint64)

  function RunPass(produced: uint64, consumed: uint64, devices: uint64, price: uint64): Pass {
    var hist := HistoricalUsage(consumed);
    var losses := LineLosses(produced, hist);
    var overhead := OverheadAdjustment(consumed);
    var net := SafeSubU64(SafeSubU64(produced, overhead), losses);
    var battery := SimulateBattery(net, hist);
    var penalty := PeakUsagePenalty(battery, overhead);
    var quality := QualityFactor(penalty, hist, devices);
    var rebate := OffPeakRebate(quality);
    var costPerDevice := SafeMulU64(PerDeviceMetric(rebate, devices), price);
    var finalCost := AuditingAdjustments(RegulatoryAdjustments(costPerDevice));
    Pass(hist, losses, overhead, net, battery, penalty, quality, rebate, finalCost)
  }

  /** The pass is healthy exactly when `check_system_health` accepts its values. */
  predicate Healthy(produced: uint64, pass: Pass) {
    SystemHealthy(produced, pass.overhead, pass.losses)
  }

  /** Along the pipeline the energy only goes down, and the final cost is the per-device
      cost less 70 (the regulatory 40 and the auditing 30). */
  lemma PassDecreases(produced: uint64, consumed: uint64, devices: uint64, price: uint64)
    ensures var pass := RunPass(produced, consumed, devices, price);
      && pass.rebate <= pass.quality <= pass.penalty <= pass.battery <= pass.net <= produced
      && pass.finalCost == Max(SafeMulU64(pass.rebate / Max(devices, 1), price) - 70, 0)
  {
  }

  /** A healthy pass leaves more than 100 of net energy. */
  lemma HealthyPassHasNetEnergy(produced: uint64, consumed: uint64, devices: uint64, price: uint64)
    requires Healthy(produced, RunPass(produced, consumed, devices, price))
    ensures RunPass(produced, consumed, devices, price).net > 100
  {
  }

  // ---------------------------------------------------------------- fallback and main

  /** One fallback level: the XOR of six values of the pass, if the pass is healthy. */
  function FallbackLevel(produced: uint64, level: uint64, devices: uint64, price: uint64): (r: Option<uint64>)
    ensures r.Some? <==> Healthy(produced, RunPass(produced, level, devices, price))
  {
    var pass := RunPass(produced, level, devices, price);
    if !Healthy(produced, pass) then None
    else
      var values := [pass.net, pass.finalCost, level, pass.losses, pass.rebate, pass.quality];
      XorFoldBelow64(values);
      Some(XorFold(values))
  }

  /** `partial_fallback`: the half, then the quarter, then the eighth of the consumption,
      with 0 when none of the three passes is healthy. */
  function PartialFallback(produced: uint64, consumed: uint64, devices: uint64, price: uint64): (r: uint64) {
    var half := SafeDivU64(consumed, 2);
    var quarter := SafeDivU64(half, 2);
    var eighth := SafeDivU64(quarter, 2);
    match FallbackLevel(produced, half, devices, price)
    case Some(v) => v
    case None =>
      match FallbackLevel(produced, quarter, devices, price)
      case Some(v) => v
      case None => FallbackLevel(produced, eighth, devices, price).UnwrapOr(0)
  }

  /** The fallback answers with the first healthy level among `consumed / 2^k`, k = 1, 2, 3,
      and with 0 when there is none. */
  lemma PartialFallbackFirstHealthy(produced: uint64, consumed: uint64, devices: uint64, price: uint64, k: nat)
    requires 1 <= k <= 3
    requires forall j :: 1 <= j < k ==> FallbackLevel(produced, Halve(consumed, j), devices, price).None?
    ensures FallbackLevel(produced, Halve(consumed, k), devices, price).Some? ==>
      PartialFallback(produced, consumed, devices, price) == FallbackLevel(produced, Halve(consumed, k), devices, price).value
    ensures k == 3 && FallbackLevel(produced, Halve(consumed, 3), devices, price).None? ==>
      PartialFallback(produced, consumed, devices, price) == 0
  {
    assert Halve(consumed, 1) == consumed / 2;
    assert Halve(consumed, 2) == consumed / 2 / 2;
    assert Halve(consumed, 3) == consumed / 2 / 2 / 2;
  }

  /** `main`: 0 for invalid inputs, the fallback when the full pass is unhealthy, and
      otherwise the XOR of seven values of the full pass. */
  function Main(produced: uint64, consumed: uint64, devices: uint64, price: uint64): (r: uint64)
    ensures !ValidateInputs(produced, consumed, devices) ==> r == 0
    ensures ValidateInputs(produced, consumed, devices) && !Healthy(produced, RunPass(produced, consumed, devices, price)) ==>
      r == PartialFallback(produced, consumed, devices, price)
  {
    if !ValidateInputs(produced, consumed, devices) then 0
    else
      var pass := RunPass(produced, consumed, devices, price);
      if !Healthy(produced, pass) then PartialFallback(produced, consumed, devices, price)
      else
        var values := [pass.net, pass.losses, pass.overhead, pass.finalCost, pass.penalty, pass.quality, pass.rebate];
        XorFoldBelow64(values);
        XorFold(values)
  }

  /** For valid inputs whose full pass is healthy, `main` is the XOR of the net energy, the
      losses, the adjusted consumption, the final cost, and the energy after the penalty,
      the quality factor and the rebate, in that order. */
  lemma MainHealthy(produced: uint64, consumed: uint64, devices: uint64, price: uint64)
    requires ValidateInputs(produced, consumed, devices)
    requires Healthy(produced, RunPass(produced, consumed, devices, price))
    ensures var pass := RunPass(produced, consumed, devices, price);
      Main(produced, consumed, devices, price) ==
      XorFold([pass.net, pass.losses, pass.overhead, pass.finalCost, pass.penalty, pass.quality, pass.rebate])
  {
  }
}
