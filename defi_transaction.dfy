/** The DeFi swap oracle: validation of the swap against the balance, a weighted historical
    price, a dynamic fee, constant-product output, slippage, fees and their distribution,
    the pool state after the trade, a half-size partial trade as fallback, and an XOR of the
    reported values.

    The price loop is the shared `WeightedMean` method; `adjust_fee`, whose only mutable
    state is the fee numerator, is a function like the other expression-only operations. */
module DefiTransaction {
  import opened Saturating
  import opened NumberTheory
  import opened XorFolds
  import opened WeightedMeans

  // ---------------------------------------------------------------- validation and price

  /** `validate_swap_amount`: a positive swap that the balance covers. */
  predicate ValidSwap(swap: uint64, balance: uint64) {
    swap > 0 && swap <= balance
  }

  /** The three past prices: 50 less (floored at 0), the price, 25 more (capped). */
  function PastPrices(price: uint64): (s: seq<uint64>)
    ensures |s| == 3
  {
    [SafeSubU64(price, 50), price, SafeAddU64(price, 25)]
  }

  /** What `simulate_historical_price_data` returns: the weighted mean of the past prices. */
  function HistoricalPrice(price: uint64): uint64 {
    SafeDivU64(WeightedSum(PastPrices(price), WEIGHTS), WeightTotal(WEIGHTS))
  }

  /** `simulate_historical_price_data`: the weighted-mean loop over the three prices. */
  method SimulateHistoricalPriceData(price: uint64) returns (h: uint64)
    ensures h == HistoricalPrice(price)
  {
    h := WeightedMean(PastPrices(price), WEIGHTS);
  }

  /** From a price of 50 on, without saturation, the historical price is the price less 7:
      `(p - 50 + 2p + p + 25) / 4 = (4p - 25) / 4`. */
  lemma HistoricalPriceClosedForm(price: uint64)
    requires 50 <= price && 4 * price + 25 <= U64_MAX
    ensures HistoricalPrice(price) == price - 7
  {
    WeightedSumOfThree(PastPrices(price));
    DivModUnique(4 * price - 25, 4, price - 7, 3);
  }

  // ---------------------------------------------------------------- fee

  /** A trade larger than a tenth of the input reserve. */
  predicate LargeTrade(swap: uint64, reserve: uint64) {
    swap > reserve / 10
  }

  /** A move of more than 5% (50 per mille, the product capped at u64::MAX) away from the
      historical price, which counts as at least 1. */
  predicate Volatile(hist: uint64, price: uint64) {
    Min(Abs(price - hist) * 1000, U64_MAX) / Max(hist, 1) > 50
  }

  /** `adjust_fee`: base fee 3/1000, doubled for a large trade, plus 2 when volatile. */
  function AdjustFee(swap: uint64, reserve: uint64, hist: uint64, price: uint64): (fee: (uint64, uint64))
    ensures fee.1 == 1000
    ensures fee.0 == (if LargeTrade(swap, reserve) then 6 else 3) + (if Volatile(hist, price) then 2 else 0)
    ensures fee.0 in {3, 5, 6, 8}
  {
    var baseFeeNumerator := 3;
    var baseFeeDenominator := 1000;
    var largeTradeThreshold := SafeDivU64(reserve, 10);
    var feeNum := if swap > largeTradeThreshold then SafeMulU64(baseFeeNumerator, 2) else baseFeeNumerator;
    var priceDiff := if price > hist then SafeSubU64(price, hist) else SafeSubU64(hist, price);
    var volatilityRatio := SafeMulU64(priceDiff, 1000) / Max(hist, 1);
    var feeNum' := if volatilityRatio > 50 then SafeAddU64(feeNum, 2) else feeNum;
    (feeNum', baseFeeDenominator)
  }

  // ---------------------------------------------------------------- amounts

  /** A capped product divided by a divisor at least as large as one factor is at most the
      other factor. */
  lemma DivOfProductBound(x: nat, y: nat, d: nat, t: nat)
    requires x <= y * d && d <= t && t > 0
    ensures x / t <= y
  {
    var q := x / t;
    assert q * t <= x;
    assert y * d <= y * t by {
      assert y * t == y * d + y * (t - d);
    }
    CancelFactor(q, y, t);
  }

  /** The sum of two quotients is at most the quotient of the sum. */
  lemma SumOfQuotients(a: nat, b: nat, t: nat)
    requires t > 0
    ensures a / t + b / t <= (a + b) / t
  {
    DivModUnique(a, t, a / t, a % t);
    DivModUnique(b, t, b / t, b % t);
    var q := a / t + b / t;
    var r := a % t + b % t;
    assert a + b == t * q + r;
    if r < t {
      DivModUnique(a + b, t, q, r);
    } else {
      DivModUnique(a + b, t, q + 1, r - t);
    }
  }

  /** `effective_input_after_fee`: `input * den / (den + num)`, with 0 for a zero total; it
      never exceeds the input, even when a product saturates. */
  function EffectiveInput(input: uint64, num: uint64, den: uint64): (r: uint64)
    ensures r <= input
    ensures den + num <= U64_MAX && input * den <= U64_MAX && den + num > 0 ==> r == input * den / (den + num)
  {
    var total := SafeAddU64(den, num);
    if total == 0 then 0
    else
      var r := SafeDivU64(SafeMulU64(input, den), total);
      DivOfProductBound(SafeMulU64(input, den), input, den, total);
      r
  }

  /** `calculate_fees_collected`: `input * num / (den + num)`, with 0 for a zero total; it
      never exceeds the input. */
  function FeesCollected(input: uint64, num: uint64, den: uint64): (r: uint64)
    ensures r <= input
    ensures den + num <= U64_MAX && input * num <= U64_MAX && den + num > 0 ==> r == input * num / (den + num)
  {
    var total := SafeAddU64(den, num);
    if total == 0 then 0
    else
      var r := SafeDivU64(SafeMulU64(input, num), total);
      DivOfProductBound(SafeMulU64(input, num), input, num, total);
      r
  }

  /** Without saturation the fee and the effective input together never exceed the input. */
  lemma FeeAndEffectiveInputWithinInput(input: uint64, num: uint64, den: uint64)
    requires den + num <= U64_MAX && input * (den + num) <= U64_MAX
    ensures FeesCollected(input, num, den) + EffectiveInput(input, num, den) <= input
  {
    if den + num > 0 {
      var total := den + num;
      MulIsMonotone(den, total, input);
      MulIsMonotone(num, total, input);
      assert input * num + input * den == input * total;
      QuotientsOfParts(input * num, input * den, total, input);
    }
  }

  /** Two parts of `k * t`, each divided by `t`, add up to at most `k`. */
  lemma QuotientsOfParts(a: nat, b: nat, t: nat, k: nat)
    requires t > 0 && a + b == k * t
    ensures a / t + b / t <= k
  {
    SumOfQuotients(a, b, t);
    DivModUnique(a + b, t, k, 0);
  }

  /** `calculate_swap_output_with_fee`: the constant-product output `eff * out / (in + eff)`;
      it never exceeds the output reserve. */
  function SwapOutput(input: uint64, inReserve: uint64, outReserve: uint64, num: uint64, den: uint64): (r: uint64)
    ensures r <= outReserve
  {
    var effective := EffectiveInput(input, num, den);
    var denom := SafeAddU64(inReserve, effective);
    if denom == 0 then 0
    else
      var r := SafeDivU64(SafeMulU64(effective, outReserve), denom);
      DivOfProductBound(SafeMulU64(effective, outReserve), outReserve, effective, denom);
      r
  }

  // ---------------------------------------------------------------- slippage

  /** The output reserve left by the trade in `calculate_slippage`; 0 for an empty pool. */
  function NextOutput(input: uint64, inReserve: uint64, outReserve: uint64): (r: uint64)
    ensures r <= outReserve
  {
    var denom := SafeAddU64(inReserve, input);
    if denom == 0 then 0
    else SafeSubU64(outReserve, SafeDivU64(SafeMulU64(input, outReserve), denom))
  }

  /** `calculate_slippage`: 100 for no output reserve, an empty pool or a drained pool;
      otherwise the fall of the price in percent, which is at most 100. */
  function Slippage(input: uint64, inReserve: uint64, outReserve: uint64): (r: uint64)
    ensures r <= 100
    ensures outReserve == 0 ==> r == 100
    ensures inReserve + input == 0 ==> r == 100
    ensures NextOutput(input, inReserve, outReserve) == 0 ==> r == 100
  {
    if outReserve == 0 then 100
    else
      var initialPrice := SafeDivU64(SafeMulU64(inReserve, 1_000_000), outReserve);
      var newInputReserve := SafeAddU64(inReserve, input);
      var denom := SafeAddU64(inReserve, input);
      if denom == 0 then 100
      else
        var nextOutput := NextOutput(input, inReserve, outReserve);
        if nextOutput == 0 then 100
        else
          var newPrice := SafeDivU64(SafeMulU64(newInputReserve, 1_000_000), nextOutput);
          if newPrice < initialPrice then
            var r := SafeDivU64(SafeMulU64(SafeSubU64(initialPrice, newPrice), 100), initialPrice);
            DivOfProductBound(SafeMulU64(SafeSubU64(initialPrice, newPrice), 100), 100, initialPrice - newPrice, initialPrice);
            r
          else 0
  }

  /** `check_slippage_tolerance`. */
  predicate WithinTolerance(slippage: uint64, maxSlippage: uint64) {
    slippage <= maxSlippage
  }

  // ---------------------------------------------------------------- pool

  /** `calculate_pool_value`: the input reserve plus the output reserve priced per million. */
  function PoolValue(inReserve: uint64, outReserve: uint64, price: uint64): (r: uint64)
    ensures r >= inReserve
    ensures inReserve + outReserve * price <= U64_MAX ==> r == inReserve + outReserve * price / 1_000_000
  {
    SafeAddU64(inReserve, SafeDivU64(SafeMulU64(outReserve, price), 1_000_000))
  }

  /** `simulate_pool_state`: the swap is added to the input reserve (capped) and the output
      taken from the output reserve (floored at 0). */
  function PoolState(inReserve: uint64, outReserve: uint64, swap: uint64, output: uint64): (r: (uint64, uint64))
    ensures r.0 == Min(inReserve + swap, U64_MAX)
    ensures r.1 == Max(outReserve - output, 0)
  {
    var newInputReserve := SafeAddU64(inReserve, swap);
    var newOutputReserve := if outReserve > output then SafeSubU64(outReserve, output) else 0;
    (newInputReserve, newOutputReserve)
  }

  /** `check_pool_health`: more than 1000 of each token left. */
  predicate PoolHealthy(inReserve: uint64, outReserve: uint64) {
    inReserve > 1000 && outReserve > 1000
  }

  /** `distribute_fees`: half to the providers, 30% (of the capped triple) to the treasury,
      and the rest to the insurance fund, so the three shares add up to the fees exactly. */
  function DistributeFees(fees: uint64): (shares: (uint64, uint64, uint64))
    ensures shares.0 + shares.1 + shares.2 == fees
    ensures shares.0 == fees / 2 && shares.1 == Min(3 * fees, U64_MAX) / 10
  {
    var lpShare := SafeDivU64(fees, 2);
    var treasuryShare := SafeDivU64(SafeMulU64(fees, 3), 10);
    assert lpShare + treasuryShare <= fees by {
      DivModUnique(fees, 2, fees / 2, fees % 2);
      DivModUnique(SafeMulU64(fees, 3), 10, treasuryShare, SafeMulU64(fees, 3) % 10);
    }
    var used := SafeAddU64(lpShare, treasuryShare);
    var insuranceShare := if fees > used then SafeSubU64(fees, used) else 0;
    (lpShare, treasuryShare, insuranceShare)
  }

  // ---------------------------------------------------------------- partial trade and main

  /** `attempt_partial_trade`: the output for half the swap, or 0 when the half is 0, is
      not covered by the balance, or slips more than allowed. */
  function AttemptPartialTrade(swap: uint64, balance: uint64, inReserve: uint64, outReserve: uint64,
                               num: uint64, den: uint64, maxSlippage: uint64): (r: uint64)
    ensures swap / 2 == 0 || swap / 2 > balance ==> r == 0
    ensures !WithinTolerance(Slippage(swap / 2, inReserve, outReserve), maxSlippage) ==> r == 0
    ensures r != 0 ==> r == SwapOutput(swap / 2, inReserve, outReserve, num, den)
    ensures 0 < swap / 2 <= balance && WithinTolerance(Slippage(swap / 2, inReserve, outReserve), maxSlippage) ==>
      r == SwapOutput(swap / 2, inReserve, outReserve, num, den)
    ensures r <= outReserve
  {
    var halfAmount := SafeDivU64(swap, 2);
    if halfAmount == 0 || halfAmount > balance then 0
    else
      var outputHalf := SwapOutput(halfAmount, inReserve, outReserve, num, den);
      var slippageHalf := Slippage(halfAmount, inReserve, outReserve);
      if !WithinTolerance(slippageHalf, maxSlippage) then 0
      else outputHalf
  }

  /** The maximum slippage `main` tolerates, in percent. */
  const MAX_SLIPPAGE: uint64 := 5

  /** The seven reported values of a trade of `amount` paying `output`, XOR-ed together:
      `a ^ b ^ ... ^ g` is the left fold from 0. */
  function Report(output: uint64, slippage: uint64, amount: uint64, inReserve: uint64, outReserve: uint64,
                  price: uint64, num: uint64, den: uint64): (r: uint64)
  {
    var fees := FeesCollected(amount, num, den);
    var pool := PoolState(inReserve, outReserve, amount, output);
    var poolValue := PoolValue(pool.0, pool.1, price);
    var shares := DistributeFees(fees);
    var values := [output, slippage, fees, poolValue, shares.0, shares.1, shares.2];
    XorFoldBelow64(values);
    XorFold(values)
  }

  /** `main`: 0 for an invalid swap; when the slippage is too high or the pool would be
      unhealthy, the report of the half-size trade (0 if that fails too); otherwise the
      report of the full trade. */
  function Main(balance: uint64, inReserve: uint64, outReserve: uint64, swap: uint64, price: uint64): (r: uint64)
    ensures !ValidSwap(swap, balance) ==> r == 0
  {
    if !ValidSwap(swap, balance) then 0
    else
      var hist := HistoricalPrice(price);
      var fee := AdjustFee(swap, inReserve, hist, price);
      var output := SwapOutput(swap, inReserve, outReserve, fee.0, fee.1);
      var slippage := Slippage(swap, inReserve, outReserve);
      var pool := PoolState(inReserve, outReserve, swap, output);
      if !WithinTolerance(slippage, MAX_SLIPPAGE) || !PoolHealthy(pool.0, pool.1) then
        var partialOutput := AttemptPartialTrade(swap, balance, inReserve, outReserve, fee.0, fee.1, MAX_SLIPPAGE);
        if partialOutput == 0 then 0
        else Report(partialOutput, slippage, swap / 2, inReserve, outReserve, price, fee.0, fee.1)
      else
        Report(output, slippage, swap, inReserve, outReserve, price, fee.0, fee.1)
  }

  /** A swap of 1 has no half to fall back on: whenever the full trade is refused, `main`
      returns 0. */
  lemma MainUnitSwapFallbackFails(balance: uint64, inReserve: uint64, outReserve: uint64, price: uint64)
    requires !WithinTolerance(Slippage(1, inReserve, outReserve), MAX_SLIPPAGE)
    ensures Main(balance, inReserve, outReserve, 1, price) == 0
  {
  }

  /** A drained or empty output reserve always sends `main` to the fallback, whose half
      trade then slips 100% as well, so the result is 0. */
  lemma MainEmptyOutputReserve(balance: uint64, inReserve: uint64, swap: uint64, price: uint64)
    ensures Main(balance, inReserve, 0, swap, price) == 0
  {
  }
}
