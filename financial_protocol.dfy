/** The financial-protocol oracle: a 200% collateral check, compound interest computed slice
    by slice, staking rewards compounded on big integers, a liquidity-pool simulation with
    decay, a performance fee and re-staking, a two-stage fallback that halves the loan, and
    an XOR combination of the 32-bit results.

    The three loops are methods, each proved equal to a recursive function that applies one
    loop iteration per step; closed forms for those functions are proved as lemmas. */
module FinancialProtocol {
  import opened Saturating
  import opened NumberTheory
  import opened XorFolds

  /** The staking reward rate `main` uses, in basis points. */
  const STAKING_REWARD_BPS: uint32 := 600
  /** The time slices of `main`'s interest and staking computations. */
  const MAIN_SLICES: uint32 := 5
  /** The time slices of the fallback's interest and staking computations. */
  const FALLBACK_SLICES: uint32 := 3

  // ---------------------------------------------------------------- loan health

  /** `validate_loan_health`: a nonzero loan whose collateral, times 100 and clamped at
      u32::MAX, is at least 200 times the borrowed amount (a 200% ratio). */
  function ValidateLoanHealth(collateral: uint32, borrowed: uint32): (ok: bool)
    ensures ok <==> borrowed != 0 && Min(collateral * 100, U32_MAX) >= 200 * borrowed
  {
    if borrowed == 0 then false
    else
      var ratio := SafeDivU32(SafeMulU32(collateral, 100), borrowed);
      RatioAtLeast(SafeMulU32(collateral, 100), borrowed, 200);
      ratio >= 200
  }

  /** The floor of `x / b` is at least `k` exactly when `x` is at least `k * b`. */
  lemma RatioAtLeast(x: nat, b: nat, k: nat)
    requires b > 0
    ensures x / b >= k <==> x >= k * b
  {
    if x / b >= k {
      MulIsMonotone(k, x / b, b);
    } else {
      MulIsMonotone(x / b + 1, k, b);
    }
  }

  // ---------------------------------------------------------------- compound interest

  /** The principal after `n` slices at a per-slice rate: each slice adds principal * rate,
      both operations clamped at u32::MAX. */
  function Compounded(principal: uint32, rate: uint32, n: nat): uint32
    decreases n
  {
    if n == 0 then principal
    else
      var p := Compounded(principal, rate, n - 1);
      SafeAddU32(p, SafeMulU32(p, rate))
  }

  /** One clamped compounding step from the clamped value of an exact amount is the clamped
      value of the exact amount's growth. */
  lemma ClampedGrowthStep(q: uint32, rate: uint32, exact: nat)
    requires q == Min(exact, U32_MAX)
    ensures SafeAddU32(q, SafeMulU32(q, rate)) == Min(exact * (rate + 1), U32_MAX)
  {
    if exact >= U32_MAX {
      MulIsMonotone(1, rate + 1, exact);
    } else {
      assert exact * (rate + 1) == exact + exact * rate;
    }
  }

  /** Compounding is growth by (1 + rate)^n, clamped at u32::MAX. */
  lemma {:induction false} CompoundedClosedForm(principal: uint32, rate: uint32, n: nat)
    ensures Compounded(principal, rate, n) == Min(principal * Pow(rate + 1, n), U32_MAX)
    decreases n
  {
    if n > 0 {
      CompoundedClosedForm(principal, rate, n - 1);
      MulRegroup(principal, rate + 1, Pow(rate + 1, n - 1));
      ClampedGrowthStep(Compounded(principal, rate, n - 1), rate, principal * Pow(rate + 1, n - 1));
    }
  }

  /** Compounding never lowers the principal. */
  lemma PrincipalNeverDecreases(principal: uint32, rate: uint32, n: nat)
    ensures Compounded(principal, rate, n) >= principal
  {
    CompoundedClosedForm(principal, rate, n);
    PowAtLeastOne(rate + 1, n);
    MulIsMonotone(1, Pow(rate + 1, n), principal);
  }

  /** The per-slice rate: the annual rate split over the slices, truncated to a whole
      multiple of 10000 basis points. */
  function SliceRate(annualBps: uint32, slices: uint32): uint32 {
    SafeDivU32(SafeDivU32(annualBps, slices), 10000)
  }

  /** `compute_compound_interest`: 0 for no slices; otherwise the growth of the principal
      over the slices, floored at 0. */
  function CompoundInterest(borrowed: uint32, annualBps: uint32, slices: uint32): uint32 {
    if slices == 0 then 0
    else SafeSubU32(Compounded(borrowed, SliceRate(annualBps, slices), slices), borrowed)
  }

  /** The loop of `compute_compound_interest`. */
  method ComputeCompoundInterest(borrowed: uint32, annualBps: uint32, slices: uint32) returns (interest: uint32)
    ensures interest == CompoundInterest(borrowed, annualBps, slices)
  {
    if slices == 0 {
      return 0;
    }
    var principal := borrowed;
    var fractionBps := SafeDivU32(annualBps, slices);
    for i := 0 to slices
      invariant principal == Compounded(borrowed, SliceRate(annualBps, slices), i)
    {
      var rate := SafeDivU32(fractionBps, 10000);
      var sliceInterest := SafeMulU32(principal, rate);
      principal := SafeAddU32(principal, sliceInterest);
    }
    interest := SafeSubU32(principal, borrowed);
  }

  /** The interest is the clamped growth minus the principal. */
  lemma CompoundInterestClosedForm(borrowed: uint32, annualBps: uint32, slices: uint32)
    requires slices > 0
    ensures CompoundInterest(borrowed, annualBps, slices) ==
      Min(borrowed * Pow(SliceRate(annualBps, slices) + 1, slices), U32_MAX) - borrowed
  {
    CompoundedClosedForm(borrowed, SliceRate(annualBps, slices), slices);
    PrincipalNeverDecreases(borrowed, SliceRate(annualBps, slices), slices);
  }

  /** A whole-slice rate below 10000 basis points truncates to 0, and no interest accrues. */
  lemma NoInterestBelowFullRate(borrowed: uint32, annualBps: uint32, slices: uint32)
    requires slices == 0 || annualBps / slices < 10000
    ensures CompoundInterest(borrowed, annualBps, slices) == 0
  {
    if slices > 0 {
      assert SliceRate(annualBps, slices) == 0;
      CompoundedClosedForm(borrowed, 0, slices);
      PowOfOne(slices);
    }
  }

  // ---------------------------------------------------------------- staking rewards

  /** The partial rate of each staking iteration: the reward rate in whole multiples of
      10000 basis points, divided by the slices. */
  function PartialRate(rewardBps: uint32, slices: uint32): nat
    requires slices > 0
  {
    rewardBps / 10000 / slices
  }

  /** The staked amount after `n` of the loop's iterations, on unbounded integers: each adds
      the current amount times the partial rate `reward / 10000 / slices`. */
  function StakedAfter(staked: nat, rewardBps: uint32, slices: uint32, n: nat): nat
    requires n <= slices
    decreases n
  {
    if n == 0 then staked
    else
      var current := StakedAfter(staked, rewardBps, slices, n - 1);
      current + current * PartialRate(rewardBps, slices)
  }

  /** One growth step on a product: `s * p` grown by `rate` is `s` times `(rate + 1) * p`. */
  lemma GrowthStep(s: nat, rate: nat, p: nat)
    ensures s * p + (s * p) * rate == s * ((rate + 1) * p)
  {
    MulRegroup(s, rate + 1, p);
  }

  /** The staked amount grows by (1 + partial rate)^n. */
  lemma {:induction false} StakedAfterClosedForm(staked: nat, rewardBps: uint32, slices: uint32, n: nat)
    requires 0 < slices && n <= slices
    ensures StakedAfter(staked, rewardBps, slices, n) == staked * Pow(PartialRate(rewardBps, slices) + 1, n)
    decreases n
  {
    if n > 0 {
      var rate := PartialRate(rewardBps, slices);
      StakedAfterClosedForm(staked, rewardBps, slices, n - 1);
      GrowthStep(staked, rate, Pow(rate + 1, n - 1));
    }
  }

  /** `try_into::<u32>().unwrap_or(u32::MAX)` on a big integer. */
  function ToU32OrMax(x: nat): (r: uint32)
    ensures r == Min(x, U32_MAX)
  {
    if x <= U32_MAX then x else U32_MAX
  }

  /** The stake the staking computation starts from: collateral * ratio / 100. */
  function Staked(collateral: uint32, stakeRatio: uint32): nat {
    collateral * stakeRatio / 100
  }

  /** `compute_staking_rewards_bigint`: the growth of the stake over the slices, converted
      to u32 with saturation. */
  function StakingRewards(collateral: uint32, stakeRatio: uint32, rewardBps: uint32, slices: uint32): uint32 {
    var staked := Staked(collateral, stakeRatio);
    var current := StakedAfter(staked, rewardBps, slices, slices);
    var reward := if current > staked then current - staked else 0;
    ToU32OrMax(reward)
  }

  /** The loop of `compute_staking_rewards_bigint`. */
  method ComputeStakingRewards(collateral: uint32, stakeRatio: uint32, rewardBps: uint32, slices: uint32) returns (r: uint32)
    ensures r == StakingRewards(collateral, stakeRatio, rewardBps, slices)
  {
    var staked := collateral * stakeRatio / 100;
    var current := staked;
    for i := 0 to slices
      invariant current == StakedAfter(staked, rewardBps, slices, i)
    {
      var partialRate := PartialRate(rewardBps, slices);
      var yieldPart := current * partialRate;
      current := current + yieldPart;
    }
    var reward := if current > staked then current - staked else 0;
    r := ToU32OrMax(reward);
  }

  /** The reward is the stake's growth by (1 + partial rate)^slices, less the stake,
      clamped at u32::MAX. */
  lemma StakingRewardsClosedForm(collateral: uint32, stakeRatio: uint32, rewardBps: uint32, slices: uint32)
    requires slices > 0
    ensures StakingRewards(collateral, stakeRatio, rewardBps, slices) ==
      Min(Staked(collateral, stakeRatio) * Pow(PartialRate(rewardBps, slices) + 1, slices) - Staked(collateral, stakeRatio), U32_MAX)
  {
    var staked := Staked(collateral, stakeRatio);
    var growth := Pow(PartialRate(rewardBps, slices) + 1, slices);
    StakedAfterClosedForm(staked, rewardBps, slices, slices);
    PowAtLeastOne(PartialRate(rewardBps, slices) + 1, slices);
    MulIsMonotone(1, growth, staked);
    assert StakedAfter(staked, rewardBps, slices, slices) >= staked;
  }

  /** With no slices, or a reward rate below 10000 basis points per slice, the partial rate
      truncates to 0 and there is no reward. */
  lemma NoRewardBelowFullRate(collateral: uint32, stakeRatio: uint32, rewardBps: uint32, slices: uint32)
    requires slices == 0 || rewardBps < 10000 * slices
    ensures StakingRewards(collateral, stakeRatio, rewardBps, slices) == 0
  {
    if slices > 0 {
      var perSlice := rewardBps / 10000;
      assert perSlice < slices;
      assert PartialRate(rewardBps, slices) == 0;
      StakingRewardsClosedForm(collateral, stakeRatio, rewardBps, slices);
      PowOfOne(slices);
    }
  }

  /** `main`'s rate of 600 basis points earns nothing over its 5 slices or the fallback's 3. */
  lemma MainStakingEarnsNothing(collateral: uint32, stakeRatio: uint32)
    ensures StakingRewards(collateral, stakeRatio, STAKING_REWARD_BPS, MAIN_SLICES) == 0
    ensures StakingRewards(collateral, stakeRatio, STAKING_REWARD_BPS, FALLBACK_SLICES) == 0
  {
    NoRewardBelowFullRate(collateral, stakeRatio, STAKING_REWARD_BPS, MAIN_SLICES);
    NoRewardBelowFullRate(collateral, stakeRatio, STAKING_REWARD_BPS, FALLBACK_SLICES);
  }

  // ---------------------------------------------------------------- liquidity pool

  /** One block of the pool: decay, then the performance fee, each a whole-multiple rate of
      the current shares; fewer than 100 shares left get half of themselves re-staked. */
  function PoolStep(shares: uint32, decayBps: uint32, feeBps: uint32): uint32 {
    var decayRate := SafeDivU32(decayBps, 10000);
    var afterDecay := SafeSubU32(shares, SafeMulU32(shares, decayRate));
    var feeRate := SafeDivU32(feeBps, 10000);
    var afterFee := SafeSubU32(afterDecay, SafeMulU32(afterDecay, feeRate));
    if afterFee < 100 then SafeAddU32(afterFee, SafeDivU32(afterFee, 2)) else afterFee
  }

  /** The shares after `n` blocks. */
  function PoolShares(shares: uint32, n: nat, decayBps: uint32, feeBps: uint32): uint32
    decreases n
  {
    if n == 0 then shares else PoolStep(PoolShares(shares, n - 1, decayBps, feeBps), decayBps, feeBps)
  }

  /** The loop of `simulate_liquidity_pool_shares_complex`. */
  method SimulateLiquidityPoolShares(shares: uint32, slices: uint32, decayBps: uint32, feeBps: uint32) returns (r: uint32)
    ensures r == PoolShares(shares, slices, decayBps, feeBps)
  {
    if slices == 0 {
      return shares;
    }
    var current := shares;
    for i := 0 to slices
      invariant current == PoolShares(shares, i, decayBps, feeBps)
    {
      var decayRate := SafeDivU32(decayBps, 10000);
      var decayAmount := SafeMulU32(current, decayRate);
      current := SafeSubU32(current, decayAmount);
      var feeRate := SafeDivU32(feeBps, 10000);
      var feeAmount := SafeMulU32(current, feeRate);
      current := SafeSubU32(current, feeAmount);
      if current < 100 {
        var halfStake := SafeDivU32(current, 2);
        current := SafeAddU32(current, halfStake);
      }
    }
    r := current;
  }

  /** Rates below 10000 basis points truncate to 0: a block leaves 100 or more shares alone
      and re-stakes half of fewer. */
  lemma PoolStepBelowFullRates(shares: uint32, decayBps: uint32, feeBps: uint32)
    requires decayBps < 10000 && feeBps < 10000
    ensures shares >= 100 ==> PoolStep(shares, decayBps, feeBps) == shares
    ensures shares < 100 ==> PoolStep(shares, decayBps, feeBps) == shares + shares / 2
  {
  }

  /** A pool of at least 100 shares with rates below 10000 basis points never changes. */
  lemma {:induction false} PoolSteady(shares: uint32, n: nat, decayBps: uint32, feeBps: uint32)
    requires decayBps < 10000 && feeBps < 10000 && shares >= 100
    ensures PoolShares(shares, n, decayBps, feeBps) == shares
    decreases n
  {
    if n > 0 {
      PoolSteady(shares, n - 1, decayBps, feeBps);
      PoolStepBelowFullRates(shares, decayBps, feeBps);
    }
  }

  /** A decay of 10000 basis points or more wipes the pool out in the first block. */
  lemma {:induction false} PoolDrainsAtFullDecay(shares: uint32, n: nat, decayBps: uint32, feeBps: uint32)
    requires decayBps >= 10000 && n > 0
    ensures PoolShares(shares, n, decayBps, feeBps) == 0
    decreases n
  {
    var before := PoolShares(shares, n - 1, decayBps, feeBps);
    MulIsMonotone(1, SafeDivU32(decayBps, 10000), before);
    if n > 1 {
      PoolDrainsAtFullDecay(shares, n - 1, decayBps, feeBps);
    }
  }

  /** `main`'s pool of 2000 shares over 5 blocks at 100 and 50 basis points stays at 2000. */
  lemma MainPoolShares()
    ensures PoolShares(2000, 5, 100, 50) == 2000
  {
    PoolSteady(2000, 5, 100, 50);
  }

  // ---------------------------------------------------------------- fallback and main

  /** The four values a successful fallback stage XORs together. */
  function StageResult(collateral: uint32, reduced: uint32, annualBps: uint32, stakeRatio: uint32, rewardBps: uint32): uint32 {
    var values := [reduced, CompoundInterest(reduced, annualBps, FALLBACK_SLICES),
                   StakingRewards(collateral, stakeRatio, rewardBps, FALLBACK_SLICES), collateral];
    XorFoldBelow32(values);
    XorFold(values)
  }

  /** `partial_fallback_loan`: the loan halved, then quartered; the first healthy stage
      reports, and 0 if neither is healthy. */
  function PartialFallbackLoan(collateral: uint32, borrowed: uint32, annualBps: uint32, stakeRatio: uint32, rewardBps: uint32): (r: uint32)
    ensures ValidateLoanHealth(collateral, borrowed / 2) ==>
      r == StageResult(collateral, borrowed / 2, annualBps, stakeRatio, rewardBps)
    ensures !ValidateLoanHealth(collateral, borrowed / 2) && ValidateLoanHealth(collateral, borrowed / 4) ==>
      r == StageResult(collateral, borrowed / 4, annualBps, stakeRatio, rewardBps)
    ensures !ValidateLoanHealth(collateral, borrowed / 2) && !ValidateLoanHealth(collateral, borrowed / 4) ==> r == 0
  {
    var halfBorrowed := SafeDivU32(borrowed, 2);
    if ValidateLoanHealth(collateral, halfBorrowed) then
      StageResult(collateral, halfBorrowed, annualBps, stakeRatio, rewardBps)
    else
      var quarterBorrowed := SafeDivU32(halfBorrowed, 2);
      assert quarterBorrowed == borrowed / 4;
      if ValidateLoanHealth(collateral, quarterBorrowed) then
        StageResult(collateral, quarterBorrowed, annualBps, stakeRatio, rewardBps)
      else 0
  }

  /** When even the quartered loan is unhealthy (and nonzero), the halved one is too, and the
      fallback yields 0. */
  lemma FallbackFailsWhenQuarterUnhealthy(collateral: uint32, borrowed: uint32, annualBps: uint32, stakeRatio: uint32, rewardBps: uint32)
    requires borrowed / 4 > 0 && !ValidateLoanHealth(collateral, borrowed / 4)
    ensures PartialFallbackLoan(collateral, borrowed, annualBps, stakeRatio, rewardBps) == 0
  {
    MulIsMonotone(borrowed / 4, borrowed / 2, 200);
  }

  /** A loan of 0 or 1 cannot be rescued: both reduced loans are 0. */
  lemma FallbackFailsForTinyLoans(collateral: uint32, borrowed: uint32, annualBps: uint32, stakeRatio: uint32, rewardBps: uint32)
    requires borrowed < 2
    ensures PartialFallbackLoan(collateral, borrowed, annualBps, stakeRatio, rewardBps) == 0
  {
  }

  /** `main`: an unhealthy loan goes to the fallback at 600 basis points; a healthy one XORs
      the loan, its interest over 5 slices, the staking reward, the pool simulation and the
      collateral. */
  function Main(collateral: uint32, borrowed: uint32, stakeRatio: uint32, annualBps: uint32): (r: uint32)
    ensures !ValidateLoanHealth(collateral, borrowed) ==>
      r == PartialFallbackLoan(collateral, borrowed, annualBps, stakeRatio, STAKING_REWARD_BPS)
  {
    if !ValidateLoanHealth(collateral, borrowed) then
      PartialFallbackLoan(collateral, borrowed, annualBps, stakeRatio, STAKING_REWARD_BPS)
    else
      var interestAccrued := CompoundInterest(borrowed, annualBps, MAIN_SLICES);
      var stakingRewards := StakingRewards(collateral, stakeRatio, STAKING_REWARD_BPS, MAIN_SLICES);
      var finalShares := PoolShares(2000, 5, 100, 50);
      var values := [borrowed, interestAccrued, stakingRewards, finalShares, collateral];
      XorFoldBelow32(values);
      XorFold(values)
  }

  /** For a healthy loan `main` XORs the loan, its interest, a zero staking reward, 2000
      pool shares and the collateral. */
  lemma MainHealthy(collateral: uint32, borrowed: uint32, stakeRatio: uint32, annualBps: uint32)
    requires ValidateLoanHealth(collateral, borrowed)
    ensures Main(collateral, borrowed, stakeRatio, annualBps) ==
      XorFold([borrowed, CompoundInterest(borrowed, annualBps, MAIN_SLICES), 0, 2000, collateral])
  {
    MainStakingEarnsNothing(collateral, stakeRatio);
    MainPoolShares();
  }

  /** A healthy loan needs collateral of at least twice the loan (when collateral * 100 does
      not saturate), so `main` on a loan of more than half the collateral falls back. */
  lemma MainFallsBackOnThinCollateral(collateral: uint32, borrowed: uint32, stakeRatio: uint32, annualBps: uint32)
    requires 2 * borrowed > collateral
    ensures Main(collateral, borrowed, stakeRatio, annualBps) ==
      PartialFallbackLoan(collateral, borrowed, annualBps, stakeRatio, STAKING_REWARD_BPS)
  {
  }
}
