/** The smart-contract-audit oracle: coverage bitmask checks, a big-integer complexity
    metric, a score dividing it by a coverage-dependent denominator, a bit-mixing step over
    the score's low 64 bits, a retry that shrinks its inputs until the coverage check passes,
    and a complemented XOR combination.

    Coverage flags are `bv32`; their numeric value enters the arithmetic through
    `Unsigned32`. */
module SmartContractAudit {
  import opened Saturating
  import opened NumberTheory
  import opened Bits
  import opened Masks
  import opened XorFolds

  /** The retry budget and result multiplier `main` hands to the fallback. */
  const MAIN_ATTEMPTS: uint32 := 5
  const MAIN_MULTIPLIER: uint64 := 2
  /** The extra factor and threshold of `main`'s own report and of the fallback's. */
  const MAIN_EXTRA: uint32 := 3
  const MAIN_THRESHOLD: uint64 := 10
  const FALLBACK_EXTRA: uint32 := 2
  const FALLBACK_THRESHOLD: uint64 := 1
  /** Bits 30 and 31, which a coverage word shifted right by two never has. */
  const TOP_BITS: bv32 := 0xC000_0000

  // ---------------------------------------------------------------- coverage checks

  /** `check_minimum_coverage`: every bit of the mask is covered. */
  function CheckMinimumCoverage(flags: bv32, mask: bv32): (ok: bool)
    ensures ok <==> mask & !flags == 0
    ensures ok <==> HasAllBits(flags, mask)
  {
    HasAllBitsMeansNoMissingBit(flags, mask);
    flags & mask == mask
  }

  /** `check_full_coverage`: every one of the 32 bits is set. */
  function CheckFullCoverage(flags: bv32): bool {
    flags == 0xFFFF_FFFF
  }

  /** Full coverage is exactly covering the all-ones mask, and it covers every mask. */
  lemma FullCoverageCoversEveryMask(flags: bv32, mask: bv32)
    ensures CheckFullCoverage(flags) <==> CheckMinimumCoverage(flags, 0xFFFF_FFFF)
    ensures CheckFullCoverage(flags) ==> CheckMinimumCoverage(flags, mask)
  {
  }

  // ---------------------------------------------------------------- complexity and score

  /** `compute_audit_complexity` on big integers. */
  function AuditComplexity(coverage: uint32, gas: uint64, functions: uint32, extra: uint32): nat {
    var gasCubed := gas * gas * gas;
    (coverage + 1) * gasCubed * (functions + 7) + Pow(extra, 2)
  }

  /** The complexity is (coverage + 1) * gas^3 * (functions + 7) + extra^2, and it is just
      extra^2 exactly when no gas was used. */
  lemma AuditComplexityClosedForm(coverage: uint32, gas: uint64, functions: uint32, extra: uint32)
    ensures AuditComplexity(coverage, gas, functions, extra) ==
      (coverage + 1) * Pow(gas, 3) * (functions + 7) + extra * extra
    ensures AuditComplexity(coverage, gas, functions, extra) == extra * extra <==> gas == 0
  {
    assert Pow(gas, 3) == gas * gas * gas;
    assert Pow(extra, 2) == extra * extra;
    if gas > 0 {
      MulBothAtLeast(gas, gas, 1);
      MulBothAtLeast(gas * gas, gas, 1);
      MulBothAtLeast(coverage + 1, gas * gas * gas, 1);
      MulBothAtLeast((coverage + 1) * (gas * gas * gas), functions + 7, 1);
    }
  }

  /** `compute_audit_score`: the floor of the complexity over coverage + functions +
      threshold, and 0 for a zero denominator. The sum is computed in u64 in the source, which
      the precondition keeps from overflowing. */
  function AuditScore(complexity: nat, coverage: uint32, functions: uint32, threshold: uint64): (r: nat)
    requires coverage + functions + threshold <= U64_MAX
    ensures coverage + functions + threshold == 0 ==> r == 0
  {
    var denominator := coverage + functions + threshold;
    if denominator == 0 then 0 else complexity / denominator
  }

  /** A positive threshold makes the zero-denominator branch unreachable: the score is the
      largest `r` with `r * denominator <= complexity`. */
  lemma ScoreWithPositiveThreshold(complexity: nat, coverage: uint32, functions: uint32, threshold: uint64)
    requires threshold > 0 && coverage + functions + threshold <= U64_MAX
    ensures AuditScore(complexity, coverage, functions, threshold) == complexity / (coverage + functions + threshold)
    ensures var r, d := AuditScore(complexity, coverage, functions, threshold), coverage + functions + threshold;
      r * d <= complexity < (r + 1) * d
  {
  }

  // ---------------------------------------------------------------- bit mixing

  /** `(a as u64) | (b as u64)` for two values below 2^32. */
  function OrU32(a: uint32, b: uint32): uint32 {
    ((a as bv32) | (b as bv32)) as int
  }

  /** The arithmetic of `combine_biguint_with_bitops` once the coverage word has been taken
      apart: the low word rotated right, XORed with the popcount, with the leading-zero / count
      mix, with a fifth of the low word and with the gas. */
  function MixBits(lower: uint64, amount: nat, popcount: uint32, mixed: uint32, gas: uint64): (r: uint64)
  {
    var rotated := RotateRightU64(lower, amount);
    var x := Xor(rotated, popcount);
    var y := Xor(mixed, SafeDivU64(lower, 5));
    XorBelow64(rotated, popcount);
    XorBelow64(mixed, SafeDivU64(lower, 5));
    XorBelow64(x, y);
    XorBelow64(Xor(x, y), gas);
    Xor(Xor(x, y), gas)
  }

  /** XORing the gas, the mix and the popcount back out of the result recovers the rotated
      low word. */
  lemma MixBitsRecoversRotation(lower: uint64, amount: nat, popcount: uint32, mixed: uint32, gas: uint64)
    ensures Xor(Xor(Xor(MixBits(lower, amount, popcount, mixed, gas), gas), Xor(mixed, lower / 5)), popcount) ==
      RotateRightU64(lower, amount)
  {
    var rotated := RotateRightU64(lower, amount);
    var x := Xor(rotated, popcount);
    var y := Xor(mixed, SafeDivU64(lower, 5));
    assert SafeDivU64(lower, 5) == lower / 5;
    XorCancels(Xor(x, y), gas);
    XorCancels(x, y);
    XorCancels(rotated, popcount);
  }

  /** The rotation amount, the low byte of the coverage word. */
  function RotationAmount(coverage: bv32): nat {
    Unsigned32(coverage & 0xFF)
  }

  /** `combine_biguint_with_bitops`: the score's lowest 64-bit digit, mixed with the coverage
      word's popcount and leading zeros, the function count and the gas. */
  function CombineBigUintWithBitops(v: nat, coverage: bv32, gas: uint64, functions: uint32): uint64 {
    MixBits(LowDigit64(v), RotationAmount(coverage), PopCount32(coverage),
            OrU32(LeadingZeros32(coverage), functions), gas)
  }

  /** The bit mix applied to the score's digit can be undone down to the digit rotated right
      by the coverage's low byte, reduced mod 64. */
  lemma CombineBigUintWithBitopsRecoversRotation(v: nat, coverage: bv32, gas: uint64, functions: uint32)
    ensures Xor(Xor(Xor(CombineBigUintWithBitops(v, coverage, gas, functions), gas),
                    Xor(OrU32(LeadingZeros32(coverage), functions), LowDigit64(v) / 5)),
                PopCount32(coverage)) ==
      RotateRightU64(LowDigit64(v), RotationAmount(coverage))
  {
    var lower := LowDigit64(v);
    MixBitsRecoversRotation(lower, RotationAmount(coverage), PopCount32(coverage),
                            OrU32(LeadingZeros32(coverage), functions), gas);
  }

  // ---------------------------------------------------------------- report

  /** The inputs the fallback shrinks: coverage flags, gas and function count. */
  datatype AuditInputs = AuditInputs(coverage: bv32, gas: uint64, functions: uint32)

  /** Complexity, score and bit mix of one set of inputs. */
  function Report(p: AuditInputs, extra: uint32, threshold: uint64): uint64
    requires threshold <= U64_MAX - 2 * U32_MAX
  {
    var coverage := Unsigned32(p.coverage);
    var complexity := AuditComplexity(coverage, p.gas, p.functions, extra);
    var score := AuditScore(complexity, coverage, p.functions, threshold);
    CombineBigUintWithBitops(score, p.coverage, p.gas, p.functions)
  }

  // ---------------------------------------------------------------- fallback

  /** One retry's reduction: coverage shifted right by 2, gas divided by 8, function count
      lowered by 3 and floored at 0. */
  function Reduce(p: AuditInputs): (q: AuditInputs)
    ensures q.gas == p.gas / 8 && q.functions == Max(p.functions - 3, 0)
  {
    AuditInputs(p.coverage >> 2, SafeDivU64(p.gas, 8), SafeSubU32(p.functions, 3))
  }

  /** The inputs reduced `k` times. */
  function Reduced(p: AuditInputs, k: nat): AuditInputs
    decreases k
  {
    if k == 0 then p else Reduced(Reduce(p), k - 1)
  }

  /** After `k` reductions the gas has been divided by 8^k and the function count lowered by
      3k, floored at 0. */
  lemma {:induction false} ReducedClosedForm(p: AuditInputs, k: nat)
    ensures Pow(8, k) >= 1
    ensures Reduced(p, k).gas == p.gas / Pow(8, k)
    ensures Reduced(p, k).functions == Max(p.functions - 3 * k, 0)
    decreases k
  {
    PowAtLeastOne(8, k);
    if k > 0 {
      ReducedClosedForm(Reduce(p), k - 1);
      QuotientOfQuotient(p.gas, 8, k - 1);
    }
  }

  /** The recursion of `partial_fallback_audit`: the first reduced inputs, within the budget,
      that pass the coverage check. */
  function FallbackAttempt(p: AuditInputs, mask: bv32, attempts: uint32): (r: Option<AuditInputs>)
    ensures attempts == 0 ==> r == None
    ensures r.Some? ==> CheckMinimumCoverage(r.value.coverage, mask)
    decreases attempts
  {
    if attempts == 0 then None
    else
      var q := Reduce(p);
      if CheckMinimumCoverage(q.coverage, mask) then Some(q)
      else FallbackAttempt(q, mask, attempts - 1)
  }

  /** None of the first `k - 1` reductions passes the coverage check. */
  predicate NoneCoveredBefore(p: AuditInputs, mask: bv32, k: nat) {
    forall j :: 1 <= j < k ==> !CheckMinimumCoverage(Reduced(p, j).coverage, mask)
  }

  /** The search finds the least number of reductions, from 1 to the budget, whose coverage
      passes, and finds nothing exactly when none of them does. */
  lemma {:induction false} FallbackAttemptIsFirstCovered(p: AuditInputs, mask: bv32, attempts: uint32)
    ensures FallbackAttempt(p, mask, attempts).None? <==> NoneCoveredBefore(p, mask, attempts + 1)
    ensures FallbackAttempt(p, mask, attempts).Some? ==>
      exists k :: 1 <= k <= attempts && FallbackAttempt(p, mask, attempts).value == Reduced(p, k) &&
        NoneCoveredBefore(p, mask, k)
    decreases attempts
  {
    if attempts > 0 {
      var q := Reduce(p);
      assert Reduced(p, 1) == q by { assert Reduced(q, 0) == q; }
      if !CheckMinimumCoverage(q.coverage, mask) {
        FallbackAttemptIsFirstCovered(q, mask, attempts - 1);
        ShiftedNoneCovered(p, mask, attempts);
        var r := FallbackAttempt(q, mask, attempts - 1);
        if r.Some? {
          var k :| 1 <= k <= attempts - 1 && r.value == Reduced(q, k) && NoneCoveredBefore(q, mask, k);
          ShiftedNoneCovered(p, mask, k);
          assert r.value == Reduced(p, k + 1);
        }
      }
    }
  }

  /** When the first reduction fails, none of the first `k` reductions of `p` passes exactly
      when none of the first `k - 1` reductions of the reduced inputs does. */
  lemma ShiftedNoneCovered(p: AuditInputs, mask: bv32, k: nat)
    requires k >= 1 && !CheckMinimumCoverage(Reduce(p).coverage, mask)
    ensures NoneCoveredBefore(p, mask, k + 1) <==> NoneCoveredBefore(Reduce(p), mask, k)
  {
    var q := Reduce(p);
    assert Reduced(p, 1) == q by { assert Reduced(q, 0) == q; }
    forall j | 1 <= j <= k
      ensures Reduced(p, j) == Reduced(q, j - 1)
    {
    }
    if NoneCoveredBefore(q, mask, k) {
      forall j | 1 <= j < k + 1
        ensures !CheckMinimumCoverage(Reduced(p, j).coverage, mask)
      {
        if j > 1 {
          assert Reduced(p, j) == Reduced(q, j - 1);
        }
      }
    }
    if NoneCoveredBefore(p, mask, k + 1) {
      forall j | 1 <= j < k
        ensures !CheckMinimumCoverage(Reduced(q, j).coverage, mask)
      {
        assert Reduced(p, j + 1) == Reduced(q, j);
      }
    }
  }

  /** `combined_result * multiplier`, on unbounded integers. */
  function Scale(value: uint64, multiplier: uint64): nat {
    value * multiplier
  }

  /** `combined_result * multiplier` on the outcome of the search, 0 when it finds nothing. */
  function Outcome(attempt: Option<AuditInputs>, multiplier: uint64): nat {
    match attempt
    case Some(q) => Scale(Report(q, FALLBACK_EXTRA, FALLBACK_THRESHOLD), multiplier)
    case None => 0
  }

  /** `partial_fallback_audit`. */
  function PartialFallbackAudit(coverage: bv32, gas: uint64, functions: uint32, mask: bv32,
                                attempts: uint32, multiplier: uint64): (r: nat)
    ensures attempts == 0 ==> r == 0
  {
    Outcome(FallbackAttempt(AuditInputs(coverage, gas, functions), mask, attempts), multiplier)
  }

  /** A word shifted right by two has neither bit 30 nor bit 31. */
  lemma ShiftedLacksTopBits(x: bv32, mask: bv32)
    requires mask & TOP_BITS != 0
    ensures !HasAllBits(x >> 2, mask)
  {
  }

  /** A mask needing bit 30 or 31 defeats every retry, so the fallback yields 0. */
  lemma {:induction false} FallbackFailsOnTopBits(p: AuditInputs, mask: bv32, attempts: uint32)
    requires mask & TOP_BITS != 0
    ensures FallbackAttempt(p, mask, attempts) == None
    ensures PartialFallbackAudit(p.coverage, p.gas, p.functions, mask, attempts, MAIN_MULTIPLIER) == 0
    decreases attempts
  {
    if attempts > 0 {
      ShiftedLacksTopBits(p.coverage, mask);
      FallbackFailsOnTopBits(Reduce(p), mask, attempts - 1);
    }
  }

  // ---------------------------------------------------------------- combination and main

  /** `combine_results_64` of this oracle: the XOR fold, complemented. */
  function ComplementedFold(values: seq<uint64>): (r: uint64)
    ensures r == U64_MAX - XorFold(values)
    ensures values == [] ==> r == U64_MAX
  {
    XorFoldBelow64(values);
    Pow2Words();
    XorAllOnes(XorFold(values), 64);
    Xor(XorFold(values), U64_MAX)
  }

  /** The accumulator loop of `combine_results_64`, then the complement. */
  method CombineResultsComplemented(values: seq<uint64>) returns (out: uint64)
    ensures out == U64_MAX - XorFold(values)
  {
    var folded := CombineResults64(values);
    out := ComplementedFold(values);
    assert out == Xor(folded, U64_MAX);
  }

  /** The four values `main` combines. */
  function MainValues(finalValue: uint64, gas: uint64, coverage: uint32, functions: uint32): (s: seq<uint64>)
    ensures |s| == 4
  {
    [finalValue, gas, coverage, functions]
  }

  /** `main`: insufficient coverage goes to the fallback with 5 attempts and multiplier 2;
      otherwise the report with extra factor 3 and threshold 10, complemented-XORed with the
      gas, the coverage and the function count. */
  function Main(coverage: bv32, gas: uint64, functions: uint32, mask: bv32): (r: nat)
    ensures !CheckMinimumCoverage(coverage, mask) ==>
      r == PartialFallbackAudit(coverage, gas, functions, mask, MAIN_ATTEMPTS, MAIN_MULTIPLIER)
    ensures CheckMinimumCoverage(coverage, mask) ==> r <= U64_MAX
  {
    if !CheckMinimumCoverage(coverage, mask) then
      PartialFallbackAudit(coverage, gas, functions, mask, MAIN_ATTEMPTS, MAIN_MULTIPLIER)
    else
      ComplementedFold(MainValues(Report(AuditInputs(coverage, gas, functions), MAIN_EXTRA, MAIN_THRESHOLD),
                                  gas, Unsigned32(coverage), functions))
  }

  /** Full coverage never falls back. */
  lemma MainFullCoverage(coverage: bv32, gas: uint64, functions: uint32, mask: bv32)
    requires CheckFullCoverage(coverage)
    ensures Main(coverage, gas, functions, mask) ==
      U64_MAX - XorFold(MainValues(Report(AuditInputs(coverage, gas, functions), MAIN_EXTRA, MAIN_THRESHOLD),
                                   gas, Unsigned32(coverage), functions))
  {
    FullCoverageCoversEveryMask(coverage, mask);
  }

  /** Insufficient coverage against a mask needing bit 30 or 31 makes `main` return 0. */
  lemma MainFailsOnTopBits(coverage: bv32, gas: uint64, functions: uint32, mask: bv32)
    requires mask & TOP_BITS != 0 && !CheckMinimumCoverage(coverage, mask)
    ensures Main(coverage, gas, functions, mask) == 0
  {
    FallbackFailsOnTopBits(AuditInputs(coverage, gas, functions), mask, MAIN_ATTEMPTS);
  }
}
