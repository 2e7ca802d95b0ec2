/** The regulatory-compliance oracle: a subset test on a 32-bit compliance bitmask, a
    popcount and a rotate/shift/or/xor transform of the flags, two big-integer formulas
    (a carbon-offset score and a baseline check), the folding of a big integer into a
    64-bit word, a recursive fallback that halves the emissions and the credits, and an
    XOR combination of the results.

    Compliance bitmasks are `bv32` words; the big integers are `nat`. */
module RegulatoryCompliance {
  import opened Saturating
  import opened NumberTheory
  import opened Bits
  import opened Masks
  import opened XorFolds

  /** The compliance bits `main` demands: bits 0, 1 and 3. */
  const REQUIRED_MASK: bv32 := 0xB
  /** The bits `transform_compliance_flags` ORs in. */
  const PARTIAL_MASK: bv32 := 0xAA
  /** A fallback level succeeds when its offset score exceeds this. */
  const OFFSET_THRESHOLD: nat := 50000
  /** The retry budget `main` gives the fallback. */
  const FALLBACK_ATTEMPTS: uint32 := 3

  // ---------------------------------------------------------------- flags

  /** `check_regulatory_flags`: every bit of the mask is set in the flags. */
  function CheckRegulatoryFlags(flags: bv32, mask: bv32): (ok: bool)
    ensures ok <==> mask & !flags == 0
    ensures ok <==> HasAllBits(flags, mask)
  {
    HasAllBitsMeansNoMissingBit(flags, mask);
    flags & mask == mask
  }

  /** `compliance_popcount`: the number of set bits, at most 32. */
  function CompliancePopcount(flags: bv32): (r: uint32)
    ensures r <= 32
  {
    PopCount32(flags)
  }

  /** `transform_compliance_flags`: rotate left by 13, shift right by 2, OR in 0xAA, XOR
      with the original. On the bits of 0xAA the result is the complement of the flags; the
      two top bits, which the shift clears, pass through unchanged. */
  function TransformComplianceFlags(flags: bv32): (r: bv32)
    ensures flags == 0 ==> r == PARTIAL_MASK
    ensures r & PARTIAL_MASK == !flags & PARTIAL_MASK
    ensures r & 0xC000_0000 == flags & 0xC000_0000
  {
    var rotated := RotateLeft32(flags, 13);
    var shifted := rotated >> 2;
    var combined := shifted | PARTIAL_MASK;
    combined ^ flags
  }

  // ---------------------------------------------------------------- big-integer formulas

  /** `compute_carbon_offset_big`: (emissions + credits) * (rate + 1), shifted left by 2. */
  function CarbonOffset(emissions: uint64, credits: uint64, rate: uint32): nat {
    var sum := emissions + credits;
    var ratePlusOne := rate + 1;
    var product := sum * ratePlusOne;
    ShiftLeft(product, 2)
  }

  /** The offset score is four times (emissions + credits) * (rate + 1), and 0 exactly when
      there are neither emissions nor credits. */
  lemma CarbonOffsetClosedForm(emissions: uint64, credits: uint64, rate: uint32)
    ensures CarbonOffset(emissions, credits, rate) == 4 * (emissions + credits) * (rate + 1)
    ensures CarbonOffset(emissions, credits, rate) == 0 <==> emissions + credits == 0
  {
    assert Pow2(2) == 4;
  }

  /** `baseline_compliance_check`: (emissions^2 + credits^3 + 10000) * rate. */
  function BaselineComplianceCheck(emissions: uint64, credits: uint64, rate: uint32): nat {
    var squared := emissions * emissions;
    var cubed := credits * credits * credits;
    var partialSum := squared + cubed + 10000;
    partialSum * rate
  }

  /** The baseline is (emissions^2 + credits^3 + 10000) * rate: it vanishes exactly when the
      rate is 0 and is otherwise at least 10000 times the rate. */
  lemma BaselineClosedForm(emissions: uint64, credits: uint64, rate: uint32)
    ensures BaselineComplianceCheck(emissions, credits, rate) == (Pow(emissions, 2) + Pow(credits, 3) + 10000) * rate
    ensures BaselineComplianceCheck(emissions, credits, rate) == 0 <==> rate == 0
    ensures BaselineComplianceCheck(emissions, credits, rate) >= 10000 * rate
  {
    var partialSum := emissions * emissions + credits * credits * credits + 10000;
    assert Pow(emissions, 2) == emissions * emissions;
    assert Pow(credits, 3) == credits * credits * credits;
    MulIsMonotone(10000, partialSum, rate);
  }

  /** `combine_biguint_xor`: the rotated low digit XORed with `pop`. */
  function CombineBigUintXor(v: nat, pop: uint32): uint64 {
    var lower := LowDigit64(v);
    var rotated := RotateLeftU64(lower, pop % 64);
    XorBelow64(rotated, pop);
    Xor(rotated, pop)
  }

  /** XORing `pop` back into the result of `combine_biguint_xor` gives the low digit of the
      big integer, rotated. */
  lemma CombineBigUintXorCancels(v: nat, pop: uint32)
    ensures Xor(CombineBigUintXor(v, pop), pop) == RotateLeftU64(LowDigit64(v), pop % 64)
  {
    XorCancels(RotateLeftU64(LowDigit64(v), pop % 64), pop);
  }

  // ---------------------------------------------------------------- combination

  /** The transformed flags as an unsigned number (`as u64`). */
  function TransformedWord(flags: bv32): uint32 {
    Unsigned32(TransformComplianceFlags(flags))
  }

  /** The popcount of the transformed flags. */
  function TransformedPopcount(flags: bv32): uint32 {
    CompliancePopcount(TransformComplianceFlags(flags))
  }

  /** The five values `main` and both fallback steps XOR together: the offset and the
      baseline folded with the popcount of the transformed flags (the baseline with half of
      it), the two amounts used, and the transformed flags. */
  function ReportValues(offset: nat, baseline: nat, transformed: uint32, pop: uint32, emissions: uint64, credits: uint64): (s: seq<uint64>)
    ensures |s| == 5
  {
    [CombineBigUintXor(offset, pop), CombineBigUintXor(baseline, SafeDivU32(pop, 2)), emissions, credits, transformed]
  }

  /** `combine_results_64` applied to the five report values. */
  function Report(offset: nat, baseline: nat, flags: bv32, emissions: uint64, credits: uint64): uint64 {
    var values := ReportValues(offset, baseline, TransformedWord(flags), TransformedPopcount(flags), emissions, credits);
    XorFoldBelow64(values);
    XorFold(values)
  }

  // ---------------------------------------------------------------- fallback

  /** The emissions and credits of a fallback step that passed the threshold. */
  datatype Attempt = Attempt(emissions: uint64, credits: uint64)

  /** One level of `partial_fallback_compliance`: first the emissions halved, then the
      credits halved; a step succeeds when its offset score exceeds the threshold. */
  function Level(emissions: uint64, credits: uint64, rate: uint32): (r: Option<Attempt>)
    ensures r == None <==>
      CarbonOffset(emissions / 2, credits, rate) <= OFFSET_THRESHOLD && CarbonOffset(emissions, credits / 2, rate) <= OFFSET_THRESHOLD
    ensures r.Some? ==> CarbonOffset(r.value.emissions, r.value.credits, rate) > OFFSET_THRESHOLD
  {
    var halfEmissions := SafeDivU64(emissions, 2);
    if CarbonOffset(halfEmissions, credits, rate) > OFFSET_THRESHOLD then
      Some(Attempt(halfEmissions, credits))
    else
      var halfCredits := SafeDivU64(credits, 2);
      if CarbonOffset(emissions, halfCredits, rate) > OFFSET_THRESHOLD then
        Some(Attempt(emissions, halfCredits))
      else None
  }

  /** The report on the amounts of a successful step, or 0 when every step failed. */
  function Outcome(attempt: Option<Attempt>, flags: bv32, rate: uint32): uint64 {
    match attempt
    case Some(a) =>
      Report(CarbonOffset(a.emissions, a.credits, rate), BaselineComplianceCheck(a.emissions, a.credits, rate),
             flags, a.emissions, a.credits)
    case None => 0
  }

  /** The recursion of `partial_fallback_compliance`: nothing when the budget is spent;
      otherwise the step of the current level that succeeds, and when both of its steps
      fail, the next level from both amounts halved. */
  function FallbackAttempt(emissions: uint64, credits: uint64, rate: uint32, attempts: uint32): (r: Option<Attempt>)
    ensures attempts == 0 ==> r == None
    decreases attempts
  {
    if attempts == 0 then None
    else
      match Level(emissions, credits, rate)
      case Some(a) => Some(a)
      case None => FallbackAttempt(SafeDivU64(emissions, 2), SafeDivU64(credits, 2), rate, attempts - 1)
  }

  /** `partial_fallback_compliance`: the report of the step the recursion settles on, or 0. */
  function PartialFallbackCompliance(emissions: uint64, credits: uint64, flags: bv32, rate: uint32, attempts: uint32): (r: uint64)
    ensures attempts == 0 ==> r == 0
  {
    Outcome(FallbackAttempt(emissions, credits, rate, attempts), flags, rate)
  }

  /** The first successful step among levels `k..last-1`, level `k` working on the amounts
      halved `k` times. */
  function FirstLevel(emissions: uint64, credits: uint64, rate: uint32, k: nat, last: nat): (r: Option<Attempt>)
    decreases last - k
  {
    if k >= last then None
    else
      match Level(Halve(emissions, k), Halve(credits, k), rate)
      case Some(a) => Some(a)
      case None => FirstLevel(emissions, credits, rate, k + 1, last)
  }

  /** Searching from the halved amounts is searching one level further from the originals. */
  lemma {:induction false} FirstLevelOfHalves(emissions: uint64, credits: uint64, rate: uint32, k: nat, last: nat)
    ensures FirstLevel(emissions / 2, credits / 2, rate, k, last) == FirstLevel(emissions, credits, rate, k + 1, last + 1)
    decreases last - k
  {
    if k < last {
      assert Halve(emissions / 2, k) == Halve(emissions, k + 1);
      assert Halve(credits / 2, k) == Halve(credits, k + 1);
      FirstLevelOfHalves(emissions, credits, rate, k + 1, last);
    }
  }

  /** The fallback settles on the first successful step among the levels 0..attempts-1,
      level `k` working on the amounts halved `k` times, and on none if no step succeeds:
      the recursion is at most `attempts` deep. */
  lemma {:induction false} FallbackAttemptIsFirstLevel(emissions: uint64, credits: uint64, rate: uint32, attempts: uint32)
    ensures FallbackAttempt(emissions, credits, rate, attempts) == FirstLevel(emissions, credits, rate, 0, attempts)
    decreases attempts
  {
    if attempts > 0 {
      assert Halve(emissions, 0) == emissions && Halve(credits, 0) == credits;
      assert SafeDivU64(emissions, 2) == emissions / 2 && SafeDivU64(credits, 2) == credits / 2;
      FallbackAttemptIsFirstLevel(emissions / 2, credits / 2, rate, attempts - 1);
      FirstLevelOfHalves(emissions, credits, rate, 0, attempts - 1);
    }
  }

  /** Halving never raises the offset score. */
  lemma OffsetMonotone(e1: uint64, c1: uint64, e2: uint64, c2: uint64, rate: uint32)
    requires e1 <= e2 && c1 <= c2
    ensures CarbonOffset(e1, c1, rate) <= CarbonOffset(e2, c2, rate)
  {
    CarbonOffsetClosedForm(e1, c1, rate);
    CarbonOffsetClosedForm(e2, c2, rate);
    MulIsMonotone(4 * (e1 + c1), 4 * (e2 + c2), rate + 1);
  }

  /** When the offset score of the original amounts is at most the threshold, no level
      succeeds, however many there are. */
  lemma {:induction false} NoLevelBelowThreshold(emissions: uint64, credits: uint64, rate: uint32, k: nat, last: nat)
    requires CarbonOffset(emissions, credits, rate) <= OFFSET_THRESHOLD
    ensures FirstLevel(emissions, credits, rate, k, last) == None
    decreases last - k
  {
    if k < last {
      var e, c := Halve(emissions, k), Halve(credits, k);
      OffsetMonotone(e / 2, c, emissions, credits, rate);
      OffsetMonotone(e, c / 2, emissions, credits, rate);
      NoLevelBelowThreshold(emissions, credits, rate, k + 1, last);
    }
  }

  /** Below the threshold the fallback returns 0, whatever the budget. */
  lemma FallbackFailsBelowThreshold(emissions: uint64, credits: uint64, flags: bv32, rate: uint32, attempts: uint32)
    requires CarbonOffset(emissions, credits, rate) <= OFFSET_THRESHOLD
    ensures PartialFallbackCompliance(emissions, credits, flags, rate, attempts) == 0
  {
    FallbackAttemptIsFirstLevel(emissions, credits, rate, attempts);
    NoLevelBelowThreshold(emissions, credits, rate, 0, attempts);
  }

  // ---------------------------------------------------------------- main

  /** `main`: without all of the required bits, the fallback with budget 3; otherwise the
      report on the full amounts. */
  function Main(emissions: uint64, credits: uint64, flags: bv32, rate: uint32): (r: uint64)
    ensures !HasAllBits(flags, REQUIRED_MASK) ==> r == PartialFallbackCompliance(emissions, credits, flags, rate, FALLBACK_ATTEMPTS)
    ensures HasAllBits(flags, REQUIRED_MASK) ==>
      r == Report(CarbonOffset(emissions, credits, rate), BaselineComplianceCheck(emissions, credits, rate), flags, emissions, credits)
  {
    var hasRequiredFlags := CheckRegulatoryFlags(flags, REQUIRED_MASK);
    if !hasRequiredFlags then
      PartialFallbackCompliance(emissions, credits, flags, rate, FALLBACK_ATTEMPTS)
    else
      var offset := CarbonOffset(emissions, credits, rate);
      var baseline := BaselineComplianceCheck(emissions, credits, rate);
      Report(offset, baseline, flags, emissions, credits)
  }

  /** `main` falls back exactly when bit 0, bit 1 or bit 3 of the flags is clear. */
  lemma MainFallsBackIff(flags: bv32)
    ensures !HasAllBits(flags, REQUIRED_MASK) <==> !Bit32(flags, 0) || !Bit32(flags, 1) || !Bit32(flags, 3)
  {
  }

  /** A non-compliant bitmask with small amounts gets 0 from `main`. */
  lemma MainRejectsSmallNonCompliant(emissions: uint64, credits: uint64, flags: bv32, rate: uint32)
    requires !HasAllBits(flags, REQUIRED_MASK)
    requires 4 * (emissions + credits) * (rate + 1) <= OFFSET_THRESHOLD
    ensures Main(emissions, credits, flags, rate) == 0
  {
    CarbonOffsetClosedForm(emissions, credits, rate);
    FallbackFailsBelowThreshold(emissions, credits, flags, rate, FALLBACK_ATTEMPTS);
    assert Main(emissions, credits, flags, rate) == PartialFallbackCompliance(emissions, credits, flags, rate, FALLBACK_ATTEMPTS);
  }

  /** With emissions and credits both 0 `main` gives 0 for every bitmask that falls back:
      no offset score can pass the threshold. */
  lemma MainZeroAmounts(flags: bv32, rate: uint32)
    requires !HasAllBits(flags, REQUIRED_MASK)
    ensures Main(0, 0, flags, rate) == 0
  {
    MainRejectsSmallNonCompliant(0, 0, flags, rate);
  }
}
