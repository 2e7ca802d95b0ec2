# Eight integer oracles, modelled and verified in Dafny

This project models the eight WebAssembly "oracles" of the `example_wasms` repository. Each
oracle's `main` is a pure, deterministic function from fixed-width integers to one integer:

- `toy_rsa`: a trial-division prime screen, Euclid's gcd, square-and-multiply modular
  exponentiation, a recursive extended-gcd / modular inverse, toy RSA encryption, a CRT
  variant, a halving retry and an XOR combiner.
- `energy_usage`: input validation, a weighted historical estimate, losses and overhead, a
  health check, an adjustment chain, and a three-level halving fallback.
- `defi_transaction`: a swap against a constant-product pool, with a dynamic fee, slippage,
  fee distribution, a pool-health check and a half-size fallback trade.
- `regulatory_compliance`: a compliance bitmask, big-integer offset and baseline formulas, a
  rotate/XOR mix and a retry that halves the amounts.
- `financial_protocol`: loan health, compound interest, big-integer staking rewards, a
  liquidity-pool simulation and a halving fallback.
- `smart_contract_audit`: coverage bitmasks, a big-integer complexity, a score, a bit mix and a
  retry that shifts and divides its inputs.
- `data_provenance`: an environment bitmask, a big-integer lineage hash, a certification-mask
  transform and a retry that shifts the environment or halves the quality.
- `game_logic`: resource checks, damage, forging and experience formulas, and a halving retry.

## Modelling conventions

- Rust `u64`/`u32`/`i64`/`i32` are the bounded subset types of module `Saturating`.
  `BigUint` values are `nat`.
- Every oracle defines its own copy of the `safe_*` helpers. The copies agree, so module
  `Saturating` defines each helper once.
- `to_u64_digits()[0]` (0 for an empty digit list) is `value % 2^64` (`Bits.LowDigit64`).
  `try_into().unwrap_or(MAX)` is `Min(value, MAX)`.
- Bitmasks are `bv32`. Rust's rotations reduce their amount modulo the width, and so do
  `Bits.RotateLeft32`, `Bits.RotateLeftU64` and `Bits.RotateRightU64`.
- XOR on numbers is `XorFolds.Xor`, a recursive definition over binary digits.
  - Every `combine_results`, `combine_results_64` and chain of `^` is the left fold
    `XorFolds.XorFold`.
  - The accumulator loops are the methods `XorFolds.CombineResults64` and
    `XorFolds.CombineResults32`. Those rows cite one copy of the loop each. The same loop
    appears at energy_usage/src/main.rs:96-102, regulatory_compliance/src/main.rs:230-236,
    financial_protocol/src/main.rs:183-189 and game_logic/src/main.rs:140-155.
- Loops become methods proved against a specification function:
  - `is_prime_like`, `gcd_u64` and `mod_exp`;
  - the weighted-mean loop shared by `simulate_historical_usage` and
    `simulate_historical_price_data`;
  - the three loops of `financial_protocol`;
  - the XOR accumulators.
  Pure callers (`main`, the fallbacks) use the specification functions.
- Each recursive fallback is split in two: a search that returns the inputs of the first
  successful retry (an `Option`), and the report computed on them.

## Model

| member | source | states |
|---|---|---|
| Saturating.SafeAddU64 | toy_rsa/src/main.rs:4-6 | the exact sum, clamped at u64::MAX |
| Saturating.SafeSubU64 | toy_rsa/src/main.rs:8-10 | the difference, floored at 0 |
| Saturating.SafeMulU64 | toy_rsa/src/main.rs:12-14 | the exact product, clamped at u64::MAX; positive for positive factors |
| Saturating.SafeDivU64 | toy_rsa/src/main.rs:16-22 | 0 for a zero divisor, otherwise the quotient `r` with `r*b <= a < r*b + b` |
| Saturating.SafeAddI64 | toy_rsa/src/main.rs:25-27 | the sum when it fits, i64::MAX on overflow in either direction |
| Saturating.SafeSubI64 | toy_rsa/src/main.rs:29-31 | the difference when it fits, i64::MIN on overflow in either direction |
| Saturating.SafeMulI64 | toy_rsa/src/main.rs:33-35 | the product when it fits, i64::MAX on overflow in either direction |
| Saturating.SafeDivI64 | toy_rsa/src/main.rs:37-43 | 0 for a zero divisor, the Euclidean quotient for non-negative operands |
| Saturating.TruncDiv | toy_rsa/src/main.rs:41 | Rust's signed `/`: the quotient's magnitude is the largest `m` with `m |b| <= |a|`, and a nonzero quotient is negative exactly when the operands' signs differ |
| Saturating.SafeAddU32 | financial_protocol/src/main.rs:11-13 | the exact sum, clamped at u32::MAX |
| Saturating.SafeSubU32 | financial_protocol/src/main.rs:15-17 | the difference, floored at 0 |
| Saturating.SafeMulU32 | financial_protocol/src/main.rs:19-21 | the exact product, clamped at u32::MAX |
| Saturating.SafeDivU32 | financial_protocol/src/main.rs:23-29 | 0 for a zero divisor, otherwise the floor quotient |
| Saturating.SafeAddI32 | financial_protocol/src/main.rs:32-34 | the sum when it fits, i32::MAX on overflow in either direction |
| Saturating.SafeSubI32 | financial_protocol/src/main.rs:36-38 | the difference when it fits, i32::MIN on overflow in either direction |
| Saturating.SafeMulI32 | financial_protocol/src/main.rs:40-42 | the product when it fits, i32::MAX on overflow in either direction |
| Saturating.SafeDivI32 | financial_protocol/src/main.rs:44-50 | 0 for a zero divisor, the Euclidean quotient for non-negative operands |
| Bits.PopCount32 | regulatory_compliance/src/main.rs:69 | `count_ones` is at most 32 |
| Bits.LeadingZeros32 | smart_contract_audit/src/main.rs:127 | `leading_zeros`: the top `r` bits are clear and, below 32, bit `31 - r` is set |
| Bits.PopCountPlusLeadingZeros | smart_contract_audit/src/main.rs:126-127 | popcount plus leading zeros never exceeds 32 |
| Bits.LowDigit64 | regulatory_compliance/src/main.rs:141-147 | the lowest u64 digit, or 0 for an empty digit list, is the value mod 2^64 |
| Masks.HasAllBitsMeansNoMissingBit | regulatory_compliance/src/main.rs:59-62 | `flags & mask == mask` holds exactly when no bit of the mask is missing from the flags |
| XorFolds.CombineResults64 | toy_rsa/src/main.rs:204-210 | the accumulator loop returns the XOR fold of the slice |
| XorFolds.CombineResults32 | financial_protocol/src/main.rs:183-189 | the u32 accumulator loop returns the XOR fold of the slice |
| XorFolds.XorFoldPermutation | toy_rsa/src/main.rs:204-210 | rearranging the slice leaves the fold unchanged |
| XorFolds.XorFoldAppend | toy_rsa/src/main.rs:204-210 | the fold of a concatenation is the XOR of the two folds |
| XorFolds.XorCancels | toy_rsa/src/main.rs:207 | XORing the same value twice cancels out |
| XorFolds.XorFoldBelow64 | toy_rsa/src/main.rs:204-210 | a fold of u64 values is a u64 value |
| XorFolds.XorFoldBelow32 | financial_protocol/src/main.rs:183-189 | a fold of u32 values is a u32 value |
| XorFolds.XorAllOnes | smart_contract_audit/src/main.rs:181-187 | XOR with the all-ones k-bit number is the k-bit complement |
| NumberTheory.Gcd | toy_rsa/src/main.rs:64-71 | Euclid's recursion yields a greatest common divisor: a common divisor that every common divisor divides |
| NumberTheory.GcdUnique | toy_rsa/src/main.rs:64-71 | every greatest common divisor of `a` and `b` equals `Gcd(a, b)` |
| NumberTheory.PrimeFromSquareRootBound | toy_rsa/src/main.rs:53-57 | no divisor `d` with `d*d <= c` implies primality, so trial division may stop at the square root |
| NumberTheory.HalveIsDivision | toy_rsa/src/main.rs:131-139 | halving `k` times is dividing by 2^k |
| ToyRsa.IsPrimeLike | toy_rsa/src/main.rs:48-61 | the trial-division loop answers exactly whether the candidate is prime (for candidates below (2^32-1)^2) |
| ToyRsa.GcdU64 | toy_rsa/src/main.rs:64-71 | Euclid's loop returns the greatest common divisor |
| ToyRsa.SquareAndMultiply | toy_rsa/src/main.rs:83-91 | the square-and-multiply rounds stay below the modulus once a round has run |
| ToyRsa.ModExp | toy_rsa/src/main.rs:75-93 | modulus 0 gives 0; exponent 0 gives 1 for every positive modulus; otherwise the result is below the modulus |
| ToyRsa.ModExpIterative | toy_rsa/src/main.rs:75-93 | the loop computes `ModExp` |
| ToyRsa.SquareAndMultiplyIsPower | toy_rsa/src/main.rs:83-91 | for a modulus of at most 2^32 no product saturates, and the rounds compute `result * current^e mod m` |
| ToyRsa.ModExpIsPower | toy_rsa/src/main.rs:75-93 | for 0 < modulus <= 2^32, `mod_exp` is `base^exp mod modulus`, except exponent 0 with modulus 1 |
| ToyRsa.ModExpZeroExponentModulusOne | toy_rsa/src/main.rs:79-83 | `mod_exp(b, 0, 1)` is 1 although `b^0 mod 1` is 0 |
| ToyRsa.ModExpExample | toy_rsa/src/main.rs:75-93 | 65^17 mod 3233 is 2790 |
| ToyRsa.Totient | toy_rsa/src/main.rs:104-106 | the saturated totient is `(p-1)(q-1)` whenever that fits in u64 |
| ToyRsa.ToyRsaEncrypt | toy_rsa/src/main.rs:97-115 | a nonzero result means both candidates are prime and `e` is coprime to the totient; with primes and `e > 0` the result is below `sat(p*q)` |
| ToyRsa.ToyRsaEncryptIsRsa | toy_rsa/src/main.rs:97-115 | for primes with `p*q <= 2^32` and `gcd(e, (p-1)(q-1)) = 1` it is textbook RSA, `message^e mod p*q` |
| ToyRsa.ToyRsaEncryptExample | toy_rsa/src/main.rs:97-115 | (61, 53, 17, 65) encrypts to 2790 |
| ToyRsa.FirstSuccessOfHalves | toy_rsa/src/main.rs:131-139 | retrying from the halved candidates is retrying one halving further from the originals |
| ToyRsa.PartialFallbackIsFirstSuccess | toy_rsa/src/main.rs:120-141 | the fallback returns the first nonzero `toy_rsa_encrypt(p/2^k, q/2^k)` for k = 1..attempts, 0 if none (and 0 for no attempts) |
| ToyRsa.PartialFallback | toy_rsa/src/main.rs:120-141 | no attempts give 0; the rest is stated by `ToyRsa.PartialFallbackIsFirstSuccess` |
| ToyRsa.Coefficient | toy_rsa/src/main.rs:193-201 | the coefficient `extended_gcd` builds (`x1 + (a/b)*x1`, 1 at the base) is at least 1 |
| ToyRsa.ExtendedGcd | toy_rsa/src/main.rs:193-201 | on non-negative inputs whose coefficient fits i64, the first component is the gcd and the second is `Coefficient` |
| ToyRsa.CoefficientStep | toy_rsa/src/main.rs:199-200 | in each step back up the recursion the negated quotient is exact and its product with the inner coefficient fits i64 |
| ToyRsa.TruncRem | toy_rsa/src/main.rs:183 | Rust's signed `%`: smaller in magnitude than the divisor, the Euclidean remainder for non-negative operands |
| ToyRsa.ModInverse | toy_rsa/src/main.rs:173-189 | 0 for modulus 0 or a gcd other than 1; otherwise `Coefficient(a, m) % m`, always below `m` |
| ToyRsa.ReduceRemainder | toy_rsa/src/main.rs:184-186 | a negative remainder is moved up by the modulus, a non-negative one is kept |
| ToyRsa.ModInverseIsNotAnInverse | toy_rsa/src/main.rs:199-200 | `mod_inverse(2, 5)` is 4, and 2 * 4 is 3 mod 5 |
| ToyRsa.ModInverseOfCoprimeCanBeZero | toy_rsa/src/main.rs:173-189 | `mod_inverse(3, 2)` is 0 although gcd(3, 2) = 1 |
| ToyRsa.ToyRsaEncryptCrt | toy_rsa/src/main.rs:145-169 | a nonzero result means both candidates are prime and both inverses are nonzero, and it is below `sat(p*q)` |
| ToyRsa.CrtComputableForTwoAndThree | toy_rsa/src/main.rs:156-157 | both inverses the CRT variant takes for p = 2, q = 3 stay within i64 |
| ToyRsa.CrtFailsForTwoAndThree | toy_rsa/src/main.rs:156-160 | with p = 2 and q = 3 the CRT variant returns 0 |
| ToyRsa.MainFallsBack | toy_rsa/src/main.rs:215-222 | when standard encryption gives 0, `main` is the first success of three halving retries, whatever `use_crt` is |
| ToyRsa.Main | toy_rsa/src/main.rs:213-234 | when encryption gives 0, the fallback with 3 attempts; otherwise, for `use_crt != 1`, the encryption itself (the CRT case is `ToyRsa.MainCombines`) |
| ToyRsa.MainCombines | toy_rsa/src/main.rs:225-233 | otherwise `main` is `encrypted ^ crt` for `use_crt == 1` and `encrypted` unchanged for any other value |
| ToyRsa.MainExample | toy_rsa/src/main.rs:213-234 | `main(61, 53, 17, 65, 0)` is 2790 |
| ToyRsa.MainCrtExample | toy_rsa/src/main.rs:213-234 | `main(2, 3, 1, 5, 1)` is 5: the CRT part contributes 0 |
| WeightedMeans.WeightedMean | energy_usage/src/main.rs:35-51 | the weighted-sum loop returns the saturated weighted sum divided by the saturated weight total |
| WeightedMeans.WeightedSumOfThree | defi_transaction/src/main.rs:31-46 | with weights 1, 2, 1 and no saturation the weighted sum is `lo + 2 mid + hi` and the weights total 4 |
| EnergyUsage.ValidateInputs | energy_usage/src/main.rs:24-32 | true exactly when there is a device and consumption does not exceed production |
| EnergyUsage.PastValues | energy_usage/src/main.rs:35-51 | the historical readings are three values |
| EnergyUsage.SimulateHistoricalUsage | energy_usage/src/main.rs:35-51 | the loop computes the weighted mean of `[sat(c-100), c, sat(c+50)]` |
| EnergyUsage.HistoricalUsageClosedForm | energy_usage/src/main.rs:35-51 | without saturation the estimate is `(sat(c-100) + 3c + 50) / 4`, and `c - 13` from 100 on |
| EnergyUsage.HistoricalUsage | energy_usage/src/main.rs:35-51 | no contract; see `EnergyUsage.SimulateHistoricalUsage` and `EnergyUsage.HistoricalUsageClosedForm` |
| EnergyUsage.LineLosses | energy_usage/src/main.rs:54-61 | 0 below 1000 of historical usage; otherwise `produced * 2(hist/1000) / 100` when unsaturated |
| EnergyUsage.OverheadAdjustment | energy_usage/src/main.rs:64-77 | the subtraction chain only lifts small values to 8: `max(sat(c + sat(2c)/100), 8)`, never below `c` |
| EnergyUsage.SystemHealthy | energy_usage/src/main.rs:80-88 | healthy exactly when production exceeds adjusted consumption plus losses plus 100 |
| EnergyUsage.PerDeviceMetric | energy_usage/src/main.rs:91-93 | the value divided by `max(devices, 1)`, never above the value |
| EnergyUsage.SimulateBattery | energy_usage/src/main.rs:105-113 | never more than the net energy; the closed form when the draw is covered |
| EnergyUsage.PeakUsagePenalty | energy_usage/src/main.rs:116-127 | never more than the net energy; subtracts `5 adjusted - 100` when that is positive, otherwise `85 - 5 adjusted` floored at 0 |
| EnergyUsage.RegulatoryAdjustments | energy_usage/src/main.rs:130-138 | `sat(x - 40)` |
| EnergyUsage.QualityFactor | energy_usage/src/main.rs:144-159 | `sat(x - (hist/devices/2 + 5))` (`sat(x - 5)` for no devices), never above `x` |
| EnergyUsage.OffPeakRebate | energy_usage/src/main.rs:164-175 | `x - 100` above 2000, otherwise `sat(x - 70)` |
| EnergyUsage.AuditingAdjustments | energy_usage/src/main.rs:178-188 | `sat(x - 30)` |
| EnergyUsage.PassDecreases | energy_usage/src/main.rs:311-338 | along the pipeline the energy never increases, and the final cost is the per-device cost less 70, floored at 0 |
| EnergyUsage.RunPass | energy_usage/src/main.rs:295-338 | no contract; see `EnergyUsage.PassDecreases` and `EnergyUsage.MainHealthy` |
| EnergyUsage.Healthy | energy_usage/src/main.rs:304-308 | no contract; `check_system_health` on the pass's overhead and losses, see `EnergyUsage.Main` |
| EnergyUsage.HealthyPassHasNetEnergy | energy_usage/src/main.rs:305-312 | a healthy pass leaves more than 100 of net energy |
| EnergyUsage.FallbackLevel | energy_usage/src/main.rs:211-237 | a fallback level reports exactly when its pass is healthy |
| EnergyUsage.PartialFallbackFirstHealthy | energy_usage/src/main.rs:191-281 | the fallback answers with the first healthy level among `c/2`, `c/4` and `c/8`, and 0 when none of the three is healthy |
| EnergyUsage.PartialFallback | energy_usage/src/main.rs:191-281 | no contract; see `EnergyUsage.PartialFallbackFirstHealthy` |
| EnergyUsage.Main | energy_usage/src/main.rs:284-350 | 0 for invalid inputs; the fallback when the full pass is unhealthy |
| EnergyUsage.MainHealthy | energy_usage/src/main.rs:304-349 | for valid inputs with a healthy pass, `main` is the XOR of net energy, losses, adjusted consumption, final cost, and the energy after penalty, quality and rebate, in that order |
| DefiTransaction.PastPrices | defi_transaction/src/main.rs:31-46 | the historical prices are three values |
| DefiTransaction.ValidSwap | defi_transaction/src/main.rs:25-27 | no contract; a positive swap within the balance, see `DefiTransaction.Main` |
| DefiTransaction.SimulateHistoricalPriceData | defi_transaction/src/main.rs:31-46 | the loop computes the weighted mean of the three past prices |
| DefiTransaction.HistoricalPriceClosedForm | defi_transaction/src/main.rs:31-46 | from a price of 50 on, without saturation, the historical price is the price less 7 |
| DefiTransaction.HistoricalPrice | defi_transaction/src/main.rs:31-46 | no contract; see `DefiTransaction.SimulateHistoricalPriceData` and `DefiTransaction.HistoricalPriceClosedForm` |
| DefiTransaction.AdjustFee | defi_transaction/src/main.rs:49-82 | denominator 1000; numerator 3 or 6 (large trade) plus 2 when volatile, so in {3, 5, 6, 8} |
| DefiTransaction.LargeTrade | defi_transaction/src/main.rs:59-66 | no contract; a swap above a tenth of the input reserve, see `DefiTransaction.AdjustFee` |
| DefiTransaction.Volatile | defi_transaction/src/main.rs:68-81 | no contract; a deviation ratio above 50 per mille, see `DefiTransaction.AdjustFee` |
| DefiTransaction.EffectiveInput | defi_transaction/src/main.rs:85-92 | never above the input, even under saturation; `input*den/(den+num)` when unsaturated |
| DefiTransaction.FeesCollected | defi_transaction/src/main.rs:161-167 | never above the input; `input*num/(den+num)` when unsaturated |
| DefiTransaction.FeeAndEffectiveInputWithinInput | defi_transaction/src/main.rs:85-92 | without saturation the fee and the effective input together never exceed the input |
| DefiTransaction.SwapOutput | defi_transaction/src/main.rs:95-109 | the output never exceeds the output reserve, even under saturation |
| DefiTransaction.NextOutput | defi_transaction/src/main.rs:112-144 | the post-trade output reserve of the slippage computation never exceeds the reserve |
| DefiTransaction.Slippage | defi_transaction/src/main.rs:112-144 | at most 100, and exactly 100 for an empty output reserve, an empty pool or a drained pool |
| DefiTransaction.PoolValue | defi_transaction/src/main.rs:152-158 | at least the input reserve; `in + out*price/10^6` when unsaturated |
| DefiTransaction.PoolState | defi_transaction/src/main.rs:170-183 | the input reserve is `sat(in + swap)` and the output reserve `max(out - output, 0)` |
| DefiTransaction.PoolHealthy | defi_transaction/src/main.rs:187-190 | no contract; both reserves above 1000, see `DefiTransaction.MainEmptyOutputReserve` |
| DefiTransaction.DistributeFees | defi_transaction/src/main.rs:193-202 | the three shares add up to the fees exactly; half to the providers, `sat(3 fees)/10` to the treasury |
| DefiTransaction.WithinTolerance | defi_transaction/src/main.rs:147-149 | no contract; see `DefiTransaction.AttemptPartialTrade` |
| DefiTransaction.AttemptPartialTrade | defi_transaction/src/main.rs:206-235 | 0 when half the swap is 0, exceeds the balance, or slips too much; otherwise the half trade's output, never above the reserve |
| DefiTransaction.Report | defi_transaction/src/main.rs:309-364 | no contract; the XOR of output, slippage, fees, pool value and the three fee shares (see `DefiTransaction.DistributeFees`) |
| DefiTransaction.Main | defi_transaction/src/main.rs:246-248 | 0 for an invalid swap |
| DefiTransaction.MainUnitSwapFallbackFails | defi_transaction/src/main.rs:273-286 | a swap of 1 that slips too much yields 0: its half is 0 |
| DefiTransaction.MainEmptyOutputReserve | defi_transaction/src/main.rs:238-365 | an empty output reserve always yields 0 |
| RegulatoryCompliance.CheckRegulatoryFlags | regulatory_compliance/src/main.rs:59-62 | true exactly when every bit of the mask is set in the flags |
| RegulatoryCompliance.CompliancePopcount | regulatory_compliance/src/main.rs:68-71 | at most 32 |
| RegulatoryCompliance.TransformComplianceFlags | regulatory_compliance/src/main.rs:77-89 | `0xAA` for no flags; the partial-mask bits are the complement of the flags' bits; the two top bits pass through |
| RegulatoryCompliance.CarbonOffsetClosedForm | regulatory_compliance/src/main.rs:96-112 | the offset is `4(e + c)(r + 1)`, 0 exactly when `e + c` is 0 |
| RegulatoryCompliance.CarbonOffset | regulatory_compliance/src/main.rs:96-112 | no contract; see `RegulatoryCompliance.CarbonOffsetClosedForm` |
| RegulatoryCompliance.BaselineClosedForm | regulatory_compliance/src/main.rs:118-133 | the baseline is `(e^2 + c^3 + 10000) r`: 0 exactly when `r = 0`, otherwise at least `10000 r` |
| RegulatoryCompliance.BaselineComplianceCheck | regulatory_compliance/src/main.rs:118-133 | no contract; see `RegulatoryCompliance.BaselineClosedForm` |
| RegulatoryCompliance.CombineBigUintXorCancels | regulatory_compliance/src/main.rs:140-154 | XORing `k` back in recovers `rotl64(v mod 2^64, k mod 64)` |
| RegulatoryCompliance.CombineBigUintXor | regulatory_compliance/src/main.rs:140-154 | no contract; see `RegulatoryCompliance.CombineBigUintXorCancels` |
| RegulatoryCompliance.ReportValues | regulatory_compliance/src/main.rs:281-287 | `main` combines five values |
| RegulatoryCompliance.Report | regulatory_compliance/src/main.rs:267-287 | no contract; the XOR of the five `RegulatoryCompliance.ReportValues` |
| RegulatoryCompliance.Level | regulatory_compliance/src/main.rs:161-225 | a level fails exactly when both the halved-emissions and the halved-credits offsets are at most the threshold; a success passes it |
| RegulatoryCompliance.FallbackAttempt | regulatory_compliance/src/main.rs:161-225 | no search without attempts |
| RegulatoryCompliance.PartialFallbackCompliance | regulatory_compliance/src/main.rs:161-225 | 0 without attempts |
| RegulatoryCompliance.FirstLevelOfHalves | regulatory_compliance/src/main.rs:161-225 | searching from the halved amounts is searching one level further |
| RegulatoryCompliance.FallbackAttemptIsFirstLevel | regulatory_compliance/src/main.rs:161-225 | the recursion finds the first successful level among the first `attempts`, so its depth is at most `attempts` |
| RegulatoryCompliance.OffsetMonotone | regulatory_compliance/src/main.rs:96-112 | smaller amounts never give a larger offset |
| RegulatoryCompliance.NoLevelBelowThreshold | regulatory_compliance/src/main.rs:161-225 | when the original amounts' offset is at most the threshold, no level of the search succeeds |
| RegulatoryCompliance.FallbackFailsBelowThreshold | regulatory_compliance/src/main.rs:161-225 | at or below the threshold the fallback yields 0 for every budget |
| RegulatoryCompliance.Main | regulatory_compliance/src/main.rs:239-288 | without all required bits, the fallback with budget 3; otherwise the report on the full amounts |
| RegulatoryCompliance.MainFallsBackIff | regulatory_compliance/src/main.rs:246-249 | `main` falls back exactly when bit 0, 1 or 3 is clear |
| RegulatoryCompliance.MainRejectsSmallNonCompliant | regulatory_compliance/src/main.rs:239-258 | non-compliant flags with a small offset give 0 |
| RegulatoryCompliance.MainZeroAmounts | regulatory_compliance/src/main.rs:239-258 | zero amounts with non-compliant flags give 0 |
| FinancialProtocol.ValidateLoanHealth | financial_protocol/src/main.rs:54-60 | false for no loan; otherwise true exactly when `sat(collateral*100) >= 200 borrowed` |
| FinancialProtocol.CompoundedClosedForm | financial_protocol/src/main.rs:64-79 | compounding is growth by `(1 + rate)^n`, clamped at u32::MAX |
| FinancialProtocol.PrincipalNeverDecreases | financial_protocol/src/main.rs:64-79 | the principal never decreases |
| FinancialProtocol.ComputeCompoundInterest | financial_protocol/src/main.rs:64-79 | the loop computes the compounded principal less the loan, 0 for no slices |
| FinancialProtocol.CompoundInterestClosedForm | financial_protocol/src/main.rs:64-79 | the interest is `min(b (1 + rate)^slices, u32::MAX) - b` |
| FinancialProtocol.CompoundInterest | financial_protocol/src/main.rs:64-79 | no contract; see `FinancialProtocol.ComputeCompoundInterest` and `FinancialProtocol.CompoundInterestClosedForm` |
| FinancialProtocol.NoInterestBelowFullRate | financial_protocol/src/main.rs:64-79 | no slices, or a per-slice rate below 10000 bps, gives no interest |
| FinancialProtocol.StakedAfterClosedForm | financial_protocol/src/main.rs:83-115 | the stake grows by `(1 + partial rate)^n` |
| FinancialProtocol.ToU32OrMax | financial_protocol/src/main.rs:114 | the saturating conversion is `min(x, u32::MAX)` |
| FinancialProtocol.ComputeStakingRewards | financial_protocol/src/main.rs:83-115 | the loop computes the stake's growth less the stake, saturated to u32 |
| FinancialProtocol.StakingRewardsClosedForm | financial_protocol/src/main.rs:83-115 | the reward is `min(s (1 + rate)^slices - s, u32::MAX)` |
| FinancialProtocol.StakingRewards | financial_protocol/src/main.rs:83-115 | no contract; see `FinancialProtocol.ComputeStakingRewards` and `FinancialProtocol.StakingRewardsClosedForm` |
| FinancialProtocol.NoRewardBelowFullRate | financial_protocol/src/main.rs:83-115 | no slices, or a reward below `10000 * slices` bps, gives no reward |
| FinancialProtocol.MainStakingEarnsNothing | financial_protocol/src/main.rs:83-115 | 600 bps over 5 or 3 slices earns nothing |
| FinancialProtocol.SimulateLiquidityPoolShares | financial_protocol/src/main.rs:121-150 | the loop computes `PoolShares`; no blocks leave the shares unchanged |
| FinancialProtocol.PoolShares | financial_protocol/src/main.rs:121-150 | no contract; see `FinancialProtocol.SimulateLiquidityPoolShares` |
| FinancialProtocol.PoolStepBelowFullRates | financial_protocol/src/main.rs:121-150 | rates below 10000 bps leave 100 or more shares alone and re-stake half of fewer |
| FinancialProtocol.PoolSteady | financial_protocol/src/main.rs:121-150 | a pool of at least 100 shares at rates below 10000 bps never changes |
| FinancialProtocol.PoolDrainsAtFullDecay | financial_protocol/src/main.rs:121-150 | a decay of 10000 bps or more empties the pool |
| FinancialProtocol.MainPoolShares | financial_protocol/src/main.rs:192-227 | `main`'s pool of 2000 shares over 5 blocks stays at 2000 |
| FinancialProtocol.PartialFallbackLoan | financial_protocol/src/main.rs:155-180 | the halved loan if healthy, else the quartered loan if healthy, else 0 |
| FinancialProtocol.FallbackFailsWhenQuarterUnhealthy | financial_protocol/src/main.rs:155-180 | an unhealthy nonzero quarter implies an unhealthy half, and the result 0 |
| FinancialProtocol.FallbackFailsForTinyLoans | financial_protocol/src/main.rs:155-180 | a loan of 0 or 1 cannot be rescued |
| FinancialProtocol.Main | financial_protocol/src/main.rs:192-227 | an unhealthy loan goes to the fallback |
| FinancialProtocol.MainHealthy | financial_protocol/src/main.rs:192-227 | a healthy loan yields the XOR of loan, interest, a zero reward, 2000 shares and collateral |
| FinancialProtocol.MainFallsBackOnThinCollateral | financial_protocol/src/main.rs:54-60 | a loan above half the collateral always falls back |
| SmartContractAudit.CheckMinimumCoverage | smart_contract_audit/src/main.rs:52-55 | true exactly when every bit of the mask is covered |
| SmartContractAudit.FullCoverageCoversEveryMask | smart_contract_audit/src/main.rs:57-60 | full coverage is covering the all-ones mask, and covers every mask |
| SmartContractAudit.CheckFullCoverage | smart_contract_audit/src/main.rs:57-60 | no contract; see `SmartContractAudit.FullCoverageCoversEveryMask` |
| SmartContractAudit.AuditComplexityClosedForm | smart_contract_audit/src/main.rs:65-87 | `(cov + 1) gas^3 (fn + 7) + extra^2`, which is `extra^2` exactly for no gas |
| SmartContractAudit.AuditComplexity | smart_contract_audit/src/main.rs:65-87 | no contract; see `SmartContractAudit.AuditComplexityClosedForm` |
| SmartContractAudit.AuditScore | smart_contract_audit/src/main.rs:92-107 | a zero denominator gives 0 |
| SmartContractAudit.ScoreWithPositiveThreshold | smart_contract_audit/src/main.rs:92-107 | with a positive threshold the score is the floor of complexity over `cov + fn + threshold` |
| SmartContractAudit.MixBitsRecoversRotation | smart_contract_audit/src/main.rs:130-137 | XORing gas, mix and popcount back out recovers the rotated word |
| SmartContractAudit.MixBits | smart_contract_audit/src/main.rs:130-137 | no contract; see `SmartContractAudit.MixBitsRecoversRotation` |
| SmartContractAudit.CombineBigUintWithBitopsRecoversRotation | smart_contract_audit/src/main.rs:112-138 | the mix undoes to `v mod 2^64` rotated right by `(cov & 0xFF) mod 64` |
| SmartContractAudit.CombineBigUintWithBitops | smart_contract_audit/src/main.rs:112-138 | no contract; see `SmartContractAudit.CombineBigUintWithBitopsRecoversRotation` |
| SmartContractAudit.Reduce | smart_contract_audit/src/main.rs:156-158 | a retry divides the gas by 8 and lowers the function count by 3, floored at 0 |
| SmartContractAudit.ReducedClosedForm | smart_contract_audit/src/main.rs:156-176 | after `k` retries the gas is `gas / 8^k` and the count `max(fn - 3k, 0)` |
| SmartContractAudit.FallbackAttempt | smart_contract_audit/src/main.rs:143-178 | nothing without attempts; a result passes the coverage check |
| SmartContractAudit.FallbackAttemptIsFirstCovered | smart_contract_audit/src/main.rs:143-178 | the search finds the least number of reductions, within budget, that passes, and nothing exactly when none does |
| SmartContractAudit.PartialFallbackAudit | smart_contract_audit/src/main.rs:143-178 | 0 without attempts |
| SmartContractAudit.ShiftedLacksTopBits | smart_contract_audit/src/main.rs:156 | a word shifted right by 2 never covers a mask needing bit 30 or 31 |
| SmartContractAudit.FallbackFailsOnTopBits | smart_contract_audit/src/main.rs:143-178 | a mask needing bit 30 or 31 defeats every retry, and the result is 0 |
| SmartContractAudit.ComplementedFold | smart_contract_audit/src/main.rs:181-187 | the complement of the XOR fold; `u64::MAX` for an empty slice |
| SmartContractAudit.CombineResultsComplemented | smart_contract_audit/src/main.rs:181-187 | the loop and the final NOT compute `u64::MAX - XorFold` |
| SmartContractAudit.MainValues | smart_contract_audit/src/main.rs:222-227 | `main` combines four values |
| SmartContractAudit.Main | smart_contract_audit/src/main.rs:190-228 | insufficient coverage goes to the fallback; sufficient coverage gives a u64 value |
| SmartContractAudit.MainFullCoverage | smart_contract_audit/src/main.rs:190-228 | full coverage never falls back: the complemented fold of the four main values |
| SmartContractAudit.MainFailsOnTopBits | smart_contract_audit/src/main.rs:190-228 | insufficient coverage of a mask needing bit 30 or 31 yields 0 |
| DataProvenance.ValidateEnvironment | data_provenance/src/main.rs:54-57 | true exactly when every required bit is set |
| DataProvenance.ShiftedEnvironmentIsInvalid | data_provenance/src/main.rs:133-134 | a shifted environment has bit 0 clear and never passes |
| DataProvenance.LineageHashClosedForm | data_provenance/src/main.rs:61-77 | the hash is `8 pid (env + 1)(q + 1) 104729`, a multiple of 8 and of the prime, 0 exactly for pid 0 |
| DataProvenance.LineageHash | data_provenance/src/main.rs:61-77 | no contract; see `DataProvenance.LineageHashClosedForm` |
| DataProvenance.TransformCertificationBitmask | data_provenance/src/main.rs:81-92 | bits 6 to 31 agree with `(rotl32(c, 5) >> 2) | c` |
| DataProvenance.CombineFinalRecoversRotation | data_provenance/src/main.rs:96-117 | XORing the other terms out recovers `rotl64(h mod 2^64, 7)` |
| DataProvenance.CombineFinal | data_provenance/src/main.rs:96-117 | no contract; see `DataProvenance.CombineFinalRecoversRotation` |
| DataProvenance.FallbackAttempt | data_provenance/src/main.rs:121-156 | nothing without attempts |
| DataProvenance.FallbackAttemptSucceedsIff | data_provenance/src/main.rs:121-156 | success exactly with a budget, a valid environment and quality at least 2, and then on half the quality |
| DataProvenance.ShiftedNeverSucceeds | data_provenance/src/main.rs:121-156 | from an invalid environment no attempt succeeds |
| DataProvenance.PartialFallback | data_provenance/src/main.rs:121-156 | 0 without attempts |
| DataProvenance.FallbackFromInvalidIsZero | data_provenance/src/main.rs:121-156 | a fallback from an invalid environment yields 0 |
| DataProvenance.Main | data_provenance/src/main.rs:159-188 | an invalid environment goes to the fallback with 3 attempts |
| DataProvenance.MainInvalidIsZero | data_provenance/src/main.rs:159-178 | `main` yields 0 whenever `env & 0b101 != 0b101` |
| DataProvenance.MainValid | data_provenance/src/main.rs:159-188 | for a valid environment the result unmixes to the rotated lineage hash |
| GameLogic.ValidateActionRequirements | game_logic/src/main.rs:52-65 | true exactly when energy and focus both cover their costs |
| GameLogic.CombatDamage | game_logic/src/main.rs:69-73 | `min(ap^2, u32::MAX) / max(def, 1)` |
| GameLogic.DamageIsBounded | game_logic/src/main.rs:69-73 | never above the clamped square, and never rising with the defense |
| GameLogic.ToU64OrMax | game_logic/src/main.rs:84-85 | the saturating conversion is `min(x, u64::MAX)` |
| GameLogic.ForgeLegendaryItemMaterials | game_logic/src/main.rs:77-86 | `min(base * rarity * 1000, u64::MAX)` |
| GameLogic.ForgeIsMonotone | game_logic/src/main.rs:77-86 | monotone in both inputs, and free when either is 0 |
| GameLogic.ExperienceForLevel | game_logic/src/main.rs:89-100 | `min(level^3 + rate^2, u64::MAX)` |
| GameLogic.ExperienceGrowsWithLevel | game_logic/src/main.rs:89-100 | grows with the level and does not saturate below level 2^21 for rates below 2^31 |
| GameLogic.Low32 | game_logic/src/main.rs:104-137 | `x & 0xFFFFFFFF` is `x mod 2^32` |
| GameLogic.FallbackAttempt | game_logic/src/main.rs:104-137 | nothing without attempts; a success meets its own requirements |
| GameLogic.PartialFallback | game_logic/src/main.rs:104-137 | 0 without attempts; always below 2^32 |
| GameLogic.FallbackSucceedsAtLowRarity | game_logic/src/main.rs:104-137 | rarity 0 or 1 costs nothing after halving, so the first retry succeeds |
| GameLogic.FallbackSucceedsWithinBudget | game_logic/src/main.rs:104-137 | a rarity below 2^attempts always leads to a success |
| GameLogic.MainValues | game_logic/src/main.rs:188-194 | `main` combines five values |
| GameLogic.MainBranches | game_logic/src/main.rs:158-195 | falls back with budget 3 exactly when the forge cost or `sat(2 rarity)` focus is not covered; otherwise the XOR of cost, damage, experience, energy and materials |
| GameLogic.Main | game_logic/src/main.rs:158-195 | no contract; see `GameLogic.MainBranches` |
| GameLogic.MainNeverFallsBackAtZeroRarity | game_logic/src/main.rs:158-195 | rarity 0 never falls back |

## Left out

- WASM attributes (`#![no_main]`, `#[no_mangle]`): each `main` is an ordinary function.
- ToyRsa.IsPrimeLike: requires a candidate below (2^32-1)^2. The loop's unchecked `i * i`
  overflows for larger candidates, and that overflow is not modelled.
- ToyRsa.ModInverse: requires `InverseComputable`. The unchecked products of `extended_gcd` and
  the `as i64` casts must stay inside i64, and their overflow is not modelled.
- ToyRsa.ExtendedGcd: requires non-negative inputs whose coefficient fits i64, for the same
  reason.
- Saturating.SafeDivI64: excludes `i64::MIN / -1`, which panics in Rust.
- Saturating.SafeDivI32: excludes `i32::MIN / -1`, which panics in Rust.
- SmartContractAudit.AuditScore: requires that the unchecked sum of the denominator fits u64.
  Its report requires the same of the threshold plus two u32 values.
- SmartContractAudit.PartialFallbackAudit: `combined_result * multiplier` is the exact product
  (a `nat`) rather than a u64 that can overflow. For the same reason
  `SmartContractAudit.Main` returns a `nat`; its covered branch is proved to fit u64.
- ToyRsa.ToyRsaEncrypt and ToyRsa.ToyRsaEncryptCrt: the prime screen is modelled by the exact
  predicate `IsPrime`. The screen is the loop `ToyRsa.IsPrimeLike`, proved equal to it only
  below (2^32-1)^2, so candidates at or above that bound are excluded by preconditions.
- ToyRsa.ModInverse: the correction of a negative remainder never runs, because the coefficient
  is always positive; `ToyRsa.ReduceRemainder` states the correction on its own.
- ToyRsa.SquareAndMultiply promises only the bound for every modulus. The exact power is proved
  only for moduli up to 2^32 (`ToyRsa.SquareAndMultiplyIsPower`). Above that a product can
  saturate and the result is whatever the saturated arithmetic gives.
- `mod_inverse` is not a true inverse and the CRT variant does not agree with plain
  encryption: the code does neither, so neither is claimed. The counterexamples are proved
  instead.
- `num_bigint` internals: big integers are unbounded naturals. `to_u64_digits()[0]` is
  `value mod 2^64`, and the saturating conversions are `Min`.
- The rotations are not inverted: the mix lemmas recover the rotated word, not the word.
- The recursive fallbacks of `regulatory_compliance`, `smart_contract_audit`,
  `data_provenance` and `game_logic` are each split into a search and a report. The search
  takes the recursion's branches in the same order, and the report is computed on the inputs
  it settles on.
- `energy_usage`: the fallback levels and `main` run one shared pipeline (`EnergyUsage.RunPass`),
  computing all values before the health check. The source computes the later values only
  after the check, and as the functions are pure the results agree.
- EnergyUsage.Main: its own contract covers the invalid and unhealthy cases. The healthy case
  is stated by the lemma `EnergyUsage.MainHealthy`.
- DefiTransaction.Main: its contract states only the invalid-swap case. The two fallback
  branches (too much slippage, an unhealthy pool) are identical in the source, and the model
  merges them into one branch.
- GameLogic.Main carries no contract of its own. The lemma `GameLogic.MainBranches` states
  both branches.
- The i32 helpers of `financial_protocol` are modelled, but no other function of that file
  calls them.
- Cryptographic soundness and the running time of trial division are outside the model.
