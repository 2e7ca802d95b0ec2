/** The data-provenance oracle: an environment bitmask check, a big-integer lineage hash,
    a rotate/shift/popcount transformation of the certification mask, a rotate-and-XOR
    combination, and a retry that shifts the environment flags or halves the quality score.

    Flags are `bv32`; their numeric value enters the arithmetic through `Unsigned32`. */
module DataProvenance {
  import opened Saturating
  import opened NumberTheory
  import opened Bits
  import opened Masks
  import opened XorFolds

  /** Bits 0 and 2, the environment bits `main` and the fallback demand. */
  const REQUIRED_ENVIRONMENT: bv32 := 0x5
  /** The prime factor of the lineage hash. */
  const LINEAGE_PRIME: nat := 104729
  /** The retry budget `main` hands to the fallback. */
  const MAIN_ATTEMPTS: uint32 := 3
  /** Bits 6 to 31, which the popcount XOR of the certification transform leaves alone. */
  const HIGH_CERT_BITS: bv32 := 0xFFFF_FFC0

  // ---------------------------------------------------------------- environment check

  /** `validate_environment`: every bit of the mask is set in the environment flags. */
  function ValidateEnvironment(environment: bv32, mask: bv32): (ok: bool)
    ensures ok <==> mask & !environment == 0
    ensures ok <==> HasAllBits(environment, mask)
  {
    HasAllBitsMeansNoMissingBit(environment, mask);
    environment & mask == mask
  }

  /** Shifting left clears bit 0, so a shifted environment never has the required bits. */
  lemma ShiftedEnvironmentIsInvalid(environment: bv32)
    ensures !ValidateEnvironment(environment << 1, REQUIRED_ENVIRONMENT)
  {
  }

  // ---------------------------------------------------------------- lineage hash

  /** `compute_data_lineage_hash` on big integers: the product id shifted left by 3, times
      environment + 1, quality + 1 and the prime. */
  function LineageHash(productId: uint64, environment: uint32, quality: uint64): nat {
    ShiftLeft(productId, 3) * (environment + 1) * (quality + 1) * LINEAGE_PRIME
  }

  /** The hash is 8 * id * (environment + 1) * (quality + 1) * 104729: a multiple of 8 and of
      the prime, and zero exactly for product id 0. */
  lemma LineageHashClosedForm(productId: uint64, environment: uint32, quality: uint64)
    ensures LineageHash(productId, environment, quality) ==
      8 * productId * (environment + 1) * (quality + 1) * LINEAGE_PRIME
    ensures LineageHash(productId, environment, quality) % 8 == 0
    ensures LineageHash(productId, environment, quality) % LINEAGE_PRIME == 0
    ensures LineageHash(productId, environment, quality) == 0 <==> productId == 0
  {
    assert Pow2(3) == 8 by { assert Pow2(2) == 4; }
    var rest := productId * (environment + 1) * (quality + 1);
    assert LineageHash(productId, environment, quality) == 8 * rest * LINEAGE_PRIME;
    MultipleIsDivisible(8, rest * LINEAGE_PRIME, 8 * rest * LINEAGE_PRIME);
    MultipleIsDivisible(LINEAGE_PRIME, 8 * rest, 8 * rest * LINEAGE_PRIME);
    if productId > 0 {
      MulBothAtLeast(productId, environment + 1, 1);
      MulBothAtLeast(productId * (environment + 1), quality + 1, 1);
      MulBothAtLeast(8 * rest, LINEAGE_PRIME, 1);
    }
  }

  // ---------------------------------------------------------------- certification transform

  /** A popcount, at most 32, has no bit from 6 upward. */
  lemma SmallCountHasNoHighBits(pop: nat)
    requires pop <= 32
    ensures (pop as bv32) & HIGH_CERT_BITS == 0
  {
  }

  /** `transform_certification_bitmask`: rotate left by 5, shift right by 2, OR in the
      original, then XOR with the popcount of that. The XOR touches only bits 0 to 5. */
  function TransformCertificationBitmask(cert: bv32): (r: bv32)
    ensures r & HIGH_CERT_BITS == ((RotateLeft32(cert, 5) >> 2) | cert) & HIGH_CERT_BITS
  {
    var combined := (RotateLeft32(cert, 5) >> 2) | cert;
    var pop := PopCount32(combined);
    SmallCountHasNoHighBits(pop);
    XorWithLowBits(combined, pop as bv32);
    combined ^ (pop as bv32)
  }

  /** XORing a value without high bits leaves the high bits alone. */
  lemma XorWithLowBits(x: bv32, low: bv32)
    requires low & HIGH_CERT_BITS == 0
    ensures (x ^ low) & HIGH_CERT_BITS == x & HIGH_CERT_BITS
  {
  }

  /** The transformed certification mask as a number. */
  function TransformedCertificate(cert: bv32): uint32 {
    Unsigned32(TransformCertificationBitmask(cert))
  }

  // ---------------------------------------------------------------- final combination

  /** `combine_final`: the hash's lowest 64-bit digit rotated left by 7, XORed with the
      validity bit, the transformed certificate and the quality score. */
  function CombineFinal(hash: nat, valid: bool, cert: uint32, quality: uint64): (r: uint64) {
    var rotated := RotateLeftU64(LowDigit64(hash), 7);
    var validityBit := if valid then 1 else 0;
    XorBelow64(rotated, validityBit);
    XorBelow64(cert, quality);
    XorBelow64(Xor(rotated, validityBit), Xor(cert, quality));
    Xor(Xor(rotated, validityBit), Xor(cert, quality))
  }

  /** XORing the certificate, the quality and the validity bit back out recovers the hash's
      low digit rotated left by 7. */
  lemma CombineFinalRecoversRotation(hash: nat, valid: bool, cert: uint32, quality: uint64)
    ensures Xor(Xor(CombineFinal(hash, valid, cert, quality), Xor(cert, quality)), if valid then 1 else 0) ==
      RotateLeftU64(hash % 0x1_0000_0000_0000_0000, 7)
  {
    var rotated := RotateLeftU64(LowDigit64(hash), 7);
    var validityBit := if valid then 1 else 0;
    XorCancels(Xor(rotated, validityBit), Xor(cert, quality));
    XorCancels(rotated, validityBit);
  }

  /** The report of a successful check: the lineage hash of the environment and quality
      used, combined with a set validity bit. */
  function Report(productId: uint64, environment: bv32, quality: uint64, cert: bv32): uint64 {
    CombineFinal(LineageHash(productId, Unsigned32(environment), quality), true, TransformedCertificate(cert), quality)
  }

  // ---------------------------------------------------------------- fallback

  /** The environment and quality score a fallback step reports on. */
  datatype Candidate = Candidate(environment: bv32, quality: uint64)

  /** The recursion of `partial_fallback`: the shifted environment with the full score, else
      the unshifted environment with the halved score when that is valid and positive, else
      the next attempt from the shifted environment. */
  function FallbackAttempt(environment: bv32, quality: uint64, attempts: uint32): (r: Option<Candidate>)
    ensures attempts == 0 ==> r == None
    decreases attempts
  {
    if attempts == 0 then None
    else
      var shifted := environment << 1;
      if ValidateEnvironment(shifted, REQUIRED_ENVIRONMENT) then Some(Candidate(shifted, quality))
      else
        var halfQuality := SafeDivU64(quality, 2);
        if ValidateEnvironment(environment, REQUIRED_ENVIRONMENT) && halfQuality > 0 then
          Some(Candidate(environment, halfQuality))
        else FallbackAttempt(shifted, quality, attempts - 1)
  }

  /** The fallback succeeds exactly when it has a budget, starts from a valid environment and
      has a score of at least 2, and then it reports on that environment with half the
      score. */
  lemma {:induction false} FallbackAttemptSucceedsIff(environment: bv32, quality: uint64, attempts: uint32)
    ensures FallbackAttempt(environment, quality, attempts).Some? <==>
      attempts > 0 && ValidateEnvironment(environment, REQUIRED_ENVIRONMENT) && quality >= 2
    ensures FallbackAttempt(environment, quality, attempts).Some? ==>
      FallbackAttempt(environment, quality, attempts).value == Candidate(environment, quality / 2)
    decreases attempts
  {
    if attempts > 0 {
      ShiftedEnvironmentIsInvalid(environment);
      assert SafeDivU64(quality, 2) == quality / 2;
      if !(ValidateEnvironment(environment, REQUIRED_ENVIRONMENT) && quality >= 2) {
        ShiftedNeverSucceeds(environment << 1, quality, attempts - 1);
      }
    }
  }

  /** From a shifted environment no attempt ever succeeds. */
  lemma {:induction false} ShiftedNeverSucceeds(environment: bv32, quality: uint64, attempts: uint32)
    requires !ValidateEnvironment(environment, REQUIRED_ENVIRONMENT)
    ensures FallbackAttempt(environment, quality, attempts) == None
    decreases attempts
  {
    if attempts > 0 {
      ShiftedEnvironmentIsInvalid(environment);
      ShiftedNeverSucceeds(environment << 1, quality, attempts - 1);
    }
  }

  /** `partial_fallback`: the report on the candidate the search finds, 0 when it finds
      none. */
  function PartialFallback(environment: bv32, quality: uint64, productId: uint64, cert: bv32, attempts: uint32): (r: uint64)
    ensures attempts == 0 ==> r == 0
  {
    match FallbackAttempt(environment, quality, attempts)
    case Some(c) => Report(productId, c.environment, c.quality, cert)
    case None => 0
  }

  /** Started from an invalid environment, the fallback yields 0. */
  lemma FallbackFromInvalidIsZero(environment: bv32, quality: uint64, productId: uint64, cert: bv32, attempts: uint32)
    requires !ValidateEnvironment(environment, REQUIRED_ENVIRONMENT)
    ensures PartialFallback(environment, quality, productId, cert, attempts) == 0
  {
    ShiftedNeverSucceeds(environment, quality, attempts);
  }

  // ---------------------------------------------------------------- main

  /** `main`: an invalid environment goes to the fallback with 3 attempts; a valid one is
      reported on with the full quality score. */
  function Main(productId: uint64, environment: bv32, quality: uint64, cert: bv32): (r: uint64)
    ensures !ValidateEnvironment(environment, REQUIRED_ENVIRONMENT) ==>
      r == PartialFallback(environment, quality, productId, cert, MAIN_ATTEMPTS)
  {
    if !ValidateEnvironment(environment, REQUIRED_ENVIRONMENT) then
      PartialFallback(environment, quality, productId, cert, MAIN_ATTEMPTS)
    else
      Report(productId, environment, quality, cert)
  }

  /** `main` yields 0 when the environment lacks bit 0 or bit 2: a fallback from an invalid
      flag never succeeds. */
  lemma MainInvalidIsZero(productId: uint64, environment: bv32, quality: uint64, cert: bv32)
    requires !ValidateEnvironment(environment, REQUIRED_ENVIRONMENT)
    ensures Main(productId, environment, quality, cert) == 0
  {
    FallbackFromInvalidIsZero(environment, quality, productId, cert, MAIN_ATTEMPTS);
  }

  /** For a valid environment `main` XORs the rotated low digit of the lineage hash with a set
      validity bit, the transformed certificate and the quality score. */
  lemma MainValid(productId: uint64, environment: bv32, quality: uint64, cert: bv32)
    requires ValidateEnvironment(environment, REQUIRED_ENVIRONMENT)
    ensures Xor(Xor(Main(productId, environment, quality, cert), Xor(TransformedCertificate(cert), quality)), 1) ==
      RotateLeftU64(LineageHash(productId, Unsigned32(environment), quality) % 0x1_0000_0000_0000_0000, 7)
  {
    CombineFinalRecoversRotation(LineageHash(productId, Unsigned32(environment), quality), true,
                                 TransformedCertificate(cert), quality);
  }
}
