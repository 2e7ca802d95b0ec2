/** The toy RSA oracle: a trial-division primality screen, Euclid's gcd, square-and-multiply
    modular exponentiation, textbook encryption `m^e mod p*q` guarded by those checks, a
    retry that halves both primes, a CRT-style variant built on a recursive
    `extended_gcd`/`mod_inverse`, and a `main` that combines the results with XOR.

    The loops of the source (`is_prime_like`, `gcd_u64`, `mod_exp`) are methods proved
    against the functions `IsPrime`, `Gcd` and `ModExp`; the expression-only and recursive
    operations, which use those functions, are functions. */
module ToyRsa {
  import opened Saturating
  import opened NumberTheory
  import opened XorFolds

  /** (2^32 - 1)^2. Below it, every `i * i` the screen evaluates fits in a u64. */
  const SCREEN_LIMIT: int := 0xFFFF_FFFE_0000_0001

  // ---------------------------------------------------------------- is_prime_like

  /** `is_prime_like`: trial division by 2, 3, ... while `i * i <= candidate`. The answer is
      exactly primality. */
  method IsPrimeLike(candidate: uint64) returns (r: bool)
    requires candidate < SCREEN_LIMIT
    ensures r == IsPrime(candidate)
  {
    if candidate < 2 {
      return false;
    }
    var i: uint64 := 2;
    while i * i <= candidate
      invariant 2 <= i <= 0xFFFF_FFFF
      invariant forall d :: 2 <= d < i ==> !Divides(d, candidate)
      decreases candidate - i
    {
      SquareBelowLimit(i);
      if SafeDivU64(candidate, i) * i == candidate {
        assert Divides(i, candidate);
        MulBothAtLeast(i, i, 2);
        return false;
      }
      i := i + 1;
    }
    PrimeFromSquareRootBound(candidate, i);
    return true;
  }

  /** A square below the limit has a root below 2^32 - 1. */
  lemma SquareBelowLimit(i: nat)
    requires i * i < SCREEN_LIMIT
    ensures i < 0xFFFF_FFFF && i <= i * i
  {
    if i >= 0xFFFF_FFFF {
      MulBothAtLeast(i, i, 0xFFFF_FFFF);
    }
    if i > 0 {
      MulBothAtLeast(i, i, 1);
      assert i * i >= i * 1;
    }
  }

  // ---------------------------------------------------------------- gcd_u64

  /** `gcd_u64`: Euclid's loop, which yields the greatest common divisor. */
  method GcdU64(a0: uint64, b0: uint64) returns (g: uint64)
    ensures g == Gcd(a0, b0)
  {
    var a, b := a0, b0;
    while b != 0
      invariant Gcd(a, b) == Gcd(a0, b0)
      decreases b
    {
      a, b := b, a % b;
    }
    g := a;
  }

  // ---------------------------------------------------------------- mod_exp

  /** The value the square-and-multiply loop returns once it has consumed the remaining
      exponent `e`, from the accumulator `result` and the running square `current`. The
      test `e & 1 == 1` is `e % 2 == 1` and `e >>= 1` is `e / 2`. */
  function SquareAndMultiply(result: uint64, current: uint64, e: nat, modulus: uint64): (r: uint64)
    requires modulus > 0
    ensures e > 0 ==> r < modulus
    decreases e
  {
    if e == 0 then result
    else
      var result' := if e % 2 == 1 then SafeMulU64(result, current) % modulus else result;
      SquareAndMultiply(result', SafeMulU64(current, current) % modulus, e / 2, modulus)
  }

  /** `mod_exp`: 0 for a zero modulus, otherwise the square-and-multiply loop started
      from 1 and `base % modulus`. The accumulator is never reduced before the first
      multiplication, so a zero exponent gives 1 even for modulus 1. */
  function ModExp(base: uint64, exp: uint64, modulus: uint64): (r: uint64)
    ensures modulus == 0 ==> r == 0
    ensures exp == 0 && modulus > 0 ==> r == 1
    ensures exp > 0 && modulus > 0 ==> r < modulus
  {
    if modulus == 0 then 0 else SquareAndMultiply(1, base % modulus, exp, modulus)
  }

  /** The loop of `mod_exp`, which computes `ModExp`. */
  method ModExpIterative(base: uint64, exp: uint64, modulus: uint64) returns (r: uint64)
    ensures r == ModExp(base, exp, modulus)
  {
    if modulus == 0 {
      return 0;
    }
    var result: uint64 := 1;
    var current: uint64 := base % modulus;
    var e: uint64 := exp;
    while e > 0
      invariant SquareAndMultiply(result, current, e, modulus) == ModExp(base, exp, modulus)
      decreases e
    {
      if e % 2 == 1 {
        result := SafeMulU64(result, current) % modulus;
      }
      current := SafeMulU64(current, current) % modulus;
      e := e / 2;
    }
    r := result;
  }

  /** With a modulus of at most 2^32 no product saturates, and the loop really computes
      `result * current^e mod modulus`. */
  lemma {:induction false} SquareAndMultiplyIsPower(result: uint64, current: uint64, e: nat, m: uint64)
    requires 0 < m <= 0x1_0000_0000 && result <= m && current < m
    requires e > 0 || result < m
    ensures SquareAndMultiply(result, current, e, m) == (result * Pow(current, e)) % m
    decreases e
  {
    if e == 0 {
      DivModUnique(result, m, 0, result);
    } else {
      var k := e / 2;
      MulBothBelow(result, current, m);
      MulBothBelow(current, current, m);
      var c' := (current * current) % m;
      var r' := if e % 2 == 1 then (result * current) % m else result;
      assert SafeMulU64(result, current) == result * current;
      assert SafeMulU64(current, current) == current * current;
      if k == 0 {
        assert e == 1;
      } else {
        SquareAndMultiplyIsPower(r', c', k, m);
        SquaredBaseStep(r', current, k, m);
        if e % 2 == 1 {
          OddExponentStep(result, current, k, m);
        }
      }
    }
  }

  /** Squaring the base modulo `m` and halving the exponent leaves the power unchanged
      modulo `m`. */
  lemma SquaredBaseStep(r: nat, current: nat, k: nat, m: nat)
    requires m > 0
    ensures (r * Pow((current * current) % m, k)) % m == (r * Pow(current, 2 * k)) % m
  {
    var c' := (current * current) % m;
    PowMod(current * current, k, m);
    PowSquare(current, k);
    calc {
      (r * Pow(c', k)) % m;
    ==  { ModMulRight(r, Pow(c', k), m); }
      (r * (Pow(c', k) % m)) % m;
    ==
      (r * (Pow(current, 2 * k) % m)) % m;
    ==  { ModMulRight(r, Pow(current, 2 * k), m); }
      (r * Pow(current, 2 * k)) % m;
    }
  }

  /** For an odd exponent the result first absorbs one factor of the base. */
  lemma OddExponentStep(result: nat, current: nat, k: nat, m: nat)
    requires m > 0
    ensures (((result * current) % m) * Pow(current, 2 * k)) % m == (result * Pow(current, 2 * k + 1)) % m
  {
    calc {
      (((result * current) % m) * Pow(current, 2 * k)) % m;
    ==  { ModMulLeft(result * current, Pow(current, 2 * k), m); }
      ((result * current) * Pow(current, 2 * k)) % m;
    ==  { assert (result * current) * Pow(current, 2 * k) == result * (current * Pow(current, 2 * k)); }
      (result * Pow(current, 2 * k + 1)) % m;
    }
  }

  lemma MulBothBelow(x: nat, y: nat, m: nat)
    requires x <= m && y < m && m <= 0x1_0000_0000
    ensures x * y < 0x1_0000_0000_0000_0000
  {
    MulIsMonotone(x, m, y);
    MulIsMonotone(y + 1, m, m);
    MulIsMonotone(m, 0x1_0000_0000, m);
    MulIsMonotone(m, 0x1_0000_0000, 0x1_0000_0000);
  }

  /** For a modulus of at most 2^32, `mod_exp` is `base^exp mod modulus`, except that a
      zero exponent with modulus 1 gives 1 rather than 0. */
  lemma ModExpIsPower(base: uint64, exp: uint64, modulus: uint64)
    requires 0 < modulus <= 0x1_0000_0000
    requires exp > 0 || modulus > 1
    ensures ModExp(base, exp, modulus) == Pow(base, exp) % modulus
  {
    SquareAndMultiplyIsPower(1, base % modulus, exp, modulus);
    PowMod(base, exp, modulus);
  }

  /** The one disagreement with `base^exp mod modulus`: exponent 0, modulus 1. */
  lemma ModExpZeroExponentModulusOne(base: uint64)
    ensures ModExp(base, 0, 1) == 1 && Pow(base, 0) % 1 == 0
  {
  }

  // ---------------------------------------------------------------- toy_rsa_encrypt

  /** The totient `(p - 1)(q - 1)` as the source computes it, with saturation. */
  function Totient(p: uint64, q: uint64): (phi: uint64)
    ensures p >= 1 && q >= 1 && (p - 1) * (q - 1) <= U64_MAX ==> phi == (p - 1) * (q - 1)
  {
    SafeMulU64(SafeSubU64(p, 1), SafeSubU64(q, 1))
  }

  /** `toy_rsa_encrypt`: 0 unless both candidates are prime and `e` is coprime to the
      totient; otherwise `message^e mod p*q` by `mod_exp`. */
  function ToyRsaEncrypt(p: uint64, q: uint64, e: uint64, message: uint64): (r: uint64)
    requires p < SCREEN_LIMIT && q < SCREEN_LIMIT
    ensures r != 0 ==> IsPrime(p) && IsPrime(q) && Gcd(e, Totient(p, q)) == 1
    ensures IsPrime(p) && IsPrime(q) && e > 0 ==> r < SafeMulU64(p, q)
  {
    if !IsPrime(p) || !IsPrime(q) then 0
    else
      var n := SafeMulU64(p, q);
      if Gcd(e, Totient(p, q)) != 1 then 0 else ModExp(message, e, n)
  }

  /** With valid primes whose product is at most 2^32 and an exponent coprime to the
      totient, the result is textbook RSA encryption. */
  lemma ToyRsaEncryptIsRsa(p: uint64, q: uint64, e: uint64, message: uint64)
    requires p < SCREEN_LIMIT && q < SCREEN_LIMIT
    requires IsPrime(p) && IsPrime(q) && p * q <= 0x1_0000_0000
    requires Gcd(e, (p - 1) * (q - 1)) == 1
    ensures ToyRsaEncrypt(p, q, e, message) == Pow(message, e) % (p * q)
  {
    ProductOfPrimes(p, q);
    assert Totient(p, q) == (p - 1) * (q - 1);
    assert SafeMulU64(p, q) == p * q;
    ModExpIsPower(message, e, p * q);
  }

  lemma ProductOfPrimes(p: nat, q: nat)
    requires p >= 2 && q >= 2
    ensures p * q >= 4 && (p - 1) * (q - 1) < p * q
  {
    MulBothAtLeast(p, q, 2);
    assert (p - 1) * (q - 1) == p * q - p - q + 1;
  }

  lemma PrimesSixtyOneAndFiftyThree()
    ensures IsPrime(61) && IsPrime(53)
  {
    assert NoDivisorFrom(61, 2);
    NoDivisorFromMeansPrime(61, 2);
    assert NoDivisorFrom(53, 2);
    NoDivisorFromMeansPrime(53, 2);
  }

  lemma PrimesTwoAndThree()
    ensures IsPrime(2) && IsPrime(3)
  {
  }

  /** The textbook example: p = 61, q = 53, e = 17 encrypts 65 to 2790. */
  lemma ToyRsaEncryptExample()
    ensures ToyRsaEncrypt(61, 53, 17, 65) == 2790
  {
    PrimesSixtyOneAndFiftyThree();
    assert Totient(61, 53) == 3120;
    assert Gcd(17, 3120) == 1;
    ModExpExample();
  }

  /** 65^17 mod 3233 is 2790, by the five rounds of square-and-multiply. */
  lemma ModExpExample()
    ensures ModExp(65, 17, 3233) == 2790
  {
    ExampleFromExponent17();
  }

  // The rounds of 65^17 mod 3233, one lemma per remaining exponent 17, 8, 4, 2, 1.

  lemma ExampleFromExponent1()
    ensures SquareAndMultiply(65, 789, 1, 3233) == 2790
  {
    OddRound(65, 789, 1, 3233, 2790, 1785);
  }

  lemma ExampleFromExponent2()
    ensures SquareAndMultiply(65, 1547, 2, 3233) == 2790
  {
    EvenRound(65, 1547, 2, 3233, 789);
    ExampleFromExponent1();
  }

  lemma ExampleFromExponent4()
    ensures SquareAndMultiply(65, 1232, 4, 3233) == 2790
  {
    EvenRound(65, 1232, 4, 3233, 1547);
    ExampleFromExponent2();
  }

  lemma ExampleFromExponent8()
    ensures SquareAndMultiply(65, 992, 8, 3233) == 2790
  {
    EvenRound(65, 992, 8, 3233, 1232);
    ExampleFromExponent4();
  }

  lemma ExampleFromExponent17()
    ensures SquareAndMultiply(1, 65, 17, 3233) == 2790
  {
    OddRound(1, 65, 17, 3233, 65, 992);
    ExampleFromExponent8();
  }

  /** One round of the loop on an odd exponent, with the new accumulator and square given. */
  lemma OddRound(result: uint64, current: uint64, e: nat, m: uint64, result': uint64, current': uint64)
    requires m > 0 && e % 2 == 1
    requires result' == SafeMulU64(result, current) % m
    requires current' == SafeMulU64(current, current) % m
    ensures SquareAndMultiply(result, current, e, m) == SquareAndMultiply(result', current', e / 2, m)
  {
  }

  /** One round of the loop on an even, nonzero exponent, with the new square given. */
  lemma EvenRound(result: uint64, current: uint64, e: nat, m: uint64, current': uint64)
    requires m > 0 && e > 0 && e % 2 == 0
    requires current' == SafeMulU64(current, current) % m
    ensures SquareAndMultiply(result, current, e, m) == SquareAndMultiply(result, current', e / 2, m)
  {
  }

  // ---------------------------------------------------------------- partial_fallback

  /** `partial_fallback`: halve both candidates and retry, at most `attempts` times. */
  function PartialFallback(p: uint64, q: uint64, e: uint64, message: uint64, attempts: uint64): (r: uint64)
    requires p < SCREEN_LIMIT && q < SCREEN_LIMIT
    ensures attempts == 0 ==> r == 0
    decreases attempts
  {
    if attempts == 0 then 0
    else
      var pHalf, qHalf := SafeDivU64(p, 2), SafeDivU64(q, 2);
      var encryptedHalf := ToyRsaEncrypt(pHalf, qHalf, e, message);
      if encryptedHalf != 0 then encryptedHalf
      else PartialFallback(pHalf, qHalf, e, message, attempts - 1)
  }

  /** Retry number `k`: encryption with both candidates halved `k` times. */
  function Retry(p: uint64, q: uint64, e: uint64, message: uint64, k: nat): (r: uint64)
    requires p < SCREEN_LIMIT && q < SCREEN_LIMIT
  {
    ToyRsaEncrypt(Halve(p, k), Halve(q, k), e, message)
  }

  /** The first nonzero retry among `k..last`, or 0 if there is none. */
  function FirstSuccess(p: uint64, q: uint64, e: uint64, message: uint64, k: nat, last: nat): (r: uint64)
    requires p < SCREEN_LIMIT && q < SCREEN_LIMIT
    decreases last + 1 - k
  {
    if k > last then 0
    else if Retry(p, q, e, message, k) != 0 then Retry(p, q, e, message, k)
    else FirstSuccess(p, q, e, message, k + 1, last)
  }

  /** Retrying from the halved candidates is retrying one step further from the originals. */
  lemma {:induction false} FirstSuccessOfHalves(p: uint64, q: uint64, e: uint64, message: uint64, k: nat, last: nat)
    requires p < SCREEN_LIMIT && q < SCREEN_LIMIT
    ensures FirstSuccess(p / 2, q / 2, e, message, k, last) == FirstSuccess(p, q, e, message, k + 1, last + 1)
    decreases last + 1 - k
  {
    if k <= last {
      assert Retry(p / 2, q / 2, e, message, k) == Retry(p, q, e, message, k + 1);
      FirstSuccessOfHalves(p, q, e, message, k + 1, last);
    }
  }

  /** `partial_fallback` returns the first nonzero retry among 1..attempts, or 0. */
  lemma {:induction false} PartialFallbackIsFirstSuccess(p: uint64, q: uint64, e: uint64, message: uint64, attempts: uint64)
    requires p < SCREEN_LIMIT && q < SCREEN_LIMIT
    ensures PartialFallback(p, q, e, message, attempts) == FirstSuccess(p, q, e, message, 1, attempts)
    decreases attempts
  {
    if attempts > 0 {
      assert Retry(p, q, e, message, 1) == ToyRsaEncrypt(p / 2, q / 2, e, message);
      PartialFallbackIsFirstSuccess(p / 2, q / 2, e, message, attempts - 1);
      FirstSuccessOfHalves(p, q, e, message, 1, attempts - 1);
    }
  }

  // ---------------------------------------------------------------- extended_gcd and mod_inverse

  /** The coefficient `extended_gcd` builds, without any width limit: 1 at the base case,
      and `x1 - (0 - a / b) * x1 = x1 + (a / b) * x1` on the way back, where Bezout's
      recurrence would subtract the product from the other coefficient. */
  function Coefficient(a: nat, b: nat): (x: nat)
    ensures x >= 1
    decreases b
  {
    if b == 0 then 1
    else
      var x1 := Coefficient(b, a % b);
      x1 + (a / b) * x1
  }

  /** `extended_gcd` on non-negative i64 inputs whose coefficients stay within i64 (the
      unchecked products of the source are excluded). The first component is the gcd;
      the second is `Coefficient`, always positive. */
  function ExtendedGcd(a: int64, b: int64): (r: (int64, int64))
    requires a >= 0 && b >= 0 && Coefficient(a, b) <= I64_MAX
    ensures r.0 == Gcd(a, b)
    ensures r.1 == Coefficient(a, b) && r.1 >= 1
    decreases b
  {
    if b == 0 then (a, 1)
    else
      CoefficientStep(a, b);
      var (g, x1) := ExtendedGcd(b, a % b);
      var x := SafeSubI64(0, SafeDivI64(a, b)) * x1;
      (g, x1 - x)
  }

  /** The arithmetic of one step back up `extended_gcd`: the negated quotient is exact,
      and its product with the inner coefficient stays within i64. */
  lemma CoefficientStep(a: int64, b: int64)
    requires a >= 0 && b > 0 && Coefficient(a, b) <= I64_MAX
    ensures Coefficient(b, a % b) <= Coefficient(a, b)
    ensures SafeSubI64(0, SafeDivI64(a, b)) == -(a / b)
    ensures I64_MIN <= -(a / b) * Coefficient(b, a % b) <= 0
    ensures Coefficient(b, a % b) - (-(a / b)) * Coefficient(b, a % b) == Coefficient(a, b)
  {
    NegatedQuotient(a, b);
    CoefficientUnfold(a, b);
    ProductWithin(a / b, Coefficient(b, a % b));
  }

  lemma CoefficientUnfold(a: nat, b: nat)
    requires b > 0
    ensures Coefficient(a, b) == Coefficient(b, a % b) + (a / b) * Coefficient(b, a % b)
  {
  }

  lemma NegatedQuotient(a: int64, b: int64)
    requires a >= 0 && b > 0
    ensures 0 <= a / b <= a
    ensures SafeSubI64(0, SafeDivI64(a, b)) == -(a / b)
  {
    DivIsAtMost(a, b);
  }

  lemma ProductWithin(q: int, x1: int)
    requires q >= 0 && x1 >= 0 && x1 + q * x1 <= I64_MAX
    ensures x1 <= x1 + q * x1 && I64_MIN <= (-q) * x1 <= 0 && (-q) * x1 == -(q * x1)
  {
    assert 0 <= q * x1;
    assert -q * x1 == -(q * x1);
  }

  /** The inputs on which `mod_inverse` stays inside i64: both below 2^63, so the `as i64`
      casts are exact, and `extended_gcd`'s coefficient fits. */
  predicate InverseComputable(a: uint64, m: uint64) {
    a <= I64_MAX && m <= I64_MAX && Coefficient(a, m) <= I64_MAX
  }

  /** Rust's `%` on integers: the remainder of truncating division, with the sign of `a`. */
  function TruncRem(a: int, b: int): (r: int)
    requires b != 0
    ensures a >= 0 && b > 0 ==> r == a % b
    ensures Abs(r) < Abs(b)
  {
    a - b * TruncDiv(a, b)
  }

  /** `mod_inverse`: 0 for a zero modulus or when the gcd is not 1, otherwise the
      coefficient of `extended_gcd` reduced modulo `m`. That coefficient is positive, so the
      source's correction of a negative remainder never runs. */
  function ModInverse(a: uint64, m: uint64): (r: uint64)
    requires m != 0 ==> InverseComputable(a, m)
    ensures m == 0 || Gcd(a, m) != 1 ==> r == 0
    ensures m != 0 && Gcd(a, m) == 1 ==> r == Coefficient(a, m) % m
    ensures m != 0 ==> r < m
  {
    if m == 0 then 0
    else
      var (g, x) := ExtendedGcd(a, m);
      if g != 1 then 0
      else
        ReduceRemainder(TruncRem(x, m), m)
  }

  /** The correction step of `mod_inverse`: a negative remainder is moved up by `m`. */
  function ReduceRemainder(inv: int64, m: int64): (r: int64)
    ensures inv >= 0 ==> r == inv
    ensures inv < 0 && 0 < m ==> r == inv + m
  {
    if inv < 0 then SafeAddI64(inv, m) else inv
  }

  /** `mod_inverse(2, 5)` is 4, yet 2 * 4 is 3 modulo 5: the result is not an inverse. */
  lemma ModInverseIsNotAnInverse()
    ensures ModInverse(2, 5) == 4 && (2 * 4) % 5 == 3
  {
    assert Coefficient(2, 5) == 9;
    assert Gcd(2, 5) == 1;
  }

  /** `mod_inverse(3, 2)` is 0 although 3 and 2 are coprime. */
  lemma ModInverseOfCoprimeCanBeZero()
    ensures Gcd(3, 2) == 1 && ModInverse(3, 2) == 0
  {
    assert Coefficient(3, 2) == 6;
  }

  // ---------------------------------------------------------------- toy_rsa_encrypt_crt

  /** What the CRT variant needs of its callers: when both candidates are prime, the two
      inverses it takes are computable. */
  predicate CrtComputable(p: uint64, q: uint64) {
    IsPrime(p) && IsPrime(q) ==> InverseComputable(q, p) && InverseComputable(p, q)
  }

  /** `toy_rsa_encrypt_crt`: 0 on a failed prime screen or a zero inverse, otherwise a sum
      of the two half encryptions weighted by the inverses, reduced modulo `p * q`. */
  function ToyRsaEncryptCrt(p: uint64, q: uint64, e: uint64, message: uint64): (r: uint64)
    requires p < SCREEN_LIMIT && q < SCREEN_LIMIT && CrtComputable(p, q)
    ensures r != 0 ==> IsPrime(p) && IsPrime(q) && ModInverse(q, p) != 0 && ModInverse(p, q) != 0
    ensures r != 0 ==> r < SafeMulU64(p, q)
  {
    if !IsPrime(p) || !IsPrime(q) then 0
    else
      var n := SafeMulU64(p, q);
      var pEnc := ModExp(message, e, p);
      var qEnc := ModExp(message, e, q);
      var qInvModP := ModInverse(q, p);
      var pInvModQ := ModInverse(p, q);
      if qInvModP == 0 || pInvModQ == 0 then 0
      else
        var term1 := SafeMulU64(q, qInvModP) % n;
        var partial1 := SafeMulU64(term1, pEnc) % n;
        var term2 := SafeMulU64(p, pInvModQ) % n;
        var partial2 := SafeMulU64(term2, qEnc) % n;
        SafeAddU64(partial1, partial2) % n
  }

  /** With p = 2 and q = 3 the inverse of 3 modulo 2 comes out 0, so the CRT path fails. */
  lemma CrtFailsForTwoAndThree(e: uint64, message: uint64)
    ensures CrtComputable(2, 3)
    ensures ToyRsaEncryptCrt(2, 3, e, message) == 0
  {
    CrtComputableForTwoAndThree();
    ModInverseOfCoprimeCanBeZero();
  }

  lemma CrtComputableForTwoAndThree()
    ensures CrtComputable(2, 3)
  {
    assert Coefficient(1, 0) == 1;
    assert Coefficient(2, 1) == 3;
    assert Coefficient(3, 2) == 6;
    assert Coefficient(2, 3) == 6;
    assert InverseComputable(3, 2) && InverseComputable(2, 3);
  }

  // ---------------------------------------------------------------- main

  /** `main`: standard encryption; if that gives 0, the fallback with three attempts;
      otherwise the XOR of the encryption with the CRT variant (or with 0). */
  function Main(p: uint64, q: uint64, e: uint64, message: uint64, useCrt: uint64): (r: uint64)
    requires p < SCREEN_LIMIT && q < SCREEN_LIMIT
    requires useCrt == 1 && ToyRsaEncrypt(p, q, e, message) != 0 ==> CrtComputable(p, q)
    ensures ToyRsaEncrypt(p, q, e, message) == 0 ==> r == PartialFallback(p, q, e, message, 3)
    ensures ToyRsaEncrypt(p, q, e, message) != 0 && useCrt != 1 ==> r == ToyRsaEncrypt(p, q, e, message)
  {
    var encrypted := ToyRsaEncrypt(p, q, e, message);
    if encrypted == 0 then
      var fallbackEncrypted := PartialFallback(p, q, e, message, 3);
      if fallbackEncrypted == 0 then 0 else fallbackEncrypted
    else
      var crtEncrypted := if useCrt == 1 then ToyRsaEncryptCrt(p, q, e, message) else 0;
      XorFoldPair(encrypted, crtEncrypted);
      XorBelow64(encrypted, crtEncrypted);
      XorFold([encrypted, crtEncrypted])
  }

  /** When standard encryption fails, `main` is the fallback with budget 3, whatever
      `use_crt` says. */
  lemma MainFallsBack(p: uint64, q: uint64, e: uint64, message: uint64, useCrt: uint64)
    requires p < SCREEN_LIMIT && q < SCREEN_LIMIT
    requires ToyRsaEncrypt(p, q, e, message) == 0
    ensures Main(p, q, e, message, useCrt) == FirstSuccess(p, q, e, message, 1, 3)
  {
    PartialFallbackIsFirstSuccess(p, q, e, message, 3);
  }

  /** When standard encryption succeeds, `main` XORs it with the CRT result, and returns it
      unchanged unless `use_crt` is 1. */
  lemma MainCombines(p: uint64, q: uint64, e: uint64, message: uint64, useCrt: uint64)
    requires p < SCREEN_LIMIT && q < SCREEN_LIMIT
    requires useCrt == 1 ==> CrtComputable(p, q)
    requires ToyRsaEncrypt(p, q, e, message) != 0
    ensures useCrt == 1 ==> Main(p, q, e, message, useCrt) == Xor(ToyRsaEncrypt(p, q, e, message), ToyRsaEncryptCrt(p, q, e, message))
    ensures useCrt != 1 ==> Main(p, q, e, message, useCrt) == ToyRsaEncrypt(p, q, e, message)
  {
    XorFoldPair(ToyRsaEncrypt(p, q, e, message), if useCrt == 1 then ToyRsaEncryptCrt(p, q, e, message) else 0);
  }

  /** The textbook example through `main`, without the CRT path. */
  lemma MainExample()
    ensures Main(61, 53, 17, 65, 0) == 2790
  {
    ToyRsaEncryptExample();
    MainCombines(61, 53, 17, 65, 0);
  }

  /** With p = 2, q = 3 the CRT path contributes 0, so `main` returns the plain encryption. */
  lemma MainCrtExample()
    ensures Main(2, 3, 1, 5, 1) == 5
  {
    PrimesTwoAndThree();
    assert Totient(2, 3) == 2;
    assert Gcd(1, 2) == 1;
    assert ToyRsaEncrypt(2, 3, 1, 5) == 5;
    CrtFailsForTwoAndThree(1, 5);
    MainCombines(2, 3, 1, 5, 1);
  }
}
