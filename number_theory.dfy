/** Reference definitions from elementary number theory (divisibility, greatest common
    divisor, primality, powers) and the modular-arithmetic facts the oracles' proofs use. */
module NumberTheory {

  /** `d` divides `n`; 0 divides only 0. */
  predicate Divides(d: nat, n: nat) {
    if d == 0 then n == 0 else n % d == 0
  }

  /** The mathematical notion of primality: at least 2, and no divisor strictly between. */
  predicate IsPrime(c: nat) {
    c >= 2 && forall d :: 2 <= d < c ==> !Divides(d, c)
  }

  /** `g` is a greatest common divisor of `a` and `b`: a common divisor that every common
      divisor divides. */
  ghost predicate IsGcd(g: nat, a: nat, b: nat) {
    && Divides(g, a) && Divides(g, b)
    && forall d: nat :: Divides(d, a) && Divides(d, b) ==> Divides(d, g)
  }

  function Pow(x: nat, k: nat): nat
    decreases k
  {
    if k == 0 then 1 else x * Pow(x, k - 1)
  }

  lemma {:induction false} PowAtLeastOne(x: nat, k: nat)
    requires x >= 1
    ensures Pow(x, k) >= 1
    decreases k
  {
    if k > 0 {
      PowAtLeastOne(x, k - 1);
      MulIsMonotone(1, x, Pow(x, k - 1));
    }
  }

  lemma {:induction false} PowOfOne(k: nat)
    ensures Pow(1, k) == 1
    decreases k
  {
    if k > 0 {
      PowOfOne(k - 1);
    }
  }

  function Pow2(k: nat): (r: nat)
    ensures r >= 1
    decreases k
  {
    if k == 0 then 1 else 2 * Pow2(k - 1)
  }

  lemma {:induction false} Pow2Add(a: nat, b: nat)
    ensures Pow2(a + b) == Pow2(a) * Pow2(b)
    decreases a
  {
    if a > 0 {
      Pow2Add(a - 1, b);
    }
  }

  /** The word sizes the oracles use. */
  lemma Pow2Words()
    ensures Pow2(8) == 0x100 && Pow2(32) == 0x1_0000_0000 && Pow2(64) == 0x1_0000_0000_0000_0000
  {
    assert Pow2(2) == 4;
    Pow2Add(2, 2);
    assert Pow2(4) == 0x10;
    Pow2Add(4, 4);
    assert Pow2(8) == 0x100;
    Pow2Add(8, 8);
    assert Pow2(16) == 0x1_0000;
    Pow2Add(16, 16);
    assert Pow2(32) == 0x1_0000_0000;
    Pow2Add(32, 32);
  }

  // ---------------------------------------------------------------- division facts

  /** Euclidean division is determined by its defining equation. */
  lemma DivModUnique(a: int, m: int, q: int, r: int)
    requires m > 0 && a == m * q + r && 0 <= r < m
    ensures a / m == q && a % m == r
  {
    var q0, r0 := a / m, a % m;
    assert m * (q - q0) == r0 - r;
    MulMonotone(m, q - q0);
  }

  lemma MulMonotone(m: int, k: int)
    requires m > 0
    ensures k >= 1 ==> m * k >= m
    ensures k <= -1 ==> m * k <= -m
  {
    if k >= 1 {
      assert m * k == m + m * (k - 1);
    } else if k <= -1 {
      assert m * k == -m + m * (k + 1);
    }
  }

  /** A positive common factor can be cancelled from an inequality. */
  lemma CancelFactor(q: int, y: int, t: int)
    requires t > 0 && q * t <= y * t
    ensures q <= y
  {
    assert q * t - y * t == t * (q - y);
    MulMonotone(t, q - y);
  }

  /** Regrouping a product of three factors. */
  lemma MulRegroup(a: nat, b: nat, c: nat)
    ensures a * (b * c) == (a * c) * b
  {
  }

  lemma MulIsMonotone(a: nat, b: nat, k: nat)
    requires a <= b
    ensures a * k <= b * k
  {
    assert b * k == a * k + (b - a) * k;
  }

  /** Big-integer `x << k`. */
  function ShiftLeft(x: nat, k: nat): nat {
    x * Pow2(k)
  }

  lemma MultipleIsDivisible(d: nat, k: int, n: int)
    requires d > 0 && n == d * k
    ensures n % d == 0 && n / d == k
  {
    DivModUnique(n, d, k, 0);
  }

  lemma ModAddMultiple(a: int, m: int, k: int)
    requires m > 0
    ensures (a + m * k) % m == a % m
  {
    assert a + m * k == m * (a / m + k) + a % m;
    DivModUnique(a + m * k, m, a / m + k, a % m);
  }

  lemma ModMulLeft(x: nat, y: nat, m: nat)
    requires m > 0
    ensures ((x % m) * y) % m == (x * y) % m
  {
    var q := x / m;
    assert x * y == (x % m) * y + m * (q * y) by {
      assert x == m * q + x % m;
    }
    ModAddMultiple((x % m) * y, m, q * y);
  }

  lemma ModMulRight(x: nat, y: nat, m: nat)
    requires m > 0
    ensures (x * (y % m)) % m == (x * y) % m
  {
    ModMulLeft(y, x, m);
    assert x * (y % m) == (y % m) * x;
    assert x * y == y * x;
  }

  lemma {:induction false} PowMod(x: nat, k: nat, m: nat)
    requires m > 0
    ensures Pow(x % m, k) % m == Pow(x, k) % m
    decreases k
  {
    if k > 0 {
      calc {
        Pow(x % m, k) % m;
      ==
        ((x % m) * Pow(x % m, k - 1)) % m;
      ==  { ModMulLeft(x, Pow(x % m, k - 1), m); }
        (x * Pow(x % m, k - 1)) % m;
      ==  { ModMulRight(x, Pow(x % m, k - 1), m); }
        (x * (Pow(x % m, k - 1) % m)) % m;
      ==  { PowMod(x, k - 1, m); }
        (x * (Pow(x, k - 1) % m)) % m;
      ==  { ModMulRight(x, Pow(x, k - 1), m); }
        Pow(x, k) % m;
      }
    }
  }

  lemma {:induction false} PowSquare(x: nat, k: nat)
    ensures Pow(x * x, k) == Pow(x, 2 * k)
    decreases k
  {
    if k > 0 {
      PowSquare(x, k - 1);
      assert Pow(x, 2 * k) == x * (x * Pow(x, 2 * (k - 1)));
    }
  }

  /** Halving a quotient by 2 once more is dividing by the next power of two. */
  lemma HalfOfQuotient(p: nat, k: nat)
    ensures (p / 2) / Pow2(k) == p / Pow2(k + 1)
  {
    var u := p / 2;
    var v, t := u / Pow2(k), u % Pow2(k);
    assert p == 2 * u + p % 2;
    assert u == Pow2(k) * v + t;
    assert p == Pow2(k + 1) * v + (2 * t + p % 2);
    DivModUnique(p, Pow2(k + 1), v, 2 * t + p % 2);
  }

  /** Dividing a quotient by `b^k` is dividing by `b^(k+1)`. */
  lemma QuotientOfQuotient(p: nat, b: nat, k: nat)
    requires b >= 1
    ensures Pow(b, k) >= 1 && Pow(b, k + 1) >= 1
    ensures (p / b) / Pow(b, k) == p / Pow(b, k + 1)
  {
    PowAtLeastOne(b, k);
    var d := Pow(b, k);
    var u := p / b;
    var v, t := u / d, u % d;
    assert p == b * u + p % b;
    assert u == d * v + t;
    assert Pow(b, k + 1) == b * d;
    var rest := b * t + p % b;
    assert b * u == b * (d * v) + b * t;
    assert b * (d * v) == (b * d) * v;
    MulIsMonotone(t, d - 1, b);
    assert (d - 1) * b == b * d - b;
    DivModUnique(p, b * d, v, rest);
  }

  lemma DivIsAtMost(p: nat, d: nat)
    requires d >= 1
    ensures p / d <= p
  {
    var q := p / d;
    assert p == d * q + p % d;
    MulIsMonotone(1, d, q);
  }

  /** `p` halved `k` times. */
  function Halve(p: nat, k: nat): (r: nat)
    ensures r <= p
    decreases k
  {
    if k == 0 then p else Halve(p / 2, k - 1)
  }

  /** Halving `k` times is dividing by 2^k. */
  lemma {:induction false} HalveIsDivision(p: nat, k: nat)
    ensures Halve(p, k) == p / Pow2(k)
    decreases k
  {
    if k > 0 {
      HalveIsDivision(p / 2, k - 1);
      HalfOfQuotient(p, k - 1);
    }
  }

  // ---------------------------------------------------------------- divisibility and gcd

  /** A common divisor of `b` and `a % b` is a common divisor of `a` and `b`, and back. */
  lemma {:induction false} CommonDivisorsOfModStep(d: nat, a: nat, b: nat)
    requires b > 0
    ensures Divides(d, b) && Divides(d, a % b) <==> Divides(d, b) && Divides(d, a)
  {
    if d > 0 && Divides(d, b) {
      var kb := b / d;
      assert b == d * kb;
      var q := a / b;
      assert a == b * q + a % b;
      if Divides(d, a % b) {
        var km := (a % b) / d;
        assert a % b == d * km;
        assert a == d * (kb * q + km);
        MultipleIsDivisible(d, kb * q + km, a);
      }
      if Divides(d, a) {
        var ka := a / d;
        assert a == d * ka;
        assert a % b == d * (ka - kb * q);
        MultipleIsDivisible(d, ka - kb * q, a % b);
      }
    }
  }

  lemma DividesSelf(a: nat)
    ensures Divides(a, a) && Divides(a, 0)
  {
    if a > 0 {
      MultipleIsDivisible(a, 1, a);
    }
  }

  /** Euclid's recursion: gcd(a, 0) = a, gcd(a, b) = gcd(b, a mod b). */
  function Gcd(a: nat, b: nat): (g: nat)
    ensures IsGcd(g, a, b)
    decreases b
  {
    if b == 0 then
      DividesSelf(a);
      a
    else
      var g := Gcd(b, a % b);
      GcdModStep(g, a, b);
      g
  }

  lemma GcdModStep(g: nat, a: nat, b: nat)
    requires b > 0 && IsGcd(g, b, a % b)
    ensures IsGcd(g, a, b)
  {
    CommonDivisorsOfModStep(g, a, b);
    forall d: nat | Divides(d, a) && Divides(d, b)
      ensures Divides(d, g)
    {
      CommonDivisorsOfModStep(d, a, b);
    }
  }

  /** Two numbers that divide each other are equal. */
  lemma MutualDivisors(x: nat, y: nat)
    requires Divides(x, y) && Divides(y, x)
    ensures x == y
  {
    if x > 0 && y > 0 {
      var k, j := y / x, x / y;
      assert y == x * k && x == y * j;
      assert k != 0 && j != 0;
      MulMonotone(x, k);
      MulMonotone(y, j);
    }
  }

  /** The greatest common divisor is unique, so `Gcd` is THE gcd. */
  lemma GcdUnique(g: nat, a: nat, b: nat)
    requires IsGcd(g, a, b)
    ensures g == Gcd(a, b)
  {
    var h := Gcd(a, b);
    assert Divides(g, h);
    assert Divides(h, g);
    MutualDivisors(g, h);
  }

  // ---------------------------------------------------------------- primality

  /** If `c` has a divisor at least `i` (and below `c`), it has one whose square is at most
      `c`, so trial division can stop at the square root. */
  lemma CofactorIsSmall(c: nat, d: nat, i: nat)
    requires 2 <= d < c && Divides(d, c) && i * i > c && d >= i
    ensures 2 <= c / d < i && Divides(c / d, c)
  {
    var k := c / d;
    assert c == d * k;
    MulMonotone(d, k - 1);
    assert c == k * d;
    if k >= i {
      MulBothAtLeast(d, k, i);
    }
    MultipleIsDivisible(k, d, c);
  }

  lemma MulBothAtLeast(x: nat, y: nat, i: nat)
    requires x >= i && y >= i
    ensures x * y >= i * i
  {
    assert x * y >= i * y;
    assert i * y >= i * i;
  }

  /** Primality follows from having no divisor whose square is at most `c`. */
  lemma PrimeFromSquareRootBound(c: nat, i: nat)
    requires c >= 2 && i * i > c && forall d :: 2 <= d < i ==> !Divides(d, c)
    ensures IsPrime(c)
  {
    forall d | 2 <= d < c
      ensures !Divides(d, c)
    {
      if Divides(d, c) && d >= i {
        CofactorIsSmall(c, d, i);
      }
    }
  }

  /** Trial division up to the square root, as a recursive check that the verifier can
      evaluate on literal arguments. */
  function NoDivisorFrom(c: nat, i: nat): bool
    requires i >= 2
    decreases c - i
  {
    if i * i > c then true
    else if Divides(i, c) then false
    else NoDivisorFrom(c, i + 1)
  }

  lemma {:induction false} NoDivisorFromMeansPrime(c: nat, i: nat)
    requires c >= 2 && i >= 2 && NoDivisorFrom(c, i)
    requires forall d :: 2 <= d < i ==> !Divides(d, c)
    ensures IsPrime(c)
    decreases c - i
  {
    if i * i > c {
      PrimeFromSquareRootBound(c, i);
    } else {
      NoDivisorFromMeansPrime(c, i + 1);
    }
  }
}
