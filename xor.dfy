/** Bitwise exclusive or and the XOR fold behind every `combine_results` (`out ^= r` over a
    slice, starting from 0). Exclusive or is defined on naturals, one binary digit at a time,
    so that folds over `u64` and `u32` values can be reasoned about in ordinary arithmetic. */
module XorFolds {
  import opened Saturating
  import opened NumberTheory

  // ---------------------------------------------------------------- exclusive or

  /** Bitwise exclusive or: the lowest bit is the parity of the two lowest bits, the rest
      is the exclusive or of the remaining bits. */
  function Xor(a: nat, b: nat): nat
    decreases a + b
  {
    if a == 0 then b
    else if b == 0 then a
    else 2 * Xor(a / 2, b / 2) + XorBit(a, b)
  }

  /** Exclusive or of the lowest bits. */
  function XorBit(a: nat, b: nat): nat {
    if a % 2 == b % 2 then 0 else 1
  }

  /** The lowest bit and the remaining bits of an exclusive or, in every case. */
  lemma XorDigits(a: nat, b: nat)
    ensures Xor(a, b) % 2 == XorBit(a, b)
    ensures Xor(a, b) / 2 == Xor(a / 2, b / 2)
  {
  }

  lemma {:induction false} XorCommutes(a: nat, b: nat)
    ensures Xor(a, b) == Xor(b, a)
    decreases a + b
  {
    if a != 0 && b != 0 {
      XorCommutes(a / 2, b / 2);
    }
  }

  lemma {:induction false} XorSelf(a: nat)
    ensures Xor(a, a) == 0
    decreases a
  {
    if a != 0 {
      XorSelf(a / 2);
    }
  }

  lemma {:induction false} XorAssociates(a: nat, b: nat, c: nat)
    ensures Xor(Xor(a, b), c) == Xor(a, Xor(b, c))
    decreases a + b + c
  {
    if a != 0 && b != 0 && c != 0 {
      var ab, bc := Xor(a, b), Xor(b, c);
      var l, r := Xor(ab, c), Xor(a, bc);
      XorDigits(a, b);
      XorDigits(b, c);
      XorDigits(ab, c);
      XorDigits(a, bc);
      XorAssociates(a / 2, b / 2, c / 2);
      assert l / 2 == r / 2;
      assert l % 2 == r % 2;
      assert l == 2 * (l / 2) + l % 2;
      assert r == 2 * (r / 2) + r % 2;
    }
  }

  /** Exclusive or of two `k`-bit numbers is a `k`-bit number. */
  lemma {:induction false} XorBelow(a: nat, b: nat, k: nat)
    requires a < Pow2(k) && b < Pow2(k)
    ensures Xor(a, b) < Pow2(k)
    decreases k
  {
    if a != 0 && b != 0 {
      XorBelow(a / 2, b / 2, k - 1);
    }
  }

  /** Exclusive or with the all-ones `k`-bit number is the `k`-bit complement. */
  lemma {:induction false} XorAllOnes(a: nat, k: nat)
    requires a < Pow2(k)
    ensures Xor(a, Pow2(k) - 1) == Pow2(k) - 1 - a
    decreases k
  {
    if k > 0 && a != 0 {
      XorAllOnes(a / 2, k - 1);
      assert (Pow2(k) - 1) / 2 == Pow2(k - 1) - 1;
    }
  }

  /** A value below `2^k` leaves the bits from `k` upward untouched. */
  lemma {:induction false} XorKeepsHighBits(a: nat, b: nat, k: nat)
    requires b < Pow2(k)
    ensures Xor(a, b) / Pow2(k) == a / Pow2(k)
    decreases k
  {
    if a == 0 {
      DivModUnique(b, Pow2(k), 0, b);
    } else if k > 0 && b != 0 {
      var x := Xor(a, b);
      XorDigits(a, b);
      XorKeepsHighBits(a / 2, b / 2, k - 1);
      HalfOfQuotient(x, k - 1);
      HalfOfQuotient(a, k - 1);
      calc {
        x / Pow2(k);
        (x / 2) / Pow2(k - 1);
        Xor(a / 2, b / 2) / Pow2(k - 1);
        (a / 2) / Pow2(k - 1);
        a / Pow2(k);
      }
    }
  }

  // ---------------------------------------------------------------- XOR folds

  /** XOR of all elements, folded from the left starting at 0. */
  function XorFold(s: seq<nat>): nat
    decreases |s|
  {
    if s == [] then 0 else Xor(XorFold(s[..|s| - 1]), s[|s| - 1])
  }

  /** The fold of two values is their exclusive or. */
  lemma XorFoldPair(a: nat, b: nat)
    ensures XorFold([a, b]) == Xor(a, b)
  {
    assert XorFold([a]) == a by {
      assert [a][..0] == [];
    }
    assert [a, b][..1] == [a];
  }

  /** The exclusive or of two u64 values is a u64 value. */
  lemma XorBelow64(a: uint64, b: uint64)
    ensures Xor(a, b) <= U64_MAX
  {
    Pow2Words();
    XorBelow(a, b, 64);
  }

  /** XORing the same value twice cancels out. */
  lemma XorCancels(a: nat, b: nat)
    ensures Xor(Xor(a, b), b) == a
  {
    XorAssociates(a, b, b);
    XorSelf(b);
  }

  /** A fold of u64 values is a u64 value. */
  lemma XorFoldBelow64(s: seq<uint64>)
    ensures XorFold(s) <= U64_MAX
  {
    Pow2Words();
    XorFoldBelow(s, 64);
  }

  /** A fold of u32 values is a u32 value. */
  lemma XorFoldBelow32(s: seq<uint32>)
    ensures XorFold(s) <= U32_MAX
  {
    Pow2Words();
    XorFoldBelow(s, 32);
  }

  /** A fold of `k`-bit numbers is a `k`-bit number. */
  lemma {:induction false} XorFoldBelow(s: seq<nat>, k: nat)
    requires forall i :: 0 <= i < |s| ==> s[i] < Pow2(k)
    ensures XorFold(s) < Pow2(k)
    decreases |s|
  {
    if s != [] {
      XorFoldBelow(s[..|s| - 1], k);
      XorBelow(XorFold(s[..|s| - 1]), s[|s| - 1], k);
    }
  }

  /** The fold of a concatenation is the XOR of the two folds. */
  lemma {:induction false} XorFoldAppend(s: seq<nat>, t: seq<nat>)
    ensures XorFold(s + t) == Xor(XorFold(s), XorFold(t))
    decreases |t|
  {
    if t == [] {
      assert s + t == s;
    } else {
      var t', x := t[..|t| - 1], t[|t| - 1];
      assert (s + t)[..|s + t| - 1] == s + t';
      XorFoldAppend(s, t');
      XorAssociates(XorFold(s), XorFold(t'), x);
    }
  }

  /** Order does not matter: rearranging the values leaves the fold unchanged. */
  lemma {:induction false} XorFoldPermutation(s: seq<nat>, t: seq<nat>)
    requires multiset(s) == multiset(t)
    ensures XorFold(s) == XorFold(t)
    decreases |s|
  {
    if s == [] {
      assert |t| == |multiset(t)| == 0;
    } else {
      var s', x := s[..|s| - 1], s[|s| - 1];
      assert s == s' + [x];
      assert x in multiset(t);
      var i :| 0 <= i < |t| && t[i] == x;
      var pre, post := t[..i], t[i + 1..];
      assert t == pre + [x] + post;
      RemoveFromBoth(s', x, pre, post);
      XorFoldPermutation(s', pre + post);
      XorFoldOfSplit(pre, x, post);
    }
  }

  /** Taking `x` out of two equal multisets leaves equal multisets. */
  lemma RemoveFromBoth(s: seq<nat>, x: nat, pre: seq<nat>, post: seq<nat>)
    requires multiset(s + [x]) == multiset(pre + [x] + post)
    ensures multiset(s) == multiset(pre + post)
  {
    assert multiset(s + [x]) == multiset(s) + multiset{x};
    assert multiset(pre + [x] + post) == multiset(pre + post) + multiset{x} by {
      assert pre + [x] + post == pre + ([x] + post);
    }
    CancelSingleton(multiset(s), multiset(pre + post), x);
  }

  /** One copy of `x` can be cancelled from both sides of a multiset equation. */
  lemma CancelSingleton(a: multiset<nat>, b: multiset<nat>, x: nat)
    requires a + multiset{x} == b + multiset{x}
    ensures a == b
  {
    assert a == a + multiset{x} - multiset{x};
    assert b == b + multiset{x} - multiset{x};
  }

  /** The fold with `x` in the middle is the fold without it, XORed with `x`. */
  lemma XorFoldOfSplit(pre: seq<nat>, x: nat, post: seq<nat>)
    ensures XorFold(pre + [x] + post) == Xor(XorFold(pre + post), x)
  {
    XorFoldAppend(pre + [x], post);
    XorFoldAppend(pre, [x]);
    XorFoldAppend(pre, post);
    assert XorFold([x]) == x;
    XorAssociates(XorFold(pre), x, XorFold(post));
    XorCommutes(x, XorFold(post));
    XorAssociates(XorFold(pre), XorFold(post), x);
  }

  /** `combine_results` over `&[u64]`: `out ^= r` for every element. */
  method CombineResults64(results: seq<uint64>) returns (out: uint64)
    ensures out == XorFold(results)
  {
    Pow2Words();
    out := 0;
    for i := 0 to |results|
      invariant out == XorFold(results[..i])
    {
      assert results[..i + 1][..i] == results[..i];
      XorBelow(out, results[i], 64);
      out := Xor(out, results[i]);
    }
    assert results[..|results|] == results;
  }

  /** `combine_results` over `&[u32]`. */
  method CombineResults32(results: seq<uint32>) returns (out: uint32)
    ensures out == XorFold(results)
  {
    Pow2Words();
    out := 0;
    for i := 0 to |results|
      invariant out == XorFold(results[..i])
    {
      assert results[..i + 1][..i] == results[..i];
      XorBelow(out, results[i], 32);
      out := Xor(out, results[i]);
    }
    assert results[..|results|] == results;
  }
}
