/** The game-logic oracle: a resource check, combat damage, the material cost of forging a
    legendary item and the experience needed for a level (both computed on big integers and
    converted to u64 with saturation), a retry that halves the forging inputs, and XOR
    combinations of the results. */
module GameLogic {
  import opened Saturating
  import opened NumberTheory
  import opened XorFolds

  /** The retry budget `main` hands to the fallback. */
  const MAIN_ATTEMPTS: uint32 := 3
  /** `main`'s fixed combat stats and experience rate. */
  const ATTACK_BONUS: uint32 := 50
  const DEFENSE: uint32 := 100
  const XP_RATE: uint32 := 10

  // ---------------------------------------------------------------- checks and formulas

  /** `validate_action_requirements`: enough energy, then enough focus. */
  function ValidateActionRequirements(energy: uint64, focus: uint32, costEnergy: uint64, costFocus: uint32): (ok: bool)
    ensures ok <==> energy >= costEnergy && focus >= costFocus
  {
    if energy < costEnergy then false
    else if focus < costFocus then false
    else true
  }

  /** `compute_combat_damage`: the attack power squared (clamped at u32::MAX) over the
      defense, a defense of 0 counting as 1. */
  function CombatDamage(attackPower: uint32, defense: uint32): (r: uint64)
    ensures r == Min(attackPower * attackPower, U32_MAX) / Max(defense, 1)
  {
    var squared := SafeMulU32(attackPower, attackPower);
    var def := if defense > 1 then defense else 1;
    SafeDivU64(squared, def)
  }

  /** The damage never exceeds the clamped square, and dividing by a larger defense never
      increases it. */
  lemma DamageIsBounded(attackPower: uint32, d1: uint32, d2: uint32)
    requires d1 <= d2
    ensures CombatDamage(attackPower, d1) <= Min(attackPower * attackPower, U32_MAX)
    ensures CombatDamage(attackPower, d2) <= CombatDamage(attackPower, d1)
  {
    var squared := Min(attackPower * attackPower, U32_MAX);
    DivIsAtMost(squared, Max(d1, 1));
    DivByLarger(squared, Max(d1, 1), Max(d2, 1));
  }

  /** A larger divisor gives a smaller quotient. */
  lemma DivByLarger(x: nat, a: nat, b: nat)
    requires 1 <= a <= b
    ensures x / b <= x / a
  {
    var q := x / b;
    assert q * b <= x;
    MulIsMonotone(a, b, q);
    assert q * a <= x;
    if q > x / a {
      MulIsMonotone(x / a + 1, q, a);
    }
  }

  /** `try_into::<u64>().unwrap_or(u64::MAX)` on a big integer. */
  function ToU64OrMax(x: nat): (r: uint64)
    ensures r == Min(x, U64_MAX)
  {
    if x <= U64_MAX then x else U64_MAX
  }

  /** `forge_legendary_item_materials`: base * rarity * 1000 on big integers, saturated to
      u64. */
  function ForgeLegendaryItemMaterials(base: uint64, rarity: uint32): (r: uint64)
    ensures r == Min(base * rarity * 1000, U64_MAX)
  {
    ToU64OrMax(base * rarity * 1000)
  }

  /** Forging is monotone in both inputs, and free when either is 0. */
  lemma ForgeIsMonotone(b1: uint64, r1: uint32, b2: uint64, r2: uint32)
    requires b1 <= b2 && r1 <= r2
    ensures ForgeLegendaryItemMaterials(b1, r1) <= ForgeLegendaryItemMaterials(b2, r2)
    ensures b1 == 0 || r1 == 0 ==> ForgeLegendaryItemMaterials(b1, r1) == 0
  {
    MulIsMonotone(b1, b2, r1);
    MulIsMonotone(r1, r2, b2);
    MulIsMonotone(b1 * r1, b2 * r2, 1000);
  }

  /** `compute_experience_for_level`: level^3 + rate^2 on big integers, saturated to u64. */
  function ExperienceForLevel(level: uint32, xpRate: uint32): (r: uint64)
    ensures r == Min(level * level * level + xpRate * xpRate, U64_MAX)
  {
    var levelCubed := level * level * level;
    var xpSquared := xpRate * xpRate;
    ToU64OrMax(levelCubed + xpSquared)
  }

  /** The experience needed grows with the level, and below level 2^21 it does not saturate
      for rates below 2^31. */
  lemma ExperienceGrowsWithLevel(l1: uint32, l2: uint32, xpRate: uint32)
    requires l1 <= l2
    ensures ExperienceForLevel(l1, xpRate) <= ExperienceForLevel(l2, xpRate)
    ensures l2 < 0x20_0000 && xpRate < 0x8000_0000 ==>
      ExperienceForLevel(l2, xpRate) == Pow(l2, 3) + Pow(xpRate, 2)
  {
    MulIsMonotone(l1, l2, l1);
    MulIsMonotone(l1, l2, l2);
    MulIsMonotone(l1 * l1, l2 * l2, l1);
    MulIsMonotone(l1, l2, l2 * l2);
    assert Pow(l2, 3) == l2 * l2 * l2;
    assert Pow(xpRate, 2) == xpRate * xpRate;
    if l2 < 0x20_0000 && xpRate < 0x8000_0000 {
      MulBothAtLeast(0x20_0000 - 1, 0x20_0000 - 1, 0);
      MulIsMonotone(l2, 0x20_0000, l2);
      MulIsMonotone(l2, 0x20_0000, 0x20_0000);
      MulIsMonotone(l2 * l2, 0x20_0000 * 0x20_0000, l2);
      MulIsMonotone(l2, 0x20_0000, 0x20_0000 * 0x20_0000);
      MulIsMonotone(xpRate, 0x8000_0000, xpRate);
      MulIsMonotone(xpRate, 0x8000_0000, 0x8000_0000);
    }
  }

  // ---------------------------------------------------------------- fallback

  /** `(x & 0xFFFFFFFF) as u32`: the low 32 bits. */
  function Low32(x: uint64): (r: uint32)
    ensures r == x % 0x1_0000_0000
  {
    x % 0x1_0000_0000
  }

  /** What a successful retry reports on: the reduced forging cost and rarity. */
  datatype Attempt = Attempt(cost: uint64, rarity: uint32)

  /** The recursion of `partial_fallback`: forge with half the materials and half the
      rarity; if the player affords that cost and has half the rarity in focus, that attempt
      succeeds, otherwise retry from the halved inputs. */
  function FallbackAttempt(energy: uint64, focus: uint32, base: uint64, rarity: uint32, attempts: uint32): (r: Option<Attempt>)
    ensures attempts == 0 ==> r == None
    ensures r.Some? ==> ValidateActionRequirements(energy, focus, r.value.cost, r.value.rarity)
    decreases attempts
  {
    if attempts == 0 then None
    else
      var halfMaterials := SafeDivU64(base, 2);
      var halfRarity := SafeDivU32(rarity, 2);
      var altCost := ForgeLegendaryItemMaterials(halfMaterials, halfRarity);
      if ValidateActionRequirements(energy, focus, altCost, halfRarity) then Some(Attempt(altCost, halfRarity))
      else FallbackAttempt(energy, focus, halfMaterials, halfRarity, attempts - 1)
  }

  /** The four u32 values a successful retry XORs together. */
  function FallbackValues(a: Attempt, energy: uint64, focus: uint32): (s: seq<uint32>)
    ensures |s| == 4
  {
    [Low32(a.cost), a.rarity, Low32(energy), focus]
  }

  /** `partial_fallback`: the u32 XOR of a successful retry widened to u64, 0 when every
      retry fails. */
  function PartialFallback(energy: uint64, focus: uint32, base: uint64, rarity: uint32, attempts: uint32): (r: uint64)
    ensures attempts == 0 ==> r == 0
    ensures r <= U32_MAX
  {
    match FallbackAttempt(energy, focus, base, rarity, attempts)
    case Some(a) =>
      XorFoldBelow32(FallbackValues(a, energy, focus));
      XorFold(FallbackValues(a, energy, focus))
    case None => 0
  }

  /** A rarity of 0 or 1 halves to 0, which costs nothing and needs no focus, so the first
      retry succeeds. */
  lemma FallbackSucceedsAtLowRarity(energy: uint64, focus: uint32, base: uint64, rarity: uint32, attempts: uint32)
    requires rarity <= 1 && attempts >= 1
    ensures FallbackAttempt(energy, focus, base, rarity, attempts) == Some(Attempt(0, 0))
    ensures PartialFallback(energy, focus, base, rarity, attempts) == XorFold([0, 0, Low32(energy), focus])
  {
    ForgeIsMonotone(base / 2, 0, base / 2, 0);
  }

  /** A rarity below 2^attempts halves to at most 1 within the budget, so some retry
      succeeds. */
  lemma {:induction false} FallbackSucceedsWithinBudget(energy: uint64, focus: uint32, base: uint64, rarity: uint32, attempts: uint32)
    requires attempts >= 1 && rarity < Pow2(attempts)
    ensures FallbackAttempt(energy, focus, base, rarity, attempts).Some?
    decreases attempts
  {
    if rarity <= 1 {
      FallbackSucceedsAtLowRarity(energy, focus, base, rarity, attempts);
    } else {
      var halfMaterials := SafeDivU64(base, 2);
      var halfRarity := SafeDivU32(rarity, 2);
      var altCost := ForgeLegendaryItemMaterials(halfMaterials, halfRarity);
      if !ValidateActionRequirements(energy, focus, altCost, halfRarity) {
        assert halfRarity < Pow2(attempts - 1);
        FallbackSucceedsWithinBudget(energy, focus, halfMaterials, halfRarity, attempts - 1);
      }
    }
  }

  // ---------------------------------------------------------------- main

  /** The five u64 values `main` XORs together. */
  function MainValues(cost: uint64, damage: uint64, xp: uint64, energy: uint64, base: uint64): (s: seq<uint64>)
    ensures |s| == 5
  {
    [cost, damage, xp, energy, base]
  }

  /** `main`: if the player cannot afford the forging cost and twice the rarity in focus, the
      fallback with 3 attempts; otherwise the XOR of the cost, the damage of an attack of
      rarity + 50 against defense 100, the experience for level `rarity` at rate 10, the
      energy and the materials. */
  function Main(energy: uint64, focus: uint32, base: uint64, rarity: uint32): (r: uint64)
  {
    var forgingCost := ForgeLegendaryItemMaterials(base, rarity);
    var forgingFocusCost := SafeMulU32(rarity, 2);
    if !ValidateActionRequirements(energy, focus, forgingCost, forgingFocusCost) then
      PartialFallback(energy, focus, base, rarity, MAIN_ATTEMPTS)
    else
      var attackPower := SafeAddU32(rarity, ATTACK_BONUS);
      var damageDealt := CombatDamage(attackPower, DEFENSE);
      var xpNeeded := ExperienceForLevel(rarity, XP_RATE);
      XorFoldBelow64(MainValues(forgingCost, damageDealt, xpNeeded, energy, base));
      XorFold(MainValues(forgingCost, damageDealt, xpNeeded, energy, base))
  }

  /** `main` falls back exactly when the energy is below min(base * rarity * 1000, u64::MAX)
      or the focus below min(2 * rarity, u32::MAX); otherwise it XORs the cost, the damage of
      an attack of min(rarity + 50, u32::MAX), the experience at rate 10, the energy and the
      materials. */
  lemma MainBranches(energy: uint64, focus: uint32, base: uint64, rarity: uint32)
    ensures !(energy >= Min(base * rarity * 1000, U64_MAX) && focus >= Min(2 * rarity, U32_MAX)) ==>
      Main(energy, focus, base, rarity) == PartialFallback(energy, focus, base, rarity, MAIN_ATTEMPTS)
    ensures energy >= Min(base * rarity * 1000, U64_MAX) && focus >= Min(2 * rarity, U32_MAX) ==>
      Main(energy, focus, base, rarity) ==
        XorFold(MainValues(Min(base * rarity * 1000, U64_MAX), CombatDamage(Min(rarity + 50, U32_MAX), DEFENSE),
                           ExperienceForLevel(rarity, XP_RATE), energy, base))
  {
  }

  /** With rarity 0 forging is free, so `main` never falls back. */
  lemma MainNeverFallsBackAtZeroRarity(energy: uint64, focus: uint32, base: uint64)
    ensures Main(energy, focus, base, 0) ==
      XorFold(MainValues(0, 25, 100, energy, base))
  {
    assert CombatDamage(50, 100) == 25;
    assert ExperienceForLevel(0, XP_RATE) == 100;
  }
}
