/**
 * Turning a percentage recipe into whole stem counts (core/stem_scaling.py).
 *
 * `bb_round` truncates every share of the total and hands the leftover stems out one
 * at a time in a fixed cyclic order; `calculate_stem_recipe` applies it once up to a
 * breakpoint and, above it, once more to the extra stems with foliage damped.
 */
module StemScaling {
  import opened Categories
  import Recipes

  const DefaultBreakpoint: nat := 25
  const DefaultFoliageDamping: real := 0.6

  /**
   * The order in which bb_round hands out leftover stems. Its length, 6, is written
   * as a literal below wherever the source takes `len(redistribution_order)`.
   */
  const RedistributionOrder: seq<Category> := [Foundation, Floater, Filler, Finisher, Focal, Foliage]

  /** Position of a category in RedistributionOrder. */
  function OrderIndex(c: Category): (i: nat)
    ensures i < |RedistributionOrder| && RedistributionOrder[i] == c
  {
    match c
    case Foundation => 0
    case Floater => 1
    case Filler => 2
    case Finisher => 3
    case Focal => 4
    case Foliage => 5
  }

  /** Python's int() on a float: truncation toward zero. */
  function Trunc(x: real): (n: int)
    ensures 0.0 <= x ==> n == x.Floor
    ensures x < 0.0 ==> n as real - 1.0 < x <= n as real
  {
    if 0.0 <= x then x.Floor else -((-x).Floor)
  }

  /** Step 1 of bb_round: every share of `stems`, before truncation. */
  function Raw(stems: nat, pct: Recipe): (raw: Recipe)
    ensures raw.Keys == pct.Keys
  {
    map c | c in pct :: pct[c] * stems as real
  }

  /** A non-negative share's raw count truncates to its floor. */
  lemma TruncatedRawIsFloor(stems: nat, pct: Recipe, c: Category)
    requires c in pct && 0.0 <= pct[c]
    ensures Trunc(Raw(stems, pct)[c]) == (pct[c] * stems as real).Floor
  {
    ProductNonNegative(pct[c], stems as real);
  }

  /** Step 2 of bb_round: every raw count truncated. */
  function TruncAll(raw: Recipe): (counts: map<Category, int>)
    ensures counts.Keys == raw.Keys
  {
    map c | c in raw :: Trunc(raw[c])
  }

  function Truncated(stems: nat, pct: Recipe): map<Category, int>
  {
    TruncAll(Raw(stems, pct))
  }

  /** Step 3 of bb_round: the stems the truncation left unassigned. */
  function Remainder(stems: nat, pct: Recipe): int
  {
    stems - Stems(Truncated(stems, pct))
  }

  /**
   * How many of the first `handed` leftover stems land on position `k` of the
   * cyclic redistribution order.
   */
  function CyclicShare(k: nat, handed: int): nat
  {
    if handed <= 0 then 0
    else CyclicShare(k, handed - 1) + (if (handed - 1) % 6 == k then 1 else 0)
  }

  /**
   * The counts after the first `handed` leftover stems have been handed out: leftover
   * stem number `i` (from 0) goes to position `i mod 6` of the redistribution order.
   */
  function Distributed(raw: Recipe, handed: int): (counts: map<Category, int>)
    requires IsTotal(raw)
    ensures IsTotal(counts)
  {
    if handed <= 0 then TruncAll(raw)
    else
      var before := Distributed(raw, handed - 1);
      var cat := RedistributionOrder[(handed - 1) % 6];
      before[cat := before[cat] + 1]
  }

  /** What bb_round returns: truncated shares plus each category's turns in the cycle. */
  function RoundedCounts(stems: nat, pct: Recipe): (counts: map<Category, int>)
    requires IsTotal(pct)
    ensures IsTotal(counts)
  {
    Distributed(Raw(stems, pct), Remainder(stems, pct))
  }

  /**
   * After `handed` turns every category holds its truncated raw count plus the number
   * of turns that fell on its position of the order.
   */
  lemma {:induction false} DistributedCounts(raw: Recipe, handed: int, c: Category)
    requires IsTotal(raw)
    ensures Distributed(raw, handed)[c] == Trunc(raw[c]) + CyclicShare(OrderIndex(c), handed)
    decreases if handed <= 0 then 0 else handed
  {
    if handed > 0 {
      DistributedCounts(raw, handed - 1, c);
      OrderPositionsDistinct((handed - 1) % 6, c);
    }
  }

  /** Each category sits at exactly one position of the redistribution order. */
  lemma OrderPositionsDistinct(i: nat, c: Category)
    requires i < |RedistributionOrder|
    ensures RedistributionOrder[i] == c <==> i == OrderIndex(c)
  {
  }

  /**
   * bb_round: truncate every share, then walk the redistribution order cyclically,
   * one leftover stem per turn, while any remain.
   */
  method BbRound(stems: nat, pct: Recipe) returns (counts: map<Category, int>)
    requires IsTotal(pct)
    ensures counts == RoundedCounts(stems, pct)
  {
    var raw := Raw(stems, pct);
    counts := TruncAll(raw);
    var remainder := stems - Stems(counts);
    ghost var initialRemainder := remainder;
    var i := 0;
    while remainder > 0
      invariant 0 <= i && remainder == initialRemainder - i
      invariant i == 0 || 0 <= remainder
      invariant counts == Distributed(raw, i)
    {
      var cat := RedistributionOrder[i % 6];
      counts := counts[cat := counts[cat] + 1];
      remainder := remainder - 1;
      i := i + 1;
    }
  }

  /** Truncating non-negative raw counts loses less than one stem per category. */
  lemma TruncatedSumBounds(raw: Recipe)
    requires forall c :: c in raw ==> 0.0 <= raw[c]
    ensures Stems(TruncAll(raw)) as real <= Shares(raw)
    ensures Shares(raw) < (Stems(TruncAll(raw)) + |RedistributionOrder|) as real
  {
    TruncatedSumUpToBounds(raw, |ValidCategories|);
  }

  lemma {:induction false} TruncatedSumUpToBounds(raw: Recipe, n: nat)
    requires n <= |ValidCategories|
    requires forall c :: c in raw ==> 0.0 <= raw[c]
    ensures StemsUpTo(TruncAll(raw), n) as real <= SharesUpTo(raw, n)
    ensures SharesUpTo(raw, n) <= (StemsUpTo(TruncAll(raw), n) + n) as real
    ensures n > 0 ==> SharesUpTo(raw, n) < (StemsUpTo(TruncAll(raw), n) + n) as real
  {
    if n > 0 {
      TruncatedSumUpToBounds(raw, n - 1);
    }
  }

  /** A non-negative recipe has non-negative raw counts. */
  lemma RawNonNegative(stems: nat, pct: Recipe)
    requires forall c :: c in pct ==> 0.0 <= pct[c]
    ensures forall c :: c in Raw(stems, pct) ==> 0.0 <= Raw(stems, pct)[c]
  {
    forall c | c in pct
      ensures 0.0 <= Raw(stems, pct)[c]
    {
      ProductNonNegative(pct[c], stems as real);
    }
  }

  /** The raw counts add up to `stems` times the recipe's total share. */
  lemma RawTotal(stems: nat, pct: Recipe)
    ensures Shares(Raw(stems, pct)) == Shares(pct) * stems as real
  {
    SharesScale(pct, Raw(stems, pct), stems as real);
  }

  /** For a valid recipe the stems left over after truncation number between 0 and 5. */
  lemma RemainderBounds(stems: nat, pct: Recipe)
    requires ValidRecipe(pct)
    ensures 0 <= Remainder(stems, pct) < |RedistributionOrder|
  {
    RawNonNegative(stems, pct);
    RawTotal(stems, pct);
    TruncatedSumBounds(Raw(stems, pct));
  }

  /** Within the first cycle each position gets one turn exactly when it comes before `handed`. */
  lemma {:induction false} CyclicShareFirstCycle(k: nat, handed: int)
    requires k < |RedistributionOrder| && handed <= |RedistributionOrder|
    ensures CyclicShare(k, handed) == (if k < handed then 1 else 0)
    decreases if handed <= 0 then 0 else handed
  {
    if handed > 0 {
      CyclicShareFirstCycle(k, handed - 1);
    }
  }

  /**
   * For a valid recipe each category gets its floored share plus one exactly when its
   * position in the redistribution order is below the leftover.
   */
  lemma BbRoundFloorOrNext(stems: nat, pct: Recipe, c: Category)
    requires ValidRecipe(pct)
    ensures 0 <= Remainder(stems, pct) < |RedistributionOrder|
    ensures RoundedCounts(stems, pct)[c]
      == (pct[c] * stems as real).Floor + (if OrderIndex(c) < Remainder(stems, pct) then 1 else 0)
  {
    var raw, r := Raw(stems, pct), Remainder(stems, pct);
    TruncatedRawIsFloor(stems, pct, c);
    DistributedCounts(raw, r, c);
    RemainderBounds(stems, pct);
    CyclicShareFirstCycle(OrderIndex(c), r);
  }

  /** Foliage comes last in the order, so bb_round never gives it a leftover stem. */
  lemma FoliageGetsFloor(stems: nat, pct: Recipe)
    requires ValidRecipe(pct)
    ensures RoundedCounts(stems, pct)[Foliage] == (pct[Foliage] * stems as real).Floor
  {
    BbRoundFloorOrNext(stems, pct, Foliage);
  }

  /** Every turn hands out exactly one stem. */
  lemma {:induction false} DistributedTotal(raw: Recipe, handed: int)
    requires IsTotal(raw)
    ensures Stems(Distributed(raw, handed))
         == Stems(TruncAll(raw)) + (if handed <= 0 then 0 else handed)
    decreases if handed <= 0 then 0 else handed
  {
    if handed > 0 {
      var before, cat := Distributed(raw, handed - 1), RedistributionOrder[(handed - 1) % 6];
      assert Distributed(raw, handed) == before[cat := before[cat] + 1];
      DistributedTotal(raw, handed - 1);
      StemsIncrement(before, cat);
    }
  }

  /** For a valid recipe bb_round's counts add up to exactly `stems` and none is negative. */
  lemma BbRoundSumsToStems(stems: nat, pct: Recipe)
    requires ValidRecipe(pct)
    ensures Stems(RoundedCounts(stems, pct)) == stems
    ensures forall c :: 0 <= RoundedCounts(stems, pct)[c]
  {
    RemainderBounds(stems, pct);
    DistributedTotal(Raw(stems, pct), Remainder(stems, pct));
    RawNonNegative(stems, pct);
    forall c
      ensures 0 <= RoundedCounts(stems, pct)[c]
    {
      DistributedCounts(Raw(stems, pct), Remainder(stems, pct), c);
    }
  }

  /** Every share of `others` divided by `total` and scaled by `remaining`. */
  function Renormalised(others: Recipe, total: real, remaining: real): (scaled: Recipe)
    requires total != 0.0
    ensures scaled.Keys == others.Keys
  {
    map c | c in others :: (others[c] / total) * remaining
  }

  /**
   * The shares used for the stems above the breakpoint: foliage's share damped,
   * every other share scaled so that the freed share is spread proportionally.
   */
  function AdjustedExtraPercentages(pct: Recipe, foliageKey: Category, damping: real): (adjusted: Recipe)
    requires NonFoliageTotal(pct, foliageKey) != 0.0
    ensures adjusted.Keys == pct.Keys + {foliageKey}
  {
    Renormalised(pct - {foliageKey}, NonFoliageTotal(pct, foliageKey), RemainingShare(pct, foliageKey, damping))
      [foliageKey := DampenedFoliageShare(pct, foliageKey, damping)]
  }

  /** Foliage's share (0 when the recipe has none) times the damping factor. */
  function DampenedFoliageShare(pct: Recipe, foliageKey: Category, damping: real): real
  {
    SharesOf(pct, foliageKey) * damping
  }

  /** The share left for the other categories once foliage's share is damped. */
  function RemainingShare(pct: Recipe, foliageKey: Category, damping: real): real
  {
    1.0 - DampenedFoliageShare(pct, foliageKey, damping)
  }

  /**
   * calculate_stem_recipe: one bb_round pass up to the breakpoint; above it, the
   * breakpoint's counts plus a bb_round pass over the extra stems with the adjusted shares.
   */
  function StemRecipe(total: nat, pct: Recipe, breakpoint: nat, foliageKey: Category, damping: real)
    : (counts: map<Category, int>)
    requires IsTotal(pct)
    requires total <= breakpoint || NonFoliageTotal(pct, foliageKey) != 0.0
    ensures counts.Keys == pct.Keys
  {
    if total <= breakpoint then RoundedCounts(total, pct)
    else
      var base := RoundedCounts(breakpoint, pct);
      var extra := RoundedCounts(total - breakpoint, AdjustedExtraPercentages(pct, foliageKey, damping));
      map c | c in pct :: (if c in base then base[c] else 0) + (if c in extra then extra[c] else 0)
  }

  /** Multiplying every share by `q` multiplies their sum by `q`. */
  lemma SharesScale(m: Recipe, scaled: Recipe, q: real)
    requires forall c :: c in scaled <==> c in m
    requires forall c :: c in m ==> scaled[c] == m[c] * q
    ensures Shares(scaled) == Shares(m) * q
  {
    SharesExpand(m);
    SharesExpand(scaled);
    SixTermScale(SharesOf(m, Focal), SharesOf(m, Foundation), SharesOf(m, Filler),
                 SharesOf(m, Floater), SharesOf(m, Finisher), SharesOf(m, Foliage), q);
  }

  lemma SixTermScale(a: real, b: real, c: real, d: real, e: real, f: real, q: real)
    ensures (a + b + c + d + e + f) * q == a * q + b * q + c * q + d * q + e * q + f * q
  {
  }

  lemma DivideThenScale(a: real, d: real, r: real)
    requires d != 0.0
    ensures (a / d) * r == a * (r / d)
  {
  }

  /** Renormalising shares that sum to `total` makes them sum to `remaining`. */
  lemma RenormalisedSum(others: Recipe, total: real, remaining: real)
    requires total == Shares(others) && total != 0.0
    ensures Shares(Renormalised(others, total, remaining)) == remaining
  {
    var scaled := Renormalised(others, total, remaining);
    var q := remaining / total;
    forall c | c in others
      ensures scaled[c] == others[c] * q
    {
      DivideThenScale(others[c], total, remaining);
    }
    SharesScale(others, scaled, q);
    ScaledByQuotient(Shares(scaled), total, remaining, q);
  }

  /** If `s` is `d` times `a / d` then `s` is `a`. */
  lemma ScaledByQuotient(s: real, d: real, a: real, q: real)
    requires d != 0.0 && q == a / d && s == d * q
    ensures s == a
  {
  }

  /** A renormalised share times the old total is the old share times the new total. */
  lemma RenormalisedAt(others: Recipe, total: real, remaining: real, c: Category)
    requires total != 0.0 && c in others
    ensures Renormalised(others, total, remaining)[c] * total == others[c] * remaining
  {
    QuotientScaledBack(others[c], total, remaining);
  }

  /** Renormalising non-negative shares by non-negative amounts keeps them non-negative. */
  lemma RenormalisedNonNegative(others: Recipe, total: real, remaining: real)
    requires 0.0 < total && 0.0 <= remaining
    requires forall c :: c in others ==> 0.0 <= others[c]
    ensures forall c :: c in others ==> 0.0 <= Renormalised(others, total, remaining)[c]
  {
    forall c | c in others
      ensures 0.0 <= Renormalised(others, total, remaining)[c]
    {
      ProductNonNegative(others[c] / total, remaining);
    }
  }

  /** Leaving one category out of a sum subtracts its share. */
  lemma SharesWithout(m: Recipe, key: Category)
    ensures Shares(m - {key}) == Shares(m) - SharesOf(m, key)
  {
    SharesExpand(m);
    SharesExpand(m - {key});
    match key
    case Focal =>
    case Foundation =>
    case Filler =>
    case Floater =>
    case Finisher =>
    case Foliage =>
  }

  /** Adding an entry for a category that had none adds its share to the sum. */
  lemma SharesWith(m: Recipe, key: Category, v: real)
    requires key !in m
    ensures Shares(m[key := v]) == Shares(m) + v
  {
    SharesExpand(m);
    SharesExpand(m[key := v]);
    match key
    case Focal =>
    case Foundation =>
    case Filler =>
    case Floater =>
    case Finisher =>
    case Foliage =>
  }

  /** Damping a non-negative share by a factor in [0, 1] keeps it between 0 and the share. */
  lemma DampedShareBounds(f: real, damping: real, dampened: real)
    requires 0.0 <= f && 0.0 <= damping <= 1.0 && dampened == f * damping
    ensures 0.0 <= dampened <= f
  {
  }

  /** Dividing by the non-foliage total and multiplying back returns the scaled share. */
  lemma QuotientScaledBack(a: real, d: real, r: real)
    requires d != 0.0
    ensures (a / d) * r * d == a * r
  {
  }

  /** The adjusted recipe for a recipe that has a foliage entry. */
  lemma AdjustedIs(pct: Recipe, foliageKey: Category, damping: real)
    requires NonFoliageTotal(pct, foliageKey) != 0.0
    ensures AdjustedExtraPercentages(pct, foliageKey, damping)
         == Renormalised(pct - {foliageKey}, NonFoliageTotal(pct, foliageKey), RemainingShare(pct, foliageKey, damping))
              [foliageKey := DampenedFoliageShare(pct, foliageKey, damping)]
  {
  }

  /** The adjusted shares always sum to 1: the renormalised shares fill what foliage leaves. */
  lemma AdjustedSumsToOne(pct: Recipe, foliageKey: Category, damping: real)
    requires NonFoliageTotal(pct, foliageKey) != 0.0
    ensures Shares(AdjustedExtraPercentages(pct, foliageKey, damping)) == 1.0
  {
    var nonFoliage := pct - {foliageKey};
    var dampened := DampenedFoliageShare(pct, foliageKey, damping);
    var others := Renormalised(nonFoliage, NonFoliageTotal(pct, foliageKey), RemainingShare(pct, foliageKey, damping));
    AdjustedIs(pct, foliageKey, damping);
    RenormalisedSum(nonFoliage, NonFoliageTotal(pct, foliageKey), RemainingShare(pct, foliageKey, damping));
    SharesWith(others, foliageKey, dampened);
  }

  /** For a valid recipe and a damping factor in [0, 1] no adjusted share is negative. */
  lemma AdjustedNonNegative(pct: Recipe, foliageKey: Category, damping: real)
    requires ValidRecipe(pct) && NonFoliageTotal(pct, foliageKey) > 0.0
    requires 0.0 <= damping <= 1.0
    ensures forall c :: c in AdjustedExtraPercentages(pct, foliageKey, damping) ==>
      0.0 <= AdjustedExtraPercentages(pct, foliageKey, damping)[c]
  {
    AdjustedIs(pct, foliageKey, damping);
    SharesWithout(pct, foliageKey);
    DampedShareBounds(SharesOf(pct, foliageKey), damping, DampenedFoliageShare(pct, foliageKey, damping));
    RenormalisedNonNegative(pct - {foliageKey}, NonFoliageTotal(pct, foliageKey), RemainingShare(pct, foliageKey, damping));
  }

  /** Every non-foliage share is scaled by the same factor: what is left after damping over what it was. */
  lemma AdjustedProportional(pct: Recipe, foliageKey: Category, damping: real, c: Category)
    requires c in pct && c != foliageKey && NonFoliageTotal(pct, foliageKey) != 0.0
    ensures AdjustedExtraPercentages(pct, foliageKey, damping)[c] * NonFoliageTotal(pct, foliageKey)
         == pct[c] * RemainingShare(pct, foliageKey, damping)
  {
    var nonFoliage := pct - {foliageKey};
    var nft, remaining := NonFoliageTotal(pct, foliageKey), RemainingShare(pct, foliageKey, damping);
    AdjustedIs(pct, foliageKey, damping);
    assert AdjustedExtraPercentages(pct, foliageKey, damping)[c] == Renormalised(nonFoliage, nft, remaining)[c];
    assert nonFoliage[c] == pct[c];
    RenormalisedAt(nonFoliage, nft, remaining, c);
  }

  /**
   * Above the breakpoint the adjusted shares form a valid recipe again, with foliage
   * getting `damping` times its share (AdjustedProportional gives the other shares).
   */
  lemma AdjustedPercentagesValid(pct: Recipe, foliageKey: Category, damping: real)
    requires ValidRecipe(pct) && NonFoliageTotal(pct, foliageKey) > 0.0
    requires 0.0 <= damping <= 1.0
    ensures ValidRecipe(AdjustedExtraPercentages(pct, foliageKey, damping))
    ensures AdjustedExtraPercentages(pct, foliageKey, damping)[foliageKey] == DampenedFoliageShare(pct, foliageKey, damping)
  {
    AdjustedIs(pct, foliageKey, damping);
    AdjustedSumsToOne(pct, foliageKey, damping);
    AdjustedNonNegative(pct, foliageKey, damping);
  }

  /** Adding two count maps category by category adds their totals. */
  lemma StemsOfSum(sum: map<Category, int>, a: map<Category, int>, b: map<Category, int>)
    requires IsTotal(sum) && IsTotal(a) && IsTotal(b)
    requires forall c :: sum[c] == a[c] + b[c]
    ensures Stems(sum) == Stems(a) + Stems(b)
  {
    StemsExpand(sum);
    StemsExpand(a);
    StemsExpand(b);
  }

  /** Above the breakpoint each category gets its breakpoint count plus its count among the extra stems. */
  lemma StemRecipeAbove(total: nat, pct: Recipe, breakpoint: nat, foliageKey: Category, damping: real)
    requires IsTotal(pct) && breakpoint < total && NonFoliageTotal(pct, foliageKey) != 0.0
    ensures forall c :: (StemRecipe(total, pct, breakpoint, foliageKey, damping)[c]
      == RoundedCounts(breakpoint, pct)[c]
       + RoundedCounts(total - breakpoint, AdjustedExtraPercentages(pct, foliageKey, damping))[c])
  {
  }

  /**
   * A category whose share of the smaller of `total` and the breakpoint is at least
   * one stem gets at least one stem: bb_round never rounds below the floor, and the
   * stems above the breakpoint only add to the base counts.
   */
  lemma StemRecipeAtLeastOne(total: nat, pct: Recipe, breakpoint: nat, foliageKey: Category, damping: real,
                             c: Category)
    requires ValidRecipe(pct) && NonFoliageTotal(pct, foliageKey) > 0.0
    requires 0.0 <= damping <= 1.0
    requires 1.0 <= pct[c] * (if total <= breakpoint then total else breakpoint) as real
    ensures 1 <= StemRecipe(total, pct, breakpoint, foliageKey, damping)[c]
  {
    if total <= breakpoint {
      RoundedAtLeastOne(total, pct, c);
    } else {
      RoundedAtLeastOne(breakpoint, pct, c);
      var adjusted := AdjustedExtraPercentages(pct, foliageKey, damping);
      assert 0 <= RoundedCounts(total - breakpoint, adjusted)[c] by {
        AdjustedPercentagesValid(pct, foliageKey, damping);
        BbRoundSumsToStems(total - breakpoint, adjusted);
      }
      StemRecipeAbove(total, pct, breakpoint, foliageKey, damping);
    }
  }

  lemma RoundedAtLeastOne(stems: nat, pct: Recipe, c: Category)
    requires ValidRecipe(pct) && 1.0 <= pct[c] * stems as real
    ensures 1 <= RoundedCounts(stems, pct)[c]
  {
    FloorAtLeastOne(pct[c] * stems as real);
    BbRoundFloorOrNext(stems, pct, c);
  }

  lemma FloorAtLeastOne(x: real)
    requires 1.0 <= x
    ensures 1 <= x.Floor
  {
  }

  /** With a valid recipe, the stem counts add up to exactly `total` and none is negative. */
  lemma StemRecipeSumsToTotal(total: nat, pct: Recipe, breakpoint: nat, foliageKey: Category, damping: real)
    requires ValidRecipe(pct) && NonFoliageTotal(pct, foliageKey) > 0.0
    requires 0.0 <= damping <= 1.0
    ensures Stems(StemRecipe(total, pct, breakpoint, foliageKey, damping)) == total
    ensures forall c :: 0 <= StemRecipe(total, pct, breakpoint, foliageKey, damping)[c]
  {
    if total <= breakpoint {
      BbRoundSumsToStems(total, pct);
    } else {
      var adjusted := AdjustedExtraPercentages(pct, foliageKey, damping);
      StemRecipeAbove(total, pct, breakpoint, foliageKey, damping);
      AdjustedPercentagesValid(pct, foliageKey, damping);
      BbRoundSumsToStems(breakpoint, pct);
      BbRoundSumsToStems(total - breakpoint, adjusted);
      StemsOfSum(StemRecipe(total, pct, breakpoint, foliageKey, damping),
                 RoundedCounts(breakpoint, pct), RoundedCounts(total - breakpoint, adjusted));
    }
  }

  /** Floors of the breakpoint part and of a smaller share of the rest never exceed the whole floor. */
  lemma FoliageFloorsBound(total: nat, pct: Recipe, breakpoint: nat, extra: nat, adjusted: Recipe,
                           baseCount: int, extraCount: int)
    requires Foliage in pct && Foliage in adjusted
    requires extra == total - breakpoint && breakpoint < total
    requires baseCount == (pct[Foliage] * breakpoint as real).Floor
    requires extraCount == (adjusted[Foliage] * extra as real).Floor
    requires 0.0 <= adjusted[Foliage] <= pct[Foliage]
    ensures baseCount + extraCount <= (pct[Foliage] * total as real).Floor
  {
    var f, d := pct[Foliage], adjusted[Foliage];
    assert d * extra as real <= f * extra as real;
    assert f * breakpoint as real + f * extra as real == f * total as real;
  }

  /** Damping by a factor in [0, 1] gives at most the undamped share. */
  lemma DampenedAtMost(pct: Recipe, foliageKey: Category, damping: real)
    requires foliageKey in pct && 0.0 <= pct[foliageKey] && 0.0 <= damping <= 1.0
    ensures 0.0 <= DampenedFoliageShare(pct, foliageKey, damping) <= pct[foliageKey]
  {
    DampedShareBounds(SharesOf(pct, foliageKey), damping, DampenedFoliageShare(pct, foliageKey, damping));
  }

  /**
   * Foliage never gets more than its undamped truncated share of the whole bouquet;
   * at or below the breakpoint it gets exactly that share.
   */
  lemma FoliageDamped(total: nat, pct: Recipe, breakpoint: nat, damping: real)
    requires ValidRecipe(pct) && NonFoliageTotal(pct, Foliage) > 0.0
    requires 0.0 <= damping <= 1.0
    ensures StemRecipe(total, pct, breakpoint, Foliage, damping)[Foliage]
         <= (pct[Foliage] * total as real).Floor
    ensures total <= breakpoint ==>
      StemRecipe(total, pct, breakpoint, Foliage, damping)[Foliage] == (pct[Foliage] * total as real).Floor
  {
    if total <= breakpoint {
      FoliageGetsFloor(total, pct);
    } else {
      FoliageDampedAbove(total, pct, breakpoint, damping, total - breakpoint, AdjustedExtraPercentages(pct, Foliage, damping));
    }
  }

  /** The damped foliage share of the adjusted recipe lies between 0 and the undamped share. */
  lemma AdjustedFoliageBounds(pct: Recipe, damping: real, adjusted: Recipe)
    requires ValidRecipe(pct) && NonFoliageTotal(pct, Foliage) > 0.0 && 0.0 <= damping <= 1.0
    requires adjusted == AdjustedExtraPercentages(pct, Foliage, damping)
    ensures 0.0 <= adjusted[Foliage] <= pct[Foliage]
  {
    AdjustedIs(pct, Foliage, damping);
    DampenedAtMost(pct, Foliage, damping);
  }

  /** bb_round gives foliage exactly its floored share of the extra stems under the adjusted recipe. */
  lemma ExtraFoliageIsFloor(pct: Recipe, damping: real, extra: nat, adjusted: Recipe)
    requires ValidRecipe(pct) && NonFoliageTotal(pct, Foliage) > 0.0 && 0.0 <= damping <= 1.0
    requires adjusted == AdjustedExtraPercentages(pct, Foliage, damping)
    ensures RoundedCounts(extra, adjusted)[Foliage] == (adjusted[Foliage] * extra as real).Floor
  {
    AdjustedPercentagesValid(pct, Foliage, damping);
    FoliageGetsFloor(extra, adjusted);
  }

  lemma FoliageDampedAbove(total: nat, pct: Recipe, breakpoint: nat, damping: real, extra: nat, adjusted: Recipe)
    requires ValidRecipe(pct) && NonFoliageTotal(pct, Foliage) > 0.0
    requires 0.0 <= damping <= 1.0 && breakpoint < total
    requires extra == total - breakpoint && adjusted == AdjustedExtraPercentages(pct, Foliage, damping)
    ensures StemRecipe(total, pct, breakpoint, Foliage, damping)[Foliage]
         <= (pct[Foliage] * total as real).Floor
  {
    var baseCount, extraCount := RoundedCounts(breakpoint, pct)[Foliage], RoundedCounts(extra, adjusted)[Foliage];
    assert StemRecipe(total, pct, breakpoint, Foliage, damping)[Foliage] == baseCount + extraCount by {
      StemRecipeAbove(total, pct, breakpoint, Foliage, damping);
    }
    assert baseCount == (pct[Foliage] * breakpoint as real).Floor by {
      FoliageGetsFloor(breakpoint, pct);
    }
    assert extraCount == (adjusted[Foliage] * extra as real).Floor by {
      ExtraFoliageIsFloor(pct, damping, extra, adjusted);
    }
    assert 0.0 <= adjusted[Foliage] <= pct[Foliage] by {
      AdjustedFoliageBounds(pct, damping, adjusted);
    }
    FoliageFloorsBound(total, pct, breakpoint, extra, adjusted, baseCount, extraCount);
  }

  /** A bouquet of no stems has no stems in any category. */
  lemma ZeroStemsAllZero(pct: Recipe, breakpoint: nat, foliageKey: Category, damping: real)
    requires IsTotal(pct)
    ensures forall c :: StemRecipe(0, pct, breakpoint, foliageKey, damping)[c] == 0
  {
    StemsExpand(Truncated(0, pct));
  }

  /** Each raw count of the early-spring recipe at 20 stems. */
  lemma EarlySpringRaw()
    ensures Raw(20, Recipes.EarlySpring) == map[Focal := 4.0, Foundation := 7.8, Filler := 1.6,
                                                Floater := 2.0, Finisher := 1.6, Foliage := 3.0]
  {
  }

  /** Truncating the early-spring raw counts hands out 18 of the 20 stems. */
  lemma EarlySpringRemainder()
    ensures Truncated(20, Recipes.EarlySpring)
         == map[Focal := 4, Foundation := 7, Filler := 1, Floater := 2, Finisher := 1, Foliage := 3]
    ensures Remainder(20, Recipes.EarlySpring) == 2
  {
    EarlySpringRaw();
    StemsExpand(Truncated(20, Recipes.EarlySpring));
  }

  /**
   * The early-spring recipe at 20 stems: the two leftover stems go to Foundation and
   * Floater, giving Focal 4, Foundation 8, Filler 1, Floater 3, Finisher 1, Foliage 3.
   */
  lemma EarlySpringTwentyStems()
    ensures IsTotal(Recipes.EarlySpring)
    ensures StemRecipe(20, Recipes.EarlySpring, DefaultBreakpoint, Foliage, DefaultFoliageDamping)
         == map[Focal := 4, Foundation := 8, Filler := 1, Floater := 3, Finisher := 1, Foliage := 3]
  {
    AllSixTotal(Recipes.EarlySpring);
    EarlySpringRemainder();
    EarlySpringLeftovers(Raw(20, Recipes.EarlySpring));
  }

  /** The two leftover stems go to the first two categories of the redistribution order. */
  lemma EarlySpringLeftovers(raw: Recipe)
    requires IsTotal(raw)
    requires TruncAll(raw) == map[Focal := 4, Foundation := 7, Filler := 1, Floater := 2, Finisher := 1, Foliage := 3]
    ensures Distributed(raw, 2) == map[Focal := 4, Foundation := 8, Filler := 1, Floater := 3, Finisher := 1, Foliage := 3]
  {
    assert Distributed(raw, 1) == TruncAll(raw)[Foundation := 8];
  }
}
