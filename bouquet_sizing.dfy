/**
 * Price-driven bouquet sizing (core/bouquet_sizing.py): a target price divided by
 * the recipe-weighted average wholesale cost of one stem.
 *
 * The recipe is iterated in ValidCategories order, the key order of every recipe
 * the core builds, so a recipe with several unpriced categories reports the first
 * of them in that order.
 */
module BouquetSizing {
  import opened Wrappers
  import opened Categories

  /** The two ValueErrors estimate_bouquet_stem_count raises. */
  datatype SizingError =
    | MissingPrice(category: Category)
    | NonPositiveCost

  /** Every category of the recipe has a wholesale price. */
  predicate AllPriced(pct: Recipe, prices: Prices)
  {
    forall c :: c in pct ==> c in prices
  }

  /** One recipe category's contribution pct × price (nothing for a category outside the recipe or unpriced). */
  function CostOf(pct: Recipe, prices: Prices, c: Category): real
  {
    if c in pct && c in prices then pct[c] * prices[c] else 0.0
  }

  /** Σ pct × price over the first n categories of ValidCategories. */
  function WeightedCostUpTo(pct: Recipe, prices: Prices, n: nat): real
    requires n <= |ValidCategories|
  {
    if n == 0 then 0.0 else WeightedCostUpTo(pct, prices, n - 1) + CostOf(pct, prices, ValidCategories[n - 1])
  }

  lemma WeightedCostStep(pct: Recipe, prices: Prices, i: nat, c: Category)
    requires i < |ValidCategories| && c == ValidCategories[i]
    ensures WeightedCostUpTo(pct, prices, i + 1) == WeightedCostUpTo(pct, prices, i) + CostOf(pct, prices, c)
  {
  }

  /** avg_cost_per_stem: the recipe-weighted average cost of one stem. */
  function WeightedCost(pct: Recipe, prices: Prices): real
  {
    WeightedCostUpTo(pct, prices, |ValidCategories|)
  }

  /** The first recipe category from position i of ValidCategories on that has no price. */
  function FirstUnpricedFrom(pct: Recipe, prices: Prices, i: nat): Option<Category>
    requires i <= |ValidCategories|
    decreases |ValidCategories| - i
  {
    if i == |ValidCategories| then None
    else
      var c := ValidCategories[i];
      if c in pct && c !in prices then Some(c) else FirstUnpricedFrom(pct, prices, i + 1)
  }

  /**
   * FirstUnpricedFrom finds nothing exactly when every recipe category from i on is
   * priced, and otherwise finds an unpriced one with every recipe category before it priced.
   */
  lemma {:induction false} FirstUnpricedIsFirst(pct: Recipe, prices: Prices, i: nat)
    requires i <= |ValidCategories|
    ensures var first := FirstUnpricedFrom(pct, prices, i);
      && (first.None? <==> forall c :: c in pct && i <= Index(c) ==> c in prices)
      && (first.Some? ==>
            && first.value in pct && first.value !in prices && i <= Index(first.value)
            && forall d :: d in pct && i <= Index(d) < Index(first.value) ==> d in prices)
    decreases |ValidCategories| - i
  {
    if i < |ValidCategories| {
      FirstUnpricedIsFirst(pct, prices, i + 1);
      var c := ValidCategories[i];
      assert forall d :: Index(d) == i ==> d == c;
    }
  }

  /** The result estimate_bouquet_stem_count returns or the error it raises. */
  function StemCountEstimate(targetPrice: real, pct: Recipe, prices: Prices): Result<real, SizingError>
  {
    match FirstUnpricedFrom(pct, prices, 0)
    case Some(c) => Failure(MissingPrice(c))
    case None =>
      var cost := WeightedCost(pct, prices);
      if cost <= 0.0 then Failure(NonPositiveCost) else Success(targetPrice / cost)
  }

  /**
   * The three outcomes: a missing price exactly when some recipe category is unpriced
   * (reported for the first one), checked before the cost; a non-positive-cost error
   * exactly when all are priced and the weighted cost is at most 0; otherwise a stem
   * count that times the weighted cost gives back the target price, positive for a
   * positive target.
   */
  lemma StemCountEstimateOutcomes(targetPrice: real, pct: Recipe, prices: Prices)
    ensures var r := StemCountEstimate(targetPrice, pct, prices);
      && (r.Failure? && r.error.MissingPrice? <==> !AllPriced(pct, prices))
      && (r.Failure? && r.error.MissingPrice? ==>
            var c := r.error.category;
            c in pct && c !in prices && forall d :: d in pct && Index(d) < Index(c) ==> d in prices)
      && (r == Failure(NonPositiveCost) <==> AllPriced(pct, prices) && WeightedCost(pct, prices) <= 0.0)
      && (r.Success? ==> r.value * WeightedCost(pct, prices) == targetPrice)
      && (r.Success? && 0.0 < targetPrice ==> 0.0 < r.value)
  {
    FirstUnpricedIsFirst(pct, prices, 0);
    var cost := WeightedCost(pct, prices);
    if 0.0 < cost {
      QuotientTimesDivisor(targetPrice, cost);
    }
  }

  lemma QuotientTimesDivisor(a: real, d: real)
    requires 0.0 < d
    ensures (a / d) * d == a
    ensures 0.0 < a ==> 0.0 < a / d
  {
  }

  /**
   * estimate_bouquet_stem_count: accumulate pct × price over the recipe, raising on
   * the first category with no price, then divide the target price by the total.
   */
  method EstimateBouquetStemCount(targetPrice: real, pct: Recipe, prices: Prices)
    returns (r: Result<real, SizingError>)
    ensures r == StemCountEstimate(targetPrice, pct, prices)
  {
    var avgCostPerStem := 0.0;
    var i := 0;
    while i < |ValidCategories|
      invariant 0 <= i <= |ValidCategories|
      invariant FirstUnpricedFrom(pct, prices, 0) == FirstUnpricedFrom(pct, prices, i)
      invariant avgCostPerStem == WeightedCostUpTo(pct, prices, i)
    {
      var category := ValidCategories[i];
      WeightedCostStep(pct, prices, i, category);
      if category in pct {
        if category !in prices {
          return Failure(MissingPrice(category));
        }
        assert pct[category] * prices[category] == CostOf(pct, prices, category);
        avgCostPerStem := avgCostPerStem + pct[category] * prices[category];
      }
      i := i + 1;
    }
    if avgCostPerStem <= 0.0 {
      return Failure(NonPositiveCost);
    }
    return Success(targetPrice / avgCostPerStem);
  }

  /** Prices of categories outside the recipe never change the weighted cost. */
  lemma {:induction false} WeightedCostUpToIgnoresOthers(pct: Recipe, prices: Prices, other: Prices, n: nat)
    requires n <= |ValidCategories|
    requires forall c :: c in pct ==> (c in prices <==> c in other)
    requires forall c :: c in pct && c in prices ==> prices[c] == other[c]
    ensures WeightedCostUpTo(pct, prices, n) == WeightedCostUpTo(pct, other, n)
  {
    if n > 0 {
      WeightedCostUpToIgnoresOthers(pct, prices, other, n - 1);
      var c := ValidCategories[n - 1];
      assert CostOf(pct, prices, c) == CostOf(pct, other, c) by {
        if c in pct && c in prices {
          assert prices[c] == other[c];
        }
      }
    }
  }

  /**
   * Only the prices of the recipe's own categories matter: two price tables that
   * agree on the recipe's categories give the same estimate or the same error.
   */
  lemma EstimateIgnoresOtherPrices(targetPrice: real, pct: Recipe, prices: Prices, other: Prices)
    requires forall c :: c in pct ==> (c in prices <==> c in other)
    requires forall c :: c in pct && c in prices ==> prices[c] == other[c]
    ensures StemCountEstimate(targetPrice, pct, prices) == StemCountEstimate(targetPrice, pct, other)
  {
    WeightedCostUpToIgnoresOthers(pct, prices, other, |ValidCategories|);
    FirstUnpricedIgnoresOthers(pct, prices, other, 0);
  }

  lemma {:induction false} FirstUnpricedIgnoresOthers(pct: Recipe, prices: Prices, other: Prices, i: nat)
    requires i <= |ValidCategories|
    requires forall c :: c in pct ==> (c in prices <==> c in other)
    ensures FirstUnpricedFrom(pct, prices, i) == FirstUnpricedFrom(pct, other, i)
    decreases |ValidCategories| - i
  {
    if i < |ValidCategories| {
      FirstUnpricedIgnoresOthers(pct, prices, other, i + 1);
    }
  }
}
