/**
 * The size-sweep planner (core/optimization.py): for every bouquet size from 15 to
 * 35 stems, scale the season's recipe, price it, keep it if the price is within
 * tolerance of the target and the available stems make at least one bouquet, and
 * pick the kept size with the least weighted waste, then the most bouquets, then
 * the closest price.
 */
module Optimization {
  import opened Wrappers
  import opened Categories
  import opened Recipes
  import opened StemScaling
  import BouquetExpansion

  const MinTotalStems: nat := 15
  const MaxTotalStems: nat := 35
  const DefaultPriceTolerance: real := 1.5

  /**
   * WASTE_WEIGHTS: how bad it is to strand a stem of each category. The source's
   * fallback weight 1.0 applies only to names outside these six.
   */
  function WasteWeight(c: Category): (w: real)
    ensures 0.0 < w <= 5.0
  {
    match c
    case Foundation => 5.0
    case Finisher => 4.0
    case Floater => 3.0
    case Filler => 2.0
    case Focal => 1.0
    case Foliage => 0.5
  }

  /** One kept size: the dictionary optimize_bouquets appends to `solutions`. */
  datatype Solution = Solution(
    totalStems: nat,
    recipe: map<Category, int>,
    bouquetCost: real,
    maxBouquets: int,
    strandedStems: map<Category, int>,
    wastePenalty: real)

  /** calculate_stem_recipe with its default breakpoint, foliage key and damping. */
  function SizedRecipe(totalStems: nat, pct: Recipe): map<Category, int>
    requires ValidRecipe(pct) && NonFoliageTotal(pct, Foliage) > 0.0
  {
    StemRecipe(totalStems, pct, DefaultBreakpoint, Foliage, DefaultFoliageDamping)
  }

  /**
   * Step 2: the bouquet cost, accumulated over the recipe and abandoned (None) at the
   * first category without a price.
   */
  method ComputeBouquetCost(recipe: map<Category, int>, prices: Prices) returns (cost: Option<real>)
    ensures cost.None? <==> !BouquetExpansion.Priced(recipe, prices)
    ensures cost.Some? ==> cost.value == BouquetExpansion.BouquetCost(recipe, prices)
  {
    var bouquetCost := 0.0;
    var i := 0;
    while i < |ValidCategories|
      invariant 0 <= i <= |ValidCategories|
      invariant forall c :: c in recipe && Index(c) < i ==> c in prices
      invariant BouquetExpansion.Priced(recipe, prices) ==>
        bouquetCost == BouquetExpansion.CostUpTo(recipe, prices, i)
    {
      var cat := ValidCategories[i];
      if cat in recipe {
        if cat !in prices {
          return None;
        }
        var count := recipe[cat];
        assert BouquetExpansion.Priced(recipe, prices) ==>
          BouquetExpansion.CostOf(recipe, prices, cat) == count as real * prices[cat];
        bouquetCost := bouquetCost + count as real * prices[cat];
      }
      i := i + 1;
    }
    return Some(bouquetCost);
  }

  /** Every category the recipe uses has an entry in the availability table. */
  predicate Stocked(recipe: map<Category, int>, available: Availability)
  {
    forall c :: c in recipe && recipe[c] > 0 ==> c in available
  }

  /** `available // count` for a category with a positive count (floor division; the divisor is positive). */
  function Quotient(recipe: map<Category, int>, available: Availability, c: Category): int
    requires c in recipe && recipe[c] > 0 && c in available
  {
    available[c] / recipe[c]
  }

  /** The min of the quotients over the positive-count categories among the first n of ValidCategories. */
  function MinQuotientUpTo(recipe: map<Category, int>, available: Availability, n: nat): Option<int>
    requires Stocked(recipe, available) && n <= |ValidCategories|
  {
    if n == 0 then None
    else
      var rest := MinQuotientUpTo(recipe, available, n - 1);
      var c := ValidCategories[n - 1];
      if c in recipe && recipe[c] > 0 then
        var q := Quotient(recipe, available, c);
        if rest.None? || q < rest.value then Some(q) else rest
      else rest
  }

  /**
   * Step 4: max_bouquets, or None where the source skips the size because a used
   * category is missing from the availability table (the caught KeyError), or where
   * Python's min would find no positive count.
   */
  function MaxBouquets(recipe: map<Category, int>, available: Availability): Option<int>
  {
    if Stocked(recipe, available) then MinQuotientUpTo(recipe, available, |ValidCategories|) else None
  }

  /**
   * MinQuotientUpTo is None exactly when no category it looks at has a positive count;
   * otherwise it is at most every such quotient and equal to one of them.
   */
  lemma {:induction false} MinQuotientIsMin(recipe: map<Category, int>, available: Availability, n: nat)
    requires Stocked(recipe, available) && n <= |ValidCategories|
    ensures var m := MinQuotientUpTo(recipe, available, n);
      && (m.None? <==> forall c :: c in recipe && recipe[c] > 0 ==> n <= Index(c))
      && (m.Some? ==> forall c :: c in recipe && recipe[c] > 0 && Index(c) < n ==> m.value <= Quotient(recipe, available, c))
      && (m.Some? ==> exists c :: c in recipe && recipe[c] > 0 && Index(c) < n && m.value == Quotient(recipe, available, c))
  {
    if n > 0 {
      MinQuotientIsMin(recipe, available, n - 1);
      var c := ValidCategories[n - 1];
      assert forall d :: Index(d) == n - 1 ==> d == c;
    }
  }

  /** Step 5: what is left of each category once max_bouquets bouquets are made. */
  function Stranded(recipe: map<Category, int>, available: Availability, maxBouquets: int): (stranded: map<Category, int>)
    requires recipe.Keys <= available.Keys
    ensures stranded.Keys == recipe.Keys
  {
    map c | c in recipe :: available[c] - recipe[c] * maxBouquets
  }

  /** Σ stranded[c] × weight(c) over the stranded categories among the first n of ValidCategories. */
  function WasteUpTo(stranded: map<Category, int>, n: nat): (penalty: real)
    requires n <= |ValidCategories|
    ensures (forall c :: c in stranded ==> 0 <= stranded[c]) ==> 0.0 <= penalty
  {
    if n == 0 then 0.0
    else
      var c := ValidCategories[n - 1];
      WasteUpTo(stranded, n - 1) + (if c in stranded then stranded[c] as real * WasteWeight(c) else 0.0)
  }

  /** Step 6: the weighted waste penalty. */
  function WastePenalty(stranded: map<Category, int>): (penalty: real)
    ensures (forall c :: c in stranded ==> 0 <= stranded[c]) ==> 0.0 <= penalty
  {
    WasteUpTo(stranded, |ValidCategories|)
  }

  /** No stranded stems, no penalty; stranding never gives a negative penalty. */
  lemma {:induction false} WasteUpToNonNegative(stranded: map<Category, int>, n: nat)
    requires n <= |ValidCategories|
    requires forall c :: c in stranded ==> 0 <= stranded[c]
    ensures 0.0 <= WasteUpTo(stranded, n)
    ensures (forall c :: c in stranded ==> stranded[c] == 0) ==> WasteUpTo(stranded, n) == 0.0
  {
    if n > 0 {
      WasteUpToNonNegative(stranded, n - 1);
      var c := ValidCategories[n - 1];
      if c in stranded {
        WeightedNonNegative(stranded[c], WasteWeight(c));
      }
    }
  }

  lemma WeightedNonNegative(k: int, w: real)
    requires 0 <= k && 0.0 <= w
    ensures 0.0 <= k as real * w
  {
  }

  /**
   * Steps 2 to 6 for one size whose scaled recipe is `recipe`: None where
   * optimize_bouquets `continue`s, else the solution it appends (cost unrounded).
   * A zero-count category missing from the availability table, where the source's
   * stranded step would raise, also gives None.
   */
  function Candidate(totalStems: nat, recipe: map<Category, int>, available: Availability, prices: Prices,
                     targetPrice: real, priceTolerance: real): (r: Option<Solution>)
    ensures r.Some? ==> r.value.totalStems == totalStems && r.value.recipe == recipe
  {
    if !BouquetExpansion.Priced(recipe, prices) then None
    else
      var bouquetCost := BouquetExpansion.BouquetCost(recipe, prices);
      if BouquetExpansion.Abs(bouquetCost - targetPrice) > priceTolerance then None
      else
        match MaxBouquets(recipe, available)
        case None => None
        case Some(maxBouquets) =>
          if maxBouquets <= 0 || !(recipe.Keys <= available.Keys) then None
          else
            var stranded := Stranded(recipe, available, maxBouquets);
            Some(Solution(totalStems, recipe, bouquetCost, maxBouquets, stranded, WastePenalty(stranded)))
  }

  /** The stranded count of one category, bounded by the quotient that limits max_bouquets. */
  lemma StrandedBounds(available: int, count: int, maxBouquets: int)
    requires 0 < count && maxBouquets <= available / count
    ensures 0 <= available - count * maxBouquets
    ensures maxBouquets == available / count ==> available - count * maxBouquets < count
  {
    assert count * (available / count) + available % count == available;
    MultiplyMonotone(count, maxBouquets, available / count);
  }

  /**
   * max_bouquets is missing exactly when a used category has no availability entry
   * or no category is used; a recipe with stems in it always uses one, so Python's
   * min never sees an empty sequence there.
   */
  lemma MaxBouquetsDefined(recipe: map<Category, int>, available: Availability)
    ensures MaxBouquets(recipe, available).None? <==>
      !Stocked(recipe, available) || forall c :: c in recipe ==> recipe[c] <= 0
    ensures 0 < Stems(recipe) && Stocked(recipe, available) ==> MaxBouquets(recipe, available).Some?
  {
    if Stocked(recipe, available) {
      MinQuotientIsMin(recipe, available, |ValidCategories|);
      if forall c :: c in recipe ==> recipe[c] <= 0 {
        StemsExpand(recipe);
      }
    }
  }

  /**
   * At every size the sweep tries, each category of a season's recipe gets at least
   * one stem, so every category counts towards max_bouquets and the stranded step
   * looks up only categories that step 4 already found in the availability table.
   */
  lemma SweepRecipeUsesEveryCategory(seasonKey: string, totalStems: nat, c: Category)
    requires seasonKey in CanonicalRecipes && MinTotalStems <= totalStems
    ensures 1 <= SizedRecipe(totalStems, SeasonRecipe(seasonKey))[c]
  {
    var pct := SeasonRecipe(seasonKey);
    CanonicalSharesAtLeastEightPercent(seasonKey, c);
    if totalStems <= DefaultBreakpoint {
      SweepShareAtLeastOne(pct[c], totalStems);
    } else {
      SweepShareAtLeastOne(pct[c], DefaultBreakpoint);
    }
    StemRecipeAtLeastOne(totalStems, pct, DefaultBreakpoint, Foliage, DefaultFoliageDamping, c);
  }

  lemma SweepShareAtLeastOne(share: real, stems: nat)
    requires 0.08 <= share && MinTotalStems <= stems
    ensures 1.0 <= share * stems as real
  {
  }

  /**
   * What a kept size promises: the recipe is fully priced, its cost is the recipe's
   * cost and within tolerance of the target; at least one bouquet can be made, and
   * max_bouquets is the least available // count over positive counts; each category
   * strands available − count × max_bouquets stems, never fewer than 0 when
   * availability is non-negative, and some positive-count category strands fewer
   * stems than one bouquet uses; the waste penalty is the weighted sum.
   */
  lemma CandidateProperties(totalStems: nat, recipe: map<Category, int>, available: Availability, prices: Prices,
                            targetPrice: real, priceTolerance: real)
    requires Candidate(totalStems, recipe, available, prices, targetPrice, priceTolerance).Some?
    ensures var s := Candidate(totalStems, recipe, available, prices, targetPrice, priceTolerance).value;
      && BouquetExpansion.Priced(recipe, prices)
      && s.bouquetCost == BouquetExpansion.BouquetCost(recipe, prices)
      && BouquetExpansion.Abs(s.bouquetCost - targetPrice) <= priceTolerance
      && 1 <= s.maxBouquets
      && recipe.Keys <= available.Keys
      && (forall c :: c in recipe && recipe[c] > 0 ==> s.maxBouquets <= available[c] / recipe[c])
      && (exists c :: c in recipe && recipe[c] > 0 && s.maxBouquets == available[c] / recipe[c])
      && s.strandedStems.Keys == recipe.Keys
      && (forall c :: c in s.strandedStems ==> s.strandedStems[c] == available[c] - recipe[c] * s.maxBouquets)
      && ((forall c :: c in available ==> 0 <= available[c]) ==>
            forall c :: c in s.strandedStems ==> 0 <= s.strandedStems[c])
      && (exists c :: c in recipe && 0 < recipe[c] && s.strandedStems[c] < recipe[c])
      && s.wastePenalty == WastePenalty(s.strandedStems)
  {
    var s := Candidate(totalStems, recipe, available, prices, targetPrice, priceTolerance).value;
    MinQuotientIsMin(recipe, available, |ValidCategories|);
    var m := s.maxBouquets;
    var c :| c in recipe && recipe[c] > 0 && m == Quotient(recipe, available, c);
    StrandedBounds(available[c], recipe[c], m);
    if forall d :: d in available ==> 0 <= available[d] {
      forall d | d in s.strandedStems
        ensures 0 <= s.strandedStems[d]
      {
        if recipe[d] > 0 {
          StrandedBounds(available[d], recipe[d], m);
        }
      }
    }
  }

  /**
   * The solutions list after trying every size from MinTotalStems up to (not
   * including) `upTo`, where `recipeAt` gives the scaled recipe of each size.
   */
  function SolutionsUpTo(recipeAt: nat -> map<Category, int>, available: Availability, prices: Prices,
                         targetPrice: real, priceTolerance: real, upTo: nat): seq<Solution>
  {
    if upTo <= MinTotalStems then []
    else
      var candidate := Candidate(upTo - 1, recipeAt(upTo - 1), available, prices, targetPrice, priceTolerance);
      SolutionsUpTo(recipeAt, available, prices, targetPrice, priceTolerance, upTo - 1)
      + (if candidate.Some? then [candidate.value] else [])
  }

  /** Trying one more size appends its solution, if it is kept, and nothing else. */
  lemma SolutionsStep(recipeAt: nat -> map<Category, int>, available: Availability, prices: Prices,
                      targetPrice: real, priceTolerance: real, upTo: nat)
    requires MinTotalStems <= upTo
    ensures var candidate := Candidate(upTo, recipeAt(upTo), available, prices, targetPrice, priceTolerance);
      SolutionsUpTo(recipeAt, available, prices, targetPrice, priceTolerance, upTo + 1)
      == SolutionsUpTo(recipeAt, available, prices, targetPrice, priceTolerance, upTo)
         + (if candidate.Some? then [candidate.value] else [])
  {
  }

  /** Every entry of the solutions list below `upTo` is the kept solution of its own size, from MinTotalStems to upTo − 1. */
  lemma {:induction false} SolutionsAreCandidates(recipeAt: nat -> map<Category, int>, available: Availability,
                                                  prices: Prices, targetPrice: real, priceTolerance: real, upTo: nat)
    ensures forall i :: 0 <= i < |SolutionsUpTo(recipeAt, available, prices, targetPrice, priceTolerance, upTo)| ==>
      MinTotalStems <= SolutionsUpTo(recipeAt, available, prices, targetPrice, priceTolerance, upTo)[i].totalStems < upTo
    ensures forall i :: 0 <= i < |SolutionsUpTo(recipeAt, available, prices, targetPrice, priceTolerance, upTo)| ==>
      var s := SolutionsUpTo(recipeAt, available, prices, targetPrice, priceTolerance, upTo)[i];
      Candidate(s.totalStems, recipeAt(s.totalStems), available, prices, targetPrice, priceTolerance) == Some(s)
  {
    if upTo > MinTotalStems {
      SolutionsAreCandidates(recipeAt, available, prices, targetPrice, priceTolerance, upTo - 1);
      var solutions := SolutionsUpTo(recipeAt, available, prices, targetPrice, priceTolerance, upTo);
      var before := SolutionsUpTo(recipeAt, available, prices, targetPrice, priceTolerance, upTo - 1);
      var candidate := Candidate(upTo - 1, recipeAt(upTo - 1), available, prices, targetPrice, priceTolerance);
      assert solutions == before + (if candidate.Some? then [candidate.value] else []);
      forall i | 0 <= i < |solutions|
        ensures MinTotalStems <= solutions[i].totalStems < upTo
        ensures Candidate(solutions[i].totalStems, recipeAt(solutions[i].totalStems), available, prices,
                          targetPrice, priceTolerance) == Some(solutions[i])
      {
        var t := solutions[i].totalStems;
        if i < |before| {
          assert solutions[i] == before[i];
          assert Candidate(t, recipeAt(t), available, prices, targetPrice, priceTolerance) == Some(before[i]);
        } else {
          assert solutions[i] == candidate.value;
          assert t == upTo - 1;
        }
      }
    }
  }

  /** Every size from MinTotalStems to upTo − 1 that is kept has its solution in the list. */
  lemma {:induction false} SolutionsIncludeCandidates(recipeAt: nat -> map<Category, int>, available: Availability,
                                                      prices: Prices, targetPrice: real, priceTolerance: real,
                                                      upTo: nat, t: nat)
    requires MinTotalStems <= t < upTo
    requires Candidate(t, recipeAt(t), available, prices, targetPrice, priceTolerance).Some?
    ensures Candidate(t, recipeAt(t), available, prices, targetPrice, priceTolerance).value
            in SolutionsUpTo(recipeAt, available, prices, targetPrice, priceTolerance, upTo)
  {
    var before := SolutionsUpTo(recipeAt, available, prices, targetPrice, priceTolerance, upTo - 1);
    var candidate := Candidate(upTo - 1, recipeAt(upTo - 1), available, prices, targetPrice, priceTolerance);
    var added := if candidate.Some? then [candidate.value] else [];
    assert SolutionsUpTo(recipeAt, available, prices, targetPrice, priceTolerance, upTo) == before + added;
    if t < upTo - 1 {
      SolutionsIncludeCandidates(recipeAt, available, prices, targetPrice, priceTolerance, upTo - 1, t);
    } else {
      assert added == [candidate.value];
    }
  }

  /** The solutions list is in strictly increasing size. */
  lemma {:induction false} SolutionsIncreasing(recipeAt: nat -> map<Category, int>, available: Availability,
                                               prices: Prices, targetPrice: real, priceTolerance: real, upTo: nat)
    ensures forall i, j :: 0 <= i < j < |SolutionsUpTo(recipeAt, available, prices, targetPrice, priceTolerance, upTo)| ==>
      SolutionsUpTo(recipeAt, available, prices, targetPrice, priceTolerance, upTo)[i].totalStems < SolutionsUpTo(recipeAt, available, prices, targetPrice, priceTolerance, upTo)[j].totalStems
  {
    if upTo > MinTotalStems {
      SolutionsIncreasing(recipeAt, available, prices, targetPrice, priceTolerance, upTo - 1);
      SolutionsAreCandidates(recipeAt, available, prices, targetPrice, priceTolerance, upTo - 1);
      var solutions := SolutionsUpTo(recipeAt, available, prices, targetPrice, priceTolerance, upTo);
      var before := SolutionsUpTo(recipeAt, available, prices, targetPrice, priceTolerance, upTo - 1);
      var candidate := Candidate(upTo - 1, recipeAt(upTo - 1), available, prices, targetPrice, priceTolerance);
      assert solutions == before + (if candidate.Some? then [candidate.value] else []);
      forall i, j | 0 <= i < j < |solutions|
        ensures solutions[i].totalStems < solutions[j].totalStems
      {
        assert solutions[i] == before[i];
        if j < |before| {
          assert solutions[j] == before[j];
        } else {
          assert solutions[j] == candidate.value;
        }
      }
    }
  }

  /** The key min() ranks solutions by. */
  function Key(s: Solution, targetPrice: real): (real, int, real)
  {
    (s.wastePenalty, -s.maxBouquets, BouquetExpansion.Abs(s.bouquetCost - targetPrice))
  }

  /** Python's `<` on those key tuples: lexicographic. */
  predicate KeyLess(a: (real, int, real), b: (real, int, real))
  {
    a.0 < b.0 || (a.0 == b.0 && (a.1 < b.1 || (a.1 == b.1 && a.2 < b.2)))
  }

  /**
   * Python's min(solutions, key=…): the position of the first solution whose key no
   * other solution's key is below; every earlier solution's key is strictly above it.
   */
  function FirstMinimum(solutions: seq<Solution>, targetPrice: real): (k: nat)
    requires |solutions| > 0
    ensures k < |solutions|
    ensures forall i :: 0 <= i < |solutions| ==> !KeyLess(Key(solutions[i], targetPrice), Key(solutions[k], targetPrice))
    ensures forall i :: 0 <= i < k ==> KeyLess(Key(solutions[k], targetPrice), Key(solutions[i], targetPrice))
  {
    if |solutions| == 1 then 0
    else
      var k := FirstMinimum(solutions[..|solutions| - 1], targetPrice);
      var last := |solutions| - 1;
      assert forall i :: 0 <= i < last ==> solutions[..last][i] == solutions[i];
      if KeyLess(Key(solutions[last], targetPrice), Key(solutions[k], targetPrice)) then last else k
  }

  /**
   * What optimize_bouquets returns when `recipeAt` gives the scaled recipe of each
   * size: nothing if no size was kept, else the first solution with the least key.
   */
  function BestSolution(recipeAt: nat -> map<Category, int>, available: Availability, prices: Prices,
                        targetPrice: real, priceTolerance: real): Option<Solution>
  {
    var solutions := SolutionsUpTo(recipeAt, available, prices, targetPrice, priceTolerance, MaxTotalStems + 1);
    if |solutions| == 0 then None else Some(solutions[FirstMinimum(solutions, targetPrice)])
  }

  /** optimize_bouquets returns None exactly when no size from 15 to 35 survives the filters. */
  lemma BestSolutionNone(recipeAt: nat -> map<Category, int>, available: Availability, prices: Prices,
                          targetPrice: real, priceTolerance: real)
    ensures BestSolution(recipeAt, available, prices, targetPrice, priceTolerance).None? <==> forall t :: MinTotalStems <= t <= MaxTotalStems ==>
      Candidate(t, recipeAt(t), available, prices, targetPrice, priceTolerance).None?
  {
    var solutions := SolutionsUpTo(recipeAt, available, prices, targetPrice, priceTolerance, MaxTotalStems + 1);
    if |solutions| > 0 {
      SolutionsAreCandidates(recipeAt, available, prices, targetPrice, priceTolerance, MaxTotalStems + 1);
      assert Candidate(solutions[0].totalStems, recipeAt(solutions[0].totalStems), available, prices,
                       targetPrice, priceTolerance).Some?;
    } else {
      forall t | MinTotalStems <= t <= MaxTotalStems
        ensures Candidate(t, recipeAt(t), available, prices, targetPrice, priceTolerance).None?
      {
        if Candidate(t, recipeAt(t), available, prices, targetPrice, priceTolerance).Some? {
          SolutionsIncludeCandidates(recipeAt, available, prices, targetPrice, priceTolerance, MaxTotalStems + 1, t);
        }
      }
    }
  }

  /** What optimize_bouquets returns is the kept solution of a size from 15 to 35. */
  lemma BestSolutionKept(recipeAt: nat -> map<Category, int>, available: Availability, prices: Prices,
                          targetPrice: real, priceTolerance: real)
    ensures BestSolution(recipeAt, available, prices, targetPrice, priceTolerance).Some? ==>
      var best := BestSolution(recipeAt, available, prices, targetPrice, priceTolerance).value;
      && MinTotalStems <= best.totalStems <= MaxTotalStems
      && Candidate(best.totalStems, recipeAt(best.totalStems), available, prices, targetPrice, priceTolerance)
         == Some(best)
  {
    var solutions := SolutionsUpTo(recipeAt, available, prices, targetPrice, priceTolerance, MaxTotalStems + 1);
    if |solutions| > 0 {
      SolutionsAreCandidates(recipeAt, available, prices, targetPrice, priceTolerance, MaxTotalStems + 1);
      var k := FirstMinimum(solutions, targetPrice);
      assert BestSolution(recipeAt, available, prices, targetPrice, priceTolerance) == Some(solutions[k]);
    }
  }

  /**
   * What optimize_bouquets returns has a key (waste penalty, −max_bouquets, distance
   * to the target) that no kept size beats, and every smaller kept size strictly
   * loses to it, so full ties go to the smallest size.
   */
  lemma BestSolutionMinimal(recipeAt: nat -> map<Category, int>, available: Availability, prices: Prices,
                          targetPrice: real, priceTolerance: real, t: nat)
    requires MinTotalStems <= t <= MaxTotalStems
    requires Candidate(t, recipeAt(t), available, prices, targetPrice, priceTolerance).Some?
    ensures BestSolution(recipeAt, available, prices, targetPrice, priceTolerance).Some?
    ensures var other := Candidate(t, recipeAt(t), available, prices, targetPrice, priceTolerance).value;
      var best := BestSolution(recipeAt, available, prices, targetPrice, priceTolerance).value;
      && !KeyLess(Key(other, targetPrice), Key(best, targetPrice))
      && (t < best.totalStems ==> KeyLess(Key(best, targetPrice), Key(other, targetPrice)))
  {
    var solutions := SolutionsUpTo(recipeAt, available, prices, targetPrice, priceTolerance, MaxTotalStems + 1);
    var other := Candidate(t, recipeAt(t), available, prices, targetPrice, priceTolerance).value;
    SolutionsIncludeCandidates(recipeAt, available, prices, targetPrice, priceTolerance, MaxTotalStems + 1, t);
    var i :| 0 <= i < |solutions| && solutions[i] == other;
    var k := FirstMinimum(solutions, targetPrice);
    assert BestSolution(recipeAt, available, prices, targetPrice, priceTolerance) == Some(solutions[k]);
    if t < solutions[k].totalStems {
      SolutionsIncreasing(recipeAt, available, prices, targetPrice, priceTolerance, MaxTotalStems + 1);
      assert i < k;
    }
  }

  /** The scaled recipe of every size for one season, as optimize_bouquets computes it. */
  function SeasonSizing(pct: Recipe): nat -> map<Category, int>
    requires ValidRecipe(pct) && NonFoliageTotal(pct, Foliage) > 0.0
  {
    (t: nat) => SizedRecipe(t, pct)
  }

  /**
   * The body of optimize_bouquets' loop for one size whose scaled recipe is
   * `recipe`: price it, drop it if unpriced or outside the tolerance, count the
   * bouquets the stock allows, drop it if none, and score the stranded stems.
   */
  method EvaluateSize(totalStems: nat, recipe: map<Category, int>, available: Availability, prices: Prices,
                      targetPrice: real, priceTolerance: real)
    returns (solution: Option<Solution>)
    ensures solution == Candidate(totalStems, recipe, available, prices, targetPrice, priceTolerance)
  {
    var bouquetCost := ComputeBouquetCost(recipe, prices);
    if bouquetCost.None? {
      return None;
    }
    if BouquetExpansion.Abs(bouquetCost.value - targetPrice) > priceTolerance {
      return None;
    }
    var maxBouquets := MaxBouquets(recipe, available);
    if maxBouquets.None? || maxBouquets.value <= 0 {
      return None;
    }
    if !(recipe.Keys <= available.Keys) {
      // the source raises KeyError here; see SweepRecipeUsesEveryCategory for why the sweep never does
      return None;
    }
    var stranded := Stranded(recipe, available, maxBouquets.value);
    var wastePenalty := WastePenalty(stranded);
    return Some(Solution(totalStems, recipe, bouquetCost.value, maxBouquets.value, stranded, wastePenalty));
  }

  lemma SeasonSizingAt(pct: Recipe, totalStems: nat)
    requires ValidRecipe(pct) && NonFoliageTotal(pct, Foliage) > 0.0
    ensures SeasonSizing(pct)(totalStems) == SizedRecipe(totalStems, pct)
  {
  }

  /**
   * The solution optimize_bouquets returns for a season is the season's recipe
   * scaled to a size from 15 to 35, whose counts add up to that size with every
   * category getting at least one stem.
   */
  lemma OptimizedRecipeFitsSize(seasonKey: string, available: Availability, prices: Prices,
                                targetPrice: real, priceTolerance: real)
    requires seasonKey in CanonicalRecipes
    ensures var best := BestSolution(SeasonSizing(SeasonRecipe(seasonKey)), available, prices, targetPrice, priceTolerance);
      best.Some? ==>
        && MinTotalStems <= best.value.totalStems <= MaxTotalStems
        && best.value.recipe == SizedRecipe(best.value.totalStems, SeasonRecipe(seasonKey))
        && Stems(best.value.recipe) == best.value.totalStems
        && forall c :: 1 <= best.value.recipe[c]
  {
    var pct := SeasonRecipe(seasonKey);
    var recipeAt := SeasonSizing(pct);
    var best := BestSolution(recipeAt, available, prices, targetPrice, priceTolerance);
    if best.Some? {
      var t := best.value.totalStems;
      BestSolutionKept(recipeAt, available, prices, targetPrice, priceTolerance);
      assert best.value.recipe == SizedRecipe(t, pct) by {
        SeasonSizingAt(pct, t);
      }
      StemRecipeSumsToTotal(t, pct, DefaultBreakpoint, Foliage, DefaultFoliageDamping);
      forall c
        ensures 1 <= best.value.recipe[c]
      {
        SweepRecipeUsesEveryCategory(seasonKey, t, c);
      }
    }
  }

  /**
   * optimize_bouquets: try every size from 15 to 35 with the season's recipe scaled
   * to it, and return the best kept one; BestSolutionNone, BestSolutionKept and
   * BestSolutionMinimal say what that is.
   */
  method OptimizeBouquets(available: Availability, seasonKey: string, targetPrice: real, prices: Prices,
                          priceTolerance: real := DefaultPriceTolerance)
    returns (best: Option<Solution>)
    requires seasonKey in CanonicalRecipes
    ensures best == BestSolution(SeasonSizing(SeasonRecipe(seasonKey)), available, prices, targetPrice, priceTolerance)
  {
    var recipePercentages := SeasonRecipe(seasonKey);
    ghost var recipeAt := SeasonSizing(recipePercentages);
    var solutions: seq<Solution> := [];
    for totalStems := MinTotalStems to MaxTotalStems + 1
      invariant solutions == SolutionsUpTo(recipeAt, available, prices, targetPrice, priceTolerance, totalStems)
    {
      var recipe := SizedRecipe(totalStems, recipePercentages);
      var solution := EvaluateSize(totalStems, recipe, available, prices, targetPrice, priceTolerance);
      SeasonSizingAt(recipePercentages, totalStems);
      SolutionsStep(recipeAt, available, prices, targetPrice, priceTolerance, totalStems);
      if solution.None? {
        continue;
      }
      solutions := solutions + [solution.value];
    }
    if |solutions| == 0 {
      return None;
    }
    var k := FirstMinimum(solutions, targetPrice);
    return Some(solutions[k]);
  }
}
