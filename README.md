# Bouquet blueprint: stem-allocation core in Dafny

This project models the stem-allocation pipeline of the bouquet planner (`core/` of the
repository). It is a Dafny model, and it proves properties of that model.

The pipeline turns a seasonal percentage recipe over six flower categories (Focal,
Foundation, Filler, Floater, Finisher, Foliage) into whole stem counts per bouquet. It then
picks a bouquet size that meets a price target and strands as few scarce stems as possible.

The model has one module per source file, plus two shared modules:

- `Wrappers`: the `Option` and `Result` types.
- `Categories`: the category datatype with the order of `VALID_CATEGORIES`, Python's string order on category names, sums over per-category maps, and what a valid recipe is.
- `Recipes` (`core/canonical_recipes.py`): the three seasonal recipes and the three season-label tables.
- `StemScaling` (`core/stem_scaling.py`):
  - `bb_round` is a method with its `while` loop. It is proved equal to `RoundedCounts`, a step-by-step specification that replays the cyclic hand-out of leftover stems one stem at a time. The closed form (each count is its truncated share, plus one when its position in the hand-out order is below the leftover) is proved about it in `DistributedCounts` and `BbRoundFloorOrNext`.
  - `calculate_stem_recipe` is a function over that specification. Above the 25-stem breakpoint it applies it twice, with foliage damped for the extra stems.
- `BouquetSizing` (`core/bouquet_sizing.py`): price-to-size inversion as a loop method. Its two `ValueError`s are the error values of a `Result`.
- `RecipeBounds` (`core/recipe_bounds.py`): `convert_bounds_to_percentages`. A division by a zero reference size is its error value.
- `BouquetExpansion` (`core/bouquet_expansion.py`): `bouquet_cost`, `can_add_stem` (a loop method proved equal to a predicate), `score_addition`, and the greedy expansion loop with its tie-break on category names.
- `Optimization` (`core/optimization.py`): the size sweep from 15 to 35 stems.
  - The sweep is a method. It is proved to return `BestSolution`, a specification function built from the per-size `Candidate` function.
  - The lemmas about `BestSolution` state what the sweep promises: range, filters, maximum bouquet count, stranded stems, waste penalty and lexicographic choice.

Percentages and prices are exact reals, and Python's `int()` on a float is truncation toward zero (`StemScaling.Trunc`). Python's `//` with a positive divisor is Dafny's `/`. Dict iteration follows the order of `VALID_CATEGORIES`, which is also the key order of every recipe literal. `min` and `max` over sequences keep Python's semantics: `min` returns the first minimal element, and `max` on `(score, name)` tuples breaks ties by the greater name.

## Model

| member | source | states |
|---|---|---|
| Categories.NamesOrderedByRank | core/bouquet_expansion.py:123 | Python's string order on the six category names is the rank order Filler < Finisher < Floater < Focal < Foliage < Foundation, in both directions |
| Recipes.CanonicalRecipesValid | core/canonical_recipes.py:1-26 | every season's recipe names exactly the six categories, each share lies strictly between 0 and 1, the shares sum to exactly 1, and the non-foliage share is positive |
| Recipes.CanonicalSharesAtLeastEightPercent | core/canonical_recipes.py:1-26 | no canonical recipe gives any category less than 0.08 of the bouquet |
| Recipes.SeasonTablesShareKeys | core/canonical_recipes.py:28-44 | the three season-label tables are keyed by exactly the seasons that have a recipe |
| Recipes.SeasonRecipe | core/optimization.py:51 | looking up a season key yields that season's table, which is a valid recipe with a positive non-foliage share |
| StemScaling.Trunc | core/stem_scaling.py:20 | `int()` on a real is its floor when non-negative and lies within one above it when negative (truncation toward zero) |
| StemScaling.BbRound | core/stem_scaling.py:15-42 | the loop that hands leftover stems out cyclically returns `RoundedCounts`, the step-by-step specification of that hand-out; its closed form is `BbRoundFloorOrNext` |
| StemScaling.DistributedCounts | core/stem_scaling.py:35-40 | after k hand-out turns a category holds its truncated share plus the number of turns that fell on its position in the order |
| StemScaling.TruncatedRawIsFloor | core/stem_scaling.py:17-20 | for a non-negative share the truncated raw count is `floor(pct * stems)` |
| StemScaling.RemainderBounds | core/stem_scaling.py:20-23 | for a valid recipe the leftover after truncation is between 0 and 5, fewer than the six positions of the order |
| StemScaling.BbRoundFloorOrNext | core/stem_scaling.py:20-40 | each count is `floor(pct * stems)` plus one exactly when the category's position in Foundation, Floater, Filler, Finisher, Focal, Foliage is below the leftover |
| StemScaling.FoliageGetsFloor | core/stem_scaling.py:26-40 | foliage, last in the order, never receives a leftover stem: its count is exactly `floor(pct * stems)` |
| StemScaling.DistributedTotal | core/stem_scaling.py:35-40 | every turn of the hand-out loop adds exactly one stem to the total |
| StemScaling.BbRoundSumsToStems | core/stem_scaling.py:15-42 | for a valid recipe the rounded counts are non-negative and sum exactly to the requested stems |
| StemScaling.AdjustedExtraPercentages | core/stem_scaling.py:52-66 | the extra-stem shares: foliage gets its share × the damping factor, and every other share v becomes v / non-foliage total × (1 − damped foliage share); the result has the recipe's keys plus foliage |
| StemScaling.AdjustedSumsToOne | core/stem_scaling.py:52-66 | the extra-stem percentages above the breakpoint sum to exactly 1 |
| StemScaling.AdjustedProportional | core/stem_scaling.py:62-65 | each non-foliage extra share is its recipe share rescaled by remaining share / non-foliage total |
| StemScaling.AdjustedPercentagesValid | core/stem_scaling.py:52-66 | for damping in [0,1] the extra-stem percentages form a valid recipe whose foliage share is the damped one |
| StemScaling.DampenedAtMost | core/stem_scaling.py:59 | the damped foliage share lies between 0 and the recipe's foliage share |
| StemScaling.StemRecipe | core/stem_scaling.py:70-73 | the result has exactly the recipe's keys |
| StemScaling.StemRecipeAbove | core/stem_scaling.py:49-73 | above the breakpoint each count is the breakpoint rounding plus the rounding of the extra stems under the adjusted percentages |
| StemScaling.StemRecipeSumsToTotal | core/stem_scaling.py:44-73 | on both sides of the breakpoint the counts are non-negative and sum exactly to `total_stems` |
| StemScaling.StemRecipeAtLeastOne | core/stem_scaling.py:44-73 | a category whose share of the first segment is at least one stem gets at least one stem |
| StemScaling.FoliageDamped | core/stem_scaling.py:45-68 | the foliage count never exceeds `floor(foliage_pct * total)` and equals it at or below the breakpoint |
| StemScaling.ZeroStemsAllZero | core/stem_scaling.py:45-46 | zero total stems give zero stems in every category |
| StemScaling.EarlySpringTwentyStems | core/stem_scaling.py:44-46 | the early-spring recipe at 20 stems gives Focal 4, Foundation 8, Filler 1, Floater 3, Finisher 1, Foliage 3 |
| BouquetSizing.FirstUnpricedIsFirst | core/bouquet_sizing.py:19-25 | the scan finds no category exactly when every recipe category is priced; otherwise the one it finds is unpriced and every recipe category before it is priced |
| BouquetSizing.StemCountEstimateOutcomes | core/bouquet_sizing.py:17-32 | missing-price error exactly when a recipe category is unpriced (the first one, checked before the cost); non-positive-cost error exactly when all are priced and the weighted cost is at most 0; otherwise the result times the weighted cost is the target price, and it is positive for a positive target |
| BouquetSizing.EstimateBouquetStemCount | core/bouquet_sizing.py:4-32 | the accumulating loop with its early error returns exactly `StemCountEstimate` |
| BouquetSizing.EstimateIgnoresOtherPrices | core/bouquet_sizing.py:19-27 | two price tables that agree on the recipe's categories give the same result or the same error |
| RecipeBounds.ConvertValue | core/recipe_bounds.py:97 | None stays None, and a present bound becomes a value that times the reference size gives the bound back |
| RecipeBounds.ConvertBoundsToPercentages | core/recipe_bounds.py:80-101 | the conversion fails exactly when the reference size is 0 and some bound is present |
| RecipeBounds.ConversionPointwise | core/recipe_bounds.py:92-99 | a successful conversion keeps every season, category and field key, keeps None as None, and maps each present bound v to v / reference_stems |
| RecipeBounds.ConversionRoundTrip | core/recipe_bounds.py:97 | scaling every converted bound back by a non-zero reference size recovers the original table's stem counts |
| RecipeBounds.ValueRoundTrip | core/recipe_bounds.py:97 | scaling one converted bound back recovers it |
| RecipeBounds.ConversionKeepsOrder | core/recipe_bounds.py:97 | for a positive reference size two converted bounds compare exactly as the stem counts did, so orderings such as absolute_min <= design_min <= design_max <= absolute_max survive |
| BouquetExpansion.Abs | core/bouquet_expansion.py:80 | the absolute value is non-negative and equals x or -x |
| BouquetExpansion.BouquetCost | core/bouquet_expansion.py:1-8 | `bouquet_cost` is the sum of count × price over the allocation's categories; it is non-negative when counts and prices are |
| BouquetExpansion.CostIncrement | core/bouquet_expansion.py:1-8 | adding one stem of a category raises the bouquet cost by exactly that category's price |
| BouquetExpansion.CanAdd | core/bouquet_expansion.py:10-36 | `can_add_stem`'s answer: one more stem keeps the category within absolute_max, and the stock (0 when missing) covers some bouquet count from min_bouquets to max_bouquets at the new count per bouquet; a yes implies min_bouquets ≤ max_bouquets |
| BouquetExpansion.CanAddStem | core/bouquet_expansion.py:10-36 | the loop answers true exactly when one more stem stays within absolute_max and some bouquet count in [min_bouquets, max_bouquets] is supported, with missing entries read as 0 |
| BouquetExpansion.SupportableIffMinimumFits | core/bouquet_expansion.py:31-36 | some count in the range is supported exactly when the range is non-empty and min_bouquets is supported |
| BouquetExpansion.ScoreAddition | core/bouquet_expansion.py:38-59 | `score_addition` is the availability (0 when missing), less 10 × the distance of the new count from the middle of the design range, less price × max(0, cost − 0.9 × target); for a non-negative price it never exceeds the availability |
| BouquetExpansion.ScoreIgnoresPriceBelowPressure | core/bouquet_expansion.py:47-59 | while the cost is at most 0.9 × target the score is availability − 10 × the distance from the design midpoint |
| BouquetExpansion.ScoreBounds | core/bouquet_expansion.py:47-59 | for a non-negative price the score never exceeds availability and strictly increases with availability |
| BouquetExpansion.MaxCandidate | core/bouquet_expansion.py:123 | the chosen tuple is a candidate and no candidate is greater under Python's tuple order |
| BouquetExpansion.TupleGreaterIsRank | core/bouquet_expansion.py:123 | the tuple order is: higher score first, then the greater category name |
| BouquetExpansion.ChosenHasTopScoreAndName | core/bouquet_expansion.py:123 | the chosen category has the top score, and among equal scores the greatest name |
| BouquetExpansion.GreedyStepHasCandidate | core/bouquet_expansion.py:98-124 | a greedy step is taken only from an allocation with a category that can take a stem |
| BouquetExpansion.CandidateListMembers | core/bouquet_expansion.py:98-118 | the candidate list holds exactly the allocation's categories that can take one more stem, each paired with its score |
| BouquetExpansion.CollectCandidates | core/bouquet_expansion.py:98-118 | the candidate loop builds exactly the list `CandidateList` specifies |
| BouquetExpansion.GreedyStepChoosesTop | core/bouquet_expansion.py:98-124 | a greedy step adds one stem to a category that can take it and has the top score, ties going to the greatest name |
| BouquetExpansion.ChooseAddition | core/bouquet_expansion.py:98-124 | a stem is added exactly when some category of the allocation can take one; the result is then the greedy step from the allocation and stays within absolute_max |
| BouquetExpansion.ScanNext | core/bouquet_expansion.py:86-96 | measuring one more allocation makes it the best exactly when it is strictly closer to the target than the best so far, so the best is always the first closest allocation measured |
| BouquetExpansion.ScannedResult | core/bouquet_expansion.py:74-96 | the best allocation of a scan keeps the base's categories, each at or above its base count and within absolute_max if raised, adds at most one stem per measured step, is at least as close to the target as the base, and every step of the scan is greedy |
| BouquetExpansion.NeverOvershotAt | core/bouquet_expansion.py:89-91 | in a trace free of overshoot, an allocation costing more than the target is no farther from it than any allocation before it |
| BouquetExpansion.NeverOvershotExtend | core/bouquet_expansion.py:89-96 | an allocation that does not trip the stop test against the closest allocation so far keeps the trace free of overshoot |
| BouquetExpansion.PassContinues | core/bouquet_expansion.py:86-126 | a pass that neither overshoots nor runs out of candidates keeps the loop state for the next allocation, the measured one becoming the best only when strictly closer |
| BouquetExpansion.PassStops | core/bouquet_expansion.py:86-121 | a pass whose allocation meets the stop test completes the run: the trace is scanned and has stopped |
| BouquetExpansion.ExpansionPass | core/bouquet_expansion.py:86-126 | one pass stops exactly when the current allocation is farther from the target than the best so far and costs more than the target, or when no category can take a stem; when it stops the run is complete, and otherwise the loop state holds for the greedy step it took |
| BouquetExpansion.ExpandBouquetToTarget | core/bouquet_expansion.py:61-128 | the measured allocations and the result form a complete run: at most 25 allocations starting at the base, each a greedy step from the one before; the result is the first of them closest to the target price; no allocation before the last tripped the overshoot stop; and the run ends at 25 measurements or at an allocation that meets the stop test |
| BouquetExpansion.ExpandedResult | core/bouquet_expansion.py:61-128 | the result of a run keeps the base's categories, each at or above its base count and within absolute_max if raised, holds fewer than 25 stems more than the base, and is at least as close to the target as the base |
| BouquetExpansion.NoHaltBeforeEnd | core/bouquet_expansion.py:89-121 | an allocation from which a run goes on does not meet the stop test against any allocation measured at or before it |
| BouquetExpansion.StoppedRunsAgree | core/bouquet_expansion.py:85-126 | two stopped greedy runs from the same base, each of at most 25 allocations, measure the same allocations |
| BouquetExpansion.FirstClosestUnique | core/bouquet_expansion.py:93-96 | a trace has exactly one first-closest allocation |
| BouquetExpansion.ExpandedDeterministic | core/bouquet_expansion.py:61-128 | a run is fixed by its inputs: two runs with the same base, bounds, stock, prices, target and bouquet count measure the same allocations and return the same allocation |
| Optimization.ComputeBouquetCost | core/optimization.py:62-72 | the loop gives no cost exactly when some recipe category has no price, and otherwise the bouquet cost |
| Optimization.MinQuotientIsMin | core/optimization.py:79-84 | the minimum over positive-count categories of available // count is absent only when there is none, is at most every such quotient, and equals one of them |
| Optimization.MaxBouquetsDefined | core/optimization.py:79-87 | max bouquets is undefined exactly when a positive-count category has no availability entry or no count is positive, and defined for any stocked recipe with stems |
| Optimization.WasteWeight | core/optimization.py:15-22 | `WASTE_WEIGHTS`: Foundation 5, Finisher 4, Floater 3, Filler 2, Focal 1, Foliage 0.5; every weight lies in (0, 5] |
| Optimization.Stranded | core/optimization.py:93-96 | the stems left of each recipe category: available − count × max bouquets, keyed by exactly the recipe's categories |
| Optimization.WastePenalty | core/optimization.py:98-102 | the sum of stranded × weight over the stranded categories; non-negative when no stranded count is negative |
| Optimization.WasteUpToNonNegative | core/optimization.py:98-102 | with non-negative stranded stems the weighted waste penalty is non-negative, and zero when nothing is stranded |
| Optimization.SweepRecipeUsesEveryCategory | core/optimization.py:54-60 | every recipe of the sweep (15 stems or more, canonical season) gives every category at least one stem |
| Optimization.CandidateProperties | core/optimization.py:62-111 | a kept size is fully priced with cost within tolerance of the target; max bouquets ≥ 1 and is the minimum of available // count over positive categories; stranded = available − count × max bouquets, with the recipe's keys, non-negative for non-negative stock, and below one bouquet's count for the binding category; the penalty is the weighted stranded sum |
| Optimization.EvaluateSize | core/optimization.py:62-111 | the steps for one size (cost loop with its early exit, tolerance filter, max bouquets, stranded stems, waste penalty) produce exactly `Candidate` |
| Optimization.SolutionsAreCandidates | core/optimization.py:52-111 | every collected solution has a size in the swept range and is the kept candidate of its own size |
| Optimization.SolutionsIncludeCandidates | core/optimization.py:52-111 | every size in the swept range whose candidate survives the filters is collected |
| Optimization.SolutionsIncreasing | core/optimization.py:52-111 | solutions are collected in strictly increasing size order |
| Optimization.FirstMinimum | core/optimization.py:116-124 | the selected index has a lexicographically minimal (waste penalty, −max bouquets, cost distance) key, and every earlier solution's key is strictly greater |
| Optimization.BestSolutionNone | core/optimization.py:113-114 | there is no result exactly when no size from 15 to 35 survives the filters |
| Optimization.BestSolutionKept | core/optimization.py:54-111 | a result has a size from 15 to 35 and is the kept candidate of that size |
| Optimization.BestSolutionMinimal | core/optimization.py:116-124 | no surviving size has a smaller key than the result, and a smaller surviving size with an equal key would have been chosen instead |
| Optimization.OptimizedRecipeFitsSize | core/optimization.py:54-60 | the returned recipe is the scaled season recipe for the returned size, sums to that size, and gives every category at least one stem |
| Optimization.OptimizeBouquets | core/optimization.py:29-126 | the sweep returns exactly `BestSolution` over the scaled season recipes |

## Left out

- The Streamlit, Flask and PuLP scripts, Excel and CSV loading (`load_recipe_bounds`), the docstring-only compensation stub and the scratch harnesses are not part of this model. They are user interface, file I/O or calls into a foreign solver. The functions the scratch scripts import but the sources never define are not modelled either.
- Floating point: every share, price and cost is an exact real. Effects such as `int(0.29 * 100) == 28` are not reproduced.
- OptimizeBouquets: `bouquet_cost` is not rounded to two decimals (line 107), so the returned cost and the tertiary key use the unrounded cost.
- OptimizeBouquets: it requires a season key of `CANONICAL_RECIPES`. Any other key raises a KeyError at line 51, and no result is modelled for it.
- EvaluateSize: a zero-count category that is missing from `available_stems` raises an uncaught KeyError at line 94. The model skips that size instead. `SweepRecipeUsesEveryCategory` shows that sweep recipes have no zero counts, so the sweep never reaches that path.
- MaxBouquets: `min` of an empty generator raises ValueError. The model returns None there, and `MaxBouquetsDefined` shows this happens only for a recipe with no positive count, which the sweep never builds.
- WasteWeight: the default weight 1.0 for an unknown category is unreachable, because the category type is closed.
- A price stored as None behaves like a missing price. Maps here cannot hold None.
- BbRound: it requires a recipe over all six categories. The source would raise a KeyError on `counts[cat]` for a missing category that is due a leftover stem.
- StemRecipe: it requires all six categories, and above the breakpoint a non-zero non-foliage total. For a recipe missing some category, the source raises a KeyError only when that category is due a leftover stem, and above the breakpoint a ZeroDivisionError when the non-foliage shares sum to 0; otherwise it returns counts for the partial recipe, which the model does not cover.
- ExpandBouquetToTarget and CollectCandidates: a category of the allocation with no `stem_bounds` or price entry raises a KeyError in the source. The model makes those entries a precondition.
- ExpandBouquetToTarget: the loop has no tolerance stop, because `PRICE_TOLERANCE` (line 76) is declared but never read. The model follows the code.
- `convert_bounds_to_percentages` fills its result with nested loops. The model writes it as nested map comprehensions, which give the same table.
