/**
 * The seasonal percentage recipes and the season-label tables
 * (core/canonical_recipes.py). Shares are exact decimals.
 */
module Recipes {
  import opened Categories

  const EarlySpring: Recipe := map[Focal := 0.20, Foundation := 0.39, Filler := 0.08,
                                   Floater := 0.10, Finisher := 0.08, Foliage := 0.15]
  const LateSpring: Recipe := map[Focal := 0.12, Foundation := 0.43, Filler := 0.10,
                                  Floater := 0.10, Finisher := 0.10, Foliage := 0.15]
  const SummerFall: Recipe := map[Focal := 0.33, Foundation := 0.20, Filler := 0.10,
                                  Floater := 0.11, Finisher := 0.11, Foliage := 0.15]

  const CanonicalRecipes: map<string, Recipe> := map[
    "early_spring" := EarlySpring,
    "late_spring" := LateSpring,
    "summer_fall" := SummerFall
  ]

  const SeasonKeyToRecipeSeason: map<string, string> := map[
    "early_spring" := "Early Spring",
    "late_spring" := "Late Spring",
    "summer_fall" := "Summer/Fall"
  ]

  const SeasonKeyToDisplayLabel: map<string, string> := map[
    "early_spring" := "Early Spring",
    "late_spring" := "Late Spring",
    "summer_fall" := "Summer/Fall"
  ]

  const SeasonKeyToPricingLabel: map<string, string> := map[
    "early_spring" := "Early Spring",
    "late_spring" := "Late Spring",
    "summer_fall" := "Summer/Fall"
  ]

  /**
   * Every canonical recipe names all six categories, gives each a share strictly
   * between 0 and 1, sums to exactly 1, and leaves a positive non-foliage share.
   */
  lemma CanonicalRecipesValid()
    ensures forall key :: key in CanonicalRecipes ==>
      && ValidRecipe(CanonicalRecipes[key])
      && (forall c :: 0.0 < CanonicalRecipes[key][c] < 1.0)
      && NonFoliageTotal(CanonicalRecipes[key], Foliage) > 0.0
  {
    RecipeFromSharesValid(0.20, 0.39, 0.08, 0.10, 0.08, 0.15);
    RecipeFromSharesValid(0.12, 0.43, 0.10, 0.10, 0.10, 0.15);
    RecipeFromSharesValid(0.33, 0.20, 0.10, 0.11, 0.11, 0.15);
  }

  /** No canonical recipe gives a category less than 8% of the bouquet. */
  lemma CanonicalSharesAtLeastEightPercent(seasonKey: string, c: Category)
    requires seasonKey in CanonicalRecipes
    ensures 0.08 <= CanonicalRecipes[seasonKey][c]
  {
    var pct := CanonicalRecipes[seasonKey];
    assert pct == EarlySpring || pct == LateSpring || pct == SummerFall;
    match c
    case Focal =>
    case Foundation =>
    case Filler =>
    case Floater =>
    case Finisher =>
    case Foliage =>
  }

  /** A recipe written out share by share, as the table literals are. */
  function RecipeFromShares(focal: real, foundation: real, filler: real,
                            floater: real, finisher: real, foliage: real): Recipe
  {
    map[Focal := focal, Foundation := foundation, Filler := filler,
        Floater := floater, Finisher := finisher, Foliage := foliage]
  }

  lemma RecipeFromSharesValid(focal: real, foundation: real, filler: real,
                              floater: real, finisher: real, foliage: real)
    requires 0.0 < focal < 1.0 && 0.0 < foundation < 1.0 && 0.0 < filler < 1.0
    requires 0.0 < floater < 1.0 && 0.0 < finisher < 1.0 && 0.0 < foliage < 1.0
    requires focal + foundation + filler + floater + finisher + foliage == 1.0
    ensures var pct := RecipeFromShares(focal, foundation, filler, floater, finisher, foliage);
      && ValidRecipe(pct)
      && (forall c :: 0.0 < pct[c] < 1.0)
      && NonFoliageTotal(pct, Foliage) > 0.0
  {
    var pct := RecipeFromShares(focal, foundation, filler, floater, finisher, foliage);
    SharesExpand(pct);
    SharesExpand(pct - {Foliage});
    forall c: Category
      ensures c in pct && 0.0 < pct[c] < 1.0
    {
      match c
      case Focal =>
      case Foundation =>
      case Filler =>
      case Floater =>
      case Finisher =>
      case Foliage =>
    }
  }

  /** The three label tables are keyed by exactly the seasons that have a recipe. */
  lemma SeasonTablesShareKeys()
    ensures SeasonKeyToRecipeSeason.Keys == CanonicalRecipes.Keys
    ensures SeasonKeyToDisplayLabel.Keys == CanonicalRecipes.Keys
    ensures SeasonKeyToPricingLabel.Keys == CanonicalRecipes.Keys
  {
  }

  /** The recipe stored for a season key (a KeyError in the source for any other key). */
  function SeasonRecipe(seasonKey: string): (pct: Recipe)
    requires seasonKey in CanonicalRecipes
    ensures pct == CanonicalRecipes[seasonKey]
    ensures ValidRecipe(pct) && NonFoliageTotal(pct, Foliage) > 0.0
  {
    CanonicalRecipesValid();
    CanonicalRecipes[seasonKey]
  }
}
