/**
 * The closed set of flower categories (VALID_CATEGORIES in core/recipe_bounds.py),
 * the order in which the core iterates over them, Python's ordering of their names,
 * and the sums over per-category maps that the other modules share.
 */
module Categories {

  /** The six flower roles that make up a bouquet. */
  datatype Category = Focal | Foundation | Filler | Floater | Finisher | Foliage

  /**
   * VALID_CATEGORIES, in its declared order. This is also the key order of every
   * canonical recipe, so it is the order in which the core iterates over a recipe.
   */
  const ValidCategories: seq<Category> := [Focal, Foundation, Filler, Floater, Finisher, Foliage]

  /** Position of a category in ValidCategories. */
  function Index(c: Category): (i: nat)
    ensures i < |ValidCategories| && ValidCategories[i] == c
  {
    match c
    case Focal => 0
    case Foundation => 1
    case Filler => 2
    case Floater => 3
    case Finisher => 4
    case Foliage => 5
  }

  /** The dictionary key under which the source stores a category. */
  function Name(c: Category): string
  {
    match c
    case Focal => "Focal"
    case Foundation => "Foundation"
    case Filler => "Filler"
    case Floater => "Floater"
    case Finisher => "Finisher"
    case Foliage => "Foliage"
  }

  /** Python's `<` on strings: lexicographic by code point, a proper prefix first. */
  predicate StrLess(a: string, b: string)
    decreases |a|
  {
    if |a| == 0 then |b| > 0
    else if |b| == 0 then false
    else if a[0] != b[0] then a[0] < b[0]
    else StrLess(a[1..], b[1..])
  }

  lemma {:induction false} StrLessIrreflexive(a: string)
    ensures !StrLess(a, a)
    decreases |a|
  {
    if |a| > 0 {
      StrLessIrreflexive(a[1..]);
    }
  }

  /** Rank of a category's name in Python's string order. */
  function NameRank(c: Category): nat
  {
    match c
    case Filler => 0
    case Finisher => 1
    case Floater => 2
    case Focal => 3
    case Foliage => 4
    case Foundation => 5
  }

  /** Comparing two category names as Python strings is comparing their ranks. */
  lemma NamesOrderedByRank(c: Category, d: Category)
    ensures StrLess(Name(c), Name(d)) <==> NameRank(c) < NameRank(d)
  {
    var a, b := Name(c), Name(d);
    if c == d {
      StrLessIrreflexive(a);
    } else {
      assert a[0] == b[0] == 'F';
      assert StrLess(a, b) == StrLess(a[1..], b[1..]);
      if a[1] == b[1] {
        assert StrLess(a[1..], b[1..]) == StrLess(a[2..], b[2..]);
      }
    }
  }

  /** A per-category map that has an entry for every category. */
  predicate IsTotal<V>(m: map<Category, V>)
  {
    forall c: Category :: c in m
  }

  /** A map that names each of the six categories is total. */
  lemma AllSixTotal<V>(m: map<Category, V>)
    requires Focal in m && Foundation in m && Filler in m
    requires Floater in m && Finisher in m && Foliage in m
    ensures IsTotal(m)
  {
    forall c: Category
      ensures c in m
    {
      match c
      case Focal =>
      case Foundation =>
      case Filler =>
      case Floater =>
      case Finisher =>
      case Foliage =>
    }
  }

  /** The entry of `m` for `c`; an absent entry counts as 0. */
  function StemsOf(m: map<Category, int>, c: Category): int { if c in m then m[c] else 0 }

  function SharesOf(m: map<Category, real>, c: Category): real { if c in m then m[c] else 0.0 }

  /** Sum of the entries of `m` for the first `n` categories of ValidCategories. */
  function StemsUpTo(m: map<Category, int>, n: nat): int
    requires n <= |ValidCategories|
  {
    if n == 0 then 0 else StemsUpTo(m, n - 1) + StemsOf(m, ValidCategories[n - 1])
  }

  function SharesUpTo(m: map<Category, real>, n: nat): real
    requires n <= |ValidCategories|
  {
    if n == 0 then 0.0 else SharesUpTo(m, n - 1) + SharesOf(m, ValidCategories[n - 1])
  }

  /** Python's `sum(m.values())` for a per-category map of stem counts. */
  function Stems(m: map<Category, int>): int
  {
    StemsUpTo(m, |ValidCategories|)
  }

  /** Python's `sum(m.values())` for a per-category map of shares. */
  function Shares(m: map<Category, real>): real
  {
    SharesUpTo(m, |ValidCategories|)
  }

  /** The stem total written out category by category. */
  lemma StemsExpand(m: map<Category, int>)
    ensures Stems(m)
         == StemsOf(m, Focal) + StemsOf(m, Foundation) + StemsOf(m, Filler)
          + StemsOf(m, Floater) + StemsOf(m, Finisher) + StemsOf(m, Foliage)
  {
    assert StemsUpTo(m, 6) == StemsUpTo(m, 5) + StemsOf(m, Foliage);
    assert StemsUpTo(m, 5) == StemsUpTo(m, 4) + StemsOf(m, Finisher);
    assert StemsUpTo(m, 4) == StemsUpTo(m, 3) + StemsOf(m, Floater);
    assert StemsUpTo(m, 3) == StemsUpTo(m, 2) + StemsOf(m, Filler);
    assert StemsUpTo(m, 2) == StemsUpTo(m, 1) + StemsOf(m, Foundation);
    assert StemsUpTo(m, 1) == StemsOf(m, Focal);
  }

  /** One more stem in one category adds one to the total. */
  lemma StemsIncrement(m: map<Category, int>, cat: Category)
    requires cat in m
    ensures Stems(m[cat := m[cat] + 1]) == Stems(m) + 1
  {
    StemsExpand(m);
    StemsExpand(m[cat := m[cat] + 1]);
  }

  /** The share total written out category by category. */
  lemma SharesExpand(m: map<Category, real>)
    ensures Shares(m)
         == SharesOf(m, Focal) + SharesOf(m, Foundation) + SharesOf(m, Filler)
          + SharesOf(m, Floater) + SharesOf(m, Finisher) + SharesOf(m, Foliage)
  {
    assert SharesUpTo(m, 6) == SharesUpTo(m, 5) + SharesOf(m, Foliage);
    assert SharesUpTo(m, 5) == SharesUpTo(m, 4) + SharesOf(m, Finisher);
    assert SharesUpTo(m, 4) == SharesUpTo(m, 3) + SharesOf(m, Floater);
    assert SharesUpTo(m, 3) == SharesUpTo(m, 2) + SharesOf(m, Filler);
    assert SharesUpTo(m, 2) == SharesUpTo(m, 1) + SharesOf(m, Foundation);
    assert SharesUpTo(m, 1) == SharesOf(m, Focal);
  }

  /** A percentage recipe: the share of a bouquet's stems given to each category. */
  type Recipe = map<Category, real>

  /** Sum of the shares of every category except `foliageKey`. */
  function NonFoliageTotal(pct: Recipe, foliageKey: Category): real
  {
    Shares(pct - {foliageKey})
  }

  /** Every category present, no negative share, shares summing to exactly 1. */
  predicate ValidRecipe(pct: Recipe)
  {
    && IsTotal(pct)
    && (forall c :: c in pct ==> 0.0 <= pct[c])
    && Shares(pct) == 1.0
  }

  /** Average wholesale price per stem of each category. */
  type Prices = map<Category, real>

  /** Stems in stock of each category. */
  type Availability = map<Category, int>

  lemma ProductNonNegative(a: real, b: real)
    requires 0.0 <= a && 0.0 <= b
    ensures 0.0 <= a * b
  {
  }

  lemma MultiplyMonotone(k: int, a: int, b: int)
    requires 0 <= k && a <= b
    ensures k * a <= k * b
  {
  }

  lemma DivideThenMultiply(a: real, d: real)
    requires d != 0.0
    ensures (a / d) * d == a
  {
  }
}
