/**
 * Price-driven expansion of a bouquet (core/bouquet_expansion.py): starting from a
 * base allocation, greedily add one stem at a time to the best-scoring category that
 * can legally take it, for at most 25 steps, and return the allocation whose cost came
 * closest to the target price.
 *
 * Allocations are maps from category to stem count. A loop `for category in allocation`
 * visits the allocation's categories in ValidCategories order; the expansion only ever
 * takes the maximum of the candidates, whose categories are distinct, so that order does
 * not change the outcome.
 */
module BouquetExpansion {
  import opened Categories

  type Allocation = map<Category, int>

  /** The per-category bounds the expansion reads (stretch_min is never read here). */
  datatype StemBounds = StemBounds(designMin: real, designMax: real, absoluteMin: real, absoluteMax: real)

  /** PRICE_TOLERANCE is declared in expand_bouquet_to_target but never read. */
  const PriceTolerance: real := 1.0
  const MaxExpansionSteps: nat := 25

  function Abs(x: real): (a: real)
    ensures 0.0 <= a && (a == x || a == -x)
  {
    if x < 0.0 then -x else x
  }

  /** Every category of the allocation has a price, as bouquet_cost's lookups need. */
  predicate Priced(allocation: Allocation, prices: Prices)
  {
    forall c :: c in allocation ==> c in prices
  }

  /** One category's part of the cost: its stem count times its price. */
  function CostOf(allocation: Allocation, prices: Prices, c: Category): real
    requires Priced(allocation, prices)
  {
    if c in allocation then allocation[c] as real * prices[c] else 0.0
  }

  /** Σ allocation[c] × price[c] over the allocation's categories among the first n of ValidCategories. */
  function CostUpTo(allocation: Allocation, prices: Prices, n: nat): (cost: real)
    requires Priced(allocation, prices) && n <= |ValidCategories|
    ensures (forall c :: c in allocation ==> 0 <= allocation[c] && 0.0 <= prices[c]) ==> 0.0 <= cost
  {
    if n == 0 then 0.0 else CostUpTo(allocation, prices, n - 1) + CostOf(allocation, prices, ValidCategories[n - 1])
  }

  /** bouquet_cost: Σ allocation[c] × price[c] over the allocation's categories. */
  function BouquetCost(allocation: Allocation, prices: Prices): (cost: real)
    requires Priced(allocation, prices)
    ensures (forall c :: c in allocation ==> 0 <= allocation[c] && 0.0 <= prices[c]) ==> 0.0 <= cost
  {
    CostUpTo(allocation, prices, |ValidCategories|)
  }

  /** How far an allocation's cost is from the target price. */
  function Distance(allocation: Allocation, prices: Prices, targetPrice: real): real
    requires Priced(allocation, prices)
  {
    Abs(BouquetCost(allocation, prices) - targetPrice)
  }

  /** One more stem of `cat` changes only cat's part of the cost, by cat's price. */
  lemma CostOfIncrement(allocation: Allocation, prices: Prices, cat: Category, c: Category)
    requires Priced(allocation, prices) && cat in allocation
    ensures CostOf(allocation[cat := allocation[cat] + 1], prices, c)
         == CostOf(allocation, prices, c) + (if c == cat then prices[cat] else 0.0)
  {
    if c == cat {
      var k := allocation[cat];
      assert (k + 1) as real * prices[cat] == k as real * prices[cat] + prices[cat];
    }
  }

  lemma {:induction false} CostUpToIncrement(allocation: Allocation, prices: Prices, cat: Category, n: nat)
    requires Priced(allocation, prices) && cat in allocation && n <= |ValidCategories|
    ensures CostUpTo(allocation[cat := allocation[cat] + 1], prices, n)
         == CostUpTo(allocation, prices, n) + (if Index(cat) < n then prices[cat] else 0.0)
  {
    if n > 0 {
      CostUpToIncrement(allocation, prices, cat, n - 1);
      CostOfIncrement(allocation, prices, cat, ValidCategories[n - 1]);
    }
  }

  /** One more stem of a category costs exactly that category's price more. */
  lemma CostIncrement(allocation: Allocation, prices: Prices, cat: Category)
    requires Priced(allocation, prices) && cat in allocation
    ensures BouquetCost(allocation[cat := allocation[cat] + 1], prices) == BouquetCost(allocation, prices) + prices[cat]
  {
    CostUpToIncrement(allocation, prices, cat, |ValidCategories|);
  }

  /** `available` stems cover `bouquets` bouquets of `current + 1` stems each. */
  predicate Supports(available: int, current: int, bouquets: int)
  {
    available >= (current + 1) * bouquets
  }

  /**
   * can_add_stem: one more stem keeps the category at or under absolute_max, and some
   * bouquet count from min_bouquets to max_bouquets is still supported by availability.
   */
  predicate CanAdd(allocation: Allocation, category: Category, stemBounds: map<Category, StemBounds>,
                   available: Availability, maxBouquets: int, minBouquets: int): (ok: bool)
    requires category in stemBounds
    ensures ok ==> minBouquets <= maxBouquets
  {
    var current := StemsOf(allocation, category);
    && (current + 1) as real <= stemBounds[category].absoluteMax
    && exists b :: minBouquets <= b <= maxBouquets && Supports(StemsOf(available, category), current, b)
  }

  /**
   * can_add_stem, trying bouquet counts from max_bouquets down to min_bouquets and
   * answering true at the first one the availability supports.
   */
  method CanAddStem(allocation: Allocation, category: Category, stemBounds: map<Category, StemBounds>,
                    available: Availability, maxBouquets: int, minBouquets: int := 1)
    returns (ok: bool)
    requires category in stemBounds
    ensures ok <==> CanAdd(allocation, category, stemBounds, available, maxBouquets, minBouquets)
  {
    var current := StemsOf(allocation, category);
    var bounds := stemBounds[category];
    if (current + 1) as real > bounds.absoluteMax {
      return false;
    }
    var bouquets := maxBouquets;
    while bouquets >= minBouquets
      invariant bouquets <= maxBouquets
      invariant forall b :: bouquets < b <= maxBouquets ==> !Supports(StemsOf(available, category), current, b)
    {
      var requiredTotal := (current + 1) * bouquets;
      if StemsOf(available, category) >= requiredTotal {
        assert Supports(StemsOf(available, category), current, bouquets);
        return true;
      }
      bouquets := bouquets - 1;
    }
    return false;
  }

  /**
   * For a non-negative count, some bouquet count in the range is supported exactly
   * when the range is not empty and availability covers the smallest count in it;
   * so an empty range (max_bouquets < min_bouquets) never allows a stem.
   */
  lemma SupportableIffMinimumFits(available: int, current: int, maxBouquets: int, minBouquets: int)
    requires 0 <= current
    ensures (exists b :: minBouquets <= b <= maxBouquets && Supports(available, current, b))
        <==> minBouquets <= maxBouquets && Supports(available, current, minBouquets)
  {
    if exists b :: minBouquets <= b <= maxBouquets && Supports(available, current, b) {
      var b :| minBouquets <= b <= maxBouquets && Supports(available, current, b);
      MultiplyMonotone(current + 1, minBouquets, b);
    }
  }

  /**
   * score_addition: the category's availability, minus 10 per stem of distance from
   * the middle of its design range after the addition, minus its price times how far
   * the current cost is above 90% of the target.
   */
  function ScoreAddition(allocation: Allocation, category: Category, stemBounds: map<Category, StemBounds>,
                         available: Availability, prices: Prices, targetPrice: real, currentCost: real): (score: real)
    requires category in allocation && category in stemBounds && category in prices
    ensures 0.0 <= prices[category] ==> score <= StemsOf(available, category) as real
  {
    var bounds := stemBounds[category];
    var designMid := (bounds.designMin + bounds.designMax) / 2.0;
    var distancePenalty := Abs((allocation[category] + 1) as real - designMid);
    var availability := StemsOf(available, category);
    var stemPrice := prices[category];
    var pricePressure := if currentCost - 0.9 * targetPrice > 0.0 then currentCost - 0.9 * targetPrice else 0.0;
    var pricePenalty := stemPrice * pricePressure;
    availability as real - distancePenalty * 10.0 - pricePenalty
  }

  /**
   * While the current cost is at most 90% of the target, prices play no part in the
   * score: it is the availability less ten times the distance from the design middle.
   */
  lemma ScoreIgnoresPriceBelowPressure(allocation: Allocation, category: Category, stemBounds: map<Category, StemBounds>,
                                       available: Availability, prices: Prices, targetPrice: real, currentCost: real)
    requires category in allocation && category in stemBounds && category in prices
    requires currentCost <= 0.9 * targetPrice
    ensures var bounds := stemBounds[category];
      ScoreAddition(allocation, category, stemBounds, available, prices, targetPrice, currentCost)
      == StemsOf(available, category) as real
         - Abs((allocation[category] + 1) as real - (bounds.designMin + bounds.designMax) / 2.0) * 10.0
  {
  }

  /**
   * A non-negative price never raises the score above the availability; more available
   * stems of a category, all else equal, always raise its score.
   */
  lemma ScoreBounds(allocation: Allocation, category: Category, stemBounds: map<Category, StemBounds>,
                    available: Availability, more: Availability, prices: Prices, targetPrice: real, currentCost: real)
    requires category in allocation && category in stemBounds && category in prices
    requires 0.0 <= prices[category]
    requires StemsOf(available, category) < StemsOf(more, category)
    ensures ScoreAddition(allocation, category, stemBounds, available, prices, targetPrice, currentCost)
         <= StemsOf(available, category) as real
    ensures ScoreAddition(allocation, category, stemBounds, available, prices, targetPrice, currentCost)
          < ScoreAddition(allocation, category, stemBounds, more, prices, targetPrice, currentCost)
  {
    var pressure := if currentCost - 0.9 * targetPrice > 0.0 then currentCost - 0.9 * targetPrice else 0.0;
    ProductNonNegative(prices[category], pressure);
  }

  /** Python's `>` on (score, category name) tuples. */
  predicate TupleGreater(x: (real, Category), y: (real, Category))
  {
    x.0 > y.0 || (x.0 == y.0 && StrLess(Name(y.1), Name(x.1)))
  }

  /** Python's max over a non-empty list: the first element no later element exceeds. */
  function MaxCandidate(candidates: seq<(real, Category)>): (m: (real, Category))
    requires |candidates| > 0
    ensures m in candidates
    ensures forall x :: x in candidates ==> !TupleGreater(x, m)
  {
    if |candidates| == 1 then
      TupleGreaterIsRank(candidates[0], candidates[0]);
      candidates[0]
    else
      var rest := MaxCandidate(candidates[..|candidates| - 1]);
      var last := candidates[|candidates| - 1];
      TupleGreaterIsRank(last, rest);
      TupleGreaterIsRank(last, last);
      assert candidates == candidates[..|candidates| - 1] + [last];
      if TupleGreater(last, rest) then
        forall x | x in candidates[..|candidates| - 1]
          ensures !TupleGreater(x, last)
        {
          TupleGreaterIsRank(x, rest);
          TupleGreaterIsRank(x, last);
        }
        last
      else
        forall x | x in candidates[..|candidates| - 1]
          ensures !TupleGreater(x, rest)
        {
        }
        rest
  }

  /** Comparing tuples by name as Python strings is comparing by NameRank. */
  lemma TupleGreaterIsRank(x: (real, Category), y: (real, Category))
    ensures TupleGreater(x, y) <==> x.0 > y.0 || (x.0 == y.0 && NameRank(y.1) < NameRank(x.1))
  {
    NamesOrderedByRank(y.1, x.1);
  }

  /**
   * The chosen candidate has the top score, and among candidates with that score the
   * greatest name (Foundation > Foliage > Focal > Floater > Finisher > Filler).
   */
  lemma ChosenHasTopScoreAndName(candidates: seq<(real, Category)>)
    requires |candidates| > 0
    ensures var m := MaxCandidate(candidates);
      forall x :: x in candidates ==> x.0 < m.0 || (x.0 == m.0 && NameRank(x.1) <= NameRank(m.1))
  {
    var m := MaxCandidate(candidates);
    forall x | x in candidates
      ensures x.0 < m.0 || (x.0 == m.0 && NameRank(x.1) <= NameRank(m.1))
    {
      TupleGreaterIsRank(x, m);
    }
  }

  /**
   * The candidate list of one expansion step, over the first n categories of
   * ValidCategories: a (score, category) pair for every category of the allocation
   * that can take one more stem.
   */
  function CandidateList(allocation: Allocation, stemBounds: map<Category, StemBounds>, available: Availability,
                         prices: Prices, targetPrice: real, currentCost: real, maxBouquets: int, n: nat)
    : seq<(real, Category)>
    requires forall c :: c in allocation ==> c in stemBounds && c in prices
    requires n <= |ValidCategories|
  {
    if n == 0 then []
    else
      var c := ValidCategories[n - 1];
      CandidateList(allocation, stemBounds, available, prices, targetPrice, currentCost, maxBouquets, n - 1)
      + (if c in allocation && CanAdd(allocation, c, stemBounds, available, maxBouquets, 1)
         then [(ScoreAddition(allocation, c, stemBounds, available, prices, targetPrice, currentCost), c)]
         else [])
  }

  /**
   * The candidate list holds exactly the categories among the first n that can take a
   * stem, each with its score.
   */
  lemma {:induction false} CandidateListMembers(allocation: Allocation, stemBounds: map<Category, StemBounds>,
                                                available: Availability, prices: Prices, targetPrice: real,
                                                currentCost: real, maxBouquets: int, n: nat)
    requires forall c :: c in allocation ==> c in stemBounds && c in prices
    requires n <= |ValidCategories|
    ensures forall x :: x in CandidateList(allocation, stemBounds, available, prices, targetPrice, currentCost, maxBouquets, n) ==>
      && x.1 in allocation
      && Index(x.1) < n
      && CanAdd(allocation, x.1, stemBounds, available, maxBouquets, 1)
      && x.0 == ScoreAddition(allocation, x.1, stemBounds, available, prices, targetPrice, currentCost)
    ensures forall c :: c in allocation && Index(c) < n && CanAdd(allocation, c, stemBounds, available, maxBouquets, 1) ==>
      (ScoreAddition(allocation, c, stemBounds, available, prices, targetPrice, currentCost), c)
        in CandidateList(allocation, stemBounds, available, prices, targetPrice, currentCost, maxBouquets, n)
  {
    if n > 0 {
      CandidateListMembers(allocation, stemBounds, available, prices, targetPrice, currentCost, maxBouquets, n - 1);
      assert forall c :: Index(c) == n - 1 ==> c == ValidCategories[n - 1];
    }
  }

  /** The candidate loop of one expansion step, in `for category in allocation` order. */
  method CollectCandidates(allocation: Allocation, stemBounds: map<Category, StemBounds>, available: Availability,
                           prices: Prices, targetPrice: real, currentCost: real, maxBouquets: int)
    returns (candidates: seq<(real, Category)>)
    requires forall c :: c in allocation ==> c in stemBounds && c in prices
    ensures candidates
         == CandidateList(allocation, stemBounds, available, prices, targetPrice, currentCost, maxBouquets, |ValidCategories|)
  {
    candidates := [];
    var i := 0;
    while i < |ValidCategories|
      invariant 0 <= i <= |ValidCategories|
      invariant candidates == CandidateList(allocation, stemBounds, available, prices, targetPrice, currentCost, maxBouquets, i)
    {
      var category := ValidCategories[i];
      if category in allocation {
        var ok := CanAddStem(allocation, category, stemBounds, available, maxBouquets);
        if ok {
          var score := ScoreAddition(allocation, category, stemBounds, available, prices, targetPrice, currentCost);
          candidates := candidates + [(score, category)];
        }
      }
      i := i + 1;
    }
  }

  /** Every category keeps at least its base count, and a raised one stays within absolute_max. */
  predicate GrownWithinBounds(allocation: Allocation, base: Allocation, stemBounds: map<Category, StemBounds>)
    requires forall c :: c in base ==> c in stemBounds
  {
    && allocation.Keys == base.Keys
    && forall c :: c in base ==>
         base[c] <= allocation[c] && (allocation[c] == base[c] || allocation[c] as real <= stemBounds[c].absoluteMax)
  }

  /**
   * One step of the expansion: some category can take a stem, and `next` is `prev` with
   * one more stem of the category of the maximum (score, category) candidate.
   */
  predicate GreedyStep(prev: Allocation, next: Allocation, stemBounds: map<Category, StemBounds>,
                       available: Availability, prices: Prices, targetPrice: real, maxBouquets: int)
  {
    (forall c :: c in prev ==> c in stemBounds && c in prices) &&
    var candidates := CandidateList(prev, stemBounds, available, prices, targetPrice, BouquetCost(prev, prices),
                                    maxBouquets, |ValidCategories|);
    |candidates| > 0 &&
    var chosen := MaxCandidate(candidates).1;
    chosen in prev && next == prev[chosen := prev[chosen] + 1]
  }

  /**
   * A greedy step adds one stem to a category that can take it and that has the top
   * score, ties going to the greatest name.
   */
  lemma GreedyStepChoosesTop(prev: Allocation, next: Allocation, stemBounds: map<Category, StemBounds>,
                             available: Availability, prices: Prices, targetPrice: real, maxBouquets: int)
    requires GreedyStep(prev, next, stemBounds, available, prices, targetPrice, maxBouquets)
    ensures Priced(prev, prices)
    ensures exists c :: (
      && c in prev && CanAdd(prev, c, stemBounds, available, maxBouquets, 1)
      && next == prev[c := prev[c] + 1]
      && forall d :: d in prev && CanAdd(prev, d, stemBounds, available, maxBouquets, 1) ==>
           var sc := ScoreAddition(prev, c, stemBounds, available, prices, targetPrice, BouquetCost(prev, prices));
           var sd := ScoreAddition(prev, d, stemBounds, available, prices, targetPrice, BouquetCost(prev, prices));
           sd < sc || (sd == sc && NameRank(d) <= NameRank(c)))
  {
    var cost := BouquetCost(prev, prices);
    var candidates := CandidateList(prev, stemBounds, available, prices, targetPrice, cost, maxBouquets, |ValidCategories|);
    CandidateListMembers(prev, stemBounds, available, prices, targetPrice, cost, maxBouquets, |ValidCategories|);
    ChosenHasTopScoreAndName(candidates);
    var c := MaxCandidate(candidates).1;
    assert MaxCandidate(candidates) in candidates;
  }

  /** A greedy step exists only from an allocation with a category that can take a stem. */
  lemma GreedyStepHasCandidate(prev: Allocation, next: Allocation, stemBounds: map<Category, StemBounds>,
                               available: Availability, prices: Prices, targetPrice: real, maxBouquets: int)
    requires GreedyStep(prev, next, stemBounds, available, prices, targetPrice, maxBouquets)
    ensures exists c :: c in prev && c in stemBounds && CanAdd(prev, c, stemBounds, available, maxBouquets, 1)
  {
    var cost := BouquetCost(prev, prices);
    var candidates := CandidateList(prev, stemBounds, available, prices, targetPrice, cost, maxBouquets, |ValidCategories|);
    CandidateListMembers(prev, stemBounds, available, prices, targetPrice, cost, maxBouquets, |ValidCategories|);
    assert candidates[0] in candidates;
  }

  /** Each allocation of `trace` after the first is a greedy step from the one before it. */
  ghost predicate GreedyTrace(trace: seq<Allocation>, stemBounds: map<Category, StemBounds>,
                              available: Availability, prices: Prices, targetPrice: real, maxBouquets: int)
    decreases |trace|
  {
    |trace| <= 1 ||
      (GreedyTrace(trace[..|trace| - 1], stemBounds, available, prices, targetPrice, maxBouquets)
       && GreedyStep(trace[|trace| - 2], trace[|trace| - 1], stemBounds, available, prices, targetPrice, maxBouquets))
  }

  /** A greedy trace read position by position. */
  lemma {:induction false} GreedyTraceSteps(trace: seq<Allocation>, stemBounds: map<Category, StemBounds>,
                                            available: Availability, prices: Prices, targetPrice: real, maxBouquets: int)
    requires GreedyTrace(trace, stemBounds, available, prices, targetPrice, maxBouquets)
    ensures forall i :: 0 <= i < |trace| - 1 ==>
      GreedyStep(trace[i], trace[i + 1], stemBounds, available, prices, targetPrice, maxBouquets)
    decreases |trace|
  {
    if |trace| > 1 {
      var prefix := trace[..|trace| - 1];
      GreedyTraceSteps(prefix, stemBounds, available, prices, targetPrice, maxBouquets);
      forall i | 0 <= i < |trace| - 1
        ensures GreedyStep(trace[i], trace[i + 1], stemBounds, available, prices, targetPrice, maxBouquets)
      {
        if i < |trace| - 2 {
          assert trace[i] == prefix[i] && trace[i + 1] == prefix[i + 1];
        }
      }
    }
  }

  /**
   * Entry k of `trace` is closest to the target price, and strictly closer than every
   * entry before it: the one a scan that replaces its best only on strict improvement keeps.
   */
  ghost predicate FirstClosest(trace: seq<Allocation>, k: nat, prices: Prices, targetPrice: real)
  {
    && k < |trace|
    && (forall i {:trigger Priced(trace[i], prices)} :: 0 <= i < |trace| ==> Priced(trace[i], prices))
    && (forall i {:trigger Distance(trace[i], prices, targetPrice)} :: 0 <= i < |trace| ==>
          Distance(trace[k], prices, targetPrice) <= Distance(trace[i], prices, targetPrice))
    && (forall i {:trigger Distance(trace[i], prices, targetPrice)} :: 0 <= i < k ==>
          Distance(trace[k], prices, targetPrice) < Distance(trace[i], prices, targetPrice))
  }

  /** Scanning one more allocation: it becomes the closest only when strictly closer. */
  lemma FirstClosestExtend(trace: seq<Allocation>, k: nat, next: Allocation, prices: Prices, targetPrice: real)
    requires Priced(next, prices)
    requires |trace| == 0 || FirstClosest(trace, k, prices, targetPrice)
    ensures |trace| == 0 ==> FirstClosest(trace + [next], 0, prices, targetPrice)
    ensures |trace| > 0 && Distance(next, prices, targetPrice) < Distance(trace[k], prices, targetPrice) ==>
      FirstClosest(trace + [next], |trace|, prices, targetPrice)
    ensures |trace| > 0 && !(Distance(next, prices, targetPrice) < Distance(trace[k], prices, targetPrice)) ==>
      FirstClosest(trace + [next], k, prices, targetPrice)
  {
    var extended := trace + [next];
    assert forall i :: 0 <= i < |trace| ==> extended[i] == trace[i];
  }

  /**
   * Every allocation of the trace has the base's categories within bounds, is priced,
   * and holds one stem more than the one before it.
   */
  ghost predicate TraceWithinBounds(trace: seq<Allocation>, base: Allocation, stemBounds: map<Category, StemBounds>,
                                    prices: Prices)
    requires forall c :: c in base ==> c in stemBounds
  {
    forall i {:trigger GrownWithinBounds(trace[i], base, stemBounds)} :: 0 <= i < |trace| ==>
      && GrownWithinBounds(trace[i], base, stemBounds)
      && Priced(trace[i], prices)
      && Stems(trace[i]) == Stems(base) + i
  }

  /**
   * What the expansion loop has measured: `trace` starts at the base, each next
   * allocation is a greedy step from the one before, all stay within bounds, and entry
   * k, `best`, is the first of them closest to the target price.
   */
  ghost predicate Scanned(base: Allocation, trace: seq<Allocation>, k: nat, best: Allocation,
                          stemBounds: map<Category, StemBounds>, available: Availability, prices: Prices,
                          targetPrice: real, maxBouquets: int)
    requires forall c :: c in base ==> c in stemBounds
  {
    && 1 <= |trace| && trace[0] == base
    && GreedyTrace(trace, stemBounds, available, prices, targetPrice, maxBouquets)
    && TraceWithinBounds(trace, base, stemBounds, prices)
    && FirstClosest(trace, k, prices, targetPrice)
    && trace[k] == best
  }

  /**
   * Measuring one more allocation, a greedy step from the last one: it becomes the best
   * exactly when it is strictly closer to the target.
   */
  lemma ScanNext(base: Allocation, trace: seq<Allocation>, k: nat, best: Allocation, allocation: Allocation,
                 stemBounds: map<Category, StemBounds>, available: Availability, prices: Prices,
                 targetPrice: real, maxBouquets: int)
    requires forall c :: c in base ==> c in stemBounds && c in prices
    requires |trace| == 0 ==> allocation == base && best == base && k == 0
    requires |trace| > 0 ==>
      && Scanned(base, trace, k, best, stemBounds, available, prices, targetPrice, maxBouquets)
      && GreedyStep(trace[|trace| - 1], allocation, stemBounds, available, prices, targetPrice, maxBouquets)
    requires GrownWithinBounds(allocation, base, stemBounds) && Stems(allocation) == Stems(base) + |trace|
    requires Priced(allocation, prices) && Priced(best, prices)
    ensures var closer := Distance(allocation, prices, targetPrice) < Distance(best, prices, targetPrice);
      Scanned(base, trace + [allocation], if closer then |trace| else k, if closer then allocation else best,
              stemBounds, available, prices, targetPrice, maxBouquets)
  {
    ScanExtend(base, trace, k, best, allocation, stemBounds, available, prices, targetPrice, maxBouquets);
  }

  /** The trace part of one more measurement: still greedy, within bounds and priced. */
  lemma ScanExtend(base: Allocation, trace: seq<Allocation>, k: nat, best: Allocation, allocation: Allocation,
                   stemBounds: map<Category, StemBounds>, available: Availability, prices: Prices,
                   targetPrice: real, maxBouquets: int)
    requires forall c :: c in base ==> c in stemBounds && c in prices
    requires |trace| == 0 ==> allocation == base && best == base && k == 0
    requires |trace| > 0 ==>
      && Scanned(base, trace, k, best, stemBounds, available, prices, targetPrice, maxBouquets)
      && GreedyStep(trace[|trace| - 1], allocation, stemBounds, available, prices, targetPrice, maxBouquets)
    requires GrownWithinBounds(allocation, base, stemBounds) && Stems(allocation) == Stems(base) + |trace|
    requires Priced(allocation, prices)
    ensures 1 <= |trace + [allocation]| && (trace + [allocation])[0] == base
    ensures GreedyTrace(trace + [allocation], stemBounds, available, prices, targetPrice, maxBouquets)
    ensures TraceWithinBounds(trace + [allocation], base, stemBounds, prices)
    ensures |trace| == 0 ==> FirstClosest(trace + [allocation], 0, prices, targetPrice)
    ensures |trace| > 0 && Distance(allocation, prices, targetPrice) < Distance(trace[k], prices, targetPrice) ==>
      FirstClosest(trace + [allocation], |trace|, prices, targetPrice)
    ensures |trace| > 0 && !(Distance(allocation, prices, targetPrice) < Distance(trace[k], prices, targetPrice)) ==>
      FirstClosest(trace + [allocation], k, prices, targetPrice)
    ensures k < |trace| ==> (trace + [allocation])[k] == trace[k]
  {
    var extended := trace + [allocation];
    assert GreedyTrace(extended, stemBounds, available, prices, targetPrice, maxBouquets) by {
      assert extended[..|trace|] == trace;
    }
    assert TraceWithinBounds(extended, base, stemBounds, prices) by {
      forall i | 0 <= i < |extended|
        ensures GrownWithinBounds(extended[i], base, stemBounds)
        ensures Priced(extended[i], prices) && Stems(extended[i]) == Stems(base) + i
      {
        if i < |trace| {
          assert extended[i] == trace[i] && GrownWithinBounds(trace[i], base, stemBounds);
        }
      }
    }
    FirstClosestExtend(trace, k, allocation, prices, targetPrice);
  }

  /**
   * The best allocation of a scan keeps the base's categories within bounds, holds at
   * most one stem more per step than the base, and is at least as close to the target as
   * the base; every step of the trace is greedy.
   */
  lemma ScannedResult(base: Allocation, trace: seq<Allocation>, k: nat, best: Allocation,
                      stemBounds: map<Category, StemBounds>, available: Availability, prices: Prices,
                      targetPrice: real, maxBouquets: int)
    requires forall c :: c in base ==> c in stemBounds
    requires Scanned(base, trace, k, best, stemBounds, available, prices, targetPrice, maxBouquets)
    ensures GrownWithinBounds(best, base, stemBounds) && Priced(best, prices)
    ensures Stems(base) <= Stems(best) <= Stems(base) + |trace| - 1
    ensures Priced(base, prices) && Distance(best, prices, targetPrice) <= Distance(base, prices, targetPrice)
    ensures forall i :: 0 <= i < |trace| - 1 ==>
      GreedyStep(trace[i], trace[i + 1], stemBounds, available, prices, targetPrice, maxBouquets)
  {
    GreedyTraceSteps(trace, stemBounds, available, prices, targetPrice, maxBouquets);
  }

  /**
   * No allocation of `trace` tripped the overshoot stop: each one that costs more than
   * the target is no farther from it than every allocation measured before it.
   */
  ghost predicate NeverOvershot(trace: seq<Allocation>, prices: Prices, targetPrice: real)
    decreases |trace|
  {
    && (forall i {:trigger Priced(trace[i], prices)} :: 0 <= i < |trace| ==> Priced(trace[i], prices))
    && (|trace| <= 1 ||
        (NeverOvershot(trace[..|trace| - 1], prices, targetPrice)
         && (BouquetCost(trace[|trace| - 1], prices) <= targetPrice
             || forall j {:trigger Distance(trace[j], prices, targetPrice)} :: 0 <= j < |trace| - 1 ==>
                  Distance(trace[|trace| - 1], prices, targetPrice) <= Distance(trace[j], prices, targetPrice))))
  }

  /** NeverOvershot read at one pair of positions. */
  lemma {:induction false} NeverOvershotAt(trace: seq<Allocation>, i: nat, j: nat, prices: Prices, targetPrice: real)
    requires NeverOvershot(trace, prices, targetPrice) && j < i < |trace|
    ensures Priced(trace[i], prices) && Priced(trace[j], prices)
    ensures BouquetCost(trace[i], prices) <= targetPrice
      || Distance(trace[i], prices, targetPrice) <= Distance(trace[j], prices, targetPrice)
    decreases |trace|
  {
    assert Priced(trace[i], prices) && Priced(trace[j], prices);
    if i < |trace| - 1 {
      var prefix := trace[..|trace| - 1];
      NeverOvershotAt(prefix, i, j, prices, targetPrice);
      assert prefix[i] == trace[i] && prefix[j] == trace[j];
    }
  }

  /** An allocation that passes the overshoot test against the closest so far keeps the trace free of overshoot. */
  lemma NeverOvershotExtend(trace: seq<Allocation>, k: nat, next: Allocation, prices: Prices, targetPrice: real)
    requires Priced(next, prices) && NeverOvershot(trace, prices, targetPrice)
    requires |trace| > 0 ==> FirstClosest(trace, k, prices, targetPrice)
    requires |trace| > 0 ==>
      BouquetCost(next, prices) <= targetPrice || Distance(next, prices, targetPrice) <= Distance(trace[k], prices, targetPrice)
    ensures NeverOvershot(trace + [next], prices, targetPrice)
  {
    var extended := trace + [next];
    assert extended[..|trace|] == trace;
    assert forall i :: 0 <= i < |trace| ==> extended[i] == trace[i];
  }

  /**
   * The loop's stop test on a measured allocation, given the best distance so far: it is
   * farther from the target than the best and costs more than the target, or none of its
   * categories can take a stem.
   */
  predicate Halts(allocation: Allocation, bestDelta: real, stemBounds: map<Category, StemBounds>,
                  available: Availability, prices: Prices, targetPrice: real, maxBouquets: int)
  {
    && Priced(allocation, prices)
    && (forall c :: c in allocation ==> c in stemBounds)
    && ((Distance(allocation, prices, targetPrice) > bestDelta && BouquetCost(allocation, prices) > targetPrice)
        || forall c :: c in allocation ==> !CanAdd(allocation, c, stemBounds, available, maxBouquets, 1))
  }

  /**
   * Where the expansion loop ends: no allocation before the last tripped the overshoot
   * stop, and the trace has reached 25 measurements or its last allocation halts the
   * loop against the best distance.
   */
  ghost predicate Stopped(trace: seq<Allocation>, best: Allocation, stemBounds: map<Category, StemBounds>,
                          available: Availability, prices: Prices, targetPrice: real, maxBouquets: int)
  {
    && |trace| > 0
    && Priced(best, prices)
    && NeverOvershot(trace[..|trace| - 1], prices, targetPrice)
    && (|trace| == MaxExpansionSteps
        || Halts(trace[|trace| - 1], Distance(best, prices, targetPrice), stemBounds, available, prices, targetPrice, maxBouquets))
  }

  /** `next` is `prev` with one more stem of a category whose new count stays within absolute_max. */
  predicate OneMoreStem(prev: Allocation, next: Allocation, stemBounds: map<Category, StemBounds>)
  {
    exists c :: c in prev && c in stemBounds && next == prev[c := prev[c] + 1]
      && next[c] as real <= stemBounds[c].absoluteMax
  }

  /** One more stem keeps an allocation within the base's bounds and adds one to its stem count. */
  lemma OneMoreStemGrows(base: Allocation, prev: Allocation, next: Allocation, stemBounds: map<Category, StemBounds>)
    requires forall c :: c in base ==> c in stemBounds
    requires GrownWithinBounds(prev, base, stemBounds) && OneMoreStem(prev, next, stemBounds)
    ensures GrownWithinBounds(next, base, stemBounds)
    ensures Stems(next) == Stems(prev) + 1
  {
    var c :| c in prev && c in stemBounds && next == prev[c := prev[c] + 1]
      && next[c] as real <= stemBounds[c].absoluteMax;
    StemsIncrement(prev, c);
  }

  /**
   * One pass of the expansion loop after the cost check: collect the categories that
   * can take a stem and add one to the chosen one, if there is any.
   */
  method ChooseAddition(allocation: Allocation, stemBounds: map<Category, StemBounds>, available: Availability,
                        prices: Prices, targetPrice: real, maxBouquets: int)
    returns (found: bool, next: Allocation)
    requires forall c :: c in allocation ==> c in stemBounds && c in prices
    ensures found ==> GreedyStep(allocation, next, stemBounds, available, prices, targetPrice, maxBouquets)
    ensures found ==> OneMoreStem(allocation, next, stemBounds)
    ensures !found <==> forall c :: c in allocation ==> !CanAdd(allocation, c, stemBounds, available, maxBouquets, 1)
  {
    var currentCost := BouquetCost(allocation, prices);
    var candidates := CollectCandidates(allocation, stemBounds, available, prices, targetPrice, currentCost, maxBouquets);
    CandidateListMembers(allocation, stemBounds, available, prices, targetPrice, currentCost, maxBouquets, |ValidCategories|);
    if |candidates| == 0 {
      return false, allocation;
    }
    var (_, chosen) := MaxCandidate(candidates);
    assert MaxCandidate(candidates) in candidates;
    next := allocation[chosen := allocation[chosen] + 1];
    found := true;
  }

  /**
   * The state of the expansion loop before it measures `allocation`: `trace` holds the
   * allocations measured so far, each next one a greedy step, none tripping the
   * overshoot stop; `best`, entry k, is the first of them closest to the target, and
   * `bestDelta` is its distance; `allocation` is a greedy step from the last of them,
   * within bounds and one stem larger.
   */
  ghost predicate Expanding(base: Allocation, trace: seq<Allocation>, k: nat, best: Allocation, bestDelta: real,
                            allocation: Allocation, stemBounds: map<Category, StemBounds>, available: Availability,
                            prices: Prices, targetPrice: real, maxBouquets: int)
    requires forall c :: c in base ==> c in stemBounds
  {
    && GrownWithinBounds(allocation, base, stemBounds) && Priced(allocation, prices)
    && Stems(allocation) == Stems(base) + |trace|
    && Priced(best, prices) && bestDelta == Distance(best, prices, targetPrice)
    && NeverOvershot(trace, prices, targetPrice)
    && (|trace| == 0 ==> allocation == base && best == base && k == 0)
    && (|trace| > 0 ==>
         && Scanned(base, trace, k, best, stemBounds, available, prices, targetPrice, maxBouquets)
         && GreedyStep(trace[|trace| - 1], allocation, stemBounds, available, prices, targetPrice, maxBouquets))
  }

  /**
   * A pass that does not overshoot and finds a greedy step keeps the loop state: the
   * measured allocation joins the trace, becoming the best only when strictly closer.
   */
  lemma PassContinues(base: Allocation, trace: seq<Allocation>, k: nat, best: Allocation, bestDelta: real,
                      allocation: Allocation, next: Allocation, stemBounds: map<Category, StemBounds>,
                      available: Availability, prices: Prices, targetPrice: real, maxBouquets: int)
    requires forall c :: c in base ==> c in stemBounds && c in prices
    requires Expanding(base, trace, k, best, bestDelta, allocation, stemBounds, available, prices, targetPrice, maxBouquets)
    requires !(Distance(allocation, prices, targetPrice) > bestDelta && BouquetCost(allocation, prices) > targetPrice)
    requires GreedyStep(allocation, next, stemBounds, available, prices, targetPrice, maxBouquets)
    requires OneMoreStem(allocation, next, stemBounds)
    ensures var closer := Distance(allocation, prices, targetPrice) < bestDelta;
      Expanding(base, trace + [allocation], if closer then |trace| else k, if closer then allocation else best,
                if closer then Distance(allocation, prices, targetPrice) else bestDelta, next,
                stemBounds, available, prices, targetPrice, maxBouquets)
  {
    ScanNext(base, trace, k, best, allocation, stemBounds, available, prices, targetPrice, maxBouquets);
    NeverOvershotExtend(trace, k, allocation, prices, targetPrice);
    OneMoreStemGrows(base, allocation, next, stemBounds);
  }

  /**
   * A pass that halts completes the run: the measured allocation joins the trace,
   * becoming the best only when strictly closer, and the trace has stopped.
   */
  lemma PassStops(base: Allocation, trace: seq<Allocation>, k: nat, best: Allocation, bestDelta: real,
                  allocation: Allocation, stemBounds: map<Category, StemBounds>,
                  available: Availability, prices: Prices, targetPrice: real, maxBouquets: int)
    requires forall c :: c in base ==> c in stemBounds && c in prices
    requires Expanding(base, trace, k, best, bestDelta, allocation, stemBounds, available, prices, targetPrice, maxBouquets)
    requires Halts(allocation, bestDelta, stemBounds, available, prices, targetPrice, maxBouquets)
    ensures var closer := Distance(allocation, prices, targetPrice) < bestDelta;
      && Scanned(base, trace + [allocation], if closer then |trace| else k, if closer then allocation else best,
                 stemBounds, available, prices, targetPrice, maxBouquets)
      && Stopped(trace + [allocation], if closer then allocation else best,
                 stemBounds, available, prices, targetPrice, maxBouquets)
  {
    ScanNext(base, trace, k, best, allocation, stemBounds, available, prices, targetPrice, maxBouquets);
    var extended := trace + [allocation];
    assert extended[..|trace|] == trace && extended[|trace|] == allocation;
  }

  /**
   * One pass of the expansion loop: measure the current allocation, stop if it is
   * farther from the target than the best and above it, keep it as the best if it is
   * strictly closer, then add the chosen stem, or stop if no category can take one.
   * It stops exactly on the source's stop test; when it stops the run is complete, and
   * otherwise the loop state holds for the next allocation.
   */
  method ExpansionPass(baseAllocation: Allocation, allocation: Allocation, bestAllocation: Allocation, bestDelta: real,
                       ghost evaluated: seq<Allocation>, ghost bestIndex: nat,
                       stemBounds: map<Category, StemBounds>, available: Availability, prices: Prices,
                       targetPrice: real, maxBouquets: int)
    returns (stop: bool, nextAllocation: Allocation, newBest: Allocation, newBestDelta: real,
             ghost newEvaluated: seq<Allocation>, ghost newBestIndex: nat)
    requires forall c :: c in baseAllocation ==> c in stemBounds && c in prices
    requires Expanding(baseAllocation, evaluated, bestIndex, bestAllocation, bestDelta, allocation,
                       stemBounds, available, prices, targetPrice, maxBouquets)
    ensures newEvaluated == evaluated + [allocation]
    ensures stop <==> Halts(allocation, bestDelta, stemBounds, available, prices, targetPrice, maxBouquets)
    ensures stop ==>
      && Scanned(baseAllocation, newEvaluated, newBestIndex, newBest, stemBounds, available, prices, targetPrice, maxBouquets)
      && Stopped(newEvaluated, newBest, stemBounds, available, prices, targetPrice, maxBouquets)
    ensures !stop ==> Expanding(baseAllocation, newEvaluated, newBestIndex, newBest, newBestDelta, nextAllocation,
                                stemBounds, available, prices, targetPrice, maxBouquets)
  {
    var currentCost := BouquetCost(allocation, prices);
    var currentDelta := Distance(allocation, prices, targetPrice);
    newEvaluated := evaluated + [allocation];
    newBest, newBestDelta, newBestIndex := bestAllocation, bestDelta, bestIndex;
    nextAllocation := allocation;
    if currentDelta > bestDelta && currentCost > targetPrice {
      PassStops(baseAllocation, evaluated, bestIndex, bestAllocation, bestDelta, allocation,
                stemBounds, available, prices, targetPrice, maxBouquets);
      return true, nextAllocation, newBest, newBestDelta, newEvaluated, newBestIndex;
    }
    if currentDelta < bestDelta {
      newBest, newBestDelta, newBestIndex := allocation, currentDelta, |evaluated|;
    }
    var found;
    found, nextAllocation := ChooseAddition(allocation, stemBounds, available, prices, targetPrice, maxBouquets);
    if !found {
      PassStops(baseAllocation, evaluated, bestIndex, bestAllocation, bestDelta, allocation,
                stemBounds, available, prices, targetPrice, maxBouquets);
      return true, nextAllocation, newBest, newBestDelta, newEvaluated, newBestIndex;
    }
    PassContinues(baseAllocation, evaluated, bestIndex, bestAllocation, bestDelta, allocation, nextAllocation,
                  stemBounds, available, prices, targetPrice, maxBouquets);
    stop := false;
  }

  /**
   * A whole run of the expansion loop: `trace` holds the allocations it measured, at most
   * 25, starting at the base and each a greedy step from the one before; `best` is the
   * first of them closest to the target price; and the loop stops exactly where the
   * source does (see Stopped).
   */
  ghost predicate Expanded(base: Allocation, trace: seq<Allocation>, best: Allocation,
                           stemBounds: map<Category, StemBounds>, available: Availability, prices: Prices,
                           targetPrice: real, maxBouquets: int)
    requires forall c :: c in base ==> c in stemBounds
  {
    && |trace| <= MaxExpansionSteps
    && (exists k: nat :: Scanned(base, trace, k, best, stemBounds, available, prices, targetPrice, maxBouquets))
    && Stopped(trace, best, stemBounds, available, prices, targetPrice, maxBouquets)
  }

  /**
   * The result of a run keeps the base's categories, each at or above its base count and,
   * if raised, within absolute_max; it holds fewer than 25 stems more than the base; and
   * its cost is at least as close to the target as the base's.
   */
  lemma ExpandedResult(base: Allocation, trace: seq<Allocation>, best: Allocation,
                       stemBounds: map<Category, StemBounds>, available: Availability, prices: Prices,
                       targetPrice: real, maxBouquets: int)
    requires forall c :: c in base ==> c in stemBounds
    requires Expanded(base, trace, best, stemBounds, available, prices, targetPrice, maxBouquets)
    ensures GrownWithinBounds(best, base, stemBounds) && Priced(best, prices)
    ensures Stems(base) <= Stems(best) < Stems(base) + MaxExpansionSteps
    ensures Priced(base, prices) && Distance(best, prices, targetPrice) <= Distance(base, prices, targetPrice)
  {
    var k: nat :| Scanned(base, trace, k, best, stemBounds, available, prices, targetPrice, maxBouquets);
    ScannedResult(base, trace, k, best, stemBounds, available, prices, targetPrice, maxBouquets);
  }

  /** Two greedy traces from the same start agree wherever both are defined. */
  lemma {:induction false} GreedyPrefixAgrees(t1: seq<Allocation>, t2: seq<Allocation>, n: nat,
                                              stemBounds: map<Category, StemBounds>, available: Availability,
                                              prices: Prices, targetPrice: real, maxBouquets: int)
    requires n <= |t1| && n <= |t2| && (0 < n ==> t1[0] == t2[0])
    requires forall i :: 0 <= i < |t1| - 1 ==>
      GreedyStep(t1[i], t1[i + 1], stemBounds, available, prices, targetPrice, maxBouquets)
    requires forall i :: 0 <= i < |t2| - 1 ==>
      GreedyStep(t2[i], t2[i + 1], stemBounds, available, prices, targetPrice, maxBouquets)
    ensures forall i :: 0 <= i < n ==> t1[i] == t2[i]
    decreases n
  {
    if n > 1 {
      GreedyPrefixAgrees(t1, t2, n - 1, stemBounds, available, prices, targetPrice, maxBouquets);
      assert GreedyStep(t1[n - 2], t1[n - 1], stemBounds, available, prices, targetPrice, maxBouquets);
      assert GreedyStep(t2[n - 2], t2[n - 1], stemBounds, available, prices, targetPrice, maxBouquets);
    }
  }

  /**
   * An allocation a trace goes on from does not halt the loop against any allocation
   * measured before it: a greedy step from it exists, and it did not overshoot.
   */
  lemma NoHaltBeforeEnd(trace: seq<Allocation>, m: nat, k: nat, stemBounds: map<Category, StemBounds>,
                        available: Availability, prices: Prices, targetPrice: real, maxBouquets: int)
    requires k < m < |trace| && NeverOvershot(trace[..|trace| - 1], prices, targetPrice)
    requires GreedyStep(trace[m - 1], trace[m], stemBounds, available, prices, targetPrice, maxBouquets)
    requires Priced(trace[k], prices)
    ensures !Halts(trace[m - 1], Distance(trace[k], prices, targetPrice),
                   stemBounds, available, prices, targetPrice, maxBouquets)
  {
    GreedyStepHasCandidate(trace[m - 1], trace[m], stemBounds, available, prices, targetPrice, maxBouquets);
    if k < m - 1 {
      var prefix := trace[..|trace| - 1];
      NeverOvershotAt(prefix, m - 1, k, prices, targetPrice);
      assert prefix[m - 1] == trace[m - 1] && prefix[k] == trace[k];
    }
  }

  /**
   * A run cannot stop at an allocation where a longer run with the same measurements
   * goes on: there a greedy step exists, fewer than 25 allocations were measured, and
   * the longer run shows the allocation did not overshoot.
   */
  lemma StoppedRunNotShorter(t1: seq<Allocation>, k1: nat, b1: Allocation, t2: seq<Allocation>,
                             stemBounds: map<Category, StemBounds>, available: Availability, prices: Prices,
                             targetPrice: real, maxBouquets: int)
    requires k1 < |t1| && t1[k1] == b1 && Stopped(t1, b1, stemBounds, available, prices, targetPrice, maxBouquets)
    requires 1 <= |t2| <= MaxExpansionSteps && NeverOvershot(t2[..|t2| - 1], prices, targetPrice)
    requires forall i :: 0 <= i < |t2| - 1 ==>
      GreedyStep(t2[i], t2[i + 1], stemBounds, available, prices, targetPrice, maxBouquets)
    requires forall i :: 0 <= i < |t1| && i < |t2| ==> t1[i] == t2[i]
    ensures |t2| <= |t1|
  {
    if |t1| < |t2| {
      var m := |t1|;
      assert t1[m - 1] == t2[m - 1] && t1[k1] == t2[k1];
      NoHaltBeforeEnd(t2, m, k1, stemBounds, available, prices, targetPrice, maxBouquets);
    }
  }

  /** The first-closest entry is strictly closer than any entry before it. */
  lemma FirstClosestBeatsEarlier(trace: seq<Allocation>, j: nat, k: nat, prices: Prices, targetPrice: real)
    requires FirstClosest(trace, k, prices, targetPrice) && j < k
    ensures Priced(trace[j], prices) && Priced(trace[k], prices)
    ensures Distance(trace[k], prices, targetPrice) < Distance(trace[j], prices, targetPrice)
  {
  }

  /** A trace has one first-closest entry. */
  lemma FirstClosestUnique(trace: seq<Allocation>, k1: nat, k2: nat, prices: Prices, targetPrice: real)
    requires FirstClosest(trace, k1, prices, targetPrice) && FirstClosest(trace, k2, prices, targetPrice)
    ensures k1 == k2
  {
    if k1 < k2 {
      FirstClosestBeatsEarlier(trace, k1, k2, prices, targetPrice);
    } else if k2 < k1 {
      FirstClosestBeatsEarlier(trace, k2, k1, prices, targetPrice);
    }
  }

  /** Two stopped greedy traces from the same start, of at most 25 allocations, are the same trace. */
  lemma StoppedRunsAgree(t1: seq<Allocation>, k1: nat, b1: Allocation, t2: seq<Allocation>, k2: nat, b2: Allocation,
                         stemBounds: map<Category, StemBounds>, available: Availability, prices: Prices,
                         targetPrice: real, maxBouquets: int)
    requires 1 <= |t1| <= MaxExpansionSteps && 1 <= |t2| <= MaxExpansionSteps && t1[0] == t2[0]
    requires forall i :: 0 <= i < |t1| - 1 ==>
      GreedyStep(t1[i], t1[i + 1], stemBounds, available, prices, targetPrice, maxBouquets)
    requires forall i :: 0 <= i < |t2| - 1 ==>
      GreedyStep(t2[i], t2[i + 1], stemBounds, available, prices, targetPrice, maxBouquets)
    requires k1 < |t1| && t1[k1] == b1 && Stopped(t1, b1, stemBounds, available, prices, targetPrice, maxBouquets)
    requires k2 < |t2| && t2[k2] == b2 && Stopped(t2, b2, stemBounds, available, prices, targetPrice, maxBouquets)
    ensures t1 == t2
  {
    var n := if |t1| < |t2| then |t1| else |t2|;
    GreedyPrefixAgrees(t1, t2, n, stemBounds, available, prices, targetPrice, maxBouquets);
    StoppedRunNotShorter(t1, k1, b1, t2, stemBounds, available, prices, targetPrice, maxBouquets);
    StoppedRunNotShorter(t2, k2, b2, t1, stemBounds, available, prices, targetPrice, maxBouquets);
  }

  /**
   * A run is determined by its inputs: two runs from the same base with the same bounds,
   * availability, prices, target and bouquet count measure the same allocations and
   * return the same one.
   */
  lemma ExpandedDeterministic(base: Allocation, t1: seq<Allocation>, b1: Allocation,
                              t2: seq<Allocation>, b2: Allocation,
                              stemBounds: map<Category, StemBounds>, available: Availability, prices: Prices,
                              targetPrice: real, maxBouquets: int)
    requires forall c :: c in base ==> c in stemBounds
    requires Expanded(base, t1, b1, stemBounds, available, prices, targetPrice, maxBouquets)
    requires Expanded(base, t2, b2, stemBounds, available, prices, targetPrice, maxBouquets)
    ensures t1 == t2 && b1 == b2
  {
    var k1: nat :| Scanned(base, t1, k1, b1, stemBounds, available, prices, targetPrice, maxBouquets);
    var k2: nat :| Scanned(base, t2, k2, b2, stemBounds, available, prices, targetPrice, maxBouquets);
    GreedyTraceSteps(t1, stemBounds, available, prices, targetPrice, maxBouquets);
    GreedyTraceSteps(t2, stemBounds, available, prices, targetPrice, maxBouquets);
    StoppedRunsAgree(t1, k1, b1, t2, k2, b2, stemBounds, available, prices, targetPrice, maxBouquets);
    FirstClosestUnique(t1, k1, k2, prices, targetPrice);
  }

  /**
   * expand_bouquet_to_target. `evaluated` lists the allocations whose cost the loop
   * measured; together with the result they form the run Expanded describes, which
   * ExpandedDeterministic shows is the only one.
   */
  method ExpandBouquetToTarget(baseAllocation: Allocation, maxBouquets: int, stemBounds: map<Category, StemBounds>,
                               available: Availability, prices: Prices, targetPrice: real)
    returns (bestAllocation: Allocation, ghost evaluated: seq<Allocation>)
    requires forall c :: c in baseAllocation ==> c in stemBounds && c in prices
    ensures Expanded(baseAllocation, evaluated, bestAllocation, stemBounds, available, prices, targetPrice, maxBouquets)
  {
    var allocation := baseAllocation;
    bestAllocation := allocation;
    var bestDelta := Abs(BouquetCost(allocation, prices) - targetPrice);
    var steps := 0;
    evaluated := [];
    ghost var bestIndex: nat := 0;
    while steps < MaxExpansionSteps
      invariant 0 <= steps <= MaxExpansionSteps && |evaluated| == steps
      invariant Expanding(baseAllocation, evaluated, bestIndex, bestAllocation, bestDelta, allocation,
                          stemBounds, available, prices, targetPrice, maxBouquets)
    {
      var stop;
      ghost var measured := allocation;
      stop, allocation, bestAllocation, bestDelta, evaluated, bestIndex :=
        ExpansionPass(baseAllocation, allocation, bestAllocation, bestDelta, evaluated, bestIndex,
                      stemBounds, available, prices, targetPrice, maxBouquets);
      if stop {
        break;
      }
      assert evaluated[steps] == measured;
      steps := steps + 1;
    }
    assert Scanned(baseAllocation, evaluated, bestIndex, bestAllocation, stemBounds, available, prices, targetPrice, maxBouquets);
  }
}
