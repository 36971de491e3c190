/**
 * Conversion of per-season stem-count bounds into percentage bounds
 * (convert_bounds_to_percentages in core/recipe_bounds.py).
 *
 * Bounds are nested tables: season name, then category, then field name
 * ("design_min", "design_max", "absolute_min", "absolute_max", "stretch_min"),
 * then a stem count, or None for an absent stretch minimum.
 */
module RecipeBounds {
  import opened Wrappers
  import opened Categories

  type FieldBounds<T> = map<string, Option<T>>
  type SeasonBounds<T> = map<Category, FieldBounds<T>>
  type BoundsBySeason<T> = map<string, SeasonBounds<T>>

  /** The stem count the bounds are assumed to be written for. */
  const DefaultReferenceStems := 25

  /** Python raises ZeroDivisionError when a present bound is divided by a zero reference size. */
  datatype BoundsError = ZeroReferenceStems

  /** Some field of some category of some season holds a number. */
  predicate HasPresentValue(bounds: BoundsBySeason<int>)
  {
    exists season, category, field ::
      season in bounds && category in bounds[season] && field in bounds[season][category]
      && bounds[season][category][field].Some?
  }

  /** One bound divided by the reference size; None stays None. */
  function ConvertValue(v: Option<int>, referenceStems: int): (p: Option<real>)
    requires v.Some? ==> referenceStems != 0
    ensures p.None? <==> v.None?
    ensures p.Some? ==> p.value * referenceStems as real == v.value as real
  {
    match v
    case None => None
    case Some(n) =>
      DivideThenMultiply(n as real, referenceStems as real);
      Some(n as real / referenceStems as real)
  }

  /** The comprehension over one category's fields. */
  function ConvertFields(vals: FieldBounds<int>, referenceStems: int): (pct: FieldBounds<real>)
    requires referenceStems != 0
    ensures pct.Keys == vals.Keys
  {
    map field | field in vals :: ConvertValue(vals[field], referenceStems)
  }

  /** The inner loop over one season's categories. */
  function ConvertSeason(seasonBounds: SeasonBounds<int>, referenceStems: int): (pct: SeasonBounds<real>)
    requires referenceStems != 0
    ensures pct.Keys == seasonBounds.Keys
  {
    map category | category in seasonBounds :: ConvertFields(seasonBounds[category], referenceStems)
  }

  /**
   * convert_bounds_to_percentages: every present bound divided by `referenceStems`
   * (25 unless given), every table key kept; a zero reference size fails exactly
   * when there is a present bound to divide.
   */
  function ConvertBoundsToPercentages(bounds: BoundsBySeason<int>, referenceStems: int := DefaultReferenceStems)
    : (r: Result<BoundsBySeason<real>, BoundsError>)
    ensures r.Failure? <==> referenceStems == 0 && HasPresentValue(bounds)
  {
    if referenceStems == 0 then
      if HasPresentValue(bounds) then Failure(ZeroReferenceStems)
      else Success(map season | season in bounds :: map category | category in bounds[season] ::
                     map field | field in bounds[season][category] :: None)
    else
      Success(map season | season in bounds :: ConvertSeason(bounds[season], referenceStems))
  }

  /**
   * A successful conversion keeps every season, category and field key, keeps
   * None as None, and turns every present bound v into v / referenceStems.
   */
  lemma ConversionPointwise(bounds: BoundsBySeason<int>, referenceStems: int,
                            season: string, category: Category, field: string)
    requires ConvertBoundsToPercentages(bounds, referenceStems).Success?
    ensures var pct := ConvertBoundsToPercentages(bounds, referenceStems).value;
      && pct.Keys == bounds.Keys
      && (season in bounds ==> pct[season].Keys == bounds[season].Keys)
      && (season in bounds && category in bounds[season] ==>
            pct[season][category].Keys == bounds[season][category].Keys)
      && (season in bounds && category in bounds[season] && field in bounds[season][category] ==>
            var v, p := bounds[season][category][field], pct[season][category][field];
            && (p.None? <==> v.None?)
            && (p.Some? ==> p.value == v.value as real / referenceStems as real))
  {
    if referenceStems == 0 && season in bounds && category in bounds[season] && field in bounds[season][category] {
      assert bounds[season][category][field].None?;
    }
  }

  /** A percentage bound scaled back by the reference size, as a stem count. */
  function ToStemCount(p: Option<real>, referenceStems: int): Option<int>
  {
    match p
    case None => None
    case Some(x) => Some((x * referenceStems as real).Floor)
  }

  /** Scaling a converted table back by the reference size recovers the original stem counts. */
  lemma ConversionRoundTrip(bounds: BoundsBySeason<int>, referenceStems: int)
    requires referenceStems != 0
    ensures var pct := ConvertBoundsToPercentages(bounds, referenceStems).value;
      forall season, category, field ::
        season in bounds && category in bounds[season] && field in bounds[season][category] ==>
        ToStemCount(pct[season][category][field], referenceStems) == bounds[season][category][field]
  {
    var pct := ConvertBoundsToPercentages(bounds, referenceStems).value;
    forall season, category, field |
      season in bounds && category in bounds[season] && field in bounds[season][category]
      ensures ToStemCount(pct[season][category][field], referenceStems) == bounds[season][category][field]
    {
      var v := bounds[season][category][field];
      assert pct[season][category][field] == ConvertValue(v, referenceStems);
      ValueRoundTrip(v, referenceStems);
    }
  }

  /** Scaling one converted bound back recovers it. */
  lemma ValueRoundTrip(v: Option<int>, referenceStems: int)
    requires referenceStems != 0
    ensures ToStemCount(ConvertValue(v, referenceStems), referenceStems) == v
  {
    if v.Some? {
      var n, d := v.value as real, referenceStems as real;
      var p := ConvertValue(v, referenceStems);
      assert p == Some(n / d);
      assert ToStemCount(p, referenceStems) == Some((n / d * d).Floor);
      DivideThenMultiply(n, d);
      assert (n / d * d).Floor == v.value;
    }
  }

  /**
   * For a positive reference size, conversion keeps the order between any two bounds
   * in both directions, so absolute_min <= design_min <= design_max <= absolute_max
   * holds after conversion exactly when it held before.
   */
  lemma ConversionKeepsOrder(a: int, b: int, referenceStems: int)
    requires 0 < referenceStems
    ensures var pa, pb := ConvertValue(Some(a), referenceStems), ConvertValue(Some(b), referenceStems);
      pa.value <= pb.value <==> a <= b
  {
    var pa, pb := ConvertValue(Some(a), referenceStems), ConvertValue(Some(b), referenceStems);
    var d := referenceStems as real;
    assert pa.value * d == a as real && pb.value * d == b as real;
    if pa.value <= pb.value {
      assert pa.value * d <= pb.value * d;
    } else {
      assert pb.value * d < pa.value * d;
    }
  }
}
