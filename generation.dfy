/** Generation per fuel category (`parse_generation`): each time series is mapped
    from its PSR type code to a category, and the hourly values of all series of
    one category are added up per hour. */
module Generation {
  import opened Wrappers
  import opened Points

  /** The fuel categories of the hourly table. */
  datatype Category = Nuclear | Coal | Gas | Hydro | Solar | Wind | Biomass

  /** `GEN_CATEGORIES`, in table order. */
  const GenCategories: seq<Category> := [Nuclear, Coal, Gas, Hydro, Solar, Wind, Biomass]

  /** `PSR_MAP`: the ENTSO-E production type codes that feed a category. */
  const PsrMap: map<string, Category> := map[
    "B14" := Nuclear,
    "B02" := Coal, "B05" := Coal,
    "B04" := Gas,
    "B10" := Hydro, "B11" := Hydro, "B12" := Hydro,
    "B16" := Solar,
    "B19" := Wind,
    "B01" := Biomass, "B17" := Biomass
  ]

  /** Every category is listed in `GenCategories`. */
  lemma CategoriesComplete(c: Category)
    ensures c in GenCategories
  {
    match c
    case Nuclear => assert GenCategories[0] == c;
    case Coal => assert GenCategories[1] == c;
    case Gas => assert GenCategories[2] == c;
    case Hydro => assert GenCategories[3] == c;
    case Solar => assert GenCategories[4] == c;
    case Wind => assert GenCategories[5] == c;
    case Biomass => assert GenCategories[6] == c;
  }

  /** The categories as a set. */
  function AllCategories(): set<Category> {
    set c | c in GenCategories
  }

  /** Adding a series' hourly values into a category's running totals: every hour of
      either map, with a missing side counting as 0. */
  function MergeAdd(acc: map<int, real>, values: map<int, real>): map<int, real> {
    map k | k in acc.Keys + values.Keys :: MapGet(acc, k, 0.0) + MapGet(values, k, 0.0)
  }

  /** What each series contributes, in order: its category (None for an unmapped
      code) and its `parse_points_by_timestamp` map. */
  function Contributions(series: seq<TimeSeries>): (cs: seq<(Option<Category>, map<int, real>)>)
    ensures |cs| == |series|
  {
    seq(|series|, i requires 0 <= i < |series| => (MapFind(PsrMap, series[i].psrType), PointsByTimestamp(series[i].periods)))
  }

  /** The per-category totals left by adding the contributions one after another,
      starting from an empty map per category. */
  function SumByCategory(cs: seq<(Option<Category>, map<int, real>)>): (r: map<Category, map<int, real>>)
    ensures r.Keys == AllCategories()
  {
    if cs == [] then map c | c in AllCategories() :: map[]
    else
      var acc := SumByCategory(cs[..|cs| - 1]);
      var (cat, values) := cs[|cs| - 1];
      if cat.Some? then
        CategoriesComplete(cat.value);
        acc[cat.value := MergeAdd(acc[cat.value], values)]
      else acc
  }

  /** What `parse_generation` returns. */
  function GenerationSpec(series: seq<TimeSeries>): (r: map<Category, map<int, real>>)
    ensures r.Keys == AllCategories()
  {
    SumByCategory(Contributions(series))
  }

  /** Reference: the sum, over the contributions of category `cat`, of their value at
      hour k (0 for one without that hour). */
  function CategorySum(cs: seq<(Option<Category>, map<int, real>)>, cat: Category, k: int): real {
    if cs == [] then 0.0
    else
      CategorySum(cs[..|cs| - 1], cat, k) +
        (if cs[|cs| - 1].0 == Some(cat) then MapGet(cs[|cs| - 1].1, k, 0.0) else 0.0)
  }

  /** Whether some contribution of category `cat` has hour k. */
  predicate CategoryHas(cs: seq<(Option<Category>, map<int, real>)>, cat: Category, k: int) {
    exists i :: 0 <= i < |cs| && cs[i].0 == Some(cat) && k in cs[i].1
  }

  /** The hours of a merge are those of either side, and each value is the sum of
      both sides with a missing side counting as 0. */
  lemma MergeAddGet(acc: map<int, real>, values: map<int, real>, k: int)
    ensures k in MergeAdd(acc, values) <==> k in acc || k in values
    ensures MapGet(MergeAdd(acc, values), k, 0.0) == MapGet(acc, k, 0.0) + MapGet(values, k, 0.0)
  {
  }

  /** Whether some contribution has the hour: some earlier one, or the last one. */
  lemma CategoryHasStep(cs: seq<(Option<Category>, map<int, real>)>, cat: Category, k: int)
    requires cs != []
    ensures CategoryHas(cs, cat, k) <==>
      CategoryHas(cs[..|cs| - 1], cat, k) || (cs[|cs| - 1].0 == Some(cat) && k in cs[|cs| - 1].1)
  {
    var n := |cs| - 1;
    if CategoryHas(cs[..n], cat, k) {
      var i :| 0 <= i < n && cs[..n][i].0 == Some(cat) && k in cs[..n][i].1;
      assert cs[i] == cs[..n][i];
    }
  }

  /** Hour k is present in the totals of category `cat` exactly when some
      contribution of `cat` has it. */
  lemma {:induction false} CategoryKeys(cs: seq<(Option<Category>, map<int, real>)>, cat: Category, k: int)
    ensures k in SumByCategory(cs)[cat] <==> CategoryHas(cs, cat, k)
  {
    CategoriesComplete(cat);
    if cs != [] {
      var n := |cs| - 1;
      CategoryKeys(cs[..n], cat, k);
      MergeAddGet(SumByCategory(cs[..n])[cat], cs[n].1, k);
      CategoryHasStep(cs, cat, k);
    }
  }

  /** The total of category `cat` at hour k is the sum of that hour over every
      contribution of `cat`; contributions of other categories and unmapped ones add
      nothing. */
  lemma {:induction false} CategoryTotals(cs: seq<(Option<Category>, map<int, real>)>, cat: Category, k: int)
    ensures MapGet(SumByCategory(cs)[cat], k, 0.0) == CategorySum(cs, cat, k)
  {
    CategoriesComplete(cat);
    if cs != [] {
      var n := |cs| - 1;
      CategoryTotals(cs[..n], cat, k);
      MergeAddGet(SumByCategory(cs[..n])[cat], cs[n].1, k);
    }
  }

  /** Adding one series' values into a category's totals, hour by hour. The order
      in which the hours are visited does not matter to the sums. */
  method AddInto(acc: map<int, real>, values: map<int, real>) returns (totals: map<int, real>)
    ensures totals == MergeAdd(acc, values)
  {
    totals := acc;
    var keys := values.Keys;
    while keys != {}
      invariant keys <= values.Keys
      invariant forall k :: k in totals <==> k in acc || (k in values && k !in keys)
      invariant forall k | k in totals ::
        totals[k] == MapGet(acc, k, 0.0) + (if k in values && k !in keys then values[k] else 0.0)
      decreases keys
    {
      NonEmptyHasMember(keys);
      var key :| key in keys;
      totals := totals[key := MapGet(totals, key, 0.0) + values[key]];
      keys := keys - {key};
    }
    ghost var merged := MergeAdd(acc, values);
    assert forall k :: k in totals <==> k in merged;
    assert forall k | k in totals :: totals[k] == merged[k];
  }

  /** `parse_generation`: start with an empty map per category, then add each mapped
      series' hourly values into its category. */
  method ParseGeneration(series: seq<TimeSeries>) returns (result: map<Category, map<int, real>>)
    ensures result == GenerationSpec(series)
  {
    result := map c | c in GenCategories :: map[];
    assert result == SumByCategory([]);
    for i := 0 to |series|
      invariant result == GenerationSpec(series[..i])
    {
      ghost var cs := Contributions(series[..i + 1]);
      assert cs[..i] == Contributions(series[..i]);
      var ts := series[i];
      if ts.psrType !in PsrMap {
        continue;
      }
      var category := PsrMap[ts.psrType];
      CategoriesComplete(category);
      var values := ParsePointsByTimestamp(ts.periods);
      var totals := AddInto(result[category], values);
      result := result[category := totals];
    }
    assert series[..|series|] == series;
  }
}
