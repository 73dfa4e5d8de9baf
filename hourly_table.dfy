/** The hourly table of one year (`process_year`): the parsed sources are merged
    into one record per hour over the union of all their hours, in time order, and
    hours missing from the nuclear series are then forward-filled in place. */
module HourlyTable {
  import opened Wrappers
  import opened Points
  import opened Generation
  import opened Flows

  /** One output record. `net` is generation minus demand, when demand is known. */
  datatype Record = Record(
    t: int,
    demand: Option<real>,
    gen: real,
    net: Option<real>,
    price: Option<real>,
    flows: map<string, real>,
    byCategory: map<Category, real>)

  /** The parsed sources of one year. */
  datatype Sources = Sources(
    gen: map<Category, map<int, real>>,
    prices: map<int, real>,
    demand: map<int, real>,
    flows: map<string, map<int, real>>)

  // ---------------------------------------------------------------------------
  // The union of hours
  // ---------------------------------------------------------------------------

  /** The union of the key sets of the maps. */
  function KeysOf(ms: seq<map<int, real>>): set<int> {
    if ms == [] then {} else KeysOf(ms[..|ms| - 1]) + ms[|ms| - 1].Keys
  }

  /** One more map adds its keys to the union. */
  lemma KeysOfStep(ms: seq<map<int, real>>, i: nat)
    requires i < |ms|
    ensures KeysOf(ms[..i + 1]) == KeysOf(ms[..i]) + ms[i].Keys
  {
    assert ms[..i + 1][..i] == ms[..i];
  }

  /** The generation maps, one per category in table order. */
  function GenMaps(src: Sources): (ms: seq<map<int, real>>)
    ensures |ms| == |GenCategories|
  {
    seq(|GenCategories|, i requires 0 <= i < |GenCategories| => MapGet(src.gen, GenCategories[i], map[]))
  }

  /** The flow maps, one per country in `FlowCountries` order (empty when absent). */
  function FlowMaps(src: Sources): (ms: seq<map<int, real>>)
    ensures |ms| == |FlowCountries|
  {
    seq(|FlowCountries|, i requires 0 <= i < |FlowCountries| => MapGet(src.flows, FlowCountries[i], map[]))
  }

  /** Every hour that appears in some source. */
  function AllKeys(src: Sources): set<int> {
    KeysOf(GenMaps(src)) + src.prices.Keys + src.demand.Keys + KeysOf(FlowMaps(src))
  }

  /** An hour is in the union exactly when one of the maps has it. */
  lemma {:induction false} KeysOfMember(ms: seq<map<int, real>>, k: int)
    ensures k in KeysOf(ms) <==> exists i :: 0 <= i < |ms| && k in ms[i]
  {
    if ms != [] {
      var n := |ms| - 1;
      KeysOfMember(ms[..n], k);
      if k in KeysOf(ms[..n]) {
        var i :| 0 <= i < n && k in ms[..n][i];
        assert k in ms[i];
      }
      if exists i :: 0 <= i < |ms| && k in ms[i] {
        var i :| 0 <= i < |ms| && k in ms[i];
        if i < n {
          assert k in ms[..n][i];
        }
      }
    }
  }

  /** An hour is in some generation map exactly when some category has it. */
  lemma GenMapsMember(src: Sources, k: int)
    ensures k in KeysOf(GenMaps(src)) <==> exists c :: c in GenCategories && k in MapGet(src.gen, c, map[])
  {
    var ms := GenMaps(src);
    KeysOfMember(ms, k);
    if exists c :: c in GenCategories && k in MapGet(src.gen, c, map[]) {
      var c :| c in GenCategories && k in MapGet(src.gen, c, map[]);
      var i :| 0 <= i < |GenCategories| && GenCategories[i] == c;
      assert k in ms[i];
    }
    if k in KeysOf(ms) {
      var i :| 0 <= i < |ms| && k in ms[i];
      assert GenCategories[i] in GenCategories;
    }
  }

  /** An hour is in some flow map exactly when some country's flows have it. */
  lemma FlowMapsMember(src: Sources, k: int)
    ensures k in KeysOf(FlowMaps(src)) <==> exists c :: c in FlowCountries && k in MapGet(src.flows, c, map[])
  {
    var ms := FlowMaps(src);
    KeysOfMember(ms, k);
    if exists c :: c in FlowCountries && k in MapGet(src.flows, c, map[]) {
      var c :| c in FlowCountries && k in MapGet(src.flows, c, map[]);
      var i :| 0 <= i < |FlowCountries| && FlowCountries[i] == c;
      assert k in ms[i];
    }
    if k in KeysOf(ms) {
      var i :| 0 <= i < |ms| && k in ms[i];
      assert FlowCountries[i] in FlowCountries;
    }
  }

  /** An hour is in the table exactly when some category, the prices, the demand or
      some country's flows have it. */
  lemma AllKeysMember(src: Sources, k: int)
    ensures k in AllKeys(src) <==>
      || (exists c :: c in GenCategories && k in MapGet(src.gen, c, map[]))
      || k in src.prices || k in src.demand
      || (exists c :: c in FlowCountries && k in MapGet(src.flows, c, map[]))
  {
    GenMapsMember(src, k);
    FlowMapsMember(src, k);
  }

  /** Collecting the hours of all sources into one set, source by source. */
  method CollectKeys(src: Sources) returns (allKeys: set<int>)
    ensures allKeys == AllKeys(src)
  {
    allKeys := {};
    var genMaps := GenMaps(src);
    for i := 0 to |GenCategories|
      invariant allKeys == KeysOf(genMaps[..i])
    {
      KeysOfStep(genMaps, i);
      allKeys := allKeys + MapGet(src.gen, GenCategories[i], map[]).Keys;
    }
    assert genMaps[..|GenCategories|] == genMaps;
    allKeys := allKeys + src.prices.Keys;
    allKeys := allKeys + src.demand.Keys;
    ghost var before := allKeys;
    var flowMaps := FlowMaps(src);
    for i := 0 to |FlowCountries|
      invariant allKeys == before + KeysOf(flowMaps[..i])
    {
      KeysOfStep(flowMaps, i);
      allKeys := allKeys + MapGet(src.flows, FlowCountries[i], map[]).Keys;
    }
    assert flowMaps[..|FlowCountries|] == flowMaps;
  }

  // ---------------------------------------------------------------------------
  // Sorting the hours
  // ---------------------------------------------------------------------------

  /** Strictly increasing: sorted and without duplicates. */
  predicate StrictlyIncreasing(s: seq<int>) {
    forall i, j | 0 <= i < j < |s| :: s[i] < s[j]
  }

  /** A non-empty finite set of hours has a least element. */
  lemma MinExists(s: set<int>)
    requires s != {}
    ensures exists m :: m in s && forall x | x in s :: m <= x
    decreases |s|
  {
    NonEmptyHasMember(s);
    var x :| x in s;
    var r := s - {x};
    if |r| == 0 {
      assert forall y | y in s :: y == x || y in r;
    } else {
      assert r != {};
      MinExists(r);
      var m :| m in r && forall y | y in r :: m <= y;
      if m < x {
        assert forall y | y in s :: y == x || y in r;
      } else {
        assert forall y | y in s :: y == x || y in r;
      }
    }
  }

  /** `sorted(all_keys)`: the hours in increasing order, each once, by repeatedly
      taking the least remaining hour. */
  method SortKeys(keys: set<int>) returns (sorted: seq<int>)
    ensures StrictlyIncreasing(sorted)
    ensures forall k :: k in sorted <==> k in keys
  {
    sorted := [];
    var rest := keys;
    while rest != {}
      invariant rest <= keys
      invariant forall k :: k in keys <==> k in rest || k in sorted
      invariant forall k | k in sorted :: k !in rest
      invariant StrictlyIncreasing(sorted)
      invariant forall i, k | 0 <= i < |sorted| && k in rest :: sorted[i] < k
      decreases rest
    {
      MinExists(rest);
      var m :| m in rest && forall x | x in rest :: m <= x;
      sorted := sorted + [m];
      rest := rest - {m};
    }
  }

  // ---------------------------------------------------------------------------
  // Records
  // ---------------------------------------------------------------------------

  /** The sum of the values of the first n categories of `GenCategories` (a missing
      one counting as 0). */
  function SumFirst(m: map<Category, real>, n: nat): real
    requires n <= |GenCategories|
  {
    if n == 0 then 0.0 else SumFirst(m, n - 1) + MapGet(m, GenCategories[n - 1], 0.0)
  }

  /** The generation of the record's categories, summed over all categories. */
  function CategoryTotal(byCategory: map<Category, real>): real {
    SumFirst(byCategory, |GenCategories|)
  }

  /** The nuclear value of a record. */
  function NuclearOf(rec: Record): real {
    MapGet(rec.byCategory, Nuclear, 0.0)
  }

  /** A record is consistent when its generation is the sum of its categories and its
      net position is generation minus demand exactly when demand is known. */
  predicate Consistent(rec: Record) {
    && rec.byCategory.Keys == AllCategories()
    && rec.gen == CategoryTotal(rec.byCategory)
    && rec.net == (if rec.demand.Some? then Some(rec.gen - rec.demand.value) else None)
  }

  /** The per-category values of hour `key`, 0 for a category without it. */
  function CategoryValues(src: Sources, key: int): map<Category, real> {
    map c | c in AllCategories() :: MapGet(MapGet(src.gen, c, map[]), key, 0.0)
  }

  /** The per-country flows of hour `key`, 0 for a country without it. */
  function FlowValues(src: Sources, key: int): map<string, real> {
    map c | c in FlowCountries :: MapGet(MapGet(src.flows, c, map[]), key, 0.0)
  }

  /** The record the merge builds for hour `key`. */
  function RecordAt(src: Sources, key: int): Record {
    var byCategory := CategoryValues(src, key);
    var total := CategoryTotal(byCategory);
    var dem := MapFind(src.demand, key);
    Record(key, dem, total, if dem.Some? then Some(total - dem.value) else None,
           MapFind(src.prices, key), FlowValues(src, key), byCategory)
  }

  /** A merged record is consistent; its demand and price are those of the sources
      (None when the hour has none), its categories and flows are the sources' values
      at that hour (0 when missing). */
  lemma RecordAtConsistent(src: Sources, key: int)
    ensures Consistent(RecordAt(src, key))
    ensures RecordAt(src, key).demand.None? <==> key !in src.demand
    ensures RecordAt(src, key).price.None? <==> key !in src.prices
    ensures forall c :: c in RecordAt(src, key).byCategory && RecordAt(src, key).byCategory[c] == MapGet(MapGet(src.gen, c, map[]), key, 0.0)
  {
    forall c ensures c in AllCategories() {
      CategoriesComplete(c);
    }
  }

  /** The category loop of the merge: each category's value at hour `key` (0 when
      missing), and their running total. */
  method CategoryValuesAt(src: Sources, key: int) returns (genVals: map<Category, real>, totalGen: real)
    ensures genVals == CategoryValues(src, key)
    ensures totalGen == CategoryTotal(genVals)
  {
    ghost var spec := CategoryValues(src, key);
    genVals := map[];
    totalGen := 0.0;
    for j := 0 to |GenCategories|
      invariant forall jj | 0 <= jj < j :: GenCategories[jj] in genVals
      invariant forall c | c in genVals :: c in spec && genVals[c] == spec[c]
      invariant totalGen == SumFirst(spec, j)
    {
      var cat := GenCategories[j];
      CategoriesComplete(cat);
      var val := MapGet(MapGet(src.gen, cat, map[]), key, 0.0);
      genVals := genVals[cat := val];
      totalGen := totalGen + val;
    }
    forall c | c in spec ensures c in genVals {
      CategoriesComplete(c);
    }
    assert forall c :: c in genVals <==> c in spec;
  }

  /** The country loop of the merge: each country's flow at hour `key` (0 when missing). */
  method FlowValuesAt(src: Sources, key: int) returns (flows: map<string, real>)
    ensures flows == FlowValues(src, key)
  {
    ghost var spec := FlowValues(src, key);
    flows := map[];
    for j := 0 to |FlowCountries|
      invariant forall jj | 0 <= jj < j :: FlowCountries[jj] in flows
      invariant forall c | c in flows :: c in spec && flows[c] == spec[c]
    {
      var country := FlowCountries[j];
      flows := flows[country := MapGet(MapGet(src.flows, country, map[]), key, 0.0)];
    }
    assert forall c :: c in flows <==> c in spec;
  }

  /** Building the record of one hour: the category values and their total, then
      demand, net and price, then the flows of each country. */
  method BuildRecord(src: Sources, key: int) returns (rec: Record)
    ensures rec == RecordAt(src, key)
  {
    var dem := MapFind(src.demand, key);
    var price := MapFind(src.prices, key);
    var genVals, totalGen := CategoryValuesAt(src, key);
    var net := if dem.Some? then Some(totalGen - dem.value) else None;
    var flows := FlowValuesAt(src, key);
    rec := Record(key, dem, totalGen, net, price, flows, genVals);
  }

  // ---------------------------------------------------------------------------
  // Nuclear forward-fill
  // ---------------------------------------------------------------------------

  /** The nuclear value of the last record, among `rs`, whose hour is in the nuclear
      series; None when there is none. */
  function LastKnown(rs: seq<Record>, nucKeys: set<int>): Option<real> {
    if rs == [] then None
    else if rs[|rs| - 1].t in nucKeys then Some(NuclearOf(rs[|rs| - 1]))
    else LastKnown(rs[..|rs| - 1], nucKeys)
  }

  /** Whether the fill changes a record: its hour is missing from the nuclear series,
      its nuclear value is 0 and an earlier value is known. */
  predicate IsGap(rec: Record, nucKeys: set<int>, last: Option<real>) {
    rec.t !in nucKeys && NuclearOf(rec) == 0.0 && last.Some?
  }

  /** The record after the fill: a gap gets the last known nuclear value, its
      generation grows by that value and its net position is recomputed when demand
      is known; any other record is unchanged. */
  function Filled(rec: Record, nucKeys: set<int>, last: Option<real>): Record {
    if IsGap(rec, nucKeys, last) then FillGap(rec, last.value) else rec
  }

  /** A gap filled with the nuclear value `v`. */
  function FillGap(rec: Record, v: real): Record {
    var gen := rec.gen + v;
    rec.(byCategory := rec.byCategory[Nuclear := v], gen := gen,
         net := if rec.demand.Some? then Some(gen - rec.demand.value) else rec.net)
  }

  /** The number of gaps among `rs`, each judged against the records before it. */
  function GapCount(rs: seq<Record>, nucKeys: set<int>): nat {
    if rs == [] then 0
    else
      var n := |rs| - 1;
      GapCount(rs[..n], nucKeys) + (if IsGap(rs[n], nucKeys, LastKnown(rs[..n], nucKeys)) then 1 else 0)
  }

  /** No value is known exactly when no earlier record is in the nuclear series: the
      records before the first nuclear hour are left alone. */
  lemma {:induction false} LastKnownNone(rs: seq<Record>, nucKeys: set<int>)
    ensures LastKnown(rs, nucKeys).None? <==> forall i | 0 <= i < |rs| :: rs[i].t !in nucKeys
  {
    if rs != [] {
      var n := |rs| - 1;
      LastKnownNone(rs[..n], nucKeys);
      if rs[n].t !in nucKeys {
        assert forall i | 0 <= i < n :: rs[..n][i] == rs[i];
      }
    }
  }

  /** Replacing the nuclear value changes the partial sums by the difference. */
  lemma {:induction false} SumFirstNuclear(m: map<Category, real>, n: nat, v: real)
    requires 1 <= n <= |GenCategories|
    ensures SumFirst(m[Nuclear := v], n) == SumFirst(m, n) + v - MapGet(m, Nuclear, 0.0)
  {
    if n > 1 {
      SumFirstNuclear(m, n - 1, v);
      assert GenCategories[n - 1] != Nuclear;
    }
  }

  /** The fill keeps a record consistent: the nuclear value replaces a 0, so the
      generation total grows by exactly the filled value. */
  lemma FillConsistent(rec: Record, nucKeys: set<int>, last: Option<real>)
    requires Consistent(rec)
    ensures Consistent(Filled(rec, nucKeys, last))
  {
    if IsGap(rec, nucKeys, last) {
      SumFirstNuclear(rec.byCategory, |GenCategories|, last.value);
      assert rec.byCategory[Nuclear := last.value].Keys == rec.byCategory.Keys;
    }
  }

  /** The fill only touches the nuclear value, the generation and the net position. */
  lemma FillFrame(rec: Record, nucKeys: set<int>, last: Option<real>)
    ensures var r := Filled(rec, nucKeys, last);
      && r.t == rec.t && r.demand == rec.demand && r.price == rec.price && r.flows == rec.flows
      && (forall c | c != Nuclear && c in rec.byCategory :: c in r.byCategory && r.byCategory[c] == rec.byCategory[c])
      && (r != rec ==> IsGap(rec, nucKeys, last) && NuclearOf(r) == last.value && r.gen == rec.gen + last.value)
  {
  }

  /** The in-place forward-fill: walk the records in order, remembering the nuclear
      value of the last record in the nuclear series, and fill each gap from it.
      Returns the number of gaps filled. */
  method FillNuclearGaps(recs: array<Record>, nucKeys: set<int>) returns (gaps: nat)
    modifies recs
    ensures forall i | 0 <= i < recs.Length :: recs[i] == Filled(old(recs[..])[i], nucKeys, LastKnown(old(recs[..])[..i], nucKeys))
    ensures gaps == GapCount(old(recs[..]), nucKeys)
  {
    ghost var orig := recs[..];
    gaps := 0;
    var lastNuc: Option<real> := None;
    for i := 0 to recs.Length
      invariant forall j | i <= j < recs.Length :: recs[j] == orig[j]
      invariant forall j | 0 <= j < i :: recs[j] == Filled(orig[j], nucKeys, LastKnown(orig[..j], nucKeys))
      invariant lastNuc == LastKnown(orig[..i], nucKeys)
      invariant gaps == GapCount(orig[..i], nucKeys)
    {
      assert orig[..i + 1][..i] == orig[..i];
      var rec := recs[i];
      if rec.t in nucKeys {
        lastNuc := Some(NuclearOf(rec));
      } else if NuclearOf(rec) == 0.0 && lastNuc.Some? {
        recs[i] := FillGap(rec, lastNuc.value);
        gaps := gaps + 1;
      }
    }
    assert orig[..recs.Length] == orig;
  }

  // ---------------------------------------------------------------------------
  // process_year
  // ---------------------------------------------------------------------------

  /** The hours of the records, in order. */
  function Times(hours: seq<Record>): (ts: seq<int>)
    ensures |ts| == |hours|
  {
    seq(|hours|, i requires 0 <= i < |hours| => hours[i].t)
  }

  /** Whether hour k appears in some raw source of the year: a generation category,
      the prices, the demand, or either flow direction of some country. */
  predicate InSomeSource(genSeries: seq<TimeSeries>, priceSeries: seq<TimeSeries>, demandSeries: seq<TimeSeries>,
                         bilateral: map<string, CountryData>, k: int) {
    || (exists c :: c in GenerationSpec(genSeries) && k in GenerationSpec(genSeries)[c])
    || k in PointsByTimestamp(AllPeriods(priceSeries))
    || k in PointsByTimestamp(AllPeriods(demandSeries))
    || (exists c :: c in FlowCountries &&
          (k in DirectionValues(CountryOf(bilateral, c).exports) || k in DirectionValues(CountryOf(bilateral, c).imports)))
  }

  /** The merge loop: one record per sorted hour. */
  method MergeRecords(src: Sources, sortedKeys: seq<int>) returns (records: seq<Record>)
    ensures |records| == |sortedKeys|
    ensures forall j | 0 <= j < |records| :: records[j] == RecordAt(src, sortedKeys[j])
  {
    records := [];
    for i := 0 to |sortedKeys|
      invariant |records| == i
      invariant forall j | 0 <= j < i :: records[j] == RecordAt(src, sortedKeys[j])
    {
      var rec := BuildRecord(src, sortedKeys[i]);
      records := records + [rec];
    }
  }

  /** Some category of the parsed generation has hour k exactly when one of the
      category maps the table reads has it. */
  lemma GenKeys(src: Sources, genSeries: seq<TimeSeries>, k: int)
    requires src.gen == GenerationSpec(genSeries)
    ensures (exists c :: c in GenCategories && k in MapGet(src.gen, c, map[])) <==>
      (exists c :: c in GenerationSpec(genSeries) && k in GenerationSpec(genSeries)[c])
  {
    if exists c :: c in src.gen && k in src.gen[c] {
      var c :| c in src.gen && k in src.gen[c];
      CategoriesComplete(c);
      assert k in MapGet(src.gen, c, map[]);
    }
  }

  /** Some country's net flow has hour k exactly when one of its two directions has it. */
  lemma FlowKeys(src: Sources, maxExport: map<string, real>, bilateral: map<string, CountryData>, k: int)
    requires src.flows.Keys == maxExport.Keys == set c | c in FlowCountries
    requires forall c | c in src.flows ::
      IsNetFlow(src.flows[c], maxExport[c], DirectionValues(CountryOf(bilateral, c).exports), DirectionValues(CountryOf(bilateral, c).imports))
    ensures (exists c :: c in FlowCountries && k in MapGet(src.flows, c, map[])) <==>
      (exists c :: c in FlowCountries &&
         (k in DirectionValues(CountryOf(bilateral, c).exports) || k in DirectionValues(CountryOf(bilateral, c).imports)))
  {
    if exists c :: c in FlowCountries && k in MapGet(src.flows, c, map[]) {
      var c :| c in FlowCountries && k in MapGet(src.flows, c, map[]);
      assert c in src.flows;
    }
    if exists c :: c in FlowCountries &&
         (k in DirectionValues(CountryOf(bilateral, c).exports) || k in DirectionValues(CountryOf(bilateral, c).imports)) {
      var c :| c in FlowCountries &&
         (k in DirectionValues(CountryOf(bilateral, c).exports) || k in DirectionValues(CountryOf(bilateral, c).imports));
      assert c in src.flows;
      assert k in src.flows[c];
    }
  }

  /** The union of the parsed sources' hours is the set of hours of the raw sources. */
  lemma SourceKeys(genSeries: seq<TimeSeries>, priceSeries: seq<TimeSeries>, demandSeries: seq<TimeSeries>,
                   bilateral: map<string, CountryData>, src: Sources, maxExport: map<string, real>, k: int)
    requires src.gen == GenerationSpec(genSeries)
    requires src.prices == PointsByTimestamp(AllPeriods(priceSeries))
    requires src.demand == PointsByTimestamp(AllPeriods(demandSeries))
    requires src.flows.Keys == maxExport.Keys == set c | c in FlowCountries
    requires forall c | c in src.flows ::
      IsNetFlow(src.flows[c], maxExport[c], DirectionValues(CountryOf(bilateral, c).exports), DirectionValues(CountryOf(bilateral, c).imports))
    ensures k in AllKeys(src) <==> InSomeSource(genSeries, priceSeries, demandSeries, bilateral, k)
  {
    AllKeysMember(src, k);
    GenKeys(src, genSeries, k);
    FlowKeys(src, maxExport, bilateral, k);
    assert k in src.prices <==> k in PointsByTimestamp(AllPeriods(priceSeries));
    assert k in src.demand <==> k in PointsByTimestamp(AllPeriods(demandSeries));
  }

  /** What the fill leaves: the records keep their hours, every record is consistent,
      and a record outside the nuclear series that follows a nuclear hour carries the
      last known nuclear value. */
  lemma FilledTable(src: Sources, keys: seq<int>, records: seq<Record>, hours: seq<Record>, nucKeys: set<int>)
    requires |records| == |keys| == |hours|
    requires forall j | 0 <= j < |records| :: records[j] == RecordAt(src, keys[j])
    requires forall j | 0 <= j < |hours| :: hours[j] == Filled(records[j], nucKeys, LastKnown(records[..j], nucKeys))
    requires nucKeys == MapGet(src.gen, Nuclear, map[]).Keys
    ensures Times(hours) == keys
    ensures AllConsistent(hours)
    ensures NuclearCarried(hours, nucKeys)
  {
    forall i | 0 <= i < |hours| ensures Consistent(hours[i]) {
      RecordAtConsistent(src, keys[i]);
      FillConsistent(records[i], nucKeys, LastKnown(records[..i], nucKeys));
    }
    forall i | 0 <= i < |hours| && hours[i].t !in nucKeys && LastKnown(hours[..i], nucKeys).Some?
      ensures NuclearOf(hours[i]) == LastKnown(hours[..i], nucKeys).value
    {
      FilledLastKnown(records, hours, nucKeys, i);
      RecordAtConsistent(src, keys[i]);
    }
  }

  /** Every record of the table is consistent. */
  predicate AllConsistent(hours: seq<Record>) {
    forall i | 0 <= i < |hours| :: Consistent(hours[i])
  }

  /** Every record outside the nuclear series that follows a nuclear hour carries the
      nuclear value of the last nuclear hour before it. */
  predicate NuclearCarried(hours: seq<Record>, nucKeys: set<int>) {
    forall i | 0 <= i < |hours| ::
      (hours[i].t !in nucKeys && LastKnown(hours[..i], nucKeys).Some?) ==> NuclearOf(hours[i]) == LastKnown(hours[..i], nucKeys).value
  }

  /** The merged records of the hours `keys`, one per hour, before the fill. */
  function Merged(src: Sources, keys: seq<int>): (rs: seq<Record>)
    ensures |rs| == |keys|
    ensures forall j | 0 <= j < |keys| :: rs[j].t == keys[j]
  {
    seq(|keys|, j requires 0 <= j < |keys| => RecordAt(src, keys[j]))
  }

  /** The records after the forward-fill: each one filled from the last nuclear value
      among the records before it. */
  function FillAll(rs: seq<Record>, nucKeys: set<int>): (out: seq<Record>)
    ensures |out| == |rs|
    ensures forall i | 0 <= i < |rs| :: out[i].t == rs[i].t
  {
    seq(|rs|, i requires 0 <= i < |rs| => Filled(rs[i], nucKeys, LastKnown(rs[..i], nucKeys)))
  }

  /** The nuclear series' hours of the parsed sources. */
  function NuclearKeys(src: Sources): set<int> {
    MapGet(src.gen, Nuclear, map[]).Keys
  }

  /** What a record of the filled table holds: its hour; the demand and price of the
      sources at that hour (None when they have none); the flows and the non-nuclear
      categories of the sources at that hour (0 when missing); and the merged record
      unchanged when its hour is in the nuclear series or no nuclear hour precedes it.
      Otherwise it is a gap or not by `IsGap`, and a gap carries the last known value. */
  lemma FilledRecord(src: Sources, keys: seq<int>, j: nat)
    requires j < |keys|
    ensures var h := FillAll(Merged(src, keys), NuclearKeys(src))[j];
      && h.t == keys[j]
      && h.demand == MapFind(src.demand, keys[j])
      && h.price == MapFind(src.prices, keys[j])
      && h.flows == FlowValues(src, keys[j])
      && (forall c | c != Nuclear :: c in h.byCategory && h.byCategory[c] == MapGet(MapGet(src.gen, c, map[]), keys[j], 0.0))
      && (keys[j] in NuclearKeys(src) ==> h == RecordAt(src, keys[j]))
      && (LastKnown(Merged(src, keys)[..j], NuclearKeys(src)).None? ==> h == RecordAt(src, keys[j]))
      && (h != RecordAt(src, keys[j]) ==>
            IsGap(RecordAt(src, keys[j]), NuclearKeys(src), LastKnown(Merged(src, keys)[..j], NuclearKeys(src)))
            && NuclearOf(h) == LastKnown(Merged(src, keys)[..j], NuclearKeys(src)).value)
  {
    var rs := Merged(src, keys);
    RecordAtConsistent(src, keys[j]);
    FillFrame(rs[j], NuclearKeys(src), LastKnown(rs[..j], NuclearKeys(src)));
  }

  /** The table of parsed sources: one record per hour of some source, in increasing
      order, then the nuclear gaps forward-filled in place. The table is the filled
      merge of its own hours, and `gaps` counts the gaps filled. */
  method BuildTable(src: Sources) returns (hours: seq<Record>, gaps: nat)
    ensures StrictlyIncreasing(Times(hours))
    ensures forall k :: k in Times(hours) <==> k in AllKeys(src)
    ensures hours == FillAll(Merged(src, Times(hours)), NuclearKeys(src))
    ensures gaps == GapCount(Merged(src, Times(hours)), NuclearKeys(src))
    ensures AllConsistent(hours)
    ensures NuclearCarried(hours, NuclearKeys(src))
  {
    var allKeys := CollectKeys(src);
    var sortedKeys := SortKeys(allKeys);
    var records := MergeRecords(src, sortedKeys);
    var nucKeys := MapGet(src.gen, Nuclear, map[]).Keys;
    var arr := new Record[|records|](i requires 0 <= i < |records| => records[i]);
    assert arr[..] == records;
    gaps := FillNuclearGaps(arr, nucKeys);
    hours := arr[..];
    FilledTable(src, sortedKeys, records, hours, nucKeys);
    assert records == Merged(src, sortedKeys);
  }

  /** `process_year` without its file input and output: parse the sources, merge them
      into one record per hour, in increasing order, over exactly the hours that appear
      in some source, then forward-fill the nuclear gaps. */
  method ProcessYear(genSeries: seq<TimeSeries>, priceSeries: seq<TimeSeries>, demandSeries: seq<TimeSeries>,
                     bilateral: map<string, CountryData>)
    returns (maxExport: map<string, real>, hours: seq<Record>, gaps: nat)
    ensures maxExport.Keys == set c | c in FlowCountries
    ensures forall c | c in maxExport :: IsPeak(maxExport[c], DirectionValues(CountryOf(bilateral, c).exports))
    ensures StrictlyIncreasing(Times(hours))
    ensures forall k :: k in Times(hours) <==> InSomeSource(genSeries, priceSeries, demandSeries, bilateral, k)
    ensures hours == FillAll(Merged(ParsedSources(genSeries, priceSeries, demandSeries, bilateral), Times(hours)),
                             GenerationSpec(genSeries)[Nuclear].Keys)
    ensures gaps == GapCount(Merged(ParsedSources(genSeries, priceSeries, demandSeries, bilateral), Times(hours)),
                             GenerationSpec(genSeries)[Nuclear].Keys)
    ensures AllConsistent(hours)
    ensures NuclearCarried(hours, GenerationSpec(genSeries)[Nuclear].Keys)
  {
    var genByCat := ParseGeneration(genSeries);
    var prices := ParseSeries(priceSeries);
    var demand := ParseSeries(demandSeries);
    var countryFlows;
    countryFlows, maxExport := ParseBilateralFlows(bilateral);
    var src := Sources(genByCat, prices, demand, countryFlows);
    hours, gaps := BuildTable(src);
    CategoriesComplete(Nuclear);
    forall k ensures k in AllKeys(src) <==> InSomeSource(genSeries, priceSeries, demandSeries, bilateral, k) {
      SourceKeys(genSeries, priceSeries, demandSeries, bilateral, src, maxExport, k);
    }
    ParsedFlows(bilateral, countryFlows, maxExport);
    assert src == ParsedSources(genSeries, priceSeries, demandSeries, bilateral);
  }

  /** The parsed sources of one year, as values: the generation per category, the
      prices and the demand by hour, and each country's net flow map. */
  function ParsedSources(genSeries: seq<TimeSeries>, priceSeries: seq<TimeSeries>, demandSeries: seq<TimeSeries>,
                         bilateral: map<string, CountryData>): Sources {
    Sources(GenerationSpec(genSeries), PointsByTimestamp(AllPeriods(priceSeries)), PointsByTimestamp(AllPeriods(demandSeries)),
            map c | c in FlowCountries :: NetMap(DirectionValues(CountryOf(bilateral, c).exports), DirectionValues(CountryOf(bilateral, c).imports)))
  }

  /** The flows `ParseBilateralFlows` returns are the net flow maps of `ParsedSources`. */
  lemma ParsedFlows(bilateral: map<string, CountryData>, flows: map<string, map<int, real>>, maxExport: map<string, real>)
    requires flows.Keys == maxExport.Keys == set c | c in FlowCountries
    requires forall c | c in flows ::
      IsNetFlow(flows[c], maxExport[c], DirectionValues(CountryOf(bilateral, c).exports), DirectionValues(CountryOf(bilateral, c).imports))
    ensures flows == map c | c in FlowCountries :: NetMap(DirectionValues(CountryOf(bilateral, c).exports), DirectionValues(CountryOf(bilateral, c).imports))
  {
    forall c | c in flows
      ensures flows[c] == NetMap(DirectionValues(CountryOf(bilateral, c).exports), DirectionValues(CountryOf(bilateral, c).imports))
    {
      NetFlowIsNetMap(flows[c], maxExport[c], DirectionValues(CountryOf(bilateral, c).exports), DirectionValues(CountryOf(bilateral, c).imports));
    }
  }

  /** Filling leaves the nuclear hours alone, so the last known value is the same
      whether read from the records before or after the fill. */
  lemma {:induction false} FilledLastKnown(before: seq<Record>, after: seq<Record>, nucKeys: set<int>, i: nat)
    requires |before| == |after| && i <= |before|
    requires forall j | 0 <= j < |after| :: after[j] == Filled(before[j], nucKeys, LastKnown(before[..j], nucKeys))
    ensures LastKnown(after[..i], nucKeys) == LastKnown(before[..i], nucKeys)
  {
    if i > 0 {
      FilledLastKnown(before, after, nucKeys, i - 1);
      assert after[..i][..i - 1] == after[..i - 1];
      assert before[..i][..i - 1] == before[..i - 1];
      var r := before[i - 1];
      assert after[..i][i - 1] == Filled(r, nucKeys, LastKnown(before[..i - 1], nucKeys));
      if r.t in nucKeys {
        assert after[i - 1] == r;
      }
    }
  }
}
