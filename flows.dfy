/** Cross-border flows (`parse_bilateral_flows`): per neighbouring country, the net
    flow at each hour (export minus import, positive when Bulgaria exports) and the
    peak export. */
module Flows {
  import opened Wrappers
  import opened Points

  /** `FLOW_COUNTRIES`. */
  const FlowCountries: seq<string> := ["ro", "tr", "gr"]

  /** The export and import series of one country; None for a direction whose data
      is absent. */
  datatype CountryData = CountryData(exports: Option<seq<TimeSeries>>, imports: Option<seq<TimeSeries>>)

  /** The hourly map of one direction, as `parse_flow_direction` returns it. */
  function DirectionValues(d: Option<seq<TimeSeries>>): map<int, real> {
    if d.None? then map[] else PointsByTimestamp(AllPeriods(d.value))
  }

  /** The data of one country (`bilateral_data.get(country, {})`). */
  function CountryOf(data: map<string, CountryData>, country: string): CountryData {
    MapGet(data, country, CountryData(None, None))
  }

  /** `peak` is the largest export value, floored at 0. */
  predicate IsPeak(peak: real, exports: map<int, real>) {
    && peak >= 0.0
    && (forall ts | ts in exports :: exports[ts] <= peak)
    && (peak == 0.0 || exists ts :: ts in exports && exports[ts] == peak)
  }

  /** The peak is determined by the exports: there is only one. */
  lemma PeakUnique(p: real, q: real, exports: map<int, real>)
    requires IsPeak(p, exports) && IsPeak(q, exports)
    ensures p == q
  {
    if p != 0.0 {
      var ts :| ts in exports && exports[ts] == p;
      assert p <= q;
    }
    if q != 0.0 {
      var ts :| ts in exports && exports[ts] == q;
      assert q <= p;
    }
  }

  /** `net` is the net flow map of the two directions: every hour of either, export
      minus import with a missing side counting as 0; and `peak` is the peak export. */
  predicate IsNetFlow(net: map<int, real>, peak: real, exportVals: map<int, real>, importVals: map<int, real>) {
    && net.Keys == exportVals.Keys + importVals.Keys
    && (forall ts | ts in net :: net[ts] == MapGet(exportVals, ts, 0.0) - MapGet(importVals, ts, 0.0))
    && IsPeak(peak, exportVals)
  }

  /** The net flow map of the two directions as one value: every hour of either,
      export minus import with a missing side counting as 0. */
  function NetMap(exportVals: map<int, real>, importVals: map<int, real>): map<int, real> {
    map ts | ts in exportVals.Keys + importVals.Keys :: MapGet(exportVals, ts, 0.0) - MapGet(importVals, ts, 0.0)
  }

  /** The net flow map is determined by the two directions. */
  lemma NetFlowIsNetMap(net: map<int, real>, peak: real, exportVals: map<int, real>, importVals: map<int, real>)
    requires IsNetFlow(net, peak, exportVals, importVals)
    ensures net == NetMap(exportVals, importVals)
  {
    var m := NetMap(exportVals, importVals);
    assert net.Keys == m.Keys;
    assert forall ts | ts in net :: net[ts] == m[ts];
  }

  /** The net flow map of one country: every hour of either direction, export minus
      import with a missing side counting as 0; and the peak export. The hours are
      visited in set order, which matters to neither result. */
  method NetFlow(exportVals: map<int, real>, importVals: map<int, real>) returns (net: map<int, real>, peak: real)
    ensures IsNetFlow(net, peak, exportVals, importVals)
  {
    var allTs := exportVals.Keys + importVals.Keys;
    net := map[];
    peak := 0.0;
    ghost var done: set<int> := {};
    while allTs != {}
      invariant allTs + done == exportVals.Keys + importVals.Keys
      invariant allTs !! done
      invariant net.Keys == done
      invariant forall ts | ts in net :: net[ts] == MapGet(exportVals, ts, 0.0) - MapGet(importVals, ts, 0.0)
      invariant peak >= 0.0
      invariant forall ts | ts in done && ts in exportVals :: exportVals[ts] <= peak
      invariant peak == 0.0 || exists ts :: ts in done && ts in exportVals && exportVals[ts] == peak
      decreases allTs
    {
      NonEmptyHasMember(allTs);
      var ts :| ts in allTs;
      var exp := MapGet(exportVals, ts, 0.0);
      var imp := MapGet(importVals, ts, 0.0);
      var n := exp - imp;
      net := net[ts := n];
      if exp > peak {
        peak := exp;
      }
      allTs := allTs - {ts};
      done := done + {ts};
    }
  }

  /** `parse_bilateral_flows`: for each country of `FlowCountries`, its net flow map
      and its peak export. */
  method ParseBilateralFlows(data: map<string, CountryData>)
    returns (flows: map<string, map<int, real>>, maxExport: map<string, real>)
    ensures flows.Keys == maxExport.Keys == set c | c in FlowCountries
    ensures forall c | c in flows ::
      IsNetFlow(flows[c], maxExport[c], DirectionValues(CountryOf(data, c).exports), DirectionValues(CountryOf(data, c).imports))
  {
    flows := map[];
    maxExport := map[];
    for i := 0 to |FlowCountries|
      invariant flows.Keys == maxExport.Keys == set c | c in FlowCountries[..i]
      invariant forall c | c in flows ::
        IsNetFlow(flows[c], maxExport[c], DirectionValues(CountryOf(data, c).exports), DirectionValues(CountryOf(data, c).imports))
    {
      var country := FlowCountries[i];
      var countryData := CountryOf(data, country);
      var exportVals := ParseFlowDirection(countryData.exports);
      var importVals := ParseFlowDirection(countryData.imports);
      var net, peak := NetFlow(exportVals, importVals);
      flows := flows[country := net];
      maxExport := maxExport[country := peak];
      assert FlowCountries[..i + 1] == FlowCountries[..i] + [country];
    }
    assert FlowCountries[..|FlowCountries|] == FlowCountries;
  }
}
