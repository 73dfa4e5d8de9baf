/** The year-long dispatch (`run_annual_lp`): the daily program solved day after
    day, the state of charge at the end of each day handed to the next, and, with
    price feedback, every hour's price moved along the merit order by the battery's
    net injection. The grouping of the hourly frame into calendar days is pandas
    plumbing; the days arrive here already grouped, in order. */
module AnnualLp {
  import opened Wrappers
  import opened MeritOrder
  import opened DailyLp

  /** The largest battery the study considers: 15 GWh of storage, 3.75 GW of power. */
  const BessCapacityMwh: real := 15000.0
  const BessPowerMw: real := 3750.0

  /** Interconnector export limits (MW) toward each neighbour. */
  const MaxExport: map<string, real> := map["ro" := 1891.0, "gr" := 886.0, "tr" := 490.0]

  /** One hour of the frame as the annual loop reads it: the hour, its price, its
      residual load (missing when a component was missing) and the best neighbour
      price aligned to it (missing when no neighbour price was found nearby). */
  datatype HourRow = HourRow(t: int, price: Option<real>, residual: Option<real>, bestExport: Option<real>)

  /** One output row: dispatch, state of charge, net injection, and the adjusted and
      baseline prices of the hour. */
  datatype OutRow = OutRow(t: int, charge: real, discharge: real, soc: real, netBess: real,
                           adjusted: real, baseline: real)

  /** The arguments of a run: requested capacity and power, efficiencies, the merit
      model if any, whether to apply price feedback, whether the frame carries a
      residual-load column, and the neighbours whose prices are given. */
  datatype Settings = Settings(capacity: real, power: real, ec: real, ed: real,
                               merit: Option<MeritModel>, feedback: bool, hasResidual: bool,
                               neighbors: seq<string>)

  /** The progress of the day loop: the rows so far and the state of charge handed
      to the next day. */
  datatype Progress = Progress(rows: seq<OutRow>, soc: real)

  /** The export capacity: the limits of the given neighbours added up, an unknown
      neighbour counting 0. */
  function ExportCap(countries: seq<string>): (cap: real)
    ensures cap >= 0.0
  {
    if countries == [] then 0.0
    else ExportCap(countries[..|countries| - 1]) + MapGet(MaxExport, countries[|countries| - 1], 0.0)
  }

  /** The capacity the day's program is given: the request, at most 15 GWh. */
  function ClampedCap(st: Settings): (cap: real)
    ensures cap <= BessCapacityMwh && (cap == st.capacity || cap == BessCapacityMwh)
  {
    Min(st.capacity, BessCapacityMwh)
  }

  /** The power the day's program is given: the request, at most 3.75 GW. */
  function ClampedPower(st: Settings): (p: real)
    ensures p <= BessPowerMw && (p == st.power || p == BessPowerMw)
  {
    Min(st.power, BessPowerMw)
  }

  /** The prices the day actually has, in order. */
  function KnownPrices(day: seq<HourRow>): (ps: seq<real>)
    ensures |ps| <= |day|
  {
    if day == [] then []
    else
      var last := day[|day| - 1];
      KnownPrices(day[..|day| - 1]) + (if last.price.Some? then [last.price.value] else [])
  }

  /** The day's prices with the missing ones filled by the median of the known ones. */
  function DayPrices(day: seq<HourRow>, median: seq<real> -> real): (p: seq<real>)
    ensures |p| == |day|
    ensures forall t | 0 <= t < |day| :: day[t].price.Some? ==> p[t] == day[t].price.value
    ensures forall t | 0 <= t < |day| :: day[t].price.None? ==> p[t] == median(KnownPrices(day))
  {
    var med := median(KnownPrices(day));
    seq(|day|, t requires 0 <= t < |day| => day[t].price.GetOr(med))
  }

  /** The day's export prices when neighbours are given: the best neighbour price,
      or the filled domestic price where there is none. */
  function DayExport(day: seq<HourRow>, prices: seq<real>, st: Settings): (ep: Option<seq<real>>)
    requires |prices| == |day|
    ensures ep.Some? <==> |st.neighbors| > 0
    ensures ep.Some? ==> |ep.value| == |day|
  {
    if |st.neighbors| > 0 then
      Some(seq(|day|, t requires 0 <= t < |day| => day[t].bestExport.GetOr(prices[t])))
    else None
  }

  /** The residual load the feedback reads for an hour: the hour's own with a
      residual-load column, the mean of the two breakpoints without one. */
  function LoadOf(hr: HourRow, st: Settings, m: MeritModel): Option<real> {
    if st.hasResidual then hr.residual else Some((m.bp0 + m.bp1) / 2.0)
  }

  /** The price impact of an hour whose residual load may be missing: a missing load
      fails both breakpoint comparisons and takes the top segment. */
  function FeedbackImpact(net: real, load: Option<real>, m: MeritModel): (dp: real)
    ensures load.Some? ==> dp == PriceImpact(net, load.value, m)
    ensures load.None? ==> dp == -net * m.slope2
  {
    if load.Some? then PriceImpact(net, load.value, m) else -net * m.slope2
  }

  /** Every program handed to the solver gets back a vector of the right length
      whenever the solver reports success. */
  ghost predicate SolverShaped(solve: LpProblem -> LpOutcome) {
    forall p: LpProblem :: WellShaped(solve(p), |p.c|)
  }

  /** The result of a day that has hours, started from `soc`. */
  function DaySolved(day: seq<HourRow>, soc: real, st: Settings, median: seq<real> -> real,
                     solve: LpProblem -> LpOutcome): (r: DayResult)
    requires |day| > 0 && ValidEff(st.ec, st.ed) && SolverShaped(solve)
    ensures |r.charge| == |r.discharge| == |r.soc| == |day| && r.finalSoc == r.soc[|day| - 1]
  {
    var prices := DayPrices(day, median);
    var p := DailyProblem(prices, DayExport(day, prices, st), ExportCap(st.neighbors), soc,
                          ClampedCap(st), ClampedPower(st), st.ec, st.ed);
    assert WellShaped(solve(p), |p.c|);
    HandleOutcome(solve(p), |day|, soc, ClampedCap(st), ClampedPower(st))
  }

  /** The adjusted prices of a day: with feedback and a merit model, each price moved
      by the impact of the hour's net injection; otherwise the prices themselves. */
  function Adjusted(day: seq<HourRow>, prices: seq<real>, r: DayResult, st: Settings): (adj: seq<real>)
    requires |prices| == |day| && |r.charge| == |day| && |r.discharge| == |day|
    ensures |adj| == |day|
  {
    if st.feedback && st.merit.Some? then
      seq(|day|, t requires 0 <= t < |day| =>
        prices[t] + FeedbackImpact(r.discharge[t] - r.charge[t], LoadOf(day[t], st, st.merit.value), st.merit.value))
    else prices
  }

  /** The output rows of a day. */
  function DayRows(day: seq<HourRow>, prices: seq<real>, adj: seq<real>, r: DayResult): (rows: seq<OutRow>)
    requires |prices| == |day| && |adj| == |day|
    requires |r.charge| == |day| && |r.discharge| == |day| && |r.soc| == |day|
    ensures |rows| == |day|
  {
    seq(|day|, t requires 0 <= t < |day| =>
      OutRow(day[t].t, r.charge[t], r.discharge[t], r.soc[t], r.discharge[t] - r.charge[t], adj[t], prices[t]))
  }

  /** The day loop as a fold: no rows and an empty battery before the first day; a
      day without hours is skipped; any other day is solved from the state the
      previous day handed on, and hands on its own final state. */
  function Annual(days: seq<seq<HourRow>>, st: Settings, median: seq<real> -> real,
                  solve: LpProblem -> LpOutcome): (pr: Progress)
    requires ValidEff(st.ec, st.ed) && SolverShaped(solve)
    ensures |pr.rows| == HourCount(days)
  {
    if days == [] then Progress([], 0.0)
    else
      var prev := Annual(days[..|days| - 1], st, median, solve);
      var day := days[|days| - 1];
      if |day| == 0 then prev
      else
        var r := DaySolved(day, prev.soc, st, median, solve);
        var prices := DayPrices(day, median);
        Progress(prev.rows + DayRows(day, prices, Adjusted(day, prices, r, st), r), r.finalSoc)
  }

  /** The number of hours of all days. */
  function HourCount(days: seq<seq<HourRow>>): nat {
    if days == [] then 0 else HourCount(days[..|days| - 1]) + |days[|days| - 1]|
  }

  /** The hours of all days, in order. */
  function AllHours(days: seq<seq<HourRow>>): seq<HourRow> {
    ConcatMap((d: seq<HourRow>) => d, days)
  }

  /** The prices the optimiser sees, day after day: each day's prices with its
      missing ones filled by that day's median. */
  function AllPrices(days: seq<seq<HourRow>>, median: seq<real> -> real): seq<real> {
    if days == [] then []
    else AllPrices(days[..|days| - 1], median) + DayPrices(days[|days| - 1], median)
  }

  // ---------------------------------------------------------------------------
  // The loop
  // ---------------------------------------------------------------------------

  /** The adjusted prices, written into a copy of the day's prices hour by hour. */
  method AdjustPrices(day: seq<HourRow>, prices: seq<real>, r: DayResult, st: Settings) returns (adjusted: seq<real>)
    requires |prices| == |day| && |r.charge| == |day| && |r.discharge| == |day|
    ensures adjusted == Adjusted(day, prices, r, st)
  {
    if st.feedback && st.merit.Some? {
      var m := st.merit.value;
      var h := |prices|;
      var arr := new real[h](k requires 0 <= k < h => prices[k]);
      for t := 0 to h
        invariant forall k | 0 <= k < h ::
          arr[k] == if k < t then prices[k] + FeedbackImpact(r.discharge[k] - r.charge[k], LoadOf(day[k], st, m), m)
                    else prices[k]
      {
        arr[t] := prices[t] + FeedbackImpact(r.discharge[t] - r.charge[t], LoadOf(day[t], st, m), m);
      }
      adjusted := arr[..];
      assert forall k | 0 <= k < h :: adjusted[k] == Adjusted(day, prices, r, st)[k];
    } else {
      adjusted := prices;
    }
  }

  /** The rows of one day, appended hour by hour. */
  method AppendDayRows(rows: seq<OutRow>, day: seq<HourRow>, prices: seq<real>, adj: seq<real>, r: DayResult)
    returns (out: seq<OutRow>)
    requires |prices| == |day| && |adj| == |day|
    requires |r.charge| == |day| && |r.discharge| == |day| && |r.soc| == |day|
    ensures out == rows + DayRows(day, prices, adj, r)
  {
    out := rows;
    for t := 0 to |day|
      invariant out == rows + DayRows(day, prices, adj, r)[..t]
    {
      var net := r.discharge[t] - r.charge[t];
      out := out + [OutRow(day[t].t, r.charge[t], r.discharge[t], r.soc[t], net, adj[t], prices[t])];
      assert DayRows(day, prices, adj, r)[..t + 1] == DayRows(day, prices, adj, r)[..t] + [DayRows(day, prices, adj, r)[t]];
    }
    assert DayRows(day, prices, adj, r)[..|day|] == DayRows(day, prices, adj, r);
  }

  /** `run_annual_lp`: solve every day in order, threading the state of charge, and
      collect one row per hour. A frame without hours gives no rows, and indexing the
      empty result by hour fails: that is None. */
  method RunAnnualLp(days: seq<seq<HourRow>>, st: Settings, median: seq<real> -> real,
                     solve: LpProblem -> LpOutcome) returns (out: Option<seq<OutRow>>)
    requires ValidEff(st.ec, st.ed) && SolverShaped(solve)
    ensures out.None? <==> AllHours(days) == []
    ensures out.Some? ==> out.value == Annual(days, st, median, solve).rows
  {
    var exportCap := ExportCap(st.neighbors);
    var rows := [];
    var soc := 0.0;
    for i := 0 to |days|
      invariant Progress(rows, soc) == Annual(days[..i], st, median, solve)
    {
      assert days[..i + 1][..i] == days[..i];
      var day := days[i];
      var prices := DayPrices(day, median);
      var h := |prices|;
      if h == 0 {
        continue;
      }
      var cap := Min(st.capacity, BessCapacityMwh);
      var pw := Min(st.power, BessPowerMw);
      var ep := DayExport(day, prices, st);
      ghost var p := DailyProblem(prices, ep, exportCap, soc, cap, pw, st.ec, st.ed);
      assert WellShaped(solve(p), |p.c|);
      var r := RunDailyLp(prices, ep, exportCap, soc, cap, pw, st.ec, st.ed, solve);
      soc := r.finalSoc;
      var adjusted := AdjustPrices(day, prices, r, st);
      rows := AppendDayRows(rows, day, prices, adjusted, r);
    }
    assert days[..|days|] == days;
    AnnualFollowsHours(days, st, median, solve);
    if rows == [] {
      return None;
    }
    out := Some(rows);
  }

  // ---------------------------------------------------------------------------
  // What the loop promises
  // ---------------------------------------------------------------------------

  /** How an output row follows its input hour: same hour, the known price as
      baseline, the net injection as discharge less charge, and the adjusted price
      as the baseline moved by the merit-order impact under feedback, the baseline
      otherwise. */
  predicate RowFollows(row: OutRow, hr: HourRow, st: Settings) {
    && row.t == hr.t
    && (hr.price.Some? ==> row.baseline == hr.price.value)
    && row.netBess == row.discharge - row.charge
    && (st.feedback && st.merit.Some? ==>
          row.adjusted == row.baseline + FeedbackImpact(row.netBess, LoadOf(hr, st, st.merit.value), st.merit.value))
    && (!(st.feedback && st.merit.Some?) ==> row.adjusted == row.baseline)
  }

  /** Every row of a day follows its hour. */
  lemma DayRowsFollow(day: seq<HourRow>, median: seq<real> -> real, r: DayResult, st: Settings)
    requires |r.charge| == |day| && |r.discharge| == |day| && |r.soc| == |day|
    ensures var prices := DayPrices(day, median);
      var rows := DayRows(day, prices, Adjusted(day, prices, r, st), r);
      forall t | 0 <= t < |day| :: RowFollows(rows[t], day[t], st) && rows[t].baseline == prices[t]
  {
  }

  /** One output row per input hour, in order, each following its hour. */
  lemma {:induction false} AnnualFollowsHours(days: seq<seq<HourRow>>, st: Settings, median: seq<real> -> real,
                                              solve: LpProblem -> LpOutcome)
    requires ValidEff(st.ec, st.ed) && SolverShaped(solve)
    ensures var rows := Annual(days, st, median, solve).rows;
      && |rows| == |AllHours(days)| == |AllPrices(days, median)|
      && forall i | 0 <= i < |rows| :: RowFollows(rows[i], AllHours(days)[i], st) && rows[i].baseline == AllPrices(days, median)[i]
  {
    if days != [] {
      var n := |days| - 1;
      var prev := Annual(days[..n], st, median, solve);
      AnnualFollowsHours(days[..n], st, median, solve);
      ConcatMapStep((d: seq<HourRow>) => d, days, n);
      assert days[..n + 1] == days;
      var day := days[n];
      var before := AllHours(days[..n]);
      assert AllHours(days) == before + day;
      if |day| > 0 {
        var r := DaySolved(day, prev.soc, st, median, solve);
        var prices := DayPrices(day, median);
        var dayRows := DayRows(day, prices, Adjusted(day, prices, r, st), r);
        DayRowsFollow(day, median, r, st);
        var rows := prev.rows + dayRows;
        var all := AllPrices(days, median);
        assert all == AllPrices(days[..n], median) + prices;
        forall i | 0 <= i < |rows|
          ensures RowFollows(rows[i], AllHours(days)[i], st) && rows[i].baseline == all[i]
        {
          if i < |prev.rows| {
            assert rows[i] == prev.rows[i] && AllHours(days)[i] == before[i];
            assert all[i] == AllPrices(days[..n], median)[i];
          } else {
            assert rows[i] == dayRows[i - |prev.rows|] && AllHours(days)[i] == day[i - |before|];
            assert all[i] == prices[i - |prev.rows|];
          }
        }
      } else {
        assert AllHours(days) == before;
        assert AllPrices(days, median) == AllPrices(days[..n], median) + [];
      }
    }
  }

  /** The dispatch limits of a row: charge and discharge within [0, power], state of
      charge within [0, cap]. */
  predicate RowWithin(row: OutRow, cap: real, power: real) {
    && 0.0 <= row.charge <= power
    && 0.0 <= row.discharge <= power
    && 0.0 <= row.soc <= cap
  }

  /** With a non-negative capacity and power request, every row keeps the clamped
      limits, and the state handed from day to day stays within [0, clamped cap]. */
  lemma {:induction false} AnnualWithinLimits(days: seq<seq<HourRow>>, st: Settings, median: seq<real> -> real,
                                              solve: LpProblem -> LpOutcome)
    requires ValidEff(st.ec, st.ed) && SolverShaped(solve)
    requires 0.0 <= st.capacity && 0.0 <= st.power
    ensures var pr := Annual(days, st, median, solve);
      && 0.0 <= pr.soc <= ClampedCap(st)
      && forall i | 0 <= i < |pr.rows| :: RowWithin(pr.rows[i], ClampedCap(st), ClampedPower(st))
  {
    if days != [] {
      var n := |days| - 1;
      var prev := Annual(days[..n], st, median, solve);
      AnnualWithinLimits(days[..n], st, median, solve);
      var day := days[n];
      if |day| > 0 {
        var prices := DayPrices(day, median);
        var p := DailyProblem(prices, DayExport(day, prices, st), ExportCap(st.neighbors), prev.soc,
                              ClampedCap(st), ClampedPower(st), st.ec, st.ed);
        assert WellShaped(solve(p), |p.c|);
        OutcomeWithinBounds(solve(p), |day|, prev.soc, ClampedCap(st), ClampedPower(st));
        var r := DaySolved(day, prev.soc, st, median, solve);
        var dayRows := DayRows(day, prices, Adjusted(day, prices, r, st), r);
        forall t | 0 <= t < |day| ensures RowWithin(dayRows[t], ClampedCap(st), ClampedPower(st)) {
        }
        var rows := prev.rows + dayRows;
        forall i | 0 <= i < |rows| ensures RowWithin(rows[i], ClampedCap(st), ClampedPower(st)) {
          if i >= |prev.rows| {
            assert rows[i] == dayRows[i - |prev.rows|];
          }
        }
      }
    }
  }

  /** The state handed to the next day is the state of charge of the last hour
      processed, and the empty battery before any hour is processed. */
  lemma {:induction false} AnnualSocIsLastRow(days: seq<seq<HourRow>>, st: Settings, median: seq<real> -> real,
                                              solve: LpProblem -> LpOutcome)
    requires ValidEff(st.ec, st.ed) && SolverShaped(solve)
    ensures var pr := Annual(days, st, median, solve);
      pr.soc == if pr.rows == [] then 0.0 else pr.rows[|pr.rows| - 1].soc
  {
    if days != [] {
      var n := |days| - 1;
      AnnualSocIsLastRow(days[..n], st, median, solve);
      var day := days[n];
      if |day| > 0 {
        var prev := Annual(days[..n], st, median, solve);
        var r := DaySolved(day, prev.soc, st, median, solve);
        var prices := DayPrices(day, median);
        LastRowOfDay(prev.rows, day, prices, Adjusted(day, prices, r, st), r);
      }
    }
  }

  /** The last row after appending a day's rows carries the day's last state of
      charge. */
  lemma LastRowOfDay(rows: seq<OutRow>, day: seq<HourRow>, prices: seq<real>, adj: seq<real>, r: DayResult)
    requires |day| > 0 && |prices| == |day| && |adj| == |day|
    requires |r.charge| == |day| && |r.discharge| == |day| && |r.soc| == |day|
    ensures var all := rows + DayRows(day, prices, adj, r);
      all != [] && all[|all| - 1].soc == r.soc[|day| - 1]
  {
    var dayRows := DayRows(day, prices, adj, r);
    assert (rows + dayRows)[|rows + dayRows| - 1] == dayRows[|day| - 1];
  }

  /** A day without hours changes nothing: no rows, and the state of charge passes
      through untouched. */
  lemma AnnualEmptyDay(days: seq<seq<HourRow>>, st: Settings, median: seq<real> -> real,
                       solve: LpProblem -> LpOutcome)
    requires ValidEff(st.ec, st.ed) && SolverShaped(solve)
    ensures Annual(days + [[]], st, median, solve) == Annual(days, st, median, solve)
  {
    assert (days + [[]])[..|days|] == days;
  }

  /** The first day with hours starts from an empty battery. */
  lemma AnnualFirstDay(day: seq<HourRow>, st: Settings, median: seq<real> -> real,
                       solve: LpProblem -> LpOutcome)
    requires ValidEff(st.ec, st.ed) && SolverShaped(solve) && |day| > 0
    ensures Annual([day], st, median, solve).soc == DaySolved(day, 0.0, st, median, solve).finalSoc
  {
    assert [day][..0] == [];
  }

  /** The export capacity of the known neighbours given once each is at most their
      total, 3267 MW. */
  lemma ExportCapAtMost(countries: seq<string>)
    requires forall i, j | 0 <= i < j < |countries| :: countries[i] != countries[j]
    ensures ExportCap(countries) <= 3267.0
  {
    ExportCapKnown(countries, {});
  }

  /** Adding up the limits of distinct neighbours outside `seen` gives at most the
      limits of the known neighbours outside `seen`. */
  lemma {:induction false} ExportCapKnown(countries: seq<string>, seen: set<string>)
    requires forall i, j | 0 <= i < j < |countries| :: countries[i] != countries[j]
    requires forall i | 0 <= i < |countries| :: countries[i] !in seen
    ensures ExportCap(countries) <= LimitOutside(seen)
  {
    if countries != [] {
      var n := |countries| - 1;
      var c := countries[n];
      ExportCapKnown(countries[..n], seen + {c});
      LimitOutsideSplit(seen, c);
    }
  }

  /** The total limit of the known neighbours not in `seen`. */
  function LimitOutside(seen: set<string>): (total: real)
    ensures total >= 0.0
  {
    (if "ro" in seen then 0.0 else 1891.0) + (if "gr" in seen then 0.0 else 886.0)
    + (if "tr" in seen then 0.0 else 490.0)
  }

  /** Taking a neighbour out of the remaining ones removes its limit. */
  lemma LimitOutsideSplit(seen: set<string>, c: string)
    requires c !in seen
    ensures LimitOutside(seen + {c}) + MapGet(MaxExport, c, 0.0) == LimitOutside(seen)
  {
  }
}
