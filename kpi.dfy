/** The accounting of a simulated year: the saturation sweep (`run_saturation_sweep`),
    which adds battery capacity step by step and records how the price spread and the
    battery's income decay, and the key indicators of one scenario (`extract_kpis`).
    Quantiles, means and medians are pandas numerics and are given as functions. */
module Kpi {
  import opened Wrappers
  import opened MeritOrder
  import opened DailyLp
  import opened AnnualLp

  /** Round-trip efficiency and wear cost per MWh cycled. */
  const RoundTripEff: real := 0.875
  const CycleCostEurPerMwh: real := 10.0

  /** The spread a full cycle must earn to pay for its wear, per MWh delivered. */
  const CycleCostPerMwh: real := CycleCostEurPerMwh / RoundTripEff

  // ---------------------------------------------------------------------------
  // Columns and sums over the simulation rows
  // ---------------------------------------------------------------------------

  function Charges(rows: seq<OutRow>): seq<real> {
    seq(|rows|, i requires 0 <= i < |rows| => rows[i].charge)
  }

  function Discharges(rows: seq<OutRow>): seq<real> {
    seq(|rows|, i requires 0 <= i < |rows| => rows[i].discharge)
  }

  function Baselines(rows: seq<OutRow>): seq<real> {
    seq(|rows|, i requires 0 <= i < |rows| => rows[i].baseline)
  }

  function AdjustedPrices(rows: seq<OutRow>): seq<real> {
    seq(|rows|, i requires 0 <= i < |rows| => rows[i].adjusted)
  }

  /** The net injection of every hour, discharge less charge, as the accounting
      recomputes it. */
  function NetColumn(rows: seq<OutRow>): seq<real> {
    seq(|rows|, i requires 0 <= i < |rows| => rows[i].discharge - rows[i].charge)
  }

  /** The sum of the first n values. */
  function SumTo(xs: seq<real>, n: nat): real
    requires n <= |xs|
  {
    if n == 0 then 0.0 else SumTo(xs, n - 1) + xs[n - 1]
  }

  /** The sum of the first n hours' charge, each capped at the surplus of its hour
      (`charge.clip(upper=surplus).sum()`). */
  function CappedSum(c: seq<real>, s: seq<real>, n: nat): real
    requires n <= |c| && n <= |s|
  {
    if n == 0 then 0.0 else CappedSum(c, s, n - 1) + Min(c[n - 1], s[n - 1])
  }

  /** Revenue from discharging less the cost of charging over the first n hours at
      prices `p`: the sum of p·d·ηd less the sum of p·c/ηc. */
  function ProfitTo(p: seq<real>, c: seq<real>, d: seq<real>, ec: real, ed: real, n: nat): real
    requires n <= |p| && n <= |c| && n <= |d| && ec != 0.0
  {
    DischargeRevenue(p, d, ed, n) - ChargeCost(p, c, ec, n)
  }

  /** The profit of a year of dispatch at prices `p`, one price per row. */
  function Profit(p: seq<real>, rows: seq<OutRow>, ec: real, ed: real): real
    requires |p| == |rows| && ec != 0.0
  {
    ProfitTo(p, Charges(rows), Discharges(rows), ec, ed, |rows|)
  }

  /** The change in profit from moving the prices from `pb` to `pa`, hour by hour:
      the price change times what one MWh of the hour's dispatch earns net of
      efficiency. */
  function PriceShiftGain(pa: seq<real>, pb: seq<real>, c: seq<real>, d: seq<real>, ec: real, ed: real, n: nat): real
    requires n <= |pa| && n <= |pb| && n <= |c| && n <= |d| && ec != 0.0
  {
    if n == 0 then 0.0
    else PriceShiftGain(pa, pb, c, d, ec, ed, n - 1) + ShiftTerm(pa[n - 1] - pb[n - 1], c[n - 1], d[n - 1], ec, ed)
  }

  /** One hour's share of the gain: a price change `dp` times the hour's discharge
      net of efficiency less its charge grossed up by efficiency. */
  function ShiftTerm(dp: real, c: real, d: real, ec: real, ed: real): real
    requires ec != 0.0
  {
    dp * (ed * d - c / ec)
  }

  /** The net position in GWh: discharge less charge over all hours, per 1000. */
  lemma {:induction false} NetSplits(rows: seq<OutRow>, n: nat)
    requires n <= |rows|
    ensures SumTo(NetColumn(rows), n) == SumTo(Discharges(rows), n) - SumTo(Charges(rows), n)
  {
    if n > 0 {
      NetSplits(rows, n - 1);
    }
  }

  /** Capping every hour's charge at a non-negative surplus keeps the sum between 0
      and both the total charge and the total surplus: the battery cannot save more
      renewable energy than it absorbed nor more than there was. */
  lemma {:induction false} CappedSumBounds(c: seq<real>, s: seq<real>, n: nat)
    requires n <= |c| && n <= |s|
    requires forall i | 0 <= i < n :: c[i] >= 0.0 && s[i] >= 0.0
    ensures 0.0 <= CappedSum(c, s, n) <= SumTo(c, n)
    ensures CappedSum(c, s, n) <= SumTo(s, n)
  {
    if n > 0 {
      CappedSumBounds(c, s, n - 1);
    }
  }

  /** Profit at one set of prices less profit at another is the price shift weighted
      by what each hour's dispatch earns. */
  lemma {:induction false} ProfitGap(pa: seq<real>, pb: seq<real>, c: seq<real>, d: seq<real>, ec: real, ed: real, n: nat)
    requires n <= |pa| && n <= |pb| && n <= |c| && n <= |d| && ec != 0.0
    ensures ProfitTo(pa, c, d, ec, ed, n) - ProfitTo(pb, c, d, ec, ed, n) == PriceShiftGain(pa, pb, c, d, ec, ed, n)
  {
    if n > 0 {
      var k := n - 1;
      ProfitGap(pa, pb, c, d, ec, ed, k);
      var q := c[k] / ec;
      assert pa[k] / ec * c[k] == pa[k] * q && pb[k] / ec * c[k] == pb[k] * q by {
        assert q * ec == c[k];
        assert pa[k] / ec * ec == pa[k] && pb[k] / ec * ec == pb[k];
      }
      assert (pa[k] - pb[k]) * (ed * d[k] - q) == pa[k] * ed * d[k] - pa[k] * q - (pb[k] * ed * d[k] - pb[k] * q);
    }
  }

  /** In an hour that only charges or only discharges, a price moved against the
      battery's injection by a non-negative slope never raises its income. */
  lemma CannibalHour(c: real, d: real, s: real, ec: real, ed: real)
    requires c >= 0.0 && d >= 0.0 && (c == 0.0 || d == 0.0) && s >= 0.0 && ValidEff(ec, ed)
    ensures (-(d - c) * s) * (ed * d - c / ec) <= 0.0
  {
    if c == 0.0 {
      assert (-(d - c) * s) * (ed * d - c / ec) == -(d * d * (s * ed));
      assert d * d * (s * ed) >= 0.0;
    } else {
      var q := c / ec;
      assert q >= 0.0;
      assert (-(d - c) * s) * (ed * d - c / ec) == -(c * s * q);
      assert c * s * q >= 0.0;
    }
  }

  /** The slope the feedback applies to an hour: the slope of the load's segment, or
      the top slope when the load is missing. */
  function ImpactSlope(load: Option<real>, m: MeritModel): (s: real)
    ensures s == m.slope0 || s == m.slope1 || s == m.slope2
    ensures load.None? ==> s == m.slope2
  {
    if load.Some? then SegmentSlope(m, load.value) else m.slope2
  }

  /** The merit-order impact of an hour is minus the injection times the hour's
      slope. */
  lemma ImpactHasSlope(net: real, load: Option<real>, m: MeritModel)
    ensures FeedbackImpact(net, load, m) == -net * ImpactSlope(load, m)
  {
  }

  /** The hours a simulation with price feedback dispatches, none of them charging and
      discharging at once. */
  predicate ExclusiveDispatch(rows: seq<OutRow>) {
    forall i | 0 <= i < |rows| ::
      rows[i].charge >= 0.0 && rows[i].discharge >= 0.0 && (rows[i].charge == 0.0 || rows[i].discharge == 0.0)
  }

  /** Cannibalisation: when the battery's own injection moves the prices along a
      merit order of non-negative slopes, the profit it realises at the adjusted
      prices is at most the profit it expected at the baseline prices. */
  lemma {:induction false} RealizedAtMostArbitrage(rows: seq<OutRow>, hours: seq<HourRow>, st: Settings, n: nat)
    requires n <= |rows| == |hours| && ValidEff(st.ec, st.ed)
    requires st.feedback && st.merit.Some?
    requires st.merit.value.slope0 >= 0.0 && st.merit.value.slope1 >= 0.0 && st.merit.value.slope2 >= 0.0
    requires forall i | 0 <= i < |rows| :: RowFollows(rows[i], hours[i], st)
    requires ExclusiveDispatch(rows)
    ensures ProfitTo(AdjustedPrices(rows), Charges(rows), Discharges(rows), st.ec, st.ed, n)
         <= ProfitTo(Baselines(rows), Charges(rows), Discharges(rows), st.ec, st.ed, n)
  {
    var pa, pb, c, d := AdjustedPrices(rows), Baselines(rows), Charges(rows), Discharges(rows);
    GainNonPositive(rows, hours, st, n);
    ProfitGap(pa, pb, c, d, st.ec, st.ed, n);
  }

  /** The price-shift gain of feedback-adjusted rows is never positive. */
  lemma {:induction false} GainNonPositive(rows: seq<OutRow>, hours: seq<HourRow>, st: Settings, n: nat)
    requires n <= |rows| == |hours| && ValidEff(st.ec, st.ed)
    requires st.feedback && st.merit.Some?
    requires st.merit.value.slope0 >= 0.0 && st.merit.value.slope1 >= 0.0 && st.merit.value.slope2 >= 0.0
    requires forall i | 0 <= i < |rows| :: RowFollows(rows[i], hours[i], st)
    requires ExclusiveDispatch(rows)
    ensures PriceShiftGain(AdjustedPrices(rows), Baselines(rows), Charges(rows), Discharges(rows), st.ec, st.ed, n) <= 0.0
  {
    if n > 0 {
      var k := n - 1;
      GainNonPositive(rows, hours, st, k);
      HourGain(rows[k], hours[k], st);
      assert AdjustedPrices(rows)[k] == rows[k].adjusted && Baselines(rows)[k] == rows[k].baseline;
      assert Charges(rows)[k] == rows[k].charge && Discharges(rows)[k] == rows[k].discharge;
      assert ShiftTerm(AdjustedPrices(rows)[k] - Baselines(rows)[k], Charges(rows)[k], Discharges(rows)[k], st.ec, st.ed) <= 0.0;
    }
  }

  /** One hour's share of the price-shift gain under feedback is never positive. */
  lemma HourGain(row: OutRow, hr: HourRow, st: Settings)
    requires ValidEff(st.ec, st.ed) && st.feedback && st.merit.Some?
    requires st.merit.value.slope0 >= 0.0 && st.merit.value.slope1 >= 0.0 && st.merit.value.slope2 >= 0.0
    requires RowFollows(row, hr, st)
    requires row.charge >= 0.0 && row.discharge >= 0.0 && (row.charge == 0.0 || row.discharge == 0.0)
    ensures ShiftTerm(row.adjusted - row.baseline, row.charge, row.discharge, st.ec, st.ed) <= 0.0
  {
    var m := st.merit.value;
    ImpactHasSlope(row.netBess, LoadOf(hr, st, m), m);
    var s := ImpactSlope(LoadOf(hr, st, m), m);
    assert row.adjusted - row.baseline == -(row.discharge - row.charge) * s;
    CannibalHour(row.charge, row.discharge, s, st.ec, st.ed);
  }

  // ---------------------------------------------------------------------------
  // Curtailment
  // ---------------------------------------------------------------------------

  /** The renewable surplus of an hour in the sweep: minus the residual load when it
      is negative, a missing residual load counting as 0. */
  function SweepSurplus(hr: HourRow): (s: real)
    ensures s >= 0.0
    ensures s > 0.0 <==> hr.residual.Some? && hr.residual.value < 0.0
    ensures s > 0.0 ==> s == -hr.residual.value
  {
    Max(0.0, -hr.residual.GetOr(0.0))
  }

  /** The surplus aligned to the simulation rows; an hour of the simulation the frame
      does not have gets 0. */
  function SurplusColumn(hours: seq<HourRow>, n: nat): (s: seq<real>)
    ensures |s| == n && forall i | 0 <= i < n :: s[i] >= 0.0
  {
    seq(n, i requires 0 <= i < n => if i < |hours| then SweepSurplus(hours[i]) else 0.0)
  }

  /** One hour of the frame as the indicators read it: the hour as the simulation saw
      it and the generation components and demand. */
  datatype FrameHour = FrameHour(hr: HourRow, solar: Option<real>, wind: Option<real>,
                                 nuclear: Option<real>, demand: Option<real>)

  /** The surplus the indicators use: from the residual-load column when the frame
      has one, otherwise solar plus wind plus nuclear less demand; missing values
      count as 0 and a deficit as no surplus. */
  function FrameSurplus(h: FrameHour, hasResidual: bool): (s: real)
    ensures s >= 0.0
  {
    if hasResidual then SweepSurplus(h.hr)
    else Max(0.0, h.solar.GetOr(0.0) + h.wind.GetOr(0.0) + h.nuclear.GetOr(0.0) - h.demand.GetOr(0.0))
  }

  /** Both ways of measuring the surplus agree on an hour whose components are all
      known and whose residual load is demand less the three of them. */
  lemma SurplusWaysAgree(h: FrameHour)
    requires h.solar.Some? && h.wind.Some? && h.nuclear.Some? && h.demand.Some?
    requires h.hr.residual == Some(h.demand.value - h.solar.value - h.wind.value - h.nuclear.value)
    ensures FrameSurplus(h, true) == FrameSurplus(h, false)
  {
  }

  // ---------------------------------------------------------------------------
  // The saturation sweep
  // ---------------------------------------------------------------------------

  /** The capacity steps (GWh) the sweep takes when none are given. */
  const DefaultSteps: seq<real> := [0.0, 2.0, 4.0, 6.0, 8.0, 10.0, 12.0, 14.0, 15.0]

  /** One row of the sweep. */
  datatype SweepRow = SweepRow(capacityGwh: real, spread: real, peak: real, trough: real,
                               profitMeur: real, cycles: real, peakReduction: real,
                               floorIncrease: real, decayPct: real, reSavedGwh: real,
                               netExportGwh: real)

  /** The market without a battery, against which every step is measured. */
  datatype Baseline = Baseline(peak: real, trough: real, spread: real)

  /** Why the sweep fails: a step with a battery on a frame without hours (the
      annual run cannot index its empty result), a step with a battery before any
      baseline was recorded (the baseline variables are not yet bound), a zero
      baseline spread (the decay divides by it), or no steps at all (the empty result
      cannot be indexed by capacity). */
  datatype SweepError =
    | EmptyFrame(capacityGwh: real)
    | NoBaseline(capacityGwh: real)
    | ZeroBaselineSpread(capacityGwh: real)
    | NoSteps

  /** The sweep after some steps: the rows so far and the baseline if recorded, or
      the error that stopped it. */
  datatype SweepState = Running(rows: seq<SweepRow>, base: Option<Baseline>) | Stopped(err: SweepError)

  /** What the sweep runs on: the frame in days, the merit model, the efficiencies
      and the first and last hour of the frame. */
  datatype SweepInput = SweepInput(days: seq<seq<HourRow>>, merit: MeritModel, ec: real, ed: real,
                                   firstHour: int, lastHour: int)

  /** The number of calendar days the frame spans (`(last - first).days + 1`). */
  function SpanDays(first: int, last: int): int {
    (last - first) / 24 + 1
  }

  /** The run of one step: the requested capacity in MWh, four hours of power, price
      feedback on, the residual-load column present, no neighbours. */
  function StepSettings(inp: SweepInput, capMwh: real): (st: Settings)
    ensures st.power * 4.0 == st.capacity && st.feedback && st.merit == Some(inp.merit)
  {
    Settings(capMwh, capMwh / 4.0, inp.ec, inp.ed, Some(inp.merit), true, true, [])
  }

  /** The baseline of the frame: 95th and 5th percentiles of the known prices. */
  function BaselineOf(inp: SweepInput, quantile: (seq<real>, real) -> real): (b: Baseline)
    ensures b.spread == b.peak - b.trough
  {
    var valid := KnownPrices(AllHours(inp.days));
    var peak := quantile(valid, 0.95);
    var trough := quantile(valid, 0.05);
    Baseline(peak, trough, peak - trough)
  }

  /** The row of the capacity-0 step: the baseline prices and every battery figure 0. */
  function BaselineRow(b: Baseline): SweepRow {
    SweepRow(0.0, b.spread, b.peak, b.trough, 0.0, 0.0, 0.0, 0.0, 0.0, 0.0, 0.0)
  }

  /** The row of a step with a battery, from its simulation `sim`. */
  function StepRow(capGwh: real, sim: seq<OutRow>, b: Baseline, inp: SweepInput,
                   quantile: (seq<real>, real) -> real): (row: SweepRow)
    requires b.spread != 0.0 && inp.firstHour <= inp.lastHour && inp.ec != 0.0
    ensures row.capacityGwh == capGwh
    ensures row.decayPct * b.spread == (b.spread - row.spread) * 100.0
    ensures row.peakReduction == b.peak - row.peak && row.floorIncrease == row.trough - b.trough
  {
    var capMwh := capGwh * 1000.0;
    var adj := AdjustedPrices(sim);
    var peak := quantile(adj, 0.95);
    var trough := quantile(adj, 0.05);
    var spread := peak - trough;
    var decay := (b.spread - spread) / b.spread * 100.0;
    var profit := Profit(Baselines(sim), sim, inp.ec, inp.ed);
    var charged := SumTo(Charges(sim), |sim|);
    var nDays := SpanDays(inp.firstHour, inp.lastHour);
    var cycles := if capMwh > 0.0 then (charged / capMwh) / (nDays as real) else 0.0;
    var reSaved := CappedSum(Charges(sim), SurplusColumn(AllHours(inp.days), |sim|), |sim|) / 1000.0;
    var net := SumTo(NetColumn(sim), |sim|) / 1000.0;
    SweepRow(capGwh, spread, peak, trough, profit / 1000000.0, cycles, b.peak - peak, trough - b.trough,
             decay, reSaved, net)
  }

  /** The step's simulation: the annual dispatch at the step's capacity. */
  function StepSim(capGwh: real, inp: SweepInput, median: seq<real> -> real,
                   solve: LpProblem -> LpOutcome): seq<OutRow>
    requires ValidEff(inp.ec, inp.ed) && SolverShaped(solve)
  {
    Annual(inp.days, StepSettings(inp, capGwh * 1000.0), median, solve).rows
  }

  /** One step of the sweep. */
  function SweepStep(s: SweepState, capGwh: real, inp: SweepInput, quantile: (seq<real>, real) -> real,
                     median: seq<real> -> real, solve: LpProblem -> LpOutcome): (next: SweepState)
    requires ValidEff(inp.ec, inp.ed) && SolverShaped(solve) && inp.firstHour <= inp.lastHour
    ensures s.Stopped? ==> next == s
    ensures next.Running? ==>
      && s.Running? && |next.rows| == |s.rows| + 1 && next.rows[..|s.rows|] == s.rows
      && next.rows[|s.rows|].capacityGwh == capGwh
  {
    if s.Stopped? then s
    else if capGwh == 0.0 then
      var b := BaselineOf(inp, quantile);
      Running(s.rows + [BaselineRow(b)], Some(b))
    else if AllHours(inp.days) == [] then Stopped(EmptyFrame(capGwh))
    else if s.base.None? then Stopped(NoBaseline(capGwh))
    else if s.base.value.spread == 0.0 then Stopped(ZeroBaselineSpread(capGwh))
    else Running(s.rows + [StepRow(capGwh, StepSim(capGwh, inp, median, solve), s.base.value, inp, quantile)], s.base)
  }

  /** The sweep over `steps`, in order. */
  function Sweep(steps: seq<real>, inp: SweepInput, quantile: (seq<real>, real) -> real,
                 median: seq<real> -> real, solve: LpProblem -> LpOutcome): (s: SweepState)
    requires ValidEff(inp.ec, inp.ed) && SolverShaped(solve) && inp.firstHour <= inp.lastHour
    ensures s.Running? ==> |s.rows| == |steps|
  {
    if steps == [] then Running([], None)
    else SweepStep(Sweep(steps[..|steps| - 1], inp, quantile, median, solve), steps[|steps| - 1], inp, quantile, median, solve)
  }

  /** The spread at which the battery is saturated: a cycle no longer earns its wear. */
  predicate Saturated(row: SweepRow) {
    row.spread < CycleCostPerMwh
  }

  /** The saturation threshold is 80/7 EUR/MWh, about 11.43. */
  lemma SaturatedThreshold(row: SweepRow)
    ensures Saturated(row) <==> row.spread * 7.0 < 80.0
  {
  }

  /** `run_saturation_sweep`: one row per step, recording the baseline at capacity 0
      and measuring every other step against it; stops at the first step that cannot
      be measured. Without steps there is no table to index: that fails too. A
      finished sweep has one row per step. */
  method RunSaturationSweep(steps: seq<real>, inp: SweepInput, quantile: (seq<real>, real) -> real,
                            median: seq<real> -> real, solve: LpProblem -> LpOutcome) returns (out: SweepState)
    requires ValidEff(inp.ec, inp.ed) && SolverShaped(solve) && inp.firstHour <= inp.lastHour
    ensures steps == [] ==> out == Stopped(NoSteps)
    ensures steps != [] ==> out == Sweep(steps, inp, quantile, median, solve)
    ensures out.Running? ==> |out.rows| == |steps| > 0
  {
    if steps == [] {
      return Stopped(NoSteps);
    }
    var rows: seq<SweepRow> := [];
    var base: Option<Baseline> := None;
    for i := 0 to |steps|
      invariant Sweep(steps[..i], inp, quantile, median, solve) == Running(rows, base)
    {
      SweepExtends(steps, i, inp, quantile, median, solve);
      var next := SweepOnce(rows, base, steps[i], inp, quantile, median, solve);
      if next.Stopped? {
        out := next;
        SweepStopsForGood(steps, i + 1, inp, quantile, median, solve);
        return;
      }
      rows, base := next.rows, next.base;
    }
    assert steps[..|steps|] == steps;
    out := Running(rows, base);
    SweepRowsPerStep(steps, inp, quantile, median, solve);
  }

  /** One pass of the sweep's loop: at capacity 0 the baseline is measured and
      recorded; otherwise the year is simulated at the step's capacity and measured
      against the recorded baseline. */
  method SweepOnce(rows: seq<SweepRow>, base: Option<Baseline>, capGwh: real, inp: SweepInput,
                   quantile: (seq<real>, real) -> real, median: seq<real> -> real,
                   solve: LpProblem -> LpOutcome) returns (next: SweepState)
    requires ValidEff(inp.ec, inp.ed) && SolverShaped(solve) && inp.firstHour <= inp.lastHour
    ensures next == SweepStep(Running(rows, base), capGwh, inp, quantile, median, solve)
  {
    if capGwh == 0.0 {
      var b := BaselineOf(inp, quantile);
      return Running(rows + [BaselineRow(b)], Some(b));
    }
    var sim := RunAnnualLp(inp.days, StepSettings(inp, capGwh * 1000.0), median, solve);
    if sim.None? {
      return Stopped(EmptyFrame(capGwh));
    }
    if base.None? {
      return Stopped(NoBaseline(capGwh));
    }
    if base.value.spread == 0.0 {
      return Stopped(ZeroBaselineSpread(capGwh));
    }
    next := Running(rows + [StepRow(capGwh, sim.value, base.value, inp, quantile)], base);
  }

  /** The sweep over one more step is one more step of the sweep. */
  lemma SweepExtends(steps: seq<real>, i: nat, inp: SweepInput, quantile: (seq<real>, real) -> real,
                     median: seq<real> -> real, solve: LpProblem -> LpOutcome)
    requires ValidEff(inp.ec, inp.ed) && SolverShaped(solve) && inp.firstHour <= inp.lastHour
    requires i < |steps|
    ensures Sweep(steps[..i + 1], inp, quantile, median, solve)
         == SweepStep(Sweep(steps[..i], inp, quantile, median, solve), steps[i], inp, quantile, median, solve)
  {
    assert steps[..i + 1][..i] == steps[..i];
  }

  /** Once the sweep has stopped, the remaining steps leave it stopped with the same
      error. */
  lemma {:induction false} SweepStopsForGood(steps: seq<real>, k: nat, inp: SweepInput,
                                             quantile: (seq<real>, real) -> real,
                                             median: seq<real> -> real, solve: LpProblem -> LpOutcome)
    requires ValidEff(inp.ec, inp.ed) && SolverShaped(solve) && inp.firstHour <= inp.lastHour
    requires k <= |steps| && Sweep(steps[..k], inp, quantile, median, solve).Stopped?
    ensures Sweep(steps, inp, quantile, median, solve) == Sweep(steps[..k], inp, quantile, median, solve)
    decreases |steps| - k
  {
    if k < |steps| {
      assert steps[..k + 1][..k] == steps[..k];
      SweepStopsForGood(steps, k + 1, inp, quantile, median, solve);
    } else {
      assert steps[..k] == steps;
    }
  }

  /** A running sweep has one row per step, each labelled with its step's capacity,
      and has recorded a baseline exactly when some step was 0. */
  lemma {:induction false} SweepRowsPerStep(steps: seq<real>, inp: SweepInput, quantile: (seq<real>, real) -> real,
                                            median: seq<real> -> real, solve: LpProblem -> LpOutcome)
    requires ValidEff(inp.ec, inp.ed) && SolverShaped(solve) && inp.firstHour <= inp.lastHour
    ensures var s := Sweep(steps, inp, quantile, median, solve);
      s.Running? ==>
        && |s.rows| == |steps|
        && (forall i | 0 <= i < |steps| :: s.rows[i].capacityGwh == steps[i])
        && (s.base.Some? <==> 0.0 in steps)
  {
    if steps != [] {
      var n := |steps| - 1;
      var prev := Sweep(steps[..n], inp, quantile, median, solve);
      SweepRowsPerStep(steps[..n], inp, quantile, median, solve);
      assert steps == steps[..n] + [steps[n]];
      var s := Sweep(steps, inp, quantile, median, solve);
      if s.Running? {
        assert prev.Running?;
        if steps[n] == 0.0 {
          assert s.rows == prev.rows + [BaselineRow(BaselineOf(inp, quantile))];
        } else {
          assert prev.base.Some?;
          assert 0.0 in steps[..n];
        }
      }
    }
  }

  /** The row of a capacity-0 step reports no profit, no cycling, no decay, no
      curtailment saved and no change of net position, with the baseline spread
      between the baseline peak and trough. */
  lemma {:induction false} SweepZeroStepRow(steps: seq<real>, i: nat, inp: SweepInput, quantile: (seq<real>, real) -> real,
                                            median: seq<real> -> real, solve: LpProblem -> LpOutcome)
    requires ValidEff(inp.ec, inp.ed) && SolverShaped(solve) && inp.firstHour <= inp.lastHour
    requires i < |steps| && steps[i] == 0.0
    requires Sweep(steps, inp, quantile, median, solve).Running?
    ensures var s := Sweep(steps, inp, quantile, median, solve);
      && i < |s.rows|
      && s.rows[i] == BaselineRow(BaselineOf(inp, quantile))
      && s.rows[i].profitMeur == 0.0 && s.rows[i].cycles == 0.0 && s.rows[i].decayPct == 0.0
      && s.rows[i].reSavedGwh == 0.0 && s.rows[i].netExportGwh == 0.0
      && s.rows[i].spread == s.rows[i].peak - s.rows[i].trough
    decreases |steps|
  {
    SweepRowsPerStep(steps, inp, quantile, median, solve);
    var n := |steps| - 1;
    var prev := Sweep(steps[..n], inp, quantile, median, solve);
    assert steps[..n + 1] == steps;
    if i < n {
      SweepZeroStepRow(steps[..n], i, inp, quantile, median, solve);
      SweepRowsPerStep(steps[..n], inp, quantile, median, solve);
    }
  }

  /** The only ways a sweep with a baseline can stop: a zero baseline spread, or a
      frame without hours. */
  predicate StopsOnData(s: SweepState, inp: SweepInput) {
    s.Stopped? ==> s.err.ZeroBaselineSpread? || (s.err.EmptyFrame? && AllHours(inp.days) == [])
  }

  /** One step after a baseline was recorded keeps the baseline or stops on data. */
  lemma StepAfterBaseline(s: SweepState, capGwh: real, inp: SweepInput, quantile: (seq<real>, real) -> real,
                          median: seq<real> -> real, solve: LpProblem -> LpOutcome)
    requires ValidEff(inp.ec, inp.ed) && SolverShaped(solve) && inp.firstHour <= inp.lastHour
    requires s.Running? && s.base.Some?
    ensures var next := SweepStep(s, capGwh, inp, quantile, median, solve);
      StopsOnData(next, inp) && (next.Running? ==> next.base.Some?)
  {
  }

  /** With the default steps, which start at 0, the sweep can only stop on an empty
      frame or a zero baseline spread, never for want of a baseline. */
  lemma DefaultStepsHaveBaseline(inp: SweepInput, quantile: (seq<real>, real) -> real,
                                 median: seq<real> -> real, solve: LpProblem -> LpOutcome)
    requires ValidEff(inp.ec, inp.ed) && SolverShaped(solve) && inp.firstHour <= inp.lastHour
    ensures StopsOnData(Sweep(DefaultSteps, inp, quantile, median, solve), inp)
  {
    assert DefaultSteps[..1][..0] == [];
    ContinuesWithBaseline(DefaultSteps, 1, inp, quantile, median, solve);
  }

  /** Once a baseline is recorded, the sweep can only stop on an empty frame or a
      zero baseline spread. */
  lemma {:induction false} ContinuesWithBaseline(steps: seq<real>, k: nat, inp: SweepInput,
                                                 quantile: (seq<real>, real) -> real,
                                                 median: seq<real> -> real, solve: LpProblem -> LpOutcome)
    requires ValidEff(inp.ec, inp.ed) && SolverShaped(solve) && inp.firstHour <= inp.lastHour
    requires k <= |steps|
    requires Sweep(steps[..k], inp, quantile, median, solve).Running?
    requires Sweep(steps[..k], inp, quantile, median, solve).base.Some?
    ensures StopsOnData(Sweep(steps, inp, quantile, median, solve), inp)
    decreases |steps| - k
  {
    if k < |steps| {
      SweepExtends(steps, k, inp, quantile, median, solve);
      StepAfterBaseline(Sweep(steps[..k], inp, quantile, median, solve), steps[k], inp, quantile, median, solve);
      var next := Sweep(steps[..k + 1], inp, quantile, median, solve);
      if next.Stopped? {
        SweepStopsForGood(steps, k + 1, inp, quantile, median, solve);
      } else {
        ContinuesWithBaseline(steps, k + 1, inp, quantile, median, solve);
      }
    } else {
      assert steps[..k] == steps;
    }
  }

  /** Rows within their dispatch limits charge a non-negative amount every hour. */
  lemma ChargesNonNegative(rows: seq<OutRow>, cap: real, power: real)
    requires forall i | 0 <= i < |rows| :: RowWithin(rows[i], cap, power)
    ensures forall i | 0 <= i < |rows| :: Charges(rows)[i] >= 0.0
  {
    forall i | 0 <= i < |rows| ensures Charges(rows)[i] >= 0.0 {
      assert RowWithin(rows[i], cap, power);
    }
  }

  /** In a step with a positive capacity, the curtailment saved lies between 0 and the
      energy charged (GWh), cycling is non-negative, and the decay is the fall of the
      spread as a percentage of the baseline spread. */
  lemma StepRowBounds(capGwh: real, b: Baseline, inp: SweepInput, quantile: (seq<real>, real) -> real,
                      median: seq<real> -> real, solve: LpProblem -> LpOutcome)
    requires ValidEff(inp.ec, inp.ed) && SolverShaped(solve) && inp.firstHour <= inp.lastHour
    requires capGwh > 0.0 && b.spread != 0.0
    ensures var sim := StepSim(capGwh, inp, median, solve);
      var row := StepRow(capGwh, sim, b, inp, quantile);
      && 0.0 <= row.reSavedGwh <= SumTo(Charges(sim), |sim|) / 1000.0
      && row.cycles >= 0.0
  {
    var st := StepSettings(inp, capGwh * 1000.0);
    var sim := StepSim(capGwh, inp, median, solve);
    AnnualWithinLimits(inp.days, st, median, solve);
    ChargesNonNegative(sim, ClampedCap(st), ClampedPower(st));
    var c := Charges(sim);
    var s := SurplusColumn(AllHours(inp.days), |sim|);
    CappedSumBounds(c, s, |sim|);
    var nDays := SpanDays(inp.firstHour, inp.lastHour);
    assert nDays >= 1;
    var charged := SumTo(c, |sim|);
    assert charged >= 0.0;
    var capMwh := capGwh * 1000.0;
    assert charged / capMwh >= 0.0;
  }

  // ---------------------------------------------------------------------------
  // Key indicators of one scenario
  // ---------------------------------------------------------------------------

  /** The indicators `extract_kpis` reports (the season label aside). */
  datatype Kpis = Kpis(avgPriceBase: real, avgPriceSim: real, avgPriceDelta: real,
                       peakBase: real, peakSim: real, peakReduction: real,
                       troughBase: real, troughSim: real, floorIncrease: real,
                       reSavedGwh: real, netBessGwh: real, cycles: real,
                       arbitrageMeur: real, realizedMeur: real, chargeGwh: real)

  /** The storage the indicators normalise cycles by: 15 GWh. */
  const KpiCapacityGwh: real := BessCapacityMwh / 1000.0

  /** The hours in which `keep` holds, of the first n values of `xs`
      (`xs[mask]`). */
  function SelectTo(xs: seq<real>, keep: seq<bool>, n: nat): (sel: seq<real>)
    requires n <= |xs| && n <= |keep|
    ensures |sel| <= n
  {
    if n == 0 then []
    else SelectTo(xs, keep, n - 1) + (if keep[n - 1] then [xs[n - 1]] else [])
  }

  /** The peak hours: baseline price at or above the threshold. */
  function PeakMask(base: seq<real>, threshold: real): seq<bool> {
    seq(|base|, i requires 0 <= i < |base| => base[i] >= threshold)
  }

  /** The floor hours: baseline price at or below the threshold. */
  function FloorMask(base: seq<real>, threshold: real): seq<bool> {
    seq(|base|, i requires 0 <= i < |base| => base[i] <= threshold)
  }

  /** A mask picks as many hours from one column as from another: the peak and floor
      prices before and after are averaged over the same hours. */
  lemma {:induction false} SelectSameHours(a: seq<real>, b: seq<real>, keep: seq<bool>, n: nat)
    requires n <= |a| && n <= |b| && n <= |keep|
    ensures |SelectTo(a, keep, n)| == |SelectTo(b, keep, n)|
  {
    if n > 0 {
      SelectSameHours(a, b, keep, n - 1);
    }
  }

  /** Every baseline price of a peak hour is at or above the threshold, and every
      one of a floor hour at or below it. */
  lemma {:induction false} MaskedPricesBeyond(base: seq<real>, threshold: real, n: nat)
    requires n <= |base|
    ensures forall x | x in SelectTo(base, PeakMask(base, threshold), n) :: x >= threshold
    ensures forall x | x in SelectTo(base, FloorMask(base, threshold), n) :: x <= threshold
  {
    if n > 0 {
      MaskedPricesBeyond(base, threshold, n - 1);
    }
  }

  /** The days the indicators divide by: the span of the frame, at least 1. */
  function KpiDays(first: int, last: int): (d: int)
    ensures d >= 1 && d >= SpanDays(first, last)
  {
    if SpanDays(first, last) >= 1 then SpanDays(first, last) else 1
  }

  /** `extract_kpis`: baseline prices are the frame's prices, the missing ones filled
      with their median; peak and floor hours are picked by the 90th and 10th
      percentiles of the baseline and the adjusted prices averaged over the same hours;
      profits at baseline and at adjusted prices. */
  function ExtractKpis(frame: seq<FrameHour>, hasResidual: bool, sim: seq<OutRow>,
                       firstHour: int, lastHour: int, ec: real, ed: real,
                       median: seq<real> -> real, quantile: (seq<real>, real) -> real,
                       mean: seq<real> -> real): (k: Kpis)
    requires |frame| == |sim| && ec != 0.0
    ensures k.avgPriceDelta == k.avgPriceSim - k.avgPriceBase
    ensures k.peakReduction == k.peakBase - k.peakSim && k.floorIncrease == k.troughSim - k.troughBase
  {
    var n := |sim|;
    var base := BasePrices(frame, median);
    var adj := AdjustedPrices(sim);
    var peakMask := PeakMask(base, quantile(base, 0.90));
    var floorMask := FloorMask(base, quantile(base, 0.10));
    var peakBase := mean(SelectTo(base, peakMask, n));
    var peakSim := mean(SelectTo(adj, peakMask, n));
    var troughBase := mean(SelectTo(base, floorMask, n));
    var troughSim := mean(SelectTo(adj, floorMask, n));
    var surplus := seq(n, i requires 0 <= i < n => FrameSurplus(frame[i], hasResidual));
    var reSaved := CappedSum(Charges(sim), surplus, n) / 1000.0;
    var net := SumTo(NetColumn(sim), n) / 1000.0;
    var charge := SumTo(Charges(sim), n) / 1000.0;
    var cycles := (charge / KpiCapacityGwh) / (KpiDays(firstHour, lastHour) as real);
    var arbitrage := Profit(base, sim, ec, ed);
    var realized := Profit(adj, sim, ec, ed);
    Kpis(mean(base), mean(adj), mean(adj) - mean(base), peakBase, peakSim, peakBase - peakSim,
         troughBase, troughSim, troughSim - troughBase, reSaved, net, cycles,
         arbitrage / 1000000.0, realized / 1000000.0, charge)
  }

  /** The frame's prices with the missing ones filled by the median of the known
      ones. */
  function BasePrices(frame: seq<FrameHour>, median: seq<real> -> real): (p: seq<real>)
    ensures |p| == |frame|
  {
    DayPrices(seq(|frame|, i requires 0 <= i < |frame| => frame[i].hr), median)
  }

  /** The realized profit differs from the arbitrage profit by the price shift
      weighted by each hour's dispatch; with price feedback off (adjusted prices equal
      to the baseline) the two coincide. */
  lemma KpiProfitGap(frame: seq<FrameHour>, hasResidual: bool, sim: seq<OutRow>, firstHour: int, lastHour: int,
                     ec: real, ed: real, median: seq<real> -> real, quantile: (seq<real>, real) -> real,
                     mean: seq<real> -> real)
    requires |frame| == |sim| && ec != 0.0
    ensures var k := ExtractKpis(frame, hasResidual, sim, firstHour, lastHour, ec, ed, median, quantile, mean);
      (k.realizedMeur - k.arbitrageMeur) * 1000000.0
        == PriceShiftGain(AdjustedPrices(sim), BasePrices(frame, median), Charges(sim), Discharges(sim), ec, ed, |sim|)
    ensures AdjustedPrices(sim) == BasePrices(frame, median) ==>
      var k := ExtractKpis(frame, hasResidual, sim, firstHour, lastHour, ec, ed, median, quantile, mean);
      k.realizedMeur == k.arbitrageMeur
  {
    ProfitGap(AdjustedPrices(sim), BasePrices(frame, median), Charges(sim), Discharges(sim), ec, ed, |sim|);
  }

  /** Cannibalisation in the indicators: when every hour of the frame has a price and
      the simulation follows those hours under price feedback along a merit order of
      non-negative slopes, the realized profit is at most the arbitrage profit. The
      frame's filled prices then are the simulation's baseline prices. */
  lemma KpiRealizedAtMost(frame: seq<FrameHour>, hasResidual: bool, sim: seq<OutRow>, firstHour: int, lastHour: int,
                          st: Settings, median: seq<real> -> real, quantile: (seq<real>, real) -> real,
                          mean: seq<real> -> real)
    requires |frame| == |sim| && ValidEff(st.ec, st.ed)
    requires st.feedback && st.merit.Some?
    requires st.merit.value.slope0 >= 0.0 && st.merit.value.slope1 >= 0.0 && st.merit.value.slope2 >= 0.0
    requires forall i | 0 <= i < |frame| :: frame[i].hr.price.Some? && RowFollows(sim[i], frame[i].hr, st)
    requires ExclusiveDispatch(sim)
    ensures var k := ExtractKpis(frame, hasResidual, sim, firstHour, lastHour, st.ec, st.ed, median, quantile, mean);
      k.realizedMeur <= k.arbitrageMeur
  {
    var hours := seq(|frame|, i requires 0 <= i < |frame| => frame[i].hr);
    var base := BasePrices(frame, median);
    assert base == DayPrices(hours, median);
    forall i | 0 <= i < |sim| ensures base[i] == Baselines(sim)[i] {
      assert hours[i] == frame[i].hr;
    }
    assert base == Baselines(sim);
    RealizedAtMostArbitrage(sim, hours, st, |sim|);
  }

  /** With non-negative dispatch, the indicators' curtailment saved lies between 0 and
      the energy charged, cycling is non-negative, and the net position is the
      energy discharged less the energy charged. */
  lemma KpiBounds(frame: seq<FrameHour>, hasResidual: bool, sim: seq<OutRow>, firstHour: int, lastHour: int,
                  ec: real, ed: real, median: seq<real> -> real, quantile: (seq<real>, real) -> real,
                  mean: seq<real> -> real)
    requires |frame| == |sim| && ec != 0.0
    requires forall i | 0 <= i < |sim| :: sim[i].charge >= 0.0
    ensures var k := ExtractKpis(frame, hasResidual, sim, firstHour, lastHour, ec, ed, median, quantile, mean);
      && 0.0 <= k.reSavedGwh <= k.chargeGwh
      && k.cycles >= 0.0
      && k.netBessGwh * 1000.0 == SumTo(Discharges(sim), |sim|) - SumTo(Charges(sim), |sim|)
  {
    var n := |sim|;
    var surplus := seq(n, i requires 0 <= i < n => FrameSurplus(frame[i], hasResidual));
    CappedSumBounds(Charges(sim), surplus, n);
    NetSplits(sim, n);
    var charge := SumTo(Charges(sim), n) / 1000.0;
    assert charge >= 0.0;
    assert charge / KpiCapacityGwh >= 0.0;
  }
}
