/** The daily arbitrage linear program (`run_daily_lp`). For a day of H hours the
    variables are laid out as x = [c_0..c_{H-1}, d_0..d_{H-1}, s_0..s_{H-1}]: charge
    and discharge power (MW) and state of charge (MWh). The program is built in
    arrays, handed to a solver, and the solver's answer is either replaced by an idle
    day or clipped to the physical bounds. The solver is a parameter: any function
    from problems to outcomes. */
module DailyLp {
  import opened Wrappers

  /** A linear program in the solver's form: minimise c.x subject to
      aUb x <= bUb, aEq x == bEq and bounds[j].lo <= x[j] <= bounds[j].hi. */
  datatype LpProblem = LpProblem(c: seq<real>, aUb: seq<seq<real>>, bUb: seq<real>,
                                 aEq: seq<seq<real>>, bEq: seq<real>, bounds: seq<Bound>)

  /** The interval a variable must lie in. */
  datatype Bound = Bound(lo: real, hi: real)

  /** v lies in the interval b. */
  predicate InBound(b: Bound, v: real) {
    b.lo <= v <= b.hi
  }

  /** What the solver returns: a status code (0 optimal, 1 iteration limit, others
      failures), a vector and the objective value at that vector. */
  datatype LpOutcome = LpOutcome(status: int, x: seq<real>, fun: real)

  /** The day's dispatch: charge, discharge and state of charge per hour, the profit
      and the state of charge handed to the next day. */
  datatype DayResult = DayResult(charge: seq<real>, discharge: seq<real>, soc: seq<real>,
                                 profit: real, finalSoc: real)

  /** Charge and discharge efficiencies are fractions of unity (the source uses the
      square root of the round-trip efficiency 0.875 for both). */
  predicate ValidEff(ec: real, ed: real) {
    0.0 < ec <= 1.0 && 0.0 < ed <= 1.0
  }

  /** The statuses after which the source reads the solver's vector. */
  predicate Solved(o: LpOutcome) {
    o.status == 0 || o.status == 1
  }

  /** The solver returns a vector with one entry per variable whenever it reports
      success, as the source's solver does. */
  predicate WellShaped(o: LpOutcome, n: nat) {
    Solved(o) ==> |o.x| == n
  }

  // ---------------------------------------------------------------------------
  // Sums
  // ---------------------------------------------------------------------------

  /** The dot product of the first n entries of a and x. */
  function Dot(a: seq<real>, x: seq<real>, n: nat): real
    requires n <= |a| && n <= |x|
  {
    if n == 0 then 0.0 else Dot(a, x, n - 1) + a[n - 1] * x[n - 1]
  }

  /** The cost of charging over the first n hours: price times charge, grossed up by
      the charge efficiency. */
  function ChargeCost(p: seq<real>, c: seq<real>, ec: real, n: nat): real
    requires n <= |p| && n <= |c| && ec != 0.0
  {
    if n == 0 then 0.0 else ChargeCost(p, c, ec, n - 1) + p[n - 1] / ec * c[n - 1]
  }

  /** The revenue of discharging over the first n hours: price times discharge, net of
      the discharge efficiency. */
  function DischargeRevenue(p: seq<real>, d: seq<real>, ed: real, n: nat): real
    requires n <= |p| && n <= |d|
  {
    if n == 0 then 0.0 else DischargeRevenue(p, d, ed, n - 1) + p[n - 1] * ed * d[n - 1]
  }

  // ---------------------------------------------------------------------------
  // The program of one day
  // ---------------------------------------------------------------------------

  /** The discharge price: the better of the domestic and the export price in each
      hour when export prices are given and the interconnector capacity is positive,
      the domestic price otherwise. */
  function EffPrices(prices: seq<real>, exportPrices: Option<seq<real>>, exportCap: real): (eff: seq<real>)
    requires exportPrices.Some? ==> |exportPrices.value| == |prices|
    ensures |eff| == |prices|
  {
    if exportPrices.Some? && exportCap > 0.0 then
      seq(|prices|, t requires 0 <= t < |prices| => Max(prices[t], exportPrices.value[t]))
    else prices
  }

  /** Entry j of the objective: buying at price / ec per MW charged, selling at
      price * ed per MW discharged, nothing on the state of charge. */
  function ObjCoef(prices: seq<real>, eff: seq<real>, ec: real, ed: real, j: nat): real
    requires |eff| == |prices| && ValidEff(ec, ed) && j < 3 * |prices|
  {
    var h := |prices|;
    if j < h then prices[j] / ec else if j < 2 * h then -eff[j - h] * ed else 0.0
  }

  /** The objective vector. */
  function Objective(prices: seq<real>, eff: seq<real>, ec: real, ed: real): (c: seq<real>)
    requires |eff| == |prices| && ValidEff(ec, ed)
    ensures |c| == 3 * |prices|
  {
    seq(3 * |prices|, j requires 0 <= j < 3 * |prices| => ObjCoef(prices, eff, ec, ed, j))
  }

  /** Entry (t, j) of the equality matrix: row t says
      s_t - ec * c_t + d_t / ed - s_{t-1} == b_t. */
  function EqCoef(h: nat, ec: real, ed: real, t: nat, j: nat): real
    requires ValidEff(ec, ed)
  {
    if j == 2 * h + t then 1.0
    else if j == t then -ec
    else if j == h + t then 1.0 / ed
    else if t > 0 && j == 2 * h + t - 1 then -1.0
    else 0.0
  }

  /** Row t of the equality matrix. */
  function EqRow(h: nat, ec: real, ed: real, t: nat): (row: seq<real>)
    requires ValidEff(ec, ed)
    ensures |row| == 3 * h
  {
    seq(3 * h, j requires 0 <= j < 3 * h => EqCoef(h, ec, ed, t, j))
  }

  /** The right-hand side of the equalities: the initial state of charge in the first
      row, 0 in the others. */
  function EqRhs(h: nat, soc0: real): (b: seq<real>)
    ensures |b| == h
  {
    seq(h, t requires 0 <= t < h => if t == 0 then soc0 else 0.0)
  }

  /** Entry (t, j) of the inequality matrix: row t says c_t + d_t <= power. */
  function UbCoef(h: nat, t: nat, j: nat): real {
    if j == t || j == h + t then 1.0 else 0.0
  }

  /** Row t of the inequality matrix. */
  function UbRow(h: nat, t: nat): (row: seq<real>)
    ensures |row| == 3 * h
  {
    seq(3 * h, j requires 0 <= j < 3 * h => UbCoef(h, t, j))
  }

  /** The variable bounds: charge and discharge within [0, power], state of charge
      within [0, cap]. */
  function VarBounds(h: nat, cap: real, power: real): (b: seq<Bound>)
    ensures |b| == 3 * h
  {
    seq(3 * h, j requires 0 <= j < 3 * h => if j < 2 * h then Bound(0.0, power) else Bound(0.0, cap))
  }

  /** The program `run_daily_lp` hands to the solver. */
  function DailyProblem(prices: seq<real>, exportPrices: Option<seq<real>>, exportCap: real,
                        soc0: real, cap: real, power: real, ec: real, ed: real): (p: LpProblem)
    requires ValidEff(ec, ed) && (exportPrices.Some? ==> |exportPrices.value| == |prices|)
    ensures |p.c| == |p.bounds| == 3 * |prices|
    ensures |p.aUb| == |p.bUb| == |p.aEq| == |p.bEq| == |prices|
  {
    var h := |prices|;
    LpProblem(
      Objective(prices, EffPrices(prices, exportPrices, exportCap), ec, ed),
      seq(h, t requires 0 <= t < h => UbRow(h, t)),
      seq(h, _ => power),
      seq(h, t requires 0 <= t < h => EqRow(h, ec, ed, t)),
      EqRhs(h, soc0),
      VarBounds(h, cap, power))
  }

  /** x has one entry per variable and every row one entry per variable. */
  predicate Shaped(p: LpProblem, x: seq<real>) {
    && |x| == |p.c| == |p.bounds|
    && |p.aUb| == |p.bUb| && |p.aEq| == |p.bEq|
    && (forall i | 0 <= i < |p.aUb| :: |p.aUb[i]| == |x|)
    && (forall i | 0 <= i < |p.aEq| :: |p.aEq[i]| == |x|)
  }

  /** Every variable lies within its bounds. */
  predicate BoundsHold(p: LpProblem, x: seq<real>)
    requires Shaped(p, x)
  {
    forall j | 0 <= j < |x| :: InBound(p.bounds[j], x[j])
  }

  /** Every inequality row holds. */
  predicate UbHold(p: LpProblem, x: seq<real>)
    requires Shaped(p, x)
  {
    forall i | 0 <= i < |p.aUb| :: Dot(p.aUb[i], x, |x|) <= p.bUb[i]
  }

  /** Every equality row holds. */
  predicate EqHold(p: LpProblem, x: seq<real>)
    requires Shaped(p, x)
  {
    forall i | 0 <= i < |p.aEq| :: Dot(p.aEq[i], x, |x|) == p.bEq[i]
  }

  /** x satisfies every row and bound of the program. */
  predicate Feasible(p: LpProblem, x: seq<real>) {
    Shaped(p, x) && BoundsHold(p, x) && UbHold(p, x) && EqHold(p, x)
  }

  /** The charge of hour t in the variable vector. */
  function ChargeOf(x: seq<real>, h: nat, t: nat): real
    requires |x| == 3 * h && t < h
  {
    x[t]
  }

  /** The discharge of hour t in the variable vector. */
  function DischargeOf(x: seq<real>, h: nat, t: nat): real
    requires |x| == 3 * h && t < h
  {
    x[h + t]
  }

  /** The state of charge at the end of hour t in the variable vector. */
  function SocOf(x: seq<real>, h: nat, t: nat): real
    requires |x| == 3 * h && t < h
  {
    x[2 * h + t]
  }

  /** The state of charge of hour t before the hour's flows: the initial state for
      the first hour, the previous hour's state after it. */
  function PrevSoc(x: seq<real>, h: nat, soc0: real, t: nat): real
    requires |x| == 3 * h && t < h
  {
    if t == 0 then soc0 else SocOf(x, h, t - 1)
  }

  /** State-of-charge continuity: each hour's state is the previous one plus the
      charge times ec minus the discharge over ed. */
  predicate SocContinuous(x: seq<real>, h: nat, soc0: real, ec: real, ed: real)
    requires |x| == 3 * h && ed != 0.0
  {
    forall t | 0 <= t < h :: SocStep(x, h, soc0, ec, ed, t)
  }

  /** Continuity in hour t of the variable vector. */
  predicate SocStep(x: seq<real>, h: nat, soc0: real, ec: real, ed: real, t: nat)
    requires |x| == 3 * h && ed != 0.0 && t < h
  {
    SocOf(x, h, t) == PrevSoc(x, h, soc0, t) + ec * ChargeOf(x, h, t) - DischargeOf(x, h, t) / ed
  }

  /** Continuity in hour t of a day's charge, discharge and state-of-charge series:
      the state after hour t is the state before it (the initial state in the first
      hour) plus the charge times ec minus the discharge over ed. */
  predicate DayStep(c: seq<real>, d: seq<real>, s: seq<real>, soc0: real, ec: real, ed: real, t: nat)
    requires t < |c| && t < |d| && t < |s| && ed != 0.0
  {
    s[t] == (if t == 0 then soc0 else s[t - 1]) + ec * c[t] - d[t] / ed
  }

  /** Charge and discharge within [0, power] and the state of charge within
      [0, cap] in every hour. */
  predicate InBox(x: seq<real>, h: nat, cap: real, power: real)
    requires |x| == 3 * h
  {
    forall t | 0 <= t < h ::
      && 0.0 <= ChargeOf(x, h, t) && ChargeOf(x, h, t) <= power
      && 0.0 <= DischargeOf(x, h, t) && DischargeOf(x, h, t) <= power
      && 0.0 <= SocOf(x, h, t) && SocOf(x, h, t) <= cap
  }

  /** Charge and discharge share the power: their sum stays within it every hour. */
  predicate PowerShared(x: seq<real>, h: nat, power: real)
    requires |x| == 3 * h
  {
    forall t | 0 <= t < h :: ChargeOf(x, h, t) + DischargeOf(x, h, t) <= power
  }

  // ---------------------------------------------------------------------------
  // What the rows say
  // ---------------------------------------------------------------------------

  /** The partial dot product of an equality row: only its four non-zero entries
      contribute, each once its column is reached. */
  lemma {:induction false} EqRowPartial(h: nat, ec: real, ed: real, t: nat, x: seq<real>, n: nat)
    requires ValidEff(ec, ed) && t < h && |x| == 3 * h && n <= 3 * h
    ensures Dot(EqRow(h, ec, ed, t), x, n) ==
      (if t < n then -ec * x[t] else 0.0) + (if h + t < n then 1.0 / ed * x[h + t] else 0.0)
      + (if 2 * h + t < n then x[2 * h + t] else 0.0) - (if t > 0 && 2 * h + t - 1 < n then x[2 * h + t - 1] else 0.0)
  {
    if n > 0 {
      EqRowPartial(h, ec, ed, t, x, n - 1);
      var j := n - 1;
      assert EqRow(h, ec, ed, t)[j] == EqCoef(h, ec, ed, t, j);
    }
  }

  /** Equality row t, applied to x, is s_t - ec * c_t + d_t / ed - s_{t-1}
      (without the last term in the first row). */
  lemma EqRowDot(h: nat, ec: real, ed: real, t: nat, x: seq<real>)
    requires ValidEff(ec, ed) && t < h && |x| == 3 * h
    ensures Dot(EqRow(h, ec, ed, t), x, 3 * h) ==
      x[2 * h + t] - ec * x[t] + x[h + t] / ed - (if t > 0 then x[2 * h + t - 1] else 0.0)
  {
    EqRowPartial(h, ec, ed, t, x, 3 * h);
    assert 1.0 / ed * x[h + t] == x[h + t] / ed;
  }

  /** Equality row t holds exactly when hour t's state of charge is the previous
      one plus the charge times ec minus the discharge over ed. */
  lemma EqRowHolds(h: nat, ec: real, ed: real, soc0: real, t: nat, x: seq<real>)
    requires ValidEff(ec, ed) && t < h && |x| == 3 * h
    ensures (Dot(EqRow(h, ec, ed, t), x, 3 * h) == EqRhs(h, soc0)[t]) ==
      (SocOf(x, h, t) == PrevSoc(x, h, soc0, t) + ec * ChargeOf(x, h, t) - DischargeOf(x, h, t) / ed)
  {
    EqRowDot(h, ec, ed, t, x);
  }

  /** The partial dot product of an inequality row: the charge and the discharge of
      its hour, once reached. */
  lemma {:induction false} UbRowPartial(h: nat, t: nat, x: seq<real>, n: nat)
    requires t < h && |x| == 3 * h && n <= 3 * h
    ensures Dot(UbRow(h, t), x, n) == (if t < n then x[t] else 0.0) + (if h + t < n then x[h + t] else 0.0)
  {
    if n > 0 {
      UbRowPartial(h, t, x, n - 1);
      assert UbRow(h, t)[n - 1] == UbCoef(h, t, n - 1);
    }
  }

  /** The program of a day has the shape of a vector of 3H variables. */
  lemma DailyShaped(prices: seq<real>, exportPrices: Option<seq<real>>, exportCap: real,
                    soc0: real, cap: real, power: real, ec: real, ed: real, x: seq<real>)
    requires ValidEff(ec, ed) && (exportPrices.Some? ==> |exportPrices.value| == |prices|)
    ensures Shaped(DailyProblem(prices, exportPrices, exportCap, soc0, cap, power, ec, ed), x) <==> |x| == 3 * |prices|
  {
  }

  /** The variable bounds of the day's program hold exactly when charge, discharge
      and state of charge stay in their boxes. */
  lemma DailyBounds(prices: seq<real>, exportPrices: Option<seq<real>>, exportCap: real,
                    soc0: real, cap: real, power: real, ec: real, ed: real, x: seq<real>)
    requires ValidEff(ec, ed) && (exportPrices.Some? ==> |exportPrices.value| == |prices|)
    requires |x| == 3 * |prices|
    ensures var p := DailyProblem(prices, exportPrices, exportCap, soc0, cap, power, ec, ed);
      Shaped(p, x) && (BoundsHold(p, x) <==> InBox(x, |prices|, cap, power))
  {
    var h := |prices|;
    var p := DailyProblem(prices, exportPrices, exportCap, soc0, cap, power, ec, ed);
    assert p.bounds == VarBounds(h, cap, power);
    BoxBounds(x, h, cap, power);
  }

  /** The variable bounds hold exactly when the three blocks stay in their boxes. */
  lemma BoxBounds(x: seq<real>, h: nat, cap: real, power: real)
    requires |x| == 3 * h
    ensures (forall j | 0 <= j < |x| :: InBound(VarBounds(h, cap, power)[j], x[j])) <==> InBox(x, h, cap, power)
  {
    var b := VarBounds(h, cap, power);
    if forall j | 0 <= j < |x| :: InBound(b[j], x[j]) {
      forall t | 0 <= t < h
        ensures && 0.0 <= ChargeOf(x, h, t) && ChargeOf(x, h, t) <= power
                && 0.0 <= DischargeOf(x, h, t) && DischargeOf(x, h, t) <= power
                && 0.0 <= SocOf(x, h, t) && SocOf(x, h, t) <= cap
      {
        assert InBound(b[t], x[t]);
        assert InBound(b[h + t], x[h + t]);
        assert InBound(b[2 * h + t], x[2 * h + t]);
      }
    }
    if InBox(x, h, cap, power) {
      forall j | 0 <= j < |x| ensures InBound(b[j], x[j]) {
        if j < h {
          assert ChargeOf(x, h, j) == x[j];
        } else if j < 2 * h {
          assert DischargeOf(x, h, j - h) == x[j];
        } else {
          assert SocOf(x, h, j - 2 * h) == x[j];
        }
      }
    }
  }

  /** The inequality rows of the day's program hold exactly when charge and
      discharge share the power. */
  lemma DailyUb(prices: seq<real>, exportPrices: Option<seq<real>>, exportCap: real,
                soc0: real, cap: real, power: real, ec: real, ed: real, x: seq<real>)
    requires ValidEff(ec, ed) && (exportPrices.Some? ==> |exportPrices.value| == |prices|)
    requires |x| == 3 * |prices|
    ensures var p := DailyProblem(prices, exportPrices, exportCap, soc0, cap, power, ec, ed);
      Shaped(p, x) && (UbHold(p, x) <==> PowerShared(x, |prices|, power))
  {
    var h := |prices|;
    var p := DailyProblem(prices, exportPrices, exportCap, soc0, cap, power, ec, ed);
    forall t | 0 <= t < h
      ensures Dot(p.aUb[t], x, |x|) == ChargeOf(x, h, t) + DischargeOf(x, h, t) && p.bUb[t] == power
    {
      UbRowPartial(h, t, x, 3 * h);
    }
  }

  /** The equality rows of the day's program hold exactly when the state of charge
      runs continuously from the initial state. */
  lemma DailyEq(prices: seq<real>, exportPrices: Option<seq<real>>, exportCap: real,
                soc0: real, cap: real, power: real, ec: real, ed: real, x: seq<real>)
    requires ValidEff(ec, ed) && (exportPrices.Some? ==> |exportPrices.value| == |prices|)
    requires |x| == 3 * |prices|
    ensures var p := DailyProblem(prices, exportPrices, exportCap, soc0, cap, power, ec, ed);
      Shaped(p, x) && (EqHold(p, x) <==> SocContinuous(x, |prices|, soc0, ec, ed))
  {
    var h := |prices|;
    var p := DailyProblem(prices, exportPrices, exportCap, soc0, cap, power, ec, ed);
    assert Shaped(p, x);
    if EqHold(p, x) {
      forall t | 0 <= t < h
        ensures SocStep(x, h, soc0, ec, ed, t)
      {
        assert Dot(p.aEq[t], x, |x|) == p.bEq[t];
        assert p.aEq[t] == EqRow(h, ec, ed, t) && p.bEq[t] == EqRhs(h, soc0)[t];
        EqRowHolds(h, ec, ed, soc0, t, x);
      }
    }
    if SocContinuous(x, h, soc0, ec, ed) {
      forall t | 0 <= t < h ensures Dot(p.aEq[t], x, |x|) == p.bEq[t] {
        assert SocStep(x, h, soc0, ec, ed, t);
        assert p.aEq[t] == EqRow(h, ec, ed, t) && p.bEq[t] == EqRhs(h, soc0)[t];
        EqRowHolds(h, ec, ed, soc0, t, x);
      }
    }
  }

  /** The rows and bounds of the day's program hold exactly when x keeps the box
      limits, shares the power between charge and discharge, and runs the state of
      charge continuously from the initial state:
      s_t == s_{t-1} + ec * c_t - d_t / ed with s_{-1} the initial state. */
  lemma DailyFeasible(prices: seq<real>, exportPrices: Option<seq<real>>, exportCap: real,
                      soc0: real, cap: real, power: real, ec: real, ed: real, x: seq<real>)
    requires ValidEff(ec, ed) && (exportPrices.Some? ==> |exportPrices.value| == |prices|)
    ensures Feasible(DailyProblem(prices, exportPrices, exportCap, soc0, cap, power, ec, ed), x) <==>
      && |x| == 3 * |prices|
      && InBox(x, |prices|, cap, power)
      && PowerShared(x, |prices|, power)
      && SocContinuous(x, |prices|, soc0, ec, ed)
  {
    DailyShaped(prices, exportPrices, exportCap, soc0, cap, power, ec, ed, x);
    if |x| == 3 * |prices| {
      DailyBounds(prices, exportPrices, exportCap, soc0, cap, power, ec, ed, x);
      DailyUb(prices, exportPrices, exportCap, soc0, cap, power, ec, ed, x);
      DailyEq(prices, exportPrices, exportCap, soc0, cap, power, ec, ed, x);
    }
  }

  // ---------------------------------------------------------------------------
  // The objective
  // ---------------------------------------------------------------------------

  /** Over the charge block the partial objective is the charge cost so far. */
  lemma {:induction false} ObjectiveChargeBlock(prices: seq<real>, eff: seq<real>, ec: real, ed: real, x: seq<real>, n: nat)
    requires |eff| == |prices| && ValidEff(ec, ed) && |x| == 3 * |prices| && n <= |prices|
    ensures Dot(Objective(prices, eff, ec, ed), x, n) == ChargeCost(prices, x, ec, n)
  {
    if n > 0 {
      ObjectiveChargeBlock(prices, eff, ec, ed, x, n - 1);
      var j := n - 1;
      assert Objective(prices, eff, ec, ed)[j] == prices[j] / ec;
    }
  }

  /** Over the discharge block the partial objective is the whole charge cost less
      the discharge revenue so far. */
  lemma {:induction false} ObjectiveDischargeBlock(prices: seq<real>, eff: seq<real>, ec: real, ed: real, x: seq<real>, n: nat)
    requires |eff| == |prices| && ValidEff(ec, ed) && |x| == 3 * |prices| && |prices| <= n <= 2 * |prices|
    ensures var h := |prices|;
      Dot(Objective(prices, eff, ec, ed), x, n) == ChargeCost(prices, x, ec, h) - DischargeRevenue(eff, x[h..], ed, n - h)
  {
    var h := |prices|;
    if n == h {
      ObjectiveChargeBlock(prices, eff, ec, ed, x, h);
    } else {
      ObjectiveDischargeBlock(prices, eff, ec, ed, x, n - 1);
      var j := n - 1;
      assert Objective(prices, eff, ec, ed)[j] == -eff[j - h] * ed;
      assert x[h..][j - h] == x[j];
      assert -eff[j - h] * ed * x[j] == -(eff[j - h] * ed * x[j]);
    }
  }

  /** The state-of-charge block adds nothing to the objective. */
  lemma {:induction false} ObjectiveSocBlock(prices: seq<real>, eff: seq<real>, ec: real, ed: real, x: seq<real>, n: nat)
    requires |eff| == |prices| && ValidEff(ec, ed) && |x| == 3 * |prices| && 2 * |prices| <= n <= 3 * |prices|
    ensures Dot(Objective(prices, eff, ec, ed), x, n) == Dot(Objective(prices, eff, ec, ed), x, 2 * |prices|)
  {
    if n > 2 * |prices| {
      ObjectiveSocBlock(prices, eff, ec, ed, x, n - 1);
      assert Objective(prices, eff, ec, ed)[n - 1] == 0.0;
    }
  }

  /** Charge costs over the same prices and the same first n charges agree. */
  lemma {:induction false} ChargeCostSame(p: seq<real>, c1: seq<real>, c2: seq<real>, ec: real, n: nat)
    requires n <= |p| && n <= |c1| && n <= |c2| && ec != 0.0
    requires forall i | 0 <= i < n :: c1[i] == c2[i]
    ensures ChargeCost(p, c1, ec, n) == ChargeCost(p, c2, ec, n)
  {
    if n > 0 {
      ChargeCostSame(p, c1, c2, ec, n - 1);
    }
  }

  /** Discharge revenues over the same prices and the same first n discharges agree. */
  lemma {:induction false} DischargeRevenueSame(p: seq<real>, d1: seq<real>, d2: seq<real>, ed: real, n: nat)
    requires n <= |p| && n <= |d1| && n <= |d2|
    requires forall i | 0 <= i < n :: d1[i] == d2[i]
    ensures DischargeRevenue(p, d1, ed, n) == DischargeRevenue(p, d2, ed, n)
  {
    if n > 0 {
      DischargeRevenueSame(p, d1, d2, ed, n - 1);
    }
  }

  /** Minus the objective at x is the day's profit: the discharge revenue at the
      discharge prices less the charge cost at the domestic prices. */
  lemma ObjectiveIsProfit(prices: seq<real>, eff: seq<real>, ec: real, ed: real, x: seq<real>)
    requires |eff| == |prices| && ValidEff(ec, ed) && |x| == 3 * |prices|
    ensures var h := |prices|;
      -Dot(Objective(prices, eff, ec, ed), x, 3 * h) ==
        DischargeRevenue(eff, x[h..2 * h], ed, h) - ChargeCost(prices, x[..h], ec, h)
  {
    var h := |prices|;
    ObjectiveSocBlock(prices, eff, ec, ed, x, 3 * h);
    ObjectiveDischargeBlock(prices, eff, ec, ed, x, 2 * h);
    var c, dTail, d := x[..h], x[h..], x[h..2 * h];
    assert forall i | 0 <= i < h :: x[i] == c[i];
    ChargeCostSame(prices, x, c, ec, h);
    assert forall i | 0 <= i < h :: dTail[i] == d[i];
    DischargeRevenueSame(eff, dTail, d, ed, h);
  }

  /** The discharge price is never below the domestic price, and is the domestic
      price unless export prices are given with a positive capacity. */
  lemma EffPricesAtLeast(prices: seq<real>, exportPrices: Option<seq<real>>, exportCap: real, t: nat)
    requires exportPrices.Some? ==> |exportPrices.value| == |prices|
    requires t < |prices|
    ensures EffPrices(prices, exportPrices, exportCap)[t] >= prices[t]
    ensures exportPrices.Some? && exportCap > 0.0 ==>
      EffPrices(prices, exportPrices, exportCap)[t] >= exportPrices.value[t]
    ensures !(exportPrices.Some? && exportCap > 0.0) ==> EffPrices(prices, exportPrices, exportCap)[t] == prices[t]
  {
  }

  // ---------------------------------------------------------------------------
  // The solver's answer
  // ---------------------------------------------------------------------------

  /** `np.clip`: v raised to lo, then lowered to hi. */
  function Clip(v: real, lo: real, hi: real): (r: real)
    ensures lo <= hi ==> lo <= r <= hi
    ensures lo <= v <= hi ==> r == v
  {
    Min(Max(v, lo), hi)
  }

  /** The day's result: after a failed solve, an idle day that holds the initial
      state; otherwise the solver's charge, discharge and state of charge clipped to
      their bounds, minus the objective as profit and the last state of charge as
      the next day's start. */
  function HandleOutcome(o: LpOutcome, h: nat, soc0: real, cap: real, power: real): (r: DayResult)
    requires h > 0 && WellShaped(o, 3 * h)
    ensures |r.charge| == |r.discharge| == |r.soc| == h
    ensures r.finalSoc == r.soc[h - 1]
  {
    if !Solved(o) then
      DayResult(seq(h, _ => 0.0), seq(h, _ => 0.0), seq(h, _ => soc0), 0.0, soc0)
    else
      var soc := seq(h, t requires 0 <= t < h => Clip(o.x[2 * h + t], 0.0, cap));
      DayResult(
        seq(h, t requires 0 <= t < h => Clip(o.x[t], 0.0, power)),
        seq(h, t requires 0 <= t < h => Clip(o.x[h + t], 0.0, power)),
        soc, -o.fun, soc[h - 1])
  }

  /** A failed solve leaves the battery idle: no charge, no discharge, the state of
      charge held at the initial state all day, no profit. */
  lemma FallbackIdle(o: LpOutcome, h: nat, soc0: real, cap: real, power: real, t: nat)
    requires h > 0 && WellShaped(o, 3 * h) && !Solved(o) && t < h
    ensures var r := HandleOutcome(o, h, soc0, cap, power);
      r.charge[t] == 0.0 && r.discharge[t] == 0.0 && r.soc[t] == soc0 && r.profit == 0.0 && r.finalSoc == soc0
  {
  }

  /** Whatever the solver returns, the result keeps charge and discharge within
      [0, power] and the state of charge, including the next day's start, within
      [0, cap], as long as the day starts within [0, cap]. */
  lemma OutcomeWithinBounds(o: LpOutcome, h: nat, soc0: real, cap: real, power: real)
    requires h > 0 && WellShaped(o, 3 * h)
    requires 0.0 <= power && 0.0 <= soc0 <= cap
    ensures var r := HandleOutcome(o, h, soc0, cap, power);
      && (forall t | 0 <= t < h :: 0.0 <= r.charge[t] && r.charge[t] <= power && 0.0 <= r.discharge[t] && r.discharge[t] <= power)
      && (forall t | 0 <= t < h :: 0.0 <= r.soc[t] && r.soc[t] <= cap)
      && 0.0 <= r.finalSoc <= cap
  {
    var r := HandleOutcome(o, h, soc0, cap, power);
    if Solved(o) {
      forall t | 0 <= t < h
        ensures 0.0 <= r.charge[t] <= power && 0.0 <= r.discharge[t] <= power && 0.0 <= r.soc[t] <= cap
      {
        assert r.charge[t] == Clip(o.x[t], 0.0, power);
        assert r.discharge[t] == Clip(o.x[h + t], 0.0, power);
        assert r.soc[t] == Clip(o.x[2 * h + t], 0.0, cap);
      }
    }
  }

  /** When the solver's vector keeps the box limits, clipping changes nothing. */
  lemma UnclippedInBox(o: LpOutcome, h: nat, soc0: real, cap: real, power: real)
    requires h > 0 && Solved(o) && |o.x| == 3 * h && InBox(o.x, h, cap, power)
    ensures var r := HandleOutcome(o, h, soc0, cap, power);
      r.charge == o.x[..h] && r.discharge == o.x[h..2 * h] && r.soc == o.x[2 * h..]
  {
    var x := o.x;
    var r := HandleOutcome(o, h, soc0, cap, power);
    forall t | 0 <= t < h
      ensures r.charge[t] == x[..h][t] && r.discharge[t] == x[h..2 * h][t] && r.soc[t] == x[2 * h..][t]
    {
      assert 0.0 <= ChargeOf(x, h, t) <= power && 0.0 <= DischargeOf(x, h, t) <= power && 0.0 <= SocOf(x, h, t) <= cap;
      assert r.charge[t] == Clip(x[t], 0.0, power);
      assert r.discharge[t] == Clip(x[h + t], 0.0, power);
      assert r.soc[t] == Clip(x[2 * h + t], 0.0, cap);
    }
  }

  /** When the solver's vector is feasible, clipping changes nothing: the result is
      the vector itself, so its state of charge runs continuously from the initial
      state and its charge and discharge share the power. */
  lemma FeasibleUnclipped(prices: seq<real>, exportPrices: Option<seq<real>>, exportCap: real,
                          soc0: real, cap: real, power: real, ec: real, ed: real, o: LpOutcome)
    requires ValidEff(ec, ed) && (exportPrices.Some? ==> |exportPrices.value| == |prices|)
    requires |prices| > 0 && Solved(o)
    requires Feasible(DailyProblem(prices, exportPrices, exportCap, soc0, cap, power, ec, ed), o.x)
    ensures var h := |prices|;
      var r := HandleOutcome(o, h, soc0, cap, power);
      && r.charge == o.x[..h] && r.discharge == o.x[h..2 * h] && r.soc == o.x[2 * h..]
      && (forall t | 0 <= t < h :: r.charge[t] + r.discharge[t] <= power)
      && (forall t | 0 <= t < h :: DayStep(r.charge, r.discharge, r.soc, soc0, ec, ed, t))
  {
    var h := |prices|;
    var x := o.x;
    DailyFeasible(prices, exportPrices, exportCap, soc0, cap, power, ec, ed, x);
    UnclippedInBox(o, h, soc0, cap, power);
    BlocksFollowVector(x, h, soc0, power, ec, ed);
  }

  /** Read as charge, discharge and state-of-charge blocks, a vector that shares
      the power and runs continuously does so hour by hour. */
  lemma BlocksFollowVector(x: seq<real>, h: nat, soc0: real, power: real, ec: real, ed: real)
    requires |x| == 3 * h && ValidEff(ec, ed)
    requires PowerShared(x, h, power) && SocContinuous(x, h, soc0, ec, ed)
    ensures var c, d, s := x[..h], x[h..2 * h], x[2 * h..];
      && (forall t | 0 <= t < h :: c[t] + d[t] <= power)
      && (forall t | 0 <= t < h :: DayStep(c, d, s, soc0, ec, ed, t))
  {
    var c, d, s := x[..h], x[h..2 * h], x[2 * h..];
    forall t | 0 <= t < h
      ensures c[t] + d[t] <= power
      ensures DayStep(c, d, s, soc0, ec, ed, t)
    {
      assert s[t] == SocOf(x, h, t) && c[t] == ChargeOf(x, h, t) && d[t] == DischargeOf(x, h, t);
      assert SocStep(x, h, soc0, ec, ed, t);
      if t > 0 {
        assert s[t - 1] == SocOf(x, h, t - 1);
      }
    }
  }

  /** The profit is the discharge revenue at the discharge prices less the charge
      cost, when the objective value the solver reports is the objective at its
      vector. */
  lemma ProfitIsRevenueLessCost(prices: seq<real>, exportPrices: Option<seq<real>>, exportCap: real,
                                soc0: real, cap: real, power: real, ec: real, ed: real, o: LpOutcome)
    requires ValidEff(ec, ed) && (exportPrices.Some? ==> |exportPrices.value| == |prices|)
    requires |prices| > 0 && Solved(o) && |o.x| == 3 * |prices|
    requires o.fun == Dot(Objective(prices, EffPrices(prices, exportPrices, exportCap), ec, ed), o.x, 3 * |prices|)
    ensures var h := |prices|;
      HandleOutcome(o, h, soc0, cap, power).profit ==
        DischargeRevenue(EffPrices(prices, exportPrices, exportCap), o.x[h..2 * h], ed, h) - ChargeCost(prices, o.x[..h], ec, h)
  {
    ObjectiveIsProfit(prices, EffPrices(prices, exportPrices, exportCap), ec, ed, o.x);
  }

  // ---------------------------------------------------------------------------
  // Building the program in arrays
  // ---------------------------------------------------------------------------

  /** The objective vector: zeros, then the charge block, then the discharge block. */
  method BuildObjective(prices: seq<real>, eff: seq<real>, ec: real, ed: real) returns (cObj: array<real>)
    requires |eff| == |prices| && ValidEff(ec, ed)
    ensures fresh(cObj)
    ensures cObj[..] == Objective(prices, eff, ec, ed)
  {
    var h := |prices|;
    cObj := new real[3 * h](j => 0.0);
    for t := 0 to h
      invariant forall j | 0 <= j < 3 * h :: cObj[j] == if j < t then prices[j] / ec else 0.0
    {
      cObj[t] := prices[t] / ec;
    }
    for t := 0 to h
      invariant forall j | 0 <= j < 3 * h ::
        cObj[j] == if j < h then prices[j] / ec else if j < h + t then -eff[j - h] * ed else 0.0
    {
      cObj[h + t] := -eff[t] * ed;
    }
    assert forall j | 0 <= j < 3 * h :: cObj[..][j] == Objective(prices, eff, ec, ed)[j];
  }

  /** Writes the four non-zero entries of equality row t into a zero row. */
  method SetEqRow(aEq: array2<real>, h: nat, ec: real, ed: real, t: nat)
    requires ValidEff(ec, ed) && t < h && aEq.Length0 == h && aEq.Length1 == 3 * h
    requires forall j | 0 <= j < 3 * h :: aEq[t, j] == 0.0
    modifies aEq
    ensures forall i, j | 0 <= i < h && 0 <= j < 3 * h ::
      aEq[i, j] == if i == t then EqCoef(h, ec, ed, t, j) else old(aEq[i, j])
  {
    aEq[t, 2 * h + t] := 1.0;
    aEq[t, t] := -ec;
    aEq[t, h + t] := 1.0 / ed;
    if t > 0 {
      aEq[t, 2 * h + t - 1] := -1.0;
    }
  }

  /** The equality rows, filled row by row on a zero matrix, and their right-hand
      side. */
  method BuildEq(h: nat, soc0: real, ec: real, ed: real) returns (aEq: array2<real>, bEq: array<real>)
    requires h > 0 && ValidEff(ec, ed)
    ensures fresh(aEq) && fresh(bEq)
    ensures aEq.Length0 == h && aEq.Length1 == 3 * h
    ensures forall t, j | 0 <= t < h && 0 <= j < 3 * h :: aEq[t, j] == EqCoef(h, ec, ed, t, j)
    ensures bEq[..] == EqRhs(h, soc0)
  {
    aEq := new real[h, 3 * h]((t, j) => 0.0);
    for t := 0 to h
      invariant forall i, j | 0 <= i < h && 0 <= j < 3 * h ::
        aEq[i, j] == if i < t then EqCoef(h, ec, ed, i, j) else 0.0
    {
      SetEqRow(aEq, h, ec, ed, t);
    }
    bEq := new real[h](_ => 0.0);
    bEq[0] := soc0;
    assert forall t | 0 <= t < h :: bEq[..][t] == EqRhs(h, soc0)[t];
  }

  /** The inequality rows, filled row by row on a zero matrix, and the power limit
      as their right-hand side. */
  method BuildUb(h: nat, power: real) returns (aUb: array2<real>, bUb: array<real>)
    ensures fresh(aUb) && fresh(bUb)
    ensures aUb.Length0 == h && aUb.Length1 == 3 * h
    ensures forall t, j | 0 <= t < h && 0 <= j < 3 * h :: aUb[t, j] == UbCoef(h, t, j)
    ensures bUb[..] == seq(h, _ => power)
  {
    aUb := new real[h, 3 * h]((t, j) => 0.0);
    for t := 0 to h
      invariant forall i, j | 0 <= i < h && 0 <= j < 3 * h ::
        aUb[i, j] == if i < t then UbCoef(h, i, j) else 0.0
    {
      aUb[t, t] := 1.0;
      aUb[t, h + t] := 1.0;
    }
    bUb := new real[h](_ => power);
    assert forall t | 0 <= t < h :: bUb[..][t] == power;
  }

  /** The rows of a matrix, as sequences. */
  method Rows(a: array2<real>) returns (rows: seq<seq<real>>)
    ensures |rows| == a.Length0
    ensures forall i | 0 <= i < a.Length0 :: |rows[i]| == a.Length1
    ensures forall i, j | 0 <= i < a.Length0 && 0 <= j < a.Length1 :: rows[i][j] == a[i, j]
  {
    rows := [];
    for i := 0 to a.Length0
      invariant |rows| == i
      invariant forall k | 0 <= k < i :: |rows[k]| == a.Length1
      invariant forall k, j | 0 <= k < i && 0 <= j < a.Length1 :: rows[k][j] == a[k, j]
    {
      var row := seq(a.Length1, j requires 0 <= j < a.Length1 reads a => a[i, j]);
      rows := rows + [row];
    }
  }

  /** `run_daily_lp`: build the day's program, solve it, and handle the answer. The
      day must have at least one hour (the source indexes its first and last). */
  method RunDailyLp(prices: seq<real>, exportPrices: Option<seq<real>>, exportCap: real,
                    soc0: real, cap: real, power: real, ec: real, ed: real,
                    solve: LpProblem -> LpOutcome) returns (r: DayResult)
    requires |prices| > 0 && ValidEff(ec, ed)
    requires exportPrices.Some? ==> |exportPrices.value| == |prices|
    requires WellShaped(solve(DailyProblem(prices, exportPrices, exportCap, soc0, cap, power, ec, ed)), 3 * |prices|)
    ensures r == HandleOutcome(solve(DailyProblem(prices, exportPrices, exportCap, soc0, cap, power, ec, ed)),
                               |prices|, soc0, cap, power)
  {
    var h := |prices|;
    var eff := EffPrices(prices, exportPrices, exportCap);
    var cObj := BuildObjective(prices, eff, ec, ed);
    var aEq, bEq := BuildEq(h, soc0, ec, ed);
    var aUb, bUb := BuildUb(h, power);
    var bounds := VarBounds(h, cap, power);
    var eqRows := Rows(aEq);
    var ubRows := Rows(aUb);
    var problem := LpProblem(cObj[..], ubRows, bUb[..], eqRows, bEq[..], bounds);
    ghost var spec := DailyProblem(prices, exportPrices, exportCap, soc0, cap, power, ec, ed);
    forall t | 0 <= t < h ensures eqRows[t] == spec.aEq[t] {
      assert forall j | 0 <= j < 3 * h :: eqRows[t][j] == EqRow(h, ec, ed, t)[j];
    }
    forall t | 0 <= t < h ensures ubRows[t] == spec.aUb[t] {
      assert forall j | 0 <= j < 3 * h :: ubRows[t][j] == UbRow(h, t)[j];
    }
    assert eqRows == spec.aEq;
    assert ubRows == spec.aUb;
    assert problem == spec;
    var outcome := solve(problem);
    r := HandleOutcome(outcome, h, soc0, cap, power);
  }
}
