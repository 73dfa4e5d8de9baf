/** Structural equilibrium prices (`compute_structural_prices`): the price of an hour
    is set by the band of the supply stack its residual load falls in. */
module StructuralPrices {
  import opened Wrappers

  /** The supply stack: full-cost floors of coal and gas (EUR/MWh), installed coal,
      the part of it that left the regulated market, installed gas (MW), and the
      fraction of peak hours the battery covers. */
  datatype Stack = Stack(coalVc: real, gasVc: real, coalCapacity: real, coalDeregulated: real,
                         gasCapacity: real, coverage: real)

  /** The default stack of the source. */
  const DefaultStack := Stack(88.0, 120.0, 2000.0, 600.0, 1200.0, 0.0)

  /** The coal capacity still bidding at regulated prices. */
  function CoalRegulated(st: Stack): real {
    st.coalCapacity - st.coalDeregulated
  }

  /** `price_from_res`: the price of an hour of residual load `l`, band by band. */
  function PriceFromRes(l: real, st: Stack): (p: real)
    ensures l < 0.0 ==> -100.0 <= p < 0.0
    ensures 0.0 <= l < 300.0 ==> p == 10.0
  {
    if l < 0.0 then Max(-100.0, l * 0.03)
    else if l < 300.0 then 10.0
    else if l < CoalRegulated(st) then Ramp(l, st)
    else if l < st.coalCapacity then st.coalVc
    else if l < st.coalCapacity + st.gasCapacity then st.gasVc
    else st.gasVc + Premium(l - st.coalCapacity - st.gasCapacity, st.coverage)
  }

  /** The price of one hour of the residual-load column. A missing load (NaN) fails
      every band comparison and reaches the scarcity band, where the premium cap of
      400 wins the minimum against NaN: the hour gets the full eroded premium. */
  function StructuralPrice(l: Option<real>, st: Stack): (p: real)
    ensures l.Some? ==> p == PriceFromRes(l.value, st)
    ensures l.None? && 0.0 <= st.coverage <= 1.0 ==> st.gasVc <= p <= st.gasVc + 400.0
  {
    match l
    case Some(v) => PriceFromRes(v, st)
    case None => st.gasVc + 400.0 * (1.0 - st.coverage)
  }

  /** The regulated-coal ramp: the fraction of the way from 300 MW to the regulated
      capacity (over at least 1 MW), applied from 10 EUR/MWh toward the coal floor. */
  function Ramp(l: real, st: Stack): real {
    var frac := (l - 300.0) / Max(CoalRegulated(st) - 300.0, 1.0);
    10.0 + frac * (st.coalVc - 10.0)
  }

  /** The scarcity premium above the gas floor for a load `excess` MW above the stack:
      0.15 EUR/MWh per MW, capped at 400, eroded by the peak coverage. */
  function Premium(excess: real, coverage: real): real {
    Min(400.0, excess * 0.15) * (1.0 - coverage)
  }

  /** Surplus hours: negative prices proportional to the surplus, floored at -100. */
  lemma CurtailmentBand(l: real, st: Stack)
    requires l < 0.0
    ensures PriceFromRes(l, st) == Max(-100.0, l * 0.03)
    ensures -100.0 <= PriceFromRes(l, st) < 0.0
  {
  }

  /** Hydro and must-run hours: a flat 10 EUR/MWh. */
  lemma MustRunBand(l: real, st: Stack)
    requires 0.0 <= l < 300.0
    ensures PriceFromRes(l, st) == 10.0
  {
  }

  /** Regulated coal: a ramp from 10 EUR/MWh toward the coal floor, staying between
      the two. */
  lemma RampBand(l: real, st: Stack)
    requires 300.0 <= l < CoalRegulated(st)
    ensures PriceFromRes(l, st) == Ramp(l, st)
    ensures Min(10.0, st.coalVc) <= PriceFromRes(l, st) <= Max(10.0, st.coalVc)
  {
    var d := Max(CoalRegulated(st) - 300.0, 1.0);
    var frac := (l - 300.0) / d;
    FractionInUnit(l - 300.0, d);
    ScaledBetween(frac, st.coalVc - 10.0);
  }

  /** Deregulated coal and gas: the full-cost floors. */
  lemma FloorBands(l: real, st: Stack)
    requires 300.0 <= l && CoalRegulated(st) <= l
    ensures l < st.coalCapacity ==> PriceFromRes(l, st) == st.coalVc
    ensures st.coalCapacity <= l < st.coalCapacity + st.gasCapacity ==> PriceFromRes(l, st) == st.gasVc
  {
  }

  /** Scarcity: the gas floor plus the premium; with a coverage fraction the price
      stays within 400 EUR/MWh above the gas floor, and full coverage leaves the gas
      floor. */
  lemma ScarcityBand(l: real, st: Stack)
    requires 300.0 <= l && CoalRegulated(st) <= l && st.coalCapacity <= l && st.coalCapacity + st.gasCapacity <= l
    ensures PriceFromRes(l, st) == st.gasVc + Premium(l - st.coalCapacity - st.gasCapacity, st.coverage)
    ensures 0.0 <= st.coverage <= 1.0 ==> st.gasVc <= PriceFromRes(l, st) <= st.gasVc + 400.0
    ensures st.coverage == 1.0 ==> PriceFromRes(l, st) == st.gasVc
  {
    var m := Min(400.0, (l - st.coalCapacity - st.gasCapacity) * 0.15);
    assert 0.0 <= m <= 400.0;
    if 0.0 <= st.coverage <= 1.0 {
      ScaledBetween(1.0 - st.coverage, m);
      assert 0.0 <= m * (1.0 - st.coverage) <= m;
    }
  }

  /** A missing load is priced like any known load far enough into the scarcity band
      for the premium to reach its cap (400 / 0.15 MW above the stack). */
  lemma MissingLoadPrice(l: real, st: Stack)
    requires 300.0 <= l && CoalRegulated(st) <= l && st.coalCapacity <= l
    requires st.coalCapacity + st.gasCapacity + 400.0 / 0.15 <= l
    ensures StructuralPrice(None, st) == StructuralPrice(Some(l), st)
  {
    ScarcityBand(l, st);
    assert Min(400.0, (l - st.coalCapacity - st.gasCapacity) * 0.15) == 400.0;
  }

  /** With the coverage a fraction, a missing load gets the highest price of the
      scarcity band: no known load above the stack is priced higher. */
  lemma MissingLoadIsCeiling(l: real, st: Stack)
    requires 300.0 <= l && CoalRegulated(st) <= l && st.coalCapacity <= l && st.coalCapacity + st.gasCapacity <= l
    requires 0.0 <= st.coverage <= 1.0
    ensures StructuralPrice(Some(l), st) <= StructuralPrice(None, st)
  {
    ScarcityBand(l, st);
    var m := Min(400.0, (l - st.coalCapacity - st.gasCapacity) * 0.15);
    var k := 1.0 - st.coverage;
    MulMono(m, 400.0, k);
    calc {
      StructuralPrice(Some(l), st);
    ==
      st.gasVc + m * k;
    <=
      st.gasVc + 400.0 * k;
    ==
      StructuralPrice(None, st);
    }
  }

  /** The ramp rises with the load when the coal floor is at least 10 EUR/MWh. */
  lemma RampMonotone(l1: real, l2: real, st: Stack)
    requires l1 <= l2 && 10.0 <= st.coalVc
    ensures Ramp(l1, st) <= Ramp(l2, st)
  {
    var d := Max(CoalRegulated(st) - 300.0, 1.0);
    var f1 := (l1 - 300.0) / d;
    var f2 := (l2 - 300.0) / d;
    assert f1 * d == l1 - 300.0 && f2 * d == l2 - 300.0;
    if f2 < f1 {
      MulMono(f2, f1, d);
      assert false;
    }
    MulMono(f1, f2, st.coalVc - 10.0);
  }

  /** The premium rises with the excess when the coverage is at most 1. */
  lemma PremiumMonotone(e1: real, e2: real, coverage: real)
    requires e1 <= e2 && coverage <= 1.0
    ensures Premium(e1, coverage) <= Premium(e2, coverage)
  {
    MulMono(Min(400.0, e1 * 0.15), Min(400.0, e2 * 0.15), 1.0 - coverage);
  }

  /** x / d lies in [0, 1) when 0 <= x < d. */
  lemma FractionInUnit(x: real, d: real)
    requires 0.0 <= x < d
    ensures 0.0 <= x / d < 1.0
  {
    assert x / d * d == x;
  }

  /** f * v lies between 0 and v when f lies in [0, 1]. */
  lemma ScaledBetween(f: real, v: real)
    requires 0.0 <= f <= 1.0
    ensures Min(0.0, v) <= f * v <= Max(0.0, v)
  {
    if v >= 0.0 {
      assert f * v <= 1.0 * v;
    } else {
      assert f * (-v) <= 1.0 * (-v);
    }
  }

  /** A product grows with its first factor when the second is non-negative. */
  lemma MulMono(a: real, b: real, c: real)
    requires a <= b && c >= 0.0
    ensures a * c <= b * c
  {
    assert (b - a) * c >= 0.0;
  }

  /** The price never falls as residual load rises, provided the floors are ordered
      (10 <= coal <= gas) and the peak coverage is a fraction. */
  lemma PriceMonotone(l1: real, l2: real, st: Stack)
    requires l1 <= l2
    requires 10.0 <= st.coalVc <= st.gasVc && 0.0 <= st.coverage <= 1.0
    ensures PriceFromRes(l1, st) <= PriceFromRes(l2, st)
  {
    var reg := CoalRegulated(st);
    var top := st.coalCapacity + st.gasCapacity;
    // every price is at least the price of the band below it
    if l1 < 0.0 {
      CurtailmentBand(l1, st);
      if l2 < 0.0 {
        CurtailmentBand(l2, st);
      } else {
        Bounds(l2, st);
      }
    } else if l1 < 300.0 {
      Bounds(l2, st);
    } else if l1 < reg {
      RampBand(l1, st);
      if l2 < reg {
        RampBand(l2, st);
        RampMonotone(l1, l2, st);
      } else {
        Bounds(l2, st);
      }
    } else if l1 < st.coalCapacity {
      Bounds(l2, st);
    } else if l1 < top {
      Bounds(l2, st);
    } else {
      ScarcityBand(l1, st);
      ScarcityBand(l2, st);
      PremiumMonotone(l1 - st.coalCapacity - st.gasCapacity, l2 - st.coalCapacity - st.gasCapacity, st.coverage);
    }
  }

  /** Lower bounds by band used by the monotonicity proof: at or above 0 the price is
      at least 10, at or above the regulated coal band at least the coal floor, and at
      or above the coal capacity at least the gas floor. */
  lemma Bounds(l: real, st: Stack)
    requires 10.0 <= st.coalVc <= st.gasVc && 0.0 <= st.coverage <= 1.0
    ensures 0.0 <= l ==> 10.0 <= PriceFromRes(l, st)
    ensures 300.0 <= l && CoalRegulated(st) <= l ==> st.coalVc <= PriceFromRes(l, st)
    ensures 300.0 <= l && st.coalCapacity <= l ==> st.gasVc <= PriceFromRes(l, st) || l < CoalRegulated(st)
  {
    if 300.0 <= l < CoalRegulated(st) {
      RampBand(l, st);
    }
    if 300.0 <= l && CoalRegulated(st) <= l && st.coalCapacity + st.gasCapacity <= l && st.coalCapacity <= l {
      ScarcityBand(l, st);
    }
  }
}
