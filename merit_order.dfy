/** The merit-order proxy's price response (`merit_order_price_impact`): a battery
    injecting `net` MW moves the price along the slope of the supply segment that the
    residual load falls in. The breakpoints and slopes come from a statistical fit
    that is not part of this model; here they are given. */
module MeritOrder {

  /** The fitted model: two residual-load breakpoints and three segment slopes
      (EUR/MWh per MW). */
  datatype MeritModel = MeritModel(bp0: real, bp1: real, slope0: real, slope1: real, slope2: real)

  /** The slope of the segment the load falls in, tested in order: below the first
      breakpoint, below the second, or neither. A load equal to a breakpoint belongs
      to the segment above it. */
  function SegmentSlope(m: MeritModel, load: real): (k: real)
    ensures k == m.slope0 || k == m.slope1 || k == m.slope2
    ensures m.bp0 <= load && m.bp1 <= load ==> k == m.slope2
  {
    if load < m.bp0 then m.slope0
    else if load < m.bp1 then m.slope1
    else m.slope2
  }

  /** The price change caused by a net injection of `net` MW (positive when the
      battery discharges, negative when it charges). */
  function PriceImpact(net: real, load: real, m: MeritModel): (dp: real)
    ensures net == 0.0 ==> dp == 0.0
  {
    -net * SegmentSlope(m, load)
  }

  /** Reference: the index of the first breakpoint, in list order, that lies strictly
      above the load; the number of breakpoints when none does. */
  function FirstAbove(bps: seq<real>, load: real): (i: nat)
    ensures i <= |bps|
  {
    if bps == [] then 0
    else if load < bps[0] then 0
    else 1 + FirstAbove(bps[1..], load)
  }

  /** The impact is minus the net injection times the slope at the position the
      reference search finds in the breakpoint list. */
  lemma ImpactBySearch(net: real, load: real, m: MeritModel)
    ensures PriceImpact(net, load, m) == -net * [m.slope0, m.slope1, m.slope2][FirstAbove([m.bp0, m.bp1], load)]
  {
    assert [m.bp0, m.bp1][1..] == [m.bp1];
    assert [m.bp1][1..] == [];
  }

  /** The three segments, each with the condition under which it applies. */
  lemma ImpactSegments(net: real, load: real, m: MeritModel)
    ensures load < m.bp0 ==> PriceImpact(net, load, m) == -net * m.slope0
    ensures m.bp0 <= load < m.bp1 ==> PriceImpact(net, load, m) == -net * m.slope1
    ensures m.bp0 <= load && m.bp1 <= load ==> PriceImpact(net, load, m) == -net * m.slope2
  {
  }

  /** A load exactly at a breakpoint takes the slope of the segment above it. */
  lemma BreakpointGoesUp(net: real, m: MeritModel)
    ensures m.bp0 < m.bp1 ==> PriceImpact(net, m.bp0, m) == -net * m.slope1
    ensures m.bp0 <= m.bp1 ==> PriceImpact(net, m.bp1, m) == -net * m.slope2
  {
  }

  /** The impact is linear in the injection: scaling it scales the impact, and charging
      moves the price by the opposite of discharging the same power. */
  lemma ImpactLinear(a: real, net: real, load: real, m: MeritModel)
    ensures PriceImpact(a * net, load, m) == a * PriceImpact(net, load, m)
    ensures PriceImpact(-net, load, m) == -PriceImpact(net, load, m)
  {
  }

  /** With non-negative slopes, discharging never raises the price and charging never
      lowers it. */
  lemma ImpactSign(net: real, load: real, m: MeritModel)
    requires m.slope0 >= 0.0 && m.slope1 >= 0.0 && m.slope2 >= 0.0
    ensures net >= 0.0 ==> PriceImpact(net, load, m) <= 0.0
    ensures net <= 0.0 ==> PriceImpact(net, load, m) >= 0.0
  {
    var s := SegmentSlope(m, load);
    assert s >= 0.0;
    if net >= 0.0 {
      assert net * s >= 0.0;
    } else {
      assert (-net) * s >= 0.0;
    }
  }
}
