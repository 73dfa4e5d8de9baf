/** Turning the periods of an ENTSO-E time series into a map from hour to value
    (`parse_points_by_timestamp`), and merging several series into one map
    (`parse_prices`, `parse_demand`, `parse_flow_direction`).

    Timestamps are whole hours counted from a fixed origin; the key format
    `%Y-%m-%dT%H:%MZ` orders exactly as these integers do. The text-to-number
    parsing of the source is not modelled: a period and a point arrive typed,
    and `None` stands for a key that is absent. */
module Points {
  import opened Wrappers

  /** One `Point`: its position (0 when the key is absent) and the value keys it
      carries: `quantity`, `price.amount`, or a nested `price` whose own `amount`
      may be absent. */
  datatype Point = Point(position: int, quantity: Option<real>, priceAmount: Option<real>, price: Option<Option<real>>)

  /** One `Period`: the start hour of its time interval (None when the start text is
      empty) and its points. */
  datatype Period = Period(start: Option<int>, points: seq<Point>)

  /** One `TimeSeries`: its PSR type code ("" when absent) and its periods. */
  datatype TimeSeries = TimeSeries(psrType: string, periods: seq<Period>)

  /** The value of a point: quantity first, then `price.amount`, then the nested
      price amount (0 when the nested amount is absent); None when the point has
      none of them. */
  function PointValue(pt: Point): Option<real> {
    if pt.quantity.Some? then pt.quantity
    else if pt.priceAmount.Some? then pt.priceAmount
    else if pt.price.Some? then Some(pt.price.value.GetOr(0.0))
    else None
  }

  /** The hour a point lands on: position 1 is the period's start hour. */
  function HourOf(start: int, pt: Point): int {
    start + pt.position - 1
  }

  // ---------------------------------------------------------------------------
  // Specification: the sequence of writes and the map they leave
  // ---------------------------------------------------------------------------

  /** The (hour, value) writes made for the points of one period, in order. */
  function PointWrites(start: int, pts: seq<Point>): seq<(int, real)> {
    if pts == [] then []
    else
      var pt := pts[|pts| - 1];
      PointWrites(start, pts[..|pts| - 1]) +
        (if PointValue(pt).Some? then [(HourOf(start, pt), PointValue(pt).value)] else [])
  }

  /** The writes of one period: none when its start is empty. */
  function PeriodWrites(p: Period): seq<(int, real)> {
    if p.start.None? then [] else PointWrites(p.start.value, p.points)
  }

  /** The writes of all periods, period after period. */
  function Placed(periods: seq<Period>): seq<(int, real)> {
    ConcatMap(PeriodWrites, periods)
  }

  /** The dictionary left by a sequence of `result[key] = value` writes. */
  function FoldUpdates(ws: seq<(int, real)>): map<int, real> {
    if ws == [] then map[]
    else FoldUpdates(ws[..|ws| - 1])[ws[|ws| - 1].0 := ws[|ws| - 1].1]
  }

  /** What `parse_points_by_timestamp(periods)` returns. */
  function PointsByTimestamp(periods: seq<Period>): map<int, real> {
    FoldUpdates(Placed(periods))
  }

  /** The periods of one series. */
  function PeriodsOf(ts: TimeSeries): seq<Period> {
    ts.periods
  }

  /** All periods of all series, series after series. */
  function AllPeriods(series: seq<TimeSeries>): seq<Period> {
    ConcatMap(PeriodsOf, series)
  }

  // ---------------------------------------------------------------------------
  // Properties of the specification
  // ---------------------------------------------------------------------------

  /** A key is in the map exactly when some write used it. */
  lemma {:induction false} FoldUpdatesKeys(ws: seq<(int, real)>, k: int)
    ensures k in FoldUpdates(ws) <==> exists i :: 0 <= i < |ws| && ws[i].0 == k
  {
    if ws != [] {
      var n := |ws| - 1;
      FoldUpdatesKeys(ws[..n], k);
      if exists i :: 0 <= i < n && ws[..n][i].0 == k {
        var i :| 0 <= i < n && ws[..n][i].0 == k;
        assert ws[i].0 == k;
      }
      if exists i :: 0 <= i < |ws| && ws[i].0 == k {
        var i :| 0 <= i < |ws| && ws[i].0 == k;
        if i < n {
          assert ws[..n][i].0 == k;
        }
      }
    }
  }

  /** A later write to the same key overwrites an earlier one: the map holds the
      value of the last write to each key. */
  lemma {:induction false} FoldUpdatesLastWins(ws: seq<(int, real)>, i: nat)
    requires i < |ws|
    requires forall j | i < j < |ws| :: ws[j].0 != ws[i].0
    ensures ws[i].0 in FoldUpdates(ws) && FoldUpdates(ws)[ws[i].0] == ws[i].1
  {
    var n := |ws| - 1;
    if i < n {
      FoldUpdatesLastWins(ws[..n], i);
    }
  }

  /** Writing `a` then `b` leaves the map of `a` overridden by the map of `b`. */
  lemma {:induction false} FoldUpdatesAppend(a: seq<(int, real)>, b: seq<(int, real)>)
    ensures FoldUpdates(a + b) == FoldUpdates(a) + FoldUpdates(b)
  {
    if b == [] {
      assert a + b == a;
    } else {
      var n := |b| - 1;
      assert (a + b)[..|a + b| - 1] == a + b[..n];
      FoldUpdatesAppend(a, b[..n]);
    }
  }

  /** A write of a period is exactly a point with a value, keyed at start + position - 1. */
  lemma {:induction false} PointWritesExact(start: int, pts: seq<Point>, w: (int, real))
    ensures w in PointWrites(start, pts) <==>
      exists pt :: pt in pts && PointValue(pt).Some? && w == (HourOf(start, pt), PointValue(pt).value)
  {
    if pts != [] {
      var n := |pts| - 1;
      PointWritesExact(start, pts[..n], w);
      assert pts == pts[..n] + [pts[n]];
    }
  }

  /** A write of the whole sequence is exactly a valued point of a period whose start
      is present; periods with an empty start and points with no value contribute nothing. */
  lemma PlacedExact(periods: seq<Period>, w: (int, real))
    ensures w in Placed(periods) <==>
      exists p, pt :: p in periods && p.start.Some? && pt in p.points && PointValue(pt).Some? &&
        w == (HourOf(p.start.value, pt), PointValue(pt).value)
  {
    ConcatMapMember(PeriodWrites, periods, w);
    if w in Placed(periods) {
      var p :| p in periods && w in PeriodWrites(p);
      PointWritesExact(p.start.value, p.points, w);
    }
    if exists p, pt :: p in periods && p.start.Some? && pt in p.points && PointValue(pt).Some? &&
        w == (HourOf(p.start.value, pt), PointValue(pt).value) {
      var p, pt :| p in periods && p.start.Some? && pt in p.points && PointValue(pt).Some? &&
        w == (HourOf(p.start.value, pt), PointValue(pt).value);
      PointWritesExact(p.start.value, p.points, w);
    }
  }

  /** The keys of `parse_points_by_timestamp` are exactly the hours of the valued
      points of periods with a start. */
  lemma PointsByTimestampKeys(periods: seq<Period>, k: int)
    ensures k in PointsByTimestamp(periods) <==>
      exists p, pt :: p in periods && p.start.Some? && pt in p.points && PointValue(pt).Some? &&
        k == HourOf(p.start.value, pt)
  {
    var ws := Placed(periods);
    FoldUpdatesKeys(ws, k);
    if exists i :: 0 <= i < |ws| && ws[i].0 == k {
      var i :| 0 <= i < |ws| && ws[i].0 == k;
      PlacedExact(periods, ws[i]);
    }
    if exists p, pt :: p in periods && p.start.Some? && pt in p.points && PointValue(pt).Some? &&
        k == HourOf(p.start.value, pt) {
      var p, pt :| p in periods && p.start.Some? && pt in p.points && PointValue(pt).Some? &&
        k == HourOf(p.start.value, pt);
      var w := (k, PointValue(pt).value);
      PlacedExact(periods, w);
      var i :| 0 <= i < |ws| && ws[i] == w;
    }
  }

  /** One more write updates one key. */
  lemma FoldUpdatesStep(ws: seq<(int, real)>, w: (int, real))
    ensures FoldUpdates(ws + [w]) == FoldUpdates(ws)[w.0 := w.1]
  {
    assert (ws + [w])[..|ws|] == ws;
  }

  /** One more point extends the period's writes by that point's write, if it has a value. */
  lemma PointWritesStep(start: int, pts: seq<Point>, j: nat)
    requires j < |pts|
    ensures PointValue(pts[j]).None? ==> PointWrites(start, pts[..j + 1]) == PointWrites(start, pts[..j])
    ensures PointValue(pts[j]).Some? ==>
      PointWrites(start, pts[..j + 1]) == PointWrites(start, pts[..j]) + [(HourOf(start, pts[j]), PointValue(pts[j]).value)]
  {
    assert pts[..j + 1][..j] == pts[..j];
    assert PointWrites(start, pts[..j]) + [] == PointWrites(start, pts[..j]);
  }

  // ---------------------------------------------------------------------------
  // The loops
  // ---------------------------------------------------------------------------

  /** `parse_points_by_timestamp`: walk the periods and their points, writing each
      valued point at start + position - 1 hours. */
  method ParsePointsByTimestamp(periods: seq<Period>) returns (result: map<int, real>)
    ensures result == PointsByTimestamp(periods)
  {
    result := map[];
    for i := 0 to |periods|
      invariant result == FoldUpdates(Placed(periods[..i]))
    {
      ConcatMapStep(PeriodWrites, periods, i);
      var period := periods[i];
      if period.start.None? {
        assert Placed(periods[..i + 1]) == Placed(periods[..i]) + [];
        assert Placed(periods[..i]) + [] == Placed(periods[..i]);
        continue;
      }
      result := WritePoints(result, Placed(periods[..i]), period.start.value, period.points);
      assert Placed(periods[..i + 1]) == Placed(periods[..i]) + PointWrites(period.start.value, period.points);
    }
    assert periods[..|periods|] == periods;
  }

  /** The inner loop of `parse_points_by_timestamp`: the points of one period with a
      start hour, written over the map left by the earlier writes `before`. */
  method WritePoints(result: map<int, real>, ghost before: seq<(int, real)>, start: int, points: seq<Point>)
    returns (out: map<int, real>)
    requires result == FoldUpdates(before)
    ensures out == FoldUpdates(before + PointWrites(start, points))
  {
    out := result;
    ghost var writes := before;
    for j := 0 to |points|
      invariant writes == before + PointWrites(start, points[..j])
      invariant out == FoldUpdates(writes)
    {
      PointWritesStep(start, points, j);
      var pt := points[j];
      var val: real;
      if pt.quantity.Some? {
        val := pt.quantity.value;
      } else if pt.priceAmount.Some? {
        val := pt.priceAmount.value;
      } else if pt.price.Some? {
        val := pt.price.value.GetOr(0.0);
      } else {
        continue;
      }
      var hour := start + pt.position - 1;
      out := out[hour := val];
      FoldUpdatesStep(writes, (hour, val));
      assert before + (PointWrites(start, points[..j]) + [(hour, val)]) == writes + [(hour, val)];
      writes := writes + [(hour, val)];
    }
    assert points[..|points|] == points;
  }

  /** `parse_prices`, `parse_demand` and `parse_flow_direction` on present data: the
      maps of the series merged with `dict.update`, later series winning. The result
      is the map of all the series' periods parsed as one sequence. */
  method ParseSeries(series: seq<TimeSeries>) returns (result: map<int, real>)
    ensures result == PointsByTimestamp(AllPeriods(series))
  {
    result := map[];
    for i := 0 to |series|
      invariant result == PointsByTimestamp(AllPeriods(series[..i]))
    {
      ConcatMapStep(PeriodsOf, series, i);
      var values := ParsePointsByTimestamp(series[i].periods);
      ConcatMapAppend(PeriodWrites, AllPeriods(series[..i]), series[i].periods);
      FoldUpdatesAppend(Placed(AllPeriods(series[..i])), Placed(series[i].periods));
      result := result + values;
    }
    assert series[..|series|] == series;
  }

  /** `parse_flow_direction`: absent direction data gives the empty map. */
  method ParseFlowDirection(data: Option<seq<TimeSeries>>) returns (result: map<int, real>)
    ensures data.None? ==> result == map[]
    ensures data.Some? ==> result == PointsByTimestamp(AllPeriods(data.value))
  {
    if data.None? {
      return map[];
    }
    result := ParseSeries(data.value);
  }
}
