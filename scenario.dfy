/** The hourly frame the analysis works on, and the scenario helpers over it:
    residual load (`compute_residual_load`), the validity filter (`clean`) and the
    solar scaling (`scale_solar`). A missing value (NaN in the frame) is None. */
module Scenario {
  import opened Wrappers

  /** One hour of the frame: its hour index and the columns the analysis reads. */
  datatype Hour = Hour(t: int, price: Option<real>, demand: Option<real>, gen: Option<real>,
                       solar: Option<real>, wind: Option<real>, nuclear: Option<real>)

  /** `compute_residual_load`: demand minus solar, wind and nuclear; missing when any
      of them is. */
  function ResidualLoad(h: Hour): (r: Option<real>)
    ensures r.Some? <==> h.demand.Some? && h.solar.Some? && h.wind.Some? && h.nuclear.Some?
    ensures r.Some? ==> r.value + h.solar.value + h.wind.value + h.nuclear.value == h.demand.value
  {
    if h.demand.Some? && h.solar.Some? && h.wind.Some? && h.nuclear.Some? then
      Some(h.demand.value - h.solar.value - h.wind.value - h.nuclear.value)
    else None
  }

  /** The row filter of `clean`: price and demand present, demand above 100 MW,
      generation positive and price above -200 EUR/MWh. A missing generation fails
      the comparison. */
  predicate Keep(h: Hour) {
    && h.price.Some? && h.demand.Some?
    && h.demand.value > 100.0
    && h.gen.Some? && h.gen.value > 0.0
    && h.price.value > -200.0
  }

  /** `clean`: the rows that pass the filter, in their order. */
  function Clean(hs: seq<Hour>): (r: seq<Hour>)
    ensures |r| <= |hs|
    ensures forall i | 0 <= i < |r| :: Keep(r[i])
  {
    if hs == [] then []
    else Clean(hs[..|hs| - 1]) + (if Keep(hs[|hs| - 1]) then [hs[|hs| - 1]] else [])
  }

  /** A row survives exactly when it is in the frame and passes the filter. */
  lemma {:induction false} CleanMember(hs: seq<Hour>, h: Hour)
    ensures h in Clean(hs) <==> h in hs && Keep(h)
  {
    if hs != [] {
      var n := |hs| - 1;
      CleanMember(hs[..n], h);
      assert hs == hs[..n] + [hs[n]];
    }
  }

  /** Filtering two stretches of rows one after the other is filtering their
      concatenation: the filter keeps the order of the rows. */
  lemma {:induction false} CleanAppend(a: seq<Hour>, b: seq<Hour>)
    ensures Clean(a + b) == Clean(a) + Clean(b)
  {
    if b == [] {
      assert a + b == a;
    } else {
      var n := |b| - 1;
      assert (a + b)[..|a + b| - 1] == a + b[..n];
      CleanAppend(a, b[..n]);
    }
  }

  /** Cleaning twice is cleaning once. */
  lemma {:induction false} CleanIdempotent(hs: seq<Hour>)
    ensures Clean(Clean(hs)) == Clean(hs)
  {
    if hs != [] {
      var n := |hs| - 1;
      CleanIdempotent(hs[..n]);
      var tail := if Keep(hs[n]) then [hs[n]] else [];
      CleanAppend(Clean(hs[..n]), tail);
      if Keep(hs[n]) {
        assert tail[..0] == [];
      }
    }
  }

  /** The hour with its solar generation multiplied by `factor`. */
  function ScaledHour(h: Hour, factor: real): Hour {
    h.(solar := if h.solar.Some? then Some(h.solar.value * factor) else None)
  }

  /** `scale_solar`: no add-on leaves the frame as it is; otherwise every solar value
      is multiplied by (base + add-on) / base. A zero base with a positive add-on is
      the source's division by zero: None. */
  function ScaleSolar(hs: seq<Hour>, addon: real, base: real): (r: Option<seq<Hour>>)
    ensures addon <= 0.0 ==> r == Some(hs)
    ensures r.None? <==> addon > 0.0 && base == 0.0
  {
    if addon <= 0.0 then Some(hs)
    else if base == 0.0 then None
    else Some(seq(|hs|, i requires 0 <= i < |hs| => ScaledHour(hs[i], (base + addon) / base)))
  }

  /** Scaling touches only the solar column, hour by hour, and the scaled solar value
      is the old one times the growth of installed capacity. */
  lemma ScaleSolarFrame(hs: seq<Hour>, addon: real, base: real, i: nat)
    requires addon > 0.0 && base != 0.0 && i < |hs|
    ensures var r := ScaleSolar(hs, addon, base).value;
      && |r| == |hs|
      && r[i].(solar := hs[i].solar) == hs[i]
      && (r[i].solar.Some? <==> hs[i].solar.Some?)
      && (r[i].solar.Some? ==> r[i].solar.value * base == hs[i].solar.value * (base + addon))
  {
    var f := (base + addon) / base;
    assert f * base == base + addon;
    if hs[i].solar.Some? {
      var s := hs[i].solar.value;
      assert s * f * base == s * (f * base);
    }
  }

  /** With a positive installed base and non-negative solar, adding solar capacity
      never raises the residual load of an hour. */
  lemma ScaleSolarLowersResidual(hs: seq<Hour>, addon: real, base: real, i: nat)
    requires addon > 0.0 && base > 0.0 && i < |hs|
    requires hs[i].solar.Some? ==> hs[i].solar.value >= 0.0
    ensures var r := ScaleSolar(hs, addon, base).value;
      ResidualLoad(r[i]).Some? <==> ResidualLoad(hs[i]).Some?
    ensures var r := ScaleSolar(hs, addon, base).value;
      ResidualLoad(r[i]).Some? ==> ResidualLoad(r[i]).value <= ResidualLoad(hs[i]).value
  {
    var f := (base + addon) / base;
    assert f >= 1.0 by {
      assert (f - 1.0) * base == addon;
    }
    if hs[i].solar.Some? {
      var s := hs[i].solar.value;
      assert s * f >= s * 1.0 by {
        assert s * (f - 1.0) >= 0.0;
      }
    }
  }
}
