/** The two-stage dividend discount model used for banks and insurers:
    explicit dividends per share, each discounted at the cost of equity over
    its year, plus a terminal share price (Gordon growth on the last
    dividend, or a P/E multiple on the last EPS) discounted over the length
    of the forecast.

    Discount factors are integer powers of `1 + ke`, computed exactly; a zero
    base raises `ZeroDivisionError` exactly where Python's float arithmetic
    does.
 */
module Ddm {
  import opened Wrappers
  import opened Seqs
  import Utils

  /** The terminal growth rate a model gets when none is given. */
  const DefaultTerminalGrowth: real := 0.03

  /** One projected year; `dps` is already filled in (see `Projection`). */
  datatype DividendProjection = DividendProjection(year: int, eps: real, payoutRatio: real, dps: real)

  /** Building a projection: an explicit dividend is kept, a missing one
      becomes earnings times the payout ratio. */
  function Projection(year: int, eps: real, payoutRatio: real, dps: Option<real>): (p: DividendProjection)
    ensures p.year == year && p.eps == eps && p.payoutRatio == payoutRatio
    ensures dps.Some? ==> p.dps == dps.value
    ensures dps.None? ==> p.dps == eps * payoutRatio
  {
    DividendProjection(year, eps, payoutRatio, dps.GetOr(eps * payoutRatio))
  }

  /** The model's inputs: the projections, the cost of equity `ke`, the
      perpetual growth `g` and an optional terminal P/E. */
  datatype DdmModel = DdmModel(projections: seq<DividendProjection>, costOfEquity: real,
                               terminalGrowth: real, terminalPe: Option<real>)

  /** A model with the source's defaults: 3% terminal growth and no
      terminal P/E. */
  function DefaultModel(projections: seq<DividendProjection>, costOfEquity: real): (m: DdmModel)
    ensures m.projections == projections && m.costOfEquity == costOfEquity
    ensures m.terminalGrowth == 0.03 && m.terminalPe.None?
  {
    DdmModel(projections, costOfEquity, DefaultTerminalGrowth, None)
  }

  /** What a valuation reports; `terminalMethod` is `"gordon_growth"` or
      `"pe_multiple"`. */
  datatype DdmResult = DdmResult(pvExplicitDividends: real, terminalValueUndiscounted: real,
                                 pvTerminalValue: real, equityValuePerShare: real,
                                 terminalMethod: string, impliedGrowthRate: Option<real>)

  /** `1 / (1 + ke) ** period`. It fails exactly when the base is zero and
      the period is not; otherwise it undoes the growth of `period` years. */
  function DiscountFactor(ke: real, period: int): (r: Result<real>)
    ensures r.Err? <==> 1.0 + ke == 0.0 && period != 0
    ensures r.Err? ==> r.error == ZeroDivisionError
    ensures r.Ok? && period >= 0 ==> r.value * Pow(1.0 + ke, period) == 1.0
    ensures r.Ok? && period < 0 ==> r.value == Pow(1.0 + ke, -period)
    ensures 1.0 + ke > 0.0 ==> r.Ok? && r.value > 0.0
  {
    var base := 1.0 + ke;
    if period >= 0 then
      PowSign(base, period);
      var p := Pow(base, period);
      if p == 0.0 then Err(ZeroDivisionError) else Ok(1.0 / p)
    else if base == 0.0 then Err(ZeroDivisionError)
    else
      PowSign(base, -period);
      Ok(1.0 / (1.0 / Pow(base, -period)))
  }

  /** Every projection's year can be discounted at `ke`. */
  predicate Discountable(ps: seq<DividendProjection>, ke: real) {
    1.0 + ke != 0.0 || forall i :: 0 <= i < |ps| ==> ps[i].year == 0
  }

  /** One dividend brought back over its year. */
  function DiscountedDividend(p: DividendProjection, ke: real): real
    requires DiscountFactor(ke, p.year).Ok?
  {
    p.dps * DiscountFactor(ke, p.year).value
  }

  /** The discounted dividends, one per projection in order, or
      `ZeroDivisionError` when some year cannot be discounted. */
  function DiscountedDividends(ps: seq<DividendProjection>, ke: real): (r: Result<seq<real>>)
    ensures r.Ok? <==> Discountable(ps, ke)
    ensures r.Err? ==> r.error == ZeroDivisionError
    ensures r.Ok? ==> |r.value| == |ps|
    ensures r.Ok? ==> forall i :: 0 <= i < |ps| ==>
              DiscountFactor(ke, ps[i].year).Ok? && r.value[i] == DiscountedDividend(ps[i], ke)
  {
    if !Discountable(ps, ke) then Err(ZeroDivisionError)
    else Ok(seq(|ps|, i requires 0 <= i < |ps| => DiscountedDividend(ps[i], ke)))
  }

  /** `calculate_pv_dividends`: the total present value of the explicit
      dividends and the list it is the sum of. */
  function PvDividends(m: DdmModel): (r: Result<(real, seq<real>)>)
    ensures r.Ok? <==> Discountable(m.projections, m.costOfEquity)
    ensures r.Err? ==> r.error == ZeroDivisionError
    ensures r.Ok? ==> r.value.1 == DiscountedDividends(m.projections, m.costOfEquity).value
    ensures r.Ok? ==> r.value.0 == Sum(r.value.1)
  {
    var ds := DiscountedDividends(m.projections, m.costOfEquity);
    if ds.Err? then Err(ds.error) else Ok((Sum(ds.value), ds.value))
  }

  /** The loop of `calculate_pv_dividends`, one projection at a time. */
  method CalculatePvDividends(m: DdmModel) returns (r: Result<(real, seq<real>)>)
    ensures r == PvDividends(m)
  {
    var ps, ke := m.projections, m.costOfEquity;
    var discounted: seq<real> := [];
    for i := 0 to |ps|
      invariant |discounted| == i
      invariant forall j :: 0 <= j < i ==>
                  DiscountFactor(ke, ps[j].year).Ok? && discounted[j] == DiscountedDividend(ps[j], ke)
    {
      var df := DiscountFactor(ke, ps[i].year);
      if df.Err? {
        assert !Discountable(ps, ke);
        return Err(df.error);
      }
      discounted := discounted + [DiscountedDividend(ps[i], ke)];
    }
    assert Discountable(ps, ke) by {
      if 1.0 + ke == 0.0 {
        forall j | 0 <= j < |ps|
          ensures ps[j].year == 0
        {
          assert DiscountFactor(ke, ps[j].year).Ok?;
        }
      }
    }
    assert discounted == DiscountedDividends(ps, ke).value;
    return Ok((Sum(discounted), discounted));
  }

  /** With a base above zero and no negative dividend, the present value of
      the dividends is defined and not negative. */
  lemma PvDividendsNonNegative(m: DdmModel)
    requires 1.0 + m.costOfEquity > 0.0
    requires forall i :: 0 <= i < |m.projections| ==> m.projections[i].dps >= 0.0
    ensures PvDividends(m).Ok? && PvDividends(m).value.0 >= 0.0
  {
    var ds := PvDividends(m).value.1;
    forall i | 0 <= i < |ds|
      ensures ds[i] >= 0.0
    {
      var p := m.projections[i];
      MulNonNegative(p.dps, DiscountFactor(m.costOfEquity, p.year).value);
    }
    SumNonNegative(ds);
  }

  /** The last projection. */
  function Last(ps: seq<DividendProjection>): DividendProjection
    requires |ps| > 0
  {
    ps[|ps| - 1]
  }

  /** `t` is the Gordon price `dps_n * (1 + g) / (ke - g)` of the model at
      growth `g`, stated without the division. */
  predicate IsGordonPrice(m: DdmModel, t: real)
    requires |m.projections| > 0
  {
    t * (m.costOfEquity - m.terminalGrowth) == Last(m.projections).dps * (1.0 + m.terminalGrowth)
  }

  /** `pv`, grown at `ke` over the `n` years of the forecast, is `price`. */
  predicate GrowsBackTo(m: DdmModel, pv: real, price: real) {
    pv * Pow(1.0 + m.costOfEquity, |m.projections|) == price
  }

  /** Gordon growth terminal price `dps_n * (1 + g) / (ke - g)`. A growth rate
      not below the cost of equity raises `ValueError`; an empty forecast
      has no last dividend. */
  function TerminalGordon(m: DdmModel): (r: Result<real>)
    ensures r.Ok? <==> m.costOfEquity > m.terminalGrowth && |m.projections| > 0
    ensures m.costOfEquity <= m.terminalGrowth ==> r == Err(ValueError)
    ensures m.costOfEquity > m.terminalGrowth && |m.projections| == 0 ==> r == Err(IndexError)
    ensures r.Ok? ==> IsGordonPrice(m, r.value)
  {
    if m.costOfEquity <= m.terminalGrowth then Err(ValueError)
    else if |m.projections| == 0 then Err(IndexError)
    else Ok(Utils.GordonValue(Last(m.projections).dps, m.costOfEquity, m.terminalGrowth))
  }

  /** The P/E terminal price: last EPS times the multiple; no multiple
      raises `ValueError`. */
  function TerminalPe(m: DdmModel): (r: Result<real>)
    ensures r.Ok? <==> m.terminalPe.Some? && |m.projections| > 0
    ensures m.terminalPe.None? ==> r == Err(ValueError)
    ensures m.terminalPe.Some? && |m.projections| == 0 ==> r == Err(IndexError)
    ensures r.Ok? ==> r.value == Last(m.projections).eps * m.terminalPe.value
    ensures r.Ok? && m.terminalPe.value != 0.0 ==> r.value / m.terminalPe.value == Last(m.projections).eps
  {
    if m.terminalPe.None? then Err(ValueError)
    else if |m.projections| == 0 then Err(IndexError)
    else Ok(Last(m.projections).eps * m.terminalPe.value)
  }

  /** The terminal price brought back over `n = len(projections)` years. */
  function DiscountTerminal(m: DdmModel, price: real): (r: Result<real>)
    ensures r.Ok? <==> 1.0 + m.costOfEquity != 0.0 || |m.projections| == 0
    ensures r.Err? ==> r.error == ZeroDivisionError
    ensures r.Ok? ==> GrowsBackTo(m, r.value, price)
  {
    var df := DiscountFactor(m.costOfEquity, |m.projections|);
    if df.Err? then Err(df.error)
    else
      var n := |m.projections|;
      assert price * df.value * Pow(1.0 + m.costOfEquity, n) == price * (df.value * Pow(1.0 + m.costOfEquity, n));
      Ok(price * df.value)
  }

  /** The growth rate that a Gordon model would need to reach `price` from
      the last dividend: `g = (price * ke - dps) / (price + dps)`, or zero
      when the dividend, the price or the denominator is zero. */
  function ImpliedGrowth(m: DdmModel, price: real): (r: Result<real>)
    ensures r.Ok? <==> |m.projections| > 0
    ensures r.Err? ==> r.error == IndexError
    ensures r.Ok? ==> var d := Last(m.projections).dps;
              && (d == 0.0 || price == 0.0 || price + d == 0.0 ==> r.value == 0.0)
              && (d != 0.0 && price != 0.0 && price + d != 0.0 ==> r.value * (price + d) == price * m.costOfEquity - d)
  {
    if |m.projections| == 0 then Err(IndexError)
    else
      var d := Last(m.projections).dps;
      if d == 0.0 || price == 0.0 then Ok(0.0)
      else
        var denominator := price + d;
        if denominator != 0.0 then Ok((price * m.costOfEquity - d) / denominator) else Ok(0.0)
  }

  /** A price that Gordon growth at `g` would give from the last dividend
      yields `g` back as the implied growth rate. */
  lemma ImpliedGrowthInvertsGordon(m: DdmModel, g: real, price: real)
    requires |m.projections| > 0
    requires price * (m.costOfEquity - g) == Last(m.projections).dps * (1.0 + g)
    requires Last(m.projections).dps != 0.0 && price != 0.0 && price + Last(m.projections).dps != 0.0
    ensures ImpliedGrowth(m, price) == Ok(g)
  {
    var d, ke := Last(m.projections).dps, m.costOfEquity;
    var r := ImpliedGrowth(m, price).value;
    assert price * ke - d == g * (price + d);
    assert (r - g) * (price + d) == 0.0;
    ZeroFactor(r - g, price + d);
  }

  /** Valuation with the Gordon growth terminal price. */
  function ValueGordonGrowth(m: DdmModel): (r: Result<DdmResult>)
    ensures r.Ok? <==> 1.0 + m.costOfEquity != 0.0 && m.costOfEquity > m.terminalGrowth && |m.projections| > 0
    ensures !Discountable(m.projections, m.costOfEquity) ==> r == Err(ZeroDivisionError)
    ensures Discountable(m.projections, m.costOfEquity) && m.costOfEquity <= m.terminalGrowth ==> r == Err(ValueError)
    ensures m.costOfEquity > m.terminalGrowth && |m.projections| == 0 ==> r == Err(IndexError)
    ensures m.costOfEquity > m.terminalGrowth && 1.0 + m.costOfEquity == 0.0 && |m.projections| > 0 ==>
              r == Err(ZeroDivisionError)
    ensures r.Ok? ==> var v := r.value;
              && v.pvExplicitDividends == Sum(DiscountedDividends(m.projections, m.costOfEquity).value)
              && IsGordonPrice(m, v.terminalValueUndiscounted)
              && GrowsBackTo(m, v.pvTerminalValue, v.terminalValueUndiscounted)
              && v.equityValuePerShare == v.pvExplicitDividends + v.pvTerminalValue
              && v.terminalMethod == "gordon_growth" && v.impliedGrowthRate.None?
  {
    var pv :- PvDividends(m);
    var price :- TerminalGordon(m);
    var pvTerminal :- DiscountTerminal(m, price);
    Ok(DdmResult(pv.0, price, pvTerminal, pv.0 + pvTerminal, "gordon_growth", None))
  }

  /** Valuation with the P/E terminal price, reporting the growth rate that
      price implies. */
  function ValuePeMultiple(m: DdmModel): (r: Result<DdmResult>)
    ensures r.Ok? <==> m.terminalPe.Some? && 1.0 + m.costOfEquity != 0.0 && |m.projections| > 0
    ensures m.terminalPe.None? ==> r == Err(ValueError)
    ensures m.terminalPe.Some? && |m.projections| == 0 ==> r == Err(IndexError)
    ensures m.terminalPe.Some? && 1.0 + m.costOfEquity == 0.0 && |m.projections| > 0 ==> r == Err(ZeroDivisionError)
    ensures r.Ok? ==> var v := r.value;
              && v.pvExplicitDividends == Sum(DiscountedDividends(m.projections, m.costOfEquity).value)
              && v.terminalValueUndiscounted == Last(m.projections).eps * m.terminalPe.value
              && GrowsBackTo(m, v.pvTerminalValue, v.terminalValueUndiscounted)
              && v.equityValuePerShare == v.pvExplicitDividends + v.pvTerminalValue
              && v.terminalMethod == "pe_multiple"
              && v.impliedGrowthRate == Some(ImpliedGrowth(m, v.terminalValueUndiscounted).value)
  {
    if m.terminalPe.None? then Err(ValueError)
    else
      var pv :- PvDividends(m);
      var price :- TerminalPe(m);
      var pvTerminal :- DiscountTerminal(m, price);
      Ok(DdmResult(pv.0, price, pvTerminal, pv.0 + pvTerminal, "pe_multiple", Some(ImpliedGrowth(m, price).value)))
  }

  /** `value(method)`: the two terminal methods by name; any other name
      raises `ValueError`. */
  function Value(m: DdmModel, name: string): (r: Result<DdmResult>)
    ensures name == "gordon_growth" ==> r == ValueGordonGrowth(m)
    ensures name == "pe_multiple" ==> r == ValuePeMultiple(m)
    ensures name != "gordon_growth" && name != "pe_multiple" ==> r == Err(ValueError)
    ensures r.Ok? ==> r.value.terminalMethod == name
  {
    if name == "gordon_growth" then ValueGordonGrowth(m)
    else if name == "pe_multiple" then ValuePeMultiple(m)
    else Err(ValueError)
  }

  /** With a positive last dividend and a base above zero, a higher growth
      rate (still below the cost of equity) gives a higher terminal price. */
  lemma TerminalGordonIncreasesWithGrowth(m: DdmModel, g1: real, g2: real)
    requires |m.projections| > 0 && Last(m.projections).dps > 0.0 && 1.0 + m.costOfEquity > 0.0
    requires g1 < g2 < m.costOfEquity
    ensures TerminalGordon(m.(terminalGrowth := g1)).value < TerminalGordon(m.(terminalGrowth := g2)).value
  {
    var ke, d := m.costOfEquity, Last(m.projections).dps;
    var t1 := TerminalGordon(m.(terminalGrowth := g1)).value;
    var t2 := TerminalGordon(m.(terminalGrowth := g2)).value;
    GordonIncreasing(t1, t2, d, ke, g1, g2);
  }

  /** Two Gordon prices of the same positive dividend: the one with the
      higher growth rate is higher. */
  lemma GordonIncreasing(t1: real, t2: real, d: real, ke: real, g1: real, g2: real)
    requires t1 * (ke - g1) == d * (1.0 + g1) && t2 * (ke - g2) == d * (1.0 + g2)
    requires d > 0.0 && 1.0 + ke > 0.0 && g1 < g2 < ke
    ensures t1 < t2
  {
    GordonDifference(t1, t2, d, ke, g1, g2);
    var k := d * (1.0 + ke);
    ProductPositive(d, 1.0 + ke);
    ProductPositive(k, g2 - g1);
    ProductPositive(ke - g1, ke - g2);
    QuotientPositive(t2 - t1, (ke - g1) * (ke - g2), k * (g2 - g1));
  }

  /** The gap between two Gordon prices, cleared of denominators. */
  lemma GordonDifference(t1: real, t2: real, d: real, ke: real, g1: real, g2: real)
    requires t1 * (ke - g1) == d * (1.0 + g1) && t2 * (ke - g2) == d * (1.0 + g2)
    ensures (t2 - t1) * ((ke - g1) * (ke - g2)) == d * (1.0 + ke) * (g2 - g1)
  {
    assert t2 * (ke - g2) * (ke - g1) == d * (1.0 + g2) * (ke - g1);
    assert t1 * (ke - g1) * (ke - g2) == d * (1.0 + g1) * (ke - g2);
    assert (1.0 + g2) * (ke - g1) - (1.0 + g1) * (ke - g2) == (1.0 + ke) * (g2 - g1);
  }

  lemma ProductPositive(x: real, y: real)
    requires x > 0.0 && y > 0.0
    ensures x * y > 0.0
  {
  }

  lemma QuotientPositive(x: real, y: real, z: real)
    requires y > 0.0 && z > 0.0 && x * y == z
    ensures x > 0.0
  {
  }

  lemma ZeroFactor(x: real, y: real)
    requires y != 0.0 && x * y == 0.0
    ensures x == 0.0
  {
  }

  /** Raising the growth rate raises the Gordon value per share, all else
      equal: the dividends are unchanged and the terminal price goes up. */
  lemma ValueIncreasesWithGrowth(m: DdmModel, g1: real, g2: real)
    requires |m.projections| > 0 && Last(m.projections).dps > 0.0 && 1.0 + m.costOfEquity > 0.0
    requires g1 < g2 < m.costOfEquity
    ensures ValueGordonGrowth(m.(terminalGrowth := g1)).value.equityValuePerShare
            < ValueGordonGrowth(m.(terminalGrowth := g2)).value.equityValuePerShare
  {
    var v1 := ValueGordonGrowth(m.(terminalGrowth := g1)).value;
    var v2 := ValueGordonGrowth(m.(terminalGrowth := g2)).value;
    TerminalGordonIncreasesWithGrowth(m, g1, g2);
    var p := Pow(1.0 + m.costOfEquity, |m.projections|);
    PowSign(1.0 + m.costOfEquity, |m.projections|);
    assert v1.pvTerminalValue * p < v2.pvTerminalValue * p;
  }

  /** With a P/E chosen to match the Gordon price, the P/E valuation
      reports the Gordon growth rate as the implied one. */
  lemma PeMatchingGordonImpliesGrowth(m: DdmModel)
    requires ValuePeMultiple(m).Ok? && TerminalGordon(m).Ok?
    requires ValuePeMultiple(m).value.terminalValueUndiscounted == TerminalGordon(m).value
    requires Last(m.projections).dps != 0.0 && TerminalGordon(m).value != 0.0
    requires TerminalGordon(m).value + Last(m.projections).dps != 0.0
    ensures ValuePeMultiple(m).value.impliedGrowthRate == Some(m.terminalGrowth)
  {
    ImpliedGrowthInvertsGordon(m, m.terminalGrowth, TerminalGordon(m).value);
  }

  /** `DDMModel(projections, ke, g, pe)` built from an EPS forecast and a
      constant payout ratio: year `i + 1` for the `i`-th forecast, dividend
      `eps * payout`. */
  function FromEpsForecast(epsForecasts: seq<real>, payoutRatio: real, costOfEquity: real,
                           terminalGrowth: real, terminalPe: Option<real>): (m: DdmModel)
    ensures |m.projections| == |epsForecasts|
    ensures forall i :: 0 <= i < |epsForecasts| ==>
              m.projections[i] == DividendProjection(i + 1, epsForecasts[i], payoutRatio, epsForecasts[i] * payoutRatio)
    ensures m.costOfEquity == costOfEquity && m.terminalGrowth == terminalGrowth && m.terminalPe == terminalPe
  {
    var ps := seq(|epsForecasts|, i requires 0 <= i < |epsForecasts| =>
                  Projection(i + 1, epsForecasts[i], payoutRatio, None));
    DdmModel(ps, costOfEquity, terminalGrowth, terminalPe)
  }

  /** A model from explicit dividends: year `i + 1`, zero earnings and
      payout, and no terminal P/E. */
  function FromDividendForecast(dpsForecasts: seq<real>, costOfEquity: real, terminalGrowth: real): (m: DdmModel)
    ensures |m.projections| == |dpsForecasts|
    ensures forall i :: 0 <= i < |dpsForecasts| ==>
              m.projections[i] == DividendProjection(i + 1, 0.0, 0.0, dpsForecasts[i])
    ensures m.costOfEquity == costOfEquity && m.terminalGrowth == terminalGrowth && m.terminalPe.None?
  {
    var ps := seq(|dpsForecasts|, i requires 0 <= i < |dpsForecasts| =>
                  Projection(i + 1, 0.0, 0.0, Some(dpsForecasts[i])));
    DdmModel(ps, costOfEquity, terminalGrowth, None)
  }

  /** A dividend discounted over `n` years and grown back over them is the
      dividend again. */
  lemma UndiscountYear(dps: real, ke: real, n: nat)
    requires 1.0 + ke != 0.0
    ensures DiscountedDividend(DividendProjection(n, 0.0, 0.0, dps), ke) * Pow(1.0 + ke, n) == dps
  {
    var f := DiscountFactor(ke, n).value;
    assert dps * f * Pow(1.0 + ke, n) == dps * (f * Pow(1.0 + ke, n));
  }

  /** Each forecast dividend, discounted, grows back to `dps` over its
      `i + 1` years; the forecast years are never zero, so with a non-zero
      base the whole list is discountable. */
  lemma ForecastDiscounting(dpsForecasts: seq<real>, costOfEquity: real, terminalGrowth: real)
    requires 1.0 + costOfEquity != 0.0
    ensures var m := FromDividendForecast(dpsForecasts, costOfEquity, terminalGrowth);
            var ds := DiscountedDividends(m.projections, costOfEquity);
            && ds.Ok?
            && forall i :: 0 <= i < |dpsForecasts| ==>
                 ds.value[i] * Pow(1.0 + costOfEquity, i + 1) == dpsForecasts[i]
  {
    var m := FromDividendForecast(dpsForecasts, costOfEquity, terminalGrowth);
    var ds := DiscountedDividends(m.projections, costOfEquity).value;
    forall i | 0 <= i < |dpsForecasts|
      ensures ds[i] * Pow(1.0 + costOfEquity, i + 1) == dpsForecasts[i]
    {
      UndiscountYear(dpsForecasts[i], costOfEquity, i + 1);
      assert ds[i] == DiscountedDividend(m.projections[i], costOfEquity);
    }
  }

  /** A model with only explicit dividends has no P/E, so valuing it by the
      P/E method raises. */
  lemma DividendForecastHasNoPe(dpsForecasts: seq<real>, costOfEquity: real, terminalGrowth: real)
    ensures Value(FromDividendForecast(dpsForecasts, costOfEquity, terminalGrowth), "pe_multiple") == Err(ValueError)
  {
  }

  /** Under the defaults the P/E method always raises, and the Gordon
      method raises `ValueError` for a cost of equity at or below the 3%
      growth, once the dividends can be discounted. */
  lemma DefaultModelValuations(projections: seq<DividendProjection>, costOfEquity: real)
    ensures Value(DefaultModel(projections, costOfEquity), "pe_multiple") == Err(ValueError)
    ensures 1.0 + costOfEquity > 0.0 && costOfEquity <= 0.03 ==>
              Value(DefaultModel(projections, costOfEquity), "gordon_growth") == Err(ValueError)
  {
  }
}
