/** The institutional DCF: unlevered free cash flows discounted at the WACC
    under the mid-year convention and a stub first period, a terminal value
    by perpetuity growth or by an exit EBITDA multiple, and the bridge from
    enterprise value to equity value and value per share.

    Discount periods are fractional, so `(1 + wacc) ** period` is a real
    power; it is the parameter `pow`, and a zero power raises
    `ZeroDivisionError` as Python's `1 / 0.0` does.
 */
module Dcf {
  import opened Wrappers
  import opened Seqs
  import Utils

  /** One projected year. `ebitda` is already filled in (see `Projection`). */
  datatype UfcfProjection = UfcfProjection(
    year: int,
    revenue: real,
    ebit: real,
    taxRate: real,
    depreciationAmortization: real,
    capex: real,
    deltaNwc: real,
    sbc: real,
    addBackSbc: bool,
    ebitda: real)
  {
    /** Net operating profit after tax: the EBIT less the tax on it, so
        never more than the EBIT nor below zero for a positive EBIT at a
        rate between zero and one. */
    function Nopat(): (n: real)
      ensures n + ebit * taxRate == ebit
      ensures ebit >= 0.0 && 0.0 <= taxRate <= 1.0 ==> 0.0 <= n <= ebit
    {
      ebit * (1.0 - taxRate)
    }

    /** Unlevered free cash flow: after-tax operating profit plus D&A, less
        capex and the working-capital build; stock compensation is added back
        only when asked. */
    function Ufcf(): (u: real)
      ensures u == Nopat() + depreciationAmortization - capex - deltaNwc + (if addBackSbc then sbc else 0.0)
    {
      var fcf := Nopat() + depreciationAmortization - capex - deltaNwc;
      if addBackSbc then fcf + sbc else fcf
    }
  }

  /** Building a projection: a missing EBITDA becomes EBIT plus D&A, a given
      one is kept. */
  function Projection(year: int, revenue: real, ebit: real, taxRate: real, da: real, capex: real,
                      deltaNwc: real, sbc: real, addBackSbc: bool, ebitda: Option<real>): (p: UfcfProjection)
    ensures p.year == year && p.revenue == revenue && p.ebit == ebit && p.taxRate == taxRate
    ensures p.depreciationAmortization == da && p.capex == capex && p.deltaNwc == deltaNwc
    ensures p.sbc == sbc && p.addBackSbc == addBackSbc
    ensures ebitda.Some? ==> p.ebitda == ebitda.value
    ensures ebitda.None? ==> p.ebitda - da == ebit
  {
    UfcfProjection(year, revenue, ebit, taxRate, da, capex, deltaNwc, sbc, addBackSbc, ebitda.GetOr(ebit + da))
  }

  /** Adding stock compensation back raises free cash flow by exactly the
      compensation, and changes nothing else. */
  lemma SbcAddBack(p: UfcfProjection)
    ensures p.(addBackSbc := true).Ufcf() - p.(addBackSbc := false).Ufcf() == p.sbc
  {
  }

  /** The default perpetual growth rate. */
  const DefaultTerminalGrowth: real := 0.025

  datatype DcfModel = DcfModel(
    projections: seq<UfcfProjection>,
    wacc: real,
    terminalGrowth: real,
    exitMultiple: Option<real>,
    netDebt: real,
    sharesOutstanding: Option<real>,
    midYearConvention: bool,
    stubFraction: real)

  /** A model with the source's defaults: 2.5% terminal growth, no exit
      multiple, no net debt, no share count, the mid-year convention and a
      full first year. */
  function DefaultModel(projections: seq<UfcfProjection>, wacc: real): (m: DcfModel)
    ensures m.projections == projections && m.wacc == wacc
    ensures m.terminalGrowth == 0.025 && m.exitMultiple.None? && m.netDebt == 0.0 && m.sharesOutstanding.None?
    ensures m.midYearConvention && m.stubFraction == 1.0
  {
    DcfModel(projections, wacc, DefaultTerminalGrowth, None, 0.0, None, true, 1.0)
  }

  datatype DcfResult = DcfResult(
    pvExplicitCashflows: real,
    terminalValueUndiscounted: real,
    pvTerminalValue: real,
    enterpriseValue: real,
    equityValue: real,
    equityValuePerShare: Option<real>,
    terminalMethod: string,
    impliedPerpetualGrowth: Option<real>)

  /** The end of the `i`-th projection year: the stub for the first, a full
      year more for each after it. */
  function EndOfPeriod(stub: real, i: nat): real {
    if i == 0 then stub else stub + i as real
  }

  /** The discount period of the `i`-th projection year: its end, or, under
      the mid-year convention, the middle of the year (the middle of the
      stub for the first). */
  function DiscountPeriod(stub: real, midYear: bool, i: nat): (t: real)
    ensures !midYear ==> t == EndOfPeriod(stub, i)
    ensures midYear && i == 0 ==> t + t == stub
    ensures midYear && i > 0 ==> t + 0.5 == EndOfPeriod(stub, i)
  {
    var base := EndOfPeriod(stub, i);
    var adjustment := if i == 0 then stub / 2.0 else 0.5;
    if midYear then base - adjustment else base
  }

  /** `_get_discount_periods`: one period per projection, in order. */
  function DiscountPeriods(m: DcfModel): (ts: seq<real>)
    ensures |ts| == |m.projections|
    ensures forall i :: 0 <= i < |ts| ==> ts[i] == DiscountPeriod(m.stubFraction, m.midYearConvention, i)
  {
    seq(|m.projections|, i requires 0 <= i < |m.projections| =>
        DiscountPeriod(m.stubFraction, m.midYearConvention, i))
  }

  /** The loop of `_get_discount_periods`. */
  method GetDiscountPeriods(m: DcfModel) returns (periods: seq<real>)
    ensures periods == DiscountPeriods(m)
  {
    periods := [];
    for i := 0 to |m.projections|
      invariant |periods| == i
      invariant forall j :: 0 <= j < i ==> periods[j] == DiscountPeriod(m.stubFraction, m.midYearConvention, j)
    {
      var basePeriod, midYearAdjustment;
      if i == 0 {
        basePeriod := m.stubFraction;
        midYearAdjustment := m.stubFraction / 2.0;
      } else {
        basePeriod := m.stubFraction + i as real;
        midYearAdjustment := 0.5;
      }
      var period := if m.midYearConvention then basePeriod - midYearAdjustment else basePeriod;
      periods := periods + [period];
    }
  }

  /** Later years are discounted over longer periods: always at year end,
      and under the mid-year convention as soon as the stub exceeds -1. */
  lemma DiscountPeriodsIncreasing(m: DcfModel, i: nat, j: nat)
    requires i < j < |m.projections|
    requires m.midYearConvention ==> m.stubFraction > -1.0
    ensures DiscountPeriods(m)[i] < DiscountPeriods(m)[j]
  {
  }

  /** With a non-negative stub, the mid-year period never comes after the
      end of its year. */
  lemma MidYearNoLater(stub: real, i: nat)
    requires stub >= 0.0
    ensures DiscountPeriod(stub, true, i) <= DiscountPeriod(stub, false, i)
  {
  }

  /** `1 / (1 + wacc) ** period`; a zero power raises. */
  function DiscountFactor(wacc: real, period: real, pow: (real, real) -> real): (r: Result<real>)
    ensures r.Err? <==> pow(1.0 + wacc, period) == 0.0
    ensures r.Err? ==> r.error == ZeroDivisionError
    ensures r.Ok? ==> r.value * pow(1.0 + wacc, period) == 1.0
  {
    var p := pow(1.0 + wacc, period);
    if p == 0.0 then Err(ZeroDivisionError) else Ok(1.0 / p)
  }

  /** Every explicit year has a discount factor. */
  predicate Discountable(m: DcfModel, pow: (real, real) -> real) {
    forall i :: 0 <= i < |m.projections| ==> DiscountFactor(m.wacc, DiscountPeriods(m)[i], pow).Ok?
  }

  /** The `i`-th cash flow brought back over its discount period. */
  function DiscountedCashflow(m: DcfModel, i: nat, pow: (real, real) -> real): real
    requires i < |m.projections| && DiscountFactor(m.wacc, DiscountPeriods(m)[i], pow).Ok?
  {
    m.projections[i].Ufcf() * DiscountFactor(m.wacc, DiscountPeriods(m)[i], pow).value
  }

  /** `calculate_pv_explicit`: the discounted cash flows in year order and
      their total, or `ZeroDivisionError` when some year has no discount
      factor. */
  function PvExplicit(m: DcfModel, pow: (real, real) -> real): (r: Result<(real, seq<real>)>)
    ensures r.Ok? <==> Discountable(m, pow)
    ensures r.Err? ==> r.error == ZeroDivisionError
    ensures r.Ok? ==> |r.value.1| == |m.projections| && r.value.0 == Sum(r.value.1)
    ensures r.Ok? ==> forall i :: 0 <= i < |m.projections| ==> r.value.1[i] == DiscountedCashflow(m, i, pow)
  {
    if !Discountable(m, pow) then Err(ZeroDivisionError)
    else
      var ds := seq(|m.projections|, i requires 0 <= i < |m.projections| => DiscountedCashflow(m, i, pow));
      Ok((Sum(ds), ds))
  }

  /** The loop of `calculate_pv_explicit`, over the projections zipped with
      their periods. */
  method CalculatePvExplicit(m: DcfModel, pow: (real, real) -> real) returns (r: Result<(real, seq<real>)>)
    ensures r == PvExplicit(m, pow)
  {
    var periods := GetDiscountPeriods(m);
    var discounted: seq<real> := [];
    for i := 0 to |m.projections|
      invariant |discounted| == i
      invariant forall j :: 0 <= j < i ==>
                  DiscountFactor(m.wacc, periods[j], pow).Ok? && discounted[j] == DiscountedCashflow(m, j, pow)
    {
      var df := DiscountFactor(m.wacc, periods[i], pow);
      if df.Err? {
        return Err(df.error);
      }
      discounted := discounted + [m.projections[i].Ufcf() * df.value];
    }
    assert discounted == PvExplicit(m, pow).value.1;
    return Ok((Sum(discounted), discounted));
  }

  /** The last projection. */
  function Last(ps: seq<UfcfProjection>): UfcfProjection
    requires |ps| > 0
  {
    ps[|ps| - 1]
  }

  /** `t` is the perpetuity value `ufcf_n * (1 + g) / (wacc - g)`, stated
      without the division. */
  predicate IsPerpetuityValue(m: DcfModel, t: real)
    requires |m.projections| > 0
  {
    t * (m.wacc - m.terminalGrowth) == Last(m.projections).Ufcf() * (1.0 + m.terminalGrowth)
  }

  /** Gordon growth on the last cash flow. Growth not below the WACC raises
      `ValueError`; an empty forecast has no last year. */
  function TerminalValuePerpetuity(m: DcfModel): (r: Result<real>)
    ensures r.Ok? <==> m.wacc > m.terminalGrowth && |m.projections| > 0
    ensures m.wacc <= m.terminalGrowth ==> r == Err(ValueError)
    ensures m.wacc > m.terminalGrowth && |m.projections| == 0 ==> r == Err(IndexError)
    ensures r.Ok? ==> IsPerpetuityValue(m, r.value)
  {
    if m.wacc <= m.terminalGrowth then Err(ValueError)
    else if |m.projections| == 0 then Err(IndexError)
    else Ok(Utils.GordonValue(Last(m.projections).Ufcf(), m.wacc, m.terminalGrowth))
  }

  /** Last EBITDA times the exit multiple; no multiple raises `ValueError`. */
  function TerminalValueExitMultiple(m: DcfModel): (r: Result<real>)
    ensures r.Ok? <==> m.exitMultiple.Some? && |m.projections| > 0
    ensures m.exitMultiple.None? ==> r == Err(ValueError)
    ensures m.exitMultiple.Some? && |m.projections| == 0 ==> r == Err(IndexError)
    ensures r.Ok? ==> r.value == Last(m.projections).ebitda * m.exitMultiple.value
    ensures r.Ok? && m.exitMultiple.value != 0.0 ==> r.value / m.exitMultiple.value == Last(m.projections).ebitda
  {
    if m.exitMultiple.None? then Err(ValueError)
    else if |m.projections| == 0 then Err(IndexError)
    else Ok(Last(m.projections).ebitda * m.exitMultiple.value)
  }

  /** The growth rate a terminal value implies for the last cash flow,
      through the shared implied-growth formula (zero when its denominator
      vanishes). */
  function ImpliedGrowthFromMultiple(m: DcfModel, tv: real): (r: Result<real>)
    ensures r.Ok? <==> |m.projections| > 0
    ensures r.Err? ==> r.error == IndexError
    ensures r.Ok? ==> var u := Last(m.projections).Ufcf();
              && (tv + u == 0.0 ==> r.value == 0.0)
              && (tv + u != 0.0 ==> r.value * (tv + u) == tv * m.wacc - u)
  {
    if |m.projections| == 0 then Err(IndexError)
    else Ok(Utils.ImpliedPerpetualGrowth(tv, Last(m.projections).Ufcf(), m.wacc))
  }

  /** An exit value equal to the perpetuity value implies the model's own
      terminal growth rate. */
  lemma ImpliedGrowthInvertsPerpetuity(m: DcfModel, tv: real)
    requires |m.projections| > 0 && IsPerpetuityValue(m, tv)
    requires tv + Last(m.projections).Ufcf() != 0.0
    ensures ImpliedGrowthFromMultiple(m, tv) == Ok(m.terminalGrowth)
  {
    var u, g := Last(m.projections).Ufcf(), m.terminalGrowth;
    var r := ImpliedGrowthFromMultiple(m, tv).value;
    assert tv * m.wacc - u == g * (tv + u);
    assert (r - g) * (tv + u) == 0.0;
    ZeroFactor(r - g, tv + u);
  }

  lemma ZeroFactor(x: real, y: real)
    requires y != 0.0 && x * y == 0.0
    ensures x == 0.0
  {
  }

  /** The period the terminal value is discounted over: the end of the last
      year for a stub shorter than a year, else the number of years. */
  function TerminalPeriod(m: DcfModel): (t: real)
    ensures m.stubFraction >= 1.0 ==> t == |m.projections| as real
    ensures m.stubFraction < 1.0 ==> t - m.stubFraction == |m.projections| as real - 1.0
  {
    var n := |m.projections|;
    if m.stubFraction < 1.0 then m.stubFraction + (n - 1) as real else n as real
  }

  /** For a stub of at most a year, the terminal value is discounted from
      the end of the last explicit year, never from its middle. */
  lemma TerminalAtLastYearEnd(m: DcfModel)
    requires |m.projections| > 0 && m.stubFraction <= 1.0
    ensures TerminalPeriod(m) == EndOfPeriod(m.stubFraction, |m.projections| - 1)
    ensures TerminalPeriod(m) == DiscountPeriods(m.(midYearConvention := false))[|m.projections| - 1]
  {
  }

  /** `pv` grown back over the terminal period is `tv`. */
  predicate GrowsBackTo(m: DcfModel, pv: real, tv: real, pow: (real, real) -> real) {
    pv * pow(1.0 + m.wacc, TerminalPeriod(m)) == tv
  }

  /** The terminal value brought back over the terminal period. */
  function DiscountTerminal(m: DcfModel, tv: real, pow: (real, real) -> real): (r: Result<real>)
    ensures r.Ok? <==> pow(1.0 + m.wacc, TerminalPeriod(m)) != 0.0
    ensures r.Err? ==> r.error == ZeroDivisionError
    ensures r.Ok? ==> GrowsBackTo(m, r.value, tv, pow)
  {
    var df := DiscountFactor(m.wacc, TerminalPeriod(m), pow);
    if df.Err? then Err(df.error)
    else
      var p := pow(1.0 + m.wacc, TerminalPeriod(m));
      assert tv * df.value * p == tv * (df.value * p);
      Ok(tv * df.value)
  }

  /** The enterprise-to-equity bridge shared by both methods: EV is the sum
      of the explicit and terminal present values, equity is EV less net
      debt, and a per-share value exists exactly when a positive share count
      is given. */
  function Bridge(m: DcfModel, pvExplicit: real, tv: real, pvTv: real, methodName: string,
                  impliedGrowth: Option<real>): (v: DcfResult)
    ensures v.pvExplicitCashflows == pvExplicit && v.terminalValueUndiscounted == tv && v.pvTerminalValue == pvTv
    ensures v.enterpriseValue - pvTv == pvExplicit
    ensures v.equityValue + m.netDebt == v.enterpriseValue
    ensures v.equityValuePerShare == Utils.Ratio(v.equityValue, m.sharesOutstanding)
    ensures v.terminalMethod == methodName && v.impliedPerpetualGrowth == impliedGrowth
  {
    var ev := pvExplicit + pvTv;
    var equity := ev - m.netDebt;
    DcfResult(pvExplicit, tv, pvTv, ev, equity, Utils.Ratio(equity, m.sharesOutstanding), methodName, impliedGrowth)
  }

  /** Valuation by perpetuity growth. */
  function ValuePerpetuity(m: DcfModel, pow: (real, real) -> real): (r: Result<DcfResult>)
    ensures r.Ok? <==> Discountable(m, pow) && m.wacc > m.terminalGrowth && |m.projections| > 0
                       && pow(1.0 + m.wacc, TerminalPeriod(m)) != 0.0
    ensures !Discountable(m, pow) ==> r == Err(ZeroDivisionError)
    ensures Discountable(m, pow) && m.wacc <= m.terminalGrowth ==> r == Err(ValueError)
    ensures Discountable(m, pow) && m.wacc > m.terminalGrowth && |m.projections| == 0 ==> r == Err(IndexError)
    ensures r.Ok? ==> var v := r.value;
              && v.pvExplicitCashflows == PvExplicit(m, pow).value.0
              && IsPerpetuityValue(m, v.terminalValueUndiscounted)
              && GrowsBackTo(m, v.pvTerminalValue, v.terminalValueUndiscounted, pow)
              && v == Bridge(m, v.pvExplicitCashflows, v.terminalValueUndiscounted, v.pvTerminalValue,
                             "perpetuity_growth", None)
  {
    var pv :- PvExplicit(m, pow);
    var tv :- TerminalValuePerpetuity(m);
    var pvTv :- DiscountTerminal(m, tv, pow);
    Ok(Bridge(m, pv.0, tv, pvTv, "perpetuity_growth", None))
  }

  /** Valuation by exit multiple, reporting the growth rate the exit value
      implies. */
  function ValueExitMultiple(m: DcfModel, pow: (real, real) -> real): (r: Result<DcfResult>)
    ensures r.Ok? <==> m.exitMultiple.Some? && Discountable(m, pow) && |m.projections| > 0
                       && pow(1.0 + m.wacc, TerminalPeriod(m)) != 0.0
    ensures m.exitMultiple.None? ==> r == Err(ValueError)
    ensures m.exitMultiple.Some? && !Discountable(m, pow) ==> r == Err(ZeroDivisionError)
    ensures m.exitMultiple.Some? && |m.projections| == 0 ==> r == Err(IndexError)
    ensures r.Ok? ==> var v := r.value;
              && v.pvExplicitCashflows == PvExplicit(m, pow).value.0
              && v.terminalValueUndiscounted == Last(m.projections).ebitda * m.exitMultiple.value
              && GrowsBackTo(m, v.pvTerminalValue, v.terminalValueUndiscounted, pow)
              && v == Bridge(m, v.pvExplicitCashflows, v.terminalValueUndiscounted, v.pvTerminalValue,
                             "exit_multiple", Some(ImpliedGrowthFromMultiple(m, v.terminalValueUndiscounted).value))
  {
    if m.exitMultiple.None? then Err(ValueError)
    else
      var pv :- PvExplicit(m, pow);
      var tv :- TerminalValueExitMultiple(m);
      var pvTv :- DiscountTerminal(m, tv, pow);
      Ok(Bridge(m, pv.0, tv, pvTv, "exit_multiple", Some(ImpliedGrowthFromMultiple(m, tv).value)))
  }

  /** `value(method)`: `"perpetuity"` or `"exit_multiple"`; any other name
      raises `ValueError`. */
  function Value(m: DcfModel, name: string, pow: (real, real) -> real): (r: Result<DcfResult>)
    ensures name == "perpetuity" ==> r == ValuePerpetuity(m, pow)
    ensures name == "exit_multiple" ==> r == ValueExitMultiple(m, pow)
    ensures name != "perpetuity" && name != "exit_multiple" ==> r == Err(ValueError)
  {
    if name == "perpetuity" then ValuePerpetuity(m, pow)
    else if name == "exit_multiple" then ValueExitMultiple(m, pow)
    else Err(ValueError)
  }

  /** The terminal value's share of enterprise value; zero when enterprise
      value is zero. */
  function TerminalValuePercentage(m: DcfModel, name: string, pow: (real, real) -> real): (r: Result<real>)
    ensures r.Ok? <==> Value(m, name, pow).Ok?
    ensures r.Err? ==> r.error == Value(m, name, pow).error
    ensures r.Ok? ==> var v := Value(m, name, pow).value;
              && (v.enterpriseValue == 0.0 ==> r.value == 0.0)
              && (v.enterpriseValue != 0.0 ==> r.value * v.enterpriseValue == v.pvTerminalValue)
  {
    var v :- Value(m, name, pow);
    if v.enterpriseValue == 0.0 then Ok(0.0) else Ok(v.pvTerminalValue / v.enterpriseValue)
  }

  /** When both present values are non-negative and EV is positive, the
      terminal share lies between zero and one. */
  lemma TerminalShareBounded(m: DcfModel, name: string, pow: (real, real) -> real)
    requires Value(m, name, pow).Ok?
    requires Value(m, name, pow).value.pvExplicitCashflows >= 0.0
    requires Value(m, name, pow).value.pvTerminalValue >= 0.0
    requires Value(m, name, pow).value.enterpriseValue > 0.0
    ensures 0.0 <= TerminalValuePercentage(m, name, pow).value <= 1.0
  {
    var v := Value(m, name, pow).value;
    FractionBounded(TerminalValuePercentage(m, name, pow).value, v.pvTerminalValue, v.enterpriseValue);
  }

  lemma FractionBounded(r: real, part: real, whole: real)
    requires 0.0 <= part <= whole && whole > 0.0 && r * whole == part
    ensures 0.0 <= r <= 1.0
  {
  }

  /** More net debt lowers equity one for one and leaves enterprise value
      alone. */
  lemma NetDebtShiftsEquity(m: DcfModel, name: string, pow: (real, real) -> real, extra: real)
    requires Value(m, name, pow).Ok?
    ensures var m2 := m.(netDebt := m.netDebt + extra);
            && Value(m2, name, pow).Ok?
            && Value(m2, name, pow).value.enterpriseValue == Value(m, name, pow).value.enterpriseValue
            && Value(m2, name, pow).value.equityValue == Value(m, name, pow).value.equityValue - extra
  {
    var m2 := m.(netDebt := m.netDebt + extra);
    BridgeInputsUnchanged(m, m2.netDebt, pow);
    if name == "perpetuity" {
      assert ValuePerpetuity(m2, pow).Ok?;
    } else {
      assert ValueExitMultiple(m2, pow).Ok?;
    }
  }

  /** Net debt plays no part before the bridge: the explicit present value,
      both terminal values, their discounting and the implied growth rate
      are the same whatever it is. */
  lemma BridgeInputsUnchanged(m: DcfModel, netDebt: real, pow: (real, real) -> real)
    ensures var m2 := m.(netDebt := netDebt);
            && PvExplicit(m2, pow) == PvExplicit(m, pow)
            && TerminalValuePerpetuity(m2) == TerminalValuePerpetuity(m)
            && TerminalValueExitMultiple(m2) == TerminalValueExitMultiple(m)
            && (forall tv :: DiscountTerminal(m2, tv, pow) == DiscountTerminal(m, tv, pow))
            && (forall tv :: ImpliedGrowthFromMultiple(m2, tv) == ImpliedGrowthFromMultiple(m, tv))
  {
    var m2 := m.(netDebt := netDebt);
    assert m2.projections == m.projections && m2.wacc == m.wacc && m2.terminalGrowth == m.terminalGrowth;
    if |m.projections| > 0 {
      assert Last(m2.projections) == Last(m.projections);
    }
    assert TerminalPeriod(m2) == TerminalPeriod(m);
    if m.exitMultiple.Some? && |m.projections| > 0 {
      var e, x := Last(m.projections).ebitda, m.exitMultiple.value;
      assert Last(m2.projections).ebitda == e && m2.exitMultiple.value == x;
      assert TerminalValueExitMultiple(m2).value == e * x;
      assert TerminalValueExitMultiple(m).value == e * x;
    }
    forall tv
      ensures DiscountTerminal(m2, tv, pow) == DiscountTerminal(m, tv, pow)
    {
      var p := pow(1.0 + m.wacc, TerminalPeriod(m));
      if p != 0.0 {
        ZeroFactor(DiscountTerminal(m2, tv, pow).value - DiscountTerminal(m, tv, pow).value, p);
      }
    }
    PvExplicitIgnoresNetDebt(m, netDebt, pow);
  }

  lemma PvExplicitIgnoresNetDebt(m: DcfModel, netDebt: real, pow: (real, real) -> real)
    ensures PvExplicit(m.(netDebt := netDebt), pow) == PvExplicit(m, pow)
  {
    var m2 := m.(netDebt := netDebt);
    assert DiscountPeriods(m2) == DiscountPeriods(m);
    assert Discountable(m2, pow) == Discountable(m, pow);
    if Discountable(m, pow) {
      var a, b := PvExplicit(m2, pow).value.1, PvExplicit(m, pow).value.1;
      forall i | 0 <= i < |m.projections|
        ensures a[i] == b[i]
      {
        assert DiscountedCashflow(m2, i, pow) == DiscountedCashflow(m, i, pow);
      }
      assert a == b;
    }
  }

  /** Under the defaults every cash flow is discounted from the middle of
      its year and the terminal value from the end of the last year. */
  lemma {:induction false} DefaultPeriods(projections: seq<UfcfProjection>, wacc: real)
    ensures var m := DefaultModel(projections, wacc);
            && (forall i :: 0 <= i < |projections| ==> DiscountPeriods(m)[i] == i as real + 0.5)
            && TerminalPeriod(m) == |projections| as real
  {
    var m := DefaultModel(projections, wacc);
    forall i | 0 <= i < |projections|
      ensures DiscountPeriods(m)[i] == i as real + 0.5
    {
      assert DiscountPeriods(m)[i] == DiscountPeriod(1.0, true, i);
    }
  }
}
