/** Shared valuation helpers: treasury-stock-method dilution, the enterprise
    value / equity value bridges, LTM calendarisation, the implied perpetual
    growth rate, and descriptive statistics over peer multiples.
 */
module Utils {
  import opened Wrappers
  import opened Seqs

  // ---------------------------------------------------------------------
  // Treasury stock method
  // ---------------------------------------------------------------------

  /** An option or warrant grant. The in-the-money flag is carried but never
      consulted: moneyness is decided from the strike and the current price. */
  datatype OptionGrant = OptionGrant(quantity: real, strikePrice: real, isInTheMoney: bool)

  /** Net new shares from exercising one grant and buying back shares with
      the proceeds; only grants struck below the price dilute. */
  function GrantDilution(opt: OptionGrant, price: real): (r: real)
    requires price > 0.0
    ensures r >= 0.0
    ensures opt.strikePrice >= price ==> r == 0.0
    ensures opt.strikePrice < price && opt.quantity >= 0.0 ==>
              r == opt.quantity * (1.0 - opt.strikePrice / price)
  {
    if opt.strikePrice < price then
      var netShares := opt.quantity - opt.quantity * opt.strikePrice / price;
      assert opt.quantity >= 0.0 ==> netShares >= 0.0 by {
        if opt.quantity >= 0.0 {
          assert opt.strikePrice / price < 1.0;
          assert opt.quantity * (opt.strikePrice / price) <= opt.quantity;
        }
      }
      Max(0.0, netShares)
    else 0.0
  }

  function Dilution(options: seq<OptionGrant>, price: real): (r: real)
    requires price > 0.0
    ensures r >= 0.0
  {
    if |options| == 0 then 0.0 else GrantDilution(options[0], price) + Dilution(options[1..], price)
  }

  /** Additional dilutive shares; nothing is diluted at a non-positive price. */
  function TreasuryStockMethod(options: seq<OptionGrant>, currentPrice: real): (r: real)
    ensures r >= 0.0
    ensures currentPrice <= 0.0 ==> r == 0.0
  {
    if currentPrice <= 0.0 then 0.0 else Dilution(options, currentPrice)
  }

  lemma {:induction false} DilutionAppend(a: seq<OptionGrant>, b: seq<OptionGrant>, price: real)
    requires price > 0.0
    ensures Dilution(a + b, price) == Dilution(a, price) + Dilution(b, price)
  {
    if |a| == 0 {
      assert a + b == b;
    } else {
      assert (a + b)[1..] == a[1..] + b;
      DilutionAppend(a[1..], b, price);
    }
  }

  /** Dilution is additive over grant lists: the method treats each grant
      independently. */
  lemma TreasuryStockMethodAppend(a: seq<OptionGrant>, b: seq<OptionGrant>, price: real)
    ensures TreasuryStockMethod(a + b, price)
         == TreasuryStockMethod(a, price) + TreasuryStockMethod(b, price)
  {
    if price > 0.0 {
      DilutionAppend(a, b, price);
    }
  }

  /** Adding a grant struck at or above the price changes nothing. */
  lemma OutOfTheMoneyAddsNothing(options: seq<OptionGrant>, g: OptionGrant, price: real)
    requires g.strikePrice >= price
    ensures TreasuryStockMethod(options + [g], price) == TreasuryStockMethod(options, price)
  {
    TreasuryStockMethodAppend(options, [g], price);
    if price > 0.0 {
      assert Dilution([g], price) == GrantDilution(g, price) + Dilution([], price);
    }
  }

  /** Fully diluted share count: basic shares, TSM dilution and RSUs. */
  function DilutedShares(basicShares: real, options: seq<OptionGrant>, currentPrice: real,
                         rsus: real): (r: real)
    ensures r >= basicShares + rsus
    ensures currentPrice <= 0.0 ==> r == basicShares + rsus
    ensures r - basicShares - rsus == TreasuryStockMethod(options, currentPrice)
  {
    basicShares + TreasuryStockMethod(options, currentPrice) + rsus
  }

  // ---------------------------------------------------------------------
  // Enterprise value and equity value
  // ---------------------------------------------------------------------

  function NetDebt(totalDebt: real, cash: real): (r: real)
    ensures r + cash == totalDebt
  {
    totalDebt - cash
  }

  /** EV = equity + net debt + minority interest + preferred stock. */
  function EnterpriseValue(equityValue: real, totalDebt: real, cash: real,
                           minorityInterest: real, preferredStock: real): (r: real)
    ensures r == equityValue + NetDebt(totalDebt, cash) + minorityInterest + preferredStock
  {
    equityValue + totalDebt - cash + minorityInterest + preferredStock
  }

  /** The inverse bridge: it undoes `EnterpriseValue` for the same claims. */
  function EquityValueFromEv(enterpriseValue: real, totalDebt: real, cash: real,
                             minorityInterest: real, preferredStock: real): (r: real)
    ensures EnterpriseValue(r, totalDebt, cash, minorityInterest, preferredStock) == enterpriseValue
  {
    enterpriseValue - totalDebt + cash - minorityInterest - preferredStock
  }

  /** Round trip in the other direction. */
  lemma EquityEnterpriseRoundTrip(equity: real, totalDebt: real, cash: real,
                                  minorityInterest: real, preferredStock: real)
    ensures EquityValueFromEv(EnterpriseValue(equity, totalDebt, cash, minorityInterest, preferredStock),
                              totalDebt, cash, minorityInterest, preferredStock) == equity
  {
  }

  /** LTM = fiscal year + current year-to-date - prior year-to-date. */
  function LtmCalculation(fiscalYear: real, ytdCurrent: real, ytdPrior: real): (r: real)
    ensures r - fiscalYear == ytdCurrent - ytdPrior
  {
    fiscalYear + ytdCurrent - ytdPrior
  }

  /** Gordon growth: a cash flow growing at `growth` forever from next
      year, valued at `rate`, is `cash * (1 + growth) / (rate - growth)`. */
  function GordonValue(cash: real, rate: real, growth: real): (t: real)
    requires rate != growth
    ensures t * (rate - growth) == cash * (1.0 + growth)
  {
    cash * (1.0 + growth) / (rate - growth)
  }

  /** Growth rate implied by a terminal value under Gordon growth; zero when
      the formula's denominator vanishes. */
  function ImpliedPerpetualGrowth(terminalValue: real, finalFcf: real, discountRate: real): (g: real)
    ensures terminalValue + finalFcf == 0.0 ==> g == 0.0
    ensures terminalValue + finalFcf != 0.0 ==>
              g * (terminalValue + finalFcf) == terminalValue * discountRate - finalFcf
  {
    if terminalValue + finalFcf == 0.0 then 0.0
    else (terminalValue * discountRate - finalFcf) / (terminalValue + finalFcf)
  }

  /** The implied rate inverts the Gordon formula: a terminal value built
      from growth `g` gives back `g`. */
  lemma ImpliedPerpetualGrowthRecovers(finalFcf: real, discountRate: real, g: real)
    requires discountRate != g
    requires finalFcf * (1.0 + g) / (discountRate - g) + finalFcf != 0.0
    ensures ImpliedPerpetualGrowth(finalFcf * (1.0 + g) / (discountRate - g), finalFcf, discountRate) == g
  {
    var tv := finalFcf * (1.0 + g) / (discountRate - g);
    assert tv * (discountRate - g) == finalFcf * (1.0 + g);
    assert tv * discountRate - finalFcf == g * (tv + finalFcf);
  }

  /** `numerator / d` when the denominator `d` is truthy and positive,
      else `None`: a peer or deal multiple, or the per-share step of the DCF
      and sum-of-the-parts bridges. It is defined exactly when the
      denominator is present and positive, and then it scales the
      denominator back to the numerator. */
  function Ratio(numerator: real, denominator: Option<real>): (r: Option<real>)
    ensures r.Some? <==> denominator.Some? && denominator.value > 0.0
    ensures r.Some? ==> r.value * denominator.value == numerator
  {
    if Truthy(denominator) && denominator.value > 0.0 then Some(numerator / denominator.value) else None
  }

  /** The EV-to-equity bridge of a DCF or comps analysis. */
  datatype EquityBridge = EquityBridge(enterpriseValue: real, netDebt: real, equityValue: real,
                                       dilutedShares: real, equityValuePerShare: real)

  function EvToEquityBridge(enterpriseValue: real, netDebt: real, dilutedShares: real): (b: EquityBridge)
    ensures b.enterpriseValue == enterpriseValue && b.netDebt == netDebt && b.dilutedShares == dilutedShares
    ensures b.equityValue + netDebt == enterpriseValue
    ensures dilutedShares > 0.0 ==> b.equityValuePerShare * dilutedShares == b.equityValue
    ensures dilutedShares <= 0.0 ==> b.equityValuePerShare == 0.0
  {
    var equity := enterpriseValue - netDebt;
    EquityBridge(enterpriseValue, netDebt, equity, dilutedShares,
                 if dilutedShares > 0.0 then equity / dilutedShares else 0.0)
  }

  /** Bridging an enterprise value built from an equity value back through
      the same net debt recovers that equity value. */
  lemma BridgeRecoversEquity(equity: real, totalDebt: real, cash: real, shares: real)
    ensures EvToEquityBridge(EnterpriseValue(equity, totalDebt, cash, 0.0, 0.0),
                             NetDebt(totalDebt, cash), shares).equityValue == equity
  {
  }

  // ---------------------------------------------------------------------
  // Filtering and statistics
  // ---------------------------------------------------------------------

  /** `[v for v in values if v is not None]`. */
  function FilterValid(values: seq<Option<real>>): (r: seq<real>)
    ensures |r| <= |values|
    ensures forall i :: 0 <= i < |r| ==> Some(r[i]) in values
    ensures forall i :: 0 <= i < |values| && values[i].Some? ==> values[i].value in r
  {
    if |values| == 0 then []
    else if values[0].Some? then [values[0].value] + FilterValid(values[1..])
    else FilterValid(values[1..])
  }

  /** Number of present values. */
  function CountPresent(values: seq<Option<real>>): nat
  {
    if |values| == 0 then 0 else (if values[0].Some? then 1 else 0) + CountPresent(values[1..])
  }

  /** The kept values are exactly the present ones, in their original order:
      filtering distributes over concatenation, keeps a lone present value
      and drops a lone `None`. */
  lemma {:induction false} FilterValidAppend(a: seq<Option<real>>, b: seq<Option<real>>)
    ensures FilterValid(a + b) == FilterValid(a) + FilterValid(b)
    ensures |FilterValid(a + b)| == CountPresent(a + b) == CountPresent(a) + CountPresent(b)
    ensures FilterValid([None]) == [] && forall v :: FilterValid([Some(v)]) == [v]
  {
    if |a| == 0 {
      assert a + b == b;
      FilterValidCount(b);
    } else {
      assert (a + b)[1..] == a[1..] + b;
      FilterValidAppend(a[1..], b);
    }
  }

  lemma {:induction false} FilterValidCount(values: seq<Option<real>>)
    ensures |FilterValid(values)| == CountPresent(values)
  {
    if |values| > 0 {
      FilterValidCount(values[1..]);
    }
  }

  /** Python's `values` sorted ascending. */
  function Sorted(values: seq<real>): (s: seq<real>)
    ensures |s| == |values| && multiset(s) == multiset(values)
    ensures forall i, j :: 0 <= i < j < |s| ==> s[i] <= s[j]
  {
    SortBySorted(x => x, values);
    SortByPermutes(x => x, values);
    SortBy(x => x, values)
  }

  /** Every element of a sorted copy lies between the minimum and maximum of
      the original list. */
  lemma SortedWithinRange(values: seq<real>, i: nat)
    requires i < |values|
    ensures MinOf(values) <= Sorted(values)[i] <= MaxOf(values)
  {
    var s := Sorted(values);
    assert s[i] in multiset(values) by {
      assert s[i] in multiset(s);
    }
    var j :| 0 <= j < |values| && values[j] == s[i];
  }

  /** The fractional rank `(n - 1) * q / 100` numpy's linear method uses. */
  function Rank(n: nat, q: real): (h: real)
    requires n > 0 && 0.0 <= q <= 100.0
    ensures 0.0 <= h <= (n - 1) as real
    ensures 0 <= h.Floor < n
  {
    var h := (n - 1) as real * (q / 100.0);
    assert 0.0 <= q / 100.0 <= 1.0;
    assert h <= (n - 1) as real * 1.0;
    h
  }

  /** Linear interpolation between the order statistics around rank `h`. */
  function Interpolate(s: seq<real>, h: real): (r: real)
    requires 0.0 <= h <= (|s| - 1) as real
    requires forall i, j :: 0 <= i < j < |s| ==> s[i] <= s[j]
    ensures 0 <= h.Floor < |s|
    ensures s[h.Floor] <= r
    ensures h.Floor + 1 < |s| ==> r <= s[h.Floor + 1]
    ensures h.Floor + 1 >= |s| ==> r == s[h.Floor]
  {
    var lo := h.Floor;
    assert lo as real <= h < lo as real + 1.0;
    assert 0 <= lo < |s|;
    if lo + 1 < |s| then
      LerpBetween(s[lo], s[lo + 1], h - lo as real);
      s[lo] + (h - lo as real) * (s[lo + 1] - s[lo])
    else s[lo]
  }

  lemma LerpBetween(a: real, b: real, f: real)
    requires a <= b && 0.0 <= f <= 1.0
    ensures a <= a + f * (b - a) <= b
  {
    assert f * (b - a) <= 1.0 * (b - a);
  }

  /** numpy's default ("linear") percentile, `q` in percent. */
  function Percentile(values: seq<real>, q: real): (r: real)
    requires |values| > 0 && 0.0 <= q <= 100.0
    ensures MinOf(values) <= r <= MaxOf(values)
  {
    var h := Rank(|values|, q);
    var r := Interpolate(Sorted(values), h);
    SortedWithinRange(values, h.Floor);
    SortedWithinRange(values, if h.Floor + 1 < |values| then h.Floor + 1 else h.Floor);
    r
  }

  /** Interpolation is monotone in the rank. */
  lemma InterpolateMonotone(s: seq<real>, h1: real, h2: real)
    requires 0.0 <= h1 <= h2 <= (|s| - 1) as real
    requires forall i, j :: 0 <= i < j < |s| ==> s[i] <= s[j]
    ensures Interpolate(s, h1) <= Interpolate(s, h2)
  {
    var lo1, lo2 := h1.Floor, h2.Floor;
    if lo1 < lo2 {
      assert lo1 + 1 < |s|;
      assert Interpolate(s, h1) <= s[lo1 + 1] <= s[lo2] <= Interpolate(s, h2);
    } else {
      assert lo1 == lo2 by {
        assert h1.Floor as real <= h1 <= h2;
      }
      if lo1 + 1 < |s| {
        var d := s[lo1 + 1] - s[lo1];
        assert d >= 0.0;
        assert (h2 - lo1 as real) * d - (h1 - lo1 as real) * d == (h2 - h1) * d;
        MulNonNegative(h2 - h1, d);
        assert Interpolate(s, h1) == s[lo1] + (h1 - lo1 as real) * d;
        assert Interpolate(s, h2) == s[lo1] + (h2 - lo1 as real) * d;
      }
    }
  }

  /** The summary the statistics helpers return; all fields are `None` and
      the count is zero for an empty list. */
  datatype Statistics = Statistics(mean: Option<real>, median: Option<real>, min: Option<real>,
                                   max: Option<real>, p25: Option<real>, p75: Option<real>,
                                   count: nat)

  function CalculateStatistics(values: seq<real>): (st: Statistics)
    ensures st.count == |values|
    ensures |values| == 0 <==> st.median.None?
    ensures |values| == 0 ==> st == Statistics(None, None, None, None, None, None, 0)
    ensures |values| > 0 ==> st.mean == Some(Sum(values) / |values| as real)
    ensures |values| > 0 ==> st.min == Some(MinOf(values)) && st.max == Some(MaxOf(values))
    ensures |values| > 0 ==> st.p25.Some? && st.p75.Some? && st.median.Some?
    ensures |values| > 0 ==> st.min.value <= st.p25.value <= st.median.value <= st.p75.value <= st.max.value
  {
    if |values| == 0 then Statistics(None, None, None, None, None, None, 0)
    else
      PercentileMonotone(values, 25.0, 50.0);
      PercentileMonotone(values, 50.0, 75.0);
      Statistics(Some(Sum(values) / |values| as real), Some(Percentile(values, 50.0)),
                 Some(MinOf(values)), Some(MaxOf(values)),
                 Some(Percentile(values, 25.0)), Some(Percentile(values, 75.0)), |values|)
  }

  lemma RankMonotone(n: nat, q1: real, q2: real)
    requires n > 0 && 0.0 <= q1 <= q2 <= 100.0
    ensures Rank(n, q1) <= Rank(n, q2)
  {
    var m := (n - 1) as real;
    var d := q2 / 100.0 - q1 / 100.0;
    assert m >= 0.0 && d >= 0.0;
    assert m * d >= 0.0;
    assert m * (q2 / 100.0) == m * (q1 / 100.0) + m * d;
  }

  /** Higher percentiles never fall below lower ones. */
  lemma PercentileMonotone(values: seq<real>, q1: real, q2: real)
    requires |values| > 0 && 0.0 <= q1 <= q2 <= 100.0
    ensures Percentile(values, q1) <= Percentile(values, q2)
  {
    RankMonotone(|values|, q1, q2);
    InterpolateMonotone(Sorted(values), Rank(|values|, q1), Rank(|values|, q2));
  }
}
