/** Cost of capital: CAPM cost of equity, beta unlevering and relevering
    (Hamada), the peer-median beta, and the weighted average cost of capital.
 */
module Wacc {
  import opened Wrappers
  import opened Seqs
  import Utils

  // ---------------------------------------------------------------------
  // CAPM
  // ---------------------------------------------------------------------

  datatype CostOfEquity = CostOfEquity(riskFreeRate: real, beta: real, equityRiskPremium: real) {

    /** Re = Rf + beta * ERP. */
    function Calculate(): (re: real)
      ensures re - riskFreeRate == beta * equityRiskPremium
      ensures beta == 0.0 ==> re == riskFreeRate
    {
      riskFreeRate + beta * equityRiskPremium
    }
  }

  /** Builds the CAPM inputs from a market return instead of a premium. */
  function FromMarketReturn(riskFreeRate: real, beta: real, marketReturn: real): (c: CostOfEquity)
    ensures c.riskFreeRate == riskFreeRate && c.beta == beta
    ensures c.riskFreeRate + c.equityRiskPremium == marketReturn
  {
    CostOfEquity(riskFreeRate, beta, marketReturn - riskFreeRate)
  }

  /** A stock with unit beta earns the market return; one with zero beta
      earns the risk-free rate. */
  lemma MarketBetaEarnsMarketReturn(riskFreeRate: real, marketReturn: real)
    ensures FromMarketReturn(riskFreeRate, 1.0, marketReturn).Calculate() == marketReturn
    ensures FromMarketReturn(riskFreeRate, 0.0, marketReturn).Calculate() == riskFreeRate
  {
  }

  // ---------------------------------------------------------------------
  // Beta unlevering / relevering
  // ---------------------------------------------------------------------

  /** 1 + (1 - T) * D / E. */
  function LeverageFactor(debt: real, equity: real, taxRate: real): real
    requires equity != 0.0
  {
    1.0 + (1.0 - taxRate) * (debt / equity)
  }

  /** beta_U = beta_L / (1 + (1 - T) D/E); zero equity is a `ValueError`
      and a vanishing leverage factor divides by zero. */
  function Unlever(leveredBeta: real, debt: real, equity: real, taxRate: real): (r: Result<real>)
    ensures equity == 0.0 <==> r == Err(ValueError)
    ensures equity != 0.0 && LeverageFactor(debt, equity, taxRate) == 0.0 <==> r == Err(ZeroDivisionError)
    ensures r.Ok? ==> r.value * LeverageFactor(debt, equity, taxRate) == leveredBeta
  {
    if equity == 0.0 then Err(ValueError)
    else
      var factor := LeverageFactor(debt, equity, taxRate);
      if factor == 0.0 then Err(ZeroDivisionError) else Ok(leveredBeta / factor)
  }

  /** beta_L = beta_U * (1 + (1 - T) D/E); zero equity is a `ValueError`. */
  function Relever(unleveredBeta: real, debt: real, equity: real, taxRate: real): (r: Result<real>)
    ensures equity == 0.0 <==> r.Err?
    ensures r.Err? ==> r.error == ValueError
    ensures r.Ok? ==> r.value == unleveredBeta * LeverageFactor(debt, equity, taxRate)
    ensures r.Ok? && debt == 0.0 ==> r.value == unleveredBeta
  {
    if equity == 0.0 then Err(ValueError)
    else Ok(unleveredBeta * LeverageFactor(debt, equity, taxRate))
  }

  /** Relevering at the same capital structure undoes unlevering, and the
      other way round whenever unlevering is defined. */
  lemma UnleverRelever(beta: real, debt: real, equity: real, taxRate: real)
    ensures Unlever(beta, debt, equity, taxRate).Ok? ==>
              Relever(Unlever(beta, debt, equity, taxRate).value, debt, equity, taxRate) == Ok(beta)
    ensures equity != 0.0 && LeverageFactor(debt, equity, taxRate) != 0.0 ==>
              Relever(beta, debt, equity, taxRate).Ok? &&
              Unlever(Relever(beta, debt, equity, taxRate).value, debt, equity, taxRate) == Ok(beta)
  {
    if equity != 0.0 && LeverageFactor(debt, equity, taxRate) != 0.0 {
      var f := LeverageFactor(debt, equity, taxRate);
      var u := Unlever(beta, debt, equity, taxRate);
      assert u.value == beta / f;
      var w := Relever(u.value, debt, equity, taxRate);
      assert w.Ok? && w.value == (beta / f) * f == beta;
      var v := Relever(beta, debt, equity, taxRate);
      assert v.Ok? && v.value == beta * f;
      var x := Unlever(v.value, debt, equity, taxRate);
      assert x.Ok? && x.value == (beta * f) / f == beta;
    }
  }

  /** Unlevers each peer in order; the first failure propagates. */
  function UnleverAll(betas: seq<real>, debts: seq<real>, equities: seq<real>, taxRate: real)
    : (r: Result<seq<real>>)
    requires |betas| == |debts| == |equities|
    ensures r.Ok? ==> |r.value| == |betas|
    ensures r.Ok? ==> forall i :: 0 <= i < |betas| ==>
                        Unlever(betas[i], debts[i], equities[i], taxRate) == Ok(r.value[i])
    ensures r.Err? <==> exists i :: 0 <= i < |betas| && Unlever(betas[i], debts[i], equities[i], taxRate).Err?
  {
    if |betas| == 0 then Ok([])
    else
      var u :- Unlever(betas[0], debts[0], equities[0], taxRate);
      var rest :- UnleverAll(betas[1..], debts[1..], equities[1..], taxRate);
      assert forall i :: 1 <= i < |betas| ==>
        Unlever(betas[i], debts[i], equities[i], taxRate)
          == Unlever(betas[1..][i - 1], debts[1..][i - 1], equities[1..][i - 1], taxRate);
      Ok([u] + rest)
  }

  /** The median of a non-empty list: the middle element of the sorted list,
      or the mean of the two middle elements for an even count. */
  function Median(values: seq<real>): (m: real)
    requires |values| > 0
    ensures MinOf(values) <= m <= MaxOf(values)
  {
    var s := Utils.Sorted(values);
    var n := |s|;
    Utils.SortedWithinRange(values, n / 2);
    if n % 2 == 0 then
      Utils.SortedWithinRange(values, n / 2 - 1);
      (s[n / 2 - 1] + s[n / 2]) / 2.0
    else s[n / 2]
  }

  /** The rank of the 50th percentile is `(n - 1) / 2`: the middle index
      for an odd count, half-way between the two middle ones for an even count. */
  lemma MiddleRank(n: nat)
    requires n > 0
    ensures n % 2 == 1 ==> Utils.Rank(n, 50.0) == (n / 2) as real
    ensures n % 2 == 0 ==> Utils.Rank(n, 50.0) == (n / 2 - 1) as real + 0.5
  {
    assert Utils.Rank(n, 50.0) == (n - 1) as real * 0.5;
  }

  lemma FloorPlusHalf(k: int)
    ensures ((k as real) + 0.5).Floor == k
  {
  }

  /** Interpolating at the middle rank of a sorted list gives its middle
      element, or the mean of the two middle elements. */
  lemma InterpolateAtMiddle(s: seq<real>)
    requires |s| > 0
    requires forall i, j :: 0 <= i < j < |s| ==> s[i] <= s[j]
    ensures Utils.Interpolate(s, Utils.Rank(|s|, 50.0))
         == if |s| % 2 == 0 then (s[|s| / 2 - 1] + s[|s| / 2]) / 2.0 else s[|s| / 2]
  {
    var n := |s|;
    var h := Utils.Rank(n, 50.0);
    MiddleRank(n);
    if n % 2 == 0 {
      FloorPlusHalf(n / 2 - 1);
      assert h.Floor == n / 2 - 1;
      assert h - (n / 2 - 1) as real == 0.5;
    } else {
      assert h.Floor == n / 2;
    }
  }

  /** The hand-written median agrees with numpy's 50th percentile. */
  lemma MedianIsFiftiethPercentile(values: seq<real>)
    requires |values| > 0
    ensures Median(values) == Utils.Percentile(values, 50.0)
  {
    InterpolateAtMiddle(Utils.Sorted(values));
  }

  /** Target beta from peers: unlever each peer, take the median unlevered
      beta and relever it at the target's structure. */
  function FromPeers(peerBetas: seq<real>, peerDebts: seq<real>, peerEquities: seq<real>,
                     taxRate: real, targetDebt: real, targetEquity: real): (r: Result<real>)
    ensures |peerBetas| != |peerDebts| || |peerBetas| != |peerEquities| ==> r == Err(ValueError)
    ensures |peerBetas| == |peerDebts| == |peerEquities| == 0 ==> r == Err(IndexError)
    ensures r.Ok? ==> |peerBetas| == |peerDebts| == |peerEquities| > 0 && targetEquity != 0.0
    ensures r.Ok? ==>
              var u := UnleverAll(peerBetas, peerDebts, peerEquities, taxRate);
              u.Ok? && r == Relever(Median(u.value), targetDebt, targetEquity, taxRate)
  {
    if |peerBetas| != |peerDebts| || |peerBetas| != |peerEquities| then Err(ValueError)
    else
      var unlevered :- UnleverAll(peerBetas, peerDebts, peerEquities, taxRate);
      if |unlevered| == 0 then Err(IndexError)
      else Relever(Median(unlevered), targetDebt, targetEquity, taxRate)
  }

  /** A single peer with the target's own capital structure hands back its
      observed beta. */
  lemma FromSinglePeerSameStructure(beta: real, debt: real, equity: real, taxRate: real)
    requires equity != 0.0 && LeverageFactor(debt, equity, taxRate) != 0.0
    ensures FromPeers([beta], [debt], [equity], taxRate, debt, equity) == Ok(beta)
  {
    var u := UnleverAll([beta], [debt], [equity], taxRate);
    assert u.Ok? && u.value == [Unlever(beta, debt, equity, taxRate).value];
    assert Utils.Sorted(u.value) == u.value;
    UnleverRelever(beta, debt, equity, taxRate);
  }

  // ---------------------------------------------------------------------
  // WACC
  // ---------------------------------------------------------------------

  datatype CapitalStructure = CapitalStructure(equityValue: real, debtValue: real, costOfEquity: real,
                                               costOfDebt: real, taxRate: real) {

    function TotalValue(): (v: real)
      ensures v - debtValue == equityValue
    {
      equityValue + debtValue
    }

    /** E / V, or zero when V is not positive. */
    function EquityWeight(): (w: real)
      ensures TotalValue() > 0.0 ==> w * TotalValue() == equityValue
      ensures TotalValue() <= 0.0 ==> w == 0.0
    {
      if TotalValue() > 0.0 then equityValue / TotalValue() else 0.0
    }

    /** D / V, or zero when V is not positive. */
    function DebtWeight(): (w: real)
      ensures TotalValue() > 0.0 ==> w * TotalValue() == debtValue
      ensures TotalValue() <= 0.0 ==> w == 0.0
    {
      if TotalValue() > 0.0 then debtValue / TotalValue() else 0.0
    }

    /** Rd * (1 - T). */
    function AfterTaxCostOfDebt(): (c: real)
      ensures taxRate == 0.0 ==> c == costOfDebt
      ensures 0.0 <= taxRate <= 1.0 && costOfDebt >= 0.0 ==> 0.0 <= c <= costOfDebt
    {
      var c := costOfDebt * (1.0 - taxRate);
      assert 0.0 <= taxRate <= 1.0 && costOfDebt >= 0.0 ==> c <= costOfDebt by {
        if 0.0 <= taxRate <= 1.0 && costOfDebt >= 0.0 {
          MulNonNegative(costOfDebt, taxRate);
          assert c == costOfDebt - costOfDebt * taxRate;
        }
      }
      assert 0.0 <= taxRate <= 1.0 && costOfDebt >= 0.0 ==> 0.0 <= c by {
        if 0.0 <= taxRate <= 1.0 && costOfDebt >= 0.0 {
          MulNonNegative(costOfDebt, 1.0 - taxRate);
        }
      }
      c
    }

    /** WACC = E/V * Re + D/V * Rd * (1 - T). */
    function Calculate(): (w: real)
      ensures TotalValue() <= 0.0 ==> w == 0.0
      ensures debtValue == 0.0 && equityValue > 0.0 ==> w == costOfEquity
      ensures equityValue == 0.0 && debtValue > 0.0 ==> w == AfterTaxCostOfDebt()
    {
      EquityWeight() * costOfEquity + DebtWeight() * AfterTaxCostOfDebt()
    }
  }

  /** The weights of a positive capital structure add up to one. */
  lemma WeightsSumToOne(c: CapitalStructure)
    requires c.TotalValue() > 0.0
    ensures c.EquityWeight() + c.DebtWeight() == 1.0
  {
    var v := c.TotalValue();
    assert (c.EquityWeight() + c.DebtWeight()) * v == v;
  }

  /** With non-negative claims, WACC is a weighted average: it lies between
      the after-tax cost of debt and the cost of equity. */
  lemma WaccBetweenComponentCosts(c: CapitalStructure)
    requires c.equityValue >= 0.0 && c.debtValue >= 0.0 && c.TotalValue() > 0.0
    ensures Min(c.costOfEquity, c.AfterTaxCostOfDebt()) <= c.Calculate()
    ensures c.Calculate() <= Max(c.costOfEquity, c.AfterTaxCostOfDebt())
  {
    WeightsSumToOne(c);
    var we, wd := c.EquityWeight(), c.DebtWeight();
    var re, rd := c.costOfEquity, c.AfterTaxCostOfDebt();
    assert we >= 0.0 && wd >= 0.0 by {
      var v := c.TotalValue();
      assert we * v >= 0.0 && wd * v >= 0.0;
    }
    var lo, hi := Min(re, rd), Max(re, rd);
    assert we * lo <= we * re <= we * hi;
    assert wd * lo <= wd * rd <= wd * hi;
    assert (we + wd) * lo == lo && (we + wd) * hi == hi;
  }

  /** A WACC whose cost of equity comes from CAPM. */
  function FromCapm(equityValue: real, debtValue: real, riskFreeRate: real, beta: real,
                    equityRiskPremium: real, costOfDebt: real, taxRate: real): (c: CapitalStructure)
    ensures c.costOfEquity == CostOfEquity(riskFreeRate, beta, equityRiskPremium).Calculate()
    ensures c.equityValue == equityValue && c.debtValue == debtValue
    ensures c.costOfDebt == costOfDebt && c.taxRate == taxRate
  {
    CapitalStructure(equityValue, debtValue,
                     CostOfEquity(riskFreeRate, beta, equityRiskPremium).Calculate(),
                     costOfDebt, taxRate)
  }
}
