/** The inputs of a leveraged buyout: debt tranches, yearly projections,
    the entry and exit assumptions, the sources-and-uses table, and the free
    cash flow left for debt service in one year.
 */
module LboDeal {
  import opened Wrappers
  import opened Seqs

  /** One debt facility. Amortisation is a yearly fraction of the original
      amount; a lower sweep priority is repaid first. */
  datatype DebtTranche = DebtTranche(name: string, amount: real, interestRate: real,
                                     amortizationRate: real, isRevolver: bool,
                                     revolverCommitment: real, cashSweepPriority: int) {

    /** Mandatory yearly repayment: the amortisation rate of the original amount. */
    function AnnualAmortization(originalAmount: real): (a: real)
      ensures amortizationRate == 0.0 || originalAmount == 0.0 ==> a == 0.0
      ensures amortizationRate >= 0.0 && originalAmount >= 0.0 ==> a >= 0.0
      ensures 0.0 <= amortizationRate <= 1.0 && originalAmount >= 0.0 ==> a <= originalAmount
    {
      var a := originalAmount * amortizationRate;
      assert 0.0 <= amortizationRate <= 1.0 && originalAmount >= 0.0 ==> a <= originalAmount by {
        if 0.0 <= amortizationRate <= 1.0 && originalAmount >= 0.0 {
          MulNonNegative(originalAmount, 1.0 - amortizationRate);
        }
      }
      a
    }

    /** Interest for a year on the given balance. */
    function InterestExpense(balance: real): (e: real)
      ensures balance == 0.0 || interestRate == 0.0 ==> e == 0.0
      ensures interestRate >= 0.0 && balance >= 0.0 ==> e >= 0.0
      ensures interestRate > 0.0 && balance > 0.0 ==> e > 0.0
    {
      balance * interestRate
    }
  }

  function Amount(t: DebtTranche): real { t.amount }

  predicate IsRevolver(t: DebtTranche) { t.isRevolver }

  predicate IsTermDebt(t: DebtTranche) { !t.isRevolver }

  /** One projected year. */
  datatype Projection = Projection(year: int, ebitda: real, capex: real, deltaNwc: real,
                                   taxRate: real, depreciation: real)

  /** The sources and uses of funds at closing. */
  datatype SourcesAndUses = SourcesAndUses(
    termLoan: real, revolverDraw: real, otherDebt: real, sponsorEquity: real, rolloverEquity: real,
    equityPurchase: real, refinanceDebt: real, transactionFees: real, financingFees: real)
  {
    function TotalSources(): (s: real)
      ensures s == TotalDebt() + sponsorEquity + rolloverEquity
    {
      termLoan + revolverDraw + otherDebt + sponsorEquity + rolloverEquity
    }

    function TotalUses(): (u: real)
      ensures u - transactionFees - financingFees == equityPurchase + refinanceDebt
    {
      equityPurchase + refinanceDebt + transactionFees + financingFees
    }

    function TotalDebt(): (d: real)
      ensures d - otherDebt == termLoan + revolverDraw
    {
      termLoan + revolverDraw + otherDebt
    }

    /** Sources match uses to within the (strict) tolerance. */
    predicate IsBalanced(tolerance: real)
      ensures IsBalanced(tolerance) ==> tolerance > 0.0
      ensures TotalSources() == TotalUses() ==> (IsBalanced(tolerance) <==> tolerance > 0.0)
    {
      Abs(TotalSources() - TotalUses()) < tolerance
    }
  }

  /** The deal: entry and exit multiples on EBITDA, the debt package, the
      projections, and fees as fractions of price and of debt. The minimum
      cash balance is carried but never used. */
  datatype LboModel = LboModel(entryEbitda: real, entryMultiple: real, debtTranches: seq<DebtTranche>,
                               projections: seq<Projection>, exitMultiple: real,
                               transactionFeesPct: real, financingFeesPct: real, minCash: real)
  {
    /** Enterprise value paid at entry. */
    function PurchasePrice(): (p: real)
      ensures entryEbitda != 0.0 ==> p / entryEbitda == entryMultiple
      ensures entryEbitda == 0.0 ==> p == 0.0
    {
      entryEbitda * entryMultiple
    }

    /** Debt raised at closing: every tranche's amount, revolvers included. */
    function TotalInitialDebt(): (d: real)
      ensures (forall i :: 0 <= i < |debtTranches| ==> debtTranches[i].amount >= 0.0) ==> d >= 0.0
      ensures d == SumOf(Amount, Filter(IsTermDebt, debtTranches))
                 + SumOf(Amount, Filter(IsRevolver, debtTranches))
    {
      TermAndRevolverPartition(debtTranches);
      if forall i :: 0 <= i < |debtTranches| ==> debtTranches[i].amount >= 0.0 then
        SumOfNonNegative(Amount, debtTranches);
        SumOf(Amount, debtTranches)
      else SumOf(Amount, debtTranches)
    }

    function TransactionFees(): (f: real)
      ensures transactionFeesPct == 0.0 ==> f == 0.0
      ensures PurchasePrice() != 0.0 ==> f / PurchasePrice() == transactionFeesPct
    {
      PurchasePrice() * transactionFeesPct
    }

    function FinancingFees(): (f: real)
      ensures financingFeesPct == 0.0 ==> f == 0.0
      ensures TotalInitialDebt() != 0.0 ==> f / TotalInitialDebt() == financingFeesPct
    {
      TotalInitialDebt() * financingFeesPct
    }

    /** The sponsor's equity cheque: whatever price and fees the debt does not fund. */
    function InitialEquity(): (e: real)
      ensures e + TotalInitialDebt() == PurchasePrice() + TransactionFees() + FinancingFees()
    {
      PurchasePrice() + TransactionFees() + FinancingFees() - TotalInitialDebt()
    }

    /** The sources-and-uses table at closing. */
    function SourcesAndUsesTable(): (su: SourcesAndUses)
      ensures su.TotalDebt() == TotalInitialDebt()
      ensures su.TotalSources() == su.TotalUses()
      ensures su.sponsorEquity == InitialEquity() && su.equityPurchase == PurchasePrice()
      ensures forall tol :: su.IsBalanced(tol) <==> tol > 0.0
    {
      var su := SourcesAndUses(
        SumOf(Amount, Filter(IsTermDebt, debtTranches)), SumOf(Amount, Filter(IsRevolver, debtTranches)),
        0.0, InitialEquity(), 0.0,
        PurchasePrice(), 0.0, TransactionFees(), FinancingFees());
      assert su.TotalSources() == su.TotalUses();
      su
    }
  }

  /** Splitting the tranches into term debt and revolvers loses nothing. */
  lemma TermAndRevolverPartition(ts: seq<DebtTranche>)
    ensures SumOf(Amount, Filter(IsTermDebt, ts)) + SumOf(Amount, Filter(IsRevolver, ts)) == SumOf(Amount, ts)
  {
    SumPartition(IsTermDebt, IsRevolver, Amount, ts);
  }

  /** With positive EBITDA and non-negative transaction fees, paying a higher
      entry multiple takes a strictly larger equity cheque. */
  lemma InitialEquityIncreasesWithEntryMultiple(m: LboModel, higher: real)
    requires m.entryEbitda > 0.0 && m.transactionFeesPct >= 0.0 && higher > m.entryMultiple
    ensures m.InitialEquity() < m.(entryMultiple := higher).InitialEquity()
  {
    var m2 := m.(entryMultiple := higher);
    var d := m2.PurchasePrice() - m.PurchasePrice();
    assert d == m.entryEbitda * (higher - m.entryMultiple);
    assert d > 0.0;
    assert m2.TransactionFees() - m.TransactionFees() == d * m.transactionFeesPct;
    assert d * m.transactionFeesPct >= 0.0;
  }

  // ---------------------------------------------------------------------
  // Free cash flow
  // ---------------------------------------------------------------------

  /** Cash taxes on EBITDA less D&A less interest, floored at zero. */
  function Taxes(proj: Projection, interestExpense: real): (tax: real)
    ensures tax >= 0.0
    ensures (proj.ebitda - proj.depreciation - interestExpense) * proj.taxRate <= 0.0 ==> tax == 0.0
    ensures (proj.ebitda - proj.depreciation - interestExpense) * proj.taxRate > 0.0 ==>
              tax == (proj.ebitda - proj.depreciation - interestExpense) * proj.taxRate
  {
    var taxableIncome := proj.ebitda - proj.depreciation - interestExpense;
    Max(0.0, taxableIncome * proj.taxRate)
  }

  /** FCF = EBITDA - interest - taxes - capex - change in NWC. */
  function FreeCashFlow(proj: Projection, interestExpense: real): (fcf: real)
    ensures fcf + interestExpense + Taxes(proj, interestExpense) + proj.capex + proj.deltaNwc == proj.ebitda
    ensures fcf <= proj.ebitda - interestExpense - proj.capex - proj.deltaNwc
    ensures proj.taxRate == 0.0 ==> fcf == proj.ebitda - interestExpense - proj.capex - proj.deltaNwc
  {
    proj.ebitda - interestExpense - Taxes(proj, interestExpense) - proj.capex - proj.deltaNwc
  }

  /** More interest means less free cash flow, but because interest is tax
      deductible, a tax rate t in [0, 1] cushions each extra unit of interest
      by at most t. */
  lemma FreeCashFlowInterestSensitivity(proj: Projection, i1: real, i2: real)
    requires 0.0 <= proj.taxRate <= 1.0 && i1 <= i2
    ensures (1.0 - proj.taxRate) * (i2 - i1) <= FreeCashFlow(proj, i1) - FreeCashFlow(proj, i2)
    ensures FreeCashFlow(proj, i1) - FreeCashFlow(proj, i2) <= i2 - i1
  {
    var t := proj.taxRate;
    var x1 := (proj.ebitda - proj.depreciation - i1) * t;
    var x2 := (proj.ebitda - proj.depreciation - i2) * t;
    var d := i2 - i1;
    assert x1 - x2 == d * t;
    MulNonNegative(d, t);
    MulNonNegative(d, 1.0 - t);
    assert d * (1.0 - t) == d - d * t;
    assert (1.0 - t) * d == d * (1.0 - t);
  }

  // ---------------------------------------------------------------------
  // The single-tranche convenience constructor
  // ---------------------------------------------------------------------

  /** Projected years 1 .. holdYears with EBITDA compounding at `growth`,
      capex a fixed share of EBITDA, D&A at 10% of EBITDA, and no NWC change. */
  function GrowthProjections(entryEbitda: real, growth: real, capexPct: real, taxRate: real,
                             holdYears: int): (ps: seq<Projection>)
    ensures |ps| == if holdYears <= 0 then 0 else holdYears
    ensures forall i :: 0 <= i < |ps| ==>
              ps[i].year == i + 1 && ps[i].ebitda == entryEbitda * Pow(1.0 + growth, i + 1)
    ensures forall i :: 0 <= i < |ps| ==>
              ps[i].capex == ps[i].ebitda * capexPct && ps[i].depreciation == ps[i].ebitda * 0.10 &&
              ps[i].deltaNwc == 0.0 && ps[i].taxRate == taxRate
    decreases if holdYears <= 0 then 0 else holdYears
  {
    if holdYears <= 0 then []
    else
      var ebitda := entryEbitda * Pow(1.0 + growth, holdYears);
      GrowthProjections(entryEbitda, growth, capexPct, taxRate, holdYears - 1)
        + [Projection(holdYears, ebitda, ebitda * capexPct, 0.0, taxRate, ebitda * 0.10)]
  }

  /** A deal with a single "Unitranche" term loan of `leverageTurns` times
      entry EBITDA, 1% amortisation, and default fees of 2%. */
  function SimpleLbo(entryEbitda: real, entryMultiple: real, leverageTurns: real, interestRate: real,
                     exitMultiple: real, holdYears: int, ebitdaGrowth: real, capexPct: real,
                     taxRate: real): (m: LboModel)
    ensures m.debtTranches == [DebtTranche("Unitranche", entryEbitda * leverageTurns, interestRate,
                                           0.01, false, 0.0, 1)]
    ensures m.projections == GrowthProjections(entryEbitda, ebitdaGrowth, capexPct, taxRate, holdYears)
    ensures m.entryEbitda == entryEbitda && m.entryMultiple == entryMultiple
    ensures m.exitMultiple == exitMultiple
    ensures m.transactionFeesPct == 0.02 && m.financingFeesPct == 0.02 && m.minCash == 0.0
    ensures m.TotalInitialDebt() == entryEbitda * leverageTurns
  {
    var debt := DebtTranche("Unitranche", entryEbitda * leverageTurns, interestRate, 0.01, false, 0.0, 1);
    LboModel(entryEbitda, entryMultiple, [debt],
             GrowthProjections(entryEbitda, ebitdaGrowth, capexPct, taxRate, holdYears),
             exitMultiple, 0.02, 0.02, 0.0)
  }

  /** Each projected year's EBITDA is the previous year's grown once more. */
  lemma SimpleLboCompounds(entryEbitda: real, growth: real, capexPct: real, taxRate: real,
                           holdYears: int, i: nat)
    requires i + 1 < holdYears
    ensures var ps := GrowthProjections(entryEbitda, growth, capexPct, taxRate, holdYears);
            ps[i + 1].ebitda == ps[i].ebitda * (1.0 + growth)
  {
    var ps := GrowthProjections(entryEbitda, growth, capexPct, taxRate, holdYears);
    assert Pow(1.0 + growth, i + 2) == (1.0 + growth) * Pow(1.0 + growth, i + 1);
    assert entryEbitda * ((1.0 + growth) * Pow(1.0 + growth, i + 1))
        == (entryEbitda * Pow(1.0 + growth, i + 1)) * (1.0 + growth);
  }

  /** The standard scenario: 100 of EBITDA bought at 10x with 6 turns of
      debt and 5% growth over five years. */
  lemma SimpleLboScenario()
    ensures var m := SimpleLbo(100.0, 10.0, 6.0, 0.08, 10.0, 5, 0.05, 0.15, 0.25);
            && m.PurchasePrice() == 1000.0
            && m.TotalInitialDebt() == 600.0
            && m.InitialEquity() == 432.0
            && |m.projections| == 5
            && m.projections[0].ebitda == 105.0
            && m.projections[4].ebitda == 127.62815625
  {
    var m := SimpleLbo(100.0, 10.0, 6.0, 0.08, 10.0, 5, 0.05, 0.15, 0.25);
    assert SumOf(Amount, m.debtTranches) == 600.0;
    assert Pow(1.05, 5) == 1.2762815625 by {
      assert Pow(1.05, 1) == 1.05;
      assert Pow(1.05, 2) == 1.1025;
      assert Pow(1.05, 3) == 1.157625;
      assert Pow(1.05, 4) == 1.21550625;
    }
  }
}
