# Company valuation toolkit in Dafny

A model of the numerical core of a Python company-valuation toolkit, with
proofs about it. The model covers the following parts of the toolkit.

- **Shared helpers** (`Utils`): the treasury-stock method for option
  dilution, the equity/enterprise-value bridge, LTM arithmetic, implied
  perpetual growth, filtering of missing values, and the summary statistics.
  The statistics are mean, median, minimum, maximum and the 25th/75th
  percentiles with linear interpolation.
- **Cost of capital** (`Wacc`): CAPM cost of equity, Hamada unlevering and
  relevering of beta, the peer-median beta, and the WACC of a capital
  structure.
- **Discounted cash flow** (`Dcf`): unlevered free cash flow, end-of-period
  and mid-year discount periods with a stub year, and the explicit-period
  present value. Also terminal value by perpetuity growth or exit multiple,
  the equity bridge and the terminal-value share.
- **Dividend discount** (`Ddm`): dividend projections, the Gordon-growth and
  P/E terminal prices, the implied growth and the two constructors from
  forecasts.
- **Sum of the parts** (`Sotp`): segment values, corporate overhead, the
  conglomerate discount, the discount sensitivity, segment contributions,
  and construction from plain records.
- **Trading comparables** (`Comps`, with `PeerMultiples`): LTM metrics, peer
  multiples with the NTM fallback, the multiples tables and their
  statistics, and the implied valuation.
- **Precedent transactions** (`Precedent`): deal multiples, control
  premiums, the recency, deal-type, sector and size filters, premium
  statistics and the implied valuation.
- **Leveraged buyout** (`LboDeal`, `LboSchedule`, `LboProperties`,
  `LboSolver`):
  - sources and uses;
  - free cash flow;
  - the year-by-year debt schedule, with its interest/cash-flow circularity
    loop, mandatory amortisation, the priority-ordered cash sweep and the
    revolver;
  - exit returns (MOIC and IRR);
  - the bisection solver for the entry multiple;
  - the `simple_lbo` constructor.
- **Sensitivity** (`Sensitivity`): two-way sensitivity tables and their
  base cell and range, with NaN cells for failed calculations. Also the DCF
  (WACC × growth) and LBO (entry × exit multiple) tables, and the football
  field with its overall and consensus ranges.

## How the model is built

- **Errors.** An exception becomes `Err(e)` of `Wrappers.Result`. Here `e`
  names the Python exception class the code would raise. For example, a
  missing exit multiple is `ValueError` and an empty projection list read at
  `[-1]` is `IndexError`.
- **Dictionaries.** A Python dict built from a list of pairs becomes
  `Dicts.Dict`. It keeps the first-insertion key order and the last value
  written under each key, so repeated names behave as they do in Python.
  Lemmas that need distinct names say so in their `requires`.
- **NaN cells.** A cell whose calculation raised becomes `NaN` in a
  sensitivity table. `min`/`max` over rows follow Python's fold, where every
  comparison with NaN is false.
- **Dates.** Dates are integer day numbers. Today's date is a parameter.
- **Powers.** A real-exponent power (the IRR root `moic ** (1/years)`, the DCF
  discount factor `(1 + wacc) ** period`) is a parameter
  `pow: (real, real) -> real`. The model states what it computes in terms of
  that parameter. Integer powers (the DDM discount factor, compound EBITDA
  growth in `simple_lbo`) are computed exactly.

## Two points in the entry-multiple solver

The model follows the code as written in both places.

- **The debt rescaling** (`lbo.py:362-367`). The comment at lines 363-364
  says the debt scales with the purchase price. But line 367 multiplies each
  amount by `scale` and then divides it by `entry_multiple / original_multiple`,
  which is the same factor. So in exact arithmetic the amounts do not change.
  `LboSolver.RescaleKeepsDebt` and `LboSolver.TrialRunsRescaledDebt` state this.
- **Restoring the entry multiple** (`lbo.py:355-381`). The original multiple
  is restored at lines 372 and 380. Those lines are skipped when `run_model`
  raises, and then the model keeps the failing midpoint.
  `LboSolver.SolveForEntryMultiple` returns the model as it is left and
  states this.

## Model

| member | source | states |
|---|---|---|
| `Utils.GrantDilution` | company_valuation/utils.py:57-67 | one grant adds nothing when out of the money; otherwise it adds the quantity less the shares bought back at the current price, never a negative number |
| `Utils.TreasuryStockMethod` | company_valuation/utils.py:31-69 | dilution is never negative and is zero for a non-positive share price |
| `Utils.DilutionAppend` | company_valuation/utils.py:55-69 | the dilution of two grant lists together is the sum of their dilutions |
| `Utils.OutOfTheMoneyAddsNothing` | company_valuation/utils.py:57-59 | adding a grant whose strike is at or above the price leaves the dilution unchanged |
| `Utils.DilutedShares` | company_valuation/utils.py:72-93 | diluted shares are basic shares plus RSUs plus exactly the treasury-method dilution, never fewer than basic plus RSUs |
| `Utils.NetDebt` | company_valuation/utils.py:146-164 | net debt plus cash is total debt |
| `Utils.EquityValueFromEv` | company_valuation/utils.py:121-143 | the equity value is the one whose enterprise value, with the same claims, is the given enterprise value |
| `Utils.EnterpriseValue` | company_valuation/utils.py:96-118 | EV is the equity value plus net debt, minority interest and preferred stock; `Utils.EquityEnterpriseRoundTrip` states that `Utils.EquityValueFromEv` undoes it |
| `Utils.EquityEnterpriseRoundTrip` | company_valuation/utils.py:96-143 | going from equity to enterprise value and back returns the original equity value |
| `Utils.LtmCalculation` | company_valuation/utils.py:167-187 | LTM exceeds the fiscal year by exactly the year-to-date change |
| `Utils.ImpliedPerpetualGrowth` | company_valuation/utils.py:190-216 | zero when terminal value plus final cash flow is zero; otherwise the growth g with tv·(r − g) = fcf·(1 + g) |
| `Utils.ImpliedPerpetualGrowthRecovers` | company_valuation/utils.py:190-216 | applied to a Gordon terminal value built with growth g, the implied growth is g again |
| `Utils.Ratio` | company_valuation/comps.py:144-152 | a guarded quotient, used for every peer and deal multiple and for per-share values: present exactly for a positive denominator, and times the denominator it gives the numerator |
| `Utils.EvToEquityBridge` | company_valuation/utils.py:240-268 | equity plus net debt is the enterprise value; the per-share value times the shares is the equity, or zero when there are no shares |
| `Utils.BridgeRecoversEquity` | company_valuation/utils.py:96-268 | bridging the enterprise value of an equity value back gives that equity value |
| `Utils.FilterValid` | company_valuation/utils.py:270-280 | keeps exactly the present values: each result was present, each present value is kept |
| `Utils.FilterValidAppend` | company_valuation/utils.py:270-280 | filtering distributes over concatenation, and the number kept is the number present |
| `Utils.Sorted` | company_valuation/utils.py:303-310 | the sorted values are a permutation of the input in non-decreasing order |
| `Utils.Percentile` | company_valuation/utils.py:308-309 | a linear-interpolation percentile lies between the minimum and the maximum |
| `Utils.PercentileMonotone` | company_valuation/utils.py:305-309 | a higher percentile rank never gives a lower percentile |
| `Utils.CalculateStatistics` | company_valuation/utils.py:283-313 | all-None for no values; otherwise the mean is the average, min/max are the extremes, and min ≤ p25 ≤ median ≤ p75 ≤ max, with the count of values |
| `Wacc.CostOfEquity.Calculate` | company_valuation/wacc.py:30-32 | the cost of equity exceeds the risk-free rate by beta times the premium; zero beta earns the risk-free rate |
| `Wacc.FromMarketReturn` | company_valuation/wacc.py:35-42 | the premium is the market return less the risk-free rate |
| `Wacc.MarketBetaEarnsMarketReturn` | company_valuation/wacc.py:15-42 | a beta of one earns the market return, and a beta of zero earns the risk-free rate |
| `Wacc.Unlever` | company_valuation/wacc.py:57-74 | ValueError exactly for zero equity; ZeroDivisionError exactly for a zero leverage factor; otherwise the unlevered beta times the factor is the levered beta |
| `Wacc.Relever` | company_valuation/wacc.py:77-94 | ValueError exactly for zero equity; otherwise beta times the leverage factor; no debt leaves beta unchanged |
| `Wacc.UnleverRelever` | company_valuation/wacc.py:57-94 | relevering an unlevered beta at the same structure returns the original beta |
| `Wacc.UnleverAll` | company_valuation/wacc.py:119-123 | every peer beta unlevered in order, failing exactly when some peer fails |
| `Wacc.MedianIsFiftiethPercentile` | company_valuation/wacc.py:125-131 | the median of the unlevered betas is their 50th percentile |
| `Wacc.FromPeers` | company_valuation/wacc.py:97-134 | ValueError on lists of different lengths; IndexError on no peers; otherwise the median unlevered beta relevered at the target structure |
| `Wacc.FromSinglePeerSameStructure` | company_valuation/wacc.py:97-134 | one peer with the target's own structure gives back that peer's beta |
| `Wacc.CapitalStructure.TotalValue` | company_valuation/wacc.py:158-160 | total value less debt is equity |
| `Wacc.CapitalStructure.EquityWeight` | company_valuation/wacc.py:163-165 | the equity weight times the total is the equity, or zero when the total is not positive |
| `Wacc.CapitalStructure.DebtWeight` | company_valuation/wacc.py:168-170 | the debt weight times the total is the debt, or zero when the total is not positive |
| `Wacc.CapitalStructure.AfterTaxCostOfDebt` | company_valuation/wacc.py:173-175 | equal to the pre-tax cost with no tax, and between zero and it for a tax rate in [0, 1] |
| `Wacc.CapitalStructure.Calculate` | company_valuation/wacc.py:177-186 | zero for a non-positive total; the cost of equity for an all-equity structure; the after-tax cost of debt for an all-debt structure |
| `Wacc.WeightsSumToOne` | company_valuation/wacc.py:163-170 | the two weights add up to one when the total is positive |
| `Wacc.WaccBetweenComponentCosts` | company_valuation/wacc.py:177-186 | the WACC lies between the cost of equity and the after-tax cost of debt |
| `Wacc.FromCapm` | company_valuation/wacc.py:189-213 | the structure carries the given values, and its cost of equity is the CAPM cost of equity |
| `Dcf.Projection` | company_valuation/dcf.py:65-68 | EBITDA defaults to EBIT plus D&A when not given; all other fields are kept |
| `Dcf.UfcfProjection.Nopat` | company_valuation/dcf.py:49-52 | NOPAT plus the tax on EBIT is EBIT; for non-negative EBIT and a rate in [0, 1] it lies between zero and EBIT |
| `Dcf.UfcfProjection.Ufcf` | company_valuation/dcf.py:54-63 | UFCF is NOPAT plus D&A less capex and the working-capital build, with SBC added only when asked; `Dcf.SbcAddBack` states the add-back's exact effect |
| `Dcf.SbcAddBack` | company_valuation/dcf.py:54-63 | switching the SBC add-back on raises UFCF by exactly the SBC |
| `Dcf.DiscountPeriod` | company_valuation/dcf.py:115-137 | without mid-year it is the end of the period; with mid-year the first period is half the stub and later ones half a year before their end |
| `Dcf.GetDiscountPeriods` | company_valuation/dcf.py:115-137 | the loop yields one period per projection, each as `DiscountPeriod` says |
| `Dcf.DiscountPeriodsIncreasing` | company_valuation/dcf.py:115-137 | discount periods strictly increase along the projections |
| `Dcf.MidYearNoLater` | company_valuation/dcf.py:126-134 | a mid-year period is never later than the end-of-period one |
| `Dcf.DiscountFactor` | company_valuation/dcf.py:139-141 | ZeroDivisionError exactly when the power is zero; otherwise the factor times the power is one |
| `Dcf.CalculatePvExplicit` | company_valuation/dcf.py:143-158 | the loop computes the discounted cash flows in order and their sum, or the division error |
| `Dcf.PvExplicit` | company_valuation/dcf.py:143-158 | succeeds exactly when every factor is defined; the total is the sum of the discounted cash flows, one per projection |
| `Dcf.TerminalValuePerpetuity` | company_valuation/dcf.py:160-177 | ValueError when WACC does not exceed growth; IndexError with no projections; otherwise the Gordon value of the last UFCF |
| `Dcf.TerminalValueExitMultiple` | company_valuation/dcf.py:179-192 | ValueError without a multiple; IndexError with no projections; otherwise the last EBITDA times the multiple, a zero multiple included |
| `Dcf.DefaultModel` | company_valuation/dcf.py:106-113 | the dataclass defaults: 2.5% terminal growth, no exit multiple, no net debt or share count, mid-year convention, a full first year |
| `Dcf.DefaultPeriods` | company_valuation/dcf.py:106-137 | under the defaults year `i` is discounted over `i + 0.5` years and the terminal value over the number of years |
| `Dcf.ImpliedGrowthFromMultiple` | company_valuation/dcf.py:194-215 | IndexError with no projections; otherwise zero for a zero denominator, else the growth solving the Gordon equation |
| `Dcf.ImpliedGrowthInvertsPerpetuity` | company_valuation/dcf.py:160-215 | the growth implied by a perpetuity terminal value is the terminal growth it was built with |
| `Dcf.TerminalPeriod` | company_valuation/dcf.py:217-226 | the number of years, less the missing part of a stub first year |
| `Dcf.TerminalAtLastYearEnd` | company_valuation/dcf.py:217-226 | the terminal period is the end-of-period discount period of the last year |
| `Dcf.DiscountTerminal` | company_valuation/dcf.py:217-226 | ZeroDivisionError exactly for a zero power; otherwise the discounted value grows back to the terminal value |
| `Dcf.Bridge` | company_valuation/dcf.py:242-254 | EV is the explicit PV plus the terminal PV; equity plus net debt is EV; per-share value only with a positive share count |
| `Dcf.ValuePerpetuity` | company_valuation/dcf.py:228-254 | succeeds exactly when the periods discount, WACC exceeds growth and there are projections; the errors in the code's order; the result bridges the pieces |
| `Dcf.ValueExitMultiple` | company_valuation/dcf.py:256-287 | succeeds exactly with a multiple, discountable periods and projections; the errors in the code's order; the result bridges the pieces and reports the implied growth |
| `Dcf.Value` | company_valuation/dcf.py:289-304 | dispatches "perpetuity" and "exit_multiple"; ValueError for any other name |
| `Dcf.TerminalValuePercentage` | company_valuation/dcf.py:306-321 | fails as the valuation fails; zero for a zero EV, else terminal PV over EV |
| `Dcf.TerminalShareBounded` | company_valuation/dcf.py:306-321 | with non-negative parts and a positive EV the terminal share is in [0, 1] |
| `Dcf.NetDebtShiftsEquity` | company_valuation/dcf.py:242-287 | raising net debt lowers equity by the same amount and leaves EV unchanged |
| `Dcf.PvExplicitIgnoresNetDebt` | company_valuation/dcf.py:143-158 | the explicit PV does not depend on net debt |
| `Ddm.Projection` | company-valuation/skills/run-valuation/scripts/company_valuation/ddm.py:33-36 | DPS defaults to EPS times the payout ratio when not given |
| `Ddm.DefaultModel` | company-valuation/skills/run-valuation/scripts/company_valuation/ddm.py:69-72 | the dataclass defaults: 3% terminal growth and no terminal P/E |
| `Ddm.DefaultModelValuations` | company-valuation/skills/run-valuation/scripts/company_valuation/ddm.py:93-161 | under the defaults the P/E method raises ValueError, and so does the Gordon method for a cost of equity at or below 3% |
| `Ddm.DiscountFactor` | company-valuation/skills/run-valuation/scripts/company_valuation/ddm.py:74-76 | ZeroDivisionError exactly for a zero base and a non-zero period; otherwise the reciprocal of the integer power, positive for a positive base |
| `Ddm.DiscountedDividends` | company-valuation/skills/run-valuation/scripts/company_valuation/ddm.py:78-91 | one discounted dividend per projection, or the division error |
| `Ddm.PvDividends` | company-valuation/skills/run-valuation/scripts/company_valuation/ddm.py:78-91 | the total is the sum of the discounted dividends |
| `Ddm.CalculatePvDividends` | company-valuation/skills/run-valuation/scripts/company_valuation/ddm.py:78-91 | the loop computes the same total and list as `PvDividends` |
| `Ddm.PvDividendsNonNegative` | company-valuation/skills/run-valuation/scripts/company_valuation/ddm.py:78-91 | non-negative dividends at a positive base have a non-negative present value |
| `Ddm.TerminalGordon` | company-valuation/skills/run-valuation/scripts/company_valuation/ddm.py:93-110 | ValueError when ke does not exceed growth; IndexError with no projections; otherwise the Gordon price of the last DPS |
| `Ddm.TerminalPe` | company-valuation/skills/run-valuation/scripts/company_valuation/ddm.py:112-125 | ValueError without a P/E; IndexError with no projections; otherwise the last EPS times the P/E, a zero P/E included |
| `Ddm.DiscountTerminal` | company-valuation/skills/run-valuation/scripts/company_valuation/ddm.py:127-130 | discounted over the number of projections; the result grows back to the terminal price |
| `Ddm.ImpliedGrowth` | company-valuation/skills/run-valuation/scripts/company_valuation/ddm.py:181-199 | IndexError with no projections; otherwise zero in the degenerate cases, else the growth solving the Gordon equation |
| `Ddm.ImpliedGrowthInvertsGordon` | company-valuation/skills/run-valuation/scripts/company_valuation/ddm.py:93-199 | the growth implied by a Gordon price is the growth it was built with |
| `Ddm.ValueGordonGrowth` | company-valuation/skills/run-valuation/scripts/company_valuation/ddm.py:132-151 | succeeds exactly for a non-zero base, ke above growth and some projections; otherwise the error the code raises first; the value is PV plus discounted terminal price |
| `Ddm.ValuePeMultiple` | company-valuation/skills/run-valuation/scripts/company_valuation/ddm.py:153-179 | succeeds exactly with a P/E, a non-zero base and projections; the value is PV plus discounted terminal price, with the implied growth |
| `Ddm.Value` | company-valuation/skills/run-valuation/scripts/company_valuation/ddm.py:201-216 | dispatches "gordon_growth" and "pe_multiple"; ValueError for any other name |
| `Ddm.TerminalGordonIncreasesWithGrowth` | company-valuation/skills/run-valuation/scripts/company_valuation/ddm.py:93-110 | a higher terminal growth below ke gives a higher Gordon price |
| `Ddm.ValueIncreasesWithGrowth` | company-valuation/skills/run-valuation/scripts/company_valuation/ddm.py:132-151 | a higher terminal growth gives a higher value per share |
| `Ddm.PeMatchingGordonImpliesGrowth` | company-valuation/skills/run-valuation/scripts/company_valuation/ddm.py:153-199 | when the P/E price equals the Gordon price, the implied growth is the terminal growth |
| `Ddm.FromEpsForecast` | company-valuation/skills/run-valuation/scripts/company_valuation/ddm.py:218-250 | one projection per forecast, year i + 1, DPS the EPS times the payout ratio |
| `Ddm.FromDividendForecast` | company-valuation/skills/run-valuation/scripts/company_valuation/ddm.py:252-276 | one projection per forecast, year i + 1, DPS as forecast, no terminal P/E |
| `Ddm.ForecastDiscounting` | company-valuation/skills/run-valuation/scripts/company_valuation/ddm.py:78-91 | the i-th discounted forecast grown back over i + 1 years is the forecast |
| `Ddm.DividendForecastHasNoPe` | company-valuation/skills/run-valuation/scripts/company_valuation/ddm.py:252-276 | a model built from dividends cannot be valued by the P/E method |
| `Sotp.ParseMethod` | company-valuation/skills/run-valuation/scripts/company_valuation/sotp.py:18-26 | parses exactly the enum's value strings and raises ValueError for all others |
| `Sotp.ParseMethodName` | company-valuation/skills/run-valuation/scripts/company_valuation/sotp.py:18-26 | parsing a method's value string gives the method back |
| `Sotp.Segment.CalculatedValue` | company-valuation/skills/run-valuation/scripts/company_valuation/sotp.py:50-59 | an explicit segment value wins; otherwise metric times multiple |
| `Sotp.Valuation` | company-valuation/skills/run-valuation/scripts/company_valuation/sotp.py:115-153 | gross EV is the segment total; pre-discount EV is gross less overhead; the discount comes off; equity plus net debt is net EV; per share with a positive share count |
| `Sotp.SotpModel.CorporateOverheadValue` | company-valuation/skills/run-valuation/scripts/company_valuation/sotp.py:106-113 | the overhead value is the overhead times its multiple |
| `Sotp.SotpModel.SegmentValues` | company-valuation/skills/run-valuation/scripts/company_valuation/sotp.py:122-123 | keyed by exactly the segment names |
| `Sotp.SotpModel.Calculate` | company-valuation/skills/run-valuation/scripts/company_valuation/sotp.py:115-153 | the valuation of the model's segment values, overhead, discount and net debt |
| `Sotp.SotpModel.SensitivityToDiscount` | company-valuation/skills/run-valuation/scripts/company_valuation/sotp.py:155-174 | one entry per discount, each the equity value at that discount |
| `Sotp.SotpModel.SegmentContribution` | company-valuation/skills/run-valuation/scripts/company_valuation/sotp.py:176-192 | all zero for a zero gross value; otherwise each segment's share of the gross value |
| `Sotp.DefaultModel` | company-valuation/skills/run-valuation/scripts/company_valuation/sotp.py:98-103 | no overhead or net debt, a 15% discount and an 8x overhead multiple |
| `Sotp.DiscountKeepsPreDiscountValue` | company-valuation/skills/run-valuation/scripts/company_valuation/sotp.py:155-174 | changing the discount leaves the pre-discount EV unchanged |
| `Sotp.EquityDecreasesWithDiscount` | company-valuation/skills/run-valuation/scripts/company_valuation/sotp.py:155-174 | with a positive pre-discount EV, a larger discount gives less equity |
| `Sotp.SensitivityOrdered` | company-valuation/skills/run-valuation/scripts/company_valuation/sotp.py:155-174 | in the sensitivity table a larger discount maps to a smaller equity value |
| `Sotp.ContributionOfSegments` | company-valuation/skills/run-valuation/scripts/company_valuation/sotp.py:176-192 | with distinct names each contribution is the segment's value over the sum, and the contributions sum to one |
| `Sotp.GrossIsSumOfSegments` | company-valuation/skills/run-valuation/scripts/company_valuation/sotp.py:122-126 | with distinct names gross EV is the sum of the segment values, keyed in segment order |
| `Sotp.ParseSegment` | company-valuation/skills/run-valuation/scripts/company_valuation/sotp.py:223-232 | ValueError for an unknown method, KeyError without a name; defaults "ev_ebitda", zero metric and multiple |
| `Sotp.ParseAsData` | company-valuation/skills/run-valuation/scripts/company_valuation/sotp.py:223-232 | describing a segment as a record and parsing it gives the segment back |
| `Sotp.ParseSegments` | company-valuation/skills/run-valuation/scripts/company_valuation/sotp.py:222-232 | succeeds exactly when every record parses, in order; else the first failing record's error |
| `Sotp.FromDict` | company-valuation/skills/run-valuation/scripts/company_valuation/sotp.py:195-241 | the parsed segments with the given overhead, discount, net debt and shares, or the first parse error |
| `Sotp.FromDictRoundTrip` | company-valuation/skills/run-valuation/scripts/company_valuation/sotp.py:195-241 | building a model from its own segments' records gives the model back |
| `Comps.Metric.Ltm` | company_valuation/comps.py:111-134 | an explicit LTM figure wins over the computed one |
| `Comps.CalcLtm` | company_valuation/comps.py:94-100 | present exactly when FY, YTD and prior YTD are all present, with the LTM arithmetic |
| `Comps.LtmOverride` | company_valuation/comps.py:111-134 | setting the explicit LTM figure makes it the result |
| `Comps.PeerCompany.MarketCap` | company_valuation/comps.py:101-104 | price times shares: for a non-zero share count, market cap over the shares gives back the price |
| `Comps.PeerCompany.EnterpriseValue` | company_valuation/comps.py:107-109 | EV less net debt is market cap |
| `Comps.PeerCompany.LtmEps` | company_valuation/comps.py:137-142 | present exactly with LTM net income and a positive share count; times shares it is net income |
| `Comps.PeerCompany.EvEbitda` | company_valuation/comps.py:144-152 | EV over NTM EBITDA when asked and non-zero, else over LTM EBITDA; only a positive denominator |
| `Comps.PeerCompany.EvEbit` | company_valuation/comps.py:154-159 | EV over LTM EBIT when that is positive |
| `Comps.PeerCompany.EvRevenue` | company_valuation/comps.py:161-169 | EV over NTM or LTM revenue, as for EBITDA |
| `Comps.PeerCompany.PeRatio` | company_valuation/comps.py:171-179 | price over NTM or LTM EPS, as for EBITDA |
| `Comps.PeerCompany.PriceToBook` | company_valuation/comps.py:181-185 | market cap over a positive book value |
| `Comps.Pick` | company_valuation/comps.py:144-152 | the NTM figure when asked and truthy, otherwise the LTM one |
| `Comps.NtmFallsBack` | company_valuation/comps.py:144-179 | without a usable NTM figure, the NTM multiple is the LTM multiple |
| `Comps.Multiples` | company_valuation/comps.py:223-264 | keyed by every peer's ticker and nothing else; the statistics count the present multiples |
| `Comps.MultiplesOfDistinctPeers` | company_valuation/comps.py:223-264 | with distinct tickers the table holds each peer's multiple in peer order |
| `Comps.ParseMultipleType` | company_valuation/comps.py:280-289 | accepts exactly "ev_ebitda", "ev_ebit", "ev_revenue" and "pe"; ValueError otherwise |
| `Comps.ImpliedValue` | company_valuation/comps.py:266-308 | ValueError exactly for an unknown type; otherwise no valuation exactly when no peer has the multiple, else target times the reference multiple with the quartile range |
| `Comps.PeerSummary` | company_valuation/comps.py:310-326 | the five multiples tables of the peers |
| `PeerMultiples.MultiplesTable` | company_valuation/comps.py:197-221 | keyed by the names given; its statistics are those of the present values |
| `PeerMultiples.MultiplesTableDistinct` | company_valuation/comps.py:223-236 | with distinct names the table keeps every pair in order |
| `PeerMultiples.StatisticsReference` | company-valuation/skills/run-valuation/scripts/company_valuation/precedent.py:234-237 | the reference multiple is missing exactly when there are no values |
| `PeerMultiples.Scaled` | company-valuation/skills/run-valuation/scripts/company_valuation/precedent.py:240-241 | a low/high value exists exactly for a truthy quartile and is target times it |
| `PeerMultiples.ImpliedFrom` | company_valuation/comps.py:291-308 | no valuation exactly without a reference multiple; otherwise target times it, with low/high from p25/p75 |
| `PeerMultiples.ImpliedWithinRange` | company-valuation/skills/run-valuation/scripts/company_valuation/precedent.py:234-249 | for a non-negative target the median-based value lies between low and high |
| `Precedent.Transaction.ControlPremium` | company_valuation/precedent.py:60-73 | present exactly for truthy prices with a positive pre-announcement price; the deal price is the pre-announcement price grown by the premium |
| `Precedent.Transaction.EvRevenue` | company_valuation/precedent.py:75-80 | deal value over a positive LTM revenue |
| `Precedent.Transaction.EvEbitda` | company_valuation/precedent.py:82-87 | deal value over a positive LTM EBITDA |
| `Precedent.Transaction.EvEbit` | company_valuation/precedent.py:89-94 | deal value over a positive LTM EBIT |
| `Precedent.Transaction.PeRatio` | company_valuation/precedent.py:96-100 | equity value over a positive LTM net income |
| `Precedent.Transaction.YearsSince` | company_valuation/precedent.py:102-107 | elapsed days over 365.25; not positive exactly when the deal is not before the reference date |
| `Precedent.FilterByRecency` | company_valuation/precedent.py:119-138 | keeps, in order, exactly the deals at most the given years old at the reference date |
| `Precedent.RecencyWindowsNest` | company-valuation/skills/run-valuation/scripts/company_valuation/precedent.py:120-139 | narrowing a recency window after a wider one equals the narrower window alone |
| `Precedent.FilterByDealType` | company_valuation/precedent.py:140-151 | keeps exactly the deals of that type |
| `Precedent.FilterBySector` | company_valuation/precedent.py:153-156 | keeps exactly the deals in that sector |
| `Precedent.TypeAndSectorFiltersCommute` | company-valuation/skills/run-valuation/scripts/company_valuation/precedent.py:141-157 | the type and sector filters commute and are idempotent |
| `Precedent.FilterBySize` | company_valuation/precedent.py:158-177 | keeps, in order, exactly the deals with a deal value within the given bounds |
| `Precedent.CrossedBoundsKeepNothing` | company-valuation/skills/run-valuation/scripts/company_valuation/precedent.py:159-178 | a minimum above the maximum keeps no deal |
| `Precedent.ControlPremiumStatistics` | company_valuation/precedent.py:207-215 | the statistics of the present premiums, counting at most one per deal |
| `Precedent.Multiples` | company_valuation/precedent.py:217-236 | keyed by every target name and nothing else; the statistics count the present multiples |
| `Precedent.MultiplesOfDistinctTargets` | company-valuation/skills/run-valuation/scripts/company_valuation/precedent.py:190-206 | with distinct names the table holds each deal's multiple in deal order |
| `Precedent.ParseMultipleType` | company_valuation/precedent.py:254-261 | accepts exactly "ev_ebitda", "ev_ebit" and "ev_revenue"; ValueError otherwise |
| `Precedent.ImpliedValue` | company_valuation/precedent.py:238-279 | ValueError exactly for an unknown type; otherwise no valuation exactly when no deal has the multiple, with the count of deals used |
| `Precedent.AnalysisSummary` | company_valuation/precedent.py:281-294 | the three multiples tables, the premium statistics and the deal count |
| `Precedent.PremiumPositiveIffPriceAbove` | company-valuation/skills/run-valuation/scripts/company_valuation/precedent.py:61-74 | the premium is positive exactly when the deal price exceeds the pre-announcement price |
| `LboDeal.DebtTranche.AnnualAmortization` | company_valuation/lbo.py:40-42 | zero for a zero rate or amount; between zero and the amount for a rate in [0, 1] |
| `LboDeal.DebtTranche.InterestExpense` | company_valuation/lbo.py:44-46 | zero on a zero balance or rate; positive for a positive rate and balance |
| `LboDeal.SourcesAndUses.TotalSources` | company_valuation/lbo.py:100-103 | total debt plus sponsor and rollover equity |
| `LboDeal.SourcesAndUses.TotalUses` | company_valuation/lbo.py:105-108 | equity purchase and refinancing plus the two fees |
| `LboDeal.SourcesAndUses.TotalDebt` | company_valuation/lbo.py:110-111 | term loan plus revolver draw plus other debt |
| `LboDeal.LboModel.PurchasePrice` | company_valuation/lbo.py:153-155 | the purchase price over entry EBITDA is the entry multiple |
| `LboDeal.LboModel.TotalInitialDebt` | company_valuation/lbo.py:158-160 | the sum over all tranches, revolvers included (term amounts plus revolver amounts); non-negative for non-negative amounts |
| `LboDeal.LboModel.TransactionFees` | company_valuation/lbo.py:163-165 | the fee's share of the purchase price is its percentage |
| `LboDeal.LboModel.FinancingFees` | company_valuation/lbo.py:168-170 | the fee's share of the initial debt is its percentage |
| `LboDeal.LboModel.InitialEquity` | company_valuation/lbo.py:173-176 | equity plus initial debt covers price and both fees |
| `LboDeal.LboModel.SourcesAndUsesTable` | company_valuation/lbo.py:178-191 | the table balances at every positive tolerance, with the model's debt, equity and price |
| `LboDeal.TermAndRevolverPartition` | company_valuation/lbo.py:158-160 | term and revolver amounts add up to all tranche amounts |
| `LboDeal.InitialEquityIncreasesWithEntryMultiple` | company_valuation/lbo.py:153-176 | a higher entry multiple requires more equity |
| `LboDeal.Taxes` | company_valuation/lbo.py:203-205 | taxes on positive taxable income only, never negative |
| `LboDeal.FreeCashFlow` | company_valuation/lbo.py:193-209 | FCF plus interest, taxes, capex and working capital is EBITDA |
| `LboDeal.FreeCashFlowInterestSensitivity` | company_valuation/lbo.py:193-209 | more interest lowers FCF by between the after-tax and the full increase |
| `LboDeal.GrowthProjections` | company_valuation/lbo.py:417-427 | one projection per hold year, EBITDA compounding at the growth rate from entry EBITDA |
| `LboDeal.SimpleLbo` | company_valuation/lbo.py:384-435 | one unitranche of leverage times EBITDA, 2% fees, no minimum cash, the grown projections |
| `LboDeal.SimpleLboCompounds` | company_valuation/lbo.py:419-420 | each year's EBITDA is the previous year's grown by the growth rate |
| `LboDeal.SimpleLboScenario` | company_valuation/lbo.py:384-435 | the standard 10x / 6x scenario has a price of 1000, 600 of debt and 432 of equity, with EBITDA compounding at 5% |
| `LboSchedule.OpeningBalances` | company_valuation/lbo.py:231-232 | every tranche name has a balance, and every balance belongs to a tranche |
| `LboSchedule.OpeningBalancesUnique` | company_valuation/lbo.py:231-232 | with unique names each tranche opens at its amount and the total is all tranche amounts |
| `LboSchedule.TotalInterest` | company_valuation/lbo.py:242-245 | non-negative for non-negative rates and balances |
| `LboSchedule.ResolveCircularity` | company_valuation/lbo.py:238-253 | defined exactly for a positive iteration limit; interest from the current balances and FCF from that interest; passes stop at two with a positive threshold |
| `LboSchedule.Repay` | company_valuation/lbo.py:261-298 | only the named balance changes, by exactly the amount |
| `LboSchedule.AmortizeTranche` | company_valuation/lbo.py:257-262 | a term tranche pays the smaller of its schedule and its balance; a revolver pays nothing |
| `LboSchedule.Amortize` | company_valuation/lbo.py:256-262 | whatever is paid comes off the total debt |
| `LboSchedule.SweepOrder` | company_valuation/lbo.py:271-274 | exactly the term tranches, sorted by priority |
| `LboSchedule.SweepOrderFacts` | company_valuation/lbo.py:271-274 | the order is a permutation of the term tranches in non-decreasing priority |
| `LboSchedule.SweepWalkConserves` | company_valuation/lbo.py:276-283 | whatever the walk pays comes off the total debt |
| `LboSchedule.CashSweep` | company_valuation/lbo.py:268-283 | nothing changes unless there is positive cash; payments come off the total debt |
| `LboSchedule.RevolverMove` | company_valuation/lbo.py:287-299 | a revolver moves exactly on a shortfall, or on positive cash when the sweep paid nothing |
| `LboSchedule.RevolverPass` | company_valuation/lbo.py:286-299 | the total changes by the net movement; with at most one revolver the recorded change is that movement |
| `LboSchedule.CloseYear` | company_valuation/lbo.py:255-313 | the row records the year, EBITDA, interest, FCF and ending debt; with at most one revolver, ending debt is opening debt less the year's paydown |
| `LboSchedule.RunYear` | company_valuation/lbo.py:236-313 | UnboundLocalError exactly for a non-positive iteration limit; otherwise the row from the current balances |
| `LboSchedule.RunYears` | company_valuation/lbo.py:236-313 | one row per projection, failing exactly for projections with a non-positive limit |
| `LboSchedule.YearlyDebtRollForward` | company_valuation/lbo.py:301-312 | with at most one revolver each year ends at its opening debt less its paydown |
| `LboSchedule.ScheduleConservesDebt` | company_valuation/lbo.py:301-318 | with at most one revolver the final debt is the opening debt less the sum of the yearly paydowns |
| `LboSchedule.Moic` | company_valuation/lbo.py:322 | MOIC times the entry equity is the exit equity, zero without entry equity |
| `LboSchedule.MoicIncreasing` | company_valuation/lbo.py:322 | more exit equity gives a higher MOIC |
| `LboSchedule.Returns` | company_valuation/lbo.py:315-334 | exit EV is final EBITDA times the exit multiple; exit equity is EV less the remaining debt; IRR is the root of MOIC when it is positive, else zero |
| `LboSchedule.RunModel` | company_valuation/lbo.py:211-334 | IndexError exactly with no projections; UnboundLocalError exactly for a non-positive limit; one row per year and the last row's debt is the exit debt |
| `LboProperties.AmortizeSound` | company_valuation/lbo.py:256-262 | amortisation never over-repays: balances stay non-negative and the amount paid is not negative |
| `LboProperties.SweepWalkSound` | company_valuation/lbo.py:276-283 | the sweep pays between zero and the cash it has, leaving no balance negative |
| `LboProperties.CashSweepSound` | company_valuation/lbo.py:265-283 | the sweep pays between zero and the positive part of the cash |
| `LboProperties.RevolverMoveSound` | company_valuation/lbo.py:287-299 | a draw is at most the shortfall and the headroom; a repayment is at most the cash and the balance |
| `LboProperties.RevolverPassSound` | company_valuation/lbo.py:286-299 | the revolver stays within [0, commitment], draws only on a shortfall and repays only when the sweep paid nothing |
| `LboProperties.RunModelSound` | company_valuation/lbo.py:211-334 | for well-formed debt, every year's row is sound and the exit debt is not negative |
| `LboProperties.RunModelConservesDebt` | company_valuation/lbo.py:301-332 | with unique names and at most one revolver, total paydown is initial debt less exit debt |
| `LboProperties.IterationLimitIrrelevant` | company_valuation/lbo.py:240-253 | any positive iteration limit and any threshold give the same result |
| `LboProperties.ScheduleIgnoresPricing` | company_valuation/lbo.py:228-313 | the debt schedule depends only on the tranches and the projections |
| `LboProperties.EquityIgnoresExitMultiple` | company_valuation/lbo.py:173-176 | the equity cheque does not depend on the exit multiple |
| `LboProperties.ExitMultipleRaisesMoic` | company_valuation/lbo.py:315-323 | a higher exit multiple raises exit equity by final EBITDA times the difference, and with positive EBITDA and equity it raises the MOIC |
| `LboProperties.SweepWalkPaysOff` | company_valuation/lbo.py:276-283 | a sweep that pays less than its cash leaves every swept tranche at zero |
| `LboProperties.SweepWalkStops` | company_valuation/lbo.py:276-283 | a tranche the sweep leaves owing stops it: no later tranche is touched |
| `LboProperties.SweepOrderStable` | company_valuation/lbo.py:271-274 | tranches of equal priority are swept in list order |
| `LboProperties.NoRevolverDebtNonIncreasing` | company_valuation/lbo.py:255-313 | with no revolver, debt never rises from one year to the next |
| `LboSolver.Rescale` | company_valuation/lbo.py:362-366 | ZeroDivisionError exactly for a zero ratio on a non-empty list; otherwise each amount times scale over ratio |
| `LboSolver.RescaleKeepsDebt` | company_valuation/lbo.py:362-366 | rescaling by a ratio equal to the scale leaves every tranche unchanged |
| `LboSolver.TrialIrr` | company_valuation/lbo.py:359-368 | ZeroDivisionError for a zero original multiple or a zero midpoint; otherwise it succeeds exactly with projections |
| `LboSolver.TrialRunsRescaledDebt` | company_valuation/lbo.py:359-368 | a trial runs the model at the midpoint on the original tranches |
| `LboSolver.BisectSound` | company_valuation/lbo.py:357-378 | a multiple found lies in the range and reaches the target within tolerance; a failure names an in-range midpoint that raised; running out of trials means the first midpoint ran and missed |
| `LboSolver.BisectNoError` | company_valuation/lbo.py:357-378 | when every positive trial succeeds, a positive range never fails |
| `LboSolver.BisectLoop` | company_valuation/lbo.py:357-378 | the fifty-trial loop computes the recursive bisection |
| `LboSolver.TrialsSucceed` | company_valuation/lbo.py:359-368 | with projections and a non-zero original multiple every positive trial succeeds |
| `LboSolver.SolveForEntryMultiple` | company_valuation/lbo.py:336-381 | the answer is the bisection's outcome: the multiple it found (in the range, hitting the target IRR), `None` exactly when the fifty trials all missed, an error exactly when a trial raised; the model is restored unless a trial raised; a zero original multiple raises |
| `Sensitivity.CellOf` | company_valuation/sensitivity.py:178-187 | a value for a successful calculation, NaN for one that raised |
| `Sensitivity.Extreme` | company_valuation/sensitivity.py:43-49 | Python's min/max fold: one of the cells; NaN if the first is NaN; otherwise a number bounding every number cell, NaNs after the first being skipped |
| `Sensitivity.Grid` | company_valuation/sensitivity.py:178-187 | one row per row value, one cell per column value, each the calculation at that pair |
| `Sensitivity.SensitivityTable.BaseValue` | company_valuation/sensitivity.py:37-41 | the cell at the base indices when both are set; None otherwise; IndexError out of range |
| `Sensitivity.SensitivityTable.TableExtreme` | company_valuation/sensitivity.py:43-49 | ValueError exactly for an empty table or row; NaN when the first cell is NaN; otherwise the least/greatest cell among number cells of rows that start with a number, rows starting with NaN being skipped |
| `Sensitivity.SensitivityTable.Range` | company_valuation/sensitivity.py:51-53 | the minimum and maximum together, failing as they fail |
| `Sensitivity.TableExtremeNanFree` | company_valuation/sensitivity.py:43-49 | without NaN the extreme is a cell bounding every other cell |
| `Sensitivity.BaseIndex` | company_valuation/sensitivity.py:189-201 | the first position of the base value, and None exactly when it is absent |
| `Sensitivity.CreateTable` | company_valuation/sensitivity.py:154-212 | the nested loops build the grid of calculated cells and the base indices |
| `Sensitivity.CreatedBaseValue` | company_valuation/sensitivity.py:189-212 | with both base values present the base cell is the calculation at the base values |
| `Sensitivity.TableExtremeCounted` | company_valuation/sensitivity.py:43-49 | with a number in the first cell, the extreme is a counted cell bounding every counted cell |
| `Sensitivity.RangeBracketsBase` | company_valuation/sensitivity.py:37-53 | the base value lies within the range whenever the first cell, its row's first cell and the base cell are numbers, NaNs elsewhere notwithstanding |
| `Sensitivity.NanFreeRangeBracketsBase` | company_valuation/sensitivity.py:37-53 | without NaN the base value lies within the table's range |
| `Sensitivity.LeadingNanPoisonsRange` | company_valuation/sensitivity.py:43-53 | a NaN first cell makes both ends of the range NaN |
| `Sensitivity.PerpetuityEv` | company_valuation/sensitivity.py:235-243 | the perpetuity-method EV, failing as the valuation fails |
| `Sensitivity.DcfSensitivity` | company_valuation/sensitivity.py:214-254 | WACC rows by growth columns, each cell the EV at that pair, based at the model's own values |
| `Sensitivity.DcfBaseCellIsBaseValuation` | company_valuation/sensitivity.py:214-254 | the base cell is the model's own perpetuity EV |
| `Sensitivity.LboIrr` | company_valuation/sensitivity.py:277-286 | the IRR at default settings, failing exactly with no projections |
| `Sensitivity.LboSensitivity` | company_valuation/sensitivity.py:256-297 | entry-multiple rows by exit-multiple columns, each the IRR at that pair, based at the model's own multiples |
| `Sensitivity.LboBaseCellIsBaseIrr` | company_valuation/sensitivity.py:256-297 | the base cell is the model's own IRR |
| `Sensitivity.LboTableNanFree` | company_valuation/sensitivity.py:256-297 | the LBO table is free of NaN exactly when the model has projections or the table is empty |
| `Sensitivity.FootballFieldBar.RangeWidth` | company_valuation/sensitivity.py:85-87 | low plus width is high |
| `Sensitivity.OverallRange` | company_valuation/sensitivity.py:103-113 | ValueError when a side has no values; otherwise the least low and greatest high among bars and truthy 52-week prices |
| `Sensitivity.ZeroFiftyTwoWeekIgnored` | company_valuation/sensitivity.py:103-113 | a 52-week price of zero counts as absent |
| `Sensitivity.ConsensusRange` | company_valuation/sensitivity.py:115-127 | ValueError with no bars; a range exactly when every low is at most every high, lying inside every bar |
| `Sensitivity.ConsensusOverlap` | company_valuation/sensitivity.py:115-127 | the greatest low is at most the least high exactly when all bars pairwise overlap |
| `Sensitivity.BarsFor` | company_valuation/sensitivity.py:321-353 | one bar per given method range, in order |
| `Sensitivity.CreateFootballField` | company_valuation/sensitivity.py:299-360 | the bars are the given methods in order; the 52-week prices and current price as passed |
| `Sensitivity.FootballFieldBars` | company_valuation/sensitivity.py:321-353 | as many bars as ranges given, DCF first and LBO last |

## Left out

- Floating point. Reals are exact, so float rounding, overflow, infinities
  and NaN produced by arithmetic are not modelled. In particular, the
  solver's rescaling `amount * scale / (mid / original)` is exactly the
  amount here, while in floats it can differ in the last bit. NaN appears
  only where a sensitivity calculation raises.
- Real-exponent powers. These are the IRR root, `moic ** (1/years)`, and the
  DCF discount factor. They are the parameter `pow`. Statements about them
  hold for every choice of `pow`, and none depends on what `**` computes.
- Dates. `date.today()` is a parameter, and dates are day numbers. The
  days-per-year constant 365.25 is kept.
- Dictionary output. The `to_dict` methods of the result types, the keys that
  `implied_value` and `summary` add to their dictionaries, and the comps
  statistics dictionary (which has no count key) are structured results here.
  Keys the source omits are `None` here.
- Negative base indices. The base indices of a sensitivity table are natural
  numbers, so Python's negative indexing of `results[-1]` is not modelled.
- `rule_of_40`, `__init__.py` re-exports and the example script lie outside
  the valuation core.
- `Sotp.FromDict`: an explicit `None` in a segment record is read as a
  missing key.
- `Dcf.ValueExitMultiple`: the unused `ufcf_next` local of the source is not
  computed.
- `Precedent.Transaction`: the close date, geography and strategic flag are
  carried but no operation reads them, as in the source.
- `Sensitivity.LboSensitivity`: the debt is not resized for each entry
  multiple, as in the source.
- `LboSchedule.RevolverPass`: debt is conserved only under the hypothesis of
  at most one revolver, because the source records only the last revolver's
  change. `LboProperties.RunModelConservesDebt` also needs unique tranche
  names, because the balances dictionary keeps one entry per name.
- `LboSolver.SolveForEntryMultiple`: the trial count is fixed at fifty, as
  in the source. The model's state on the exception path is returned, not
  mutated.
