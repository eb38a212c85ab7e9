/** Precedent-transaction analysis: the control premium and the transaction
    multiples of past deals, filters by recency, deal type, sector and size,
    the statistics of the multiples, and the implied value of a target.
    Dates are day numbers (days since a fixed epoch), so the difference of
    two dates is the number of days between them.
 */
module Precedent {
  import opened Wrappers
  import opened Seqs
  import opened Dicts
  import Utils
  import opened PeerMultiples

  datatype Transaction = Transaction(
    targetName: string,
    acquirerName: string,
    announceDate: int,
    dealValue: real,
    equityValue: real,
    targetLtmRevenue: Option<real>,
    targetLtmEbitda: Option<real>,
    targetLtmEbit: Option<real>,
    targetLtmNetIncome: Option<real>,
    preAnnouncementPrice: Option<real>,
    dealPricePerShare: Option<real>,
    closeDate: Option<int>,
    isStrategic: bool,
    dealType: string,
    sector: Option<string>,
    geography: Option<string>)
  {
    /** Premium of the price paid over the undisturbed price, as a fraction
        of the latter. Both prices must be truthy and the undisturbed one
        positive; then the premium grows the undisturbed price into the deal
        price. */
    function ControlPremium(): (r: Option<real>)
      ensures r.Some? <==> Truthy(preAnnouncementPrice) && Truthy(dealPricePerShare) && preAnnouncementPrice.value > 0.0
      ensures r.Some? ==> preAnnouncementPrice.value * (1.0 + r.value) == dealPricePerShare.value
    {
      if Truthy(preAnnouncementPrice) && Truthy(dealPricePerShare) && preAnnouncementPrice.value > 0.0 then
        Some((dealPricePerShare.value - preAnnouncementPrice.value) / preAnnouncementPrice.value)
      else None
    }

    function EvRevenue(): (r: Option<real>)
      ensures r == Utils.Ratio(dealValue, targetLtmRevenue)
    {
      if Truthy(targetLtmRevenue) && targetLtmRevenue.value > 0.0 then Some(dealValue / targetLtmRevenue.value) else None
    }

    function EvEbitda(): (r: Option<real>)
      ensures r == Utils.Ratio(dealValue, targetLtmEbitda)
    {
      if Truthy(targetLtmEbitda) && targetLtmEbitda.value > 0.0 then Some(dealValue / targetLtmEbitda.value) else None
    }

    function EvEbit(): (r: Option<real>)
      ensures r == Utils.Ratio(dealValue, targetLtmEbit)
    {
      if Truthy(targetLtmEbit) && targetLtmEbit.value > 0.0 then Some(dealValue / targetLtmEbit.value) else None
    }

    /** P/E from the equity value rather than the deal value. */
    function PeRatio(): (r: Option<real>)
      ensures r == Utils.Ratio(equityValue, targetLtmNetIncome)
    {
      if Truthy(targetLtmNetIncome) && targetLtmNetIncome.value > 0.0 then Some(equityValue / targetLtmNetIncome.value) else None
    }

    /** Years from announcement to the reference date, at 365.25 days a
        year; negative for a deal announced after the reference date. */
    function YearsSince(referenceDate: int): (y: real)
      ensures y * DaysPerYear == (referenceDate - announceDate) as real
      ensures y <= 0.0 <==> announceDate >= referenceDate
    {
      (referenceDate - announceDate) as real / DaysPerYear
    }
  }

  const DaysPerYear: real := 365.25

  /** The reference date: the one given, or today. */
  function ReferenceDate(referenceDate: Option<int>, today: int): int {
    referenceDate.GetOr(today)
  }

  function IsRecent(maxYears: real, reference: int): Transaction -> bool {
    (t: Transaction) => t.YearsSince(reference) <= maxYears
  }

  /** The deals announced at most `maxYears` before the reference date, in
      their original order. */
  function FilterByRecency(ts: seq<Transaction>, maxYears: real, referenceDate: Option<int>, today: int): (r: seq<Transaction>)
    ensures r == Filter(IsRecent(maxYears, ReferenceDate(referenceDate, today)), ts)
    ensures forall i :: 0 <= i < |r| ==>
              r[i] in ts && (ReferenceDate(referenceDate, today) - r[i].announceDate) as real <= maxYears * DaysPerYear
    ensures forall i :: 0 <= i < |ts| ==>
              ((ReferenceDate(referenceDate, today) - ts[i].announceDate) as real <= maxYears * DaysPerYear ==> ts[i] in r)
  {
    var keep := IsRecent(maxYears, ReferenceDate(referenceDate, today));
    FilterMembers(keep, ts);
    forall t: Transaction
      ensures keep(t) <==> (ReferenceDate(referenceDate, today) - t.announceDate) as real <= maxYears * DaysPerYear
    {
      RecencyInDays(t, ReferenceDate(referenceDate, today), maxYears);
    }
    Filter(keep, ts)
  }

  /** The year test is the day test `days <= maxYears * 365.25`. */
  lemma RecencyInDays(t: Transaction, reference: int, maxYears: real)
    ensures t.YearsSince(reference) <= maxYears <==> (reference - t.announceDate) as real <= maxYears * DaysPerYear
  {
    var y := t.YearsSince(reference);
    var d := (reference - t.announceDate) as real;
    assert y * DaysPerYear == d;
    if y <= maxYears {
      ScaleMonotone(DaysPerYear, y, maxYears);
    } else {
      ScaleMonotone(DaysPerYear, maxYears, y);
      assert DaysPerYear * maxYears != DaysPerYear * y;
    }
  }

  /** Narrowing the window after a wider one is the same as the narrow
      window alone: a wider window keeps every deal a narrower one keeps. */
  lemma RecencyWindowsNest(ts: seq<Transaction>, narrow: real, wide: real, referenceDate: Option<int>, today: int)
    requires narrow <= wide
    ensures FilterByRecency(FilterByRecency(ts, wide, referenceDate, today), narrow, referenceDate, today)
            == FilterByRecency(ts, narrow, referenceDate, today)
  {
    var reference := ReferenceDate(referenceDate, today);
    FilterNarrower(IsRecent(narrow, reference), IsRecent(wide, reference), ts);
  }

  function HasDealType(dealType: string): Transaction -> bool {
    (t: Transaction) => t.dealType == dealType
  }

  function HasSector(sector: string): Transaction -> bool {
    (t: Transaction) => t.sector == Some(sector)
  }

  /** The deals of one type, in order. */
  function FilterByDealType(ts: seq<Transaction>, dealType: string): (r: seq<Transaction>)
    ensures forall i :: 0 <= i < |r| ==> r[i] in ts && r[i].dealType == dealType
    ensures forall i :: 0 <= i < |ts| && ts[i].dealType == dealType ==> ts[i] in r
  {
    FilterMembers(HasDealType(dealType), ts);
    Filter(HasDealType(dealType), ts)
  }

  /** The deals in one sector, in order; a deal without a sector is never
      kept. */
  function FilterBySector(ts: seq<Transaction>, sector: string): (r: seq<Transaction>)
    ensures forall i :: 0 <= i < |r| ==> r[i] in ts && r[i].sector == Some(sector)
    ensures forall i :: 0 <= i < |ts| && ts[i].sector == Some(sector) ==> ts[i] in r
  {
    FilterMembers(HasSector(sector), ts);
    Filter(HasSector(sector), ts)
  }

  /** The order in which type and sector filters are applied does not
      matter, and applying either twice changes nothing further. */
  lemma TypeAndSectorFiltersCommute(ts: seq<Transaction>, dealType: string, sector: string)
    ensures FilterBySector(FilterByDealType(ts, dealType), sector) == FilterByDealType(FilterBySector(ts, sector), dealType)
    ensures FilterByDealType(FilterByDealType(ts, dealType), dealType) == FilterByDealType(ts, dealType)
    ensures FilterBySector(FilterBySector(ts, sector), sector) == FilterBySector(ts, sector)
  {
    FilterCommutes(HasSector(sector), HasDealType(dealType), ts);
    FilterIdempotent(HasDealType(dealType), ts);
    FilterIdempotent(HasSector(sector), ts);
  }

  /** A deal is in range unless it falls below a given minimum or above a
      given maximum. */
  predicate InSize(t: Transaction, minValue: Option<real>, maxValue: Option<real>) {
    (minValue.None? || t.dealValue >= minValue.value) && (maxValue.None? || t.dealValue <= maxValue.value)
  }

  function SizeTest(minValue: Option<real>, maxValue: Option<real>): Transaction -> bool {
    (t: Transaction) => InSize(t, minValue, maxValue)
  }

  /** The deals within the value bounds, in their original order, built
      one deal at a time. */
  method FilterBySize(ts: seq<Transaction>, minValue: Option<real>, maxValue: Option<real>) returns (r: seq<Transaction>)
    ensures r == Filter(SizeTest(minValue, maxValue), ts)
    ensures forall i :: 0 <= i < |r| ==> r[i] in ts && InSize(r[i], minValue, maxValue)
    ensures forall i :: 0 <= i < |ts| && InSize(ts[i], minValue, maxValue) ==> ts[i] in r
  {
    var keep := SizeTest(minValue, maxValue);
    r := [];
    for i := 0 to |ts|
      invariant r == Filter(keep, ts[..i])
    {
      FilterAppend(keep, ts[..i], [ts[i]]);
      assert ts[..i + 1] == ts[..i] + [ts[i]];
      if minValue.Some? && ts[i].dealValue < minValue.value {
        continue;
      }
      if maxValue.Some? && ts[i].dealValue > maxValue.value {
        continue;
      }
      r := r + [ts[i]];
    }
    assert ts[..|ts|] == ts;
    FilterMembers(keep, ts);
  }

  /** Crossed bounds keep nothing. */
  lemma {:induction false} CrossedBoundsKeepNothing(ts: seq<Transaction>, minValue: real, maxValue: real)
    requires minValue > maxValue
    ensures Filter(SizeTest(Some(minValue), Some(maxValue)), ts) == []
  {
    if |ts| > 0 {
      assert !InSize(ts[0], Some(minValue), Some(maxValue));
      CrossedBoundsKeepNothing(ts[1..], minValue, maxValue);
    }
  }

  function Premiums(ts: seq<Transaction>): (ps: seq<Option<real>>)
    ensures |ps| == |ts|
    ensures forall i :: 0 <= i < |ts| ==> ps[i] == ts[i].ControlPremium()
  {
    seq(|ts|, i requires 0 <= i < |ts| => ts[i].ControlPremium())
  }

  /** Statistics of the control premiums of the deals that have one. */
  function ControlPremiumStatistics(ts: seq<Transaction>): (st: Utils.Statistics)
    ensures st == Utils.CalculateStatistics(Utils.FilterValid(Premiums(ts)))
    ensures st.count == Utils.CountPresent(Premiums(ts))
    ensures st.count <= |ts|
  {
    Utils.FilterValidCount(Premiums(ts));
    Utils.CalculateStatistics(Utils.FilterValid(Premiums(ts)))
  }

  /** The three transaction multiples tabulated by name. */
  datatype DealMultiple = EvEbitdaMultiple | EvEbitMultiple | EvRevenueMultiple

  function MultipleOf(t: Transaction, kind: DealMultiple): Option<real> {
    match kind
    case EvEbitdaMultiple => t.EvEbitda()
    case EvEbitMultiple => t.EvEbit()
    case EvRevenueMultiple => t.EvRevenue()
  }

  function TargetNames(ts: seq<Transaction>): (ns: seq<string>)
    ensures |ns| == |ts|
    ensures forall i :: 0 <= i < |ts| ==> ns[i] == ts[i].targetName
  {
    seq(|ts|, i requires 0 <= i < |ts| => ts[i].targetName)
  }

  function MultiplesOf(ts: seq<Transaction>, kind: DealMultiple): (ms: seq<Option<real>>)
    ensures |ms| == |ts|
    ensures forall i :: 0 <= i < |ts| ==> ms[i] == MultipleOf(ts[i], kind)
  {
    seq(|ts|, i requires 0 <= i < |ts| => MultipleOf(ts[i], kind))
  }

  function NamePairs(ts: seq<Transaction>, kind: DealMultiple): (ps: seq<(string, Option<real>)>)
    ensures KeysOf(ps) == TargetNames(ts)
    ensures ValuesOf(ps) == MultiplesOf(ts, kind)
  {
    seq(|ts|, i requires 0 <= i < |ts| => (ts[i].targetName, MultipleOf(ts[i], kind)))
  }

  /** `{t.target_name: multiple(t) for t in transactions}` with the
      statistics of its defined values; a later deal on the same target
      replaces an earlier one. */
  function Multiples(ts: seq<Transaction>, kind: DealMultiple): (r: MultiplesResult)
    ensures forall i :: 0 <= i < |ts| ==> ts[i].targetName in r.multiples.keys
    ensures forall n :: n in r.multiples.keys ==> n in TargetNames(ts)
    ensures r.statistics.count == Utils.CountPresent(r.multiples.vals)
  {
    MultiplesTable(NamePairs(ts, kind))
  }

  /** With one deal per target, every deal keeps its own entry and the
      statistics count exactly the deals whose multiple is defined. */
  lemma MultiplesOfDistinctTargets(ts: seq<Transaction>, kind: DealMultiple)
    requires Distinct(TargetNames(ts))
    ensures Multiples(ts, kind).multiples.keys == TargetNames(ts)
    ensures Multiples(ts, kind).multiples.vals == MultiplesOf(ts, kind)
    ensures Multiples(ts, kind).statistics.count == Utils.CountPresent(MultiplesOf(ts, kind))
  {
    MultiplesTableDistinct(NamePairs(ts, kind));
  }

  /** The multiple names `implied_value` accepts. */
  function ParseMultipleType(s: string): (r: Result<DealMultiple>)
    ensures r.Ok? <==> s in ["ev_ebitda", "ev_ebit", "ev_revenue"]
    ensures r.Err? ==> r.error == ValueError
  {
    if s == "ev_ebitda" then Ok(EvEbitdaMultiple)
    else if s == "ev_ebit" then Ok(EvEbitMultiple)
    else if s == "ev_revenue" then Ok(EvRevenueMultiple)
    else Err(ValueError)
  }

  /** `implied_value`'s result: the implied value and range, and the number
      of deals behind it. Without a reference multiple the source omits the
      count; here it is then zero. */
  datatype ImpliedValuation = ImpliedValuation(implied: Option<Implied>, transactionCount: nat)

  /** Implied value of a target from the precedent multiples. An unknown
      multiple name raises; otherwise the valuation is missing exactly when
      no deal has a defined multiple, and it reports how many do. */
  function ImpliedValue(ts: seq<Transaction>, targetMetric: real, multipleType: string, useMedian: bool): (r: Result<ImpliedValuation>)
    ensures r.Err? <==> ParseMultipleType(multipleType).Err?
    ensures r.Err? ==> r.error == ValueError
    ensures r.Ok? ==>
              var table := Multiples(ts, ParseMultipleType(multipleType).value);
              && r.value.implied == ImpliedFrom(table.statistics, targetMetric, useMedian)
              && r.value.transactionCount == Utils.CountPresent(table.multiples.vals)
              && (r.value.implied.None? <==> r.value.transactionCount == 0)
  {
    var kind :- ParseMultipleType(multipleType);
    var table := Multiples(ts, kind);
    StatisticsReference(Utils.FilterValid(table.multiples.vals), useMedian);
    Ok(ImpliedValuation(ImpliedFrom(table.statistics, targetMetric, useMedian), table.statistics.count))
  }

  /** `summary`: the statistics of every multiple and of the premiums, and
      the number of deals. */
  datatype Summary = Summary(evEbitda: MultiplesResult, evEbit: MultiplesResult, evRevenue: MultiplesResult,
                             controlPremium: Utils.Statistics, transactionCount: nat)

  function AnalysisSummary(ts: seq<Transaction>): (s: Summary)
    ensures s.evEbitda == Multiples(ts, EvEbitdaMultiple)
    ensures s.evEbit == Multiples(ts, EvEbitMultiple)
    ensures s.evRevenue == Multiples(ts, EvRevenueMultiple)
    ensures s.controlPremium == ControlPremiumStatistics(ts)
    ensures s.transactionCount == |ts|
    ensures s.controlPremium.count <= s.transactionCount
  {
    Summary(Multiples(ts, EvEbitdaMultiple), Multiples(ts, EvEbitMultiple), Multiples(ts, EvRevenueMultiple),
            ControlPremiumStatistics(ts), |ts|)
  }

  /** A premium is positive exactly when the deal price exceeds the
      undisturbed price. */
  lemma PremiumPositiveIffPriceAbove(t: Transaction)
    requires t.ControlPremium().Some?
    ensures t.ControlPremium().value > 0.0 <==> t.dealPricePerShare.value > t.preAnnouncementPrice.value
  {
    var p := t.preAnnouncementPrice.value;
    var r := t.ControlPremium().value;
    assert p * (1.0 + r) == t.dealPricePerShare.value;
    if r > 0.0 {
      ScaleMonotone(p, 1.0, 1.0 + r);
      assert p * 1.0 != p * (1.0 + r);
    } else {
      ScaleMonotone(p, 1.0 + r, 1.0);
    }
  }
}
