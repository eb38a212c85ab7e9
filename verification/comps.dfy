/** Trading comparables: each peer's last-twelve-months figures (given, or
    calendarised from fiscal-year and year-to-date figures), its market
    capitalisation and enterprise value, its valuation multiples, and the
    peer-group statistics and implied value built on them.
 */
module Comps {
  import opened Wrappers
  import opened Seqs
  import opened Dicts
  import Utils
  import opened PeerMultiples

  /** One line of a peer's income statement: fiscal-year, current and prior
      year-to-date figures, and an optional pre-calculated LTM figure. */
  datatype Metric = Metric(fy: Option<real>, ytd: Option<real>, priorYtd: Option<real>, ltm: Option<real>)
  {
    /** The LTM figure: the pre-calculated one when given, otherwise the
        calendarised one. */
    function Ltm(): (r: Option<real>)
      ensures ltm.Some? ==> r == ltm
      ensures ltm.None? ==> r == CalcLtm(fy, ytd, priorYtd)
    {
      if ltm.Some? then ltm else CalcLtm(fy, ytd, priorYtd)
    }
  }

  /** `fy + ytd - prior_ytd` when all three are present, else `None`. */
  function CalcLtm(fy: Option<real>, ytd: Option<real>, priorYtd: Option<real>): (r: Option<real>)
    ensures r.Some? <==> fy.Some? && ytd.Some? && priorYtd.Some?
    ensures r.Some? ==> r.value == Utils.LtmCalculation(fy.value, ytd.value, priorYtd.value)
  {
    if fy.Some? && ytd.Some? && priorYtd.Some? then Some(fy.value + ytd.value - priorYtd.value) else None
  }

  datatype PeerCompany = PeerCompany(
    ticker: string,
    name: string,
    price: real,
    sharesOutstanding: real,
    netDebt: real,
    revenue: Metric,
    ebitda: Metric,
    ebit: Metric,
    netIncome: Metric,
    bookValue: Option<real>,
    ntmRevenue: Option<real>,
    ntmEbitda: Option<real>,
    ntmEps: Option<real>)
  {
    /** Share price times shares outstanding: with shares outstanding, the
        value of one share is the price. */
    function MarketCap(): (m: real)
      ensures sharesOutstanding != 0.0 ==> m / sharesOutstanding == price
    {
      price * sharesOutstanding
    }

    /** Market capitalisation plus net debt. */
    function EnterpriseValue(): (ev: real)
      ensures ev - netDebt == MarketCap()
    {
      MarketCap() + netDebt
    }

    /** LTM net income per share, when net income is known and the share
        count is positive. */
    function LtmEps(): (r: Option<real>)
      ensures r.Some? <==> netIncome.Ltm().Some? && sharesOutstanding > 0.0
      ensures r.Some? ==> r.value * sharesOutstanding == netIncome.Ltm().value
    {
      var ni := netIncome.Ltm();
      if ni.Some? && sharesOutstanding > 0.0 then Some(ni.value / sharesOutstanding) else None
    }

    /** EV / EBITDA; the NTM figure is used when asked for and truthy. */
    function EvEbitda(useNtm: bool): (r: Option<real>)
      ensures r == Utils.Ratio(EnterpriseValue(), Pick(useNtm, ntmEbitda, ebitda.Ltm()))
    {
      var e := if useNtm && Truthy(ntmEbitda) then ntmEbitda else ebitda.Ltm();
      if Truthy(e) && e.value > 0.0 then Some(EnterpriseValue() / e.value) else None
    }

    function EvEbit(): (r: Option<real>)
      ensures r == Utils.Ratio(EnterpriseValue(), ebit.Ltm())
    {
      var e := ebit.Ltm();
      if Truthy(e) && e.value > 0.0 then Some(EnterpriseValue() / e.value) else None
    }

    function EvRevenue(useNtm: bool): (r: Option<real>)
      ensures r == Utils.Ratio(EnterpriseValue(), Pick(useNtm, ntmRevenue, revenue.Ltm()))
    {
      var rev := if useNtm && Truthy(ntmRevenue) then ntmRevenue else revenue.Ltm();
      if Truthy(rev) && rev.value > 0.0 then Some(EnterpriseValue() / rev.value) else None
    }

    function PeRatio(useNtm: bool): (r: Option<real>)
      ensures r == Utils.Ratio(price, Pick(useNtm, ntmEps, LtmEps()))
    {
      var eps := if useNtm && Truthy(ntmEps) then ntmEps else LtmEps();
      if Truthy(eps) && eps.value > 0.0 then Some(price / eps.value) else None
    }

    function PriceToBook(): (r: Option<real>)
      ensures r == Utils.Ratio(MarketCap(), bookValue)
    {
      if Truthy(bookValue) && bookValue.value > 0.0 then Some(MarketCap() / bookValue.value) else None
    }
  }

  /** The forward figure when asked for and truthy, else the trailing one. */
  function Pick(useNtm: bool, ntm: Option<real>, ltm: Option<real>): (r: Option<real>)
    ensures useNtm && Truthy(ntm) ==> r == ntm
    ensures !(useNtm && Truthy(ntm)) ==> r == ltm
  {
    if useNtm && Truthy(ntm) then ntm else ltm
  }

  /** A forward figure that is missing or zero leaves the trailing multiple
      in place; a truthy one replaces it. */
  lemma NtmFallsBack(p: PeerCompany)
    ensures !Truthy(p.ntmEbitda) ==> p.EvEbitda(true) == p.EvEbitda(false)
    ensures !Truthy(p.ntmRevenue) ==> p.EvRevenue(true) == p.EvRevenue(false)
    ensures !Truthy(p.ntmEps) ==> p.PeRatio(true) == p.PeRatio(false)
    ensures Truthy(p.ntmEbitda) ==> p.EvEbitda(true) == Utils.Ratio(p.EnterpriseValue(), p.ntmEbitda)
  {
  }

  /** A pre-calculated LTM figure overrides the fiscal-year arithmetic,
      whatever the other figures are. */
  lemma LtmOverride(m: Metric, v: real)
    ensures m.(ltm := Some(v)).Ltm() == Some(v)
  {
  }

  /** The multiples the peer-group analysis computes. */
  datatype MultipleKind = EvEbitdaKind | EvEbitKind | EvRevenueKind | PeKind | PriceToBookKind

  /** One peer's multiple of the given kind; EV/EBIT and P/BV have no
      forward variant. */
  function MultipleOf(p: PeerCompany, kind: MultipleKind, useNtm: bool): Option<real> {
    match kind
    case EvEbitdaKind => p.EvEbitda(useNtm)
    case EvEbitKind => p.EvEbit()
    case EvRevenueKind => p.EvRevenue(useNtm)
    case PeKind => p.PeRatio(useNtm)
    case PriceToBookKind => p.PriceToBook()
  }

  function TickerPairs(peers: seq<PeerCompany>, kind: MultipleKind, useNtm: bool): (ps: seq<(string, Option<real>)>)
    ensures KeysOf(ps) == Tickers(peers)
    ensures ValuesOf(ps) == MultiplesOf(peers, kind, useNtm)
  {
    seq(|peers|, i requires 0 <= i < |peers| => (peers[i].ticker, MultipleOf(peers[i], kind, useNtm)))
  }

  function Tickers(peers: seq<PeerCompany>): (ts: seq<string>)
    ensures |ts| == |peers|
    ensures forall i :: 0 <= i < |peers| ==> ts[i] == peers[i].ticker
  {
    seq(|peers|, i requires 0 <= i < |peers| => peers[i].ticker)
  }

  function MultiplesOf(peers: seq<PeerCompany>, kind: MultipleKind, useNtm: bool): (ms: seq<Option<real>>)
    ensures |ms| == |peers|
    ensures forall i :: 0 <= i < |peers| ==> ms[i] == MultipleOf(peers[i], kind, useNtm)
  {
    seq(|peers|, i requires 0 <= i < |peers| => MultipleOf(peers[i], kind, useNtm))
  }

  /** `{p.ticker: multiple(p) for p in peers}` with the statistics of its
      defined values. This module's statistics dictionary has no count; the
      `count` field of `Utils.Statistics` is not part of its result. */
  function Multiples(peers: seq<PeerCompany>, kind: MultipleKind, useNtm: bool): (r: MultiplesResult)
    ensures forall i :: 0 <= i < |peers| ==> peers[i].ticker in r.multiples.keys
    ensures forall t :: t in r.multiples.keys ==> t in Tickers(peers)
    ensures r.statistics.count == Utils.CountPresent(r.multiples.vals)
  {
    MultiplesTable(TickerPairs(peers, kind, useNtm))
  }

  /** With distinct tickers every peer keeps its own entry, in peer order,
      and the statistics see exactly the peers whose multiple is defined. */
  lemma MultiplesOfDistinctPeers(peers: seq<PeerCompany>, kind: MultipleKind, useNtm: bool)
    requires Distinct(Tickers(peers))
    ensures Multiples(peers, kind, useNtm).multiples.keys == Tickers(peers)
    ensures Multiples(peers, kind, useNtm).multiples.vals == MultiplesOf(peers, kind, useNtm)
    ensures Multiples(peers, kind, useNtm).statistics.count == Utils.CountPresent(MultiplesOf(peers, kind, useNtm))
  {
    MultiplesTableDistinct(TickerPairs(peers, kind, useNtm));
  }

  /** The multiple names `implied_value` accepts; price-to-book is not one
      of them. */
  function ParseMultipleType(s: string): (r: Result<MultipleKind>)
    ensures r.Ok? <==> s in ["ev_ebitda", "ev_ebit", "ev_revenue", "pe"]
    ensures r.Err? ==> r.error == ValueError
    ensures r.Ok? ==> r.value != PriceToBookKind
  {
    if s == "ev_ebitda" then Ok(EvEbitdaKind)
    else if s == "ev_ebit" then Ok(EvEbitKind)
    else if s == "ev_revenue" then Ok(EvRevenueKind)
    else if s == "pe" then Ok(PeKind)
    else Err(ValueError)
  }

  /** `implied_value`'s result: the implied value and range, and the
      percentile multiples behind the range. Without a reference multiple
      the source reports only three `None`s; here the percentiles are then
      `None` as well. */
  datatype ImpliedValuation = ImpliedValuation(implied: Option<Implied>, p25Multiple: Option<real>, p75Multiple: Option<real>)

  /** Implied value of a target from the peer group. An unknown multiple
      name raises; otherwise the valuation comes from the statistics of the
      peers' multiples of that kind, and is missing exactly when no peer
      has a defined multiple. */
  function ImpliedValue(peers: seq<PeerCompany>, targetMetric: real, multipleType: string,
                        useMedian: bool, useNtm: bool): (r: Result<ImpliedValuation>)
    ensures r.Err? <==> ParseMultipleType(multipleType).Err?
    ensures r.Err? ==> r.error == ValueError
    ensures r.Ok? ==>
              var st := Multiples(peers, ParseMultipleType(multipleType).value, useNtm).statistics;
              && r.value.implied == ImpliedFrom(st, targetMetric, useMedian)
              && (r.value.implied.None? <==> st.count == 0)
              && r.value.p25Multiple == st.p25 && r.value.p75Multiple == st.p75
  {
    var kind :- ParseMultipleType(multipleType);
    var table := Multiples(peers, kind, useNtm);
    StatisticsReference(Utils.FilterValid(table.multiples.vals), useMedian);
    Ok(ImpliedValuation(ImpliedFrom(table.statistics, targetMetric, useMedian),
                        table.statistics.p25, table.statistics.p75))
  }

  /** `summary`: every multiple's dictionary and statistics. */
  datatype Summary = Summary(evEbitda: MultiplesResult, evEbit: MultiplesResult, evRevenue: MultiplesResult,
                             pe: MultiplesResult, priceToBook: MultiplesResult)

  function PeerSummary(peers: seq<PeerCompany>, useNtm: bool): (s: Summary)
    ensures s.evEbitda == Multiples(peers, EvEbitdaKind, useNtm)
    ensures s.evEbit == Multiples(peers, EvEbitKind, useNtm)
    ensures s.evRevenue == Multiples(peers, EvRevenueKind, useNtm)
    ensures s.pe == Multiples(peers, PeKind, useNtm)
    ensures s.priceToBook == Multiples(peers, PriceToBookKind, useNtm)
  {
    Summary(Multiples(peers, EvEbitdaKind, useNtm), Multiples(peers, EvEbitKind, useNtm),
            Multiples(peers, EvRevenueKind, useNtm), Multiples(peers, PeKind, useNtm),
            Multiples(peers, PriceToBookKind, useNtm))
  }
}
