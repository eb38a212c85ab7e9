/** Sum-of-the-parts valuation: each business segment valued on its own,
    the segment values summed, capitalised corporate overhead subtracted, a
    conglomerate discount applied, and net debt bridged to equity.
 */
module Sotp {
  import opened Wrappers
  import opened Seqs
  import opened Dicts
  import Utils

  /** The methodology a segment is valued with. */
  datatype ValuationMethod = EvEbitda | EvEbit | EvRevenue | Pe | PriceToBook | Dcf | Ddm

  /** The enum's string value. */
  function MethodName(m: ValuationMethod): string {
    match m
    case EvEbitda => "ev_ebitda"
    case EvEbit => "ev_ebit"
    case EvRevenue => "ev_revenue"
    case Pe => "pe"
    case PriceToBook => "price_to_book"
    case Dcf => "dcf"
    case Ddm => "ddm"
  }

  /** `ValuationMethod(s)`: the member whose value is `s`, else a
      `ValueError`. */
  function ParseMethod(s: string): (r: Result<ValuationMethod>)
    ensures r.Ok? ==> MethodName(r.value) == s
    ensures r.Err? ==> r.error == ValueError && forall m :: MethodName(m) != s
  {
    if s == "ev_ebitda" then Ok(EvEbitda)
    else if s == "ev_ebit" then Ok(EvEbit)
    else if s == "ev_revenue" then Ok(EvRevenue)
    else if s == "pe" then Ok(Pe)
    else if s == "price_to_book" then Ok(PriceToBook)
    else if s == "dcf" then Ok(Dcf)
    else if s == "ddm" then Ok(Ddm)
    else Err(ValueError)
  }

  /** Every method parses back from its own value. */
  lemma ParseMethodName(m: ValuationMethod)
    ensures ParseMethod(MethodName(m)) == Ok(m)
  {
    match m
    case EvEbitda =>
    case EvEbit =>
    case EvRevenue =>
    case Pe =>
    case PriceToBook =>
    case Dcf =>
    case Ddm =>
  }

  datatype Segment = Segment(name: string, valuationMethod: ValuationMethod, metricValue: real, multiple: real,
                             segmentValue: Option<real>, description: string)
  {
    /** A pre-calculated value (from a DCF, say) wins; otherwise metric
        times multiple. */
    function CalculatedValue(): (v: real)
      ensures segmentValue.Some? ==> v == segmentValue.value
      ensures segmentValue.None? && (metricValue == 0.0 || multiple == 0.0) ==> v == 0.0
      ensures segmentValue.None? && metricValue != 0.0 ==> v / metricValue == multiple
    {
      if segmentValue.Some? then segmentValue.value else metricValue * multiple
    }
  }

  datatype SotpResult = SotpResult(
    segmentValues: Dict<string, real>,
    grossEnterpriseValue: real,
    corporateOverheadValue: real,
    enterpriseValuePreDiscount: real,
    conglomerateDiscount: real,
    discountAmount: real,
    netEnterpriseValue: real,
    equityValue: real,
    equityValuePerShare: Option<real>)

  /** The (name, value) pairs the segment dictionary is built from. */
  function Pairs(segments: seq<Segment>): (ps: seq<(string, real)>)
    ensures |ps| == |segments|
    ensures forall i :: 0 <= i < |segments| ==>
              ps[i] == (segments[i].name, segments[i].CalculatedValue())
  {
    seq(|segments|, i requires 0 <= i < |segments| => (segments[i].name, segments[i].CalculatedValue()))
  }

  function Names(segments: seq<Segment>): (ns: seq<string>)
    ensures |ns| == |segments|
    ensures forall i :: 0 <= i < |segments| ==> ns[i] == segments[i].name
  {
    seq(|segments|, i requires 0 <= i < |segments| => segments[i].name)
  }

  function Value(s: Segment): real {
    s.CalculatedValue()
  }

  /** The valuation once the segment values are known: gross value is the
      sum of the segment dictionary, capitalised overhead comes off it, the
      discount is a fraction of what is left, and net debt bridges to
      equity. A per-share value exists exactly when a positive share count
      is given. */
  function Valuation(segmentValues: Dict<string, real>, overheadValue: real, discount: real, netDebt: real,
                     shares: Option<real>): (r: SotpResult)
    ensures r.segmentValues == segmentValues
    ensures r.grossEnterpriseValue == Total(segmentValues)
    ensures r.corporateOverheadValue == overheadValue
    ensures r.enterpriseValuePreDiscount + overheadValue == r.grossEnterpriseValue
    ensures r.conglomerateDiscount == discount
    ensures r.discountAmount == r.enterpriseValuePreDiscount * discount
    ensures r.discountAmount + r.netEnterpriseValue == r.enterpriseValuePreDiscount
    ensures r.equityValue + netDebt == r.netEnterpriseValue
    ensures r.equityValuePerShare.Some? <==> shares.Some? && shares.value > 0.0
    ensures r.equityValuePerShare.Some? ==> r.equityValuePerShare.value * shares.value == r.equityValue
  {
    var gross := Total(segmentValues);
    var evPre := gross - overheadValue;
    var discountAmount := evPre * discount;
    var net := evPre - discountAmount;
    var equity := net - netDebt;
    SotpResult(segmentValues, gross, overheadValue, evPre, discount, discountAmount, net, equity,
               Utils.Ratio(equity, shares))
  }

  datatype SotpModel = SotpModel(
    segments: seq<Segment>,
    corporateOverhead: real,
    overheadMultiple: real,
    conglomerateDiscount: real,
    netDebt: real,
    sharesOutstanding: Option<real>)
  {
    /** Annual overhead capitalised at the overhead multiple. */
    function CorporateOverheadValue(): (v: real)
      ensures corporateOverhead == 0.0 || overheadMultiple == 0.0 ==> v == 0.0
      ensures corporateOverhead != 0.0 ==> v / corporateOverhead == overheadMultiple
    {
      corporateOverhead * overheadMultiple
    }

    /** `{s.name: s.calculated_value for s in segments}`. */
    function SegmentValues(): (d: Dict<string, real>)
      ensures d.Valid()
      ensures forall i :: 0 <= i < |segments| ==> segments[i].name in d.keys
      ensures forall k :: k in d.keys ==> k in Names(segments)
    {
      var d := FromPairs(Pairs(segments));
      assert KeysOf(Pairs(segments)) == Names(segments);
      d
    }

    /** The valuation of the model's own segments, overhead, discount, net
        debt and share count. */
    function Calculate(): (r: SotpResult)
      ensures r.segmentValues == SegmentValues()
      ensures r.corporateOverheadValue == CorporateOverheadValue()
      ensures r.conglomerateDiscount == conglomerateDiscount
      ensures r == Valuation(SegmentValues(), CorporateOverheadValue(), conglomerateDiscount, netDebt,
                             sharesOutstanding)
    {
      Valuation(SegmentValues(), CorporateOverheadValue(), conglomerateDiscount, netDebt, sharesOutstanding)
    }

    /** Equity value with the conglomerate discount replaced by `d`. */
    function EquityAt(d: real): real {
      this.(conglomerateDiscount := d).Calculate().equityValue
    }

    /** `{d: equity at d for d in discounts}`, the model's own discount
        untouched. */
    function SensitivityToDiscount(discounts: seq<real>): (r: Dict<real, real>)
      ensures r.Valid()
      ensures forall d :: d in r.keys ==> d in discounts
      ensures forall d :: d in discounts ==> d in r.keys
      ensures forall d {:trigger r.Get(d)} :: d in discounts ==>
                d in r.keys && r.Get(d) == this.(conglomerateDiscount := d).Calculate().equityValue
    {
      Tabulate(discounts, (d: real) => EquityAt(d))
    }

    /** Each segment's share of gross value: all zeros, keyed by every
        segment name, when gross value is zero; otherwise the segment
        dictionary with every value divided by the gross. */
    function SegmentContribution(): (r: Dict<string, real>)
      ensures r.Valid()
      ensures Total(SegmentValues()) == 0.0 ==>
                (forall k :: k in r.keys ==> k in Names(segments)) &&
                (forall i :: 0 <= i < |segments| ==> segments[i].name in r.keys) &&
                (forall k {:trigger r.Get(k)} :: k in Names(segments) ==> k in r.keys && r.Get(k) == 0.0)
      ensures Total(SegmentValues()) != 0.0 ==>
                DividedBy(r, SegmentValues(), Total(SegmentValues())) && Total(r) == 1.0
    {
      var values := SegmentValues();
      var total := Total(values);
      if total == 0.0 then
        Tabulate(Names(segments), (_: string) => 0.0)
      else
        assert Total(DivideValues(values, total)) == 1.0 by {
          DivideValuesTotal(values, total);
        }
        DivideValues(values, total)
    }
  }

  /** A model with the source's defaults: no overhead, an 8x overhead
      multiple, a 15% discount, no net debt and no share count. */
  function DefaultModel(segments: seq<Segment>): (m: SotpModel)
    ensures m.segments == segments && m.sharesOutstanding == None
    ensures m.CorporateOverheadValue() == 0.0 && m.netDebt == 0.0
    ensures m.conglomerateDiscount == 0.15 && m.overheadMultiple == 8.0
  {
    SotpModel(segments, 0.0, 8.0, 0.15, 0.0, None)
  }

  /** The conglomerate discount does not move the pre-discount enterprise
      value. */
  lemma DiscountKeepsPreDiscountValue(m: SotpModel, d: real)
    ensures m.(conglomerateDiscount := d).Calculate().enterpriseValuePreDiscount
            == m.Calculate().enterpriseValuePreDiscount
  {
  }

  /** With a positive pre-discount value, a larger discount gives a
      strictly smaller equity value. */
  lemma EquityDecreasesWithDiscount(m: SotpModel, d1: real, d2: real)
    requires m.Calculate().enterpriseValuePreDiscount > 0.0
    requires d1 < d2
    ensures m.EquityAt(d2) < m.EquityAt(d1)
  {
    var ev := m.Calculate().enterpriseValuePreDiscount;
    DiscountKeepsPreDiscountValue(m, d1);
    DiscountKeepsPreDiscountValue(m, d2);
    assert ev * (1.0 - d2) < ev * (1.0 - d1);
  }

  /** Across a sensitivity table on a positive pre-discount value, equity
      falls as the discount rises. */
  lemma SensitivityOrdered(m: SotpModel, discounts: seq<real>, d1: real, d2: real)
    requires m.Calculate().enterpriseValuePreDiscount > 0.0
    requires d1 in discounts && d2 in discounts && d1 < d2
    ensures var r := m.SensitivityToDiscount(discounts);
            d1 in r.keys && d2 in r.keys && r.Get(d2) < r.Get(d1)
  {
    EquityDecreasesWithDiscount(m, d1, d2);
  }

  /** With distinct segment names and a non-zero sum of segment values,
      the contributions follow the segments in order, each one times the
      sum giving back that segment's own value, and they sum to one. */
  lemma ContributionOfSegments(m: SotpModel)
    requires Distinct(Names(m.segments)) && SumOf(Value, m.segments) != 0.0
    ensures var c := m.SegmentContribution();
            && c.keys == Names(m.segments)
            && forall i :: 0 <= i < |m.segments| ==>
                 c.vals[i] * SumOf(Value, m.segments) == m.segments[i].CalculatedValue()
    ensures Total(m.SegmentContribution()) == 1.0
  {
    GrossIsSumOfSegments(m);
    var d := m.SegmentValues();
    var c := m.SegmentContribution();
    assert DividedBy(c, d, Total(d));
  }

  /** With distinct segment names the gross value is the plain sum of the
      segment values, and each name holds its own segment's value. */
  lemma GrossIsSumOfSegments(m: SotpModel)
    requires Distinct(Names(m.segments))
    ensures m.Calculate().grossEnterpriseValue == SumOf(Value, m.segments)
    ensures m.SegmentValues().keys == Names(m.segments)
    ensures forall i :: 0 <= i < |m.segments| ==>
              m.SegmentValues().vals[i] == m.segments[i].CalculatedValue()
  {
    var ps := Pairs(m.segments);
    assert KeysOf(ps) == Names(m.segments);
    FromPairsDistinct(ps);
    SumOfValues(m.segments);
  }

  lemma {:induction false} SumOfValues(segments: seq<Segment>)
    ensures Sum(ValuesOf(Pairs(segments))) == SumOf(Value, segments)
  {
    if |segments| > 0 {
      SumOfValues(segments[1..]);
      assert ValuesOf(Pairs(segments))[1..] == ValuesOf(Pairs(segments[1..]));
    }
  }

  // ---------------------------------------------------------------------
  // Building a model from dictionaries
  // ---------------------------------------------------------------------

  /** One segment's dictionary; an absent key is `None`. */
  datatype SegmentData = SegmentData(name: Option<string>, valuationMethod: Option<string>, metricValue: Option<real>,
                                     multiple: Option<real>, segmentValue: Option<real>,
                                     description: Option<string>)

  /** One entry: the method string is parsed first (default `ev_ebitda`),
      so an unknown method is a `ValueError` even when the name is missing;
      a missing name is a `KeyError`; the numbers default to 0.0 and the
      description to the empty string. */
  function ParseSegment(data: SegmentData): (r: Result<Segment>)
    ensures data.valuationMethod.Some? && ParseMethod(data.valuationMethod.value).Err? ==> r == Err(ValueError)
    ensures ParseMethod(data.valuationMethod.GetOr("ev_ebitda")).Ok? && data.name.None? ==> r == Err(KeyError)
    ensures r.Ok? <==> ParseMethod(data.valuationMethod.GetOr("ev_ebitda")).Ok? && data.name.Some?
    ensures r.Ok? ==> MethodName(r.value.valuationMethod) == data.valuationMethod.GetOr("ev_ebitda")
    ensures r.Ok? ==> r.value.name == data.name.value && r.value.segmentValue == data.segmentValue
    ensures r.Ok? && data.metricValue.None? ==> r.value.metricValue == 0.0
    ensures r.Ok? && data.multiple.None? ==> r.value.multiple == 0.0
    ensures r.Ok? && data.segmentValue.None? && (data.metricValue.None? || data.multiple.None?) ==>
              r.value.CalculatedValue() == 0.0
  {
    var valuationMethod :- ParseMethod(data.valuationMethod.GetOr("ev_ebitda"));
    if data.name.None? then Err(KeyError)
    else
      Ok(Segment(data.name.value, valuationMethod, data.metricValue.GetOr(0.0), data.multiple.GetOr(0.0),
                 data.segmentValue, data.description.GetOr("")))
  }

  /** The dictionary that describes a segment completely. */
  function AsData(s: Segment): SegmentData {
    SegmentData(Some(s.name), Some(MethodName(s.valuationMethod)), Some(s.metricValue), Some(s.multiple),
                s.segmentValue, Some(s.description))
  }

  /** Describing a segment and parsing it back gives the segment. */
  lemma ParseAsData(s: Segment)
    ensures ParseSegment(AsData(s)) == Ok(s)
  {
    ParseMethodName(s.valuationMethod);
  }

  /** The segments in order, or the error of the first entry that fails. */
  function ParseSegments(data: seq<SegmentData>): (r: Result<seq<Segment>>)
    ensures r.Ok? <==> forall i :: 0 <= i < |data| ==> ParseSegment(data[i]).Ok?
    ensures r.Ok? ==> (|r.value| == |data| &&
                       forall i :: 0 <= i < |data| ==> ParseSegment(data[i]) == Ok(r.value[i]))
    ensures r.Err? ==> exists i :: 0 <= i < |data| && ParseSegment(data[i]) == Err(r.error) &&
                                   forall j :: 0 <= j < i ==> ParseSegment(data[j]).Ok?
  {
    if |data| == 0 then Ok([])
    else
      var first :- ParseSegment(data[0]);
      var rest := ParseSegments(data[1..]);
      if rest.Err? then
        ghost var i :| 0 <= i < |data[1..]| && ParseSegment(data[1..][i]) == Err(rest.error) &&
                       forall j :: 0 <= j < i ==> ParseSegment(data[1..][j]).Ok?;
        assert ParseSegment(data[i + 1]) == Err(rest.error);
        assert forall j :: 0 <= j < i + 1 ==> ParseSegment(data[j]).Ok? by {
          forall j | 0 <= j < i + 1
            ensures ParseSegment(data[j]).Ok?
          {
            if j > 0 {
              assert data[j] == data[1..][j - 1];
            }
          }
        }
        Err(rest.error)
      else
        Ok([first] + rest.value)
  }

  /** `SOTPModel.from_dict`: the parsed segments with the given settings. */
  function FromDict(segmentData: seq<SegmentData>, corporateOverhead: real, overheadMultiple: real,
                    conglomerateDiscount: real, netDebt: real, sharesOutstanding: Option<real>)
    : (r: Result<SotpModel>)
    ensures r.Ok? <==> ParseSegments(segmentData).Ok?
    ensures r.Err? ==> r.error == ParseSegments(segmentData).error
    ensures r.Ok? ==> (r.value.segments == ParseSegments(segmentData).value &&
                       r.value.corporateOverhead == corporateOverhead &&
                       r.value.overheadMultiple == overheadMultiple &&
                       r.value.conglomerateDiscount == conglomerateDiscount &&
                       r.value.netDebt == netDebt && r.value.sharesOutstanding == sharesOutstanding)
  {
    var segments :- ParseSegments(segmentData);
    Ok(SotpModel(segments, corporateOverhead, overheadMultiple, conglomerateDiscount, netDebt,
                 sharesOutstanding))
  }

  function DescribeAll(segments: seq<Segment>): (ds: seq<SegmentData>)
    ensures |ds| == |segments|
    ensures forall i :: 0 <= i < |segments| ==> ds[i] == AsData(segments[i])
  {
    seq(|segments|, i requires 0 <= i < |segments| => AsData(segments[i]))
  }

  /** A model rebuilt from the descriptions of its segments is the model. */
  lemma FromDictRoundTrip(m: SotpModel)
    ensures FromDict(DescribeAll(m.segments), m.corporateOverhead, m.overheadMultiple,
                     m.conglomerateDiscount, m.netDebt, m.sharesOutstanding) == Ok(m)
  {
    var ds := DescribeAll(m.segments);
    forall i | 0 <= i < |ds|
      ensures ParseSegment(ds[i]) == Ok(m.segments[i])
    {
      ParseAsData(m.segments[i]);
    }
    var r := ParseSegments(ds);
    assert r.value == m.segments;
  }
}
