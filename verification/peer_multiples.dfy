/** Peer-group multiples shared by the trading-comparables and
    precedent-transaction analyses: the name-keyed table of one multiple
    across the group with its statistics, and the implied value read off
    those statistics.
 */
module PeerMultiples {
  import opened Wrappers
  import opened Seqs
  import opened Dicts
  import Utils

  /** `{"multiples": ..., "statistics": ...}` for one multiple. */
  datatype MultiplesResult = MultiplesResult(multiples: Dict<string, Option<real>>, statistics: Utils.Statistics)

  /** `{name: multiple for each member}` and the statistics of its
      non-`None` values. The dictionary has one key per distinct name, and
      the statistics count exactly its present values. */
  function MultiplesTable(ps: seq<(string, Option<real>)>): (r: MultiplesResult)
    ensures r.multiples.Valid()
    ensures forall i :: 0 <= i < |ps| ==> ps[i].0 in r.multiples.keys
    ensures forall k :: k in r.multiples.keys ==> k in KeysOf(ps)
    ensures r.statistics == Utils.CalculateStatistics(Utils.FilterValid(r.multiples.vals))
    ensures r.statistics.count == Utils.CountPresent(r.multiples.vals)
  {
    var d := FromPairs(ps);
    Utils.FilterValidCount(d.vals);
    MultiplesResult(d, Utils.CalculateStatistics(Utils.FilterValid(d.vals)))
  }

  /** With distinct names nothing collapses: the dictionary lists every
      member's multiple in order, and the statistics count exactly the
      members whose multiple is defined. */
  lemma MultiplesTableDistinct(ps: seq<(string, Option<real>)>)
    requires Distinct(KeysOf(ps))
    ensures MultiplesTable(ps).multiples.keys == KeysOf(ps)
    ensures MultiplesTable(ps).multiples.vals == ValuesOf(ps)
    ensures MultiplesTable(ps).statistics.count == Utils.CountPresent(ValuesOf(ps))
  {
    FromPairsDistinct(ps);
  }

  /** The multiple the valuation is centred on: the median or the mean. */
  function Reference(st: Utils.Statistics, useMedian: bool): Option<real> {
    if useMedian then st.median else st.mean
  }

  /** Both the mean and the median are missing exactly when there are no
      values. */
  lemma StatisticsReference(values: seq<real>, useMedian: bool)
    ensures Reference(Utils.CalculateStatistics(values), useMedian).None? <==> |values| == 0
  {
  }

  /** `target * multiple` when the percentile multiple is truthy. */
  function Scaled(target: real, multiple: Option<real>): (r: Option<real>)
    ensures r.Some? <==> Truthy(multiple)
    ensures r.Some? ==> r.value == target * multiple.value
  {
    if Truthy(multiple) then Some(target * multiple.value) else None
  }

  /** An implied value with its percentile range and the multiple used. */
  datatype Implied = Implied(value: real, low: Option<real>, high: Option<real>, multipleUsed: real)

  /** The implied value read off one set of statistics: the reference
      multiple times the target metric, with a 25th-75th percentile range.
      No reference multiple gives no value. */
  function ImpliedFrom(st: Utils.Statistics, targetMetric: real, useMedian: bool): (v: Option<Implied>)
    ensures v.None? <==> Reference(st, useMedian).None?
    ensures v.Some? ==>
              && v.value.multipleUsed == Reference(st, useMedian).value
              && v.value.value == targetMetric * Reference(st, useMedian).value
              && v.value.low == Scaled(targetMetric, st.p25)
              && v.value.high == Scaled(targetMetric, st.p75)
  {
    if Reference(st, useMedian).None? then None
    else
      Some(Implied(targetMetric * Reference(st, useMedian).value, Scaled(targetMetric, st.p25),
                   Scaled(targetMetric, st.p75), Reference(st, useMedian).value))
  }

  /** For a non-negative target, the median-based value lies inside the
      percentile range whenever one is reported, because the statistics
      order their percentiles. */
  lemma ImpliedWithinRange(values: seq<real>, targetMetric: real)
    requires targetMetric >= 0.0
    ensures var v := ImpliedFrom(Utils.CalculateStatistics(values), targetMetric, true);
            v.Some? && v.value.low.Some? && v.value.high.Some? ==>
              v.value.low.value <= v.value.value <= v.value.high.value
  {
    var st := Utils.CalculateStatistics(values);
    if |values| > 0 {
      assert st.p25.value <= st.median.value <= st.p75.value;
      OrderedRange(st, targetMetric);
    }
  }

  lemma OrderedRange(st: Utils.Statistics, targetMetric: real)
    requires targetMetric >= 0.0
    requires st.p25.Some? && st.median.Some? && st.p75.Some?
    requires st.p25.value <= st.median.value <= st.p75.value
    ensures var v := ImpliedFrom(st, targetMetric, true);
            v.Some? && v.value.low.Some? && v.value.high.Some? ==>
              v.value.low.value <= v.value.value <= v.value.high.value
  {
    ScaleMonotone(targetMetric, st.p25.value, st.median.value);
    ScaleMonotone(targetMetric, st.median.value, st.p75.value);
    var v := ImpliedFrom(st, targetMetric, true);
    assert v.value.value == targetMetric * st.median.value;
  }

  lemma ScaleMonotone(t: real, a: real, b: real)
    requires t >= 0.0 && a <= b
    ensures t * a <= t * b
  {
    MulNonNegative(t, b - a);
  }
}
