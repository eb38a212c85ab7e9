/** Two-variable sensitivity tables (with the DCF and LBO tables built on
    them) and the football-field summary of valuation ranges.

    A cell whose calculation raised holds NaN. Python compares NaN as
    neither smaller nor larger than anything, so `min` and `max`, which keep
    the first element and replace it only by a strictly better one, return
    NaN when the first element is NaN and otherwise skip NaNs.
 */
module Sensitivity {
  import opened Wrappers
  import opened Seqs
  import Dcf
  import LboDeal
  import LboSchedule

  datatype Cell = Num(value: real) | NaN

  /** The cell for a calculation: its value, or NaN when it raised. */
  function CellOf(r: Result<real>): (c: Cell)
    ensures c.Num? <==> r.Ok?
    ensures c.Num? ==> c.value == r.value
  {
    if r.Ok? then Num(r.value) else NaN
  }

  /** Python's `a < b` (when `lowest`) or `a > b` on cells: false whenever
      either side is NaN. */
  predicate Beats(a: Cell, b: Cell, lowest: bool) {
    a.Num? && b.Num? && (if lowest then a.value < b.value else a.value > b.value)
  }

  /** Python's `min` (when `lowest`) or `max` of a non-empty list of cells. */
  function Extreme(s: seq<Cell>, lowest: bool): (r: Cell)
    requires |s| > 0
    ensures r in s
    ensures s[0].NaN? ==> r.NaN?
    ensures (forall i :: 0 <= i < |s| ==> s[i].Num?) ==>
              r.Num? && forall i :: 0 <= i < |s| ==> (if lowest then r.value <= s[i].value else s[i].value <= r.value)
    ensures s[0].Num? ==>
              r.Num? && forall i :: 0 <= i < |s| && s[i].Num? ==>
                          (if lowest then r.value <= s[i].value else s[i].value <= r.value)
  {
    if |s| == 1 then s[0]
    else
      var prefix := s[..|s| - 1];
      var m := Extreme(prefix, lowest);
      assert forall i :: 0 <= i < |s| - 1 ==> prefix[i] == s[i];
      if Beats(s[|s| - 1], m, lowest) then s[|s| - 1] else m
  }

  /** The table's rows of results: `|rows|` rows of `|cols|` cells, cell
      `(i, j)` being the calculation at `rows[i]`, `cols[j]`. */
  function Grid(calculate: (real, real) -> Result<real>, rows: seq<real>, cols: seq<real>): (g: seq<seq<Cell>>)
    ensures |g| == |rows|
    ensures forall i :: 0 <= i < |rows| ==> |g[i]| == |cols|
    ensures forall i, j :: 0 <= i < |rows| && 0 <= j < |cols| ==> g[i][j] == CellOf(calculate(rows[i], cols[j]))
  {
    seq(|rows|, i requires 0 <= i < |rows| =>
      seq(|cols|, j requires 0 <= j < |cols| => CellOf(calculate(rows[i], cols[j]))))
  }

  datatype SensitivityTable = SensitivityTable(
    rowVariable: string,
    colVariable: string,
    rowValues: seq<real>,
    colValues: seq<real>,
    results: seq<seq<Cell>>,
    baseRowIdx: Option<nat>,
    baseColIdx: Option<nat>)
  {
    /** The base-case cell when both base indices are set; an index past
        the table raises. */
    function BaseValue(): (r: Result<Option<Cell>>)
      ensures r.Ok? && r.value.Some? <==>
                baseRowIdx.Some? && baseColIdx.Some? && baseRowIdx.value < |results|
                && baseColIdx.value < |results[baseRowIdx.value]|
      ensures r.Ok? && r.value.Some? ==> r.value.value == results[baseRowIdx.value][baseColIdx.value]
      ensures baseRowIdx.None? || baseColIdx.None? ==> r == Ok(None)
      ensures r.Err? ==> r.error == IndexError
    {
      if baseRowIdx.Some? && baseColIdx.Some? then
        if baseRowIdx.value < |results| && baseColIdx.value < |results[baseRowIdx.value]| then
          Ok(Some(results[baseRowIdx.value][baseColIdx.value]))
        else Err(IndexError)
      else Ok(None)
    }

    /** `min(min(row) for row in results)` (when `lowest`) or the `max`
        counterpart; an empty table or an empty row raises. */
    function TableExtreme(lowest: bool): (r: Result<Cell>)
      ensures r.Err? <==> |results| == 0 || exists i :: 0 <= i < |results| && |results[i]| == 0
      ensures r.Err? ==> r.error == ValueError
      ensures r.Ok? && NanFree(results) ==>
                && r.value.Num?
                && (exists i, j :: 0 <= i < |results| && 0 <= j < |results[i]| && results[i][j] == r.value)
                && forall i, j :: 0 <= i < |results| && 0 <= j < |results[i]| ==>
                     (if lowest then r.value.value <= results[i][j].value else results[i][j].value <= r.value.value)
      ensures r.Ok? && results[0][0].NaN? ==> r.value.NaN?
      ensures r.Ok? && results[0][0].Num? ==>
                && r.value.Num?
                && (exists i, j :: 0 <= i < |results| && 0 <= j < |results[i]| && Counted(results, i, j)
                                   && results[i][j] == r.value)
                && forall i, j :: 0 <= i < |results| && 0 <= j < |results[i]| && Counted(results, i, j) ==>
                     (if lowest then r.value.value <= results[i][j].value else results[i][j].value <= r.value.value)
    {
      if |results| == 0 || exists i :: 0 <= i < |results| && |results[i]| == 0 then Err(ValueError)
      else
        var extremes := RowExtremes(results, lowest);
        var e := Extreme(extremes, lowest);
        TableExtremeBounds(results, lowest, extremes, e);
        Ok(e)
    }

    /** `(min_value(), max_value())`. */
    function Range(): (r: Result<(Cell, Cell)>)
      ensures r.Ok? <==> TableExtreme(true).Ok?
      ensures r.Ok? ==> r.value == (TableExtreme(true).value, TableExtreme(false).value)
    {
      var lo := TableExtreme(true);
      if lo.Err? then Err(lo.error) else Ok((lo.value, TableExtreme(false).value))
    }
  }

  predicate NanFree(rs: seq<seq<Cell>>) {
    forall i, j :: 0 <= i < |rs| && 0 <= j < |rs[i]| ==> rs[i][j].Num?
  }

  /** Cell `(i, j)` takes part in the table's `min`/`max`: it holds a number
      and so does the first cell of its row. A row that starts with NaN has
      NaN as its own extreme, which the outer `min`/`max` then skips. */
  predicate Counted(rs: seq<seq<Cell>>, i: int, j: int)
    requires 0 <= i < |rs| && 0 <= j < |rs[i]|
  {
    rs[i][0].Num? && rs[i][j].Num?
  }

  function RowExtremes(rs: seq<seq<Cell>>, lowest: bool): (es: seq<Cell>)
    requires forall i :: 0 <= i < |rs| ==> |rs[i]| > 0
    ensures |es| == |rs|
    ensures forall i :: 0 <= i < |rs| ==> es[i] == Extreme(rs[i], lowest)
  {
    seq(|rs|, i requires 0 <= i < |rs| => Extreme(rs[i], lowest))
  }

  lemma TableExtremeBounds(rs: seq<seq<Cell>>, lowest: bool, es: seq<Cell>, e: Cell)
    requires |rs| > 0 && forall i :: 0 <= i < |rs| ==> |rs[i]| > 0
    requires es == RowExtremes(rs, lowest) && e == Extreme(es, lowest)
    ensures NanFree(rs) ==>
              && e.Num?
              && (exists i, j :: 0 <= i < |rs| && 0 <= j < |rs[i]| && rs[i][j] == e)
              && forall i, j :: 0 <= i < |rs| && 0 <= j < |rs[i]| ==>
                   (if lowest then e.value <= rs[i][j].value else rs[i][j].value <= e.value)
    ensures rs[0][0].Num? ==>
              && e.Num?
              && (exists i, j :: 0 <= i < |rs| && 0 <= j < |rs[i]| && Counted(rs, i, j) && rs[i][j] == e)
              && forall i, j :: 0 <= i < |rs| && 0 <= j < |rs[i]| && Counted(rs, i, j) ==>
                   (if lowest then e.value <= rs[i][j].value else rs[i][j].value <= e.value)
  {
    if NanFree(rs) {
      TableExtremeNanFree(rs, lowest, es, e);
    }
    if rs[0][0].Num? {
      TableExtremeCounted(rs, lowest, es, e);
    }
  }

  /** With a number in the first cell, the table's extreme is the extreme of
      the counted cells: one of them, and bounding all of them. */
  lemma TableExtremeCounted(rs: seq<seq<Cell>>, lowest: bool, es: seq<Cell>, e: Cell)
    requires |rs| > 0 && forall i :: 0 <= i < |rs| ==> |rs[i]| > 0
    requires rs[0][0].Num?
    requires es == RowExtremes(rs, lowest) && e == Extreme(es, lowest)
    ensures e.Num?
    ensures exists i, j :: 0 <= i < |rs| && 0 <= j < |rs[i]| && Counted(rs, i, j) && rs[i][j] == e
    ensures forall i, j :: 0 <= i < |rs| && 0 <= j < |rs[i]| && Counted(rs, i, j) ==>
              (if lowest then e.value <= rs[i][j].value else rs[i][j].value <= e.value)
  {
    forall i | 0 <= i < |rs| && rs[i][0].Num?
      ensures es[i].Num?
      ensures forall j :: 0 <= j < |rs[i]| && rs[i][j].Num? ==>
                (if lowest then es[i].value <= rs[i][j].value else rs[i][j].value <= es[i].value)
    {
    }
    assert es[0].Num?;
    var k :| 0 <= k < |es| && es[k] == e;
    assert rs[k][0].Num?;
    var j :| 0 <= j < |rs[k]| && rs[k][j] == e;
    assert Counted(rs, k, j);
  }

  lemma TableExtremeNanFree(rs: seq<seq<Cell>>, lowest: bool, es: seq<Cell>, e: Cell)
    requires |rs| > 0 && forall i :: 0 <= i < |rs| ==> |rs[i]| > 0
    requires NanFree(rs)
    requires es == RowExtremes(rs, lowest) && e == Extreme(es, lowest)
    ensures e.Num?
    ensures exists i, j :: 0 <= i < |rs| && 0 <= j < |rs[i]| && rs[i][j] == e
    ensures forall i, j :: 0 <= i < |rs| && 0 <= j < |rs[i]| ==>
              (if lowest then e.value <= rs[i][j].value else rs[i][j].value <= e.value)
  {
    forall i | 0 <= i < |rs|
      ensures es[i].Num? && es[i] in rs[i]
      ensures forall j :: 0 <= j < |rs[i]| ==> (if lowest then es[i].value <= rs[i][j].value else rs[i][j].value <= es[i].value)
    {
      assert forall j :: 0 <= j < |rs[i]| ==> rs[i][j].Num?;
    }
    var k :| 0 <= k < |es| && es[k] == e;
    var j :| 0 <= j < |rs[k]| && rs[k][j] == e;
  }

  /** The table of `calculate` over the row and column values, with the base
      indices at the first occurrence of each base value. */
  function Table(calculate: (real, real) -> Result<real>, rowVariable: string, colVariable: string,
                 rowValues: seq<real>, colValues: seq<real>,
                 baseRowValue: Option<real>, baseColValue: Option<real>): (t: SensitivityTable)
    ensures t.results == Grid(calculate, rowValues, colValues)
    ensures t.rowValues == rowValues && t.colValues == colValues
    ensures t.baseRowIdx == BaseIndex(rowValues, baseRowValue)
    ensures t.baseColIdx == BaseIndex(colValues, baseColValue)
  {
    SensitivityTable(rowVariable, colVariable, rowValues, colValues, Grid(calculate, rowValues, colValues),
                     BaseIndex(rowValues, baseRowValue), BaseIndex(colValues, baseColValue))
  }

  /** The first position of the base value, or `None` when it is not given
      or does not occur. */
  function BaseIndex(values: seq<real>, base: Option<real>): (r: Option<nat>)
    ensures r.Some? <==> base.Some? && base.value in values
    ensures r.Some? ==> r.value < |values| && values[r.value] == base.value
    ensures r.Some? ==> forall j :: 0 <= j < r.value ==> values[j] != base.value
  {
    if base.None? then None else IndexOf(values, base.value)
  }

  /** `create_table`: the rows are filled one calculation at a time. */
  method CreateTable(calculate: (real, real) -> Result<real>, rowVariable: string, colVariable: string,
                     rowValues: seq<real>, colValues: seq<real>,
                     baseRowValue: Option<real>, baseColValue: Option<real>) returns (t: SensitivityTable)
    ensures t == Table(calculate, rowVariable, colVariable, rowValues, colValues, baseRowValue, baseColValue)
  {
    var results: seq<seq<Cell>> := [];
    for i := 0 to |rowValues|
      invariant results == Grid(calculate, rowValues[..i], colValues)
    {
      var rowResults: seq<Cell> := [];
      for j := 0 to |colValues|
        invariant rowResults == Grid(calculate, [rowValues[i]], colValues[..j])[0]
      {
        var result := calculate(rowValues[i], colValues[j]);
        rowResults := rowResults + [if result.Ok? then Num(result.value) else NaN];
      }
      assert colValues[..|colValues|] == colValues;
      results := results + [rowResults];
    }
    assert rowValues[..|rowValues|] == rowValues;
    t := SensitivityTable(rowVariable, colVariable, rowValues, colValues, results,
                          BaseIndex(rowValues, baseRowValue), BaseIndex(colValues, baseColValue));
  }

  /** A table built by `create_table` never fails to read its base cell:
      the base value is present exactly when both base values occur. */
  lemma CreatedBaseValue(calculate: (real, real) -> Result<real>, rowVariable: string, colVariable: string,
                         rowValues: seq<real>, colValues: seq<real>,
                         baseRowValue: Option<real>, baseColValue: Option<real>)
    ensures var t := Table(calculate, rowVariable, colVariable, rowValues, colValues, baseRowValue, baseColValue);
            && t.BaseValue().Ok?
            && (t.BaseValue().value.Some? <==>
                  baseRowValue.Some? && baseRowValue.value in rowValues
                  && baseColValue.Some? && baseColValue.value in colValues)
  {
  }

  /** The base value lies within the table's range whenever Python's
      `min`/`max` compare it: the first cell, the first cell of the base row
      and the base cell hold numbers. NaN cells elsewhere do not matter; a
      table without NaN is one such case. */
  lemma RangeBracketsBase(t: SensitivityTable)
    requires |t.results| > 0 && forall i :: 0 <= i < |t.results| ==> |t.results[i]| > 0
    requires t.BaseValue().Ok? && t.BaseValue().value.Some?
    requires t.results[0][0].Num? && t.BaseValue().value.value.Num?
    requires t.results[t.baseRowIdx.value][0].Num?
    ensures t.Range().Ok? && t.Range().value.0.Num? && t.Range().value.1.Num?
    ensures t.Range().value.0.value <= t.BaseValue().value.value.value <= t.Range().value.1.value
  {
    var i := t.baseRowIdx.value;
    var j := t.baseColIdx.value;
    assert t.results[i][j] == t.BaseValue().value.value;
    assert Counted(t.results, i, j);
  }

  /** In a table without NaN every cell is compared, so the base value
      always lies within the range. */
  lemma NanFreeRangeBracketsBase(t: SensitivityTable)
    requires NanFree(t.results) && forall i :: 0 <= i < |t.results| ==> |t.results[i]| > 0
    requires t.BaseValue().Ok? && t.BaseValue().value.Some?
    ensures t.Range().Ok?
    ensures t.Range().value.0.value <= t.BaseValue().value.value.value <= t.Range().value.1.value
  {
    RangeBracketsBase(t);
  }

  /** A NaN in the first cell makes the whole range NaN, whatever else the
      table holds. */
  lemma LeadingNanPoisonsRange(t: SensitivityTable)
    requires |t.results| > 0 && |t.results[0]| > 0 && t.results[0][0].NaN?
    requires forall i :: 0 <= i < |t.results| ==> |t.results[i]| > 0
    ensures t.Range() == Ok((NaN, NaN))
  {
    var lo := t.TableExtreme(true);
    var hi := t.TableExtreme(false);
  }

  /** The enterprise value of the perpetuity-growth valuation. */
  function PerpetuityEv(m: Dcf.DcfModel, pow: (real, real) -> real): (r: Result<real>)
    ensures r.Ok? <==> Dcf.ValuePerpetuity(m, pow).Ok?
    ensures r.Ok? ==> r.value == Dcf.ValuePerpetuity(m, pow).value.enterpriseValue
  {
    var v :- Dcf.ValuePerpetuity(m, pow);
    Ok(v.enterpriseValue)
  }

  /** The DCF re-valued at another WACC and terminal growth rate; the base
      model itself is left as it was. */
  function DcfCell(m: Dcf.DcfModel, pow: (real, real) -> real): (real, real) -> Result<real> {
    (w: real, g: real) => PerpetuityEv(m.(wacc := w, terminalGrowth := g), pow)
  }

  /** WACC against terminal growth, valued by the perpetuity method. */
  function DcfSensitivity(m: Dcf.DcfModel, waccRange: seq<real>, growthRange: seq<real>,
                          pow: (real, real) -> real): (t: SensitivityTable)
    ensures t.rowVariable == "WACC" && t.colVariable == "Terminal Growth"
    ensures |t.results| == |waccRange| && forall i :: 0 <= i < |waccRange| ==> |t.results[i]| == |growthRange|
    ensures forall i, j :: 0 <= i < |waccRange| && 0 <= j < |growthRange| ==>
              t.results[i][j] == CellOf(PerpetuityEv(m.(wacc := waccRange[i], terminalGrowth := growthRange[j]), pow))
    ensures t.baseRowIdx == BaseIndex(waccRange, Some(m.wacc))
    ensures t.baseColIdx == BaseIndex(growthRange, Some(m.terminalGrowth))
  {
    Table(DcfCell(m, pow), "WACC", "Terminal Growth", waccRange, growthRange, Some(m.wacc), Some(m.terminalGrowth))
  }

  /** Because every cell starts again from the base model, the base cell
      reproduces the base model's own valuation. */
  lemma DcfBaseCellIsBaseValuation(m: Dcf.DcfModel, waccRange: seq<real>, growthRange: seq<real>,
                                   pow: (real, real) -> real)
    requires m.wacc in waccRange && m.terminalGrowth in growthRange
    ensures DcfSensitivity(m, waccRange, growthRange, pow).BaseValue() == Ok(Some(CellOf(PerpetuityEv(m, pow))))
  {
    var t := DcfSensitivity(m, waccRange, growthRange, pow);
    var i := t.baseRowIdx.value;
    var j := t.baseColIdx.value;
    assert m.(wacc := waccRange[i], terminalGrowth := growthRange[j]) == m;
  }

  /** The IRR of a default run of the model. */
  function LboIrr(m: LboDeal.LboModel, pow: (real, real) -> real): (r: Result<real>)
    ensures r.Ok? <==> |m.projections| > 0
    ensures r.Ok? ==> r.value == LboSchedule.RunModel(m, LboSchedule.DefaultMaxIterations,
                                                     LboSchedule.DefaultConvergenceThreshold, pow).value.irr
  {
    var v :- LboSchedule.RunModel(m, LboSchedule.DefaultMaxIterations, LboSchedule.DefaultConvergenceThreshold, pow);
    Ok(v.irr)
  }

  /** The LBO re-run at other entry and exit multiples; the debt tranches
      are not resized for the new entry multiple. */
  function LboCell(m: LboDeal.LboModel, pow: (real, real) -> real): (real, real) -> Result<real> {
    (entry: real, exit: real) => LboIrr(m.(entryMultiple := entry, exitMultiple := exit), pow)
  }

  /** Entry multiple against exit multiple, as IRRs. */
  function LboSensitivity(m: LboDeal.LboModel, entryMultiples: seq<real>, exitMultiples: seq<real>,
                          pow: (real, real) -> real): (t: SensitivityTable)
    ensures t.rowVariable == "Entry Multiple" && t.colVariable == "Exit Multiple"
    ensures |t.results| == |entryMultiples| && forall i :: 0 <= i < |entryMultiples| ==> |t.results[i]| == |exitMultiples|
    ensures forall i, j :: 0 <= i < |entryMultiples| && 0 <= j < |exitMultiples| ==>
              t.results[i][j] == CellOf(LboIrr(m.(entryMultiple := entryMultiples[i], exitMultiple := exitMultiples[j]), pow))
    ensures t.baseRowIdx == BaseIndex(entryMultiples, Some(m.entryMultiple))
    ensures t.baseColIdx == BaseIndex(exitMultiples, Some(m.exitMultiple))
  {
    Table(LboCell(m, pow), "Entry Multiple", "Exit Multiple", entryMultiples, exitMultiples,
          Some(m.entryMultiple), Some(m.exitMultiple))
  }

  /** Because every cell starts again from the base model, the base cell
      reproduces the base model's own IRR. */
  lemma LboBaseCellIsBaseIrr(m: LboDeal.LboModel, entryMultiples: seq<real>, exitMultiples: seq<real>,
                             pow: (real, real) -> real)
    requires m.entryMultiple in entryMultiples && m.exitMultiple in exitMultiples
    ensures LboSensitivity(m, entryMultiples, exitMultiples, pow).BaseValue() == Ok(Some(CellOf(LboIrr(m, pow))))
  {
    var t := LboSensitivity(m, entryMultiples, exitMultiples, pow);
    var i := t.baseRowIdx.value;
    var j := t.baseColIdx.value;
    assert m.(entryMultiple := entryMultiples[i], exitMultiple := exitMultiples[j]) == m;
  }

  /** Changing the multiples never changes whether the model runs: with
      projections no cell is NaN, without them every cell is. */
  lemma LboTableNanFree(m: LboDeal.LboModel, entryMultiples: seq<real>, exitMultiples: seq<real>,
                        pow: (real, real) -> real)
    ensures NanFree(LboSensitivity(m, entryMultiples, exitMultiples, pow).results) <==>
              |m.projections| > 0 || |entryMultiples| == 0 || |exitMultiples| == 0
  {
    var t := LboSensitivity(m, entryMultiples, exitMultiples, pow);
    forall i, j | 0 <= i < |entryMultiples| && 0 <= j < |exitMultiples|
      ensures t.results[i][j].Num? <==> |m.projections| > 0
    {
      var shifted := m.(entryMultiple := entryMultiples[i], exitMultiple := exitMultiples[j]);
      assert shifted.projections == m.projections;
    }
  }

  // ---------------------------------------------------------------------
  // Football field
  // ---------------------------------------------------------------------

  datatype FootballFieldBar = FootballFieldBar(name: string, low: real, mid: real, high: real)
  {
    function RangeWidth(): (w: real)
      ensures low + w == high
    {
      high - low
    }
  }

  datatype FootballField = FootballField(bars: seq<FootballFieldBar>, fiftyTwoWeekLow: Option<real>,
                                         fiftyTwoWeekHigh: Option<real>, currentPrice: Option<real>)

  function Lows(bars: seq<FootballFieldBar>): (ls: seq<real>)
    ensures |ls| == |bars|
    ensures forall i :: 0 <= i < |bars| ==> ls[i] == bars[i].low
  {
    seq(|bars|, i requires 0 <= i < |bars| => bars[i].low)
  }

  function Highs(bars: seq<FootballFieldBar>): (hs: seq<real>)
    ensures |hs| == |bars|
    ensures forall i :: 0 <= i < |bars| ==> hs[i] == bars[i].high
  {
    seq(|bars|, i requires 0 <= i < |bars| => bars[i].high)
  }

  /** The list plus the extra value when it is truthy. */
  function WithTruthy(s: seq<real>, x: Option<real>): (r: seq<real>)
    ensures Truthy(x) ==> r == s + [x.value]
    ensures !Truthy(x) ==> r == s
  {
    if Truthy(x) then s + [x.value] else s
  }

  /** The lowest low and the highest high over the bars and the truthy
      52-week extremes; with nothing on a side, `min` or `max` raises. */
  function OverallRange(f: FootballField): (r: Result<(real, real)>)
    ensures r.Ok? <==> (|f.bars| > 0 || Truthy(f.fiftyTwoWeekLow)) && (|f.bars| > 0 || Truthy(f.fiftyTwoWeekHigh))
    ensures r.Err? ==> r.error == ValueError
    ensures r.Ok? ==> forall i :: 0 <= i < |f.bars| ==> r.value.0 <= f.bars[i].low && f.bars[i].high <= r.value.1
    ensures r.Ok? && Truthy(f.fiftyTwoWeekLow) ==> r.value.0 <= f.fiftyTwoWeekLow.value
    ensures r.Ok? && Truthy(f.fiftyTwoWeekHigh) ==> f.fiftyTwoWeekHigh.value <= r.value.1
    ensures r.Ok? ==> r.value.0 in WithTruthy(Lows(f.bars), f.fiftyTwoWeekLow)
    ensures r.Ok? ==> r.value.1 in WithTruthy(Highs(f.bars), f.fiftyTwoWeekHigh)
  {
    var lows := WithTruthy(Lows(f.bars), f.fiftyTwoWeekLow);
    var highs := WithTruthy(Highs(f.bars), f.fiftyTwoWeekHigh);
    if |lows| == 0 || |highs| == 0 then Err(ValueError)
    else
      assert forall i :: 0 <= i < |f.bars| ==> lows[i] == f.bars[i].low && highs[i] == f.bars[i].high;
      Ok((MinOf(lows), MaxOf(highs)))
  }

  /** A 52-week extreme of zero is ignored, as if it were not given. */
  lemma ZeroFiftyTwoWeekIgnored(f: FootballField)
    ensures OverallRange(f.(fiftyTwoWeekLow := Some(0.0))) == OverallRange(f.(fiftyTwoWeekLow := None))
    ensures OverallRange(f.(fiftyTwoWeekHigh := Some(0.0))) == OverallRange(f.(fiftyTwoWeekHigh := None))
  {
  }

  /** The range on which every method agrees: from the highest low to the
      lowest high, or the NaN pair (`None`) when the bars do not overlap.
      No bars at all raises. */
  function ConsensusRange(f: FootballField): (r: Result<Option<(real, real)>>)
    ensures r.Ok? <==> |f.bars| > 0
    ensures r.Err? ==> r.error == ValueError
    ensures r.Ok? ==> (r.value.Some? <==> forall i, j :: 0 <= i < |f.bars| && 0 <= j < |f.bars| ==> f.bars[i].low <= f.bars[j].high)
    ensures r.Ok? && r.value.Some? ==>
              && r.value.value.0 <= r.value.value.1
              && forall i :: 0 <= i < |f.bars| ==> f.bars[i].low <= r.value.value.0 && r.value.value.1 <= f.bars[i].high
  {
    if |f.bars| == 0 then Err(ValueError)
    else
      var maxLow := MaxOf(Lows(f.bars));
      var minHigh := MinOf(Highs(f.bars));
      ConsensusOverlap(f.bars, maxLow, minHigh);
      if maxLow <= minHigh then Ok(Some((maxLow, minHigh))) else Ok(None)
  }

  lemma ConsensusOverlap(bars: seq<FootballFieldBar>, maxLow: real, minHigh: real)
    requires |bars| > 0 && maxLow == MaxOf(Lows(bars)) && minHigh == MinOf(Highs(bars))
    ensures maxLow <= minHigh <==> forall i, j :: 0 <= i < |bars| && 0 <= j < |bars| ==> bars[i].low <= bars[j].high
  {
    var a :| 0 <= a < |bars| && Lows(bars)[a] == maxLow;
    var b :| 0 <= b < |bars| && Highs(bars)[b] == minHigh;
    if maxLow <= minHigh {
      forall i, j | 0 <= i < |bars| && 0 <= j < |bars|
        ensures bars[i].low <= bars[j].high
      {
        assert Lows(bars)[i] <= maxLow && minHigh <= Highs(bars)[j];
      }
    } else {
      assert bars[a].low > bars[b].high;
    }
  }

  /** A bar as the method name and the range it shows. */
  function Label(b: FootballFieldBar): (string, Option<(real, real, real)>) {
    (b.name, Some((b.low, b.mid, b.high)))
  }

  function Labels(bars: seq<FootballFieldBar>): (ls: seq<(string, Option<(real, real, real)>)>)
    ensures |ls| == |bars|
    ensures forall i :: 0 <= i < |bars| ==> ls[i] == Label(bars[i])
  {
    seq(|bars|, i requires 0 <= i < |bars| => Label(bars[i]))
  }

  function IsGiven(l: (string, Option<(real, real, real)>)): bool {
    l.1.Some?
  }

  /** One bar for each supplied range, in list order: read back as labels,
      the bars are exactly the supplied entries. */
  function BarsFor(ls: seq<(string, Option<(real, real, real)>)>): (bars: seq<FootballFieldBar>)
    ensures Labels(bars) == Filter(IsGiven, ls)
  {
    if |ls| == 0 then []
    else
      var head := if ls[0].1.Some? then [FootballFieldBar(ls[0].0, ls[0].1.value.0, ls[0].1.value.1, ls[0].1.value.2)] else [];
      var rest := BarsFor(ls[1..]);
      assert Labels(head + rest) == Labels(head) + Labels(rest);
      head + rest
  }

  /** The supplied ranges paired with their method names, in the order the
      bars are emitted. */
  function Labelled(dcfRange: Option<(real, real, real)>, compsRange: Option<(real, real, real)>,
                    precedentRange: Option<(real, real, real)>, lboRange: Option<(real, real, real)>):
    seq<(string, Option<(real, real, real)>)>
  {
    [("DCF", dcfRange), ("Trading Comps", compsRange), ("Precedent Transactions", precedentRange), ("LBO", lboRange)]
  }

  /** One bar per supplied range, in the fixed method order, each holding
      its range; the 52-week extremes come from the given pair. */
  function CreateFootballField(dcfRange: Option<(real, real, real)>, compsRange: Option<(real, real, real)>,
                               precedentRange: Option<(real, real, real)>, lboRange: Option<(real, real, real)>,
                               fiftyTwoWeek: Option<(real, real)>, currentPrice: Option<real>): (f: FootballField)
    ensures Labels(f.bars) == Filter(IsGiven, Labelled(dcfRange, compsRange, precedentRange, lboRange))
    ensures f.fiftyTwoWeekLow.Some? <==> fiftyTwoWeek.Some?
    ensures f.fiftyTwoWeekHigh.Some? <==> fiftyTwoWeek.Some?
    ensures fiftyTwoWeek.Some? ==> f.fiftyTwoWeekLow.value == fiftyTwoWeek.value.0 && f.fiftyTwoWeekHigh.value == fiftyTwoWeek.value.1
    ensures f.currentPrice == currentPrice
  {
    FootballField(BarsFor(Labelled(dcfRange, compsRange, precedentRange, lboRange)),
                  if fiftyTwoWeek.Some? then Some(fiftyTwoWeek.value.0) else None,
                  if fiftyTwoWeek.Some? then Some(fiftyTwoWeek.value.1) else None,
                  currentPrice)
  }

  /** Which bars appear: the DCF bar always first when its range is given,
      the LBO bar last, and a range that is not given leaves no bar. */
  lemma FootballFieldBars(dcfRange: Option<(real, real, real)>, compsRange: Option<(real, real, real)>,
                          precedentRange: Option<(real, real, real)>, lboRange: Option<(real, real, real)>,
                          fiftyTwoWeek: Option<(real, real)>, currentPrice: Option<real>)
    ensures var bars := CreateFootballField(dcfRange, compsRange, precedentRange, lboRange, fiftyTwoWeek, currentPrice).bars;
            && |bars| == Count(IsGiven, Labelled(dcfRange, compsRange, precedentRange, lboRange))
            && (dcfRange.Some? ==> |bars| > 0 && Label(bars[0]) == ("DCF", dcfRange))
            && (lboRange.Some? ==> |bars| > 0 && Label(bars[|bars| - 1]) == ("LBO", lboRange))
  {
    var ls := Labelled(dcfRange, compsRange, precedentRange, lboRange);
    var bars := CreateFootballField(dcfRange, compsRange, precedentRange, lboRange, fiftyTwoWeek, currentPrice).bars;
    FilterLength(IsGiven, ls);
    FilterOfFour(IsGiven, ls);
    assert Labels(bars) == Filter(IsGiven, ls);
  }

  lemma FilterOfFour<T>(p: T -> bool, s: seq<T>)
    requires |s| == 4
    ensures Filter(p, s) == FilterOne(p, s[0]) + FilterOne(p, s[1]) + FilterOne(p, s[2]) + FilterOne(p, s[3])
  {
    assert s == [s[0]] + [s[1]] + [s[2]] + [s[3]];
    FilterAppend(p, [s[0]] + [s[1]] + [s[2]], [s[3]]);
    FilterAppend(p, [s[0]] + [s[1]], [s[2]]);
    FilterAppend(p, [s[0]], [s[1]]);
    FilterSingleton(p, s[0]);
    FilterSingleton(p, s[1]);
    FilterSingleton(p, s[2]);
    FilterSingleton(p, s[3]);
  }

  function FilterOne<T>(p: T -> bool, x: T): seq<T> {
    if p(x) then [x] else []
  }

  lemma FilterSingleton<T>(p: T -> bool, x: T)
    ensures Filter(p, [x]) == FilterOne(p, x)
  {
    assert [x][1..] == [];
  }

}

