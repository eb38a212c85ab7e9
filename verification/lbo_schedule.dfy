/** The LBO debt schedule: for each projected year, resolve the interest /
    cash-flow circularity, take mandatory amortisation, sweep excess cash
    into term debt in priority order, draw or repay the revolver, and
    record the year; then value the exit and compute MOIC and IRR.

    Balances are a name-keyed dictionary, as in the original, so tranches
    that share a name share one balance.
 */
module LboSchedule {
  import opened Wrappers
  import opened Seqs
  import opened Dicts
  import opened LboDeal

  type Balances = Dict<string, real>

  /** Well-formed balances in which every tranche's name has a balance. */
  predicate Covers(b: Balances, ts: seq<DebtTranche>) {
    b.Valid() && forall i :: 0 <= i < |ts| ==> ts[i].name in b.keys
  }

  /** No two tranches share a name: the first tranche's name is not used
      again, and the same holds for the rest of the list. */
  predicate UniqueNames(ts: seq<DebtTranche>) {
    |ts| == 0 ||
    ((forall i :: 1 <= i < |ts| ==> ts[i].name != ts[0].name) && UniqueNames(ts[1..]))
  }

  /** Any two tranches of a list with unique names have different names. */
  lemma {:induction false} UniqueNamesAt(ts: seq<DebtTranche>, i: nat, j: nat)
    requires UniqueNames(ts) && i < |ts| && j < |ts| && i != j
    ensures ts[i].name != ts[j].name
  {
    if i > 0 && j > 0 {
      assert ts[1..][i - 1] == ts[i] && ts[1..][j - 1] == ts[j];
      UniqueNamesAt(ts[1..], i - 1, j - 1);
    }
  }

  function NameAndAmount(t: DebtTranche): (string, real) { (t.name, t.amount) }

  function NamesAndAmounts(ts: seq<DebtTranche>): (ps: seq<(string, real)>)
    ensures |ps| == |ts| && forall i :: 0 <= i < |ts| ==> ps[i] == (ts[i].name, ts[i].amount)
  {
    seq(|ts|, i requires 0 <= i < |ts| => NameAndAmount(ts[i]))
  }

  /** `{t.name: t.amount for t in tranches}`. */
  function OpeningBalances(ts: seq<DebtTranche>): (b: Balances)
    ensures Covers(b, ts)
    ensures forall k :: k in b.keys ==> exists i :: 0 <= i < |ts| && ts[i].name == k
  {
    var b := FromPairs(NamesAndAmounts(ts));
    assert forall k :: k in b.keys ==> exists i :: 0 <= i < |ts| && ts[i].name == k by {
      forall k | k in b.keys
        ensures exists i :: 0 <= i < |ts| && ts[i].name == k
      {
        var p :| 0 <= p < |b.keys| && b.keys[p] == k;
        var j :| 0 <= j < |ts| && NamesAndAmounts(ts)[j].0 == b.keys[p];
      }
    }
    b
  }

  lemma SumValuesOf(ts: seq<DebtTranche>)
    ensures Sum(ValuesOf(NamesAndAmounts(ts))) == SumOf(Amount, ts)
  {
    if |ts| > 0 {
      assert ValuesOf(NamesAndAmounts(ts))[1..] == ValuesOf(NamesAndAmounts(ts[1..]));
      SumValuesOf(ts[1..]);
    }
  }

  lemma UniqueNamesDistinctKeys(ts: seq<DebtTranche>)
    requires UniqueNames(ts)
    ensures Distinct(KeysOf(NamesAndAmounts(ts)))
  {
    var ks := KeysOf(NamesAndAmounts(ts));
    forall a, b | 0 <= a < b < |ks|
      ensures ks[a] != ks[b]
    {
      UniqueNamesAt(ts, a, b);
    }
    DistinctFrom(ks);
  }

  /** With unique names each tranche opens at its own amount. */
  lemma OpeningBalanceIsAmount(ts: seq<DebtTranche>, i: nat)
    requires UniqueNames(ts) && i < |ts|
    ensures OpeningBalances(ts).Get(ts[i].name) == ts[i].amount
  {
    var ps := NamesAndAmounts(ts);
    UniqueNamesDistinctKeys(ts);
    DistinctLast(ps, i);
    FromPairsLast(ps, i);
  }

  /** With unique names the opening total is the sum of the tranche amounts. */
  lemma OpeningTotal(ts: seq<DebtTranche>)
    requires UniqueNames(ts)
    ensures Total(OpeningBalances(ts)) == SumOf(Amount, ts)
  {
    var ps := NamesAndAmounts(ts);
    UniqueNamesDistinctKeys(ts);
    FromPairsDistinct(ps);
    SumValuesOf(ts);
  }

  /** With unique names the opening balances are exactly the tranche
      amounts, and the opening total is the total initial debt. */
  lemma OpeningBalancesUnique(m: LboModel)
    requires UniqueNames(m.debtTranches)
    ensures forall i :: 0 <= i < |m.debtTranches| ==>
              OpeningBalances(m.debtTranches).Get(m.debtTranches[i].name) == m.debtTranches[i].amount
    ensures Total(OpeningBalances(m.debtTranches)) == m.TotalInitialDebt()
  {
    forall i | 0 <= i < |m.debtTranches|
      ensures OpeningBalances(m.debtTranches).Get(m.debtTranches[i].name) == m.debtTranches[i].amount
    {
      OpeningBalanceIsAmount(m.debtTranches, i);
    }
    OpeningTotal(m.debtTranches);
  }

  // ---------------------------------------------------------------------
  // Interest and the circular reference
  // ---------------------------------------------------------------------

  /** Interest on every tranche's current balance, tranche by tranche. */
  function TotalInterest(ts: seq<DebtTranche>, b: Balances): (interest: real)
    requires Covers(b, ts)
    ensures (forall i :: 0 <= i < |ts| ==> ts[i].interestRate >= 0.0 && b.Get(ts[i].name) >= 0.0)
              ==> interest >= 0.0
  {
    if |ts| == 0 then 0.0
    else ts[0].InterestExpense(b.Get(ts[0].name)) + TotalInterest(ts[1..], b)
  }

  /** The outcome of the circularity loop: the interest and cash flow of
      the last pass and the number of passes made. */
  datatype Resolution = Resolution(interest: real, fcf: real, passes: nat)

  /** The iteration `for iteration in range(iterations)` with its convergence
      test; `last` is the pass before, `None` when no pass has run. */
  function Resolve(ts: seq<DebtTranche>, b: Balances, proj: Projection, iterations: int,
                   threshold: real, prevInterest: real, done: nat, last: Option<Resolution>)
    : (r: Option<Resolution>)
    requires Covers(b, ts)
    ensures iterations <= 0 ==> r == last
    ensures iterations >= 1 ==>
              r.Some? && r.value.interest == TotalInterest(ts, b) &&
              r.value.fcf == FreeCashFlow(proj, TotalInterest(ts, b)) &&
              done < r.value.passes <= done + iterations
    ensures iterations >= 1 && threshold > 0.0 ==> r.value.passes <= done + 2
    ensures iterations >= 1 && threshold > 0.0 && prevInterest == TotalInterest(ts, b) ==>
              r.value.passes == done + 1
    ensures iterations >= 1 && threshold <= 0.0 ==> r.value.passes == done + iterations
    decreases if iterations <= 0 then 0 else iterations
  {
    if iterations <= 0 then last
    else
      var interest := TotalInterest(ts, b);
      var current := Resolution(interest, FreeCashFlow(proj, interest), done + 1);
      if Abs(interest - prevInterest) < threshold then Some(current)
      else Resolve(ts, b, proj, iterations - 1, threshold, interest, done + 1, Some(current))
  }

  /** The circularity loop of one year. The balances do not move inside the
      loop, so every pass computes the same interest: it settles after two
      passes at most, and what it returns does not depend on the iteration
      limit or the threshold. With no pass at all the year's cash flow is
      never bound. */
  function ResolveCircularity(ts: seq<DebtTranche>, b: Balances, proj: Projection,
                              maxIterations: int, threshold: real): (r: Option<Resolution>)
    requires Covers(b, ts)
    ensures r.Some? <==> maxIterations >= 1
    ensures r.Some? ==> r.value.interest == TotalInterest(ts, b)
    ensures r.Some? ==> r.value.fcf == FreeCashFlow(proj, TotalInterest(ts, b))
    ensures r.Some? ==> 1 <= r.value.passes <= maxIterations
    ensures r.Some? && threshold > 0.0 ==> r.value.passes <= 2
    ensures r.Some? && threshold > 0.0 && TotalInterest(ts, b) == 0.0 ==> r.value.passes == 1
    ensures r.Some? && threshold <= 0.0 ==> r.value.passes == maxIterations
  {
    Resolve(ts, b, proj, maxIterations, threshold, 0.0, 0, None)
  }

  // ---------------------------------------------------------------------
  // Mandatory amortisation, cash sweep, revolver
  // ---------------------------------------------------------------------

  /** Balances after one stage of the year and the amount that stage paid. */
  datatype Step = Step(balances: Balances, paid: real)

  /** Lowers the balance under `name` by `amount` (a negative amount raises it). */
  function Repay(b: Balances, name: string, amount: real): (r: Balances)
    requires b.Valid() && name in b.keys
    ensures r.Valid() && r.keys == b.keys
    ensures r.Get(name) == b.Get(name) - amount
    ensures forall k {:trigger r.Get(k)} :: k in b.keys && k != name ==> r.Get(k) == b.Get(k)
  {
    b.Put(name, b.Get(name) - amount)
  }

  /** Whatever is repaid comes off the total debt. */
  lemma RepayTotal(b: Balances, name: string, amount: real)
    requires b.Valid() && name in b.keys
    ensures Total(Repay(b, name, amount)) == Total(b) - amount
  {
    PutTotal(b, name, b.Get(name) - amount);
  }

  /** One tranche's mandatory amortisation: a term tranche repays its
      scheduled amount, capped at its balance; a revolver pays nothing. */
  function AmortizeTranche(t: DebtTranche, original: Balances, b: Balances): (r: Step)
    requires b.Valid() && t.name in b.keys && original.Valid() && t.name in original.keys
    ensures r.balances.Valid() && r.balances.keys == b.keys
    ensures Total(r.balances) == Total(b) - r.paid
    ensures t.isRevolver ==> r == Step(b, 0.0)
    ensures !t.isRevolver ==> r.paid <= b.Get(t.name) && r.paid <= t.AnnualAmortization(original.Get(t.name))
    ensures !t.isRevolver ==> r.paid == b.Get(t.name) || r.paid == t.AnnualAmortization(original.Get(t.name))
  {
    if t.isRevolver then Step(b, 0.0)
    else
      var amort := Min(t.AnnualAmortization(original.Get(t.name)), b.Get(t.name));
      RepayTotal(b, t.name, amort);
      Step(Repay(b, t.name, amort), amort)
  }

  /** Mandatory amortisation, tranche by tranche in list order. */
  function Amortize(ts: seq<DebtTranche>, original: Balances, b: Balances): (r: Step)
    requires Covers(b, ts) && Covers(original, ts)
    ensures r.balances.Valid() && r.balances.keys == b.keys
    ensures Total(r.balances) == Total(b) - r.paid
  {
    if |ts| == 0 then Step(b, 0.0)
    else
      var first := AmortizeTranche(ts[0], original, b);
      var rest := Amortize(ts[1..], original, first.balances);
      Step(rest.balances, first.paid + rest.paid)
  }

  function SweepPriority(t: DebtTranche): real { t.cashSweepPriority as real }

  /** The term tranches, stably sorted by sweep priority. */
  function SweepOrder(ts: seq<DebtTranche>): (order: seq<DebtTranche>)
    ensures |order| == |Filter(IsTermDebt, ts)|
  {
    SortBy(SweepPriority, Filter(IsTermDebt, ts))
  }

  /** The sweep order holds the term tranches and nothing else, by
      ascending priority. */
  lemma SweepOrderFacts(ts: seq<DebtTranche>)
    ensures var order := SweepOrder(ts);
            && SortedBy(SweepPriority, order)
            && multiset(order) == multiset(Filter(IsTermDebt, ts))
            && forall i :: 0 <= i < |order| ==> !order[i].isRevolver && order[i] in ts
  {
    var terms := Filter(IsTermDebt, ts);
    var order := SweepOrder(ts);
    SortBySorted(SweepPriority, terms);
    SortByPermutes(SweepPriority, terms);
    FilterMembers(IsTermDebt, ts);
    forall i | 0 <= i < |order|
      ensures !order[i].isRevolver && order[i] in ts
    {
      assert order[i] in multiset(order);
      assert order[i] in terms;
    }
  }

  /** The sweep walk: pay each tranche in turn as much as the remaining
      cash allows, stopping once the cash is gone. */
  function SweepWalk(order: seq<DebtTranche>, b: Balances, remaining: real): (r: Step)
    requires Covers(b, order)
    ensures r.balances.Valid() && r.balances.keys == b.keys
    ensures remaining <= 0.0 ==> r.paid == 0.0
  {
    if |order| == 0 || remaining <= 0.0 then Step(b, 0.0)
    else
      var pay := Min(remaining, b.Get(order[0].name));
      var rest := SweepWalk(order[1..], Repay(b, order[0].name, pay), remaining - pay);
      Step(rest.balances, pay + rest.paid)
  }

  /** Whatever the walk pays comes off the total debt. */
  lemma {:induction false} SweepWalkConserves(order: seq<DebtTranche>, b: Balances, remaining: real)
    requires Covers(b, order)
    ensures Total(SweepWalk(order, b, remaining).balances) == Total(b) - SweepWalk(order, b, remaining).paid
  {
    if |order| > 0 && remaining > 0.0 {
      var pay := Min(remaining, b.Get(order[0].name));
      var b1 := Repay(b, order[0].name, pay);
      RepayTotal(b, order[0].name, pay);
      assert forall i :: 0 <= i < |order[1..]| ==> order[1..][i] == order[i + 1];
      SweepWalkConserves(order[1..], b1, remaining - pay);
    }
  }

  lemma SweepOrderCovered(ts: seq<DebtTranche>, b: Balances)
    requires Covers(b, ts)
    ensures Covers(b, SweepOrder(ts))
  {
    var order := SweepOrder(ts);
    SweepOrderFacts(ts);
    forall i | 0 <= i < |order|
      ensures order[i].name in b.keys
    {
      var j :| 0 <= j < |ts| && ts[j] == order[i];
    }
  }

  /** The cash sweep: only positive cash is swept. */
  function CashSweep(ts: seq<DebtTranche>, b: Balances, cash: real): (r: Step)
    requires Covers(b, ts)
    ensures r.balances.Valid() && r.balances.keys == b.keys
    ensures Total(r.balances) == Total(b) - r.paid
    ensures cash <= 0.0 ==> r == Step(b, 0.0)
  {
    if cash > 0.0 then
      SweepOrderCovered(ts, b);
      SweepWalkConserves(SweepOrder(ts), b, cash);
      SweepWalk(SweepOrder(ts), b, cash)
    else Step(b, 0.0)
  }

  /** The revolver stage: `lastChange` is the movement of the last revolver
      that moved (`None` if none did) and `net` the sum of all movements. */
  datatype RevolverStep = RevolverStep(balances: Balances, lastChange: Option<real>, net: real)

  /** One revolver's movement: on a shortfall it draws what is needed, up
      to its undrawn commitment; on a surplus that the sweep left untouched
      it repays up to its balance; otherwise it does not move. Term
      tranches never move here. */
  function RevolverMove(t: DebtTranche, b: Balances, cash: real, sweepPaid: real): (move: Option<real>)
    requires b.Valid() && t.name in b.keys
    ensures move.Some? <==> t.isRevolver && (cash < 0.0 || (cash > 0.0 && sweepPaid == 0.0))
    ensures move.Some? && cash < 0.0 ==>
              move.value <= -cash && move.value <= t.revolverCommitment - b.Get(t.name) &&
              (move.value == -cash || move.value == t.revolverCommitment - b.Get(t.name))
    ensures move.Some? && cash > 0.0 ==>
              -move.value <= cash && -move.value <= b.Get(t.name) &&
              (-move.value == cash || -move.value == b.Get(t.name))
  {
    if !t.isRevolver then None
    else if cash < 0.0 then Some(Min(-cash, t.revolverCommitment - b.Get(t.name)))
    else if cash > 0.0 && sweepPaid == 0.0 then Some(-Min(cash, b.Get(t.name)))
    else None
  }

  /** The revolver loop over all tranches in list order. */
  function RevolverPass(ts: seq<DebtTranche>, b: Balances, cash: real, sweepPaid: real): (r: RevolverStep)
    requires Covers(b, ts)
    ensures r.balances.Valid() && r.balances.keys == b.keys
    ensures Total(r.balances) == Total(b) + r.net
    ensures Count(IsRevolver, ts) == 0 ==> r == RevolverStep(b, None, 0.0)
    ensures Count(IsRevolver, ts) <= 1 ==> r.lastChange.GetOr(0.0) == r.net
    ensures !(cash < 0.0 || (cash > 0.0 && sweepPaid == 0.0)) ==> r == RevolverStep(b, None, 0.0)
  {
    if |ts| == 0 then RevolverStep(b, None, 0.0)
    else
      var move := RevolverMove(ts[0], b, cash, sweepPaid);
      var b1 := if move.Some? then Repay(b, ts[0].name, -move.value) else b;
      RepayTotal(b, ts[0].name, -move.GetOr(0.0));
      var rest := RevolverPass(ts[1..], b1, cash, sweepPaid);
      assert Count(IsRevolver, ts) <= 1 && move.Some? ==> Count(IsRevolver, ts[1..]) == 0;
      RevolverStep(rest.balances, if rest.lastChange.Some? then rest.lastChange else move,
                   move.GetOr(0.0) + rest.net)
  }

  // ---------------------------------------------------------------------
  // One year, all years, and the returns
  // ---------------------------------------------------------------------

  /** The record kept for each projected year. */
  datatype YearRow = YearRow(year: int, ebitda: real, interestExpense: real, fcf: real,
                             mandatoryAmortization: real, cashSweep: real, revolverChange: real,
                             endingDebt: real)

  /** Net debt repaid in a year: amortisation plus sweep less revolver draws. */
  function YearPaydown(row: YearRow): real {
    row.mandatoryAmortization + row.cashSweep - row.revolverChange
  }

  datatype YearOutcome = YearOutcome(balances: Balances, row: YearRow)

  /** The three debt stages of a year and the cash they work from. */
  datatype YearStages = YearStages(amortization: Step, cash: real, sweep: Step, revolver: RevolverStep)

  /** Amortisation, then the sweep of what cash is left, then the revolver. */
  function Stages(ts: seq<DebtTranche>, original: Balances, b: Balances, fcf: real): (st: YearStages)
    requires Covers(b, ts) && Covers(original, ts)
    ensures Covers(st.revolver.balances, ts) && st.revolver.balances.keys == b.keys
    ensures st.cash == fcf - st.amortization.paid
    ensures Count(IsRevolver, ts) <= 1 ==>
              Total(st.revolver.balances) ==
                Total(b) - (st.amortization.paid + st.sweep.paid - st.revolver.lastChange.GetOr(0.0))
  {
    var amort := Amortize(ts, original, b);
    var cash := fcf - amort.paid;
    var sweep := CashSweep(ts, amort.balances, cash);
    YearStages(amort, cash, sweep, RevolverPass(ts, sweep.balances, cash, sweep.paid))
  }

  /** The debt stages of one year once its interest and cash flow are
      known, and the row they leave. */
  function CloseYear(ts: seq<DebtTranche>, original: Balances, b: Balances, proj: Projection,
                     interest: real, fcf: real): (r: YearOutcome)
    requires Covers(b, ts) && Covers(original, ts)
    ensures Covers(r.balances, ts) && r.balances.keys == b.keys
    ensures r.row.year == proj.year && r.row.ebitda == proj.ebitda
    ensures r.row.interestExpense == interest && r.row.fcf == fcf
    ensures r.row.endingDebt == Total(r.balances)
    ensures Count(IsRevolver, ts) <= 1 ==> r.row.endingDebt == Total(b) - YearPaydown(r.row)
    ensures Count(IsRevolver, ts) == 0 ==> r.row.revolverChange == 0.0
  {
    var st := Stages(ts, original, b, fcf);
    var ending := st.revolver.balances;
    YearOutcome(ending, YearRow(proj.year, proj.ebitda, interest, fcf, st.amortization.paid, st.sweep.paid,
                                st.revolver.lastChange.GetOr(0.0), Total(ending)))
  }

  /** One pass of the yearly loop. */
  function RunYear(ts: seq<DebtTranche>, original: Balances, b: Balances, proj: Projection,
                   maxIterations: int, threshold: real): (r: Result<YearOutcome>)
    requires Covers(b, ts) && Covers(original, ts)
    ensures r.Err? <==> maxIterations <= 0
    ensures r.Err? ==> r.error == UnboundLocalError
    ensures r.Ok? ==> Covers(r.value.balances, ts) && r.value.balances.keys == b.keys
    ensures r.Ok? ==> r.value.row.year == proj.year && r.value.row.ebitda == proj.ebitda
    ensures r.Ok? ==> r.value.row.interestExpense == TotalInterest(ts, b)
    ensures r.Ok? ==> r.value.row.fcf == FreeCashFlow(proj, TotalInterest(ts, b))
    ensures r.Ok? ==> r.value.row.endingDebt == Total(r.value.balances)
    ensures r.Ok? && Count(IsRevolver, ts) <= 1 ==>
              r.value.row.endingDebt == Total(b) - YearPaydown(r.value.row)
    ensures r.Ok? && Count(IsRevolver, ts) == 0 ==> r.value.row.revolverChange == 0.0
  {
    var resolved := ResolveCircularity(ts, b, proj, maxIterations, threshold);
    if resolved.None? then Err(UnboundLocalError)
    else Ok(CloseYear(ts, original, b, proj, resolved.value.interest, resolved.value.fcf))
  }

  datatype Schedule = Schedule(balances: Balances, rows: seq<YearRow>)

  /** Debt before year `i` of the schedule: the opening total, then each
      recorded year's ending debt. */
  function DebtBefore(opening: real, rows: seq<YearRow>, i: nat): real
    requires i < |rows|
  {
    if i == 0 then opening else rows[i - 1].endingDebt
  }

  /** All projected years in order, threading the balances through. */
  function RunYears(ts: seq<DebtTranche>, original: Balances, b: Balances, projections: seq<Projection>,
                    maxIterations: int, threshold: real): (r: Result<Schedule>)
    requires Covers(b, ts) && Covers(original, ts)
    ensures r.Err? <==> |projections| > 0 && maxIterations <= 0
    ensures r.Err? ==> r.error == UnboundLocalError
    ensures r.Ok? ==> Covers(r.value.balances, ts) && r.value.balances.keys == b.keys
    ensures r.Ok? ==> |r.value.rows| == |projections|
    ensures r.Ok? ==> forall i :: 0 <= i < |projections| ==>
              r.value.rows[i].year == projections[i].year && r.value.rows[i].ebitda == projections[i].ebitda
    ensures r.Ok? && |projections| == 0 ==> r.value.balances == b
    ensures r.Ok? && |projections| > 0 ==>
              r.value.rows[|projections| - 1].endingDebt == Total(r.value.balances)
    decreases |projections|
  {
    if |projections| == 0 then Ok(Schedule(b, []))
    else
      var year := RunYear(ts, original, b, projections[0], maxIterations, threshold);
      if year.Err? then Err(year.error)
      else
        var rest := RunYears(ts, original, year.value.balances, projections[1..], maxIterations, threshold);
        if rest.Err? then rest
        else Ok(Schedule(rest.value.balances, [year.value.row] + rest.value.rows))
  }

  /** Each row ends at the debt it started from less its paydown. */
  predicate RollsForward(opening: real, rows: seq<YearRow>)
    decreases |rows|
  {
    |rows| == 0 ||
    (rows[0].endingDebt == opening - YearPaydown(rows[0]) && RollsForward(rows[0].endingDebt, rows[1..]))
  }

  /** Rolling forward, read at one row. */
  lemma {:induction false} RollsForwardAt(opening: real, rows: seq<YearRow>, i: nat)
    requires RollsForward(opening, rows) && i < |rows|
    ensures rows[i].endingDebt == DebtBefore(opening, rows, i) - YearPaydown(rows[i])
    decreases i
  {
    if i > 0 {
      RollsForwardAt(rows[0].endingDebt, rows[1..], i - 1);
      assert rows[1..][i - 1] == rows[i];
      if i > 1 {
        assert rows[1..][i - 2] == rows[i - 1];
      }
    }
  }

  /** Debt is conserved when there is at most one revolver: each year ends
      at the previous year's debt less that year's paydown. With two or
      more revolvers only the last one's movement is recorded, and this fails. */
  lemma {:induction false} YearlyDebtRollForward(ts: seq<DebtTranche>, original: Balances, b: Balances,
                                                 projections: seq<Projection>, maxIterations: int,
                                                 threshold: real)
    requires Covers(b, ts) && Covers(original, ts) && Count(IsRevolver, ts) <= 1
    requires RunYears(ts, original, b, projections, maxIterations, threshold).Ok?
    ensures RollsForward(Total(b), RunYears(ts, original, b, projections, maxIterations, threshold).value.rows)
    decreases |projections|
  {
    if |projections| > 0 {
      var y := RunYear(ts, original, b, projections[0], maxIterations, threshold);
      var rest := RunYears(ts, original, y.value.balances, projections[1..], maxIterations, threshold);
      var s := RunYears(ts, original, b, projections, maxIterations, threshold).value;
      assert s.rows == [y.value.row] + rest.value.rows;
      assert s.rows[1..] == rest.value.rows;
      YearlyDebtRollForward(ts, original, y.value.balances, projections[1..], maxIterations, threshold);
    }
  }

  /** With at most one revolver the final debt is the opening debt less the
      sum of the yearly paydowns. */
  lemma {:induction false} ScheduleConservesDebt(ts: seq<DebtTranche>, original: Balances, b: Balances,
                                                 projections: seq<Projection>, maxIterations: int,
                                                 threshold: real)
    requires Covers(b, ts) && Covers(original, ts) && Count(IsRevolver, ts) <= 1
    requires RunYears(ts, original, b, projections, maxIterations, threshold).Ok?
    ensures var s := RunYears(ts, original, b, projections, maxIterations, threshold).value;
            Total(s.balances) == Total(b) - SumOf(YearPaydown, s.rows)
    decreases |projections|
  {
    if |projections| > 0 {
      var y := RunYear(ts, original, b, projections[0], maxIterations, threshold);
      var rest := RunYears(ts, original, y.value.balances, projections[1..], maxIterations, threshold);
      var s := RunYears(ts, original, b, projections, maxIterations, threshold).value;
      assert s.rows == [y.value.row] + rest.value.rows;
      assert s.rows[1..] == rest.value.rows;
      ScheduleConservesDebt(ts, original, y.value.balances, projections[1..], maxIterations, threshold);
      assert Total(y.value.balances) == Total(b) - YearPaydown(y.value.row);
    }
  }

  /** What `run_model` reports. */
  datatype LboResult = LboResult(entryEquity: real, exitEquity: real, moic: real, irr: real,
                                 exitEnterpriseValue: real, exitNetDebt: real, totalDebtPaydown: real,
                                 yearlyResults: seq<YearRow>)

  /** Multiple of invested capital; zero when no equity was invested. */
  function Moic(exitEquity: real, entryEquity: real): (moic: real)
    ensures entryEquity > 0.0 ==> moic * entryEquity == exitEquity
    ensures entryEquity <= 0.0 ==> moic == 0.0
  {
    if entryEquity > 0.0 then exitEquity / entryEquity else 0.0
  }

  /** More exit equity on the same positive equity cheque is a higher MOIC. */
  lemma MoicIncreasing(a: real, b: real, entryEquity: real)
    requires a < b && entryEquity > 0.0
    ensures Moic(a, entryEquity) < Moic(b, entryEquity)
  {
  }

  /** Exit valuation and returns from a completed schedule. `pow` stands
      for floating-point `**` with a fractional exponent, used for the
      annualised IRR. */
  function Returns(m: LboModel, schedule: Schedule, pow: (real, real) -> real): (res: LboResult)
    requires |m.projections| > 0 && schedule.balances.Valid()
    ensures res.entryEquity == m.InitialEquity()
    ensures res.exitEnterpriseValue == m.projections[|m.projections| - 1].ebitda * m.exitMultiple
    ensures res.exitNetDebt == Total(schedule.balances)
    ensures res.exitEquity == res.exitEnterpriseValue - res.exitNetDebt
    ensures res.moic == Moic(res.exitEquity, res.entryEquity)
    ensures res.moic > 0.0 ==> res.irr == pow(res.moic, 1.0 / |m.projections| as real) - 1.0
    ensures res.moic <= 0.0 ==> res.irr == 0.0
    ensures res.yearlyResults == schedule.rows
    ensures res.totalDebtPaydown == SumOf(YearPaydown, schedule.rows)
  {
    var years := |m.projections|;
    var exitEv := m.projections[years - 1].ebitda * m.exitMultiple;
    var exitDebt := Total(schedule.balances);
    var exitEquity := exitEv - exitDebt;
    var moic := Moic(exitEquity, m.InitialEquity());
    var irr := if moic > 0.0 then pow(moic, 1.0 / years as real) - 1.0 else 0.0;
    LboResult(m.InitialEquity(), exitEquity, moic, irr, exitEv, exitDebt,
              SumOf(YearPaydown, schedule.rows), schedule.rows)
  }

  /** The schedule `run_model` builds from the opening balances. */
  function ModelSchedule(m: LboModel, maxIterations: int, convergenceThreshold: real): Result<Schedule>
  {
    var opening := OpeningBalances(m.debtTranches);
    RunYears(m.debtTranches, opening, opening, m.projections, maxIterations, convergenceThreshold)
  }

  /** The iteration limit and convergence threshold a run uses by default. */
  const DefaultMaxIterations: int := 10
  const DefaultConvergenceThreshold: real := 0.01

  /** Runs the whole model. An empty projection list fails on reading the
      final year; a non-positive iteration limit leaves the first year's
      cash flow unbound. */
  function RunModel(m: LboModel, maxIterations: int, convergenceThreshold: real,
                    pow: (real, real) -> real): (r: Result<LboResult>)
    ensures |m.projections| == 0 <==> r == Err(IndexError)
    ensures |m.projections| > 0 && maxIterations <= 0 <==> r == Err(UnboundLocalError)
    ensures r.Ok? <==> |m.projections| > 0 && maxIterations >= 1
    ensures r.Ok? ==> ModelSchedule(m, maxIterations, convergenceThreshold).Ok?
    ensures r.Ok? ==> |r.value.yearlyResults| == |m.projections|
    ensures r.Ok? ==> forall i :: 0 <= i < |m.projections| ==>
              r.value.yearlyResults[i].year == m.projections[i].year &&
              r.value.yearlyResults[i].ebitda == m.projections[i].ebitda
    ensures r.Ok? ==> r.value.exitNetDebt == r.value.yearlyResults[|m.projections| - 1].endingDebt
  {
    var run := ModelSchedule(m, maxIterations, convergenceThreshold);
    if run.Err? then Err(run.error)
    else if |m.projections| == 0 then Err(IndexError)
    else Ok(Returns(m, run.value, pow))
  }
}
