/** Properties of the LBO debt schedule that relate several stages or
    several runs: balances stay within their limits, the cash sweep honours
    priorities, the revolver draws only on a shortfall, and the returns
    respond to the exit multiple as they should.
 */
module LboProperties {
  import opened Wrappers
  import opened Seqs
  import opened Dicts
  import opened LboDeal
  import opened LboSchedule

  // ---------------------------------------------------------------------
  // Sound balances
  // ---------------------------------------------------------------------

  /** Balances every tranche can hold: never negative, and a revolver never
      above its commitment. */
  predicate Sound(b: Balances, all: seq<DebtTranche>) {
    forall i :: 0 <= i < |all| ==> Holds(b, all[i])
  }

  /** The balance under `t`'s name is one `t` may hold. */
  predicate Holds(b: Balances, t: DebtTranche) {
    b.Valid() && t.name in b.keys && 0.0 <= b.Get(t.name) &&
    (t.isRevolver ==> b.Get(t.name) <= t.revolverCommitment)
  }

  /** Every tranche of `ts` is one of `all`. */
  predicate Within(ts: seq<DebtTranche>, all: seq<DebtTranche>) {
    forall i :: 0 <= i < |ts| ==> ts[i] in all
  }

  lemma WithinTail(ts: seq<DebtTranche>, all: seq<DebtTranche>)
    requires |ts| > 0 && Within(ts, all)
    ensures Within(ts[1..], all) && ts[0] in all
  {
    assert forall i :: 0 <= i < |ts[1..]| ==> ts[1..][i] == ts[i + 1];
  }

  /** Setting one tranche's balance to a value that tranche may hold keeps
      the balances sound when names are unique. */
  lemma PutSound(b: Balances, all: seq<DebtTranche>, t: DebtTranche, v: real)
    requires b.Valid() && Sound(b, all) && UniqueNames(all) && t in all
    requires 0.0 <= v && (t.isRevolver ==> v <= t.revolverCommitment)
    ensures Sound(b.Put(t.name, v), all)
  {
    var j :| 0 <= j < |all| && all[j] == t;
    var b1 := b.Put(t.name, v);
    forall i | 0 <= i < |all|
      ensures Holds(b1, all[i])
    {
      if i == j {
        assert b1.Get(t.name) == v;
      } else {
        UniqueNamesAt(all, i, j);
        assert Holds(b, all[i]);
      }
    }
  }

  /** Repaying (or drawing) an amount that leaves `t` a balance it may
      hold keeps the balances sound. */
  lemma RepaySound(b: Balances, all: seq<DebtTranche>, t: DebtTranche, amount: real)
    requires b.Valid() && Sound(b, all) && UniqueNames(all) && t in all
    requires 0.0 <= b.Get(t.name) - amount
    requires t.isRevolver ==> b.Get(t.name) - amount <= t.revolverCommitment
    ensures Sound(Repay(b, t.name, amount), all)
  {
    PutSound(b, all, t, b.Get(t.name) - amount);
  }

  lemma CoversTail(b: Balances, ts: seq<DebtTranche>)
    requires |ts| > 0 && Covers(b, ts)
    ensures Covers(b, ts[1..]) && ts[0].name in b.keys
  {
    assert forall i :: 0 <= i < |ts[1..]| ==> ts[1..][i] == ts[i + 1];
  }

  /** One tranche's amortisation pays a non-negative amount no larger than
      its balance. */
  lemma AmortizeTrancheSound(all: seq<DebtTranche>, t: DebtTranche, original: Balances, b: Balances)
    requires b.Valid() && t.name in b.keys && original.Valid() && t.name in original.keys
    requires t in all && UniqueNames(all) && Sound(b, all)
    requires t.amortizationRate >= 0.0 && original.Get(t.name) >= 0.0
    ensures Sound(AmortizeTranche(t, original, b).balances, all)
    ensures AmortizeTranche(t, original, b).paid >= 0.0
  {
    if !t.isRevolver {
      var j :| 0 <= j < |all| && all[j] == t;
      assert Holds(b, all[j]);
      RepaySound(b, all, t, Min(t.AnnualAmortization(original.Get(t.name)), b.Get(t.name)));
    }
  }

  /** Amortisation never over-repays: with non-negative schedules the amount
      paid is non-negative and every balance stays sound. */
  lemma {:induction false} AmortizeSound(all: seq<DebtTranche>, ts: seq<DebtTranche>, original: Balances,
                                         b: Balances)
    requires Covers(b, ts) && Covers(original, ts) && Within(ts, all) && UniqueNames(all)
    requires Sound(b, all)
    requires forall i :: 0 <= i < |ts| ==> ts[i].amortizationRate >= 0.0 && original.Get(ts[i].name) >= 0.0
    ensures Sound(Amortize(ts, original, b).balances, all)
    ensures Amortize(ts, original, b).paid >= 0.0
  {
    if |ts| > 0 {
      WithinTail(ts, all);
      CoversTail(b, ts);
      CoversTail(original, ts);
      var first := AmortizeTranche(ts[0], original, b);
      AmortizeTrancheSound(all, ts[0], original, b);
      AmortizeSound(all, ts[1..], original, first.balances);
    }
  }

  /** The sweep never pays more than the cash it was given, never pays a
      negative amount, and leaves every balance sound. */
  lemma {:induction false} SweepWalkSound(all: seq<DebtTranche>, order: seq<DebtTranche>, b: Balances,
                                          remaining: real)
    requires Covers(b, order) && Within(order, all) && UniqueNames(all) && Sound(b, all)
    ensures Sound(SweepWalk(order, b, remaining).balances, all)
    ensures 0.0 <= SweepWalk(order, b, remaining).paid
    ensures remaining > 0.0 ==> SweepWalk(order, b, remaining).paid <= remaining
  {
    if |order| > 0 && remaining > 0.0 {
      WithinTail(order, all);
      CoversTail(b, order);
      var t := order[0];
      var j :| 0 <= j < |all| && all[j] == t;
      assert Holds(b, all[j]);
      var pay := Min(remaining, b.Get(t.name));
      RepaySound(b, all, t, pay);
      SweepWalkSound(all, order[1..], Repay(b, t.name, pay), remaining - pay);
    }
  }

  lemma SweepOrderWithin(ts: seq<DebtTranche>)
    ensures Within(SweepOrder(ts), ts)
  {
    SweepOrderFacts(ts);
  }

  /** The cash sweep pays between zero and the positive part of the cash. */
  lemma CashSweepSound(ts: seq<DebtTranche>, b: Balances, cash: real)
    requires Covers(b, ts) && UniqueNames(ts) && Sound(b, ts)
    ensures Sound(CashSweep(ts, b, cash).balances, ts)
    ensures 0.0 <= CashSweep(ts, b, cash).paid <= Max(0.0, cash)
  {
    if cash > 0.0 {
      SweepOrderCovered(ts, b);
      SweepOrderWithin(ts);
      SweepWalkSound(ts, SweepOrder(ts), b, cash);
    }
  }

  /** A revolver's movement keeps its balance between zero and its
      commitment: a draw is at most the shortfall, a repayment at most the
      surplus. */
  lemma RevolverMoveSound(all: seq<DebtTranche>, t: DebtTranche, b: Balances, cash: real, sweepPaid: real)
    requires b.Valid() && t.name in b.keys && t in all && UniqueNames(all) && Sound(b, all)
    ensures var move := RevolverMove(t, b, cash, sweepPaid);
            && (move.Some? ==> Sound(Repay(b, t.name, -move.value), all))
            && (move.Some? && cash < 0.0 ==> 0.0 <= move.value <= -cash)
            && (move.Some? && cash > 0.0 ==> -cash <= move.value <= 0.0 && sweepPaid == 0.0)
  {
    var move := RevolverMove(t, b, cash, sweepPaid);
    if move.Some? {
      var j :| 0 <= j < |all| && all[j] == t;
      assert Holds(b, all[j]);
      RepaySound(b, all, t, -move.value);
    }
  }

  /** The revolver draws only on a cash shortfall and repays only from a
      surplus; every draw stays within the commitment, and every repayment
      within the drawn balance. */
  lemma {:induction false} RevolverPassSound(all: seq<DebtTranche>, ts: seq<DebtTranche>, b: Balances,
                                             cash: real, sweepPaid: real)
    requires Covers(b, ts) && Within(ts, all) && UniqueNames(all) && Sound(b, all)
    ensures var r := RevolverPass(ts, b, cash, sweepPaid);
            && Sound(r.balances, all)
            && (cash < 0.0 ==> r.net >= 0.0 && 0.0 <= r.lastChange.GetOr(0.0) <= -cash)
            && (cash >= 0.0 ==> r.net <= 0.0 && -cash <= r.lastChange.GetOr(0.0) <= 0.0)
            && (r.lastChange.GetOr(0.0) < 0.0 ==> sweepPaid == 0.0)
  {
    if |ts| > 0 {
      WithinTail(ts, all);
      CoversTail(b, ts);
      var move := RevolverMove(ts[0], b, cash, sweepPaid);
      RevolverMoveSound(all, ts[0], b, cash, sweepPaid);
      var b1 := if move.Some? then Repay(b, ts[0].name, -move.value) else b;
      RevolverPassSound(all, ts[1..], b1, cash, sweepPaid);
    }
  }

  /** Non-negative balances, each under a tranche's name, add up to a
      non-negative total. */
  lemma TotalNonNegative(b: Balances, ts: seq<DebtTranche>)
    requires b.Valid() && Sound(b, ts)
    requires forall k :: k in b.keys ==> exists i :: 0 <= i < |ts| && ts[i].name == k
    ensures Total(b) >= 0.0
  {
    var vs := b.vals;
    forall p | 0 <= p < |vs|
      ensures vs[p] >= 0.0
    {
      assert b.keys[p] in b.keys;
      var i :| 0 <= i < |ts| && ts[i].name == b.keys[p];
      SlotOf(b, p);
      assert Holds(b, ts[i]);
    }
    SumNonNegative(vs);
  }

  /** Schedule inputs under which every balance stays sound. */
  predicate WellFormedDebt(ts: seq<DebtTranche>) {
    UniqueNames(ts) &&
    forall i :: 0 <= i < |ts| ==>
      ts[i].amount >= 0.0 && ts[i].amortizationRate >= 0.0 &&
      (ts[i].isRevolver ==> ts[i].amount <= ts[i].revolverCommitment)
  }

  /** What a sound year looks like in its row: nothing is over-repaid, the
      sweep uses only positive cash after amortisation, and the revolver
      draws only on a shortfall and repays only when the sweep paid nothing. */
  predicate SoundRow(row: YearRow) {
    var cash := row.fcf - row.mandatoryAmortization;
    && row.mandatoryAmortization >= 0.0
    && 0.0 <= row.cashSweep <= Max(0.0, cash)
    && (row.revolverChange > 0.0 ==> cash < 0.0 && row.revolverChange <= -cash)
    && (row.revolverChange < 0.0 ==> cash > 0.0 && row.cashSweep == 0.0 && -row.revolverChange <= cash)
    && row.endingDebt >= 0.0
  }

  /** Amortisation and the sweep keep balances sound: nothing is
      over-repaid and the sweep spends only positive cash. */
  lemma SweepStageSound(ts: seq<DebtTranche>, original: Balances, b: Balances, fcf: real)
    requires Covers(b, ts) && Covers(original, ts) && WellFormedDebt(ts) && Sound(b, ts)
    requires forall i :: 0 <= i < |ts| ==> original.Get(ts[i].name) >= 0.0
    ensures var amort := Amortize(ts, original, b);
            var sweep := CashSweep(ts, amort.balances, fcf - amort.paid);
            && Sound(sweep.balances, ts)
            && amort.paid >= 0.0
            && 0.0 <= sweep.paid <= Max(0.0, fcf - amort.paid)
  {
    assert Within(ts, ts);
    AmortizeSound(ts, ts, original, b);
    var amort := Amortize(ts, original, b);
    CashSweepSound(ts, amort.balances, fcf - amort.paid);
  }

  /** The stage results of a sound year: amortisation repays, the sweep
      spends only positive cash, and the revolver draws only on a shortfall
      and repays only from a surplus the sweep left untouched. */
  predicate SoundStages(st: YearStages) {
    var change := st.revolver.lastChange.GetOr(0.0);
    && st.amortization.paid >= 0.0
    && 0.0 <= st.sweep.paid <= Max(0.0, st.cash)
    && (st.cash < 0.0 ==> 0.0 <= change <= -st.cash)
    && (st.cash >= 0.0 ==> -st.cash <= change <= 0.0)
    && (change < 0.0 ==> st.sweep.paid == 0.0)
  }

  /** The stages of a year, each read off its own definition. */
  lemma StagesUnfold(ts: seq<DebtTranche>, original: Balances, b: Balances, fcf: real)
    requires Covers(b, ts) && Covers(original, ts)
    ensures var st := Stages(ts, original, b, fcf);
            && st.amortization == Amortize(ts, original, b)
            && st.cash == fcf - st.amortization.paid
            && st.sweep == CashSweep(ts, st.amortization.balances, st.cash)
            && st.revolver == RevolverPass(ts, st.sweep.balances, st.cash, st.sweep.paid)
  {
    var amort := Amortize(ts, original, b);
    var cash := fcf - amort.paid;
    var sweep := CashSweep(ts, amort.balances, cash);
    var revolver := RevolverPass(ts, sweep.balances, cash, sweep.paid);
    assert Stages(ts, original, b, fcf) == YearStages(amort, cash, sweep, revolver);
  }

  /** The three stages of a year keep balances sound. */
  lemma StagesSound(ts: seq<DebtTranche>, original: Balances, b: Balances, fcf: real)
    requires Covers(b, ts) && Covers(original, ts) && WellFormedDebt(ts) && Sound(b, ts)
    requires forall i :: 0 <= i < |ts| ==> original.Get(ts[i].name) >= 0.0
    ensures var st := Stages(ts, original, b, fcf);
            Sound(st.revolver.balances, ts) && SoundStages(st)
  {
    StagesUnfold(ts, original, b, fcf);
    var st := Stages(ts, original, b, fcf);
    SweepStageSound(ts, original, b, fcf);
    assert Within(ts, ts);
    RevolverPassSound(ts, ts, st.sweep.balances, st.cash, st.sweep.paid);
  }

  /** The row of a sound year. */
  lemma CloseYearSound(ts: seq<DebtTranche>, original: Balances, b: Balances, proj: Projection,
                       interest: real, fcf: real)
    requires Covers(b, ts) && Covers(original, ts) && WellFormedDebt(ts) && Sound(b, ts)
    requires forall i :: 0 <= i < |ts| ==> original.Get(ts[i].name) >= 0.0
    requires forall k :: k in b.keys ==> exists i :: 0 <= i < |ts| && ts[i].name == k
    ensures var r := CloseYear(ts, original, b, proj, interest, fcf);
            Sound(r.balances, ts) && SoundRow(r.row)
  {
    StagesSound(ts, original, b, fcf);
    var st := Stages(ts, original, b, fcf);
    TotalNonNegative(st.revolver.balances, ts);
    assert SoundStages(st);
  }

  /** One year keeps balances sound and records a sound row. */
  lemma RunYearSound(ts: seq<DebtTranche>, original: Balances, b: Balances, proj: Projection,
                     maxIterations: int, threshold: real)
    requires Covers(b, ts) && Covers(original, ts) && WellFormedDebt(ts) && Sound(b, ts)
    requires forall i :: 0 <= i < |ts| ==> original.Get(ts[i].name) >= 0.0
    requires forall k :: k in b.keys ==> exists i :: 0 <= i < |ts| && ts[i].name == k
    requires maxIterations >= 1
    ensures var r := RunYear(ts, original, b, proj, maxIterations, threshold);
            r.Ok? && Sound(r.value.balances, ts) && SoundRow(r.value.row)
  {
    var resolved := ResolveCircularity(ts, b, proj, maxIterations, threshold).value;
    CloseYearSound(ts, original, b, proj, resolved.interest, resolved.fcf);
  }

  /** Every year of a schedule started from sound balances is sound. */
  lemma {:induction false} RunYearsSound(ts: seq<DebtTranche>, original: Balances, b: Balances,
                                         projections: seq<Projection>, maxIterations: int, threshold: real)
    requires Covers(b, ts) && Covers(original, ts) && WellFormedDebt(ts) && Sound(b, ts)
    requires forall i :: 0 <= i < |ts| ==> original.Get(ts[i].name) >= 0.0
    requires forall k :: k in b.keys ==> exists i :: 0 <= i < |ts| && ts[i].name == k
    requires maxIterations >= 1
    ensures var r := RunYears(ts, original, b, projections, maxIterations, threshold);
            r.Ok? && Sound(r.value.balances, ts) &&
            forall i :: 0 <= i < |r.value.rows| ==> SoundRow(r.value.rows[i])
    decreases |projections|
  {
    if |projections| > 0 {
      RunYearSound(ts, original, b, projections[0], maxIterations, threshold);
      var y := RunYear(ts, original, b, projections[0], maxIterations, threshold).value;
      RunYearsSound(ts, original, y.balances, projections[1..], maxIterations, threshold);
    }
  }

  lemma OpeningBalancesSound(ts: seq<DebtTranche>)
    requires WellFormedDebt(ts)
    ensures Sound(OpeningBalances(ts), ts)
  {
    forall i | 0 <= i < |ts|
      ensures OpeningBalances(ts).Get(ts[i].name) == ts[i].amount
    {
      OpeningBalanceIsAmount(ts, i);
    }
  }

  /** For well-formed debt (unique names, non-negative amounts and
      amortisation rates, revolvers drawn within their commitments) every
      year of `run_model` is sound: debt never goes negative, the revolver
      never exceeds its commitment, the sweep spends only surplus cash, the
      revolver draws only on a shortfall, and it repays only when the sweep
      paid nothing. */
  lemma RunModelSound(m: LboModel, maxIterations: int, threshold: real, pow: (real, real) -> real)
    requires WellFormedDebt(m.debtTranches) && |m.projections| > 0 && maxIterations >= 1
    ensures var r := RunModel(m, maxIterations, threshold, pow);
            && r.Ok?
            && (forall i :: 0 <= i < |r.value.yearlyResults| ==> SoundRow(r.value.yearlyResults[i]))
            && r.value.exitNetDebt >= 0.0
  {
    var ts := m.debtTranches;
    var opening := OpeningBalances(ts);
    OpeningBalancesSound(ts);
    RunYearsSound(ts, opening, opening, m.projections, maxIterations, threshold);
    var s := RunYears(ts, opening, opening, m.projections, maxIterations, threshold).value;
    assert RunModel(m, maxIterations, threshold, pow).value.yearlyResults == s.rows;
  }

  // ---------------------------------------------------------------------
  // Conservation and independence
  // ---------------------------------------------------------------------

  /** With unique names and at most one revolver, the reported total paydown
      is exactly the initial debt less the debt left at exit. */
  lemma RunModelConservesDebt(m: LboModel, maxIterations: int, threshold: real, pow: (real, real) -> real)
    requires UniqueNames(m.debtTranches) && Count(IsRevolver, m.debtTranches) <= 1
    ensures var r := RunModel(m, maxIterations, threshold, pow);
            r.Ok? ==> r.value.totalDebtPaydown == m.TotalInitialDebt() - r.value.exitNetDebt
  {
    var r := RunModel(m, maxIterations, threshold, pow);
    if r.Ok? {
      var opening := OpeningBalances(m.debtTranches);
      ScheduleConservesDebt(m.debtTranches, opening, opening, m.projections, maxIterations, threshold);
      OpeningBalancesUnique(m);
    }
  }

  /** Any positive iteration limit and any threshold give the same year:
      the balances do not move inside the circularity loop. */
  lemma RunYearIterationIrrelevant(ts: seq<DebtTranche>, original: Balances, b: Balances, proj: Projection,
                                   k1: int, t1: real, k2: int, t2: real)
    requires Covers(b, ts) && Covers(original, ts) && k1 >= 1 && k2 >= 1
    ensures RunYear(ts, original, b, proj, k1, t1) == RunYear(ts, original, b, proj, k2, t2)
  {
    var r1 := ResolveCircularity(ts, b, proj, k1, t1).value;
    var r2 := ResolveCircularity(ts, b, proj, k2, t2).value;
    assert r1.interest == r2.interest && r1.fcf == r2.fcf;
  }

  lemma {:induction false} RunYearsIterationIrrelevant(ts: seq<DebtTranche>, original: Balances, b: Balances,
                                                       projections: seq<Projection>,
                                                       k1: int, t1: real, k2: int, t2: real)
    requires Covers(b, ts) && Covers(original, ts) && k1 >= 1 && k2 >= 1
    ensures RunYears(ts, original, b, projections, k1, t1) == RunYears(ts, original, b, projections, k2, t2)
    decreases |projections|
  {
    if |projections| > 0 {
      RunYearIterationIrrelevant(ts, original, b, projections[0], k1, t1, k2, t2);
      var y := RunYear(ts, original, b, projections[0], k1, t1).value;
      RunYearsIterationIrrelevant(ts, original, y.balances, projections[1..], k1, t1, k2, t2);
    }
  }

  /** The result of `run_model` does not depend on the iteration limit (as
      long as there is one pass) nor on the convergence threshold. */
  lemma IterationLimitIrrelevant(m: LboModel, k1: int, t1: real, k2: int, t2: real, pow: (real, real) -> real)
    requires k1 >= 1 && k2 >= 1
    ensures RunModel(m, k1, t1, pow) == RunModel(m, k2, t2, pow)
  {
    var opening := OpeningBalances(m.debtTranches);
    RunYearsIterationIrrelevant(m.debtTranches, opening, opening, m.projections, k1, t1, k2, t2);
  }

  /** The debt schedule depends only on the tranches and the projections:
      the entry price, the exit multiple, the fees and the minimum cash
      play no part in it. */
  lemma ScheduleIgnoresPricing(m: LboModel, m2: LboModel, maxIterations: int, threshold: real)
    requires m2.debtTranches == m.debtTranches && m2.projections == m.projections
    ensures ModelSchedule(m, maxIterations, threshold) == ModelSchedule(m2, maxIterations, threshold)
    ensures var r1 := RunModel(m, maxIterations, threshold, (x: real, y: real) => 0.0);
            var r2 := RunModel(m2, maxIterations, threshold, (x: real, y: real) => 0.0);
            r1.Ok? <==> r2.Ok?
  {
  }

  /** The equity cheque does not depend on the exit multiple. */
  lemma EquityIgnoresExitMultiple(m: LboModel, x: real)
    ensures m.(exitMultiple := x).InitialEquity() == m.InitialEquity()
  {
    var m2 := m.(exitMultiple := x);
    assert m2.debtTranches == m.debtTranches;
    assert m2.PurchasePrice() == m.PurchasePrice();
    assert m2.TotalInitialDebt() == m.TotalInitialDebt();
  }

  /** On the same schedule, a higher exit multiple raises the exit equity
      by the extra exit value and, with equity invested and a positive final
      EBITDA, raises the MOIC. */
  lemma ReturnsExitMultiple(m: LboModel, x: real, schedule: Schedule, pow: (real, real) -> real)
    requires |m.projections| > 0 && schedule.balances.Valid() && m.exitMultiple < x
    ensures var e := m.projections[|m.projections| - 1].ebitda;
            var r1 := Returns(m, schedule, pow);
            var r2 := Returns(m.(exitMultiple := x), schedule, pow);
            && r2.exitNetDebt == r1.exitNetDebt
            && r2.exitEquity - r1.exitEquity == e * (x - m.exitMultiple)
            && (e > 0.0 && m.InitialEquity() > 0.0 ==> r1.moic < r2.moic)
  {
    var e := m.projections[|m.projections| - 1].ebitda;
    var r1 := Returns(m, schedule, pow);
    var r2 := Returns(m.(exitMultiple := x), schedule, pow);
    EquityIgnoresExitMultiple(m, x);
    assert r2.exitEquity - r1.exitEquity == e * x - e * m.exitMultiple;
    if e > 0.0 && m.InitialEquity() > 0.0 {
      assert e * x > e * m.exitMultiple;
      MoicIncreasing(r1.exitEquity, r2.exitEquity, m.InitialEquity());
    }
  }

  /** A higher exit multiple, everything else equal, leaves the schedule
      alone, raises the exit equity by the extra exit value and, with equity
      invested and a positive final EBITDA, raises the MOIC. */
  lemma ExitMultipleRaisesMoic(m: LboModel, x: real, maxIterations: int, threshold: real,
                               pow: (real, real) -> real)
    requires m.exitMultiple < x
    ensures var r1 := RunModel(m, maxIterations, threshold, pow);
            var r2 := RunModel(m.(exitMultiple := x), maxIterations, threshold, pow);
            && (r1.Ok? <==> r2.Ok?)
            && (r1.Ok? ==>
                  && r2.value.exitNetDebt == r1.value.exitNetDebt
                  && r2.value.exitEquity - r1.value.exitEquity ==
                       m.projections[|m.projections| - 1].ebitda * (x - m.exitMultiple))
            && (r1.Ok? && m.projections[|m.projections| - 1].ebitda > 0.0 && m.InitialEquity() > 0.0 ==>
                  r1.value.moic < r2.value.moic)
  {
    var m2 := m.(exitMultiple := x);
    ScheduleIgnoresPricing(m, m2, maxIterations, threshold);
    var s := ModelSchedule(m, maxIterations, threshold);
    if s.Ok? && |m.projections| > 0 {
      ReturnsExitMultiple(m, x, s.value, pow);
    }
  }

  // ---------------------------------------------------------------------
  // The cash sweep honours priorities
  // ---------------------------------------------------------------------

  /** With no cash left the walk changes nothing. */
  lemma SweepWalkExhausted(order: seq<DebtTranche>, b: Balances, remaining: real, k: string)
    requires Covers(b, order) && remaining <= 0.0 && k in b.keys
    ensures SweepWalk(order, b, remaining).balances.Get(k) == b.Get(k)
  {
  }

  /** One step of the sweep walk, seen at one key: pay the first tranche,
      then walk the rest. */
  lemma SweepWalkFirstAt(order: seq<DebtTranche>, b: Balances, remaining: real, k: string)
    requires Covers(b, order) && |order| > 0 && remaining > 0.0 && k in b.keys
    ensures var pay := Min(remaining, b.Get(order[0].name));
            var rest := SweepWalk(order[1..], Repay(b, order[0].name, pay), remaining - pay);
            SweepWalk(order, b, remaining).balances.Get(k) == rest.balances.Get(k)
  {
  }

  /** The sweep walk touches no balance outside the tranches it walks. */
  lemma {:induction false} SweepWalkTouchesOnlyOrder(order: seq<DebtTranche>, b: Balances, remaining: real,
                                                     k: string)
    requires Covers(b, order) && k in b.keys
    requires forall i :: 0 <= i < |order| ==> order[i].name != k
    ensures SweepWalk(order, b, remaining).balances.Get(k) == b.Get(k)
  {
    if |order| > 0 && remaining > 0.0 {
      var pay := Min(remaining, b.Get(order[0].name));
      assert forall i :: 0 <= i < |order[1..]| ==> order[1..][i] == order[i + 1];
      SweepWalkTouchesOnlyOrder(order[1..], Repay(b, order[0].name, pay), remaining - pay, k);
    }
  }

  /** When the sweep pays less than the cash it was given, every tranche
      it walks is paid off. */
  lemma {:induction false} SweepWalkPaysOff(order: seq<DebtTranche>, b: Balances, remaining: real)
    requires Covers(b, order) && UniqueNames(order)
    requires remaining > 0.0 && SweepWalk(order, b, remaining).paid < remaining
    ensures forall i :: 0 <= i < |order| ==> SweepWalk(order, b, remaining).balances.Get(order[i].name) == 0.0
  {
    if |order| > 0 {
      var t := order[0];
      var tail := order[1..];
      var pay := Min(remaining, b.Get(t.name));
      var b1 := Repay(b, t.name, pay);
      SweepWalkHeadPaid(order, b, remaining);
      SweepWalkPaysOff(tail, b1, remaining - pay);
      SweepWalkTouchesOnlyOrder(tail, b1, remaining - pay, t.name);
      var w := SweepWalk(order, b, remaining);
      forall i | 0 <= i < |order|
        ensures w.balances.Get(order[i].name) == 0.0
      {
        if i > 0 {
          assert order[i] == tail[i - 1];
        }
      }
    }
  }

  /** The first step of a sweep that pays less than its cash: the first
      tranche is paid off, and the rest of the walk again pays less than
      the cash left. */
  lemma SweepWalkHeadPaid(order: seq<DebtTranche>, b: Balances, remaining: real)
    requires Covers(b, order) && UniqueNames(order) && |order| > 0
    requires remaining > 0.0 && SweepWalk(order, b, remaining).paid < remaining
    ensures var pay := Min(remaining, b.Get(order[0].name));
            var b1 := Repay(b, order[0].name, pay);
            var rest := SweepWalk(order[1..], b1, remaining - pay);
            && Covers(b1, order[1..]) && UniqueNames(order[1..])
            && remaining - pay > 0.0 && rest.paid < remaining - pay
            && b1.Get(order[0].name) == 0.0
            && SweepWalk(order, b, remaining).balances == rest.balances
            && (forall i :: 0 <= i < |order[1..]| ==> order[1..][i].name != order[0].name)
  {
    var t := order[0];
    var tail := order[1..];
    assert forall i :: 0 <= i < |tail| ==> tail[i] == order[i + 1];
    var pay := Min(remaining, b.Get(t.name));
    var b1 := Repay(b, t.name, pay);
    var rest := SweepWalk(tail, b1, remaining - pay);
    var w := SweepWalk(order, b, remaining);
    assert w.balances == rest.balances && w.paid == pay + rest.paid;
    assert pay == b.Get(t.name);
    CoversTail(b, order);
    assert Covers(b1, tail);
    assert UniqueNames(tail);
  }

  /** The sweep walk leaves the `j`-th tranche of its order with a
      balance. */
  predicate LeftOwing(order: seq<DebtTranche>, b: Balances, remaining: real, j: nat)
    requires Covers(b, order) && j < |order|
  {
    SweepWalk(order, b, remaining).balances.Get(order[j].name) > 0.0
  }

  /** The sweep walk leaves the `i`-th tranche of its order as it was. */
  predicate Untouched(order: seq<DebtTranche>, b: Balances, remaining: real, i: nat)
    requires Covers(b, order) && i < |order|
  {
    SweepWalk(order, b, remaining).balances.Get(order[i].name) == b.Get(order[i].name)
  }

  /** The first step of the sweep walk moves no later tranche: one the
      rest of the walk leaves alone, the whole walk leaves alone. */
  lemma SweepWalkStep(order: seq<DebtTranche>, b: Balances, remaining: real, i: nat)
    requires Covers(b, order) && UniqueNames(order) && 0 < i < |order| && remaining > 0.0
    ensures var pay := Min(remaining, b.Get(order[0].name));
            var b1 := Repay(b, order[0].name, pay);
            && Covers(b1, order[1..])
            && (Untouched(order[1..], b1, remaining - pay, i - 1) ==> Untouched(order, b, remaining, i))
  {
    SweepWalkFirstAt(order, b, remaining, order[i].name);
    assert order[1..][i - 1] == order[i];
    assert order[i].name != order[0].name;
  }

  /** A tranche after the first that the walk leaves with a balance is
      also left with one by the rest of the walk. */
  lemma SweepWalkDescend(order: seq<DebtTranche>, b: Balances, remaining: real, j: nat, i: nat)
    requires Covers(b, order) && UniqueNames(order) && 0 < j < i < |order| && remaining > 0.0
    requires LeftOwing(order, b, remaining, j)
    ensures var pay := Min(remaining, b.Get(order[0].name));
            var b1 := Repay(b, order[0].name, pay);
            && Covers(b1, order[1..]) && UniqueNames(order[1..])
            && LeftOwing(order[1..], b1, remaining - pay, j - 1)
  {
    SweepWalkFirstAt(order, b, remaining, order[j].name);
    assert order[1..][j - 1] == order[j];
  }

  /** If the first tranche is left with a balance, the cash ran out on it. */
  lemma SweepWalkHeadLeft(order: seq<DebtTranche>, b: Balances, remaining: real)
    requires Covers(b, order) && UniqueNames(order) && |order| > 0 && remaining > 0.0
    requires SweepWalk(order, b, remaining).balances.Get(order[0].name) > 0.0
    ensures remaining < b.Get(order[0].name)
  {
    var t := order[0];
    var tail := order[1..];
    var pay := Min(remaining, b.Get(t.name));
    var b1 := Repay(b, t.name, pay);
    assert forall p :: 0 <= p < |tail| ==> tail[p] == order[p + 1];
    assert forall p :: 0 <= p < |tail| ==> tail[p].name != t.name;
    var rest := SweepWalk(tail, b1, remaining - pay);
    SweepWalkFirstAt(order, b, remaining, t.name);
    SweepWalkTouchesOnlyOrder(tail, b1, remaining - pay, t.name);
    assert rest.balances.Get(t.name) == b1.Get(t.name);
  }

  /** If the first tranche is left with a balance, no later tranche is
      touched. */
  lemma SweepWalkStopsAtFirst(order: seq<DebtTranche>, b: Balances, remaining: real, i: nat)
    requires Covers(b, order) && UniqueNames(order) && 0 < i < |order| && remaining > 0.0
    requires SweepWalk(order, b, remaining).balances.Get(order[0].name) > 0.0
    ensures SweepWalk(order, b, remaining).balances.Get(order[i].name) == b.Get(order[i].name)
  {
    var t := order[0];
    var k := order[i].name;
    SweepWalkHeadLeft(order, b, remaining);
    var pay := Min(remaining, b.Get(t.name));
    assert pay == remaining;
    var b1 := Repay(b, t.name, pay);
    var tail := order[1..];
    assert Covers(b1, tail) by {
      assert forall p :: 0 <= p < |tail| ==> tail[p] == order[p + 1];
    }
    UniqueNamesAt(order, 0, i);
    SweepWalkFirstAt(order, b, remaining, k);
    SweepWalkExhausted(tail, b1, remaining - pay, k);
    assert b1.Get(k) == b.Get(k);
  }

  /** A tranche the sweep leaves with a balance stops the walk: every
      later tranche keeps its balance. */
  lemma {:induction false} SweepWalkStops(order: seq<DebtTranche>, b: Balances, remaining: real, j: nat, i: nat)
    requires Covers(b, order) && UniqueNames(order) && j < i < |order|
    requires LeftOwing(order, b, remaining, j)
    ensures Untouched(order, b, remaining, i)
    decreases |order|, 1
  {
    if remaining <= 0.0 {
      SweepWalkExhausted(order, b, remaining, order[i].name);
    } else if j == 0 {
      SweepWalkStopsAtFirst(order, b, remaining, i);
    } else {
      SweepWalkStopsLater(order, b, remaining, j, i);
    }
  }

  /** The case of `SweepWalkStops` where the stopping tranche is not the
      first: it also stops the rest of the walk. */
  lemma {:induction false} SweepWalkStopsLater(order: seq<DebtTranche>, b: Balances, remaining: real,
                                               j: nat, i: nat)
    requires Covers(b, order) && UniqueNames(order) && 0 < j < i < |order| && remaining > 0.0
    requires LeftOwing(order, b, remaining, j)
    ensures Untouched(order, b, remaining, i)
    decreases |order|, 0
  {
    var pay := Min(remaining, b.Get(order[0].name));
    var b1 := Repay(b, order[0].name, pay);
    SweepWalkDescend(order, b, remaining, j, i);
    SweepWalkStops(order[1..], b1, remaining - pay, j - 1, i - 1);
    SweepWalkStep(order, b, remaining, i);
  }

  /** Tranches of equal priority are swept in their list order. */
  lemma SweepOrderStable(ts: seq<DebtTranche>, samePriority: DebtTranche -> bool, k: int)
    requires forall t :: samePriority(t) == (t.cashSweepPriority == k)
    ensures Filter(samePriority, SweepOrder(ts)) == Filter(samePriority, Filter(IsTermDebt, ts))
  {
    SortByStable(SweepPriority, Filter(IsTermDebt, ts), samePriority, k as real);
  }

  // ---------------------------------------------------------------------
  // Without a revolver debt only goes down
  // ---------------------------------------------------------------------

  lemma {:induction false} NoRevolverNoChange(ts: seq<DebtTranche>, original: Balances, b: Balances,
                                              projections: seq<Projection>, maxIterations: int,
                                              threshold: real)
    requires Covers(b, ts) && Covers(original, ts) && Count(IsRevolver, ts) == 0
    ensures var r := RunYears(ts, original, b, projections, maxIterations, threshold);
            r.Ok? ==> forall i :: 0 <= i < |r.value.rows| ==> r.value.rows[i].revolverChange == 0.0
    decreases |projections|
  {
    var r := RunYears(ts, original, b, projections, maxIterations, threshold);
    if |projections| > 0 && r.Ok? {
      var y := RunYear(ts, original, b, projections[0], maxIterations, threshold).value;
      NoRevolverNoChange(ts, original, y.balances, projections[1..], maxIterations, threshold);
      var rest := RunYears(ts, original, y.balances, projections[1..], maxIterations, threshold);
      assert r.value.rows == [y.row] + rest.value.rows;
      assert y.row.revolverChange == 0.0;
    }
  }

  /** For well-formed debt with no revolver, the debt at the end of each
      year is never above the debt at its start. */
  lemma NoRevolverDebtNonIncreasing(m: LboModel, maxIterations: int, threshold: real)
    requires WellFormedDebt(m.debtTranches) && Count(IsRevolver, m.debtTranches) == 0
    ensures var r := ModelSchedule(m, maxIterations, threshold);
            r.Ok? ==> forall i :: 0 <= i < |r.value.rows| ==>
              r.value.rows[i].endingDebt <= DebtBefore(m.TotalInitialDebt(), r.value.rows, i)
  {
    var ts := m.debtTranches;
    var opening := OpeningBalances(ts);
    var r := ModelSchedule(m, maxIterations, threshold);
    if r.Ok? && |m.projections| > 0 {
      OpeningBalancesSound(ts);
      OpeningBalancesUnique(m);
      RunYearsSound(ts, opening, opening, m.projections, maxIterations, threshold);
      YearlyDebtRollForward(ts, opening, opening, m.projections, maxIterations, threshold);
      forall i | 0 <= i < |r.value.rows|
        ensures r.value.rows[i].endingDebt
                == DebtBefore(Total(opening), r.value.rows, i) - YearPaydown(r.value.rows[i])
      {
        RollsForwardAt(Total(opening), r.value.rows, i);
      }
      NoRevolverNoChange(ts, opening, opening, m.projections, maxIterations, threshold);
    }
  }
}
