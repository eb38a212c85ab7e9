/** The entry-multiple solver: a bisection over the entry multiple that
    re-runs the whole model at every midpoint until the IRR lands within a
    tolerance of its target, for at most fifty trials.
 */
module LboSolver {
  import opened Wrappers
  import opened LboDeal
  import opened LboSchedule
  import opened LboProperties

  /** The fixed number of bisection trials. */
  const Trials: nat := 50

  /** Line by line, the debt "rescaling" of a trial: every amount times
      `scale` divided by `ratio`. The first tranche raises on a zero ratio,
      before any amount changes. */
  function Rescale(ts: seq<DebtTranche>, scale: real, ratio: real): (r: Result<seq<DebtTranche>>)
    ensures r.Err? <==> |ts| > 0 && ratio == 0.0
    ensures r.Err? ==> r.error == ZeroDivisionError
    ensures r.Ok? ==> |r.value| == |ts|
    ensures r.Ok? ==> forall i :: 0 <= i < |ts| ==>
              r.value[i].name == ts[i].name && r.value[i].amount * ratio == ts[i].amount * scale
  {
    if |ts| == 0 then Ok([])
    else if ratio == 0.0 then Err(ZeroDivisionError)
    else
      var rest := Rescale(ts[1..], scale, ratio);
      Ok([ts[0].(amount := ts[0].amount * scale / ratio)] + rest.value)
  }

  /** The solver scales by the same factor it divides by, so the debt
      package comes back unchanged. */
  lemma {:induction false} RescaleKeepsDebt(ts: seq<DebtTranche>, s: real)
    requires s != 0.0
    ensures Rescale(ts, s, s) == Ok(ts)
  {
    if |ts| > 0 {
      RescaleKeepsDebt(ts[1..], s);
      assert ts[0].(amount := ts[0].amount * s / s) == ts[0];
      assert [ts[0]] + ts[1..] == ts;
    }
  }

  /** One trial at `mid`: the entry multiple set to `mid`, the debt
      "rescaled" relative to the original multiple, and the model run with
      its default iteration settings. The IRR it reaches, or the error
      raised. The rescaled list is the original one (`RescaleKeepsDebt`), so
      the run is on the model's own tranches (`TrialRunsRescaledDebt`). */
  function TrialIrr(m: LboModel, mid: real, pow: (real, real) -> real): (r: Result<real>)
    ensures m.entryMultiple == 0.0 ==> r == Err(ZeroDivisionError)
    ensures m.entryMultiple != 0.0 && |m.debtTranches| > 0 && mid == 0.0 ==> r == Err(ZeroDivisionError)
    ensures m.entryMultiple != 0.0 && (|m.debtTranches| == 0 || mid != 0.0) ==>
              (r.Ok? <==> |m.projections| > 0) && (r.Err? ==> r.error == IndexError)
  {
    if m.entryMultiple == 0.0 then Err(ZeroDivisionError)
    else
      var scale := mid / m.entryMultiple;
      assert scale == 0.0 <==> mid == 0.0 by {
        assert scale * m.entryMultiple == mid;
      }
      var ts := Rescale(m.debtTranches, scale, scale);
      if ts.Err? then Err(ts.error)
      else
        var run := RunModel(m.(entryMultiple := mid), DefaultMaxIterations, DefaultConvergenceThreshold, pow);
        if run.Err? then Err(run.error) else Ok(run.value.irr)
  }

  /** Running the model on the rescaled tranches, as the source does, is
      running it on the original ones. */
  lemma TrialRunsRescaledDebt(m: LboModel, mid: real, pow: (real, real) -> real)
    requires m.entryMultiple != 0.0
    ensures var s := mid / m.entryMultiple;
            var ts := Rescale(m.debtTranches, s, s);
            && (ts.Ok? <==> |m.debtTranches| == 0 || mid != 0.0)
            && (ts.Ok? ==> ts.value == m.debtTranches)
            && (ts.Ok? ==>
                  var run := RunModel(m.(entryMultiple := mid, debtTranches := ts.value),
                                      DefaultMaxIterations, DefaultConvergenceThreshold, pow);
                  && (TrialIrr(m, mid, pow).Ok? <==> run.Ok?)
                  && (run.Ok? ==> TrialIrr(m, mid, pow).value == run.value.irr))
  {
    var s := mid / m.entryMultiple;
    assert s == 0.0 <==> mid == 0.0 by {
      assert s * m.entryMultiple == mid;
    }
    if s != 0.0 {
      RescaleKeepsDebt(m.debtTranches, s);
    }
    var ts := Rescale(m.debtTranches, s, s);
    if ts.Ok? {
      assert ts.value == m.debtTranches;
      assert m.(entryMultiple := mid, debtTranches := ts.value) == m.(entryMultiple := mid);
    }
  }

  /** How a bisection ends: a midpoint within tolerance, no such midpoint
      in the trials allowed, or a trial that raised. */
  datatype Search = Found(mid: real) | NotFound | Failed(at: real, error: Error)

  /** The bisection on `[low, high]` with `trials` trials left, `trial`
      giving the IRR at a multiple. A trial within tolerance returns its
      midpoint; an IRR above target means the buyer can pay more, so the
      search moves up, and otherwise down. */
  function Bisect(trial: real -> Result<real>, targetIrr: real, low: real, high: real, tolerance: real,
                  trials: nat): (s: Search)
    ensures trials == 0 ==> s == NotFound
    decreases trials
  {
    if trials == 0 then NotFound
    else
      var mid := (low + high) / 2.0;
      var irr := trial(mid);
      if irr.Err? then Failed(mid, irr.error)
      else if Abs(irr.value - targetIrr) < tolerance then Found(mid)
      else if irr.value > targetIrr then Bisect(trial, targetIrr, mid, high, tolerance, trials - 1)
      else Bisect(trial, targetIrr, low, mid, tolerance, trials - 1)
  }

  /** `x` lies between `a` and `b`, whichever order they come in. */
  predicate Between(x: real, a: real, b: real) {
    Min(a, b) <= x <= Max(a, b)
  }

  /** The trial at `x` reaches the target IRR within tolerance. */
  predicate Hits(trial: real -> Result<real>, targetIrr: real, tolerance: real, x: real) {
    trial(x).Ok? && Abs(trial(x).value - targetIrr) < tolerance
  }

  /** What the bisection promises: a multiple it finds lies in the search
      range and its trial reaches the target IRR within tolerance; a failure
      names a midpoint in the range whose trial raised that error. */
  lemma {:induction false} BisectSound(trial: real -> Result<real>, targetIrr: real, low: real, high: real,
                                       tolerance: real, trials: nat)
    ensures var s := Bisect(trial, targetIrr, low, high, tolerance, trials);
            && (s.Found? ==> Between(s.mid, low, high) && Hits(trial, targetIrr, tolerance, s.mid))
            && (s.Failed? ==> Between(s.at, low, high) && trial(s.at) == Err(s.error))
            && (s.NotFound? && trials > 0 ==>
                  trial((low + high) / 2.0).Ok? && !Hits(trial, targetIrr, tolerance, (low + high) / 2.0))
    decreases trials
  {
    if trials > 0 {
      var mid := (low + high) / 2.0;
      var irr := trial(mid);
      if irr.Ok? && Abs(irr.value - targetIrr) >= tolerance {
        if irr.value > targetIrr {
          BisectSound(trial, targetIrr, mid, high, tolerance, trials - 1);
        } else {
          BisectSound(trial, targetIrr, low, mid, tolerance, trials - 1);
        }
      }
    }
  }

  /** A bisection whose trials all succeed on positive multiples never
      fails when the range is positive. */
  lemma {:induction false} BisectNoError(trial: real -> Result<real>, targetIrr: real, low: real, high: real,
                                         tolerance: real, trials: nat)
    requires 0.0 < low && 0.0 < high
    requires forall x :: 0.0 < x ==> trial(x).Ok?
    ensures !Bisect(trial, targetIrr, low, high, tolerance, trials).Failed?
    decreases trials
  {
    if trials > 0 {
      var mid := (low + high) / 2.0;
      var irr := trial(mid);
      if Abs(irr.value - targetIrr) >= tolerance {
        if irr.value > targetIrr {
          BisectNoError(trial, targetIrr, mid, high, tolerance, trials - 1);
        } else {
          BisectNoError(trial, targetIrr, low, mid, tolerance, trials - 1);
        }
      }
    }
  }

  /** The bisection as a bounded loop: it ends as `Bisect` does. */
  method BisectLoop(trial: real -> Result<real>, targetIrr: real, low0: real, high0: real, tolerance: real,
                    trials: nat)
    returns (s: Search)
    ensures s == Bisect(trial, targetIrr, low0, high0, tolerance, trials)
  {
    var low, high := low0, high0;
    var left := trials;
    while left > 0
      invariant Bisect(trial, targetIrr, low, high, tolerance, left)
                == Bisect(trial, targetIrr, low0, high0, tolerance, trials)
    {
      var mid := (low + high) / 2.0;
      var irr := trial(mid);
      if irr.Err? {
        return Failed(mid, irr.error);
      }
      if Abs(irr.value - targetIrr) < tolerance {
        return Found(mid);
      }
      if irr.value > targetIrr {
        low := mid;
      } else {
        high := mid;
      }
      left := left - 1;
    }
    return NotFound;
  }

  /** The trial the solver runs at each midpoint. */
  function SolverTrial(m: LboModel, pow: (real, real) -> real): real -> Result<real> {
    (x: real) => TrialIrr(m, x, pow)
  }

  /** With projections and a non-zero original multiple, every trial at a
      positive multiple runs to an IRR. */
  lemma TrialsSucceed(m: LboModel, pow: (real, real) -> real)
    requires |m.projections| > 0 && m.entryMultiple != 0.0
    ensures forall x :: 0.0 < x ==> SolverTrial(m, pow)(x).Ok?
  {
    forall x | 0.0 < x
      ensures SolverTrial(m, pow)(x).Ok?
    {
      assert TrialIrr(m, x, pow).Ok?;
    }
  }

  /** The solver: fifty bisection trials over `[minMultiple, maxMultiple]`.
      It returns the multiple the search finds, `None` exactly when all fifty
      trials miss the target, both with the entry multiple restored, or
      raises with the model left at the failing midpoint, since nothing
      restores it on that path. A returned multiple lies in the range and its
      trial reaches the target IRR within tolerance. A zero original
      multiple always raises; on a positive range with projections nothing
      raises. */
  method SolveForEntryMultiple(m: LboModel, targetIrr: real, minMultiple: real, maxMultiple: real,
                               tolerance: real, pow: (real, real) -> real)
    returns (answer: Result<Option<real>>, after: LboModel)
    ensures answer.Ok? ==> after == m
    ensures answer.Ok? <==>
              !Bisect(SolverTrial(m, pow), targetIrr, minMultiple, maxMultiple, tolerance, Trials).Failed?
    ensures answer == Ok(None) <==>
              Bisect(SolverTrial(m, pow), targetIrr, minMultiple, maxMultiple, tolerance, Trials) == NotFound
    ensures answer == Ok(None) ==>
              SolverTrial(m, pow)((minMultiple + maxMultiple) / 2.0).Ok? &&
              !Hits(SolverTrial(m, pow), targetIrr, tolerance, (minMultiple + maxMultiple) / 2.0)
    ensures answer.Ok? && answer.value.Some? ==>
              Bisect(SolverTrial(m, pow), targetIrr, minMultiple, maxMultiple, tolerance, Trials)
                == Found(answer.value.value)
    ensures answer.Ok? && answer.value.Some? ==>
              Between(answer.value.value, minMultiple, maxMultiple) &&
              Hits(SolverTrial(m, pow), targetIrr, tolerance, answer.value.value)
    ensures answer.Err? ==>
              after == m.(entryMultiple := after.entryMultiple) &&
              Between(after.entryMultiple, minMultiple, maxMultiple) &&
              SolverTrial(m, pow)(after.entryMultiple) == Err(answer.error)
    ensures m.entryMultiple == 0.0 ==> answer == Err(ZeroDivisionError)
    ensures |m.projections| > 0 && m.entryMultiple != 0.0 && 0.0 < minMultiple && 0.0 < maxMultiple ==>
              answer.Ok?
  {
    var trial := SolverTrial(m, pow);
    var s := BisectLoop(trial, targetIrr, minMultiple, maxMultiple, tolerance, Trials);
    BisectSound(trial, targetIrr, minMultiple, maxMultiple, tolerance, Trials);
    if |m.projections| > 0 && m.entryMultiple != 0.0 && 0.0 < minMultiple && 0.0 < maxMultiple {
      TrialsSucceed(m, pow);
      BisectNoError(trial, targetIrr, minMultiple, maxMultiple, tolerance, Trials);
    }
    match s
    case Found(mid) =>
      answer, after := Ok(Some(mid)), m;
    case NotFound =>
      answer, after := Ok(None), m;
    case Failed(mid, e) =>
      answer, after := Err(e), m.(entryMultiple := mid);
  }
}
