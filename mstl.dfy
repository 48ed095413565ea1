/**
 * The MSTL driver: normalises the caller's periods, picks one seasonal window
 * per period and runs the refitting loop, calling single-season STL once per
 * period and pass, in ascending period order.
 */
module MstlDriver {
  import opened Errors
  import opened Stl
  import opened Periods
  import opened Windows
  import opened Decomposition
  import opened Engine

  /**
   * The outcome of an MSTL run on series `y` with the caller's `periods` and
   * the STL primitive `stl`: the normalisation error, or the refitting loop
   * run on the normalised periods.
   */
  function Decompose(y: seq<real>, periods: seq<nat>, stl: StlFn): Result<MstlDecomposition, Error> {
    match Normalise(periods, |y|)
    case Err(e) => Err(e)
    case Ok(ps) => Refitted(y, ps, stl)
  }

  /**
   * The refitting loop on already normalised periods `ps`: one or two passes,
   * then the final trend and robust weights are those of the last STL fit,
   * and the residuals are the deseasonalised series minus that trend.
   */
  function Refitted(y: seq<real>, ps: seq<nat>, stl: StlFn): Result<MstlDecomposition, Error> {
    match Run(stl, Start(y, ps), ps, SeasonalWindows(ps), OuterIterations(|ps|))
    case Err(e) => Err(e)
    case Ok(s) =>
      match s.last
      case None => Err(MstlFailure(NoFitMessage))
      case Some(fit) => Ok(MstlDecomposition(fit.trend, s.seasonals, ZipSub(s.deseas, fit.trend), fit.weights))
  }

  /** `d[k] += s[k]` over the common prefix of `d` and `s`. */
  method AddAssign(d: array<real>, s: seq<real>)
    modifies d
    ensures d[..] == ZipAdd(old(d[..]), s)
  {
    var len := if d.Length < |s| then d.Length else |s|;
    for k := 0 to len
      invariant forall t | 0 <= t < k :: d[t] == old(d[t]) + s[t]
      invariant forall t | k <= t < d.Length :: d[t] == old(d[t])
    {
      d[k] := d[k] + s[k];
    }
  }

  /** `d[k] -= s[k]` over the common prefix of `d` and `s`. */
  method SubAssign(d: array<real>, s: seq<real>)
    modifies d
    ensures d[..] == ZipSub(old(d[..]), s)
  {
    var len := if d.Length < |s| then d.Length else |s|;
    for k := 0 to len
      invariant forall t | 0 <= t < k :: d[t] == old(d[t]) - s[t]
      invariant forall t | k <= t < d.Length :: d[t] == old(d[t])
    {
      d[k] := d[k] - s[k];
    }
  }

  /** The loop state that a step or a pass returning `r` leaves, with buffer `d` and call record `calls`. */
  ghost function Resumed(d: seq<real>, r: Result<(map<nat, seq<real>>, Option<StlFit>), Error>, calls: seq<Call>): Result<State, Error> {
    match r
    case Err(e) => Err(e)
    case Ok(v) => Ok(State(d, v.0, calls, v.1))
  }

  /**
   * One step of the inner loop: add the held seasonal of `period` back onto
   * `deseas`, fit STL, keep the new seasonal and the fit, and subtract the
   * new seasonal again. An STL failure is returned at once.
   */
  method RefitPeriod(stl: StlFn, deseas: array<real>, seasonals: map<nat, seq<real>>, res: Option<StlFit>,
                     ghost calls: seq<Call>, period: nat, window: nat)
    returns (r: Result<(map<nat, seq<real>>, Option<StlFit>), Error>, ghost calls': seq<Call>)
    requires period in seasonals
    modifies deseas
    ensures Step(stl, State(old(deseas[..]), seasonals, calls, res), period, window) == Resumed(deseas[..], r, calls')
  {
    AddAssign(deseas, seasonals[period]);
    var input := deseas[..];
    var fit := stl(input, period, window);
    calls' := calls;
    if fit.Err? {
      return Err(StlFailure(fit.error)), calls';
    }
    var seas := fit.value.seasonal;
    SubAssign(deseas, seas);
    r := Ok((seasonals[period := seas], Some(fit.value.(seasonal := []))));
    calls' := calls + [Call(input, period, window)];
  }

  /** One outer pass: a step for each period, in order, paired with its window. */
  method RefitPass(stl: StlFn, periods: seq<nat>, windows: seq<nat>, deseas: array<real>,
                   seasonals: map<nat, seq<real>>, res: Option<StlFit>, ghost calls: seq<Call>)
    returns (r: Result<(map<nat, seq<real>>, Option<StlFit>), Error>, ghost calls': seq<Call>)
    requires |periods| == |windows| && forall p | p in periods :: p in seasonals
    modifies deseas
    ensures Pass(stl, State(old(deseas[..]), seasonals, calls, res), periods, windows) == Resumed(deseas[..], r, calls')
  {
    ghost var start := State(deseas[..], seasonals, calls, res);
    var held, last := seasonals, res;
    calls' := calls;
    for j := 0 to |periods|
      invariant Pass(stl, start, periods[..j], windows[..j]) == Ok(State(deseas[..], held, calls', last))
    {
      assert periods[..j + 1][..j] == periods[..j] && windows[..j + 1][..j] == windows[..j];
      assert periods[j] in held;
      var step;
      step, calls' := RefitPeriod(stl, deseas, held, last, calls', periods[j], windows[j]);
      if step.Err? {
        PassFailsFromPrefix(stl, start, periods, windows, j + 1);
        return step, calls';
      }
      held, last := step.value.0, step.value.1;
    }
    assert periods[..|periods|] == periods && windows[..|windows|] == windows;
    r := Ok((held, last));
  }

  /**
   * The body of `fit` after normalisation: the outer loop over passes, then
   * the residuals and the result taken from the last STL fit.
   */
  method Refit(stl: StlFn, y: seq<real>, ps: seq<nat>) returns (r: Result<MstlDecomposition, Error>)
    ensures r == Refitted(y, ps, stl)
  {
    var windows := SeasonalWindows(ps);
    var iterate := OuterIterations(|ps|);
    var seasonals := map p | p in ps :: Zeros(|y|);
    var deseas := new real[|y|](i requires 0 <= i < |y| => y[i]);
    var res: Option<StlFit> := None;
    ghost var calls: seq<Call> := [];
    ghost var start := Start(y, ps);
    assert start == State(deseas[..], seasonals, calls, res);
    for i := 0 to iterate
      invariant seasonals.Keys == start.seasonals.Keys
      invariant Run(stl, start, ps, windows, i) == Ok(State(deseas[..], seasonals, calls, res))
    {
      var pass;
      pass, calls := RefitPass(stl, ps, windows, deseas, seasonals, res, calls);
      if pass.Err? {
        RunFailsFrom(stl, start, ps, windows, i + 1, iterate);
        return Err(pass.error);
      }
      seasonals, res := pass.value.0, pass.value.1;
    }
    if res.None? {
      return Err(MstlFailure(NoFitMessage));
    }
    var fit := res.value;
    var trend := fit.trend;
    SubAssign(deseas, trend);
    r := Ok(MstlDecomposition(trend, seasonals, deseas[..], fit.weights));
  }

  /**
   * An MSTL decomposition of `y`. The caller's period vector is borrowed
   * mutably: running the decomposition leaves it sorted and filtered.
   */
  class Mstl {
    /** The series to decompose. */
    const y: seq<real>
    /** The caller's periods. */
    var periods: seq<nat>
    /** Single-season STL, with the shared smoothing parameters already applied. */
    const stl: StlFn

    constructor (y: seq<real>, periods: seq<nat>, stl: StlFn)
      ensures this.y == y && this.periods == periods && this.stl == stl
    {
      this.y := y;
      this.periods := periods;
      this.stl := stl;
    }

    /**
     * Sorts the periods ascending, rejects an empty list or one whose
     * smallest period is at most 1, and drops every period above half the
     * series length. The periods stay sorted when the list is rejected.
     */
    method ProcessPeriods() returns (r: Result<(), Error>)
      modifies this
      ensures r.Err? <==> old(periods) == [] || exists p :: p in old(periods) && p <= 1
      ensures r.Err? ==> r.error == MstlFailure(NonSeasonalMessage) && periods == Sort(old(periods))
      ensures r.Err? ==> Normalise(old(periods), |y|) == Err(r.error)
      ensures r.Ok? ==> Normalise(old(periods), |y|) == Ok(periods)
      ensures Sorted(periods)
    {
      NormaliseFails(old(periods), |y|);
      periods := Sort(periods);
      if |periods| == 0 || periods[0] <= 1 {
        return Err(MstlFailure(NonSeasonalMessage));
      }
      RetainKeepsOrder(periods, |y| / 2);
      periods := Retain(periods, |y| / 2);
      return Ok(());
    }

    /**
     * Runs MSTL. The result is `Decompose(y, periods, stl)` for the periods
     * as given, and the periods are left as normalisation made them.
     */
    method Fit() returns (r: Result<MstlDecomposition, Error>)
      modifies this
      ensures r == Decompose(y, old(periods), stl)
      ensures Normalise(old(periods), |y|).Ok? ==> periods == Normalise(old(periods), |y|).value
      ensures Normalise(old(periods), |y|).Err? ==> periods == Sort(old(periods))
    {
      var processed := ProcessPeriods();
      if processed.Err? {
        return Err(processed.error);
      }
      r := Refit(stl, y, periods);
    }
  }
}
