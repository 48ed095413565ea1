/**
 * What an MSTL run promises, stated about `Decompose`, which `Mstl.Fit`
 * computes: when it fails and with which error, the shape of its result,
 * the reconstruction identity, which STL fit supplies the trend, and that
 * the order of the caller's periods does not matter.
 */
module MstlProperties {
  import opened Errors
  import opened Stl
  import opened Periods
  import opened Windows
  import opened Decomposition
  import opened Engine
  import opened MstlDriver

  /** The refitting loop fails only with an STL error or with "no STL fit". */
  lemma RefittedErrors(y: seq<real>, ps: seq<nat>, stl: StlFn)
    requires Refitted(y, ps, stl).Err?
    ensures Refitted(y, ps, stl).error.StlFailure? || Refitted(y, ps, stl).error == MstlFailure(NoFitMessage)
  {
    var r := Run(stl, Start(y, ps), ps, SeasonalWindows(ps), OuterIterations(|ps|));
    if r.Err? {
      RunFailure(stl, Start(y, ps), ps, SeasonalWindows(ps), OuterIterations(|ps|));
    }
  }

  /** The refitting loop reports "no STL fit" exactly when no period is left. */
  lemma RefittedNoFit(y: seq<real>, ps: seq<nat>, stl: StlFn)
    ensures Refitted(y, ps, stl) == Err(MstlFailure(NoFitMessage)) <==> ps == []
  {
    var start := Start(y, ps);
    var windows := SeasonalWindows(ps);
    var iterations := OuterIterations(|ps|);
    if ps == [] {
      RunWithoutPeriods(stl, start, iterations);
    } else {
      var r := Run(stl, start, ps, windows, iterations);
      if r.Err? {
        RunFailure(stl, start, ps, windows, iterations);
      } else {
        RunLastFit(stl, start, ps, windows, iterations);
        RunCallOrder(stl, start, ps, windows, iterations);
        assert |r.value.calls| >= 1 by {
          MulMonotone(1, iterations, |ps|);
        }
      }
    }
  }

  /**
   * `fit` fails with "non-seasonal data not supported" exactly when the
   * periods are empty or one of them is at most 1, whatever STL would do:
   * no STL call decides it.
   */
  lemma RejectsNonSeasonal(y: seq<real>, periods: seq<nat>, stl: StlFn)
    ensures Decompose(y, periods, stl) == Err(MstlFailure(NonSeasonalMessage)) <==>
            (periods == [] || exists p :: p in periods && p <= 1)
  {
    NormaliseFails(periods, |y|);
    var n := Normalise(periods, |y|);
    if n.Ok? && Refitted(y, n.value, stl).Err? {
      RefittedErrors(y, n.value, stl);
      MessagesDiffer();
    }
  }

  /**
   * `fit` fails with "no STL fit" exactly when the periods are valid but
   * every one of them is longer than half the series.
   */
  lemma NoFitWhenEveryPeriodTooLong(y: seq<real>, periods: seq<nat>, stl: StlFn)
    ensures Decompose(y, periods, stl) == Err(MstlFailure(NoFitMessage)) <==>
            (periods != [] && forall p | p in periods :: 1 < p && |y| / 2 < p)
  {
    NormaliseFails(periods, |y|);
    var n := Normalise(periods, |y|);
    if n.Err? {
      MessagesDiffer();
    } else {
      NormaliseSucceeds(periods, |y|);
      RefittedNoFit(y, n.value, stl);
      if n.value != [] {
        assert n.value[0] in n.value;
      }
    }
  }

  /** The state the refitting loop ends in, with the loop invariant and the last fit. */
  lemma FinalState(y: seq<real>, ps: seq<nat>, stl: StlFn) returns (s: State)
    requires LengthPreserving(stl)
    requires forall p | p in ps :: p < |y|
    requires Refitted(y, ps, stl).Ok?
    ensures Run(stl, Start(y, ps), ps, SeasonalWindows(ps), OuterIterations(|ps|)) == Ok(s)
    ensures Tracks(y, s, |y|) && LastFitOf(stl, s) && s.last.Some?
    ensures s.seasonals.Keys == set p | p in ps
    ensures |s.last.value.trend| == |y| && |s.last.value.weights| == |y|
    ensures Refitted(y, ps, stl) ==
      Ok(MstlDecomposition(s.last.value.trend, s.seasonals, ZipSub(s.deseas, s.last.value.trend), s.last.value.weights))
  {
    var start := Start(y, ps);
    StartTracks(y, ps, |y|);
    RunTracks(stl, y, start, ps, SeasonalWindows(ps), OuterIterations(|ps|), |y|);
    RunLastFit(stl, start, ps, SeasonalWindows(ps), OuterIterations(|ps|));
    s := Run(stl, start, ps, SeasonalWindows(ps), OuterIterations(|ps|)).value;
    var c := s.calls[|s.calls| - 1];
    assert c in s.calls;
    assert HasLength(stl(c.series, c.period, c.window).value, |y|);
  }

  /** Shape and reconstruction for the refitting loop on normalised periods. */
  lemma RefittedReconstruction(y: seq<real>, ps: seq<nat>, stl: StlFn)
    requires LengthPreserving(stl)
    requires forall p | p in ps :: p < |y|
    requires Refitted(y, ps, stl).Ok?
    ensures Refitted(y, ps, stl).value.seasonal.Keys == set p | p in ps
    ensures Reconstructs(y, Refitted(y, ps, stl).value)
  {
    var s := FinalState(y, ps, stl);
    StateReconstructs(y, s, s.last.value);
  }

  /** The decomposition built from a tracked final state and a last fit of the right length reconstructs `y`. */
  lemma StateReconstructs(y: seq<real>, s: State, fit: StlFit)
    requires Tracks(y, s, |y|)
    requires |fit.trend| == |y| && |fit.weights| == |y|
    ensures Reconstructs(y, MstlDecomposition(fit.trend, s.seasonals, ZipSub(s.deseas, fit.trend), fit.weights))
  {
    var d := MstlDecomposition(fit.trend, s.seasonals, ZipSub(s.deseas, fit.trend), fit.weights);
    forall i | 0 <= i < |y| ensures y[i] == d.trend[i] + SeasonalSum(d.seasonal, i, |y|) + d.residuals[i] {
      ResidualAt(y, s, fit.trend, i);
    }
  }


  /** At one index: the residual is the deseasonalised value minus the trend. */
  lemma ResidualAt(y: seq<real>, s: State, trend: seq<real>, i: nat)
    requires Tracks(y, s, |y|) && |trend| == |y| && i < |y|
    ensures y[i] == trend[i] + SeasonalSum(s.seasonals, i, |y|) + ZipSub(s.deseas, trend)[i]
  {
    assert s.deseas[i] == y[i] - SeasonalSum(s.seasonals, i, |y|);
  }

  /** Every period that survives normalisation is below the series length. */
  lemma NormalisedBelowLength(periods: seq<nat>, n: nat)
    requires Normalise(periods, n).Ok?
    ensures forall p | p in Normalise(periods, n).value :: p < n
  {
    NormaliseSucceeds(periods, n);
  }

  /**
   * On success every sequence of the result has the series' length, and the
   * seasonal map has one key per surviving period: the given periods of at
   * most half the series length.
   */
  lemma ResultShape(y: seq<real>, periods: seq<nat>, stl: StlFn)
    requires LengthPreserving(stl)
    requires Decompose(y, periods, stl).Ok?
    ensures var d := Decompose(y, periods, stl).value;
      && d.HasLength(|y|)
      && forall p :: p in d.seasonal <==> p in periods && p <= |y| / 2
  {
    var ps := Normalise(periods, |y|).value;
    NormaliseSucceeds(periods, |y|);
    NormalisedBelowLength(periods, |y|);
    RefittedReconstruction(y, ps, stl);
  }

  /**
   * The reconstruction identity: on success, for every index, the series is
   * the trend plus the sum of all seasonal components plus the residual.
   * Every period is below |y|, so the sum runs over every seasonal component.
   */
  lemma Reconstruction(y: seq<real>, periods: seq<nat>, stl: StlFn)
    requires LengthPreserving(stl)
    requires Decompose(y, periods, stl).Ok?
    ensures Reconstructs(y, Decompose(y, periods, stl).value)
  {
    var ps := Normalise(periods, |y|).value;
    assert Decompose(y, periods, stl) == Refitted(y, ps, stl);
    NormalisedBelowLength(periods, |y|);
    RefittedReconstruction(y, ps, stl);
  }

  /**
   * `y` is, index by index, trend plus every seasonal component plus residual.
   * Every period held is below `|y|`, so the sum over the periods below `|y|`
   * is the sum over all seasonal components (see `SeasonalSumBeyondKeys`).
   */
  ghost predicate Reconstructs(y: seq<real>, d: MstlDecomposition) {
    && d.HasLength(|y|)
    && (forall p | p in d.seasonal :: p < |y|)
    && forall i | 0 <= i < |y| :: y[i] == d.trend[i] + SeasonalSum(d.seasonal, i, |y|) + d.residuals[i]
  }

  /**
   * The trend and the robust weights of `d` are those of an STL fit for the
   * last period of `ps` with the last seasonal window.
   */
  ghost predicate FromLastFit(stl: StlFn, ps: seq<nat>, d: MstlDecomposition) {
    && ps != []
    && var last, window := ps[|ps| - 1], SeasonalWindows(ps)[|ps| - 1];
      exists series :: stl(series, last, window).Ok? &&
        d.trend == stl(series, last, window).value.trend &&
        d.robustWeights == stl(series, last, window).value.weights
  }

  /** The trend and weights of the refitting loop come from the call for the last period. */
  lemma RefittedLastFit(y: seq<real>, ps: seq<nat>, stl: StlFn)
    requires Refitted(y, ps, stl).Ok?
    ensures FromLastFit(stl, ps, Refitted(y, ps, stl).value)
  {
    RefittedNoFit(y, ps, stl);
    var start := Start(y, ps);
    var windows := SeasonalWindows(ps);
    var iterations := OuterIterations(|ps|);
    RunLastFit(stl, start, ps, windows, iterations);
    RunLastCall(stl, start, ps, windows, iterations);
    var s := Run(stl, start, ps, windows, iterations).value;
    LastFitOfState(stl, ps, s, Refitted(y, ps, stl).value);
  }

  /** A decomposition taking the kept fit of a state whose last call is on the last period. */
  lemma LastFitOfState(stl: StlFn, ps: seq<nat>, s: State, d: MstlDecomposition)
    requires LastFitOf(stl, s) && s.calls != [] && ps != []
    requires s.calls[|s.calls| - 1].period == ps[|ps| - 1]
    requires s.calls[|s.calls| - 1].window == SeasonalWindows(ps)[|ps| - 1]
    requires d.trend == s.last.value.trend && d.robustWeights == s.last.value.weights
    ensures FromLastFit(stl, ps, d)
  {
    var c := s.calls[|s.calls| - 1];
    assert stl(c.series, ps[|ps| - 1], SeasonalWindows(ps)[|ps| - 1]).Ok?;
  }

  /**
   * "Last fit wins": on success the trend and the robust weights are those of
   * an STL fit for the last, and largest, surviving period with the last
   * seasonal window.
   */
  lemma LastFitWins(y: seq<real>, periods: seq<nat>, stl: StlFn)
    requires Decompose(y, periods, stl).Ok?
    ensures Normalise(periods, |y|).Ok?
    ensures var ps := Normalise(periods, |y|).value;
      && FromLastFit(stl, ps, Decompose(y, periods, stl).value)
      && forall p | p in periods && p <= |y| / 2 :: p <= ps[|ps| - 1]
  {
    var ps := Normalise(periods, |y|).value;
    assert Decompose(y, periods, stl) == Refitted(y, ps, stl);
    RefittedLastFit(y, ps, stl);
    NormalisedLastIsLargest(periods, |y|);
  }

  /** The last normalised period is the largest given period of at most half the length. */
  lemma NormalisedLastIsLargest(periods: seq<nat>, n: nat)
    requires Normalise(periods, n).Ok? && Normalise(periods, n).value != []
    ensures var ps := Normalise(periods, n).value;
      forall p | p in periods && p <= n / 2 :: p <= ps[|ps| - 1]
  {
    var ps := Normalise(periods, n).value;
    NormaliseSucceeds(periods, n);
    forall p | p in periods && p <= n / 2 ensures p <= ps[|ps| - 1] {
      assert p in ps;
      var k :| 0 <= k < |ps| && ps[k] == p;
      assert k == |ps| - 1 || ps[k] <= ps[|ps| - 1];
    }
  }

  /**
   * Each period's seasonal component is the seasonal STL returned for that
   * period with its own seasonal window; where a period appears more than
   * once, its last position's window.
   */
  ghost predicate SeasonalsFromStl(stl: StlFn, ps: seq<nat>, d: MstlDecomposition) {
    forall j | 0 <= j < |ps| && LastOccurrence(ps, j) ::
      && ps[j] in d.seasonal
      && exists series :: stl(series, ps[j], SeasonalWindows(ps)[j]).Ok? &&
           d.seasonal[ps[j]] == stl(series, ps[j], SeasonalWindows(ps)[j]).value.seasonal
  }

  /** The seasonals of the refitting loop are those STL returned in its last pass. */
  lemma RefittedSeasonals(y: seq<real>, ps: seq<nat>, stl: StlFn)
    requires Refitted(y, ps, stl).Ok?
    ensures SeasonalsFromStl(stl, ps, Refitted(y, ps, stl).value)
  {
    var start := Start(y, ps);
    var windows := SeasonalWindows(ps);
    var iterations := OuterIterations(|ps|);
    StartHeldFits(stl, y, ps);
    RunStep(stl, start, ps, windows, iterations);
    var s' := Run(stl, start, ps, windows, iterations - 1).value;
    RunHeldFits(stl, start, ps, windows, iterations - 1, |y|);
    PassFromStl(stl, ps, s', Refitted(y, ps, stl).value, |y|);
  }

  /** A decomposition holding the seasonals of a successful last pass from a state satisfying `HeldFits`. */
  lemma PassFromStl(stl: StlFn, ps: seq<nat>, s: State, d: MstlDecomposition, n: nat)
    requires Covers(s, ps) && HeldFits(stl, s, n)
    requires Pass(stl, s, ps, SeasonalWindows(ps)).Ok?
    requires d.seasonal == Pass(stl, s, ps, SeasonalWindows(ps)).value.seasonals
    ensures SeasonalsFromStl(stl, ps, d)
  {
    var windows := SeasonalWindows(ps);
    PassSeasonals(stl, s, ps, windows, n);
    PassCallOrder(stl, s, ps, windows);
    LastPassSeasonals(stl, Pass(stl, s, ps, windows).value, |s.calls|, ps, windows);
  }

  /** The seasonals held after a pass whose calls were made with `ps` and `windows`. */
  lemma LastPassSeasonals(stl: StlFn, r: State, base: nat, ps: seq<nat>, windows: seq<nat>)
    requires base <= |r.calls| && windows == SeasonalWindows(ps)
    requires CallPeriods(r.calls[base..]) == ps && CallWindows(r.calls[base..]) == windows
    requires forall j | 0 <= j < |ps| && LastOccurrence(ps, j) :: SeasonalOf(stl, r.seasonals, r.calls[base + j])
    ensures forall j | 0 <= j < |ps| && LastOccurrence(ps, j) ::
      && ps[j] in r.seasonals
      && exists series :: stl(series, ps[j], windows[j]).Ok? &&
           r.seasonals[ps[j]] == stl(series, ps[j], windows[j]).value.seasonal
  {
    var tail := r.calls[base..];
    forall j | 0 <= j < |ps| && LastOccurrence(ps, j)
      ensures && ps[j] in r.seasonals
              && exists series :: stl(series, ps[j], windows[j]).Ok? &&
                   r.seasonals[ps[j]] == stl(series, ps[j], windows[j]).value.seasonal
    {
      var c := r.calls[base + j];
      assert c == tail[j] && CallPeriods(tail)[j] == ps[j] && CallWindows(tail)[j] == windows[j];
      assert SeasonalOf(stl, r.seasonals, c);
    }
  }

  /**
   * On success, the seasonal component of each surviving period is the
   * seasonal of the STL fit for that period, with that period's window, and
   * there is one component per surviving period.
   */
  lemma SeasonalsFromLastPass(y: seq<real>, periods: seq<nat>, stl: StlFn)
    requires Decompose(y, periods, stl).Ok?
    ensures Normalise(periods, |y|).Ok?
    ensures var ps := Normalise(periods, |y|).value;
      && Decompose(y, periods, stl).value.seasonal.Keys == set p | p in ps
      && SeasonalsFromStl(stl, ps, Decompose(y, periods, stl).value)
  {
    var ps := Normalise(periods, |y|).value;
    assert Decompose(y, periods, stl) == Refitted(y, ps, stl);
    RefittedKeys(y, ps, stl);
    RefittedSeasonals(y, ps, stl);
  }

  /** An STL failure ends the run with that very error, from a call on a surviving period. */
  lemma StlFailurePropagates(y: seq<real>, periods: seq<nat>, stl: StlFn, e: StlError)
    requires Decompose(y, periods, stl) == Err(StlFailure(e))
    ensures exists series, p, w :: p in periods && p <= |y| / 2 && stl(series, p, w) == Err(e)
  {
    var n := Normalise(periods, |y|);
    NormaliseFails(periods, |y|);
    var ps := n.value;
    NormaliseSucceeds(periods, |y|);
    var windows := SeasonalWindows(ps);
    RunFailure(stl, Start(y, ps), ps, windows, OuterIterations(|ps|));
    var series, j :| 0 <= j < |ps| && stl(series, ps[j], windows[j]).Err? &&
      StlFailure(e) == StlFailure(stl(series, ps[j], windows[j]).error);
    assert ps[j] in ps;
    assert stl(series, ps[j], windows[j]) == Err(e);
  }

  /**
   * With valid periods, at least one of them at most half the series length,
   * and an STL primitive that does not fail, `fit` succeeds.
   */
  lemma SucceedsWhenStlDoes(y: seq<real>, periods: seq<nat>, stl: StlFn)
    requires NeverFails(stl)
    requires periods != [] && forall p | p in periods :: 1 < p
    requires exists p :: p in periods && p <= |y| / 2
    ensures Decompose(y, periods, stl).Ok?
  {
    NormaliseFails(periods, |y|);
    var ps := Normalise(periods, |y|).value;
    NormaliseSucceeds(periods, |y|);
    var p :| p in periods && p <= |y| / 2;
    assert p in ps;
    RunSucceeds(stl, Start(y, ps), ps, SeasonalWindows(ps), OuterIterations(|ps|));
    RefittedNoFit(y, ps, stl);
  }

  /** Giving the same periods in another order gives the same result. */
  lemma {:induction false} OrderIndependent(y: seq<real>, a: seq<nat>, b: seq<nat>, stl: StlFn)
    requires multiset(a) == multiset(b)
    ensures Decompose(y, a, stl) == Decompose(y, b, stl)
  {
    NormaliseIgnoresOrder(a, b, |y|);
  }

  /**
   * With a single surviving period the loop runs one pass and makes one STL
   * call, on that period with window 11.
   */
  lemma SinglePeriodCalls(y: seq<real>, stl: StlFn, p: nat)
    ensures OuterIterations(|[p]|) == 1
    ensures var r := Run(stl, Start(y, [p]), [p], SeasonalWindows([p]), OuterIterations(|[p]|));
      r.Ok? ==> |r.value.calls| == 1 && r.value.calls[0].period == p && r.value.calls[0].window == 11
  {
    var start := Start(y, [p]);
    var r := Run(stl, start, [p], SeasonalWindows([p]), 1);
    if r.Ok? {
      RunCallOrder(stl, start, [p], SeasonalWindows([p]), 1);
      assert PassCalls(r.value.calls, 0, 1, 0) == r.value.calls;
      assert CallPeriods(r.value.calls)[0] == p;
      assert CallWindows(r.value.calls)[0] == 11;
    }
  }

  /** With a single surviving period the seasonal map has exactly that one key. */
  lemma SinglePeriodKeys(y: seq<real>, periods: seq<nat>, stl: StlFn, p: nat)
    requires Normalise(periods, |y|) == Ok([p])
    ensures Decompose(y, periods, stl).Ok? ==> Decompose(y, periods, stl).value.seasonal.Keys == {p}
  {
    if Decompose(y, periods, stl).Ok? {
      assert Decompose(y, periods, stl) == Refitted(y, [p], stl);
      RefittedKeys(y, [p], stl);
      assert (set q | q in [p]) == {p};
    }
  }

  /** On success the seasonal map has one key per normalised period. */
  lemma RefittedKeys(y: seq<real>, ps: seq<nat>, stl: StlFn)
    requires Refitted(y, ps, stl).Ok?
    ensures Refitted(y, ps, stl).value.seasonal.Keys == set p | p in ps
  {
    var r := Run(stl, Start(y, ps), ps, SeasonalWindows(ps), OuterIterations(|ps|));
    assert Refitted(y, ps, stl).value.seasonal == r.value.seasonals;
  }

  /**
   * The configuration of the comparison with R: hourly and weekly periods on
   * a series of at least two weeks keep both periods, in that order, with
   * windows 11 and 15, two passes, and one seasonal component per period.
   */
  lemma HourlyAndWeekly(y: seq<real>, stl: StlFn)
    requires |y| >= 2 * 168
    ensures Normalise([24, 24 * 7], |y|) == Ok([24, 168])
    ensures SeasonalWindows([24, 168]) == [11, 15] && OuterIterations(2) == 2
    ensures Decompose(y, [24, 24 * 7], stl).Ok? ==> Decompose(y, [24, 24 * 7], stl).value.seasonal.Keys == {24, 168}
  {
    HourlyAndWeeklyPeriods(|y|);
    if Decompose(y, [24, 24 * 7], stl).Ok? {
      assert Decompose(y, [24, 24 * 7], stl) == Refitted(y, [24, 168], stl);
      RefittedKeys(y, [24, 168], stl);
      PairSet(24, 168);
    }
  }

  /** Normalising the hourly and weekly periods for at least two weeks of data keeps both. */
  lemma HourlyAndWeeklyPeriods(n: nat)
    requires n >= 2 * 168
    ensures Normalise([24, 24 * 7], n) == Ok([24, 168])
  {
    var half := n / 2;
    assert Sort([168]) == [168];
    assert Sort([24, 168]) == [24, 168];
    assert Retain([], half) == [];
    assert Retain([168], half) == [168];
    assert Retain([24, 168], half) == [24, 168];
  }

  /** The set of the elements of a two-element sequence. */
  lemma PairSet(a: nat, b: nat)
    ensures (set q | q in [a, b]) == {a, b}
  {
    assert [a, b][0] == a && [a, b][1] == b;
  }
}
