/**
 * The refitting loop of MSTL as a function of its inputs. For each period in
 * turn, the held seasonal estimate is added back onto the working
 * deseasonalised series, STL is called, the new seasonal estimate replaces
 * the held one and is subtracted again. `State` is the loop's working state;
 * `calls` records every STL call made so far.
 */
module Engine {
  import opened Errors
  import opened Stl

  /** Element-wise `a += b` over `a.iter_mut().zip(b.iter())`: only the common prefix changes. */
  function ZipAdd(a: seq<real>, b: seq<real>): seq<real> {
    seq(|a|, i requires 0 <= i < |a| => if i < |b| then a[i] + b[i] else a[i])
  }

  /** Element-wise `a -= b` over `a.iter_mut().zip(b.iter())`. */
  function ZipSub(a: seq<real>, b: seq<real>): seq<real> {
    seq(|a|, i requires 0 <= i < |a| => if i < |b| then a[i] - b[i] else a[i])
  }

  function Zeros(n: nat): seq<real> {
    seq(n, _ => 0.0)
  }

  /** One call of the STL primitive: its input series, period and seasonal window. */
  datatype Call = Call(series: seq<real>, period: nat, window: nat)

  datatype State = State(
    deseas: seq<real>,
    seasonals: map<nat, seq<real>>,
    calls: seq<Call>,
    last: Option<StlFit>)

  /** The state before the loop: `deseas` is the series, every seasonal is zero. */
  function Start(y: seq<real>, periods: seq<nat>): State {
    State(y, map p | p in periods :: Zeros(|y|), [], None)
  }

  /** The series STL is given for `period`: the working series with that period's held seasonal added back. */
  function StepInput(s: State, period: nat): seq<real>
    requires period in s.seasonals
  {
    ZipAdd(s.deseas, s.seasonals[period])
  }

  /**
   * Refits the seasonal component of one period: it fails exactly when STL
   * fails, with that error; otherwise the period's held seasonal becomes
   * STL's seasonal, every other one is kept, the working series is STL's
   * input minus the new seasonal, the call is recorded and the fit is kept
   * with its seasonal moved out.
   */
  function Step(stl: StlFn, s: State, period: nat, window: nat): (r: Result<State, Error>)
    requires period in s.seasonals
    ensures r.Ok? <==> stl(StepInput(s, period), period, window).Ok?
    ensures r.Err? ==> r.error == StlFailure(stl(StepInput(s, period), period, window).error)
    ensures r.Ok? ==> r.value.seasonals.Keys == s.seasonals.Keys
    ensures r.Ok? ==> r.value.seasonals[period] == stl(StepInput(s, period), period, window).value.seasonal
    ensures r.Ok? ==> forall p | p in s.seasonals && p != period :: r.value.seasonals[p] == s.seasonals[p]
    ensures r.Ok? ==> r.value.deseas == ZipSub(StepInput(s, period), stl(StepInput(s, period), period, window).value.seasonal)
    ensures r.Ok? ==> r.value.calls == s.calls + [Call(StepInput(s, period), period, window)]
    ensures r.Ok? ==> r.value.last == Some(stl(StepInput(s, period), period, window).value.(seasonal := []))
  {
    var input := StepInput(s, period);
    match stl(input, period, window)
    case Err(e) => Err(StlFailure(e))
    case Ok(fit) =>
      Ok(State(ZipSub(input, fit.seasonal),
               s.seasonals[period := fit.seasonal],
               s.calls + [Call(input, period, window)],
               Some(fit.(seasonal := []))))
  }

  ghost predicate Covers(s: State, periods: seq<nat>) {
    forall p | p in periods :: p in s.seasonals
  }

  /** One pass over `periods`, paired with `windows`, stopping at the first STL failure. */
  function Pass(stl: StlFn, s: State, periods: seq<nat>, windows: seq<nat>): (r: Result<State, Error>)
    requires |periods| == |windows| && Covers(s, periods)
    ensures r.Ok? ==> r.value.seasonals.Keys == s.seasonals.Keys
    ensures r.Ok? ==> |r.value.calls| == |s.calls| + |periods| && r.value.calls[..|s.calls|] == s.calls
    decreases |periods|
  {
    if periods == [] then Ok(s)
    else
      var k := |periods| - 1;
      match Pass(stl, s, periods[..k], windows[..k])
      case Err(e) => Err(e)
      case Ok(s') => Step(stl, s', periods[k], windows[k])
  }

  /** `iterations` passes over `periods`. */
  function Run(stl: StlFn, s: State, periods: seq<nat>, windows: seq<nat>, iterations: nat): (r: Result<State, Error>)
    requires |periods| == |windows| && Covers(s, periods)
    ensures r.Ok? ==> r.value.seasonals.Keys == s.seasonals.Keys
    ensures r.Ok? ==> |r.value.calls| == |s.calls| + iterations * |periods|
    ensures r.Ok? ==> r.value.calls[..|s.calls|] == s.calls
    decreases iterations
  {
    if iterations == 0 then Ok(s)
    else
      match Run(stl, s, periods, windows, iterations - 1)
      case Err(e) => Err(e)
      case Ok(s') =>
        assert (iterations - 1) * |periods| + |periods| == iterations * |periods|;
        Pass(stl, s', periods, windows)
  }

  /** A successful run of `iterations > 0` passes is a successful run of one pass fewer, then one pass. */
  lemma RunStep(stl: StlFn, s: State, periods: seq<nat>, windows: seq<nat>, iterations: nat)
    requires |periods| == |windows| && Covers(s, periods) && iterations > 0
    requires Run(stl, s, periods, windows, iterations).Ok?
    ensures Run(stl, s, periods, windows, iterations - 1).Ok?
    ensures Covers(Run(stl, s, periods, windows, iterations - 1).value, periods)
    ensures Run(stl, s, periods, windows, iterations) == Pass(stl, Run(stl, s, periods, windows, iterations - 1).value, periods, windows)
  {
  }

  // ---------------------------------------------------------------------
  // The deseasonalised series is the series minus every held seasonal.

  /** The sum over the held seasonals of periods below `bound`, at index `i`. */
  function SeasonalSum(m: map<nat, seq<real>>, i: nat, bound: nat): real
    decreases bound
  {
    if bound == 0 then 0.0
    else
      var p := bound - 1;
      SeasonalSum(m, i, p) + (if p in m && i < |m[p]| then m[p][i] else 0.0)
  }

  /** Once every held period is below `bound`, raising the bound adds nothing to the sum. */
  lemma {:induction false} SeasonalSumBeyondKeys(m: map<nat, seq<real>>, i: nat, bound: nat, bound': nat)
    requires forall p | p in m :: p < bound
    requires bound <= bound'
    ensures SeasonalSum(m, i, bound') == SeasonalSum(m, i, bound)
    decreases bound'
  {
    if bound' > bound {
      SeasonalSumBeyondKeys(m, i, bound, bound' - 1);
      assert bound' - 1 !in m;
    }
  }

  lemma {:induction false} SeasonalSumAbove(m: map<nat, seq<real>>, k: nat, v: seq<real>, i: nat, bound: nat)
    requires bound <= k
    ensures SeasonalSum(m[k := v], i, bound) == SeasonalSum(m, i, bound)
    decreases bound
  {
    if bound > 0 {
      SeasonalSumAbove(m, k, v, i, bound - 1);
    }
  }

  /** Replacing one held seasonal changes the sum by the difference of the two. */
  lemma {:induction false} SeasonalSumUpdate(m: map<nat, seq<real>>, k: nat, v: seq<real>, i: nat, bound: nat)
    requires k in m && k < bound && i < |m[k]| && i < |v|
    ensures SeasonalSum(m[k := v], i, bound) == SeasonalSum(m, i, bound) - m[k][i] + v[i]
    decreases bound
  {
    if k == bound - 1 {
      SeasonalSumAbove(m, k, v, i, bound - 1);
    } else {
      SeasonalSumUpdate(m, k, v, i, bound - 1);
    }
  }

  /** Held seasonals that are all zero sum to zero. */
  lemma {:induction false} SeasonalSumZero(m: map<nat, seq<real>>, i: nat, bound: nat)
    requires forall p | p in m :: forall t | 0 <= t < |m[p]| :: m[p][t] == 0.0
    ensures SeasonalSum(m, i, bound) == 0.0
    decreases bound
  {
    if bound > 0 {
      SeasonalSumZero(m, i, bound - 1);
    }
  }

  /**
   * The loop invariant: every held seasonal and every series given to STL
   * has the series' length, every period is below `bound`, and
   * `deseas[i] == y[i] - sum of seasonals[p][i]`.
   */
  ghost predicate Tracks(y: seq<real>, s: State, bound: nat) {
    && |s.deseas| == |y|
    && (forall c | c in s.calls :: |c.series| == |y|)
    && (forall p | p in s.seasonals :: p < bound && |s.seasonals[p]| == |y|)
    && forall i | 0 <= i < |y| :: s.deseas[i] == y[i] - SeasonalSum(s.seasonals, i, bound)
  }

  lemma StartTracks(y: seq<real>, periods: seq<nat>, bound: nat)
    requires forall p | p in periods :: p < bound
    ensures Tracks(y, Start(y, periods), bound)
  {
    var s := Start(y, periods);
    forall i | 0 <= i < |y| ensures s.deseas[i] == y[i] - SeasonalSum(s.seasonals, i, bound) {
      SeasonalSumZero(s.seasonals, i, bound);
    }
  }

  /** Adding the held seasonal back and subtracting the new one keeps the invariant. */
  lemma StepTracks(stl: StlFn, y: seq<real>, s: State, period: nat, window: nat, bound: nat)
    requires LengthPreserving(stl) && Tracks(y, s, bound) && period in s.seasonals
    ensures Step(stl, s, period, window).Ok? ==> Tracks(y, Step(stl, s, period, window).value, bound)
  {
    var input := ZipAdd(s.deseas, s.seasonals[period]);
    var r := stl(input, period, window);
    if r.Ok? {
      var fit := r.value;
      assert HasLength(fit, |input|);
      var s' := Step(stl, s, period, window).value;
      forall i | 0 <= i < |y| ensures s'.deseas[i] == y[i] - SeasonalSum(s'.seasonals, i, bound) {
        SeasonalSumUpdate(s.seasonals, period, fit.seasonal, i, bound);
      }
    }
  }

  lemma {:induction false} PassTracks(stl: StlFn, y: seq<real>, s: State, periods: seq<nat>, windows: seq<nat>, bound: nat)
    requires LengthPreserving(stl) && Tracks(y, s, bound)
    requires |periods| == |windows| && Covers(s, periods)
    ensures Pass(stl, s, periods, windows).Ok? ==> Tracks(y, Pass(stl, s, periods, windows).value, bound)
    decreases |periods|
  {
    if periods != [] {
      var k := |periods| - 1;
      PassTracks(stl, y, s, periods[..k], windows[..k], bound);
      var r := Pass(stl, s, periods[..k], windows[..k]);
      if r.Ok? {
        StepTracks(stl, y, r.value, periods[k], windows[k], bound);
      }
    }
  }

  lemma {:induction false} RunTracks(stl: StlFn, y: seq<real>, s: State, periods: seq<nat>, windows: seq<nat>, iterations: nat, bound: nat)
    requires LengthPreserving(stl) && Tracks(y, s, bound)
    requires |periods| == |windows| && Covers(s, periods)
    ensures Run(stl, s, periods, windows, iterations).Ok? ==> Tracks(y, Run(stl, s, periods, windows, iterations).value, bound)
    decreases iterations
  {
    if iterations > 0 {
      RunTracks(stl, y, s, periods, windows, iterations - 1, bound);
      var r := Run(stl, s, periods, windows, iterations - 1);
      if r.Ok? {
        PassTracks(stl, y, r.value, periods, windows, bound);
      }
    }
  }

  // ---------------------------------------------------------------------
  // Order of the STL calls, and which fit is kept as the last one.

  /** The periods and the windows of a sequence of calls, in call order. */
  function CallPeriods(calls: seq<Call>): seq<nat> {
    seq(|calls|, k requires 0 <= k < |calls| => calls[k].period)
  }

  function CallWindows(calls: seq<Call>): seq<nat> {
    seq(|calls|, k requires 0 <= k < |calls| => calls[k].window)
  }

  /** The calls made by pass `i`, when each pass makes `m` calls after the first `base`. */
  function PassCalls(calls: seq<Call>, base: nat, m: nat, i: nat): seq<Call> {
    if base + (i + 1) * m <= |calls| then calls[base + i * m .. base + (i + 1) * m] else []
  }

  /** A pass calls STL once per period, on `periods[j]` with `windows[j]`, in that order. */
  lemma {:induction false} PassCallOrder(stl: StlFn, s: State, periods: seq<nat>, windows: seq<nat>)
    requires |periods| == |windows| && Covers(s, periods)
    requires Pass(stl, s, periods, windows).Ok?
    ensures var c := Pass(stl, s, periods, windows).value.calls;
      CallPeriods(c[|s.calls|..]) == periods && CallWindows(c[|s.calls|..]) == windows
    decreases |periods|
  {
    if periods != [] {
      var k := |periods| - 1;
      PassStep(stl, s, periods, windows);
      var s' := Pass(stl, s, periods[..k], windows[..k]).value;
      PassCallOrder(stl, s, periods[..k], windows[..k]);
      var x := Call(ZipAdd(s'.deseas, s'.seasonals[periods[k]]), periods[k], windows[k]);
      var c := Pass(stl, s, periods, windows).value.calls;
      assert c == s'.calls + [x];
      var t := s'.calls[|s.calls|..];
      DropAppend(s'.calls, |s.calls|, x);
      CallsAppend(t, x);
      assert periods == periods[..k] + [periods[k]];
      assert windows == windows[..k] + [windows[k]];
      assert CallPeriods(c[|s.calls|..]) == CallPeriods(t) + [periods[k]];
      assert CallWindows(c[|s.calls|..]) == CallWindows(t) + [windows[k]];
    }
  }

  /** A successful pass over non-empty periods is a pass over all but the last, then one step. */
  lemma PassStep(stl: StlFn, s: State, periods: seq<nat>, windows: seq<nat>)
    requires |periods| == |windows| && Covers(s, periods) && periods != []
    requires Pass(stl, s, periods, windows).Ok?
    ensures Covers(s, periods[..|periods| - 1])
    ensures Pass(stl, s, periods[..|periods| - 1], windows[..|periods| - 1]).Ok?
    ensures periods[|periods| - 1] in Pass(stl, s, periods[..|periods| - 1], windows[..|periods| - 1]).value.seasonals
    ensures Pass(stl, s, periods, windows) ==
      Step(stl, Pass(stl, s, periods[..|periods| - 1], windows[..|periods| - 1]).value, periods[|periods| - 1], windows[|periods| - 1])
  {
    var k := |periods| - 1;
    forall p | p in periods[..k] ensures p in s.seasonals {
      assert p in periods;
    }
  }

  /** Dropping a prefix of `a` commutes with appending `x`. */
  lemma DropAppend(a: seq<Call>, n: nat, x: Call)
    requires n <= |a|
    ensures (a + [x])[n..] == a[n..] + [x]
  {
  }

  lemma CallsAppend(calls: seq<Call>, x: Call)
    ensures CallPeriods(calls + [x]) == CallPeriods(calls) + [x.period]
    ensures CallWindows(calls + [x]) == CallWindows(calls) + [x.window]
  {
  }

  /** Each of the first `n` passes after `base` called STL on `periods` with `windows`, in order. */
  ghost predicate InPassOrder(c: seq<Call>, base: nat, n: nat, periods: seq<nat>, windows: seq<nat>) {
    forall i | 0 <= i < n ::
      CallPeriods(PassCalls(c, base, |periods|, i)) == periods && CallWindows(PassCalls(c, base, |periods|, i)) == windows
  }

  /**
   * A run of `iterations` passes makes `iterations * |periods|` calls, and
   * pass `i` calls STL on the periods and windows in their given order.
   */
  lemma {:induction false} RunCallOrder(stl: StlFn, s: State, periods: seq<nat>, windows: seq<nat>, iterations: nat)
    requires |periods| == |windows| && Covers(s, periods)
    requires Run(stl, s, periods, windows, iterations).Ok?
    ensures InPassOrder(Run(stl, s, periods, windows, iterations).value.calls, |s.calls|, iterations, periods, windows)
    decreases iterations
  {
    if iterations > 0 {
      RunStep(stl, s, periods, windows, iterations);
      var s' := Run(stl, s, periods, windows, iterations - 1).value;
      assert InPassOrder(s'.calls, |s.calls|, iterations - 1, periods, windows) by {
        RunCallOrder(stl, s, periods, windows, iterations - 1);
      }
      PassCallOrder(stl, s', periods, windows);
      var c := Pass(stl, s', periods, windows).value.calls;
      ExtendByPass(s'.calls, c, |s.calls|, iterations, periods, windows);
    }
  }

  /** Appending one more pass of calls to `n - 1` recorded passes gives `n` recorded passes. */
  lemma ExtendByPass(d: seq<Call>, c: seq<Call>, base: nat, n: nat, periods: seq<nat>, windows: seq<nat>)
    requires n > 0
    requires |d| == base + (n - 1) * |periods| && |c| == |d| + |periods| && c[..|d|] == d
    requires InPassOrder(d, base, n - 1, periods, windows)
    requires CallPeriods(c[|d|..]) == periods && CallWindows(c[|d|..]) == windows
    ensures |c| == base + n * |periods|
    ensures InPassOrder(c, base, n, periods, windows)
  {
    var m := |periods|;
    assert n * m == (n - 1) * m + m;
    forall i | 0 <= i < n
      ensures CallPeriods(PassCalls(c, base, m, i)) == periods
      ensures CallWindows(PassCalls(c, base, m, i)) == windows
    {
      if i < n - 1 {
        MulMonotone(i + 1, n - 1, m);
        PassCallsOfPrefix(c, d, base, m, i);
      } else {
        assert PassCalls(c, base, m, i) == c[|d|..];
      }
    }
  }

  lemma MulMonotone(a: nat, b: nat, m: nat)
    requires a <= b
    ensures a * m <= b * m
  {
  }

  /** Passes that end within a prefix of the calls read the same in the prefix. */
  lemma PassCallsOfPrefix(c: seq<Call>, d: seq<Call>, base: nat, m: nat, i: nat)
    requires |d| <= |c| && c[..|d|] == d
    requires base + (i + 1) * m <= |d|
    ensures PassCalls(c, base, m, i) == PassCalls(d, base, m, i)
  {
    MulMonotone(i, i + 1, m);
    SliceOfPrefix(c, d, base + i * m, base + (i + 1) * m);
  }

  /** A slice that ends within a prefix of `c` is the same slice of that prefix. */
  lemma SliceOfPrefix(c: seq<Call>, d: seq<Call>, lo: nat, hi: nat)
    requires lo <= hi <= |d| <= |c| && c[..|d|] == d
    ensures c[lo..hi] == d[lo..hi]
  {
    forall k | lo <= k < hi ensures c[k] == d[k] {
      assert c[..|d|][k] == c[k];
    }
  }


  /** A run of at least one pass over some periods ends with the call for the last period. */
  lemma RunLastCall(stl: StlFn, s: State, periods: seq<nat>, windows: seq<nat>, iterations: nat)
    requires |periods| == |windows| && Covers(s, periods) && periods != [] && iterations > 0
    requires Run(stl, s, periods, windows, iterations).Ok?
    ensures var c := Run(stl, s, periods, windows, iterations).value.calls;
      c != [] && c[|c| - 1].period == periods[|periods| - 1] && c[|c| - 1].window == windows[|windows| - 1]
  {
    var s' := Run(stl, s, periods, windows, iterations - 1).value;
    assert Run(stl, s, periods, windows, iterations) == Pass(stl, s', periods, windows);
    PassCallOrder(stl, s', periods, windows);
    var c := Pass(stl, s', periods, windows).value.calls;
    var tail := c[|s'.calls|..];
    assert tail[|tail| - 1] == c[|c| - 1];
    assert CallPeriods(tail)[|tail| - 1] == periods[|periods| - 1];
    assert CallWindows(tail)[|tail| - 1] == windows[|windows| - 1];
  }

  /** `last` holds the fit of the most recent call, with its seasonal moved out of it. */
  ghost predicate LastFitOf(stl: StlFn, s: State) {
    && (s.last.Some? <==> s.calls != [])
    && (s.calls != [] ==>
          var c := s.calls[|s.calls| - 1];
          stl(c.series, c.period, c.window).Ok? && s.last.value == stl(c.series, c.period, c.window).value.(seasonal := []))
  }

  lemma {:induction false} PassLastFit(stl: StlFn, s: State, periods: seq<nat>, windows: seq<nat>)
    requires |periods| == |windows| && Covers(s, periods) && LastFitOf(stl, s)
    ensures Pass(stl, s, periods, windows).Ok? ==> LastFitOf(stl, Pass(stl, s, periods, windows).value)
    decreases |periods|
  {
    if periods != [] {
      var k := |periods| - 1;
      PassLastFit(stl, s, periods[..k], windows[..k]);
    }
  }

  /** The kept fit is that of the last call, and after a non-empty run there is one. */
  lemma {:induction false} RunLastFit(stl: StlFn, s: State, periods: seq<nat>, windows: seq<nat>, iterations: nat)
    requires |periods| == |windows| && Covers(s, periods) && LastFitOf(stl, s)
    ensures Run(stl, s, periods, windows, iterations).Ok? ==> LastFitOf(stl, Run(stl, s, periods, windows, iterations).value)
    decreases iterations
  {
    if iterations > 0 {
      RunLastFit(stl, s, periods, windows, iterations - 1);
      var r := Run(stl, s, periods, windows, iterations - 1);
      if r.Ok? {
        PassLastFit(stl, r.value, periods, windows);
      }
    }
  }

  // ---------------------------------------------------------------------
  // Which STL output each held seasonal is.

  /** The index of the most recent call on `period`, if there is one. */
  function LatestCall(calls: seq<Call>, period: nat): (r: Option<nat>)
    ensures r.Some? ==> r.value < |calls| && calls[r.value].period == period
    ensures r.Some? ==> forall k | r.value < k < |calls| :: calls[k].period != period
    ensures r.None? ==> forall k | 0 <= k < |calls| :: calls[k].period != period
    decreases |calls|
  {
    if calls == [] then None
    else if calls[|calls| - 1].period == period then Some(|calls| - 1)
    else
      var r := LatestCall(calls[..|calls| - 1], period);
      assert forall k | 0 <= k < |calls| - 1 :: calls[..|calls| - 1][k] == calls[k];
      r
  }

  /** A call on `period` with no later call on it is the most recent one. */
  lemma LatestCallIs(calls: seq<Call>, period: nat, j: nat)
    requires j < |calls| && calls[j].period == period
    requires forall k | j < k < |calls| :: calls[k].period != period
    ensures LatestCall(calls, period) == Some(j)
  {
    var r := LatestCall(calls, period);
    if r.None? || r.value < j {
      assert false;
    } else if r.value > j {
      assert false;
    }
  }

  /** Recording one more call changes the most recent call of its period only. */
  lemma LatestCallAppend(calls: seq<Call>, c: Call, period: nat)
    ensures LatestCall(calls + [c], period) == if c.period == period then Some(|calls|) else LatestCall(calls, period)
  {
    assert (calls + [c])[..|calls|] == calls;
  }

  /**
   * The seasonal held for `period` is the seasonal STL returned on the most
   * recent call on that period, or zeros of length `n` if there was none.
   */
  ghost predicate HeldFit(stl: StlFn, calls: seq<Call>, period: nat, n: nat, held: seq<real>) {
    match LatestCall(calls, period)
    case None => held == Zeros(n)
    case Some(k) =>
      stl(calls[k].series, period, calls[k].window).Ok? &&
      held == stl(calls[k].series, period, calls[k].window).value.seasonal
  }

  ghost predicate HeldFits(stl: StlFn, s: State, n: nat) {
    forall p | p in s.seasonals :: HeldFit(stl, s.calls, p, n, s.seasonals[p])
  }

  lemma StartHeldFits(stl: StlFn, y: seq<real>, periods: seq<nat>)
    ensures HeldFits(stl, Start(y, periods), |y|)
  {
  }

  /** A step keeps every held seasonal equal to STL's output of the latest call on its period. */
  lemma StepHeldFits(stl: StlFn, s: State, period: nat, window: nat, n: nat)
    requires HeldFits(stl, s, n) && period in s.seasonals
    ensures Step(stl, s, period, window).Ok? ==> HeldFits(stl, Step(stl, s, period, window).value, n)
  {
    if Step(stl, s, period, window).Ok? {
      var s' := Step(stl, s, period, window).value;
      var c := Call(StepInput(s, period), period, window);
      forall p | p in s'.seasonals ensures HeldFit(stl, s'.calls, p, n, s'.seasonals[p]) {
        LatestCallAppend(s.calls, c, p);
        if p == period {
          assert LatestCall(s'.calls, p) == Some(|s.calls|);
          assert s'.calls[|s.calls|] == c;
        } else {
          assert HeldFit(stl, s.calls, p, n, s.seasonals[p]);
          match LatestCall(s.calls, p)
          case None =>
          case Some(k) => assert s'.calls[k] == s.calls[k];
        }
      }
    }
  }

  lemma {:induction false} PassHeldFits(stl: StlFn, s: State, periods: seq<nat>, windows: seq<nat>, n: nat)
    requires |periods| == |windows| && Covers(s, periods) && HeldFits(stl, s, n)
    ensures Pass(stl, s, periods, windows).Ok? ==> HeldFits(stl, Pass(stl, s, periods, windows).value, n)
    decreases |periods|
  {
    if periods != [] && Pass(stl, s, periods, windows).Ok? {
      var k := |periods| - 1;
      PassStep(stl, s, periods, windows);
      PassHeldFits(stl, s, periods[..k], windows[..k], n);
      StepHeldFits(stl, Pass(stl, s, periods[..k], windows[..k]).value, periods[k], windows[k], n);
    }
  }

  lemma {:induction false} RunHeldFits(stl: StlFn, s: State, periods: seq<nat>, windows: seq<nat>, iterations: nat, n: nat)
    requires |periods| == |windows| && Covers(s, periods) && HeldFits(stl, s, n)
    ensures Run(stl, s, periods, windows, iterations).Ok? ==> HeldFits(stl, Run(stl, s, periods, windows, iterations).value, n)
    decreases iterations
  {
    if iterations > 0 {
      RunHeldFits(stl, s, periods, windows, iterations - 1, n);
      var r := Run(stl, s, periods, windows, iterations - 1);
      if r.Ok? {
        PassHeldFits(stl, r.value, periods, windows, n);
      }
    }
  }

  /** `j` is the last position of its value in `s`. */
  ghost predicate LastOccurrence(s: seq<nat>, j: nat) {
    j < |s| && forall k | j < k < |s| :: s[k] != s[j]
  }

  /** The seasonal held for the period of call `c` is the one STL returned on `c`. */
  ghost predicate SeasonalOf(stl: StlFn, seasonals: map<nat, seq<real>>, c: Call) {
    && c.period in seasonals
    && stl(c.series, c.period, c.window).Ok?
    && seasonals[c.period] == stl(c.series, c.period, c.window).value.seasonal
  }

  /**
   * After a successful pass, the seasonal held for each period is the one STL
   * returned on that pass's call for the period's last position.
   */
  lemma PassSeasonals(stl: StlFn, s: State, periods: seq<nat>, windows: seq<nat>, n: nat)
    requires |periods| == |windows| && Covers(s, periods) && HeldFits(stl, s, n)
    requires Pass(stl, s, periods, windows).Ok?
    ensures forall j | 0 <= j < |periods| && LastOccurrence(periods, j) ::
      SeasonalOf(stl, Pass(stl, s, periods, windows).value.seasonals, Pass(stl, s, periods, windows).value.calls[|s.calls| + j])
  {
    var r := Pass(stl, s, periods, windows).value;
    PassHeldFits(stl, s, periods, windows, n);
    PassCallOrder(stl, s, periods, windows);
    assert Covers(r, periods);
    HeldFromLastCalls(stl, r, |s.calls|, periods, n);
  }

  /** Every call among the last `|periods|` with no later call on its period holds its seasonal. */
  lemma HeldFromLastCalls(stl: StlFn, r: State, base: nat, periods: seq<nat>, n: nat)
    requires HeldFits(stl, r, n) && base <= |r.calls| && CallPeriods(r.calls[base..]) == periods && Covers(r, periods)
    ensures forall j | 0 <= j < |periods| && LastOccurrence(periods, j) ::
      base + j < |r.calls| && SeasonalOf(stl, r.seasonals, r.calls[base + j])
  {
    forall j | 0 <= j < |periods| && LastOccurrence(periods, j)
      ensures base + j < |r.calls| && SeasonalOf(stl, r.seasonals, r.calls[base + j])
    {
      HeldFromLastCall(stl, r, base, periods, j, n);
    }
  }

  /** A call with no later call on its period, among the last `|periods|`, holds its seasonal. */
  lemma HeldFromLastCall(stl: StlFn, r: State, base: nat, periods: seq<nat>, j: nat, n: nat)
    requires HeldFits(stl, r, n) && base <= |r.calls| && CallPeriods(r.calls[base..]) == periods
    requires LastOccurrence(periods, j) && periods[j] in r.seasonals
    ensures base + j < |r.calls| && SeasonalOf(stl, r.seasonals, r.calls[base + j])
  {
    var tail := r.calls[base..];
    assert r.calls[base + j] == tail[j] && CallPeriods(tail)[j] == periods[j];
    forall k | base + j < k < |r.calls| ensures r.calls[k].period != periods[j] {
      assert r.calls[k] == tail[k - base] && CallPeriods(tail)[k - base] == periods[k - base];
    }
    LatestCallIs(r.calls, periods[j], base + j);
    assert HeldFit(stl, r.calls, periods[j], n, r.seasonals[periods[j]]);
  }

  /** With no periods, every run leaves the state as it was. */
  lemma {:induction false} RunWithoutPeriods(stl: StlFn, s: State, iterations: nat)
    ensures Run(stl, s, [], [], iterations) == Ok(s)
    decreases iterations
  {
    if iterations > 0 {
      RunWithoutPeriods(stl, s, iterations - 1);
    }
  }

  // ---------------------------------------------------------------------
  // Failures.

  /** Once a prefix of the pass has failed, the whole pass fails with the same error. */
  lemma {:induction false} PassFailsFromPrefix(stl: StlFn, s: State, periods: seq<nat>, windows: seq<nat>, k: nat)
    requires |periods| == |windows| && Covers(s, periods) && k <= |periods|
    requires Pass(stl, s, periods[..k], windows[..k]).Err?
    ensures Pass(stl, s, periods, windows) == Pass(stl, s, periods[..k], windows[..k])
    decreases |periods|
  {
    if k < |periods| {
      var m := |periods| - 1;
      assert periods[..m][..k] == periods[..k] && windows[..m][..k] == windows[..k];
      PassFailsFromPrefix(stl, s, periods[..m], windows[..m], k);
    } else {
      assert periods[..k] == periods && windows[..k] == windows;
    }
  }

  /** Once some pass has failed, every longer run fails with the same error. */
  lemma {:induction false} RunFailsFrom(stl: StlFn, s: State, periods: seq<nat>, windows: seq<nat>, k: nat, iterations: nat)
    requires |periods| == |windows| && Covers(s, periods) && k <= iterations
    requires Run(stl, s, periods, windows, k).Err?
    ensures Run(stl, s, periods, windows, iterations) == Run(stl, s, periods, windows, k)
    decreases iterations
  {
    if k < iterations {
      RunFailsFrom(stl, s, periods, windows, k, iterations - 1);
    }
  }

  /** A failed pass carries the error of an STL call on one of its periods and windows. */
  lemma {:induction false} PassFailure(stl: StlFn, s: State, periods: seq<nat>, windows: seq<nat>)
    requires |periods| == |windows| && Covers(s, periods)
    requires Pass(stl, s, periods, windows).Err?
    ensures exists series, j ::
      (0 <= j < |periods| &&
       stl(series, periods[j], windows[j]).Err? &&
       Pass(stl, s, periods, windows).error == StlFailure(stl(series, periods[j], windows[j]).error))
    decreases |periods|
  {
    var k := |periods| - 1;
    var r := Pass(stl, s, periods[..k], windows[..k]);
    if r.Err? {
      PassFailure(stl, s, periods[..k], windows[..k]);
      var series, j :| 0 <= j < k && stl(series, periods[..k][j], windows[..k][j]).Err? &&
        r.error == StlFailure(stl(series, periods[..k][j], windows[..k][j]).error);
      assert periods[..k][j] == periods[j] && windows[..k][j] == windows[j];
    } else {
      var series := ZipAdd(r.value.deseas, r.value.seasonals[periods[k]]);
      assert stl(series, periods[k], windows[k]).Err?;
    }
  }

  lemma {:induction false} RunFailure(stl: StlFn, s: State, periods: seq<nat>, windows: seq<nat>, iterations: nat)
    requires |periods| == |windows| && Covers(s, periods)
    requires Run(stl, s, periods, windows, iterations).Err?
    ensures exists series, j ::
      (0 <= j < |periods| &&
       stl(series, periods[j], windows[j]).Err? &&
       Run(stl, s, periods, windows, iterations).error == StlFailure(stl(series, periods[j], windows[j]).error))
    decreases iterations
  {
    var r := Run(stl, s, periods, windows, iterations - 1);
    if r.Err? {
      RunFailure(stl, s, periods, windows, iterations - 1);
    } else {
      PassFailure(stl, r.value, periods, windows);
    }
  }

  /** With a primitive that never fails, no pass and no run fails. */
  lemma {:induction false} RunSucceeds(stl: StlFn, s: State, periods: seq<nat>, windows: seq<nat>, iterations: nat)
    requires NeverFails(stl)
    requires |periods| == |windows| && Covers(s, periods)
    ensures Run(stl, s, periods, windows, iterations).Ok?
    decreases iterations
  {
    if iterations > 0 {
      RunSucceeds(stl, s, periods, windows, iterations - 1);
      PassSucceeds(stl, Run(stl, s, periods, windows, iterations - 1).value, periods, windows);
    }
  }

  lemma {:induction false} PassSucceeds(stl: StlFn, s: State, periods: seq<nat>, windows: seq<nat>)
    requires NeverFails(stl)
    requires |periods| == |windows| && Covers(s, periods)
    ensures Pass(stl, s, periods, windows).Ok?
    decreases |periods|
  {
    if periods != [] {
      var k := |periods| - 1;
      PassSucceeds(stl, s, periods[..k], windows[..k]);
      var s' := Pass(stl, s, periods[..k], windows[..k]).value;
      assert stl(ZipAdd(s'.deseas, s'.seasonals[periods[k]]), periods[k], windows[k]).Ok?;
    }
  }
}
