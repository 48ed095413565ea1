/**
 * The interface of the external single-season STL decomposition. The
 * primitive itself (robust loess smoothing) is not modelled: it enters the
 * model as a function value, closed over the shared smoothing parameters.
 */
module Stl {
  import opened Errors

  /** The four sequences one STL fit produces. */
  datatype StlFit = StlFit(trend: seq<real>, seasonal: seq<real>, remainder: seq<real>, weights: seq<real>)

  /** A single-season STL fit of a series for a given period and seasonal window. */
  type StlFn = (seq<real>, nat, nat) -> Result<StlFit, StlError>

  predicate HasLength(fit: StlFit, n: nat) {
    |fit.trend| == n && |fit.seasonal| == n && |fit.remainder| == n && |fit.weights| == n
  }

  /** The primitive's contract: every sequence of a successful fit is as long as the input. */
  ghost predicate LengthPreserving(stl: StlFn) {
    forall series, period, window ::
      stl(series, period, window).Ok? ==> HasLength(stl(series, period, window).value, |series|)
  }

  /** A primitive that fails on no input. */
  ghost predicate NeverFails(stl: StlFn) {
    forall series, period, window :: stl(series, period, window).Ok?
  }
}
