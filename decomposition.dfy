/** The result of a successful MSTL run: an immutable value with read-only accessors. */
module Decomposition {
  import opened Errors

  /**
   * Trend, one seasonal component per surviving period, residuals and the
   * robust weights of the final STL fit. The fields are the accessors
   * `trend`, `seasonals`, `residuals` and `robust_weights`; being a value,
   * nothing can change it after construction.
   */
  datatype MstlDecomposition = MstlDecomposition(
    trend: seq<real>,
    seasonal: map<nat, seq<real>>,
    residuals: seq<real>,
    robustWeights: seq<real>)
  {
    /** The seasonal component of `period`, or None for a period that was not fitted. */
    function Seasonal(period: nat): (r: Option<seq<real>>)
      ensures r.Some? <==> period in seasonal
      ensures r.Some? ==> r.value == seasonal[period]
    {
      if period in seasonal then Some(seasonal[period]) else None
    }

    /** Every sequence of the result has length `n`. */
    predicate HasLength(n: nat) {
      && |trend| == n
      && |residuals| == n
      && |robustWeights| == n
      && forall p | p in seasonal :: |seasonal[p]| == n
    }
  }
}
