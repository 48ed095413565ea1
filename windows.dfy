/** Seasonal-window selection: a fixed heuristic on each period's rank. */
module Windows {

  /**
   * One STL seasonal window per period: 11 for the first, then 4 wider for
   * each later period, whatever the periods' values.
   */
  function SeasonalWindows(periods: seq<nat>): (w: seq<nat>)
    ensures |w| == |periods|
    ensures |w| > 0 ==> w[0] == 11
    ensures forall i, j | 0 <= i < j < |w| :: w[j] == w[i] + 4 * (j - i)
    ensures forall i | 0 <= i < |w| :: w[i] % 2 == 1 && w[i] >= 11
  {
    seq(|periods|, i requires 0 <= i < |periods| => 7 + 4 * (i + 1))
  }

  /** One outer pass when exactly one period survives, otherwise two. */
  function OuterIterations(count: nat): (r: nat)
    ensures r == 1 <==> count == 1
    ensures 1 <= r <= 2
  {
    if count == 1 then 1 else 2
  }
}
