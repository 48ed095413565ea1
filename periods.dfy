/**
 * Period normalisation: the caller's periods are sorted ascending, rejected
 * when empty or when the smallest is at most 1, and then every period longer
 * than half the series is dropped.
 */
module Periods {
  import opened Errors

  ghost predicate Sorted(s: seq<nat>) {
    forall i, j | 0 <= i < j < |s| :: s[i] <= s[j]
  }

  /** Inserts `x` into the sorted sequence `s`, in front of the first element not below it. */
  function Insert(x: nat, s: seq<nat>): (r: seq<nat>)
    ensures multiset(r) == multiset(s) + multiset{x}
  {
    if s == [] || x <= s[0] then
      [x] + s
    else
      assert s == [s[0]] + s[1..];
      [s[0]] + Insert(x, s[1..])
  }

  /** Inserting into a sorted sequence keeps it sorted. */
  lemma {:induction false} InsertKeepsOrder(x: nat, s: seq<nat>)
    requires Sorted(s)
    ensures Sorted(Insert(x, s))
  {
    if s == [] || x <= s[0] {
      SortedCons(x, s);
    } else {
      var tail := Insert(x, s[1..]);
      InsertKeepsOrder(x, s[1..]);
      forall k | 0 <= k < |tail| ensures s[0] <= tail[k] {
        assert tail[k] in multiset(tail);
        if tail[k] != x {
          assert tail[k] in s[1..];
        }
      }
      SortedCons(s[0], tail);
    }
  }

  /** Putting a lower bound in front of a sorted sequence keeps it sorted. */
  lemma SortedCons(x: nat, s: seq<nat>)
    requires Sorted(s)
    requires forall k | 0 <= k < |s| :: x <= s[k]
    ensures Sorted([x] + s)
  {
    var r := [x] + s;
    forall i, j | 0 <= i < j < |r| ensures r[i] <= r[j] {
      assert r[j] == s[j - 1];
      if i > 0 {
        assert r[i] == s[i - 1];
      }
    }
  }

  /** Ascending sort; on natural numbers every sort, stable or not, gives this result. */
  function Sort(s: seq<nat>): (r: seq<nat>)
    ensures Sorted(r)
    ensures multiset(r) == multiset(s)
  {
    if s == [] then []
    else
      assert s == [s[0]] + s[1..];
      var tail := Sort(s[1..]);
      InsertKeepsOrder(s[0], tail);
      Insert(s[0], tail)
  }

  /** Two sorted sequences with the same elements are equal: sorting is unique. */
  lemma {:induction false} SortedUnique(a: seq<nat>, b: seq<nat>)
    requires Sorted(a) && Sorted(b)
    requires multiset(a) == multiset(b)
    ensures a == b
  {
    if a == [] {
      assert |multiset(b)| == 0;
    } else {
      SortedHeadsEqual(a, b);
      SplitHead(a);
      SplitHead(b);
      assert multiset(a[1..]) == multiset(b[1..]) by {
        forall x ensures multiset(a[1..])[x] == multiset(b[1..])[x] {
          assert multiset(a)[x] == multiset(b)[x];
        }
      }
      SortedTail(a);
      SortedTail(b);
      SortedUnique(a[1..], b[1..]);
    }
  }

  /** Two non-empty sorted sequences with the same elements start alike. */
  lemma SortedHeadsEqual(a: seq<nat>, b: seq<nat>)
    requires Sorted(a) && Sorted(b) && a != []
    requires multiset(a) == multiset(b)
    ensures b != [] && a[0] == b[0]
  {
    assert a[0] in multiset(b);
    var i :| 0 <= i < |b| && b[i] == a[0];
    assert b[0] in multiset(a);
    var j :| 0 <= j < |a| && a[j] == b[0];
    assert b[0] <= b[i] && a[0] <= a[j];
  }

  /** A non-empty sequence is its head followed by its tail. */
  lemma SplitHead(a: seq<nat>)
    requires a != []
    ensures a == [a[0]] + a[1..]
    ensures multiset(a) == multiset{a[0]} + multiset(a[1..])
  {
    assert a == [a[0]] + a[1..];
  }

  /** The tail of a sorted sequence is sorted. */
  lemma SortedTail(a: seq<nat>)
    requires Sorted(a) && a != []
    ensures Sorted(a[1..])
  {
    forall i, j | 0 <= i < j < |a| - 1 ensures a[1..][i] <= a[1..][j] {
      assert a[1..][i] == a[i + 1] && a[1..][j] == a[j + 1];
    }
  }

  /** The smallest element of a non-empty sequence is the first of its sorted copy. */
  lemma {:induction false} SortHeadIsMinimum(s: seq<nat>)
    requires s != []
    ensures Sort(s) != [] && Sort(s)[0] in s
    ensures forall p | p in s :: Sort(s)[0] <= p
  {
    var r := Sort(s);
    assert |r| == |s| by { assert |multiset(r)| == |multiset(s)|; }
    assert r[0] in multiset(s);
    forall p | p in s ensures r[0] <= p {
      assert p in multiset(r);
    }
  }

  /** Keeps, in order, the periods that are at most `bound` (Rust's `Vec::retain`). */
  function Retain(s: seq<nat>, bound: nat): (r: seq<nat>)
    ensures forall p :: multiset(r)[p] == if p <= bound then multiset(s)[p] else 0
  {
    if s == [] then []
    else
      assert s == [s[0]] + s[1..];
      var tail := Retain(s[1..], bound);
      if s[0] <= bound then [s[0]] + tail else tail
  }

  /** A period survives `Retain` exactly when it was there and is at most `bound`. */
  lemma RetainMembers(s: seq<nat>, bound: nat)
    ensures forall p :: p in Retain(s, bound) <==> p in s && p <= bound
  {
    var r := Retain(s, bound);
    forall p ensures p in r <==> p in s && p <= bound {
      assert p in r <==> p in multiset(r);
      assert p in s <==> p in multiset(s);
    }
  }

  /** `Retain` keeps a sorted sequence sorted. */
  lemma {:induction false} RetainKeepsOrder(s: seq<nat>, bound: nat)
    requires Sorted(s)
    ensures Sorted(Retain(s, bound))
  {
    if s != [] {
      var tail := Retain(s[1..], bound);
      RetainKeepsOrder(s[1..], bound);
      if s[0] <= bound {
        RetainMembers(s[1..], bound);
        forall k | 0 <= k < |tail| ensures s[0] <= tail[k] {
          assert tail[k] in s[1..];
        }
        SortedCons(s[0], tail);
      }
    }
  }

  /**
   * What normalisation makes of `periods` for a series of length `n`: the
   * error, or the sorted and filtered periods that the caller's vector then holds.
   */
  function Normalise(periods: seq<nat>, n: nat): Result<seq<nat>, Error> {
    var sorted := Sort(periods);
    if |sorted| == 0 || sorted[0] <= 1 then Err(MstlFailure(NonSeasonalMessage))
    else Ok(Retain(sorted, n / 2))
  }

  /** Normalisation fails exactly when the list is empty or holds a period of at most 1. */
  lemma NormaliseFails(periods: seq<nat>, n: nat)
    ensures Normalise(periods, n).Err? <==> (periods == [] || exists p :: p in periods && p <= 1)
    ensures Normalise(periods, n).Err? ==> Normalise(periods, n).error == MstlFailure(NonSeasonalMessage)
  {
    if periods != [] {
      SortHeadIsMinimum(periods);
    }
  }

  /**
   * On success the periods are sorted, lie in 1 < p <= n / 2, and are exactly
   * the input's periods of at most n / 2, each as often as in the input.
   */
  lemma NormaliseSucceeds(periods: seq<nat>, n: nat)
    requires Normalise(periods, n).Ok?
    ensures var r := Normalise(periods, n).value;
      && Sorted(r)
      && (forall p | p in r :: 1 < p <= n / 2)
      && (forall p :: p in r <==> p in periods && p <= n / 2)
      && (forall p :: multiset(r)[p] == if p <= n / 2 then multiset(periods)[p] else 0)
  {
    SortHeadIsMinimum(periods);
    var sorted := Sort(periods);
    RetainMembers(sorted, n / 2);
    RetainKeepsOrder(sorted, n / 2);
    forall p ensures p in sorted <==> p in periods {
      assert p in sorted <==> p in multiset(sorted);
    }
  }

  /** Normalisation depends only on which periods are given, not on their order. */
  lemma {:induction false} NormaliseIgnoresOrder(a: seq<nat>, b: seq<nat>, n: nat)
    requires multiset(a) == multiset(b)
    ensures Normalise(a, n) == Normalise(b, n)
  {
    SortedUnique(Sort(a), Sort(b));
  }
}
