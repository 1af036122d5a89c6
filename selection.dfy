/** The replacement rule that both delimiter-inference loops follow: walk the
    candidates in order, keeping a best index (initially 0, the tab) and a best
    value (initially 0); an eligible candidate replaces them only when its
    value is strictly greater. */
module Selection {

  /** Best index and best value after the first `n` candidates. */
  function BestUpTo(values: seq<real>, eligible: seq<bool>, n: nat): (r: (nat, real))
    requires |eligible| == |values| && n <= |values|
  {
    if n == 0 then (0, 0.0)
    else
      var prev := BestUpTo(values, eligible, n - 1);
      if eligible[n - 1] && values[n - 1] > prev.1 then (n - 1, values[n - 1]) else prev
  }

  function BestIndex(values: seq<real>, eligible: seq<bool>): nat
    requires |eligible| == |values|
  {
    BestUpTo(values, eligible, |values|).0
  }

  /** The reference definition: index `k` is the first eligible candidate of
      greatest value, when that value is positive; otherwise it is 0. */
  predicate IsFirstBest(values: seq<real>, eligible: seq<bool>, k: nat)
    requires |eligible| == |values|
  {
    if exists j :: 0 <= j < |values| && eligible[j] && values[j] > 0.0 then
      k < |values| && eligible[k] && values[k] > 0.0
      && (forall j :: 0 <= j < |values| && eligible[j] ==> values[j] <= values[k])
      && (forall j :: 0 <= j < k && eligible[j] ==> values[j] < values[k])
    else
      k == 0
  }

  lemma {:induction false} BestUpToInvariant(values: seq<real>, eligible: seq<bool>, n: nat)
    requires |eligible| == |values| && n <= |values|
    ensures var r := BestUpTo(values, eligible, n);
      if exists j :: 0 <= j < n && eligible[j] && values[j] > 0.0 then
        r.0 < n && eligible[r.0] && values[r.0] == r.1 && r.1 > 0.0
        && (forall j :: 0 <= j < n && eligible[j] ==> values[j] <= r.1)
        && (forall j :: 0 <= j < r.0 && eligible[j] ==> values[j] < r.1)
      else
        r == (0, 0.0)
  {
    if n > 0 {
      BestUpToInvariant(values, eligible, n - 1);
      var prev := BestUpTo(values, eligible, n - 1);
      if exists j :: 0 <= j < n - 1 && eligible[j] && values[j] > 0.0 {
        // an earlier candidate is already best
      } else {
        assert forall j :: 0 <= j < n - 1 && eligible[j] ==> values[j] <= 0.0;
      }
    }
  }

  /** The loop's result is the first best candidate, and no other index is:
      ties go to the earlier candidate and index 0 is the fallback. */
  lemma BestIndexIsFirstBest(values: seq<real>, eligible: seq<bool>, k: nat)
    requires |eligible| == |values|
    ensures BestIndex(values, eligible) == k <==> IsFirstBest(values, eligible, k)
  {
    BestUpToInvariant(values, eligible, |values|);
  }
}
