/** Maximum, minimum and sum of a non-empty run of real values, as the
    analysis loops compute them element by element. */
module RealSeq {

  /** The largest value (`SignalD.max()`, and the `max` loop of the
      histogram): a later element replaces the running maximum only when it
      is strictly larger. */
  function MaxOf(s: seq<real>): real
    requires |s| >= 1
  {
    if |s| == 1 then s[0]
    else
      var m := MaxOf(s[..|s| - 1]);
      if s[|s| - 1] > m then s[|s| - 1] else m
  }

  /** The smallest value, by the same running comparison. */
  function MinOf(s: seq<real>): real
    requires |s| >= 1
  {
    if |s| == 1 then s[0]
    else
      var m := MinOf(s[..|s| - 1]);
      if s[|s| - 1] < m then s[|s| - 1] else m
  }

  function Sum(s: seq<real>): real
  {
    if s == [] then 0.0 else Sum(s[..|s| - 1]) + s[|s| - 1]
  }

  /** The running maximum bounds every element and is one of them. */
  lemma {:induction false} MaxOfIsMaximum(s: seq<real>)
    requires |s| >= 1
    ensures forall k :: 0 <= k < |s| ==> s[k] <= MaxOf(s)
    ensures MaxOf(s) in s
  {
    if |s| > 1 {
      var init := s[..|s| - 1];
      MaxOfIsMaximum(init);
      assert forall k :: 0 <= k < |init| ==> s[k] == init[k];
    }
  }

  /** An index where the running maximum is found. */
  lemma {:induction false} MaxOfAt(s: seq<real>) returns (k: nat)
    requires |s| >= 1
    ensures k < |s| && s[k] == MaxOf(s)
  {
    if |s| == 1 {
      k := 0;
    } else {
      var init := s[..|s| - 1];
      if s[|s| - 1] > MaxOf(init) {
        k := |s| - 1;
      } else {
        k := MaxOfAt(init);
      }
    }
  }

  /** The running minimum is a lower bound that is one of the elements. */
  lemma {:induction false} MinOfIsMinimum(s: seq<real>)
    requires |s| >= 1
    ensures forall k :: 0 <= k < |s| ==> MinOf(s) <= s[k]
    ensures MinOf(s) in s
  {
    if |s| > 1 {
      var init := s[..|s| - 1];
      MinOfIsMinimum(init);
      assert forall k :: 0 <= k < |init| ==> s[k] == init[k];
    }
  }

  /** A sum of `n` values lies between `n` times their minimum and `n` times
      their maximum. */
  lemma {:induction false} SumWithinExtrema(s: seq<real>)
    requires |s| >= 1
    ensures MinOf(s) * |s| as real <= Sum(s) <= MaxOf(s) * |s| as real
  {
    MinOfIsMinimum(s);
    MaxOfIsMaximum(s);
    SumBounds(s, MinOf(s), MaxOf(s));
  }

  lemma {:induction false} SumBounds(s: seq<real>, lo: real, hi: real)
    requires forall k :: 0 <= k < |s| ==> lo <= s[k] <= hi
    ensures lo * |s| as real <= Sum(s) <= hi * |s| as real
  {
    if s != [] {
      SumBounds(s[..|s| - 1], lo, hi);
    }
  }

  /** A total between `n` times `lo` and `n` times `hi` has its mean between
      `lo` and `hi`, and is positive when `lo` is. */
  lemma MeanBounds(sum: real, n: real, lo: real, hi: real)
    requires n > 0.0 && lo * n <= sum <= hi * n
    ensures lo <= sum / n <= hi
    ensures lo > 0.0 ==> sum > 0.0
  {
  }
}
