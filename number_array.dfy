/** Helpers over Java `int[]` arrays. */
module NumberArray {
  import opened JavaTypes

  /** The maximum of `Integer.MIN_VALUE` and every element of `s`: the value
      of the seeded maximum loop after it has seen `s`. */
  function SeededMax(s: seq<Int32>): Int32
  {
    if s == [] then MinInt
    else
      var m := SeededMax(s[..|s| - 1]);
      if s[|s| - 1] > m then s[|s| - 1] else m
  }

  /** The seeded maximum bounds every element, and is one of them unless the
      sequence is empty (then it is `Integer.MIN_VALUE`). */
  lemma {:induction false} SeededMaxIsMaximum(s: seq<Int32>)
    ensures forall k :: 0 <= k < |s| ==> s[k] <= SeededMax(s)
    ensures s == [] ==> SeededMax(s) == MinInt
    ensures s != [] ==> SeededMax(s) in s
  {
    if s != [] {
      var init := s[..|s| - 1];
      SeededMaxIsMaximum(init);
      assert forall k :: 0 <= k < |init| ==> s[k] == init[k];
      if init != [] {
        assert SeededMax(init) in init;
      }
    }
  }

  /** `intArrayMax`: a single pass that keeps the largest element seen,
      starting from `Integer.MIN_VALUE`. */
  method IntArrayMax(iarr: array<Int32>) returns (max: Int32)
    ensures max == SeededMax(iarr[..])
    ensures iarr.Length == 0 ==> max == MinInt
    ensures forall k :: 0 <= k < iarr.Length ==> iarr[k] <= max
    ensures iarr.Length > 0 ==> exists k :: 0 <= k < iarr.Length && iarr[k] == max
  {
    max := MinInt;
    for i := 0 to iarr.Length
      invariant max == SeededMax(iarr[..i])
    {
      assert iarr[..i + 1][..i] == iarr[..i];
      if iarr[i] > max {
        max := iarr[i];
      }
    }
    assert iarr[..iarr.Length] == iarr[..];
    SeededMaxIsMaximum(iarr[..]);
  }
}
