/** `nonSpectralAnalysis`: the heart-rate-variability indicators of the
    corrected R-R series (mean interval, its standard deviation, the root
    mean square of successive differences and the share of successive
    differences above 50 ms), over exact reals. The square root is a
    parameter. */
module Variability {
  import opened JavaTypes
  import opened RealSeq

  /** Successive differences larger than this (in ms) are counted. */
  const Nn50Limit: real := 50.0

  function Abs(x: real): real
  {
    if x < 0.0 then -x else x
  }

  /** The sum of the squares. */
  function SumSq(ys: seq<real>): (r: real)
    ensures r >= 0.0
  {
    if ys == [] then 0.0 else SumSq(ys[..|ys| - 1]) + ys[|ys| - 1] * ys[|ys| - 1]
  }

  /** The sum of the squared successive differences. */
  function SumDiffSq(ys: seq<real>): real
  {
    if |ys| < 2 then 0.0
    else
      var d := ys[|ys| - 2] - ys[|ys| - 1];
      SumDiffSq(ys[..|ys| - 1]) + d * d
  }

  /** The number of successive differences larger than 50 ms. */
  function Nn50(ys: seq<real>): nat
  {
    if |ys| < 2 then 0
    else Nn50(ys[..|ys| - 1]) + (if Abs(ys[|ys| - 2] - ys[|ys| - 1]) > Nn50Limit then 1 else 0)
  }

  /** The mean interval. */
  function Mean(ys: seq<real>): real
    requires |ys| >= 1
  {
    Sum(ys) / |ys| as real
  }

  /** The mean lies between the shortest and the longest interval. */
  lemma MeanWithinExtrema(ys: seq<real>)
    requires |ys| >= 1
    ensures MinOf(ys) <= Mean(ys) <= MaxOf(ys)
  {
    SumWithinExtrema(ys);
    MeanBounds(Sum(ys), |ys| as real, MinOf(ys), MaxOf(ys));
  }

  /** The indicators as stored: `pulse` in beats per minute, the rounded
      `meanRR`, `sdRR` and `rMSSD` in ms, and `pNN50` in percent. */
  datatype Indicators = Indicators(pulse: real, meanRR: int, sdRR: int, rMSSD: int, pNN50: JDouble)

  /** The indicators of a series of `n` intervals. With no interval the
      mean and the mean square are 0/0, a NaN that `Math.round` turns into 0
      and that fails `> 0.0`, while the quotients over `n - 1` are 0 / -1, a
      zero; with one interval the quotients over `n - 1` are NaN. */
  function NonSpectral(ys: seq<real>, sqrt: real -> real): Indicators
  {
    var n := |ys|;
    if n == 0 then Indicators(0.0, 0, 0, 0, Num(0.0))
    else
      var mean := Mean(ys);
      var sd := sqrt(SumSq(ys) / n as real - mean * mean);
      var pulse := if mean > 0.0 then 60000.0 / mean else 0.0;
      if n == 1 then Indicators(pulse, Round(mean), Round(sd), 0, NaN)
      else
        Indicators(pulse, Round(mean), Round(sd), Round(sqrt(SumDiffSq(ys) / (n - 1) as real)),
                   Num(100.0 * (Nn50(ys) as real / (n - 1) as real)))
  }

  /** At most every successive difference is counted. */
  lemma {:induction false} Nn50AtMost(ys: seq<real>)
    ensures |ys| >= 1 ==> Nn50(ys) <= |ys| - 1
    ensures |ys| < 2 ==> Nn50(ys) == 0
  {
    if |ys| >= 2 {
      Nn50AtMost(ys[..|ys| - 1]);
    }
  }

  /** With two or more intervals `pNN50` is a percentage. */
  lemma PNN50IsPercentage(ys: seq<real>, sqrt: real -> real)
    requires |ys| >= 2
    ensures NonSpectral(ys, sqrt).pNN50.Num?
    ensures 0.0 <= NonSpectral(ys, sqrt).pNN50.value <= 100.0
  {
    Nn50AtMost(ys);
    var c := Nn50(ys) as real;
    var d := (|ys| - 1) as real;
    assert 0.0 <= c <= d;
    MeanBounds(c, d, 0.0, 1.0);
  }

  /** The rounded mean lies between the shortest and the longest interval,
      to within the rounding. */
  lemma MeanWithinRange(ys: seq<real>, sqrt: real -> real)
    requires |ys| >= 1
    ensures var r := NonSpectral(ys, sqrt);
      MinOf(ys) - 0.5 < r.meanRR as real <= MaxOf(ys) + 0.5
  {
    MeanWithinExtrema(ys);
    assert NonSpectral(ys, sqrt).meanRR == Round(Mean(ys));
  }

  /** For positive intervals the mean is positive and the pulse is 60000
      over it: the number of beats in a minute of intervals that long. */
  lemma PulseOfPositiveIntervals(ys: seq<real>, sqrt: real -> real)
    requires |ys| >= 1 && MinOf(ys) > 0.0
    ensures Sum(ys) > 0.0
    ensures NonSpectral(ys, sqrt).pulse == 60000.0 * |ys| as real / Sum(ys)
    ensures NonSpectral(ys, sqrt).pulse > 0.0
  {
    var n := |ys| as real;
    var sum := Sum(ys);
    var mean := Mean(ys);
    MeanWithinExtrema(ys);
    assert mean == sum / n && mean > 0.0;
    NumeratorPositive(sum, n);
    QuotientOfQuotient(sum, n);
    PulseOfMean(ys, sqrt);
  }

  lemma NumeratorPositive(sum: real, n: real)
    requires n > 0.0 && sum / n > 0.0
    ensures sum > 0.0
  {
    assert sum == (sum / n) * n;
  }

  /** The stored pulse is 60000 over a positive mean, and 0 otherwise. */
  lemma PulseOfMean(ys: seq<real>, sqrt: real -> real)
    requires |ys| >= 1
    ensures NonSpectral(ys, sqrt).pulse == if Mean(ys) > 0.0 then 60000.0 / Mean(ys) else 0.0
  {
  }

  lemma QuotientOfQuotient(sum: real, n: real)
    requires n > 0.0 && sum > 0.0
    ensures sum / n > 0.0 && 60000.0 / (sum / n) == 60000.0 * n / sum
  {
  }

  /** `n` values with sum `s` and sum of squares `q` satisfy `n * q >= s * s`. */
  predicate Dominates(n: real, q: real, s: real)
  {
    n * q >= s * s
  }

  /** The sum of squares is at least the square of the sum over the count,
      so the variance under the square root is never negative. */
  lemma {:induction false} VarianceNonNegative(ys: seq<real>)
    ensures Dominates(|ys| as real, SumSq(ys), Sum(ys))
  {
    if |ys| >= 2 {
      var init := ys[..|ys| - 1];
      VarianceNonNegative(init);
      var y := ys[|ys| - 1];
      VarianceStep(|init| as real, Sum(init), SumSq(init), y, |ys| as real, Sum(ys), SumSq(ys));
    } else if |ys| == 1 {
      var y := ys[0];
      assert ys[..0] == [];
      assert Sum(ys) == Sum([]) + y && SumSq(ys) == SumSq([]) + y * y;
      SingleDominates(y);
    } else {
      assert Dominates(0.0, 0.0, 0.0);
    }
  }

  /** The value under SDNN's square root, the mean square less the squared
      mean, is never negative. */
  lemma RadicandNonNegative(ys: seq<real>)
    requires |ys| >= 1
    ensures SumSq(ys) / |ys| as real - Mean(ys) * Mean(ys) >= 0.0
  {
    VarianceNonNegative(ys);
    QuotientDominates(|ys| as real, SumSq(ys), Sum(ys));
  }

  lemma QuotientDominates(n: real, q: real, s: real)
    requires n > 0.0 && Dominates(n, q, s)
    ensures q / n - (s / n) * (s / n) >= 0.0
  {
    var m := s / n;
    assert s == n * m;
    assert n * (q - n * m * m) == n * q - s * s;
    PositiveFactor(n, q - n * m * m);
    assert q / n - m * m == (q - n * m * m) / n;
  }

  /** Adding a value `y` to `n > 0` values with sum `s` and sum of squares
      `q` keeps the count times the sum of squares above the squared sum. */
  lemma VarianceStep(n: real, s: real, q: real, y: real, n': real, s': real, q': real)
    requires n > 0.0 && Dominates(n, q, s)
    requires n' == n + 1.0 && s' == s + y && q' == q + y * y
    ensures Dominates(n', q', s')
  {
    var x := q - 2.0 * s * y + n * y * y;
    StepIdentity(n, s, q, y);
    ScaledIdentity(n, s, q, y);
    Square(s - n * y);
    PositiveFactor(n, x);
  }

  lemma StepIdentity(n: real, s: real, q: real, y: real)
    ensures (n + 1.0) * (q + y * y) - (s + y) * (s + y) == (n * q - s * s) + (q - 2.0 * s * y + n * y * y)
  {
  }

  lemma ScaledIdentity(n: real, s: real, q: real, y: real)
    ensures n * (q - 2.0 * s * y + n * y * y) == (n * q - s * s) + (s - n * y) * (s - n * y)
  {
  }

  lemma Square(x: real)
    ensures x * x >= 0.0
  {
    if x < 0.0 {
      assert x * x == (-x) * (-x);
    }
  }

  lemma SingleDominates(y: real)
    ensures Dominates(1.0, y * y, y)
  {
  }

  lemma PositiveFactor(n: real, x: real)
    requires n > 0.0 && n * x >= 0.0
    ensures x >= 0.0
  {
  }
}
