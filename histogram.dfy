/** `calculateStatistics`: the histogram of the R-R intervals over
    `numberOfSlices` equal bins between the shortest and the longest. */
module Histogram {
  import opened RealSeq
  import opened Intervals

  /** Whether `y` falls in the bin from `lo` to `hi`: the upper end always
      belongs to the bin, the lower end only when `closedLo` holds (as for
      the first bin). */
  predicate InBin(y: real, lo: real, hi: real, closedLo: bool)
  {
    (if closedLo then lo <= y else lo < y) && y <= hi
  }

  /** The number of values in a bin, counted the way the bin loops do. */
  function Count(ys: seq<real>, lo: real, hi: real, closedLo: bool): (c: nat)
    ensures c <= |ys|
  {
    if ys == [] then 0
    else Count(ys[..|ys| - 1], lo, hi, closedLo) + (if InBin(ys[|ys| - 1], lo, hi, closedLo) then 1 else 0)
  }

  /** The width of a bin. */
  function Resolution(ys: seq<real>, slices: int): real
    requires |ys| >= 1 && slices != 0
  {
    (MaxOf(ys) - MinOf(ys)) / slices as real
  }

  /** The count of bin `i`: bin 0 is closed at both ends, the others are
      open below. */
  function BinCount(ys: seq<real>, min: real, res: real, i: nat): nat
  {
    if i == 0 then Count(ys, min, min + res, true)
    else Count(ys, min + i as real * res, min + (i + 1) as real * res, false)
  }

  /** The number of bins: `numberOfSlices`, but the first bin is emitted
      even when that is zero or negative. */
  function Bins(slices: int): nat
  {
    if slices < 1 then 1 else slices
  }

  /** The point of bin `i`: its centre, with its count. */
  function BinPoint(ys: seq<real>, min: real, res: real, i: nat): Point
  {
    Point(min + i as real * res + res / 2.0, BinCount(ys, min, res, i) as real)
  }

  /** The histogram points, one per bin. */
  function Histogram(ys: seq<real>, slices: int): (h: seq<Point>)
    requires |ys| >= 1 && slices != 0
    ensures |h| == Bins(slices)
  {
    var min := MinOf(ys);
    var res := Resolution(ys, slices);
    seq(Bins(slices), i requires 0 <= i < Bins(slices) => BinPoint(ys, min, res, i))
  }

  /** The points of the first `m` bins, as the bin loops append them. */
  function BinPoints(ys: seq<real>, min: real, res: real, m: nat): (r: seq<Point>)
    ensures |r| == m
  {
    if m == 0 then [] else BinPoints(ys, min, res, m - 1) + [BinPoint(ys, min, res, m - 1)]
  }

  lemma {:induction false} BinPointsAt(ys: seq<real>, min: real, res: real, m: nat)
    ensures forall k :: 0 <= k < m ==> BinPoints(ys, min, res, m)[k] == BinPoint(ys, min, res, k)
  {
    if m > 0 {
      BinPointsAt(ys, min, res, m - 1);
    }
  }

  /** Appending the bins one by one builds the histogram. */
  lemma HistogramIsBinPoints(ys: seq<real>, slices: int)
    requires |ys| >= 1 && slices != 0
    ensures Histogram(ys, slices) == BinPoints(ys, MinOf(ys), Resolution(ys, slices), Bins(slices))
  {
    BinPointsAt(ys, MinOf(ys), Resolution(ys, slices), Bins(slices));
  }

  /** Adjacent bins: the values in `lo..hi` are those in `lo..mid` and
      those above `mid` up to `hi`. */
  lemma {:induction false} CountSplit(ys: seq<real>, lo: real, mid: real, hi: real, closedLo: bool)
    requires lo <= mid <= hi
    ensures Count(ys, lo, hi, closedLo) == Count(ys, lo, mid, closedLo) + Count(ys, mid, hi, false)
  {
    if ys != [] {
      CountSplit(ys[..|ys| - 1], lo, mid, hi, closedLo);
    }
  }

  /** A closed range that holds every value counts all of them. */
  lemma {:induction false} CountAll(ys: seq<real>, lo: real, hi: real)
    requires forall k :: 0 <= k < |ys| ==> lo <= ys[k] <= hi
    ensures Count(ys, lo, hi, true) == |ys|
  {
    if ys != [] {
      CountAll(ys[..|ys| - 1], lo, hi);
    }
  }

  /** The total count of the first `m` bins. */
  function BinTotal(ys: seq<real>, min: real, res: real, m: nat): nat
  {
    if m == 0 then 0 else BinTotal(ys, min, res, m - 1) + BinCount(ys, min, res, m - 1)
  }

  /** The first `m` bins together cover `min .. min + m * res`. */
  lemma {:induction false} BinTotalCovers(ys: seq<real>, min: real, res: real, m: nat)
    requires m >= 1 && res >= 0.0
    ensures BinTotal(ys, min, res, m) == Count(ys, min, min + m as real * res, true)
  {
    if m == 1 {
      assert 1 as real * res == res;
    } else {
      BinTotalCovers(ys, min, res, m - 1);
      var mid := min + (m - 1) as real * res;
      var top := min + m as real * res;
      assert BinCount(ys, min, res, m - 1) == Count(ys, mid, top, false);
      BinEdges(min, res, m, mid, top);
      CountSplit(ys, min, mid, top, true);
    }
  }

  /** The edges of bin `m - 1` are ordered and lie above `min`. */
  lemma BinEdges(min: real, res: real, m: nat, mid: real, top: real)
    requires m >= 1 && res >= 0.0
    requires mid == min + (m - 1) as real * res && top == min + m as real * res
    ensures min <= mid <= top
  {
    assert top - mid == res;
    assert (m - 1) as real * res >= 0.0;
  }

  /** The bin counts of a prefix of the histogram are its running total. */
  lemma {:induction false} HistogramPrefixSum(ys: seq<real>, slices: int, m: nat)
    requires |ys| >= 1 && slices != 0 && m <= Bins(slices)
    ensures Sum(Ys(Histogram(ys, slices)[..m])) ==
            BinTotal(ys, MinOf(ys), Resolution(ys, slices), m) as real
  {
    if m > 0 {
      var h := Histogram(ys, slices);
      HistogramPrefixSum(ys, slices, m - 1);
      assert Ys(h[..m])[..m - 1] == Ys(h[..m - 1]);
    }
  }

  /** With one or more slices the bins cover the whole range from the
      shortest interval to the longest, so every interval is counted once:
      the counts add up to the number of intervals. */
  lemma HistogramCountsAll(ys: seq<real>, slices: int)
    requires |ys| >= 1 && slices >= 1
    ensures Sum(Ys(Histogram(ys, slices))) == |ys| as real
  {
    var h := Histogram(ys, slices);
    var min := MinOf(ys);
    var max := MaxOf(ys);
    var res := Resolution(ys, slices);
    MinOfIsMinimum(ys);
    MaxOfIsMaximum(ys);
    HistogramPrefixSum(ys, slices, slices);
    assert h[..slices] == h;
    assert Sum(Ys(h)) == BinTotal(ys, min, res, slices) as real;
    assert min <= max by {
      assert MinOf(ys) <= ys[0] <= MaxOf(ys);
    }
    assert res == (max - min) / slices as real;
    BinsReachMax(min, max, slices, res);
    BinTotalCovers(ys, min, res, slices);
    var top := min + slices as real * res;
    assert top == max;
    CountAll(ys, min, max);
    assert Count(ys, min, top, true) == |ys|;
  }

  /** `slices` bins of width `(max - min) / slices` end at `max`. */
  lemma BinsReachMax(min: real, max: real, slices: int, res: real)
    requires min <= max && slices >= 1 && res == (max - min) / slices as real
    ensures res >= 0.0
    ensures min + slices as real * res == max
  {
  }
}
