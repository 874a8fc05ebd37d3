/** The `Phonocardiography` analysis object: the heart-sound buffer, the
    detected beats and the series derived from them, updated in place by
    one method per calculation step.

    The `SignalD` buffer is `samples`, taken every `dt` seconds; `first` is
    the absolute index of `samples[0]` and `origin` the time of absolute
    index 0, so `heartSound.getStartTime()` is `origin + first * dt`,
    `getX(i)` is `origin + (first + i) * dt` and `remove(0)` advances
    `first`. A `SignalXY` series is a sequence of `Point`s; the beat list
    holds each beat by the absolute index of its sample (its x value is
    `BeatTime`). */
module Calculation {
  import opened JavaTypes
  import opened RealSeq
  import opened BeatDetection
  import opened Intervals
  import opened Histogram
  import opened Variability

  const DefaultNumberOfSlices: int := 10
  const DefaultNumberOfSamples: int := 256
  const DefaultSamplingTime: real := 0.469
  /** `NO_MAX_LENGTH`: the initial `maxLength`. */
  const NoMaxLength: real := -1.0

  class Phonocardiography {
    // The heart-sound buffer (`heartSound`).
    var samples: seq<real>
    var dt: real
    var origin: real
    var first: int

    // The beats (`peaks`) and the derived series.
    var beats: seq<Beat>
    var rangeOfBeats: seq<Point>
    var rr: seq<Point>
    var normalRR: seq<Point>
    var sampledRR: seq<real>
    var statistics: seq<Point>
    var bpm: seq<Point>
    var numberOfSlices: int
    var numberOfSamples: int
    var samplingTime: real

    var threshold: real

    // Non-spectral indicators, in ms.
    var pulse: real
    var meanRR: int
    var sdRR: int
    var pNN50: JDouble
    var rMSSD: int

    var loaded: bool
    var maxLength: real

    // Heart-beat detection parameters.
    var multiplier: real
    var maxTimeToPeak: real
    var jumpedTime: real

    /** The object invariant: a positive sampling period, beats in sample
        order, and positive R-R intervals (so the rate conversion never
        divides by zero). */
    ghost predicate Valid()
      reads this
    {
      dt > 0.0 && Increasing(beats) &&
      forall k :: 0 <= k < |rr| ==> rr[k].y > 0.0
    }

    /** The default object, over an empty buffer with sampling period `dt`
        starting at time `startTime`. */
    constructor (dt: real, startTime: real)
      requires dt > 0.0
      ensures Valid()
      ensures samples == [] && this.dt == dt && origin == startTime && first == 0
      ensures beats == [] && rangeOfBeats == [] && rr == [] && normalRR == [] && sampledRR == []
      ensures statistics == [] && bpm == []
      ensures numberOfSlices == DefaultNumberOfSlices && numberOfSamples == DefaultNumberOfSamples
      ensures samplingTime == DefaultSamplingTime && threshold == 0.0
      ensures pulse == 0.0 && meanRR == 0 && sdRR == 0 && pNN50 == Num(0.0) && rMSSD == 0
      ensures !loaded && maxLength == NoMaxLength
      ensures multiplier == 0.45 && maxTimeToPeak == 0.1 && jumpedTime == 0.3
    {
      samples, this.dt, origin, first := [], dt, startTime, 0;
      beats, rangeOfBeats, rr, normalRR, sampledRR := [], [], [], [], [];
      statistics, bpm := [], [];
      numberOfSlices, numberOfSamples, samplingTime := DefaultNumberOfSlices, DefaultNumberOfSamples, DefaultSamplingTime;
      threshold := 0.0;
      pulse, meanRR, sdRR, pNN50, rMSSD := 0.0, 0, 0, Num(0.0), 0;
      loaded, maxLength := false, NoMaxLength;
      multiplier, maxTimeToPeak, jumpedTime := 0.45, 0.1, 0.3;
    }

    /** The object with its own detection parameters. */
    constructor WithDetectionParams(dt: real, startTime: real, multiplier: real, maxTimeToPeak: real, jumpedTime: real)
      requires dt > 0.0
      ensures Valid()
      ensures samples == [] && this.dt == dt && origin == startTime && first == 0
      ensures beats == [] && rangeOfBeats == [] && rr == [] && normalRR == [] && sampledRR == []
      ensures statistics == [] && bpm == []
      ensures numberOfSlices == DefaultNumberOfSlices && numberOfSamples == DefaultNumberOfSamples
      ensures samplingTime == DefaultSamplingTime && threshold == 0.0
      ensures pulse == 0.0 && meanRR == 0 && sdRR == 0 && pNN50 == Num(0.0) && rMSSD == 0
      ensures !loaded && maxLength == NoMaxLength
      ensures this.multiplier == multiplier && this.maxTimeToPeak == maxTimeToPeak
      ensures this.jumpedTime == jumpedTime
    {
      samples, this.dt, origin, first := [], dt, startTime, 0;
      beats, rangeOfBeats, rr, normalRR, sampledRR := [], [], [], [], [];
      statistics, bpm := [], [];
      numberOfSlices, numberOfSamples, samplingTime := DefaultNumberOfSlices, DefaultNumberOfSamples, DefaultSamplingTime;
      threshold := 0.0;
      pulse, meanRR, sdRR, pNN50, rMSSD := 0.0, 0, 0, Num(0.0), 0;
      loaded, maxLength := false, NoMaxLength;
      this.multiplier, this.maxTimeToPeak, this.jumpedTime := multiplier, maxTimeToPeak, jumpedTime;
    }

    /** `manageLength`: unless the data was loaded from a file, samples are
        dropped from the front of the buffer while it lasts longer than
        `maxLength`. */
    method ManageLength()
      modifies `samples, `first
      ensures loaded ==> samples == old(samples) && first == old(first)
      ensures !loaded ==> samples == Shortened(old(samples), dt, maxLength)
      ensures first == old(first) + (|old(samples)| - |samples|)
    {
      while !loaded && samples != [] && Duration(samples, dt) > maxLength
        invariant !loaded ==> Shortened(samples, dt, maxLength) == Shortened(old(samples), dt, maxLength)
        invariant loaded ==> samples == old(samples)
        invariant |samples| <= |old(samples)|
        invariant first == old(first) + (|old(samples)| - |samples|)
        decreases |samples|
      {
        samples := samples[1..];
        first := first + 1;
      }
    }

    /** `calculateHeartBeatDetectionParams`: on a buffer of at least three
        seconds the threshold becomes the multiplier times the largest
        sample; otherwise it keeps its value. */
    method CalculateHeartBeatDetectionParams()
      modifies `threshold
      ensures samples != [] && Duration(samples, dt) >= MinOfLengthInPeakDetection ==>
              threshold == AdaptedThreshold(samples, multiplier)
      ensures !(samples != [] && Duration(samples, dt) >= MinOfLengthInPeakDetection) ==>
              threshold == old(threshold)
    {
      if samples != [] {
        if Duration(samples, dt) >= MinOfLengthInPeakDetection {
          var max := MaxOf(samples);
          threshold := multiplier * max;
        }
      }
    }

    /** `heartBeatDetection` on this object's buffer and beat list: one
        scanning pass appends the beats it finds, then the beats before the
        buffer's first sample are removed. */
    method HeartBeatDetection(thr: real, peakTime: real, jumpTime: real)
      requires Valid()
      requires DetectionInBounds(samples, first, dt, beats, peakTime, jumpTime)
      modifies `beats
      ensures beats == Detected(samples, first, dt, old(beats), thr, peakTime, jumpTime)
      ensures Valid()
    {
      var s, f, d, known := samples, first, dt, beats;
      var found := known;
      if !(s != [] && Duration(s, d) <= MinOfLengthInPeakDetection) {
        var startIndex, jumpInIndex, timeToPeakInIndex := PassIndices(peakTime, jumpTime);
        if |s| - startIndex > timeToPeakInIndex {
          found := Scanned(known, startIndex, thr, timeToPeakInIndex, jumpInIndex);
        }
      }
      assert found == Appended(s, f, d, known, thr, peakTime, jumpTime);
      beats := found;
      TrimStaleBeats();
      DetectedIncreasing(s, f, d, known, thr, peakTime, jumpTime);
    }

    /** The index calculation of `heartBeatDetection`: the last beat's time
        converted back to a buffer position, one past it and past the
        refractory jump; the jump, clamped at zero; and the peak window. */
    method PassIndices(peakTime: real, jumpTime: real) returns (startIndex: int, jumpInIndex: nat, timeToPeakInIndex: int)
      requires dt > 0.0
      ensures jumpInIndex == JumpInIndex(jumpTime, dt)
      ensures timeToPeakInIndex == TimeToPeakInIndex(peakTime, dt)
      ensures startIndex == StartIndex(beats, first, jumpInIndex)
    {
      if beats == [] {
        startIndex := 0;
      } else {
        var last := beats[|beats| - 1];
        var f, t0, d := first, origin, dt;
        SampleOffset(last, f, t0, d);
        // the last beat's time less the buffer's start time, in samples
        startIndex := Round((BeatTime(last, t0, d) - (t0 + f as real * d)) / d) + 1;
      }
      var jump := Round(jumpTime / dt) - 1;
      timeToPeakInIndex := Round(peakTime / dt);
      if jump < 0 {
        jump := 0;
      }
      jumpInIndex := jump;
      if beats != [] {
        startIndex := startIndex + jumpInIndex;
      }
    }

    /** The trimming at the end of `heartBeatDetection`: while the buffer
        holds samples, beats earlier than its first sample are removed from
        the front. */
    method TrimStaleBeats()
      requires dt > 0.0
      modifies `beats
      ensures beats == if samples != [] then Trimmed(old(beats), first) else old(beats)
    {
      while beats != [] && samples != [] && BeatTime(beats[0], origin, dt) < origin + first as real * dt
        invariant samples != [] ==> Trimmed(beats, first) == Trimmed(old(beats), first)
        invariant samples == [] ==> beats == old(beats)
        decreases |beats|
      {
        BeatTimeOrder(beats[0], first, origin, dt);
        beats := beats[1..];
      }
      if beats != [] && samples != [] {
        BeatTimeOrder(beats[0], first, origin, dt);
      }
    }

    /** The scanning loop of `heartBeatDetection` from buffer position
        `index`: the known beats followed by those the scan finds. */
    method Scanned(known: seq<Beat>, startIndex: int, thr: real, ttp: int, jump: nat) returns (found: seq<Beat>)
      requires 0 <= startIndex
      ensures found == known + Scan(samples, first, startIndex, thr, ttp, jump)
    {
      found := known;
      var index := startIndex;
      while |samples| > index
        invariant 0 <= index
        invariant found + Scan(samples, first, index, thr, ttp, jump) == known + Scan(samples, first, startIndex, thr, ttp, jump)
        decreases |samples| - index
      {
        if samples[index] >= thr {
          var maxIndex := index;
          if ttp >= |samples| - index {
            // too few data for the peak window: the pass ends here
            assert Scan(samples, first, index, thr, ttp, jump) == [];
            break;
          }
          maxIndex := PeakIndex(index, ttp);
          ghost var rest := Scan(samples, first, maxIndex + jump + 1, thr, ttp, jump);
          assert Scan(samples, first, index, thr, ttp, jump) == [Beat(first + maxIndex, samples[maxIndex])] + rest;
          found := found + [Beat(first + maxIndex, samples[maxIndex])];
          index := index + (maxIndex - index) + jump;
        }
        index := index + 1;
      }
    }

    /** The peak search of one beat: the index of the first maximum in the
        `ttp + 1` samples from `index`. */
    method PeakIndex(index: nat, ttp: int) returns (maxIndex: int)
      requires index < |samples| && ttp < |samples| - index
      ensures maxIndex == WindowMax(samples, index, index + ttp)
    {
      maxIndex := index;
      var tempIndex := index;
      while tempIndex - index <= ttp
        invariant index <= tempIndex && (tempIndex == index || tempIndex - 1 <= index + ttp)
        invariant maxIndex == WindowMax(samples, index, tempIndex - 1)
        decreases index + ttp + 1 - tempIndex
      {
        if samples[maxIndex] < samples[tempIndex] {
          maxIndex := tempIndex;
        }
        tempIndex := tempIndex + 1;
      }
    }

    /** `calculateRRintervals`: with at least one beat the R-R series is
        rebuilt from consecutive beats; with none it is left as it was. */
    method CalculateRRintervals()
      requires Valid()
      modifies `rr
      ensures beats == [] ==> rr == old(rr)
      ensures beats != [] ==> rr == RRSeries(beats, origin, dt)
      ensures Valid()
    {
      if beats == [] {
        return;
      }
      rr := RRPoints(beats, origin, dt);
      RRFromSampleDistance(beats, origin, dt);
    }

    /** The loop of `calculateRRintervals`: walking the beats pairwise, each
        later beat gives a point at its time holding the gap in ms. */
    static method RRPoints(bs: seq<Beat>, t0: real, d: real) returns (out: seq<Point>)
      requires |bs| >= 1
      ensures out == RRSeries(bs, t0, d)
    {
      out := [];
      var point2 := bs[0];
      var i := 1;
      while i < |bs|
        invariant 1 <= i <= |bs| && point2 == bs[i - 1]
        invariant out == RRSeries(bs, t0, d)[..i - 1]
      {
        var point1 := point2;
        point2 := bs[i];
        var x2 := BeatTime(point2, t0, d);
        out := out + [Point(x2, 1000.0 * (x2 - BeatTime(point1, t0, d)))];
        i := i + 1;
      }
    }

    /** `calculateNormalRRintervals`: an empty R-R series leaves the
        corrected series as it was; otherwise it becomes the corrected
        R-R series, which is empty for a single interval. */
    method CalculateNormalRRintervals(interp: (real, Point, Point) -> real)
      modifies `normalRR
      ensures rr == [] ==> normalRR == old(normalRR)
      ensures rr != [] ==> normalRR == NormalRR(rr, interp)
    {
      if rr == [] {
        return;
      }
      if |rr| == 1 {
        normalRR := [];
        return;
      }
      var point2 := rr[0];
      var point3 := rr[1];
      var out := [point2];
      var i := 2;
      while i < |rr|
        invariant 2 <= i <= |rr| && point2 == rr[i - 2] && point3 == rr[i - 1]
        invariant |out| == i - 1
        invariant forall k :: 0 <= k < i - 1 ==> out[k] == NormalPoint(rr, k, interp)
      {
        var point1 := point2;
        point2 := point3;
        point3 := rr[i];
        if point2.y > 1.5 * point1.y || point2.y < 0.5 * point1.y {
          out := out + [Point(point2.x, interp(point2.x, point1, point3))];
        } else {
          out := out + [point2];
        }
        i := i + 1;
      }
      if point3.y > 1.5 * point2.y || point3.y < 0.5 * point2.y {
        out := out + [Point(point2.x, point2.y)];
      } else {
        out := out + [point3];
      }
      normalRR := out;
    }

    /** `calculateStatistics`: over a non-empty R-R series the histogram is
        rebuilt with `numberOfSlices` bins between the shortest and the
        longest interval; an empty series leaves it as it was. */
    method CalculateStatistics()
      requires rr != [] ==> numberOfSlices != 0
      modifies `statistics
      ensures rr == [] ==> statistics == old(statistics)
      ensures rr != [] ==> statistics == Histogram.Histogram(Ys(rr), numberOfSlices)
    {
      if rr == [] {
        return;
      }
      statistics := HistogramOf(Ys(rr), numberOfSlices);
    }

    /** The histogram loops of `calculateStatistics` over the interval
        values `ys`. */
    static method HistogramOf(ys: seq<real>, slices: int) returns (out: seq<Point>)
      requires |ys| >= 1 && slices != 0
      ensures out == Histogram.Histogram(ys, slices)
    {
      var min, max := Extrema(ys);
      var resolution := (max - min) / slices as real;
      var y := BinSize(ys, min, min + resolution, true);
      out := [Point(min + resolution / 2.0, y)];
      assert out == BinPoints(ys, min, resolution, 1);
      var i := 1;
      while i < slices
        invariant 1 <= i <= Bins(slices)
        invariant out == BinPoints(ys, min, resolution, i)
      {
        out := AppendBin(ys, min, resolution, i, out);
        i := i + 1;
      }
      assert resolution == Resolution(ys, slices);
      HistogramIsBinPoints(ys, slices);
    }

    /** One pass of the bin loop of `calculateStatistics`: bin `i`, open
        below, counted and appended at its centre. */
    static method AppendBin(ys: seq<real>, min: real, resolution: real, i: nat, out: seq<Point>) returns (r: seq<Point>)
      requires i >= 1 && out == BinPoints(ys, min, resolution, i)
      ensures r == BinPoints(ys, min, resolution, i + 1)
    {
      var lo, hi := min + i as real * resolution, min + (i + 1) as real * resolution;
      var y := BinSize(ys, lo, hi, false);
      r := out + [Point(lo + resolution / 2.0, y)];
    }

    /** The first loop of `calculateStatistics`: the smallest and the
        largest value. Starting from the infinities, the first value always
        replaces both, so the loop starts from it. */
    static method Extrema(ys: seq<real>) returns (min: real, max: real)
      requires |ys| >= 1
      ensures min == MinOf(ys) && max == MaxOf(ys)
    {
      min, max := ys[0], ys[0];
      var i := 1;
      while i < |ys|
        invariant 1 <= i <= |ys|
        invariant min == MinOf(ys[..i]) && max == MaxOf(ys[..i])
      {
        assert ys[..i + 1][..i] == ys[..i];
        if ys[i] > max {
          max := ys[i];
        }
        if ys[i] < min {
          min := ys[i];
        }
        i := i + 1;
      }
      assert ys[..i] == ys;
    }

    /** One bin loop of `calculateStatistics`: the number of values in the
        bin from `lo` to `hi`. */
    static method BinSize(ys: seq<real>, lo: real, hi: real, closedLo: bool) returns (y: real)
      ensures y == Count(ys, lo, hi, closedLo) as real
    {
      y := 0.0;
      var j := 0;
      while j < |ys|
        invariant 0 <= j <= |ys|
        invariant y == Count(ys[..j], lo, hi, closedLo) as real
      {
        assert ys[..j + 1][..j] == ys[..j];
        if InBin(ys[j], lo, hi, closedLo) {
          y := y + 1.0;
        }
        j := j + 1;
      }
      assert ys[..j] == ys;
    }

    /** `calculateBeatsPerMinute`: over a non-empty R-R series each interval
        becomes the heart rate at the same x; an empty series leaves the
        rates as they were. */
    method CalculateBeatsPerMinute()
      requires Valid()
      modifies `bpm
      ensures rr == [] ==> bpm == old(bpm)
      ensures rr != [] ==> bpm == Bpm(rr)
    {
      if rr == [] {
        return;
      }
      var out: seq<Point> := [];
      var i := 0;
      while i < |rr|
        invariant 0 <= i <= |rr|
        invariant out == Bpm(rr)[..i]
      {
        out := out + [Point(rr[i].x, 60000.0 / rr[i].y)];
        i := i + 1;
      }
      bpm := out;
    }

    /** `nonSpectralAnalysis`: the indicators of the corrected R-R series. */
    method NonSpectralAnalysis(sqrt: real -> real)
      modifies `pulse, `meanRR, `sdRR, `rMSSD, `pNN50
      ensures Indicators(pulse, meanRR, sdRR, rMSSD, pNN50) == NonSpectral(Ys(normalRR), sqrt)
    {
      var r := Indicate(Ys(normalRR), sqrt);
      pulse, meanRR, sdRR, rMSSD, pNN50 := r.pulse, r.meanRR, r.sdRR, r.rMSSD, r.pNN50;
    }

    /** The computation of `nonSpectralAnalysis` over the interval values
        `ys`: one pass accumulates the sums, then the quotients are taken. */
    static method Indicate(ys: seq<real>, sqrt: real -> real) returns (r: Indicators)
      ensures r == NonSpectral(ys, sqrt)
    {
      var n, meanRRdouble, sdRRdouble, rMSSDdouble, noc := Accumulate(ys);
      if n == 0 {
        // the mean and the mean square are 0/0: NaN, rounded to 0 and never
        // positive; rMSSD and pNN50 divide 0 by -1
        return Indicators(0.0, 0, 0, 0, Num(0.0));
      }
      meanRRdouble := meanRRdouble / n as real;
      assert meanRRdouble == Mean(ys);
      sdRRdouble := sdRRdouble / n as real;
      ghost var variance := SumSq(ys) / |ys| as real - Mean(ys) * Mean(ys);
      assert sdRRdouble - meanRRdouble * meanRRdouble == variance;
      sdRRdouble := sqrt(sdRRdouble - meanRRdouble * meanRRdouble);
      var pulse := if meanRRdouble > 0.0 then 60000.0 / meanRRdouble else 0.0;
      var meanRR := Round(meanRRdouble);
      var sdRR := Round(sdRRdouble);
      ghost var sd := Round(sqrt(variance));
      assert sdRR == sd && NonSpectral(ys, sqrt).sdRR == sd;
      if n == 1 {
        // the quotients over n - 1 are 0/0: NaN
        return Indicators(pulse, meanRR, sdRR, 0, NaN);
      }
      rMSSDdouble := sqrt(rMSSDdouble / (n - 1) as real);
      var rMSSD := Round(rMSSDdouble);
      var pNN50 := 100.0 * (noc as real / (n - 1) as real);
      r := Indicators(pulse, meanRR, sdRR, rMSSD, Num(pNN50));
    }

    /** The loop of `nonSpectralAnalysis`: the count, the sum, the sum of
        squares, the sum of squared successive differences and the number
        of successive differences above 50 ms. */
    static method Accumulate(ys: seq<real>) returns (n: nat, sum: real, sumSq: real, sumDiffSq: real, noc: nat)
      ensures n == |ys| && sum == Sum(ys) && sumSq == SumSq(ys)
      ensures sumDiffSq == SumDiffSq(ys) && noc == Nn50(ys)
    {
      n, sum, sumSq, sumDiffSq, noc := 0, 0.0, 0.0, 0.0, 0;
      var prevPointY := 0.0;
      while n < |ys|
        invariant 0 <= n <= |ys|
        invariant sum == Sum(ys[..n]) && sumSq == SumSq(ys[..n])
        invariant sumDiffSq == SumDiffSq(ys[..n]) && noc == Nn50(ys[..n])
        invariant n > 0 ==> prevPointY == ys[n - 1]
      {
        var pointY := ys[n];
        assert ys[..n + 1][..n] == ys[..n];
        sum := sum + pointY;
        sumSq := sumSq + pointY * pointY;
        if n > 0 {
          var delta := prevPointY - pointY;
          sumDiffSq := sumDiffSq + delta * delta;
          if Abs(delta) > Nn50Limit {
            noc := noc + 1;
          }
        }
        prevPointY := pointY;
        n := n + 1;
      }
      assert ys[..n] == ys;
    }

    /** `reset`: the buffer and every series are cleared, and the histogram
        and resampling settings, the threshold and `meanRR` return to their
        defaults; the other indicators keep their values. */
    method Reset()
      requires Valid()
      modifies `samples, `beats, `rangeOfBeats, `rr, `normalRR, `sampledRR, `statistics, `bpm
      modifies `numberOfSlices, `numberOfSamples, `samplingTime, `threshold, `meanRR
      ensures Valid()
      ensures samples == [] && beats == [] && rangeOfBeats == [] && rr == [] && normalRR == []
      ensures sampledRR == [] && statistics == [] && bpm == []
      ensures numberOfSlices == DefaultNumberOfSlices && numberOfSamples == DefaultNumberOfSamples
      ensures samplingTime == DefaultSamplingTime && threshold == 0.0 && meanRR == 0
    {
      ClearCurves();
      RestoreSettings();
    }

    /** The curve-clearing half of `reset`. */
    method ClearCurves()
      requires Valid()
      modifies `samples, `beats, `rangeOfBeats, `rr, `normalRR, `sampledRR, `statistics, `bpm
      ensures Valid()
      ensures samples == [] && beats == [] && rangeOfBeats == [] && rr == [] && normalRR == []
      ensures sampledRR == [] && statistics == [] && bpm == []
    {
      samples := [];
      beats := [];
      rangeOfBeats := [];
      rr := [];
      normalRR := [];
      sampledRR := [];
      statistics := [];
      bpm := [];
    }

    /** The settings half of `reset`: back to the defaults, with the
        threshold and `meanRR`. */
    method RestoreSettings()
      requires Valid()
      modifies `numberOfSlices, `numberOfSamples, `samplingTime, `threshold, `meanRR
      ensures Valid()
      ensures numberOfSlices == DefaultNumberOfSlices && numberOfSamples == DefaultNumberOfSamples
      ensures samplingTime == DefaultSamplingTime && threshold == 0.0 && meanRR == 0
    {
      numberOfSlices := DefaultNumberOfSlices;
      numberOfSamples := DefaultNumberOfSamples;
      samplingTime := DefaultSamplingTime;
      threshold := 0.0;
      meanRR := 0;
    }
  }
}
