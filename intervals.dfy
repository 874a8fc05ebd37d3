/** The series derived from the beat list: R-R intervals in milliseconds,
    their ectopic-corrected version, and beats per minute. */
module Intervals {
  import opened JavaTypes
  import opened RealSeq
  import opened BeatDetection

  /** A point of an x-y series (`SignalPoint`). */
  datatype Point = Point(x: real, y: real)

  /** The y values of a series. */
  function Ys(ps: seq<Point>): (r: seq<real>)
    ensures |r| == |ps| && forall k :: 0 <= k < |ps| ==> r[k] == ps[k].y
  {
    seq(|ps|, k requires 0 <= k < |ps| => ps[k].y)
  }

  /** The time of a beat: the time of its sample. */
  function BeatTime(b: Beat, origin: real, dt: real): real
  {
    origin + b.pos as real * dt
  }

  /** With a positive sampling period times compare like sample indices:
      a beat lies before the sample with absolute index `first` exactly when
      its index is smaller. */
  lemma BeatTimeOrder(b: Beat, first: int, origin: real, dt: real)
    requires dt > 0.0
    ensures BeatTime(b, origin, dt) < origin + first as real * dt <==> b.pos < first
  {
    var d := (first - b.pos) as real;
    assert (origin + first as real * dt) - BeatTime(b, origin, dt) == d * dt;
    if b.pos < first {
      assert d > 0.0;
    } else {
      assert d <= 0.0;
      assert d * dt <= 0.0;
    }
  }

  /** Converting a beat's time back to a buffer position, as the detector
      does with `Math.round((x - startTime) / dt)`, gives its sample offset
      from the buffer's first sample exactly. */
  lemma SampleOffset(b: Beat, first: int, origin: real, dt: real)
    requires dt > 0.0
    ensures Round((BeatTime(b, origin, dt) - (origin + first as real * dt)) / dt) == b.pos - first
  {
    var d := (b.pos - first) as real;
    assert BeatTime(b, origin, dt) - (origin + first as real * dt) == d * dt;
    assert d * dt / dt == d;
    var r := Round(d);
    assert d - 0.5 < r as real <= d + 0.5;
  }

  /** `calculateRRintervals` on a non-empty beat list: one point per pair of
      consecutive beats, at the later beat's time, holding the time between
      them in milliseconds. */
  function RRSeries(bs: seq<Beat>, origin: real, dt: real): (r: seq<Point>)
    requires |bs| >= 1
    ensures |r| == |bs| - 1
  {
    seq(|bs| - 1, i requires 0 <= i < |bs| - 1 =>
      Point(BeatTime(bs[i + 1], origin, dt), 1000.0 * (BeatTime(bs[i + 1], origin, dt) - BeatTime(bs[i], origin, dt))))
  }

  /** Each interval is the sample distance of its two beats times the
      sampling period, in milliseconds; so beats in order give intervals
      that are all positive. */
  lemma RRFromSampleDistance(bs: seq<Beat>, origin: real, dt: real)
    requires |bs| >= 1
    ensures var r := RRSeries(bs, origin, dt);
      forall i :: 0 <= i < |r| ==> r[i].y == 1000.0 * ((bs[i + 1].pos - bs[i].pos) as real * dt)
    ensures dt > 0.0 && Increasing(bs) ==>
      forall i :: 0 <= i < |bs| - 1 ==> RRSeries(bs, origin, dt)[i].y > 0.0
  {
    var r := RRSeries(bs, origin, dt);
    forall i | 0 <= i < |r|
      ensures r[i].y == 1000.0 * ((bs[i + 1].pos - bs[i].pos) as real * dt)
      ensures dt > 0.0 && bs[i].pos < bs[i + 1].pos ==> r[i].y > 0.0
    {
      TimeDifference(bs[i].pos as real, bs[i + 1].pos as real, origin, dt);
    }
  }

  lemma TimeDifference(a: real, b: real, origin: real, dt: real)
    ensures (origin + b * dt) - (origin + a * dt) == (b - a) * dt
    ensures dt > 0.0 && a < b ==> 1000.0 * ((b - a) * dt) > 0.0
  {
  }

  /** The intervals add up to the time from the first beat to the last, in
      milliseconds. */
  lemma {:induction false} RRSumIsSpan(bs: seq<Beat>, origin: real, dt: real)
    requires |bs| >= 1
    ensures Sum(Ys(RRSeries(bs, origin, dt))) ==
            1000.0 * (BeatTime(bs[|bs| - 1], origin, dt) - BeatTime(bs[0], origin, dt))
  {
    if |bs| > 1 {
      var init := bs[..|bs| - 1];
      RRSumIsSpan(init, origin, dt);
      var ys := Ys(RRSeries(bs, origin, dt));
      assert ys[..|ys| - 1] == Ys(RRSeries(init, origin, dt));
    }
  }

  /** An interval is ectopic when it is more than half again, or less than
      half, the interval before it. */
  predicate Ectopic(prev: real, y: real)
  {
    y > 1.5 * prev || y < 0.5 * prev
  }

  /** Point `k` of the corrected series: the first point as it is; an
      interior ectopic point keeps its x and takes the value `interp`
      gives between its original neighbours; an ectopic last point is
      replaced by the point before it. */
  function NormalPoint(rr: seq<Point>, k: nat, interp: (real, Point, Point) -> real): Point
    requires 1 <= k < |rr| || (k == 0 && |rr| >= 1)
  {
    if k == 0 then rr[0]
    else if !Ectopic(rr[k - 1].y, rr[k].y) then rr[k]
    else if k < |rr| - 1 then Point(rr[k].x, interp(rr[k].x, rr[k - 1], rr[k + 1]))
    else Point(rr[k - 1].x, rr[k - 1].y)
  }

  /** `calculateNormalRRintervals` on a non-empty series: a single interval
      gives an empty corrected series, otherwise every point is corrected. */
  function NormalRR(rr: seq<Point>, interp: (real, Point, Point) -> real): (r: seq<Point>)
    requires |rr| >= 1
  {
    if |rr| == 1 then [] else seq(|rr|, k requires 0 <= k < |rr| => NormalPoint(rr, k, interp))
  }

  /** The correction keeps the number of points (two or more) and copies
      the first. */
  lemma NormalRRLength(rr: seq<Point>, interp: (real, Point, Point) -> real)
    requires |rr| >= 2
    ensures |NormalRR(rr, interp)| == |rr| && NormalRR(rr, interp)[0] == rr[0]
  {
  }

  /** An interior point keeps its x, and is replaced by the interpolated
      value exactly when it is ectopic against the uncorrected point before
      it; otherwise it is copied. */
  lemma NormalRRInterior(rr: seq<Point>, interp: (real, Point, Point) -> real, k: nat)
    requires 1 <= k < |rr| - 1
    ensures var p := NormalRR(rr, interp)[k];
      p.x == rr[k].x &&
      (Ectopic(rr[k - 1].y, rr[k].y) ==> p.y == interp(rr[k].x, rr[k - 1], rr[k + 1])) &&
      (!Ectopic(rr[k - 1].y, rr[k].y) ==> p == rr[k])
  {
  }

  /** An ectopic last point is replaced by a copy of the point before it,
      so the corrected series then holds two points with that x. */
  lemma NormalRRLast(rr: seq<Point>, interp: (real, Point, Point) -> real)
    requires |rr| >= 2
    ensures var r := NormalRR(rr, interp);
      var n := |rr|;
      (Ectopic(rr[n - 2].y, rr[n - 1].y) ==> r[n - 1] == rr[n - 2] && r[n - 1].x == r[n - 2].x) &&
      (!Ectopic(rr[n - 2].y, rr[n - 1].y) ==> r[n - 1] == rr[n - 1])
  {
    var r := NormalRR(rr, interp);
    var n := |rr|;
    if n > 2 {
      NormalRRInterior(rr, interp, n - 2);
    }
  }

  /** A series with no ectopic interval passes the correction unchanged. */
  lemma NormalRRWithoutEctopic(rr: seq<Point>, interp: (real, Point, Point) -> real)
    requires |rr| >= 2
    requires forall k :: 1 <= k < |rr| ==> !Ectopic(rr[k - 1].y, rr[k].y)
    ensures NormalRR(rr, interp) == rr
  {
    var r := NormalRR(rr, interp);
    assert forall k :: 0 <= k < |rr| ==> r[k] == rr[k];
  }

  /** Linear interpolation at `x` between two points, the value being the
      first point's when both share their x. */
  function LinearAt(x: real, a: Point, b: Point): real
  {
    if b.x == a.x then a.y else a.y + (x - a.x) * (b.y - a.y) / (b.x - a.x)
  }

  /** The correction is not idempotent: its ectopic test compares each point
      with the uncorrected point before it, and an ectopic last point is
      replaced by the uncorrected second-to-last point. Here the second
      pass finds that copied point ectopic against its corrected neighbour
      and replaces it again. */
  lemma NormalRRNotIdempotent()
    ensures var rr := [Point(1.0, 100.0), Point(2.0, 100.0), Point(3.0, 400.0), Point(4.0, 100.0)];
      var once := NormalRR(rr, LinearAt);
      once == [Point(1.0, 100.0), Point(2.0, 100.0), Point(3.0, 100.0), Point(3.0, 400.0)] &&
      NormalRR(once, LinearAt) == [Point(1.0, 100.0), Point(2.0, 100.0), Point(3.0, 100.0), Point(3.0, 100.0)] &&
      NormalRR(once, LinearAt) != once
  {
    var rr := [Point(1.0, 100.0), Point(2.0, 100.0), Point(3.0, 400.0), Point(4.0, 100.0)];
    var once := NormalRR(rr, LinearAt);
    assert once[2] == Point(3.0, LinearAt(3.0, rr[1], rr[3]));
    assert once == [Point(1.0, 100.0), Point(2.0, 100.0), Point(3.0, 100.0), Point(3.0, 400.0)];
    var twice := NormalRR(once, LinearAt);
    assert twice[3] == Point(once[2].x, once[2].y);
    assert twice == [Point(1.0, 100.0), Point(2.0, 100.0), Point(3.0, 100.0), Point(3.0, 100.0)];
    assert twice[3] != once[3];
  }

  /** `calculateBeatsPerMinute`: each interval in milliseconds becomes the
      corresponding heart rate at the same x. */
  function Bpm(rr: seq<Point>): (r: seq<Point>)
    requires forall k :: 0 <= k < |rr| ==> rr[k].y != 0.0
    ensures |r| == |rr|
  {
    seq(|rr|, k requires 0 <= k < |rr| => Point(rr[k].x, 60000.0 / rr[k].y))
  }

  /** The rate conversion is its own inverse: the heart rates determine the
      intervals they came from, and positive intervals give positive rates. */
  lemma BpmInverse(rr: seq<Point>)
    requires forall k :: 0 <= k < |rr| ==> rr[k].y != 0.0
    ensures var b := Bpm(rr);
      (forall k :: 0 <= k < |b| ==> b[k].y != 0.0) && Bpm(b) == rr &&
      ((forall k :: 0 <= k < |rr| ==> rr[k].y > 0.0) ==> forall k :: 0 <= k < |b| ==> b[k].y > 0.0)
  {
    var b := Bpm(rr);
    forall k | 0 <= k < |rr|
      ensures b[k].y != 0.0 && 60000.0 / b[k].y == rr[k].y
    {
      var y := rr[k].y;
      assert b[k].y * y == 60000.0;
    }
    assert Bpm(b) == rr;
  }
}
