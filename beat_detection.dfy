/** Heart-beat detection on a phonocardiogram, as functions of the waveform
    buffer: the level-crossing scan with its first-maximum search and its
    refractory jump, the trimming of stale beats, and the shortening of the
    buffer to a maximum duration.

    The waveform buffer holds `samples`, taken every `dt` seconds. Beats are
    located by absolute sample index: `first` is the absolute index of
    `samples[0]`, so the sample at buffer position `i` has absolute index
    `first + i` and time `origin + (first + i) * dt`. */
module BeatDetection {
  import opened JavaTypes
  import opened RealSeq

  /** A buffer must last longer than this (in seconds) before beats are
      searched in it or the threshold is adapted to it. */
  const MinOfLengthInPeakDetection: real := 3.0

  /** A detected beat: the absolute index of its peak sample and the value
      of that sample. */
  datatype Beat = Beat(pos: int, value: real)

  /** `SignalD.getLength()`: the duration the buffer covers. */
  function Duration(samples: seq<real>, dt: real): real
  {
    |samples| as real * dt
  }

  /** Beats in strictly increasing sample order. */
  predicate Increasing(bs: seq<Beat>)
  {
    forall i, j :: 0 <= i < j < |bs| ==> bs[i].pos < bs[j].pos
  }

  /** Consecutive beats at least `jump + 1` samples apart. */
  predicate Spaced(bs: seq<Beat>, jump: int)
  {
    forall k :: 0 <= k < |bs| - 1 ==> bs[k].pos + jump + 1 <= bs[k + 1].pos
  }

  /** The peak search of one beat: the index of the first maximum among
      `s[lo..hi]` (both ends included), or `lo` when the window is empty. */
  function WindowMax(s: seq<real>, lo: int, hi: int): (m: int)
    requires 0 <= lo < |s| && hi < |s|
    ensures lo <= m && (m <= hi || m == lo)
    decreases hi - lo
  {
    if hi <= lo then lo
    else
      var m := WindowMax(s, lo, hi - 1);
      if s[m] < s[hi] then hi else m
  }

  /** The peak search finds a maximum of the window, and the first one:
      every earlier sample of the window is strictly smaller. */
  lemma {:induction false} WindowMaxIsFirstMax(s: seq<real>, lo: int, hi: int)
    requires 0 <= lo < |s| && hi < |s|
    ensures var m := WindowMax(s, lo, hi);
      (forall k :: lo <= k <= hi ==> s[k] <= s[m]) &&
      (forall k :: lo <= k < m ==> s[k] < s[m])
    decreases hi - lo
  {
    if hi > lo {
      WindowMaxIsFirstMax(s, lo, hi - 1);
    }
  }

  /** The beats found by scanning `s` from buffer position `index`: at the
      first sample that reaches `threshold`, the first maximum within the
      next `ttp` samples is a beat and the scan resumes `jump + 1` samples
      after it. A crossing too close to the end of the buffer for its whole
      window stops the scan. */
  function Scan(s: seq<real>, first: int, index: int, threshold: real, ttp: int, jump: nat): seq<Beat>
    requires 0 <= index
    decreases |s| - index
  {
    if index >= |s| then []
    else if s[index] >= threshold then
      if ttp >= |s| - index then []
      else
        var m := WindowMax(s, index, index + ttp);
        [Beat(first + m, s[m])] + Scan(s, first, m + jump + 1, threshold, ttp, jump)
    else Scan(s, first, index + 1, threshold, ttp, jump)
  }

  /** Every beat lies in the buffer at or after absolute index `from`,
      records the sample at its index, and that sample reaches the
      threshold. */
  predicate PeaksInBuffer(r: seq<Beat>, s: seq<real>, first: int, from: int, threshold: real)
    requires first <= from
  {
    forall k :: 0 <= k < |r| ==>
      from <= r[k].pos && first <= r[k].pos < first + |s| &&
      r[k].value == s[r[k].pos - first] && r[k].value >= threshold
  }

  /** One step of the scan at a crossing with room for its window: the
      beat at the window's first maximum, then the scan after the jump. */
  lemma ScanAtCrossing(s: seq<real>, first: int, index: int, threshold: real, ttp: int, jump: nat)
    requires 0 <= index < |s| && s[index] >= threshold && ttp < |s| - index
    ensures var m := WindowMax(s, index, index + ttp);
      index <= m < |s| && s[m] >= threshold &&
      Scan(s, first, index, threshold, ttp, jump) ==
        [Beat(first + m, s[m])] + Scan(s, first, m + jump + 1, threshold, ttp, jump)
  {
    WindowMaxIsFirstMax(s, index, index + ttp);
  }

  lemma PeaksCons(b: Beat, rest: seq<Beat>, s: seq<real>, first: int, from: int, threshold: real)
    requires first <= from <= b.pos < first + |s| && b.value == s[b.pos - first] && b.value >= threshold
    requires PeaksInBuffer(rest, s, first, b.pos, threshold)
    ensures PeaksInBuffer([b] + rest, s, first, from, threshold)
  {
    var r := [b] + rest;
    forall k | 0 <= k < |r|
      ensures from <= r[k].pos && first <= r[k].pos < first + |s|
      ensures r[k].value == s[r[k].pos - first] && r[k].value >= threshold
    {
      if k > 0 {
        assert r[k] == rest[k - 1];
      }
    }
  }

  lemma PeaksLater(r: seq<Beat>, s: seq<real>, first: int, from: int, later: int, threshold: real)
    requires first <= from <= later
    requires PeaksInBuffer(r, s, first, later, threshold)
    ensures PeaksInBuffer(r, s, first, from, threshold)
  {
  }

  /** The beats of a scan are samples of the buffer, at or after the scan's
      start, that reach the threshold. */
  lemma {:induction false} ScanInBuffer(s: seq<real>, first: int, index: int, threshold: real, ttp: int, jump: nat)
    requires 0 <= index
    ensures PeaksInBuffer(Scan(s, first, index, threshold, ttp, jump), s, first, first + index, threshold)
    decreases |s| - index, 1
  {
    if index < |s| {
      if s[index] >= threshold {
        if ttp < |s| - index {
          ScanInBufferAtCrossing(s, first, index, threshold, ttp, jump);
        }
      } else {
        ScanInBuffer(s, first, index + 1, threshold, ttp, jump);
        PeaksLater(Scan(s, first, index + 1, threshold, ttp, jump), s, first, first + index, first + index + 1, threshold);
      }
    }
  }

  lemma {:induction false} ScanInBufferAtCrossing(s: seq<real>, first: int, index: int, threshold: real, ttp: int, jump: nat)
    requires 0 <= index < |s| && s[index] >= threshold && ttp < |s| - index
    ensures PeaksInBuffer(Scan(s, first, index, threshold, ttp, jump), s, first, first + index, threshold)
    decreases |s| - index, 0
  {
    ScanAtCrossing(s, first, index, threshold, ttp, jump);
    var m := WindowMax(s, index, index + ttp);
    var b := Beat(first + m, s[m]);
    var rest := Scan(s, first, m + jump + 1, threshold, ttp, jump);
    assert Scan(s, first, index, threshold, ttp, jump) == [b] + rest;
    ScanInBuffer(s, first, m + jump + 1, threshold, ttp, jump);
    PeaksLater(rest, s, first, b.pos, b.pos + jump + 1, threshold);
    PeaksCons(b, rest, s, first, first + index, threshold);
  }

  /** Beat `b` is the peak of a crossing at buffer position `from` or later:
      a sample `c` that reaches the threshold, with a whole window of `ttp`
      samples after it, whose first maximum is `b`. */
  predicate PeakAt(s: seq<real>, first: int, from: int, b: Beat, threshold: real, ttp: int)
  {
    exists c :: from <= c && 0 <= c < |s| && c + ttp < |s| && s[c] >= threshold &&
      b.pos == first + WindowMax(s, c, c + ttp)
  }

  /** Every beat of a scan is the first maximum of the window after a
      crossing at or after the scan's start. */
  lemma {:induction false} ScanPeaks(s: seq<real>, first: int, index: int, threshold: real, ttp: int, jump: nat)
    requires 0 <= index
    ensures forall k :: 0 <= k < |Scan(s, first, index, threshold, ttp, jump)| ==>
      PeakAt(s, first, index, Scan(s, first, index, threshold, ttp, jump)[k], threshold, ttp)
    decreases |s| - index
  {
    var r := Scan(s, first, index, threshold, ttp, jump);
    if index < |s| {
      if s[index] >= threshold {
        if ttp < |s| - index {
          var m := WindowMax(s, index, index + ttp);
          ScanAtCrossing(s, first, index, threshold, ttp, jump);
          var rest := Scan(s, first, m + jump + 1, threshold, ttp, jump);
          assert r == [Beat(first + m, s[m])] + rest;
          ScanPeaks(s, first, m + jump + 1, threshold, ttp, jump);
          forall k | 0 <= k < |r|
            ensures PeakAt(s, first, index, r[k], threshold, ttp)
          {
            if k == 0 {
              assert index + ttp < |s|;
            } else {
              var b := rest[k - 1];
              assert r[k] == b;
              assert PeakAt(s, first, m + jump + 1, b, threshold, ttp);
              var c :| m + jump + 1 <= c && 0 <= c < |s| && c + ttp < |s| && s[c] >= threshold &&
                b.pos == first + WindowMax(s, c, c + ttp);
              assert index <= c;
            }
          }
        }
      } else {
        assert r == Scan(s, first, index + 1, threshold, ttp, jump);
        ScanPeaks(s, first, index + 1, threshold, ttp, jump);
        forall k | 0 <= k < |r|
          ensures PeakAt(s, first, index, r[k], threshold, ttp)
        {
          var b := r[k];
          assert PeakAt(s, first, index + 1, b, threshold, ttp);
          var c :| index + 1 <= c && 0 <= c < |s| && c + ttp < |s| && s[c] >= threshold &&
            b.pos == first + WindowMax(s, c, c + ttp);
        }
      }
    }
  }

  /** Consecutive beats of a scan are `jump + 1` or more samples apart. */
  lemma {:induction false} ScanSpaced(s: seq<real>, first: int, index: int, threshold: real, ttp: int, jump: nat)
    requires 0 <= index
    ensures Spaced(Scan(s, first, index, threshold, ttp, jump), jump)
    decreases |s| - index, 1
  {
    if index < |s| {
      if s[index] >= threshold {
        if ttp < |s| - index {
          ScanSpacedAtCrossing(s, first, index, threshold, ttp, jump);
        }
      } else {
        ScanSpaced(s, first, index + 1, threshold, ttp, jump);
      }
    }
  }

  /** No crossing is skipped: samples below the threshold are passed over,
      so the scan continues exactly as from the first sample that reaches
      it. */
  lemma {:induction false} ScanSkipsQuiet(s: seq<real>, first: int, index: int, c: int, threshold: real, ttp: int, jump: nat)
    requires 0 <= index <= c <= |s|
    requires forall j :: index <= j < c ==> s[j] < threshold
    ensures Scan(s, first, index, threshold, ttp, jump) == Scan(s, first, c, threshold, ttp, jump)
    decreases c - index
  {
    if index < c {
      ScanSkipsQuiet(s, first, index + 1, c, threshold, ttp, jump);
    }
  }

  /** The beats of a scan are in strictly increasing sample order. */
  lemma ScanIncreasing(s: seq<real>, first: int, index: int, threshold: real, ttp: int, jump: nat)
    requires 0 <= index
    ensures Increasing(Scan(s, first, index, threshold, ttp, jump))
  {
    var r := Scan(s, first, index, threshold, ttp, jump);
    ScanSpaced(s, first, index, threshold, ttp, jump);
    SpacedIncreasing(r, jump);
  }

  lemma {:induction false} SpacedIncreasing(bs: seq<Beat>, jump: nat)
    requires Spaced(bs, jump)
    ensures Increasing(bs)
  {
    if |bs| > 1 {
      var n := |bs| - 1;
      var init := bs[..n];
      assert Spaced(init, jump);
      SpacedIncreasing(init, jump);
      forall i, j | 0 <= i < j < |bs|
        ensures bs[i].pos < bs[j].pos
      {
        if j < n {
          assert bs[i] == init[i] && bs[j] == init[j];
        } else if i < n - 1 {
          assert bs[i] == init[i] && bs[n - 1] == init[n - 1];
        }
      }
    }
  }

  lemma {:induction false} ScanSpacedAtCrossing(s: seq<real>, first: int, index: int, threshold: real, ttp: int, jump: nat)
    requires 0 <= index < |s| && s[index] >= threshold && ttp < |s| - index
    ensures Spaced(Scan(s, first, index, threshold, ttp, jump), jump)
    decreases |s| - index, 0
  {
    ScanAtCrossing(s, first, index, threshold, ttp, jump);
    var m := WindowMax(s, index, index + ttp);
    var b := Beat(first + m, s[m]);
    var rest := Scan(s, first, m + jump + 1, threshold, ttp, jump);
    assert Scan(s, first, index, threshold, ttp, jump) == [b] + rest;
    ScanSpaced(s, first, m + jump + 1, threshold, ttp, jump);
    ScanInBuffer(s, first, m + jump + 1, threshold, ttp, jump);
    assert rest != [] ==> b.pos + jump + 1 <= rest[0].pos;
    SpacedCons(b, rest, jump);
  }

  lemma SpacedCons(b: Beat, rest: seq<Beat>, jump: nat)
    requires Spaced(rest, jump)
    requires rest != [] ==> b.pos + jump + 1 <= rest[0].pos
    ensures Spaced([b] + rest, jump)
  {
    var r := [b] + rest;
    forall k | 0 <= k < |r| - 1
      ensures r[k].pos + jump + 1 <= r[k + 1].pos
    {
      if k > 0 {
        assert r[k] == rest[k - 1] && r[k + 1] == rest[k];
      } else {
        assert r[1] == rest[0];
      }
    }
  }

  /** A suffix of beats in order is in order. */
  lemma SuffixIncreasing(bs: seq<Beat>, k: nat)
    requires Increasing(bs) && k <= |bs|
    ensures Increasing(bs[k..])
  {
    assert forall i :: 0 <= i < |bs| - k ==> bs[k..][i] == bs[k + i];
  }

  /** The stale-beat trimming: beats earlier than the first sample of the
      buffer are removed from the front. */
  function Trimmed(bs: seq<Beat>, first: int): seq<Beat>
    decreases |bs|
  {
    if bs != [] && bs[0].pos < first then Trimmed(bs[1..], first) else bs
  }

  /** Trimming keeps a suffix, removes only beats before the buffer, and on
      beats in order leaves none of those behind. */
  lemma {:induction false} TrimmedSuffix(bs: seq<Beat>, first: int)
    ensures var r := Trimmed(bs, first);
      |r| <= |bs| && r == bs[|bs| - |r|..] &&
      (forall k :: 0 <= k < |bs| - |r| ==> bs[k].pos < first) &&
      (Increasing(bs) ==> forall k :: 0 <= k < |r| ==> r[k].pos >= first)
    decreases |bs|
  {
    if bs != [] && bs[0].pos < first {
      TrimmedSuffix(bs[1..], first);
      assert Increasing(bs) ==> Increasing(bs[1..]);
    } else if bs != [] && Increasing(bs) {
      assert forall k :: 0 <= k < |bs| ==> bs[0].pos <= bs[k].pos;
    }
  }

  /** `jumpInIndex`: the refractory period in samples, less one, and never
      negative. */
  function JumpInIndex(jumpedTime: real, dt: real): (j: nat)
    requires dt > 0.0
    ensures Round(jumpedTime / dt) - 1 >= 0 ==> j == Round(jumpedTime / dt) - 1
    ensures Round(jumpedTime / dt) - 1 < 0 ==> j == 0
  {
    var j := Round(jumpedTime / dt) - 1;
    if j < 0 then 0 else j
  }

  /** `timeToPeakInIndex`: the peak-search window in samples. */
  function TimeToPeakInIndex(maxTimeToPeak: real, dt: real): int
    requires dt > 0.0
  {
    Round(maxTimeToPeak / dt)
  }

  /** The buffer position where a pass starts: the beginning of the buffer
      when no beat is known, else just past the last beat and its
      refractory jump. */
  function StartIndex(beats: seq<Beat>, first: int, jump: nat): int
  {
    if beats == [] then 0 else beats[|beats| - 1].pos - first + 1 + jump
  }

  /** The guards under which a pass finds nothing: a buffer that is too
      short, or too few samples after the start for one peak window. */
  predicate PassSkipped(samples: seq<real>, dt: real, start: int, ttp: int)
  {
    (samples != [] && Duration(samples, dt) <= MinOfLengthInPeakDetection) ||
    |samples| - start <= ttp
  }

  /** The scan never reads before the buffer: when a pass runs, its start
      lies inside it. */
  predicate DetectionInBounds(samples: seq<real>, first: int, dt: real, beats: seq<Beat>, maxTimeToPeak: real, jumpedTime: real)
    requires dt > 0.0
  {
    var jump := JumpInIndex(jumpedTime, dt);
    var ttp := TimeToPeakInIndex(maxTimeToPeak, dt);
    PassSkipped(samples, dt, StartIndex(beats, first, jump), ttp) || StartIndex(beats, first, jump) >= 0
  }

  /** The beats before trimming: the known beats, followed by those of the
      scan unless the pass is skipped. */
  function Appended(samples: seq<real>, first: int, dt: real, beats: seq<Beat>, threshold: real,
                    maxTimeToPeak: real, jumpedTime: real): seq<Beat>
    requires dt > 0.0 && DetectionInBounds(samples, first, dt, beats, maxTimeToPeak, jumpedTime)
  {
    var jump := JumpInIndex(jumpedTime, dt);
    var ttp := TimeToPeakInIndex(maxTimeToPeak, dt);
    var start := StartIndex(beats, first, jump);
    if PassSkipped(samples, dt, start, ttp) then beats
    else beats + Scan(samples, first, start, threshold, ttp, jump)
  }

  /** The beat list after one detection pass: the appended list, trimmed
      when the buffer holds samples. */
  function Detected(samples: seq<real>, first: int, dt: real, beats: seq<Beat>, threshold: real,
                    maxTimeToPeak: real, jumpedTime: real): seq<Beat>
    requires dt > 0.0 && DetectionInBounds(samples, first, dt, beats, maxTimeToPeak, jumpedTime)
  {
    var all := Appended(samples, first, dt, beats, threshold, maxTimeToPeak, jumpedTime);
    if samples != [] then Trimmed(all, first) else all
  }

  /** A pass only appends, in order: the beats it adds come strictly after
      the known ones, the first at least `jumpInIndex + 1` samples after the
      last known beat, and the list stays increasing. */
  lemma AppendedExtends(samples: seq<real>, first: int, dt: real, beats: seq<Beat>, threshold: real,
                        maxTimeToPeak: real, jumpedTime: real)
    requires dt > 0.0 && DetectionInBounds(samples, first, dt, beats, maxTimeToPeak, jumpedTime)
    requires Increasing(beats)
    ensures var all := Appended(samples, first, dt, beats, threshold, maxTimeToPeak, jumpedTime);
      |beats| <= |all| && all[..|beats|] == beats && Increasing(all) &&
      Spaced(all[|beats|..], JumpInIndex(jumpedTime, dt)) &&
      (0 < |beats| < |all| ==> beats[|beats| - 1].pos + JumpInIndex(jumpedTime, dt) + 1 <= all[|beats|].pos)
  {
    var jump := JumpInIndex(jumpedTime, dt);
    var ttp := TimeToPeakInIndex(maxTimeToPeak, dt);
    var start := StartIndex(beats, first, jump);
    var all := Appended(samples, first, dt, beats, threshold, maxTimeToPeak, jumpedTime);
    if !PassSkipped(samples, dt, start, ttp) {
      var r := Scan(samples, first, start, threshold, ttp, jump);
      ScanInBuffer(samples, first, start, threshold, ttp, jump);
      ScanSpaced(samples, first, start, threshold, ttp, jump);
      SpacedIncreasing(r, jump);
      assert r != [] ==> start + first <= r[0].pos;
      assert all == beats + r;
      assert all[|beats|..] == r;
      ConcatIncreasing(beats, r);
    }
  }

  /** Two runs of beats in order, the second starting after the end of the
      first, make one run in order. */
  lemma ConcatIncreasing(a: seq<Beat>, b: seq<Beat>)
    requires Increasing(a) && Increasing(b)
    requires a != [] && b != [] ==> a[|a| - 1].pos < b[0].pos
    ensures Increasing(a + b)
  {
    var c := a + b;
    forall i, j | 0 <= i < j < |c|
      ensures c[i].pos < c[j].pos
    {
      if j < |a| {
        assert c[i] == a[i] && c[j] == a[j];
      } else if i >= |a| {
        assert c[i] == b[i - |a|] && c[j] == b[j - |a|];
      } else {
        assert c[i] == a[i] && c[j] == b[j - |a|];
        assert a[i].pos <= a[|a| - 1].pos;
        assert b[0].pos <= b[j - |a|].pos;
      }
    }
  }

  /** After a pass over a non-empty buffer the beat list is in order and
      holds no beat before the buffer's first sample. */
  lemma DetectedIncreasing(samples: seq<real>, first: int, dt: real, beats: seq<Beat>, threshold: real,
                           maxTimeToPeak: real, jumpedTime: real)
    requires dt > 0.0 && DetectionInBounds(samples, first, dt, beats, maxTimeToPeak, jumpedTime)
    requires Increasing(beats)
    ensures var r := Detected(samples, first, dt, beats, threshold, maxTimeToPeak, jumpedTime);
      Increasing(r) && (samples != [] ==> forall k :: 0 <= k < |r| ==> r[k].pos >= first)
  {
    var all := Appended(samples, first, dt, beats, threshold, maxTimeToPeak, jumpedTime);
    AppendedIncreasing(samples, first, dt, beats, threshold, maxTimeToPeak, jumpedTime);
    if samples != [] {
      TrimmedSuffix(all, first);
      var t := Trimmed(all, first);
      assert t == all[|all| - |t|..];
      SuffixIncreasing(all, |all| - |t|);
    }
  }

  /** A pass keeps the beat list in order. */
  lemma AppendedIncreasing(samples: seq<real>, first: int, dt: real, beats: seq<Beat>, threshold: real,
                           maxTimeToPeak: real, jumpedTime: real)
    requires dt > 0.0 && DetectionInBounds(samples, first, dt, beats, maxTimeToPeak, jumpedTime)
    requires Increasing(beats)
    ensures Increasing(Appended(samples, first, dt, beats, threshold, maxTimeToPeak, jumpedTime))
  {
    var jump := JumpInIndex(jumpedTime, dt);
    var ttp := TimeToPeakInIndex(maxTimeToPeak, dt);
    var start := StartIndex(beats, first, jump);
    if !PassSkipped(samples, dt, start, ttp) {
      var r := Scan(samples, first, start, threshold, ttp, jump);
      ScanIncreasing(samples, first, start, threshold, ttp, jump);
      ScanInBuffer(samples, first, start, threshold, ttp, jump);
      assert r != [] ==> start + first <= r[0].pos;
      ConcatIncreasing(beats, r);
    }
  }

  /** Every beat a pass adds is the first maximum of the window after a
      crossing at or after the pass's start index. */
  lemma AppendedPeaks(samples: seq<real>, first: int, dt: real, beats: seq<Beat>, threshold: real,
                      maxTimeToPeak: real, jumpedTime: real)
    requires dt > 0.0 && DetectionInBounds(samples, first, dt, beats, maxTimeToPeak, jumpedTime)
    ensures var all := Appended(samples, first, dt, beats, threshold, maxTimeToPeak, jumpedTime);
      var start := StartIndex(beats, first, JumpInIndex(jumpedTime, dt));
      |beats| <= |all| && all[..|beats|] == beats &&
      forall k :: |beats| <= k < |all| ==>
        PeakAt(samples, first, start, all[k], threshold, TimeToPeakInIndex(maxTimeToPeak, dt))
  {
    var jump := JumpInIndex(jumpedTime, dt);
    var ttp := TimeToPeakInIndex(maxTimeToPeak, dt);
    var start := StartIndex(beats, first, jump);
    var all := Appended(samples, first, dt, beats, threshold, maxTimeToPeak, jumpedTime);
    if !PassSkipped(samples, dt, start, ttp) {
      var r := Scan(samples, first, start, threshold, ttp, jump);
      ScanPeaks(samples, first, start, threshold, ttp, jump);
      assert 0 <= start;
      assert all == beats + r;
      forall k | |beats| <= k < |all|
        ensures PeakAt(samples, first, start, all[k], threshold, ttp)
      {
        var j := k - |beats|;
        assert 0 <= j < |r| && all[k] == r[j];
        assert PeakAt(samples, first, start, r[j], threshold, ttp);
      }
    }
  }

  /** After a pass, every beat in the list was known before or is the
      first maximum of the window after a crossing the pass scanned. */
  lemma DetectedPeaks(samples: seq<real>, first: int, dt: real, beats: seq<Beat>, threshold: real,
                      maxTimeToPeak: real, jumpedTime: real)
    requires dt > 0.0 && DetectionInBounds(samples, first, dt, beats, maxTimeToPeak, jumpedTime)
    ensures var r := Detected(samples, first, dt, beats, threshold, maxTimeToPeak, jumpedTime);
      var start := StartIndex(beats, first, JumpInIndex(jumpedTime, dt));
      forall b :: b in r ==>
        b in beats || PeakAt(samples, first, start, b, threshold, TimeToPeakInIndex(maxTimeToPeak, dt))
  {
    var ttp := TimeToPeakInIndex(maxTimeToPeak, dt);
    var start := StartIndex(beats, first, JumpInIndex(jumpedTime, dt));
    var all := Appended(samples, first, dt, beats, threshold, maxTimeToPeak, jumpedTime);
    var r := Detected(samples, first, dt, beats, threshold, maxTimeToPeak, jumpedTime);
    AppendedPeaks(samples, first, dt, beats, threshold, maxTimeToPeak, jumpedTime);
    if samples != [] {
      TrimmedSuffix(all, first);
    }
    assert r == all[|all| - |r|..];
    forall b | b in r
      ensures b in beats || PeakAt(samples, first, start, b, threshold, ttp)
    {
      var i :| 0 <= i < |r| && r[i] == b;
      var k := |all| - |r| + i;
      assert all[k] == b;
      if k < |beats| {
        assert all[..|beats|][k] == b;
      }
    }
  }

  /** A skipped pass leaves the beat list as it was, up to the trimming. */
  lemma SkippedPassKeepsBeats(samples: seq<real>, first: int, dt: real, beats: seq<Beat>, threshold: real,
                              maxTimeToPeak: real, jumpedTime: real)
    requires dt > 0.0 && DetectionInBounds(samples, first, dt, beats, maxTimeToPeak, jumpedTime)
    requires PassSkipped(samples, dt, StartIndex(beats, first, JumpInIndex(jumpedTime, dt)),
                         TimeToPeakInIndex(maxTimeToPeak, dt))
    ensures Detected(samples, first, dt, beats, threshold, maxTimeToPeak, jumpedTime) ==
            if samples != [] then Trimmed(beats, first) else beats
  {
  }

  /** `manageLength`: samples are dropped from the front while the buffer
      lasts longer than `maxLength`. */
  function Shortened(samples: seq<real>, dt: real, maxLength: real): seq<real>
    decreases |samples|
  {
    if samples != [] && Duration(samples, dt) > maxLength then Shortened(samples[1..], dt, maxLength)
    else samples
  }

  /** The shortened buffer is the longest suffix that fits: every longer
      suffix lasts more than `maxLength`, and it fits unless it is empty. */
  lemma {:induction false} ShortenedLongestFit(samples: seq<real>, dt: real, maxLength: real)
    ensures var r := Shortened(samples, dt, maxLength);
      |r| <= |samples| && r == samples[|samples| - |r|..] &&
      (r == [] || Duration(r, dt) <= maxLength) &&
      (forall j :: 0 <= j < |samples| - |r| ==> Duration(samples[j..], dt) > maxLength)
    decreases |samples|
  {
    if samples != [] && Duration(samples, dt) > maxLength {
      var tail := samples[1..];
      ShortenedLongestFit(tail, dt, maxLength);
      forall j | 1 <= j < |samples| - |Shortened(tail, dt, maxLength)|
        ensures Duration(samples[j..], dt) > maxLength
      {
        assert samples[j..] == tail[j - 1..];
      }
    }
  }

  /** With no limit set (`NO_MAX_LENGTH`, -1) and a positive sampling
      period, every sample is dropped. */
  lemma NoMaxLengthEmpties(samples: seq<real>, dt: real)
    requires dt > 0.0
    ensures Shortened(samples, dt, -1.0) == []
  {
    ShortenedLongestFit(samples, dt, -1.0);
  }

  /** The adapted threshold: a fixed fraction of the largest sample. */
  function AdaptedThreshold(samples: seq<real>, multiplier: real): real
    requires |samples| >= 1
  {
    multiplier * MaxOf(samples)
  }

  /** With a positive fraction the adapted threshold is reached by the
      largest sample, and so by at least one sample of the buffer. */
  lemma AdaptedThresholdReached(samples: seq<real>, multiplier: real)
    requires |samples| >= 1 && 0.0 < multiplier <= 1.0 && MaxOf(samples) >= 0.0
    ensures exists k :: 0 <= k < |samples| && samples[k] >= AdaptedThreshold(samples, multiplier)
  {
    var k := MaxOfAt(samples);
    var mx := MaxOf(samples);
    FractionBelow(multiplier, mx);
    assert AdaptedThreshold(samples, multiplier) == multiplier * mx;
    assert samples[k] >= AdaptedThreshold(samples, multiplier);
  }

  lemma FractionBelow(f: real, x: real)
    requires 0.0 < f <= 1.0 && x >= 0.0
    ensures f * x <= x
  {
    assert x - f * x == (1.0 - f) * x;
  }
}
