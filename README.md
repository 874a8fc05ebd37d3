# Phonocardiography analysis core, in Dafny

This project models the analysis core of a digital stethoscope application.
It has three parts.

- **`Phonocardiography`** (`src/calculation/Phonocardiography.java`) keeps a
  waveform buffer of heart sounds and derives the rest from it:
  - the beats, found by a level-crossing scan followed by a search for the
    first maximum in a short window and a refractory jump;
  - the R-R intervals between beats;
  - the intervals corrected for ectopic beats;
  - a histogram of the intervals;
  - the heart rate of each interval;
  - the non-spectral variability indicators: mean R-R, SDNN, RMSSD and pNN50.
- **`ByteArray`** (`src/signal/ByteArray.java`) turns `int` values into
  fixed-width byte groups and back, averages the groups of a sound frame and
  formats byte arrays as text.
- **`NumberArray.intArrayMax`** (`src/signal/NumberArray.java`) returns the
  maximum of an `int[]`.

The three Java classes are imperative, and so is the model:

- `Calculation.Phonocardiography` is a class. Its fields follow the Java
  fields. Each method updates only the fields it names and is proved
  against a specification function.
- The byte helpers are methods over `array`s with loop invariants.
- The specification functions and the lemmas about them live in their own
  modules:
  - `JavaTypes`: `byte`/`int` ranges, 32-bit wrap-around, `Math.round`, and
    `double` results that may be NaN.
  - `ByteCodec`: the meaning of the byte encodings.
  - `DecimalText`: the decimal text of a number.
  - `RealSeq`: max, min and sum.
  - `BeatDetection`, `Intervals`, `Histogram`, `Variability`: the stages of
    the analysis.

How the model represents the Java state:

- **Waveform buffer.** It is `samples`, with sampling period `dt` and start
  time `origin`. The field `first` is the absolute index of `samples[0]`.
  When `manageLength` drops a sample from the front, `first` goes up by one.
- **Beats.** Each beat is held by the absolute index of its peak sample and
  that sample's value. Its time is `origin + pos * dt`. The lemmas
  `Intervals.BeatTimeOrder` and `Intervals.SampleOffset` connect this
  representation with the time-based comparisons and the rounding of the
  Java code.
- **Real numbers.** Values are exact reals. `Math.sqrt` and
  `SignalPoint.linearInterpolateInX` are function parameters.

The ectopic-beat correction of `calculateNormalRRintervals` is not
idempotent. Each point is tested against the uncorrected point before it,
and an ectopic last point is replaced by a copy of the uncorrected
second-to-last point (`Phonocardiography.java:441-442`). A second pass can
then find that copy ectopic against its corrected neighbour and change it
again. `Intervals.NormalRRNotIdempotent` shows this on a four-point series.

## Model

| member | source | states |
|---|---|---|
| NumberArray.IntArrayMax | src/signal/NumberArray.java:12-18 | The result is at least every element. It is one of the elements, or `Integer.MIN_VALUE` for an empty array. It equals the seeded running maximum. |
| NumberArray.SeededMaxIsMaximum | src/signal/NumberArray.java:13-17 | The running maximum seeded with `Integer.MIN_VALUE` bounds every element, and it is an element of any non-empty array. |
| ByteArray.IntToByteArray | src/signal/ByteArray.java:66-72 | A fresh array whose position `n-1-i` holds lane `i` of `x`, taken modulo 4 as Java's shift count is. |
| ByteArray.SignExtend | src/signal/ByteArray.java:92-97 | Filling the high bytes with 0xFF when the sign byte is negative gives the two's-complement value of the group. |
| ByteArray.ByteArrayToInt | src/signal/ByteArray.java:86-99 | The result is the big-endian two's-complement value of 1 to 4 bytes. |
| ByteArray.ByteArrayToIntEndian | src/signal/ByteArray.java:101-128 | The result is the group's value, read big-endian or little-endian as the flag says. |
| ByteArray.ByteArrayToShort | src/signal/ByteArray.java:130-143 | The result is the decoded value narrowed to 16 bits. It is the value itself for groups of 1 or 2 bytes. |
| ByteArray.IntArrayToByteArray | src/signal/ByteArray.java:74-84 | A fresh array holding the byte groups of the elements, one after another. |
| ByteArray.StoreGroup | src/signal/ByteArray.java:79-81 | The copy loop places one group right after the bytes already written. The bytes before and after the group are left unchanged. |
| ByteArray.ByteArrayToIntArray | src/signal/ByteArray.java:145-155 | A fresh array of the decoded complete groups. Trailing bytes are ignored. |
| ByteArray.LoadGroup | src/signal/ByteArray.java:12-14 | The scratch array receives exactly the bytes of one group. |
| ByteArray.SumGroups | src/signal/ByteArray.java:11-16 | The accumulated `int` is the sum of the decoded groups, wrapped to 32 bits. |
| ByteArray.GroupValue | src/signal/ByteArray.java:58-61 | One pass of the averaging loop yields decoded group `i` of the frame. |
| ByteArray.AverageDoubleEndian | src/signal/ByteArray.java:54-64 | The result is the wrapped sum of the groups over their number. It is NaN exactly when the frame holds no complete group. |
| ByteArray.AverageDouble | src/signal/ByteArray.java:42-52 | The result is the big-endian average of the groups. |
| ByteArray.AverageIntEndian | src/signal/ByteArray.java:20-40 | The result is that average rounded by `Math.round`. It is 0 when there is no complete group. |
| ByteArray.AverageInt | src/signal/ByteArray.java:8-18 | The result is the rounded big-endian average. |
| ByteArray.ToString | src/signal/ByteArray.java:193-201 | The result is `"null"`, or the decimal elements in braces separated by `", "`. |
| ByteArray.ToStringGrouped | src/signal/ByteArray.java:202-214 | The same layout, with a new parenthesised group opened at every index divisible by the group size. |
| ByteCodec.IntToBytesRoundTrip | src/signal/ByteArray.java:66-99 | Decoding the bytes written for `x` gives `x` back whenever `x` fits in that many signed bytes. |
| ByteCodec.UnsignedValueOfIntToBytes | src/signal/ByteArray.java:66-72 | The bytes written for `x` are the low bytes of its 32-bit pattern. |
| ByteCodec.LittleEndianOfReversed | src/signal/ByteArray.java:219-224 | Decoding a reversed group little-endian gives the same value as decoding the group big-endian. This is the byte swap the commented-out `main` exercises. |
| ByteCodec.LittleEndianRoundTrip | src/signal/ByteArray.java:101-128 | Reversing the written bytes and decoding them little-endian gives `x` back. |
| ByteCodec.EncodeIntsRoundTrip | src/signal/ByteArray.java:74-84 | `byteArrayToIntArray` inverts `intArrayToByteArray` for elements that fit the group width. |
| ByteCodec.ChunksOfEncodeInts | src/signal/ByteArray.java:74-84 | Cutting an encoded array into groups yields the encodings of the elements. |
| ByteCodec.DecodeGroupsLength | src/signal/ByteArray.java:145-147 | There are `length / numBytesPerInt` decoded groups. |
| ByteCodec.DecodeGroupsAt | src/signal/ByteArray.java:148-152 | Decoded group `k` is the decoding of the bytes from `k * numBytesPerInt` on. |
| ByteCodec.GroupMeanWithin | src/signal/ByteArray.java:54-64 | When every group lies in `[lo, hi]` and the sum cannot overflow, the average is a number within `[lo, hi]`. |
| ByteCodec.SignedRange | src/signal/ByteArray.java:86-99 | A decoded `n`-byte value lies in the signed `n`-byte range. |
| DecimalText.DecimalRoundTrip | src/signal/ByteArray.java:196-198 | The text printed for each byte is well-formed decimal, and parsing it gives the byte back. |
| DecimalText.OneGroup | src/signal/ByteArray.java:202-214 | When the group size exceeds every index, the grouped text is the plain list. |
| RealSeq.MaxOfIsMaximum | src/calculation/Phonocardiography.java:480-489 | The running maximum bounds every interval and is one of them. |
| RealSeq.MinOfIsMinimum | src/calculation/Phonocardiography.java:480-489 | The running minimum is at most every interval and is one of them. |
| RealSeq.SumWithinExtrema | src/calculation/Phonocardiography.java:556-571 | The sum lies between `n * min` and `n * max`. |
| BeatDetection.WindowMaxIsFirstMax | src/calculation/Phonocardiography.java:347-353 | The peak search returns a maximum of the window. It is the first one: every earlier sample is strictly smaller. |
| BeatDetection.ScanInBuffer | src/calculation/Phonocardiography.java:339-361 | Every beat found lies in the buffer after the start index, records its sample and reaches the threshold. |
| BeatDetection.ScanPeaks | src/calculation/Phonocardiography.java:339-358 | Every beat found is the first maximum of the `timeToPeakInIndex` window after a sample, at or after the start index, that reaches the threshold. |
| BeatDetection.ScanSpaced | src/calculation/Phonocardiography.java:356-360 | Consecutive beats found are at least `jumpInIndex + 1` samples apart. |
| BeatDetection.ScanIncreasing | src/calculation/Phonocardiography.java:339-361 | The beats found are in strictly increasing order. |
| BeatDetection.ScanSkipsQuiet | src/calculation/Phonocardiography.java:339-360 | Samples below the threshold are passed over: scanning from before them finds the same beats. |
| BeatDetection.SpacedIncreasing | src/calculation/Phonocardiography.java:356-360 | Beats spaced by the jump are in increasing order. |
| BeatDetection.TrimmedSuffix | src/calculation/Phonocardiography.java:370-373 | Trimming removes from the front only beats earlier than the buffer, and it keeps a suffix. On ordered beats, no earlier beat remains. |
| BeatDetection.JumpInIndex | src/calculation/Phonocardiography.java:323-328 | The refractory jump in samples is the rounded period less one, or 0 when that would be negative. |
| BeatDetection.AppendedExtends | src/calculation/Phonocardiography.java:314-361 | A pass only appends, and keeps the list in order. The first new beat comes at least `jumpInIndex + 1` samples after the last known one. |
| BeatDetection.AppendedIncreasing | src/calculation/Phonocardiography.java:314-361 | A pass keeps the beat list in strictly increasing order. |
| BeatDetection.DetectedIncreasing | src/calculation/Phonocardiography.java:304-374 | After a pass the beat list is in order. On a non-empty buffer, no beat precedes the buffer. |
| BeatDetection.AppendedPeaks | src/calculation/Phonocardiography.java:330-361 | A pass keeps the known beats as a prefix, and every beat it appends is the first maximum of the window after a crossing at or after the pass's start index. |
| BeatDetection.DetectedPeaks | src/calculation/Phonocardiography.java:304-374 | After a pass, every beat in the list was already known or is the first maximum of the window after a crossing the pass scanned. |
| BeatDetection.SkippedPassKeepsBeats | src/calculation/Phonocardiography.java:309-336 | A too-short buffer, or too few samples for one window, leaves the beats unchanged up to the trimming. |
| BeatDetection.ShortenedLongestFit | src/calculation/Phonocardiography.java:238-243 | `manageLength` keeps the longest suffix of the buffer that fits in `maxLength`. |
| BeatDetection.NoMaxLengthEmpties | src/calculation/Phonocardiography.java:65-67 | With `maxLength` left at `NO_MAX_LENGTH`, shortening an unloaded buffer empties it. |
| BeatDetection.AdaptedThresholdReached | src/calculation/Phonocardiography.java:284-297 | For a fraction in `(0, 1]` and a non-negative maximum, some sample reaches the adapted threshold. |
| Intervals.BeatTimeOrder | src/calculation/Phonocardiography.java:370-373 | A beat is earlier than the buffer's first sample exactly when its index is below `first`. |
| Intervals.SampleOffset | src/calculation/Phonocardiography.java:319-321 | Rounding a beat's time offset over `dt` gives back its sample distance from the buffer start. |
| Intervals.RRFromSampleDistance | src/calculation/Phonocardiography.java:388-398 | There is one interval per pair of consecutive beats. Each is 1000 times their time distance, and it is positive for ordered beats. |
| Intervals.RRSumIsSpan | src/calculation/Phonocardiography.java:388-398 | The intervals add up to 1000 times the time from the first beat to the last. |
| Intervals.NormalRRLength | src/calculation/Phonocardiography.java:409-452 | The correction keeps the number of points (two or more) and copies the first point. |
| Intervals.NormalRRInterior | src/calculation/Phonocardiography.java:431-439 | An interior point is interpolated exactly when it is ectopic against its predecessor, and copied otherwise. |
| Intervals.NormalRRLast | src/calculation/Phonocardiography.java:441-444 | An ectopic last point is replaced by a copy of the point before it. |
| Intervals.NormalRRWithoutEctopic | src/calculation/Phonocardiography.java:409-452 | A series with no ectopic interval comes through unchanged. |
| Intervals.NormalRRNotIdempotent | src/calculation/Phonocardiography.java:430-444 | On the series (1, 100), (2, 100), (3, 400), (4, 100) with linear interpolation, a second correction pass changes the last point from (3, 400) to (3, 100), so correcting twice differs from correcting once. |
| Intervals.BpmInverse | src/calculation/Phonocardiography.java:530-533 | Converting to beats per minute is its own inverse and keeps intervals positive. |
| Histogram.Histogram | src/calculation/Phonocardiography.java:468-514 | There is one bin per slice, and always at least the first bin. |
| Histogram.HistogramIsBinPoints | src/calculation/Phonocardiography.java:490-508 | Bin `i` is centred at `min + i*res + res/2` and holds the count of its interval. |
| Histogram.CountSplit | src/calculation/Phonocardiography.java:492-506 | A bin split at an inner edge counts the same values as its two halves. |
| Histogram.BinTotalCovers | src/calculation/Phonocardiography.java:490-508 | The first `m` bins together count the values from `min` to `min + m*res`. |
| Histogram.HistogramCountsAll | src/calculation/Phonocardiography.java:468-514 | With at least one slice, the bins count every interval exactly once. |
| Histogram.BinsReachMax | src/calculation/Phonocardiography.java:488-490 | The bins run from the minimum to exactly the maximum. |
| Variability.Nn50AtMost | src/calculation/Phonocardiography.java:561-566 | At most `n - 1` successive differences are counted. |
| Variability.PNN50IsPercentage | src/calculation/Phonocardiography.java:580 | With two or more intervals, pNN50 is a number between 0 and 100. |
| Variability.MeanWithinExtrema | src/calculation/Phonocardiography.java:571 | The mean interval lies between the shortest and the longest. |
| Variability.MeanWithinRange | src/calculation/Phonocardiography.java:577 | The rounded mean R-R lies within half a unit of the interval range. |
| Variability.PulseOfPositiveIntervals | src/calculation/Phonocardiography.java:576 | For positive intervals, the pulse is positive and equals 60000 times the count over the total. |
| Variability.VarianceNonNegative | src/calculation/Phonocardiography.java:572-573 | `n` times the sum of squares is at least the squared sum. |
| Variability.RadicandNonNegative | src/calculation/Phonocardiography.java:571-573 | The mean square less the squared mean, the value under SDNN's square root, is never negative. |
| Calculation.Phonocardiography.constructor | src/calculation/Phonocardiography.java:118-128 | Every curve is empty, and the settings and indicators take their declared defaults. |
| Calculation.Phonocardiography.WithDetectionParams | src/calculation/Phonocardiography.java:130-137 | The same, with the three detection parameters given. |
| Calculation.Phonocardiography.ManageLength | src/calculation/Phonocardiography.java:238-243 | An unloaded buffer becomes its longest suffix that fits. `first` advances by the number of samples dropped. |
| Calculation.Phonocardiography.CalculateHeartBeatDetectionParams | src/calculation/Phonocardiography.java:284-297 | On a buffer of at least 3 s, the threshold becomes the multiplier times the largest sample. Otherwise it is unchanged. |
| Calculation.Phonocardiography.HeartBeatDetection | src/calculation/Phonocardiography.java:304-374 | The beat list becomes the known beats plus those of the scan, then trimmed. The ordering invariant is kept. |
| Calculation.Phonocardiography.PassIndices | src/calculation/Phonocardiography.java:314-331 | The start index, jump and window computed from the last beat's time are the sample-index quantities. |
| Calculation.Phonocardiography.TrimStaleBeats | src/calculation/Phonocardiography.java:370-373 | Beats earlier than the first sample are dropped from the front. |
| Calculation.Phonocardiography.Scanned | src/calculation/Phonocardiography.java:339-361 | The detection loop appends exactly the scan's beats. |
| Calculation.Phonocardiography.PeakIndex | src/calculation/Phonocardiography.java:342-353 | The inner loop finds the first maximum of the window. |
| Calculation.Phonocardiography.CalculateRRintervals | src/calculation/Phonocardiography.java:379-404 | With beats, the R-R series replaces the old one. Without beats, the field is left as it was. |
| Calculation.Phonocardiography.RRPoints | src/calculation/Phonocardiography.java:388-398 | The pairwise walk over the beats builds exactly the R-R series. |
| Calculation.Phonocardiography.CalculateNormalRRintervals | src/calculation/Phonocardiography.java:409-452 | With intervals, the corrected series replaces the old one. Without intervals, the field is left as it was. |
| Calculation.Phonocardiography.CalculateStatistics | src/calculation/Phonocardiography.java:468-514 | With intervals, the histogram replaces the old statistics. Without intervals, they are left as they were. |
| Calculation.Phonocardiography.HistogramOf | src/calculation/Phonocardiography.java:477-508 | The bin loops produce the histogram. |
| Calculation.Phonocardiography.AppendBin | src/calculation/Phonocardiography.java:499-508 | One pass of the bin loop adds the next bin's point. |
| Calculation.Phonocardiography.Extrema | src/calculation/Phonocardiography.java:480-489 | The min/max loop finds the smallest and the largest interval. |
| Calculation.Phonocardiography.BinSize | src/calculation/Phonocardiography.java:490-506 | The counting loop counts the values in the bin. |
| Calculation.Phonocardiography.CalculateBeatsPerMinute | src/calculation/Phonocardiography.java:519-539 | With intervals, the heart-rate series replaces the old one. Without intervals, it is left as it was. |
| Calculation.Phonocardiography.NonSpectralAnalysis | src/calculation/Phonocardiography.java:545-581 | The stored indicators are those of the corrected series. |
| Calculation.Phonocardiography.Indicate | src/calculation/Phonocardiography.java:571-580 | The final quotients, square roots and roundings give the indicators, including the NaN and zero cases for 0 or 1 interval. |
| Calculation.Phonocardiography.Accumulate | src/calculation/Phonocardiography.java:555-569 | The loop yields the count, the sum, the sum of squares, the sum of squared successive differences, and the number of differences above 50 ms. |
| Calculation.Phonocardiography.Reset | src/calculation/Phonocardiography.java:586-608 | Every curve is cleared, and the settings, the threshold and `meanRR` go back to their defaults. The other indicators are kept. |
| Calculation.Phonocardiography.ClearCurves | src/calculation/Phonocardiography.java:587-600 | The buffer and every derived series become empty, and the ordering invariant holds. |
| Calculation.Phonocardiography.RestoreSettings | src/calculation/Phonocardiography.java:601-606 | The slices, samples, sampling time, threshold and `meanRR` return to their defaults. |

## Left out

- `run`, `runCalculations` and the `synchronized` blocks: they deal with threads and timing, and are not modelled.
- `constructCurves`: it allocates the curves and sets their colours, titles, axis titles and graph types by `PhonocardType`. None of that presentation state is modelled. The constructors take the buffer's `dt` and start time as parameters instead.
- `calculateMaternalHeartSound`, `calculateFetalHeartSound` and `calculateSampledRRintervals`: they delegate to `MovingAverage`, `HighPassFilter` and `SignalXY.sample`, which are not part of this model.
- Getters, setters and the file name are not modelled.
- `SignalD` and `SignalXY` are not part of this model. The model assumes the following about them:
  - `getLength()` is `size * dt`;
  - `remove(0)` drops the front sample and advances the start time by `dt`, so the remaining samples keep their times (the model's `first` goes up by one);
  - `removeAll()`/`clear()` empty a curve and keep its `dt` and start time.
- Floating point is not modelled. Values are exact reals, so the `(float)` casts in the curves and averages and IEEE rounding are left out.
- `Math.sqrt` and `SignalPoint.linearInterpolateInX` are function parameters.
- Calculation.Phonocardiography.HeartBeatDetection: it updates this object's beat list. The Java method takes the signal and the beat curve as arguments, but its callers pass the object's own `heartSound` and `peaks` (`runCalculations`, Phonocardiography.java:223, and `calculateRRintervals`, Phonocardiography.java:381). The final trim (Phonocardiography.java:370-373) reads the field `peaks`, not the parameter `beats`, so the model's single beat list relies on the two being the same curve.
- Calculation.Phonocardiography.HeartBeatDetection: it requires that a pass that runs starts inside the buffer. In Java, a start index before the buffer would make `get` throw, and that exception is not caught.
- Calculation.Phonocardiography.CalculateStatistics: it requires `numberOfSlices != 0` when there are intervals. With zero slices the Java resolution is an IEEE division by zero, which the real-number model cannot express.
- Calculation.Phonocardiography.Indicate: the `(int)` narrowing of `Math.round`'s `long` is not modelled, because the indicators are far below 2^31.
- Calculation.Phonocardiography.NonSpectralAnalysis: for 0 intervals, `meanRR` and `sdRR` are 0/0, a NaN, while `rMSSD` is `sqrt(0.0 / -1)` and pNN50 is `100 * (0 / -1)`, both -0.0; all of these are modelled as 0 (`Math.round(NaN) == 0`, and -0.0 as 0.0). For 1 interval, `rMSSD` and pNN50 are 0/0: `rMSSD` rounds to 0 and pNN50 keeps its NaN.
- ByteArray.ByteArrayToInt: it requires 1 to 4 bytes, as do ByteArrayToIntEndian and ByteArrayToShort, and the averaging methods through their group width. For wider groups Java's main loop shifts by 32 bits or more, and the shift count wraps modulo 32, so the high-order bytes are ORed into the low lanes; that overlap is not modelled. An empty array passed to the three decoders throws at `bytes[0]`. A group width of 0 makes the averaging methods throw an `ArithmeticException` at `bytes.length / numBytesPerInt` (ByteArray.java:11, 24, 31, 45, 57).
- ByteArray.ByteArrayToIntArray: it requires a group width of 1 to 4, for the reasons given for ByteArrayToInt. With a width of 0, Java throws an `ArithmeticException` at `bytes.length / numBytesPerInt` (ByteArray.java:146).
- ByteArray.ToString: it requires a non-null array to be non-empty, because Java reads `bytes[0]` and throws on an empty array.
- ByteArray.ToStringGrouped: it also requires a non-zero group size once there is a second element, because Java's `i % 0` throws.
- ByteArray.IntToByteArray and ByteArray.IntArrayToByteArray: their lengths are `nat`s and their input is an array of `int`s, so Java's `NegativeArraySizeException` for a negative length (ByteArray.java:67, 75) and the `NullPointerException` when a null `Integer` element is unboxed (ByteArray.java:78) are not modelled.
- `byteArrayToShortArray`, `byteArrayToDoubleArray` and `byteArrayToFloatArray`: they are boxing variants of `byteArrayToIntArray` and are not modelled separately.
- Calculation.Phonocardiography.Extrema: it seeds the running minimum and maximum with the first interval instead of the infinities. For a non-empty series the result is the same.
