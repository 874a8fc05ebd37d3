/** The meaning of the fixed-width integer encodings used by the byte-array
    utilities: which bytes an `int` is written as, and which `int` a group of
    1 to 4 bytes stands for, in big-endian and little-endian order. */
module ByteCodec {
  import opened JavaTypes
  import RealSeq

  /** 256 to the power `k`: the weight of the `k`-th byte from the low end. */
  function Pow256(k: nat): (r: nat)
    ensures r >= 1
  {
    if k == 0 then 1 else 256 * Pow256(k - 1)
  }

  lemma Pow256Values()
    ensures Pow256(1) == 0x100 && Pow256(2) == 0x1_0000
    ensures Pow256(3) == 0x100_0000 && Pow256(4) == 0x1_0000_0000
  {
  }

  /** The byte `(x >>> (i * 8)) & 0xFF`. Java uses only the low five bits of
      a shift count, so lane `i` is lane `i % 4` of the 32-bit pattern. */
  function LaneByte(x: Int32, i: nat): Byte
  {
    ToByte((Unsigned32(x) / Pow256(i % 4)) % 256)
  }

  /** The big-endian layout written by `intToByteArray(x, n)`: position
      `n - 1 - i` holds lane `i`. */
  function IntToBytes(x: Int32, n: nat): (r: seq<Byte>)
    ensures |r| == n
    ensures forall i :: 0 <= i < n ==> r[n - 1 - i] == LaneByte(x, i)
  {
    seq(n, j requires 0 <= j < n => LaneByte(x, n - 1 - j))
  }

  /** The bytes read as an unsigned big-endian number. */
  function UnsignedValue(bs: seq<Byte>): (r: nat)
    ensures r < Pow256(|bs|)
  {
    if bs == [] then 0
    else
      var p := Pow256(|bs| - 1);
      var rest := UnsignedValue(bs[1..]);
      DigitBound(Unsigned8(bs[0]), p, rest);
      Unsigned8(bs[0]) * p + rest
  }

  /** The bytes read as a big-endian two's-complement number: the sign is the
      top bit of the first byte. */
  function SignedValue(bs: seq<Byte>): (r: int)
    requires |bs| >= 1
    ensures FitsIn(r, |bs|)
  {
    SignedRange(bs);
    if bs[0] < 0 then UnsignedValue(bs) - Pow256(|bs|) else UnsignedValue(bs)
  }

  /** The elements of `s` in the opposite order. */
  function Reversed<T>(s: seq<T>): (r: seq<T>)
    ensures |r| == |s|
    ensures forall k :: 0 <= k < |s| ==> r[k] == s[|s| - 1 - k]
  {
    if s == [] then [] else [s[|s| - 1]] + Reversed(s[..|s| - 1])
  }

  /** The `int` a group of 1 to 4 bytes decodes to: big-endian, or
      little-endian (the same value as the reversed group read big-endian). */
  function Decode(bs: seq<Byte>, bigEndian: bool): (r: Int32)
    requires 1 <= |bs| <= 4
  {
    Pow256Values();
    PowMono(|bs|, 4);
    if bigEndian then SignedValue(bs) else SignedValue(Reversed(bs))
  }

  /** `n` decoded groups as a signed `n`-byte integer cover exactly the range
      from -2^(8n-1) up to 2^(8n-1) - 1. */
  predicate FitsIn(x: int, n: nat)
  {
    var half: int := Pow256(n) / 2;
    -half <= x < half
  }

  // ---------------------------------------------------------------------
  // Arithmetic helpers

  lemma MulLeft(a: int, b: int, c: nat)
    requires a <= b
    ensures a * c <= b * c
  {
  }

  lemma PowMono(i: nat, j: nat)
    requires i <= j
    ensures Pow256(i) <= Pow256(j)
    decreases j
  {
    if i < j { PowMono(i, j - 1); }
  }

  /** A digit in base 256 on top of a smaller remainder stays below the
      next power. */
  lemma DigitBound(u: int, p: int, rest: int)
    requires 0 <= u < 256 && 0 <= rest < p
    ensures 0 <= u * p + rest < 256 * p
    ensures u >= 128 ==> u * p + rest >= 128 * p
    ensures u < 128 ==> u * p + rest < 128 * p
  {
    if u >= 128 {
      MulLeft(128, u, p);
    } else {
      MulLeft(u, 127, p);
    }
    MulLeft(u, 255, p);
  }

  /** The first byte is negative exactly when the unsigned value has its top
      bit set. */
  lemma SignBit(bs: seq<Byte>)
    requires |bs| >= 1
    ensures (bs[0] < 0) == (UnsignedValue(bs) >= Pow256(|bs|) / 2)
  {
    var p := Pow256(|bs| - 1);
    var u := Unsigned8(bs[0]);
    var rest := UnsignedValue(bs[1..]);
    assert UnsignedValue(bs) == u * p + rest;
    assert Pow256(|bs|) == 256 * p;
    DigitBound(u, p, rest);
  }

  lemma SignedRangeArith(u: int, big: int, negative: bool)
    requires big >= 2 && big % 2 == 0 && 0 <= u < big
    requires negative == (u >= big / 2)
    ensures var r := if negative then u - big else u; -(big / 2) <= r < big / 2
  {
  }

  lemma SignedRange(bs: seq<Byte>)
    requires |bs| >= 1
    ensures FitsIn(if bs[0] < 0 then UnsignedValue(bs) - Pow256(|bs|) else UnsignedValue(bs), |bs|)
  {
    var u := UnsignedValue(bs);
    var big := Pow256(|bs|);
    SignBit(bs);
    PowEven(|bs|);
    SignedRangeArith(u, big, bs[0] < 0);
  }

  lemma PowEven(n: nat)
    requires n >= 1
    ensures Pow256(n) >= 2 && Pow256(n) % 2 == 0
  {
    assert Pow256(n) == 256 * Pow256(n - 1);
  }

  /** Prepending a byte adds it at the highest weight. */
  lemma UnsignedValueCons(c: Byte, s: seq<Byte>)
    ensures UnsignedValue([c] + s) == Unsigned8(c) * Pow256(|s|) + UnsignedValue(s)
  {
    assert ([c] + s)[1..] == s;
  }

  /** One more lane: the lane's byte on top of the lower lanes gives the pattern
      reduced modulo one more power of 256. */
  lemma LaneStep(a: int, n: nat)
    requires 0 <= a < 0x1_0000_0000 && n < 4
    ensures (a / Pow256(n) % 256) * Pow256(n) + a % Pow256(n) == a % Pow256(n + 1)
  {
    Pow256Values();
    if n == 0 {
      assert Pow256(0) == 1;
    } else if n == 1 {
      LaneStepAt(a, 0x100);
    } else if n == 2 {
      LaneStepAt(a, 0x1_0000);
    } else {
      LaneStepAt(a, 0x100_0000);
    }
  }

  /** The base-256 digit above weight `p` and the part below it make up the
      value modulo `256 * p`. */
  lemma LaneStepAt(a: int, p: int)
    requires 0 <= a && p > 0
    ensures (a / p % 256) * p + a % p == a % (256 * p)
  {
    var q := a / p;
    var r := a % p;
    var hi := q / 256;
    var d := q % 256;
    assert a == q * p + r;
    assert q == hi * 256 + d;
    assert a == hi * (256 * p) + (d * p + r);
    DigitBound(d, p, r);
    ModOfDecomposition(a, 256 * p, hi, d * p + r);
  }

  /** Euclidean division is unique. */
  lemma ModOfDecomposition(a: int, m: int, q: int, r: int)
    requires m > 0 && 0 <= r < m && a == q * m + r
    ensures a % m == r
  {
    var q' := a / m;
    var r' := a % m;
    assert q' * m + r' == q * m + r;
    if q' > q {
      MulLeft(q + 1, q', m);
    } else if q' < q {
      MulLeft(q' + 1, q, m);
    }
  }

  /** A signed value that fits in `n` bytes, reduced modulo 256^n from its
      32-bit pattern, is the value itself or the value plus 256^n. */
  lemma LowBytesOfFit(x: Int32, n: nat)
    requires 1 <= n <= 4 && FitsIn(x, n)
    ensures Unsigned32(x) % Pow256(n) == if x < 0 then x + Pow256(n) else x
  {
    Pow256Values();
    if n == 1 {
    } else if n == 2 {
    } else if n == 3 {
    } else {
    }
  }

  // ---------------------------------------------------------------------
  // Properties of the encoding

  /** The `n` bytes written for `x` are its low `n` bytes: read unsigned they
      give the 32-bit pattern of `x` modulo 256^n. */
  lemma {:induction false} UnsignedValueOfIntToBytes(x: Int32, n: nat)
    requires n <= 4
    ensures UnsignedValue(IntToBytes(x, n)) == Unsigned32(x) % Pow256(n)
  {
    if n > 0 {
      var bs := IntToBytes(x, n);
      var a := Unsigned32(x);
      var p := Pow256(n - 1);
      assert (n - 1) % 4 == n - 1;
      assert Unsigned8(LaneByte(x, n - 1)) == a / p % 256;
      assert bs == [LaneByte(x, n - 1)] + IntToBytes(x, n - 1);
      UnsignedValueCons(LaneByte(x, n - 1), IntToBytes(x, n - 1));
      UnsignedValueOfIntToBytes(x, n - 1);
      LaneStep(a, n - 1);
    }
  }

  /** Round trip: decoding the `n` bytes that encode `x` gives back `x`,
      whenever `x` fits in `n` signed bytes. */
  lemma IntToBytesRoundTrip(x: Int32, n: nat)
    requires 1 <= n <= 4 && FitsIn(x, n)
    ensures Decode(IntToBytes(x, n), true) == x
  {
    var bs := IntToBytes(x, n);
    UnsignedValueOfIntToBytes(x, n);
    LowBytesOfFit(x, n);
    SignBit(bs);
  }

  /** Reversing twice restores the sequence. */
  lemma ReversedTwice<T>(s: seq<T>)
    ensures Reversed(Reversed(s)) == s
  {
    assert forall k :: 0 <= k < |s| ==> Reversed(Reversed(s))[k] == s[k];
  }

  /** Little-endian decoding of the reversed bytes is big-endian decoding:
      swapping the two bytes written for a 16-bit value and decoding them
      little-endian yields the value again. */
  lemma LittleEndianOfReversed(bs: seq<Byte>)
    requires 1 <= |bs| <= 4
    ensures Decode(Reversed(bs), false) == Decode(bs, true)
  {
    ReversedTwice(bs);
  }

  lemma LittleEndianRoundTrip(x: Int32, n: nat)
    requires 1 <= n <= 4 && FitsIn(x, n)
    ensures Decode(Reversed(IntToBytes(x, n)), false) == x
  {
    LittleEndianOfReversed(IntToBytes(x, n));
    IntToBytesRoundTrip(x, n);
  }

  // ---------------------------------------------------------------------
  // Arrays of integers

  /** `intArrayToByteArray`: every element written as `n` big-endian bytes,
      one after the other. */
  function EncodeInts(xs: seq<Int32>, n: nat): (r: seq<Byte>)
    ensures |r| == |xs| * n
  {
    if xs == [] then [] else IntToBytes(xs[0], n) + EncodeInts(xs[1..], n)
  }

  /** `s` cut into consecutive pieces of `n` elements; a trailing piece
      shorter than `n` is dropped. */
  function Chunks<T>(s: seq<T>, n: nat): (r: seq<seq<T>>)
    requires n >= 1
    ensures forall i :: 0 <= i < |r| ==> |r[i]| == n
    decreases |s|
  {
    if |s| < n then [] else [s[..n]] + Chunks(s[n..], n)
  }

  /** The complete groups of `n` bytes decoded one by one; trailing bytes that
      do not fill a group are ignored. */
  function DecodeGroups(bs: seq<Byte>, n: nat, bigEndian: bool): seq<Int32>
    requires 1 <= n <= 4
  {
    var groups := Chunks(bs, n);
    seq(|groups|, i requires 0 <= i < |groups| => Decode(groups[i], bigEndian))
  }

  lemma DivStep(a: int, n: int)
    requires 1 <= n <= 4 && n <= a
    ensures a / n == 1 + (a - n) / n
  {
    if n == 1 {
    } else if n == 2 {
    } else if n == 3 {
    } else {
    }
  }

  lemma MulSucc(k: int, n: int)
    ensures (k + 1) * n == k * n + n
  {
  }

  /** There are `|s| / n` complete pieces. */
  lemma {:induction false} ChunksLength<T>(s: seq<T>, n: nat)
    requires 1 <= n <= 4
    ensures |Chunks(s, n)| == |s| / n
    decreases |s|
  {
    if |s| >= n {
      DivStep(|s|, n);
      ChunksLength(s[n..], n);
    }
  }

  /** `k` pieces of `n` elements, counted by repeated addition. */
  function Times(k: nat, n: nat): nat
  {
    if k == 0 then 0 else Times(k - 1, n) + n
  }

  lemma {:induction false} TimesIsProduct(k: nat, n: nat)
    ensures Times(k, n) == k * n
  {
    if k > 0 {
      TimesIsProduct(k - 1, n);
      MulSucc(k - 1, n);
    }
  }

  /** Piece `k` is the `n` elements from `start == k*n` on. */
  lemma ChunksAt<T>(s: seq<T>, n: nat, k: nat, start: nat)
    requires n >= 1 && start == k * n && start + n <= |s|
    ensures k < |Chunks(s, n)|
    ensures Chunks(s, n)[k] == s[start .. start + n]
  {
    TimesIsProduct(k, n);
    ChunksAtTimes(s, n, k);
  }

  lemma {:induction false} ChunksAtTimes<T>(s: seq<T>, n: nat, k: nat)
    requires n >= 1 && Times(k, n) + n <= |s|
    ensures k < |Chunks(s, n)|
    ensures Chunks(s, n)[k] == s[Times(k, n) .. Times(k, n) + n]
  {
    var rest := s[n..];
    assert Chunks(s, n) == [s[..n]] + Chunks(rest, n);
    if k > 0 {
      var start := Times(k, n);
      var start' := Times(k - 1, n);
      ChunksAtTimes(rest, n, k - 1);
      assert forall j :: start' <= j < start' + n ==> rest[j] == s[j + n];
      assert rest[start' .. start' + n] == s[start .. start + n];
    }
  }

  /** There are `|bs| / n` decoded groups. */
  lemma DecodeGroupsLength(bs: seq<Byte>, n: nat, bigEndian: bool)
    requires 1 <= n <= 4
    ensures |DecodeGroups(bs, n, bigEndian)| == |bs| / n
  {
    ChunksLength(bs, n);
  }

  /** Group `k` of the decoded array is the decoding of the `n` bytes from
      `start == k*n` on. */
  lemma DecodeGroupsAt(bs: seq<Byte>, n: nat, bigEndian: bool, k: nat, start: nat)
    requires 1 <= n <= 4 && start == k * n && start + n <= |bs|
    ensures k < |DecodeGroups(bs, n, bigEndian)|
    ensures DecodeGroups(bs, n, bigEndian)[k] == Decode(bs[start .. start + n], bigEndian)
  {
    ChunksAt(bs, n, k, start);
  }

  /** Appending one element appends its `n` bytes. */
  lemma {:induction false} EncodeIntsSnoc(xs: seq<Int32>, x: Int32, n: nat)
    ensures EncodeInts(xs + [x], n) == EncodeInts(xs, n) + IntToBytes(x, n)
  {
    if xs != [] {
      assert (xs + [x])[1..] == xs[1..] + [x];
      EncodeIntsSnoc(xs[1..], x, n);
    } else {
      assert EncodeInts([x], n) == IntToBytes(x, n) + EncodeInts([], n);
    }
  }

  /** Cutting the encoding of `xs` into pieces of `n` gives back the
      encodings of the elements. */
  lemma {:induction false} ChunksOfEncodeInts(xs: seq<Int32>, n: nat)
    requires n >= 1
    ensures |Chunks(EncodeInts(xs, n), n)| == |xs|
    ensures forall i :: 0 <= i < |xs| ==> Chunks(EncodeInts(xs, n), n)[i] == IntToBytes(xs[i], n)
  {
    if xs != [] {
      var e := EncodeInts(xs, n);
      assert e[..n] == IntToBytes(xs[0], n);
      assert e[n..] == EncodeInts(xs[1..], n);
      ChunksOfEncodeInts(xs[1..], n);
      assert Chunks(e, n) == [IntToBytes(xs[0], n)] + Chunks(EncodeInts(xs[1..], n), n);
    }
  }

  /** Round trip for arrays: decoding the bytes written for `xs` gives `xs`
      back when every element fits in `n` signed bytes. */
  lemma EncodeIntsRoundTrip(xs: seq<Int32>, n: nat)
    requires 1 <= n <= 4
    requires forall k :: 0 <= k < |xs| ==> FitsIn(xs[k], n)
    ensures DecodeGroups(EncodeInts(xs, n), n, true) == xs
  {
    ChunksOfEncodeInts(xs, n);
    forall i | 0 <= i < |xs|
      ensures DecodeGroups(EncodeInts(xs, n), n, true)[i] == xs[i]
    {
      IntToBytesRoundTrip(xs[i], n);
    }
  }

  // ---------------------------------------------------------------------
  // Sums and averages of decoded groups

  function Sum(vs: seq<int>): int
  {
    if vs == [] then 0 else Sum(vs[..|vs| - 1]) + vs[|vs| - 1]
  }

  /** What `averageDouble` computes: the `int` sum of the decoded groups
      (wrapping on overflow) divided by the number of groups; 0/0 is NaN when
      there is no complete group. */
  function GroupMean(bs: seq<Byte>, n: nat, bigEndian: bool): JDouble
    requires 1 <= n <= 4
  {
    var vs := DecodeGroups(bs, n, bigEndian);
    if |vs| == 0 then NaN else Num(Wrap32(Sum(vs)) as real / |vs| as real)
  }

  /** Adding to a wrapped sum wraps the exact sum. */
  lemma WrapAdd(a: int, b: int)
    ensures Wrap32(Wrap32(a) + b) == Wrap32(a + b)
  {
    var m := 0x1_0000_0000;
    var q := (a + 0x8000_0000) / m;
    assert Wrap32(a) == a - q * m;
    assert (a + b + 0x8000_0000 - q * m) % m == (a + b + 0x8000_0000) % m;
  }

  lemma {:induction false} SumBounds(vs: seq<int>, lo: int, hi: int)
    requires forall k :: 0 <= k < |vs| ==> lo <= vs[k] <= hi
    ensures lo * |vs| <= Sum(vs) <= hi * |vs|
  {
    if vs != [] {
      SumBounds(vs[..|vs| - 1], lo, hi);
    }
  }

  /** When every value lies in [lo, hi] and their sum cannot overflow an
      `int`, the wrapped sum divided by the count lies in [lo, hi]. */
  lemma {:induction false} MeanWithin(vs: seq<int>, lo: int, hi: int)
    requires |vs| > 0
    requires forall k :: 0 <= k < |vs| ==> lo <= vs[k] <= hi
    requires MinInt <= lo * |vs| && hi * |vs| <= MaxInt
    ensures lo as real <= Wrap32(Sum(vs)) as real / |vs| as real <= hi as real
  {
    SumBounds(vs, lo, hi);
    assert Wrap32(Sum(vs)) == Sum(vs);
    RealSeq.MeanBounds(Sum(vs) as real, |vs| as real, lo as real, hi as real);
  }

  /** Averaging a frame: when every decoded group lies in [lo, hi] and the
      sum cannot overflow, `averageDouble` gives a number within [lo, hi]. */
  lemma GroupMeanWithin(bs: seq<Byte>, n: nat, bigEndian: bool, lo: int, hi: int)
    requires 1 <= n <= 4 && n <= |bs|
    requires forall k :: 0 <= k < |DecodeGroups(bs, n, bigEndian)| ==> lo <= DecodeGroups(bs, n, bigEndian)[k] <= hi
    requires MinInt <= lo * |DecodeGroups(bs, n, bigEndian)| && hi * |DecodeGroups(bs, n, bigEndian)| <= MaxInt
    ensures GroupMean(bs, n, bigEndian).Num?
    ensures lo as real <= GroupMean(bs, n, bigEndian).value <= hi as real
  {
    DecodeGroupsLength(bs, n, bigEndian);
    DivStep(|bs|, n);
    MeanWithin(DecodeGroups(bs, n, bigEndian), lo, hi);
  }
}
