/** The static helpers of `ByteArray`: writing `int`s as fixed-width byte
    groups, reading them back with sign extension, averaging the groups of a
    buffer and formatting a buffer as text. Each method is proved against the
    functions of `ByteCodec` and `DecimalText`. */
module ByteArray {
  import opened JavaTypes
  import opened ByteCodec
  import opened DecimalText

  const BitsPerByte: nat := 8

  /** `intToByteArray`: fills a fresh array with the big-endian lanes of `x`. */
  method IntToByteArray(x: Int32, arrayLength: nat) returns (bytes: array<Byte>)
    ensures fresh(bytes)
    ensures bytes[..] == IntToBytes(x, arrayLength)
  {
    bytes := new Byte[arrayLength];
    for i := 0 to arrayLength
      invariant forall k :: 0 <= k < i ==> bytes[arrayLength - (k + 1)] == LaneByte(x, k)
    {
      // (x >>> (i * BITS_PER_BYTE)) & 0xFF, the shift count taken modulo 32
      var shift := (i * BitsPerByte) % 32;
      ShiftLane(i);
      bytes[arrayLength - (i + 1)] := ToByte((Unsigned32(x) / Pow256(shift / BitsPerByte)) % 256);
    }
    assert forall j :: 0 <= j < arrayLength ==> bytes[j] == LaneByte(x, arrayLength - 1 - j);
  }

  /** A shift by `i` bytes, its count taken modulo 32, moves lane `i % 4`. */
  lemma ShiftLane(i: nat)
    ensures (i * BitsPerByte) % 32 / BitsPerByte == i % 4
  {
    var q := i / 4;
    var r := i % 4;
    assert i * BitsPerByte == q * 32 + r * 8;
    ModOfDecomposition(i * BitsPerByte, 32, q, r * 8);
  }

  /** The sign-extension step shared by the decoders: once the low `n` bytes
      hold the unsigned value `acc`, a negative sign byte sets every higher
      byte to 0xFF, and the 32 bits are read as a Java `int`. */
  method SignExtend(acc: nat, n: nat, negative: bool) returns (ret: Int32)
    requires 1 <= n <= 4 && acc < Pow256(n)
    requires negative == (acc >= Pow256(n) / 2)
    ensures ret == if negative then acc - Pow256(n) else acc
  {
    Pow256Values();
    PowMono(n, 4);
    var bits := acc;
    if negative {
      for i := 0 to 4 - n
        invariant bits == acc + Pow256(n + i) - Pow256(n)
      {
        // ret |= 0xFF << ((length + i) * BITS_PER_BYTE)
        bits := bits + 0xFF * Pow256(n + i);
      }
      assert bits == acc + 0x1_0000_0000 - Pow256(n);
    }
    ret := if bits >= 0x8000_0000 then bits - 0x1_0000_0000 else bits;
  }

  /** `byteArrayToInt(bytes)`: big-endian, sign taken from `bytes[0]`. The
      `|` of disjoint byte lanes is written as the sum of those lanes. */
  method ByteArrayToInt(bytes: array<Byte>) returns (ret: Int32)
    requires 1 <= bytes.Length <= 4
    ensures ret == Decode(bytes[..], true)
  {
    var n := bytes.Length;
    var acc := 0;
    var i := n - 1;
    while i >= 0
      invariant -1 <= i <= n - 1
      invariant acc == UnsignedValue(bytes[i + 1..])
    {
      // ret | ((bytes[i] << shift) & (0xFF << shift)), shift = (n - 1 - i) * 8
      assert bytes[i..] == [bytes[i]] + bytes[i + 1..];
      UnsignedValueCons(bytes[i], bytes[i + 1..]);
      acc := acc + Unsigned8(bytes[i]) * Pow256((n - 1) - i);
      i := i - 1;
    }
    assert bytes[0..] == bytes[..];
    SignBit(bytes[..]);
    ret := SignExtend(acc, n, bytes[0] < 0);
  }

  /** `byteArrayToInt(bytes, bigEndian)`: the big-endian branch is the loop
      above; the little-endian branch weights `bytes[i]` by 256^i and takes
      the sign from the last byte. */
  method ByteArrayToIntEndian(bytes: array<Byte>, bigEndian: bool) returns (ret: Int32)
    requires 1 <= bytes.Length <= 4
    ensures ret == Decode(bytes[..], bigEndian)
  {
    var n := bytes.Length;
    if bigEndian {
      ret := ByteArrayToInt(bytes);
    } else {
      var acc := 0;
      for i := 0 to n
        invariant acc == UnsignedValue(Reversed(bytes[..i]))
      {
        assert Reversed(bytes[..i + 1]) == [bytes[i]] + Reversed(bytes[..i]);
        UnsignedValueCons(bytes[i], Reversed(bytes[..i]));
        acc := acc + Unsigned8(bytes[i]) * Pow256(i);
      }
      assert bytes[..n] == bytes[..];
      SignBit(Reversed(bytes[..]));
      ret := SignExtend(acc, n, bytes[n - 1] < 0);
    }
  }

  /** `byteArrayToShort`: the same big-endian decoding, narrowed to 16 bits. */
  method ByteArrayToShort(bytes: array<Byte>) returns (r: int)
    requires 1 <= bytes.Length <= 4
    ensures r == ToShort(Decode(bytes[..], true))
    ensures bytes.Length <= 2 ==> r == Decode(bytes[..], true)
  {
    var ret := ByteArrayToInt(bytes);
    Pow256Values();
    if bytes.Length <= 2 {
      PowMono(bytes.Length, 2);
    }
    r := ToShort(ret);
  }

  /** `intArrayToByteArray`: the elements' byte groups, one after another. */
  method IntArrayToByteArray(iarr: array<Int32>, numBytesPerInt: nat) returns (bytes: array<Byte>)
    ensures fresh(bytes)
    ensures bytes[..] == EncodeInts(iarr[..], numBytesPerInt)
  {
    var n := numBytesPerInt;
    bytes := new Byte[iarr.Length * n];
    ghost var done := [];
    for i := 0 to iarr.Length
      invariant i * n <= bytes.Length
      invariant done == EncodeInts(iarr[..i], n)
      invariant bytes[..i * n] == done
    {
      var base := i * n;
      MulSucc(i, n);
      MulLeft(i + 1, iarr.Length, n);
      var temp := IntToByteArray(iarr[i], n);
      StoreGroup(bytes, base, temp);
      assert iarr[..i + 1] == iarr[..i] + [iarr[i]];
      EncodeIntsSnoc(iarr[..i], iarr[i], n);
      done := done + temp[..];
    }
    assert iarr[..iarr.Length] == iarr[..];
    assert bytes[..iarr.Length * n] == bytes[..];
  }

  /** The inner copy loop of `intArrayToByteArray`: `bytes[base + j] =
      temp[j]` for every `j` of `temp`, keeping what precedes `base`. */
  method StoreGroup(bytes: array<Byte>, base: nat, temp: array<Byte>)
    requires base + temp.Length <= bytes.Length
    requires temp != bytes
    modifies bytes
    ensures bytes[..base + temp.Length] == old(bytes[..base]) + temp[..]
    ensures bytes[base + temp.Length..] == old(bytes[base + temp.Length..])
  {
    ghost var done := bytes[..base];
    for j := 0 to temp.Length
      invariant bytes[..base + j] == done + temp[..j]
      invariant bytes[base + temp.Length..] == old(bytes[base + temp.Length..])
    {
      bytes[base + j] := temp[j];
      assert temp[..j + 1] == temp[..j] + [temp[j]];
    }
    assert temp[..temp.Length] == temp[..];
  }

  /** `byteArrayToIntArray`: decodes each complete group of `numBytesPerInt`
      bytes big-endian; trailing bytes are ignored. */
  method ByteArrayToIntArray(bytes: array<Byte>, numBytesPerInt: nat) returns (iarr: array<Int32>)
    requires 1 <= numBytesPerInt <= 4
    ensures fresh(iarr)
    ensures iarr[..] == DecodeGroups(bytes[..], numBytesPerInt, true)
  {
    var n := numBytesPerInt;
    iarr := new Int32[bytes.Length / n];
    var temp := new Byte[n];
    ghost var groups := DecodeGroups(bytes[..], n, true);
    DecodeGroupsLength(bytes[..], n, true);
    for i := 0 to iarr.Length
      invariant forall k :: 0 <= k < i ==> iarr[k] == groups[k]
    {
      var base := i * n;
      GroupFits(bytes.Length, n, i);
      LoadGroup(bytes, base, temp);
      DecodeGroupsAt(bytes[..], n, true, i, base);
      iarr[i] := ByteArrayToInt(temp);
    }
  }

  /** The inner copy loop of the array helpers: `temp[j] = bytes[base + j]`
      for every `j` of `temp`. */
  method LoadGroup(bytes: array<Byte>, base: nat, temp: array<Byte>)
    requires base + temp.Length <= bytes.Length
    requires temp != bytes
    modifies temp
    ensures temp[..] == bytes[base .. base + temp.Length]
  {
    for j := 0 to temp.Length
      invariant forall t :: 0 <= t < j ==> temp[t] == bytes[base + t]
    {
      temp[j] := bytes[base + j];
    }
  }

  /** Group `i` of a buffer with `a / n` complete groups lies inside it. */
  lemma GroupFits(a: nat, n: nat, i: nat)
    requires 1 <= n <= 4 && i < a / n
    ensures i * n + n <= a
  {
    MulSucc(i, n);
    MulLeft(i + 1, a / n, n);
  }

  /** The decoded groups of the buffer, one complete group at a time, as the
      averaging loops gather them into `ret` (an `int`, so it wraps). */
  method SumGroups(bytes: array<Byte>, n: nat, bigEndian: bool) returns (ret: Int32)
    requires 1 <= n <= 4
    ensures ret == Wrap32(Sum(DecodeGroups(bytes[..], n, bigEndian)))
  {
    var count := bytes.Length / n;
    var temp := new Byte[n];
    ghost var groups := DecodeGroups(bytes[..], n, bigEndian);
    DecodeGroupsLength(bytes[..], n, bigEndian);
    ret := 0;
    for i := 0 to count
      invariant ret == Wrap32(Sum(groups[..i]))
    {
      var v := GroupValue(bytes, n, bigEndian, i, temp);
      WrappedSumStep(groups, i);
      ret := Wrap32(ret + v);
    }
    assert groups[..count] == groups;
  }

  /** One pass of the averaging loops: group `i` copied into `temp` and
      decoded. */
  method GroupValue(bytes: array<Byte>, n: nat, bigEndian: bool, i: nat, temp: array<Byte>) returns (v: Int32)
    requires 1 <= n <= 4 && i < bytes.Length / n
    requires temp.Length == n && temp != bytes
    modifies temp
    ensures i < |DecodeGroups(bytes[..], n, bigEndian)|
    ensures v == DecodeGroups(bytes[..], n, bigEndian)[i]
  {
    var base := i * n;
    GroupFits(bytes.Length, n, i);
    LoadGroup(bytes, base, temp);
    DecodeGroupsAt(bytes[..], n, bigEndian, i, base);
    v := ByteArrayToIntEndian(temp, bigEndian);
  }

  /** One step of the wrapping sum: adding element `i` to the wrapped sum of
      the first `i` elements gives the wrapped sum of the first `i + 1`. */
  lemma WrappedSumStep(vs: seq<int>, i: nat)
    requires i < |vs|
    ensures Wrap32(Sum(vs[..i + 1])) == Wrap32(Wrap32(Sum(vs[..i])) + vs[i])
  {
    assert vs[..i + 1][..i] == vs[..i];
    WrapAdd(Sum(vs[..i]), vs[i]);
  }

  /** `averageDouble(bytes, numBytesPerInt, bigEndian)`. */
  method AverageDoubleEndian(bytes: array<Byte>, numBytesPerInt: nat, bigEndian: bool) returns (r: JDouble)
    requires 1 <= numBytesPerInt <= 4
    ensures r == GroupMean(bytes[..], numBytesPerInt, bigEndian)
    ensures bytes.Length < numBytesPerInt <==> r.NaN?
  {
    var ret := SumGroups(bytes, numBytesPerInt, bigEndian);
    var count := bytes.Length / numBytesPerInt;
    DecodeGroupsLength(bytes[..], numBytesPerInt, bigEndian);
    if count == 0 {
      r := NaN;  // 0.0 / 0
    } else {
      r := Num(ret as real / count as real);
    }
  }

  /** `averageDouble(bytes, numBytesPerInt)`: the big-endian variant. */
  method AverageDouble(bytes: array<Byte>, numBytesPerInt: nat) returns (r: JDouble)
    requires 1 <= numBytesPerInt <= 4
    ensures r == GroupMean(bytes[..], numBytesPerInt, true)
  {
    r := AverageDoubleEndian(bytes, numBytesPerInt, true);
  }

  /** `averageInt(bytes, numBytesPerInt, bigEndian)`: the same average rounded
      with `Math.round`; with no complete group the quotient is NaN, which
      `Math.round` turns into 0. */
  method AverageIntEndian(bytes: array<Byte>, numBytesPerInt: nat, bigEndian: bool) returns (r: int)
    requires 1 <= numBytesPerInt <= 4
    ensures r == match GroupMean(bytes[..], numBytesPerInt, bigEndian)
                 case Num(v) => Round(v)
                 case NaN => 0
    ensures bytes.Length < numBytesPerInt ==> r == 0
  {
    var ret := SumGroups(bytes, numBytesPerInt, bigEndian);
    var count := bytes.Length / numBytesPerInt;
    DecodeGroupsLength(bytes[..], numBytesPerInt, bigEndian);
    if count == 0 {
      r := 0;
    } else {
      r := Round(ret as real / count as real);
    }
  }

  /** `averageInt(bytes, numBytesPerInt)`: the big-endian variant. */
  method AverageInt(bytes: array<Byte>, numBytesPerInt: nat) returns (r: int)
    requires 1 <= numBytesPerInt <= 4
    ensures r == match GroupMean(bytes[..], numBytesPerInt, true)
                 case Num(v) => Round(v)
                 case NaN => 0
  {
    r := AverageIntEndian(bytes, numBytesPerInt, true);
  }

  /** `toString(bytes)`: `"null"`, or the elements in braces separated by
      `", "`. An empty array has no `bytes[0]` to print. */
  method ToString(bytes: array?<Byte>) returns (ret: string)
    requires bytes != null ==> bytes.Length >= 1
    ensures bytes == null ==> ret == "null"
    ensures bytes != null ==> ret == "{" + Joined(bytes[..]) + "}"
  {
    if bytes == null {
      return "null";
    }
    ret := "{" + Decimal(bytes[0]);
    for i := 1 to bytes.Length
      invariant ret == "{" + Joined(bytes[..i])
    {
      JoinedStep(bytes[..], i);
      AppendAssoc("{", Joined(bytes[..i]), ", ", Decimal(bytes[i]));
      ret := ret + ", " + Decimal(bytes[i]);
    }
    assert bytes[..bytes.Length] == bytes[..];
    ret := ret + "}";
  }

  /** `toString(bytes, groupSize)`: as above, with a new parenthesised group
      opened before every index divisible by `groupSize`. */
  method ToStringGrouped(bytes: array?<Byte>, groupSize: int) returns (ret: string)
    requires bytes != null ==> bytes.Length >= 1 && (groupSize != 0 || bytes.Length == 1)
    ensures bytes == null ==> ret == "null"
    ensures bytes != null ==> ret == "{(" + GroupedJoined(bytes[..], groupSize) + ")}"
  {
    if bytes == null {
      return "null";
    }
    ret := "{(" + Decimal(bytes[0]);
    for i := 1 to bytes.Length
      invariant ret == "{(" + GroupedJoined(bytes[..i], groupSize)
    {
      GroupedStep(bytes[..], groupSize, i);
      ghost var before := GroupedJoined(bytes[..i], groupSize);
      if i % groupSize == 0 {
        ret := ret + "), (" + Decimal(bytes[i]);
        AppendAssoc("{(", before, "), (", Decimal(bytes[i]));
      } else {
        ret := ret + ", " + Decimal(bytes[i]);
        AppendAssoc("{(", before, ", ", Decimal(bytes[i]));
      }
    }
    assert bytes[..bytes.Length] == bytes[..];
    ret := ret + ")}";
  }

  /** Extending the plain layout by element `i`. */
  lemma JoinedStep(bs: seq<int>, i: nat)
    requires 1 <= i < |bs|
    ensures Joined(bs[..i + 1]) == Joined(bs[..i]) + ", " + Decimal(bs[i])
  {
    var p := bs[..i];
    var t := p + [bs[i]];
    assert t == bs[..i + 1];
    assert t[..|t| - 1] == p;
    JoinedLast(t);
  }

  /** The last element of a list of two or more comes after a comma. */
  lemma JoinedLast(bs: seq<int>)
    requires |bs| >= 2
    ensures Joined(bs) == Joined(bs[..|bs| - 1]) + ", " + Decimal(bs[|bs| - 1])
  {
  }

  /** Extending the grouped layout by element `i`. */
  lemma GroupedStep(bs: seq<int>, groupSize: int, i: nat)
    requires 1 <= i < |bs| && groupSize != 0
    ensures GroupedJoined(bs[..i + 1], groupSize) ==
            GroupedJoined(bs[..i], groupSize) + Separator(i, groupSize) + Decimal(bs[i])
  {
    var p := bs[..i];
    var t := p + [bs[i]];
    assert t == bs[..i + 1];
    assert t[..|t| - 1] == p;
    GroupedLast(t, groupSize);
  }

  /** Element `i >= 1` of the grouped layout comes after its separator. */
  lemma GroupedLast(bs: seq<int>, groupSize: int)
    requires |bs| >= 2 && groupSize != 0
    ensures GroupedJoined(bs, groupSize) ==
            GroupedJoined(bs[..|bs| - 1], groupSize) + Separator(|bs| - 1, groupSize) + Decimal(bs[|bs| - 1])
  {
  }

  lemma AppendAssoc(a: string, b: string, c: string, d: string)
    ensures a + b + c + d == a + (b + c + d)
  {
  }
}
