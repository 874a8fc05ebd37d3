/** Java's decimal rendering of an integer (what `"" + b` produces for a
    `byte` b) and the text layouts of the byte-array `toString` helpers. */
module DecimalText {

  function DigitChar(d: int): (c: char)
    requires 0 <= d < 10
    ensures '0' <= c <= '9'
  {
    "0123456789"[d]
  }

  function DigitValue(c: char): (d: int)
    requires '0' <= c <= '9'
    ensures 0 <= d < 10
  {
    c as int - '0' as int
  }

  /** The decimal digits of a non-negative integer, without leading zeros. */
  function NatText(v: nat): (s: string)
    ensures |s| >= 1
    ensures forall k :: 0 <= k < |s| ==> '0' <= s[k] <= '9'
    decreases v
  {
    if v < 10 then [DigitChar(v)] else NatText(v / 10) + [DigitChar(v % 10)]
  }

  /** `Integer.toString(v)`: a minus sign for negative values, then the digits. */
  function Decimal(v: int): string
  {
    if v < 0 then "-" + NatText(-v) else NatText(v)
  }

  predicate AllDigits(s: string)
  {
    forall k :: 0 <= k < |s| ==> '0' <= s[k] <= '9'
  }

  /** Reading a string of digits back as a number. */
  function ParseDigits(s: string): nat
    requires AllDigits(s)
  {
    if s == [] then 0 else ParseDigits(s[..|s| - 1]) * 10 + DigitValue(s[|s| - 1])
  }

  /** Text of the form produced by `Decimal`: digits, optionally after a minus. */
  predicate IsDecimal(s: string)
  {
    |s| >= 1 && if s[0] == '-' then |s| >= 2 && AllDigits(s[1..]) else AllDigits(s)
  }

  function ParseDecimal(s: string): int
    requires IsDecimal(s)
  {
    if s[0] == '-' then -(ParseDigits(s[1..]) as int) else ParseDigits(s)
  }

  lemma {:induction false} ParseNatText(v: nat)
    ensures ParseDigits(NatText(v)) == v
    decreases v
  {
    if v >= 10 {
      var s := NatText(v);
      assert s[..|s| - 1] == NatText(v / 10);
      ParseNatText(v / 10);
    }
  }

  /** The decimal text of an integer determines it: it is well formed and
      parsing it back gives the integer. */
  lemma DecimalRoundTrip(v: int)
    ensures IsDecimal(Decimal(v))
    ensures ParseDecimal(Decimal(v)) == v
  {
    var s := Decimal(v);
    if v < 0 {
      var t := NatText(-v);
      assert s == "-" + t;
      assert s[1..] == t;
      ParseNatText(-v);
    } else {
      ParseNatText(v);
    }
  }

  /** `b[0] + ", " + b[1] + ", " + ...`: the elements in decimal, separated by
      a comma and a space. */
  function Joined(bs: seq<int>): string
    requires |bs| >= 1
  {
    if |bs| == 1 then Decimal(bs[0])
    else Joined(bs[..|bs| - 1]) + ", " + Decimal(bs[|bs| - 1])
  }

  /** The same list where every index divisible by `groupSize` starts a new
      parenthesised group: the separator before element `i` is `"), ("`
      when `i % groupSize == 0` and `", "` otherwise. */
  function GroupedJoined(bs: seq<int>, groupSize: int): string
    requires |bs| >= 1
    requires groupSize != 0 || |bs| == 1
  {
    if |bs| == 1 then Decimal(bs[0])
    else
      var i := |bs| - 1;
      GroupedJoined(bs[..i], groupSize) + Separator(i, groupSize) + Decimal(bs[i])
  }

  /** What comes before element `i` of the grouped layout: a group boundary
      at every multiple of the group size, a plain comma otherwise. */
  function Separator(i: int, groupSize: int): string
    requires groupSize != 0
  {
    if i % groupSize == 0 then "), (" else ", "
  }

  /** When the group size exceeds every index, there is one group: the grouped
      layout is the plain list. */
  lemma {:induction false} OneGroup(bs: seq<int>, groupSize: int)
    requires |bs| >= 1
    requires groupSize >= |bs| || groupSize <= -|bs|
    ensures GroupedJoined(bs, groupSize) == Joined(bs)
  {
    if |bs| > 1 {
      var i := |bs| - 1;
      assert i % groupSize == i;
      assert Separator(i, groupSize) == ", ";
      OneGroup(bs[..i], groupSize);
    }
  }
}
