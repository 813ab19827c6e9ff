/** itoa and atoi of sys/kernel/klibc.c, and parse_hex_ascii reading what itoa prints. */
module Numbers {
  import opened Prelude
  import opened CpioSpec
  import opened CpioTheorems

  /** The C int: every operation on it has to stay in range. */
  newtype int32 = x: int | -0x8000_0000 <= x < 0x8000_0000

  /** Division as in C: towards zero, the remainder having the sign of the dividend. */
  function Quot(v: int, base: nat): (q: int)
    requires base > 0
    ensures v >= 0 ==> q == v / base >= 0
  {
    if v >= 0 then v / base else -(-v / base)
  }

  function Rem(v: int, base: nat): (r: int)
    requires base > 0
    ensures r < base && -r < base && (v >= 0 ==> r == v % base)
  {
    if v >= 0 then v % base else -(-v % base)
  }

  function Size(v: int): nat {
    if v < 0 then -v else v
  }

  lemma {:induction false} TwiceAtMost(q: nat, base: nat)
    requires base >= 2
    ensures 2 * q <= base * q
    decreases base
  {
    if base > 2 {
      TwiceAtMost(q, base - 1);
      assert base * q == (base - 1) * q + q;
    }
  }

  lemma HalfAtLeast(a: nat, base: nat)
    requires base >= 2
    ensures 2 * (a / base) <= a
  {
    var q := a / base;
    assert a == base * q + a % base;
    TwiceAtMost(q, base);
  }

  lemma QuotShrinks(v: int, base: nat)
    requires base >= 2
    ensures 2 * Size(Quot(v, base)) <= Size(v)
  {
    HalfAtLeast(Size(v), base);
  }

  /** What itoa adds for one remainder; for a negative one that is a character before '0'. */
  function DigitChar(d: int): byte
    requires -36 < d < 36
  {
    if d < 10 then '0' as int + d else 'A' as int + d - 10
  }

  /** The digits of a number, most significant first; none for 0. */
  function Digits(v: int, base: nat): seq<byte>
    requires 2 <= base <= 36
    decreases Size(v)
  {
    QuotShrinks(v, base);
    if v == 0 then [] else Digits(Quot(v, base), base) + [DigitChar(Rem(v, base))]
  }

  /** Only in base ten is a negative number written with a sign. */
  function Text(v: int, base: nat): seq<byte>
    requires 2 <= base <= 36
  {
    if v == 0 then ['0' as int]
    else if v < 0 && base == 10 then ['-' as int] + Digits(-v, base)
    else Digits(v, base)
  }

  function Pow2(k: nat): nat {
    if k == 0 then 1 else 2 * Pow2(k - 1)
  }

  /** No base needs more digits than base two. */
  lemma {:induction false} DigitsFit(v: int, base: nat, k: nat)
    requires 2 <= base <= 36 && Size(v) < Pow2(k)
    ensures |Digits(v, base)| <= k
    decreases k
  {
    if v != 0 {
      QuotShrinks(v, base);
      DigitsFit(Quot(v, base), base, k - 1);
    }
  }

  lemma Pow2At32()
    ensures Pow2(32) == TWO_32
  {
    assert Pow2(8) == 256;
    assert Pow2(16) == 0x1_0000;
    assert Pow2(24) == 0x100_0000;
  }

  /** The 33-byte scratch buffer is large enough for every 32-bit number in every base. */
  lemma ScratchSuffices(v: int, base: nat)
    requires 2 <= base <= 36 && -TWO_31 <= v < TWO_31
    ensures |Text(v, base)| <= 33
  {
    Pow2At32();
    DigitsFit(v, base, 32);
    DigitsFit(-v, base, 32);
  }

  // ----- itoa

  /** Fill a scratch buffer from the low digit up, then copy it out in reverse and terminate it. In base
    * ten the most negative number cannot be negated; in C that is undefined. */
  method Itoa(value: int32, str: array<byte>, base: int32)
    requires 2 <= base <= 36 && (base == 10 ==> value as int != -TWO_31)
    requires str.Length > |Text(value as int, base as int)|
    modifies str
    ensures var t := Text(value as int, base as int);
      str[..|t| + 1] == t + [0] && str[|t| + 1..] == old(str[|t| + 1..])
  {
    if value == 0 {
      str[0], str[1] := '0' as int, 0;
      return;
    }
    ScratchSuffices(value as int, base as int);
    var buf := new byte[33](_ => 0);
    var v, isNegative := value, false;
    if base == 10 && value < 0 {
      isNegative := true;
      v := -value;
    }
    var i := FillDigits(buf, v, base);
    if isNegative {
      buf[i] := '-' as int;
      i := i + 1;
    }
    CopyReversed(buf, i, str, Text(value as int, base as int));
  }

  /** The digit loop of itoa. */
  method FillDigits(buf: array<byte>, value: int32, base: int32) returns (i: nat)
    requires 2 <= base <= 36 && value != 0 && buf.Length == 33
    modifies buf
    ensures var all := Digits(value as int, base as int);
      i == |all| <= 32 && forall k :: 0 <= k < i ==> buf[k] == all[i - 1 - k]
  {
    ghost var all := Digits(value as int, base as int);
    Pow2At32();
    DigitsFit(value as int, base as int, 32);
    var v := value;
    i := 0;
    while v != 0
      invariant i <= |all| && Digits(v as int, base as int) == all[..|all| - i]
      invariant forall k :: 0 <= k < i ==> buf[k] == all[|all| - 1 - k]
      decreases Size(v as int)
    {
      StepDigits(all, i, v as int, base as int);
      var rem := RemInt(v, base);
      buf[i] := if rem < 10 then '0' as int + rem as int else 'A' as int + rem as int - 10;
      v := QuotInt(v, base);
      i := i + 1;
    }
  }

  /** `/` and `%` of C on int. */
  function QuotInt(v: int32, base: int32): (q: int32)
    requires base >= 2
    ensures q as int == Quot(v as int, base as int)
  {
    QuotShrinks(v as int, base as int);
    Quot(v as int, base as int) as int32
  }

  function RemInt(v: int32, base: int32): (r: int32)
    requires base >= 2
    ensures r as int == Rem(v as int, base as int)
  {
    Rem(v as int, base as int) as int32
  }

  lemma StepDigits(all: seq<byte>, i: nat, v: int, base: nat)
    requires 2 <= base <= 36 && v != 0 && i <= |all| && Digits(v, base) == all[..|all| - i]
    ensures Size(Quot(v, base)) < Size(v) && i < |all|
    ensures Digits(Quot(v, base), base) == all[..|all| - (i + 1)] && all[|all| - 1 - i] == DigitChar(Rem(v, base))
  {
    DropDigit(v, base);
    ShorterPrefix(all, i);
  }

  lemma ShorterPrefix(all: seq<byte>, i: nat)
    requires i < |all|
    ensures var d := all[..|all| - i]; d[..|d| - 1] == all[..|all| - (i + 1)] && d[|d| - 1] == all[|all| - 1 - i]
  {
  }

  lemma DropDigit(v: int, base: nat)
    requires 2 <= base <= 36 && v != 0
    ensures Size(Quot(v, base)) < Size(v)
    ensures var d := Digits(v, base);
      |d| > 0 && Digits(Quot(v, base), base) == d[..|d| - 1] && d[|d| - 1] == DigitChar(Rem(v, base))
  {
    QuotShrinks(v, base);
  }

  /** The last loop of itoa. */
  method CopyReversed(buf: array<byte>, n: nat, str: array<byte>, ghost t: seq<byte>)
    requires n == |t| <= buf.Length && str.Length > n && buf != str
    requires forall k :: 0 <= k < n ==> buf[k] == t[n - 1 - k]
    modifies str
    ensures str[..n + 1] == t + [0] && str[n + 1..] == old(str[n + 1..])
  {
    var i, j := n, 0;
    while i > 0
      invariant 0 <= i <= n && j == n - i
      invariant forall k :: 0 <= k < j ==> str[k] == t[k]
      invariant forall k :: j <= k < str.Length ==> str[k] == old(str[k])
    {
      i := i - 1;
      str[j] := buf[i];
      j := j + 1;
    }
    str[j] := 0;
  }

  // ----- atoi

  predicate Fits(x: int) {
    -TWO_31 <= x < TWO_31
  }

  /** The loop of atoi; it takes any character for a digit. */
  function Accumulate(s: seq<byte>, res: int): int {
    if s == [] then res else Accumulate(s[1..], res * 10 + (s[0] as int - '0' as int))
  }

  /** No intermediate value leaves the range of int. */
  predicate InRangeAll(s: seq<byte>, res: int) {
    Fits(res) && (s == [] || (Fits(res * 10) && InRangeAll(s[1..], res * 10 + (s[0] as int - '0' as int))))
  }

  function Unsigned(s: seq<byte>): seq<byte> {
    if s != [] && s[0] == '-' as int then s[1..] else s
  }

  function Value(s: seq<byte>): int {
    var r := Accumulate(Unsigned(s), 0);
    if s != [] && s[0] == '-' as int then -r else r
  }

  /** `str` is the string without its terminator. Overflow is undefined in C, so the caller must not
    * pass a string that leads to it. */
  method Atoi(str: seq<byte>) returns (r: int32)
    requires InRangeAll(Unsigned(str), 0) && Fits(Value(str))
    ensures r as int == Value(str)
  {
    var res, sign, i: nat := 0 as int32, 1 as int32, 0;
    if |str| > 0 && str[0] == '-' as int {
      sign, i := -1, 1;
    }
    assert str[i..] == Unsigned(str);
    while i < |str|
      invariant i <= |str| && InRangeAll(str[i..], res as int)
      invariant Accumulate(str[i..], res as int) == Accumulate(Unsigned(str), 0)
    {
      assert str[i..][1..] == str[i + 1..];
      assert InRangeAll(str[i + 1..], res as int * 10 + (str[i] as int - '0' as int));
      res := res * 10 + (str[i] as int - '0' as int) as int32;
      i := i + 1;
    }
    assert str[i..] == [];
    r := res * sign;
  }

  // ----- They undo each other

  lemma {:induction false} AccumulateSnoc(s: seq<byte>, c: byte, res: int)
    requires InRangeAll(s, res)
    ensures Accumulate(s + [c], res) == Accumulate(s, res) * 10 + (c as int - '0' as int)
    ensures Fits(Accumulate(s, res) * 10) && Fits(Accumulate(s + [c], res)) ==> InRangeAll(s + [c], res)
    decreases |s|
  {
    if s == [] {
      assert (s + [c])[1..] == [];
    } else {
      assert (s + [c])[1..] == s[1..] + [c];
      AccumulateSnoc(s[1..], c, res * 10 + (s[0] as int - '0' as int));
    }
  }

  lemma {:induction false} DecimalReadBack(v: nat)
    requires v < TWO_31
    ensures InRangeAll(Digits(v, 10), 0) && Accumulate(Digits(v, 10), 0) == v
  {
    if v > 0 {
      DecimalReadBack(v / 10);
      AccumulateSnoc(Digits(v / 10, 10), DigitChar(v % 10), 0);
    }
  }

  lemma {:induction false} FirstDigit(v: nat, base: nat)
    requires 2 <= base <= 36 && v > 0
    ensures Digits(v, base) != [] && Digits(v, base)[0] != '-' as int
  {
    var q, c := v / base, DigitChar(v % base);
    QuotShrinks(v, base);
    if q > 0 {
      FirstDigit(q, base);
    }
    FirstOfSnoc(Digits(q, base), c);
    assert Digits(v, base) == Digits(q, base) + [c];
  }

  lemma FirstOfSnoc(s: seq<byte>, c: byte)
    requires c != '-' as int && (s != [] ==> s[0] != '-' as int)
    ensures (s + [c])[0] != '-' as int
  {
  }

  /** atoi reads back every 32-bit number itoa prints in base ten, with nothing leaving the range on
    * the way. The one number left out cannot be negated in 32 bits. */
  lemma DecimalRoundTrip(v: int)
    requires -TWO_31 < v < TWO_31
    ensures var t := Text(v, 10); InRangeAll(Unsigned(t), 0) && Fits(Value(t)) && Value(t) == v
  {
    var t, n := Text(v, 10), if v < 0 then -v else v;
    DecimalReadBack(n);
    if v == 0 {
      assert Unsigned(t)[1..] == [];
    } else if v < 0 {
      assert t[1..] == Digits(n, 10);
    } else {
      FirstDigit(v, 10);
    }
  }

  lemma {:induction false} HexDigitsReadBack(v: nat)
    requires v < TWO_32
    ensures HexFrom(Digits(v, 16), 0) == v && forall i :: 0 <= i < |Digits(v, 16)| ==> HexDigit(Digits(v, 16)[i]).Some?
  {
    if v > 0 {
      var s, c := Digits(v / 16, 16), DigitChar(v % 16);
      HexDigitsReadBack(v / 16);
      HexFromSnoc(s, c, 0);
      HexStep(v);
      assert Digits(v, 16) == s + [c];
    }
  }

  lemma HexStep(v: nat)
    requires v < TWO_32
    ensures v / 16 * 16 % TWO_32 + v % 16 == v
    ensures HexDigit(DigitChar(v % 16)) == Some(v % 16)
  {
  }

  /** parse_hex_ascii reads back every non-negative number itoa prints in base sixteen. */
  lemma HexadecimalRoundTrip(v: nat)
    requires v < TWO_31
    ensures HexFrom(Text(v, 16), 0) == v
  {
    HexDigitsReadBack(v);
    if v == 0 {
      assert Text(v, 16)[1..] == [];
    }
  }

  // ----- What the digits mean, in every base

  const FIGURES: string := "0123456789ABCDEFGHIJKLMNOPQRSTUVWXYZ"

  /** The figures are 0 to 9 and the capital letters. */
  lemma DigitSpelt(d: nat)
    requires d < 36
    ensures DigitChar(d) == Ascii(FIGURES)[d]
  {
  }

  /** The number a text of figures stands for. */
  function Worth(s: seq<byte>, base: nat): nat {
    if s == [] then 0 else Worth(s[..|s| - 1], base) * base + FigureOf(s[|s| - 1])
  }

  function FigureOf(c: byte): nat {
    if '0' as int <= c <= '9' as int then c - '0' as int else if 'A' as int <= c <= 'Z' as int then c - 'A' as int + 10 else 0
  }

  lemma QuotRem(v: nat, base: nat)
    requires base > 0
    ensures v / base * base + v % base == v
  {
    var q, r := v / base, v % base;
    assert v == base * q + r;
  }

  /** In every base a number is written as the figures that stand for it, and without a leading zero. */
  lemma {:induction false} DigitsMean(v: nat, base: nat)
    requires 2 <= base <= 36
    ensures Worth(Digits(v, base), base) == v
    ensures v > 0 ==> Digits(v, base) != [] && Digits(v, base)[0] != '0' as int
    ensures forall i :: 0 <= i < |Digits(v, base)| ==> exists d: nat :: d < base && Digits(v, base)[i] == DigitChar(d)
    decreases v
  {
    if v > 0 {
      var q, r := v / base, v % base;
      QuotShrinks(v, base);
      DigitsMean(q, base);
      QuotRem(v, base);
      var all, front := Digits(v, base), Digits(q, base);
      assert all == front + [DigitChar(r)];
      assert all[..|all| - 1] == front;
      assert all[|all| - 1] == DigitChar(r);
    }
  }

  lemma OppositeQuot(v: int, base: nat)
    requires base > 0 && v < 0
    ensures Quot(-v, base) == -Quot(v, base) && Rem(-v, base) == -Rem(v, base)
  {
  }

  /** The digits of a negative number are those of its absolute value, each taken off the character 0
    * instead of added to it. */
  lemma {:induction false} NegativeDigits(v: int, base: nat)
    requires 2 <= base <= 36 && v < 0
    ensures |Digits(v, base)| == |Digits(-v, base)|
    ensures forall i :: 0 <= i < |Digits(v, base)| ==>
      Digits(v, base)[i] as int == '0' as int - FigureOf(Digits(-v, base)[i])
    decreases -v
  {
    var q := Quot(v, base);
    QuotShrinks(v, base);
    OppositeQuot(v, base);
    if q < 0 {
      NegativeDigits(q, base);
    }
    assert Digits(v, base) == Digits(q, base) + [DigitChar(Rem(v, base))];
    assert Digits(-v, base) == Digits(-q, base) + [DigitChar(-Rem(v, base))];
  }

  /** In base ten a negative number is a minus sign and its absolute value; in other bases there is none. */
  lemma NegativeText(v: int, base: nat)
    requires 2 <= base <= 36 && v < 0
    ensures Text(v, 10) == ['-' as int] + Text(-v, 10) && (base != 10 ==> Text(v, base) == Digits(v, base))
  {
  }
}
