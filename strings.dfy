/** The pieces of Python's built-ins that the modelled code relies on:
    `min` and `max` of two integers, `str(n)` of an integer, `int(s)` of a string, zero-padded decimal fields,
    slicing with Python's clamping rules and `c * n` repetition. */
module Strings {
  import opened Results

  /** Python's `max(a, b)` and `min(a, b)` on integers. */
  function Max(a: int, b: int): int {
    if a < b then b else a
  }

  function Min(a: int, b: int): int {
    if a < b then a else b
  }

  predicate IsDigit(c: char) {
    '0' <= c <= '9'
  }

  predicate AllDigits(s: string) {
    forall i :: 0 <= i < |s| ==> IsDigit(s[i])
  }

  function DigitChar(d: nat): (c: char)
    requires d < 10
    ensures IsDigit(c) && c as int == '0' as int + d
  {
    ('0' as int + d) as char
  }

  function DigitValue(c: char): (d: nat)
    requires IsDigit(c)
    ensures d < 10 && DigitChar(d) == c
  {
    (c as int - '0' as int) as nat
  }

  function Pow10(k: nat): (p: nat)
    ensures p >= 1
  {
    if k == 0 then 1 else 10 * Pow10(k - 1)
  }

  /** Decimal digits of a natural number, without leading zeros (`str(n)` for n >= 0). */
  function NatToStr(n: nat): (s: string)
    ensures |s| >= 1 && AllDigits(s)
    ensures n < 10 <==> |s| == 1
    decreases n
  {
    if n < 10 then [DigitChar(n)] else NatToStr(n / 10) + [DigitChar(n % 10)]
  }

  /** Python's `str(i)` for an integer: a minus sign exactly for a negative
      number, then the decimal digits of its magnitude. */
  function IntToStr(i: int): (s: string)
    ensures s != [] && (s[0] == '-' <==> i < 0)
    ensures var d := if i < 0 then s[1..] else s;
            d != [] && AllDigits(d) && DigitsToNat(d) == if i < 0 then -i else i
  {
    DigitsToNatOfNatToStr(if i < 0 then -i else i);
    if i < 0 then
      assert ("-" + NatToStr(-i))[1..] == NatToStr(-i);
      "-" + NatToStr(-i)
    else NatToStr(i)
  }

  /** The value of a string of decimal digits; leading zeros are allowed. */
  function DigitsToNat(s: string): nat
    requires AllDigits(s)
  {
    if s == [] then 0 else 10 * DigitsToNat(s[..|s| - 1]) + DigitValue(s[|s| - 1])
  }

  lemma {:induction false} DigitsToNatOfNatToStr(n: nat)
    ensures DigitsToNat(NatToStr(n)) == n
    decreases n
  {
    if n >= 10 {
      var s := NatToStr(n);
      assert s[..|s| - 1] == NatToStr(n / 10);
      DigitsToNatOfNatToStr(n / 10);
    }
  }

  /** A number below 10^k has at most k decimal digits. */
  lemma {:induction false} NatToStrLength(n: nat, k: nat)
    ensures 1 <= k && n < Pow10(k) ==> |NatToStr(n)| <= k
    decreases k
  {
    if 1 <= k && n < Pow10(k) && n >= 10 {
      assert k >= 2;
      NatToStrLength(n / 10, k - 1);
    }
  }

  /** Python's `c * n`: n copies of c, nothing when n <= 0. */
  function Repeat(c: char, n: int): (r: string)
    ensures |r| == if n <= 0 then 0 else n
    ensures forall i :: 0 <= i < |r| ==> r[i] == c
    decreases n
  {
    if n <= 0 then [] else [c] + Repeat(c, n - 1)
  }

  /** `n` written with at least `width` digits, padded with leading zeros
      (the `%02d`-style fields of strftime). */
  function PadNat(n: nat, width: nat): (s: string)
    ensures AllDigits(s) && DigitsToNat(s) == n
    ensures 1 <= width && n < Pow10(width) ==> |s| == width
  {
    var digits := NatToStr(n);
    var zeros := Repeat('0', width - |digits|);
    DigitsToNatOfNatToStr(n);
    LeadingZeros(zeros, digits);
    NatToStrLength(n, width);
    zeros + digits
  }

  /** A two-digit number pads to its two digits. */
  lemma PadTwoDigits(n: nat)
    requires 10 <= n < 100
    ensures PadNat(n, 2) == [DigitChar(n / 10), DigitChar(n % 10)]
  {
    assert NatToStr(n) == NatToStr(n / 10) + [DigitChar(n % 10)];
  }

  /** A one-digit number pads to '0' and its digit. */
  lemma PadOneDigit(n: nat)
    requires n < 10
    ensures PadNat(n, 2) == ['0', DigitChar(n)]
  {
  }

  /** A four-digit number pads to its four digits. */
  lemma PadFourDigits(n: nat)
    requires 1000 <= n < 10000
    ensures PadNat(n, 4) == [DigitChar(n / 10 / 10 / 10), DigitChar(n / 10 / 10 % 10), DigitChar(n / 10 % 10), DigitChar(n % 10)]
  {
    var m1 := n / 10;
    var m2 := m1 / 10;
    assert 100 <= m1 < 1000 && 10 <= m2 < 100;
    assert NatToStr(m2) == [DigitChar(m2 / 10), DigitChar(m2 % 10)];
    assert NatToStr(m1) == NatToStr(m2) + [DigitChar(m1 % 10)];
    assert NatToStr(n) == NatToStr(m1) + [DigitChar(n % 10)];
  }

  lemma {:induction false} LeadingZeros(z: string, t: string)
    requires forall i :: 0 <= i < |z| ==> z[i] == '0'
    requires AllDigits(t)
    ensures AllDigits(z + t) && DigitsToNat(z + t) == DigitsToNat(t)
    decreases |t|
  {
    if t == [] {
      assert z + t == z;
      AllZeros(z);
    } else {
      var u := z + t;
      assert u[..|u| - 1] == z + t[..|t| - 1];
      LeadingZeros(z, t[..|t| - 1]);
    }
  }

  lemma {:induction false} AllZeros(z: string)
    requires forall i :: 0 <= i < |z| ==> z[i] == '0'
    ensures AllDigits(z) && DigitsToNat(z) == 0
    decreases |z|
  {
    if z != [] {
      AllZeros(z[..|z| - 1]);
    }
  }

  predicate IsSpace(c: char) {
    c == ' ' || c == '\t' || c == '\n' || c == '\r' || c == '\U{0B}' || c == '\U{0C}'
  }

  function StripLeft(s: string): (r: string)
    ensures |r| <= |s|
  {
    if s != [] && IsSpace(s[0]) then StripLeft(s[1..]) else s
  }

  function StripRight(s: string): (r: string)
    ensures |r| <= |s|
  {
    if s != [] && IsSpace(s[|s| - 1]) then StripRight(s[..|s| - 1]) else s
  }

  /** Python 2's `int(s)` for a string: optional surrounding whitespace, an
      optional sign, more optional whitespace after the sign, and at least one
      decimal digit; anything else is a ValueError. */
  function PyInt(s: string): (r: Result<int>)
    ensures r.Err? ==> r.error == ValueError
    ensures StripLeft(s) == [] ==> r.Err?
  {
    var t := StripRight(StripLeft(s));
    var digits := if t != [] && (t[0] == '+' || t[0] == '-') then StripLeft(t[1..]) else t;
    if digits == [] || !AllDigits(digits) then Err(ValueError)
    else if t[0] == '-' then Ok(-(DigitsToNat(digits) as int))
    else Ok(DigitsToNat(digits))
  }

  /** A string of n characters holds fewer than n digits' worth of magnitude. */
  lemma PyIntBound(s: string, n: nat)
    requires |s| <= n
    ensures PyInt(s).Ok? ==> -(Pow10(n) as int) < PyInt(s).value < Pow10(n)
  {
    var t := StripRight(StripLeft(s));
    var digits := if t != [] && (t[0] == '+' || t[0] == '-') then StripLeft(t[1..]) else t;
    assert |digits| <= |t| <= |s|;
    if digits != [] && AllDigits(digits) {
      DigitsBelow(digits);
      Pow10Monotone(|digits|, n);
    }
  }

  lemma {:induction false} DigitsBelow(s: string)
    requires AllDigits(s)
    ensures DigitsToNat(s) < Pow10(|s|)
  {
    if s != [] {
      DigitsBelow(s[..|s| - 1]);
    }
  }

  lemma {:induction false} Pow10Monotone(k: nat, n: nat)
    requires k <= n
    ensures Pow10(k) <= Pow10(n)
  {
    if k < n {
      Pow10Monotone(k, n - 1);
    }
  }

  /** Whitespace may surround the number and follow its sign; a sign alone, or
      whitespace between digits, is refused. */
  lemma PyIntExamples()
    ensures PyInt(" 42\n") == Ok(42)
    ensures PyInt("- 5") == Ok(-5)
    ensures PyInt("+\t7") == Ok(7)
    ensures PyInt("4 2") == Err(ValueError)
    ensures PyInt("-") == Err(ValueError)
  {
    assert StripRight(StripLeft(" 42\n")) == "42";
    assert DigitsToNat("42") == 42;
    assert StripRight(StripLeft("- 5")) == "- 5" && StripLeft(" 5") == "5";
    assert StripRight(StripLeft("+\t7")) == "+\t7" && StripLeft("\t7") == "7";
    assert StripRight(StripLeft("4 2")) == "4 2" && !IsDigit("4 2"[1]);
  }

  lemma PyIntOfIntToStr(i: int)
    ensures PyInt(IntToStr(i)) == Ok(i)
  {
    var n: nat := if i < 0 then -i else i;
    var d := NatToStr(n);
    DigitsToNatOfNatToStr(n);
    if i < 0 {
      PyIntOfNegative(d);
    } else {
      PyIntOfDigits(d);
    }
  }

  /** A minus sign before decimal digits reads as the negated value. */
  lemma PyIntOfNegative(d: string)
    requires d != [] && AllDigits(d)
    ensures PyInt("-" + d) == Ok(-(DigitsToNat(d) as int))
  {
    var s := "-" + d;
    assert s[0] == '-' && s[1..] == d && s[|s| - 1] == d[|d| - 1];
    NothingToStrip(s);
    assert StripLeft(d) == d by {
      assert IsDigit(d[0]);
    }
  }

  /** Without surrounding whitespace, stripping changes nothing. */
  lemma NothingToStrip(s: string)
    requires s != [] && !IsSpace(s[0]) && !IsSpace(s[|s| - 1])
    ensures StripRight(StripLeft(s)) == s
  {
  }

  /** On an all-digit string, `int` reads the decimal value. */
  lemma PyIntOfDigits(s: string)
    requires s != [] && AllDigits(s)
    ensures PyInt(s) == Ok(DigitsToNat(s) as int)
  {
    NothingToStrip(s);
  }

  /** Python's `s[i:j]` for non-negative bounds: out-of-range bounds are clamped. */
  function Slice(s: string, i: nat, j: nat): (r: string)
    ensures i <= j <= |s| ==> r == s[i..j]
    ensures |s| <= i ==> r == []
    ensures i <= j ==> |r| <= j - i
  {
    var lo := if i < |s| then i else |s|;
    var hi := if j < lo then lo else if j < |s| then j else |s|;
    s[lo..hi]
  }

  /** Python's `s[i:]` for a non-negative bound. */
  function SliceFrom(s: string, i: nat): (r: string)
    ensures i <= |s| ==> r == s[i..]
    ensures |s| <= i ==> r == []
  {
    if i <= |s| then s[i..] else []
  }
}
