// Characters and digit strings shared by the parser, the renderer and the scanner.
module Digits {

  function Abs(x: int): nat {
    if x < 0 then -x else x
  }

  /** The ASCII decimal digits, the only digits Rust's float parser accepts. */
  predicate IsAsciiDigit(c: char) {
    '0' <= c <= '9'
  }

  predicate AllAsciiDigits(s: string) {
    forall i :: 0 <= i < |s| ==> IsAsciiDigit(s[i])
  }

  predicate InBlock(n: int, zero: int) {
    zero <= n < zero + 10
  }

  /** The code points of the zeros of the blocks of ten digits of Unicode general
      category Nd (Unicode 15.0) other than the ASCII block. U+1D7CE..U+1D7FF, the
      mathematical digits, are five such blocks. */
  const OtherDigitZeros: seq<int> := [
    0x660, 0x6F0, 0x7C0, 0x966, 0x9E6, 0xA66, 0xAE6, 0xB66, 0xBE6, 0xC66, 0xCE6, 0xD66,
    0xDE6, 0xE50, 0xED0, 0xF20, 0x1040, 0x1090, 0x17E0, 0x1810, 0x1946, 0x19D0, 0x1A80,
    0x1A90, 0x1B50, 0x1BB0, 0x1C40, 0x1C50, 0xA620, 0xA8D0, 0xA900, 0xA9D0, 0xA9F0,
    0xAA50, 0xABF0, 0xFF10, 0x104A0, 0x10D30, 0x11066, 0x110F0, 0x11136, 0x111D0,
    0x112F0, 0x11450, 0x114D0, 0x11650, 0x116C0, 0x11730, 0x118E0, 0x11950, 0x11C50,
    0x11D50, 0x11DA0, 0x11F50, 0x16A60, 0x16AC0, 0x16B50, 0x1D7CE, 0x1D7D8, 0x1D7E2,
    0x1D7EC, 0x1D7F6, 0x1E140, 0x1E2F0, 0x1E4F0, 0x1E950, 0x1FBF0]

  predicate InSomeBlock(n: int, zeros: seq<int>) {
    zeros != [] && (InBlock(n, zeros[0]) || InSomeBlock(n, zeros[1..]))
  }

  /** A digit of Unicode general category Nd outside ASCII. Every block lies at or above
      U+0660, so the first conjunct settles the question for every ASCII character. */
  predicate IsOtherUnicodeDigit(n: int) {
    n >= 0x660 && InSomeBlock(n, OtherDigitZeros)
  }

  /** Unicode general category Nd: the characters the regex class `\d` matches when the
      pattern is compiled in Unicode mode, which is the regex crate's default. */
  predicate IsUnicodeDigit(c: char) {
    IsAsciiDigit(c) || IsOtherUnicodeDigit(c as int)
  }

  lemma AsciiDigitIsUnicodeDigit(c: char)
    ensures IsAsciiDigit(c) ==> IsUnicodeDigit(c)
  {
  }

  function DigitChar(d: nat): (c: char)
    requires d < 10
    ensures IsAsciiDigit(c) && c as int - '0' as int == d
  {
    ('0' as int + d) as char
  }

  function DigitValue(c: char): (d: nat)
    requires IsAsciiDigit(c)
    ensures d < 10 && DigitChar(d) == c
  {
    c as int - '0' as int
  }

  /** The number a string of ASCII digits denotes, most significant digit first. */
  function DigitsValue(s: string): nat
    requires AllAsciiDigits(s)
  {
    if s == [] then 0 else DigitsValue(s[..|s| - 1]) * 10 + DigitValue(s[|s| - 1])
  }

  function Pow10(n: nat): (r: nat)
    ensures r >= 1
  {
    if n == 0 then 1 else 10 * Pow10(n - 1)
  }

  lemma {:induction false} Pow10Add(a: nat, b: nat)
    ensures Pow10(a + b) == Pow10(a) * Pow10(b)
  {
    if b > 0 {
      Pow10Add(a, b - 1);
    }
  }

  lemma {:induction false} Pow10Monotone(a: nat, b: nat)
    requires a <= b
    ensures Pow10(a) <= Pow10(b)
  {
    if a < b {
      Pow10Monotone(a, b - 1);
    }
  }

  /** Reading the concatenation of two digit strings: the left part is shifted by the
      length of the right part. */
  lemma {:induction false} DigitsValueAppend(a: string, b: string)
    requires AllAsciiDigits(a) && AllAsciiDigits(b)
    ensures AllAsciiDigits(a + b)
    ensures DigitsValue(a + b) == DigitsValue(a) * Pow10(|b|) + DigitsValue(b)
  {
    if b == [] {
      assert a + b == a;
    } else {
      var b' := b[..|b| - 1];
      assert (a + b)[..|a + b| - 1] == a + b';
      assert (a + b)[|a + b| - 1] == b[|b| - 1];
      DigitsValueAppend(a, b');
      ShiftOneDigit(DigitsValue(a), Pow10(|b'|), DigitsValue(b'), DigitValue(b[|b| - 1]));
    }
  }

  /** The arithmetic step of DigitsValueAppend: one more digit on the right. */
  lemma ShiftOneDigit(x: int, p: int, y: int, d: int)
    ensures (x * p + y) * 10 + d == x * (10 * p) + (y * 10 + d)
  {
  }

  /** The plain decimal form of a natural number: no sign, no separator, no leading zero
      (this is what `i64`'s Display writes for the magnitude). */
  function DecimalDigits(n: nat): (r: string)
    ensures 1 <= |r| && AllAsciiDigits(r)
    ensures r[0] == '0' ==> n == 0
    ensures DigitsValue(r) == n
  {
    if n < 10 then [DigitChar(n)]
    else
      var r := DecimalDigits(n / 10) + [DigitChar(n % 10)];
      assert r[..|r| - 1] == DecimalDigits(n / 10);
      r
  }

  /** A value below 100 written with exactly two digits (`{:02}`). */
  function TwoDigits(n: nat): (r: string)
    requires n < 100
    ensures |r| == 2 && AllAsciiDigits(r) && DigitsValue(r) == n
  {
    var r := [DigitChar(n / 10), DigitChar(n % 10)];
    assert r[..1] == [r[0]] && r[..1][..0] == [];
    assert DigitsValue(r[..1]) == n / 10;
    r
  }

  /** A value below 1000 written with exactly three digits: one thousands group. */
  function ThreeDigits(n: nat): (r: string)
    requires n < 1000
    ensures |r| == 3 && AllAsciiDigits(r) && DigitsValue(r) == n
  {
    var r := TwoDigits(n / 10) + [DigitChar(n % 10)];
    assert r[..2] == TwoDigits(n / 10);
    r
  }
}
