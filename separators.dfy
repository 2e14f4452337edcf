// The rendering of a rounded number: `format_number_with_separators` and
// `format_single_number` (src/main.rs:64-79, 87-90). The integer part is written the way
// `num_format`'s English locale writes an `i64` (a comma every three digits); the
// hundredths, when there are any, follow a point as exactly two digits.
module Separators {
  import opened Digits
  import opened Decimals
  import opened FloatSyntax

  /** The string with every comma deleted. */
  function RemoveCommas(s: string): string {
    if s == [] then []
    else (if s[0] == ',' then [] else [s[0]]) + RemoveCommas(s[1..])
  }

  /** The shape of a grouped natural number: a lead group of one to three digits, without
      a leading zero unless it is the number 0, then groups of a comma and three digits. */
  predicate WellGrouped(s: string)
    decreases |s|
  {
    if |s| >= 4 && s[|s| - 4] == ',' then
      && AllAsciiDigits(s[|s| - 3..])
      && WellGrouped(s[..|s| - 4])
      && s[..|s| - 4] != "0"
    else
      && 1 <= |s| <= 3
      && AllAsciiDigits(s)
      && (s[0] == '0' ==> |s| == 1)
  }

  /** A natural number written with a comma between groups of three digits. Deleting the
      commas gives its plain decimal form back. */
  function GroupThousands(n: nat): (r: string)
    ensures WellGrouped(r)
    ensures RemoveCommas(r) == DecimalDigits(n)
  {
    if n < 1000 then
      ShortDecimalDigits(n);
      RemoveCommasOfDigits(DecimalDigits(n));
      DecimalDigits(n)
    else
      var lead := GroupThousands(n / 1000);
      var last := ThreeDigits(n % 1000);
      LeadNotZero(n / 1000, lead);
      JoinWellGrouped(lead, last);
      JoinRemoveCommas(lead, last);
      DecimalDigitsSplit(n);
      lead + "," + last
  }

  /** One more group after a grouped number keeps it grouped. */
  lemma JoinWellGrouped(lead: string, last: string)
    requires WellGrouped(lead) && lead != "0"
    requires |last| == 3 && AllAsciiDigits(last)
    ensures WellGrouped(lead + "," + last)
  {
    var r := lead + "," + last;
    assert r[..|r| - 4] == lead && r[|r| - 4] == ',' && r[|r| - 3..] == last;
  }

  lemma JoinRemoveCommas(lead: string, last: string)
    requires AllAsciiDigits(last)
    ensures RemoveCommas(lead + "," + last) == RemoveCommas(lead) + last
  {
    RemoveCommasAppend(lead + ",", last);
    RemoveCommasAppend(lead, ",");
    RemoveCommasOfDigits(last);
  }

  /** `i64` written in the English locale: a minus sign for a negative value, then the
      grouped magnitude. */
  function Grouped(i: int): (r: string)
    ensures i < 0 ==> r == "-" + GroupThousands(-i)
    ensures i >= 0 ==> r == GroupThousands(i)
    ensures RemoveCommas(r) == (if i < 0 then "-" else "") + DecimalDigits(Abs(i))
  {
    if i < 0 then
      RemoveCommasAppend("-", GroupThousands(-i));
      "-" + GroupThousands(-i)
    else
      GroupThousands(i)
  }

  /** `number.trunc()` of a value of h hundredths: the whole part, rounded toward zero. */
  function IntegerPart(h: int): (w: int)
    ensures Abs(w) * 100 <= Abs(h) < Abs(w) * 100 + 100
    ensures w < 0 <==> h <= -100
  {
    if h < 0 then -(Abs(h) / 100) else h / 100
  }

  /** The hundredths of the absolute value, `(|x| - trunc(|x|)) * 100` rounded. */
  function FractionPart(h: int): (f: nat)
    ensures f < 100 && Abs(h) == Abs(IntegerPart(h)) * 100 + f
  {
    Abs(h) % 100
  }

  /** `format_number_with_separators` of a value of h hundredths. A rendering holds only
      ASCII digits, commas, a point and a minus sign. It has a point exactly when the
      hundredths of the absolute value are not zero, and a minus sign exactly when the whole
      part, truncated toward zero, is negative: a value strictly between -1 and 0 loses its
      sign. */
  function FormatWithSeparators(h: int): (r: string)
    ensures forall c :: c in r ==> IsRenderedChar(c)
    ensures '.' in r <==> FractionPart(h) != 0
    ensures '-' in r <==> h <= -100
  {
    var t := IntegerPart(h);
    GroupedCharacters(t);
    MinusInGrouped(t);
    JoinCharacters(Grouped(t), Suffix(FractionPart(h)));
    Grouped(t) + Suffix(FractionPart(h))
  }

  /** `format_single_number`: round to hundredths, then render. Read back with the commas
      deleted, the result is the rounded value, made positive when it lies strictly between
      -1 and 0. */
  function FormatSingleNumber(d: Decimal): (r: string)
    ensures var h := RoundHundredths(d); var back := ParseFloat(RemoveCommas(r));
      back.Some? && IsHundredths(back.value, if -100 < h < 0 then -h else h)
  {
    ReadBack(RoundHundredths(d));
    FormatWithSeparators(RoundHundredths(d))
  }

  /** The characters a rendering may hold. */
  predicate IsRenderedChar(c: char) {
    IsAsciiDigit(c) || c == ',' || c == '.' || c == '-'
  }

  lemma LeadNotZero(q: nat, lead: string)
    requires q >= 1 && RemoveCommas(lead) == DecimalDigits(q)
    ensures lead != "0"
  {
  }

  lemma {:induction false} RemoveCommasAppend(a: string, b: string)
    ensures RemoveCommas(a + b) == RemoveCommas(a) + RemoveCommas(b)
  {
    if a != [] {
      assert (a + b)[0] == a[0] && (a + b)[1..] == a[1..] + b;
      RemoveCommasAppend(a[1..], b);
    } else {
      assert a + b == b;
    }
  }

  lemma {:induction false} RemoveCommasOfDigits(s: string)
    requires AllAsciiDigits(s)
    ensures RemoveCommas(s) == s
  {
    if s != [] {
      RemoveCommasOfDigits(s[1..]);
      assert s == [s[0]] + s[1..];
    }
  }

  lemma ShortDecimalDigits(n: nat)
    requires n < 1000
    ensures 1 <= |DecimalDigits(n)| <= 3
  {
    if n >= 100 {
      assert |DecimalDigits(n / 10 / 10)| == 1;
      assert |DecimalDigits(n / 10)| == 2;
    } else if n >= 10 {
      assert |DecimalDigits(n / 10)| == 1;
    }
  }

  /** The plain decimal form of n splits into that of n / 1000 and three more digits. */
  lemma DecimalDigitsSplit(n: nat)
    requires n >= 1000
    ensures DecimalDigits(n) == DecimalDigits(n / 1000) + ThreeDigits(n % 1000)
  {
    var a := n / 10;
    var b := a / 10;
    ThousandsDigits(n);
    var d0, d1, d2 := DigitChar(n % 10), DigitChar(a % 10), DigitChar(b % 10);
    assert DecimalDigits(n) == DecimalDigits(a) + [d0];
    assert DecimalDigits(a) == DecimalDigits(b) + [d1];
    assert DecimalDigits(b) == DecimalDigits(n / 1000) + [d2];
    assert ThreeDigits(n % 1000) == [d2, d1] + [d0];
    Regroup(DecimalDigits(n / 1000), d2, d1, d0);
  }

  /** The last three decimal digits of n, one division by ten at a time. */
  lemma ThousandsDigits(n: nat)
    ensures n / 10 / 10 / 10 == n / 1000
    ensures n % 1000 / 10 / 10 == n / 10 / 10 % 10
    ensures n % 1000 / 10 % 10 == n / 10 % 10
    ensures n % 1000 % 10 == n % 10
  {
  }

  lemma Regroup(x: string, p: char, q: char, r: char)
    ensures x + [p] + [q] + [r] == x + ([p, q] + [r])
  {
  }


  lemma {:induction false} WellGroupedChars(s: string)
    requires WellGrouped(s)
    ensures forall i :: 0 <= i < |s| ==> IsAsciiDigit(s[i]) || s[i] == ','
    decreases |s|
  {
    if |s| >= 4 && s[|s| - 4] == ',' {
      var lead := s[..|s| - 4];
      var last := s[|s| - 3..];
      WellGroupedChars(lead);
      assert s == lead + [','] + last;
      forall i | 0 <= i < |s|
        ensures IsAsciiDigit(s[i]) || s[i] == ','
      {
        if i < |s| - 4 {
          assert s[i] == lead[i];
        } else if i > |s| - 4 {
          assert s[i] == last[i - (|s| - 3)];
        }
      }
    }
  }

  lemma GroupedCharacters(i: int)
    ensures forall k :: 0 <= k < |Grouped(i)| ==> IsRenderedChar(Grouped(i)[k]) && Grouped(i)[k] != '.'
    ensures forall k :: 0 < k < |Grouped(i)| ==> Grouped(i)[k] != '-'
    ensures |Grouped(i)| > 0 && (Grouped(i)[0] == '-' <==> i < 0)
  {
    var g := GroupThousands(Abs(i));
    WellGroupedChars(g);
    SignedCharacters(i < 0, g, Grouped(i));
  }

  /** A run of digits and commas, with a minus sign in front when neg. */
  lemma SignedCharacters(neg: bool, g: string, r: string)
    requires g != [] && g[0] != '-'
    requires forall k :: 0 <= k < |g| ==> IsAsciiDigit(g[k]) || g[k] == ','
    requires r == (if neg then "-" + g else g)
    ensures forall k :: 0 <= k < |r| ==> IsRenderedChar(r[k]) && r[k] != '.'
    ensures forall k :: 0 < k < |r| ==> r[k] != '-'
    ensures |r| > 0 && (r[0] == '-' <==> neg)
  {
    if neg {
      assert forall k :: 0 < k < |r| ==> r[k] == g[k - 1];
    }
  }

  /** The point and hundredths after the whole part, if there are hundredths. */
  function Suffix(fraction: nat): (r: string)
    requires fraction < 100
    ensures forall k :: 0 <= k < |r| ==> IsAsciiDigit(r[k]) || (k == 0 && r[k] == '.')
    ensures r != [] <==> fraction != 0
    ensures r != [] ==> r[0] == '.'
    ensures r != [] ==> |r| == 3 && DigitsValue(r[1..]) == fraction
  {
    if fraction > 0 then "." + TwoDigits(fraction) else ""
  }

  lemma MinusInGrouped(i: int)
    ensures '-' in Grouped(i) <==> i < 0
  {
    GroupedCharacters(i);
    var g := Grouped(i);
    if '-' in g {
      var k :| 0 <= k < |g| && g[k] == '-';
      assert k == 0;
    }
  }

  /** The characters of a whole part followed by a suffix. */
  lemma JoinCharacters(g: string, suffix: string)
    requires forall k :: 0 <= k < |g| ==> IsRenderedChar(g[k]) && g[k] != '.'
    requires forall k :: 0 <= k < |suffix| ==> IsAsciiDigit(suffix[k]) || (k == 0 && suffix[k] == '.')
    requires suffix != [] ==> suffix[0] == '.'
    ensures forall c :: c in g + suffix ==> IsRenderedChar(c)
    ensures '.' in g + suffix <==> suffix != []
    ensures '-' in g + suffix <==> '-' in g
  {
    var r := g + suffix;
    assert forall k :: 0 <= k < |g| ==> r[k] == g[k];
    assert forall k :: |g| <= k < |r| ==> r[k] == suffix[k - |g|];
    if suffix != [] {
      assert r[|g|] == '.';
    }
  }

  /** Reading a rendering back, commas deleted, as Rust's float parser would, gives
      exactly the rounded value, except that a value strictly between -1 and 0 comes back
      positive. */
  lemma ReadBack(h: int)
    ensures var d := ParseFloat(RemoveCommas(FormatWithSeparators(h)));
      d.Some? && IsHundredths(d.value, if -100 < h < 0 then -h else h)
  {
    var t := IntegerPart(h);
    var fraction := FractionPart(h);
    var intDigits := DecimalDigits(Abs(t));
    var fracDigits := if fraction > 0 then TwoDigits(fraction) else "";
    var n := Numeral(if t < 0 then Minus else NoSign, intDigits, fraction > 0, fracDigits, None);
    ReadBackText(h, n);
    ReadBackValue(h, n);
    ParseText(n);
  }

  lemma ReadBackText(h: int, n: Numeral)
    requires n.sign == (if IntegerPart(h) < 0 then Minus else NoSign)
    requires n.intDigits == DecimalDigits(Abs(IntegerPart(h)))
    requires n.fracDigits == (if FractionPart(h) > 0 then TwoDigits(FractionPart(h)) else "")
    requires n.exponent == None && n.point == (FractionPart(h) > 0)
    ensures RemoveCommas(FormatWithSeparators(h)) == Text(n)
  {
    var fraction := FractionPart(h);
    RemoveCommasAppend(Grouped(IntegerPart(h)), Suffix(fraction));
    SuffixText(fraction);
    GroupedText(IntegerPart(h), n.sign);
    TextWithoutExponent(n);
  }

  lemma GroupedText(i: int, sign: Sign)
    requires sign == (if i < 0 then Minus else NoSign)
    ensures RemoveCommas(Grouped(i)) == SignText(sign) + DecimalDigits(Abs(i))
  {
  }

  lemma TextWithoutExponent(n: Numeral)
    requires n.exponent == None
    ensures Text(n) == (SignText(n.sign) + n.intDigits) + (PointText(n.point) + n.fracDigits)
  {
    assert ExponentText(n.exponent) == [];
  }

  lemma SuffixText(fraction: nat)
    requires fraction < 100
    ensures RemoveCommas(Suffix(fraction)) == PointText(fraction > 0)
                                              + (if fraction > 0 then TwoDigits(fraction) else "")
  {
    if fraction > 0 {
      RemoveCommasAppend(".", TwoDigits(fraction));
      RemoveCommasOfDigits(TwoDigits(fraction));
    }
  }

  lemma ReadBackValue(h: int, n: Numeral)
    requires n.sign == (if IntegerPart(h) < 0 then Minus else NoSign)
    requires n.intDigits == DecimalDigits(Abs(IntegerPart(h)))
    requires n.fracDigits == (if FractionPart(h) > 0 then TwoDigits(FractionPart(h)) else "")
    requires n.exponent == None && n.point == (FractionPart(h) > 0)
    ensures WellFormed(n) && IsHundredths(NumeralValue(n), if -100 < h < 0 then -h else h)
  {
    var fracLength := |n.fracDigits|;
    DigitsValueAppend(n.intDigits, n.fracDigits);
    var m := DigitsValue(n.intDigits + n.fracDigits);
    assert DigitsValue(n.fracDigits) == FractionPart(h);
    MantissaOfRendering(h, m, fracLength);
    HundredthsOfRendering(h, NumeralValue(n), m, fracLength);
  }

  /** The value read back, from its mantissa: the sign is that of the whole part. */
  lemma HundredthsOfRendering(h: int, d: Decimal, m: int, fracLength: nat)
    requires fracLength <= 2 && m * Pow10(2 - fracLength) == Abs(h)
    requires d == Decimal(if IntegerPart(h) < 0 then -m else m, 0 - fracLength)
    ensures IsHundredths(d, if -100 < h < 0 then -h else h)
  {
    assert Num100(d) == d.mantissa * Pow10(2 - fracLength) && Den100(d) == 1;
    if IntegerPart(h) < 0 {
      assert Num100(d) == -(m * Pow10(2 - fracLength));
    }
  }

  /** The digits of a rendering, point deleted, spell the absolute value in hundredths, or
      in units when there are no hundredths. */
  lemma MantissaOfRendering(h: int, m: int, fracLength: nat)
    requires fracLength == (if FractionPart(h) > 0 then 2 else 0)
    requires m == Abs(IntegerPart(h)) * Pow10(fracLength) + FractionPart(h)
    ensures m * Pow10(2 - fracLength) == Abs(h)
  {
    assert Abs(IntegerPart(h)) == Abs(h) / 100;
    assert Pow10(0) == 1 && Pow10(2) == 100;
  }
}
