// The examples of the help text of src/main.rs:28-36, worked through the model.
module Examples {
  import opened Digits
  import opened Decimals
  import opened FloatSyntax
  import opened Magnitude
  import opened Separators
  import opened TextScan
  import opened NiceNumber

  lemma TrimPlain(s: string)
    requires s != [] && !IsWhiteSpace(s[0]) && !IsWhiteSpace(s[|s| - 1])
    ensures Trim(s) == s
  {
  }

  lemma ParsedLine(input: string, n: Numeral)
    requires Trim(input) == Text(n) && WellFormed(n)
    ensures ProcessNumber(input) == SingleNumberLine(NumeralValue(n))
  {
    ParseText(n);
  }

  lemma ExactLineOf(d: Decimal, h: int)
    requires IsHundredths(d, h)
    ensures SingleNumberLine(d) == FormatWithSeparators(h) + " " + Label(Classify(h))
  {
    RoundExact(d, h);
    assert FormatWithSeparators(h) + "" == FormatWithSeparators(h);
  }

  lemma RoundedLineOf(d: Decimal, h: int)
    requires NearestTiesAway(Num100(d), Den100(d), h) && !IsHundredths(d, h) && d.exponent >= -15
    ensures SingleNumberLine(d) == FormatWithSeparators(h) + " (rounded) " + Label(Classify(h))
  {
    RoundedTo(d, h);
    NoteThenLabel(FormatWithSeparators(h), Label(Classify(h)));
  }

  /** Under the premises of RoundedLineOf, d rounds to h and the note fires. */
  lemma RoundedTo(d: Decimal, h: int)
    requires NearestTiesAway(Num100(d), Den100(d), h) && !IsHundredths(d, h) && d.exponent >= -15
    ensures RoundHundredths(d) == h && WasRounded(d)
  {
    NearestUnique(Num100(d), Den100(d), h, RoundHundredths(d));
    WasRoundedMeansChanged(d);
  }

  lemma NoteThenLabel(rendered: string, sizeLabel: string)
    ensures rendered + " (rounded)" + " " + sizeLabel == rendered + " (rounded) " + sizeLabel
  {
    assert rendered + " (rounded)" + " " == rendered + " (rounded) ";
  }

  /** An input that is exactly h hundredths gives its rendering and label, with no note. */
  lemma ExactLine(input: string, n: Numeral, h: int, rendered: string)
    requires Trim(input) == Text(n) && WellFormed(n) && IsHundredths(NumeralValue(n), h)
    requires FormatWithSeparators(h) == rendered
    ensures ProcessNumber(input) == rendered + " " + Label(Classify(h))
  {
    ParsedLine(input, n);
    ExactLineOf(NumeralValue(n), h);
  }

  /** An input that rounds to h hundredths, and is not exactly that, gives the rendering
      of h, the note, and the label of h. */
  lemma RoundedLine(input: string, n: Numeral, h: int, rendered: string)
    requires Trim(input) == Text(n) && WellFormed(n)
    requires var d := NumeralValue(n);
      NearestTiesAway(Num100(d), Den100(d), h) && !IsHundredths(d, h) && d.exponent >= -15
    requires FormatWithSeparators(h) == rendered
    ensures ProcessNumber(input) == rendered + " (rounded) " + Label(Classify(h))
  {
    ParsedLine(input, n);
    RoundedLineOf(NumeralValue(n), h);
  }

  lemma Digits42()
    ensures DecimalDigits(42) == "42"
  {
    assert DigitChar(2) == '2' && DigitChar(4) == '4';
    assert DecimalDigits(4) == "4";
  }

  lemma Render4200()
    ensures FormatWithSeparators(4200) == "42"
  {
    assert IntegerPart(4200) == 42 && FractionPart(4200) == 0;
    Digits42();
  }

  lemma Value42()
    ensures IsHundredths(NumeralValue(Numeral(NoSign, "42", false, "", None)), 4200)
  {
    Digits42();
    assert "42" + "" == "42";
    assert Pow10(2) == 100;
  }

  lemma Input42(input: string)
    requires input == "42"
    ensures Trim(input) == Text(Numeral(NoSign, "42", false, "", None))
  {
    TrimPlain(input);
    Text42();
  }

  lemma Text42()
    ensures Text(Numeral(NoSign, "42", false, "", None)) == "42"
  {
  }

  lemma WellFormed42()
    ensures WellFormed(Numeral(NoSign, "42", false, "", None))
  {
  }

  lemma Line42()
    ensures "42" + " " + Label(Classify(4200)) == "42 (small)"
  {
  }

  /** `nn 42` prints `42 (small)`. */
  lemma FortyTwo(input: string)
    requires input == "42"
    ensures ProcessNumber(input) == "42 (small)"
  {
    Input42(input);
    WellFormed42();
    Value42();
    Render4200();
    Line42();
    ExactLine(input, Numeral(NoSign, "42", false, "", None), 4200, "42");
  }

  /** One more group of three digits. */
  lemma GroupStep(n: nat, lead: string, last: string)
    requires n >= 1000 && GroupThousands(n / 1000) == lead
    requires last == ThreeDigits(n % 1000)
    ensures GroupThousands(n) == lead + "," + last
  {
  }

  lemma DigitsStep(v: nat, s: string, c: char)
    requires v >= 10 && DecimalDigits(v / 10) == s && c == DigitChar(v % 10)
    ensures DecimalDigits(v) == s + [c]
  {
  }

  lemma Digits42123456()
    ensures DigitsValue("42123456") == 42123456
  {
    Digits42();
    DigitsStep(421, "42", '1');
    DigitsStep(4212, "421", '2');
    DigitsStep(42123, "4212", '3');
    DigitsStep(421234, "42123", '4');
    DigitsStep(4212345, "421234", '5');
    DigitsStep(42123456, "4212345", '6');
    assert "4212345" + ['6'] == "42123456";
  }

  lemma Twelve()
    ensures TwoDigits(12) == "12"
  {
    assert DigitChar(1) == '1' && DigitChar(2) == '2';
  }

  lemma Render4212()
    ensures FormatWithSeparators(4212) == "42.12"
  {
    assert IntegerPart(4212) == 42 && FractionPart(4212) == 12;
    Digits42();
    Twelve();
  }

  lemma Text42123456()
    ensures Text(Numeral(NoSign, "42", true, "123456", None)) == "42.123456"
  {
  }

  lemma WellFormed42123456()
    ensures WellFormed(Numeral(NoSign, "42", true, "123456", None))
  {
  }

  lemma Value42123456()
    ensures var d := NumeralValue(Numeral(NoSign, "42", true, "123456", None));
      NearestTiesAway(Num100(d), Den100(d), 4212) && !IsHundredths(d, 4212) && d.exponent >= -15
  {
    Digits42123456();
    assert "42" + "123456" == "42123456";
    var d := NumeralValue(Numeral(NoSign, "42", true, "123456", None));
    assert d == Decimal(42123456, -6);
    assert Pow10(4) == 10000;
    assert Num100(d) == 42123456 && Den100(d) == 10000;
  }

  lemma Line4212()
    ensures "42.12" + " (rounded) " + Label(Classify(4212)) == "42.12 (rounded) (small)"
  {
  }

  /** `nn 42.123456` prints `42.12 (rounded) (small)`. */
  lemma FortyTwoRounded(input: string)
    requires input == "42.123456"
    ensures ProcessNumber(input) == "42.12 (rounded) (small)"
  {
    TrimPlain(input);
    Text42123456();
    WellFormed42123456();
    Value42123456();
    Render4212();
    Line4212();
    RoundedLine(input, Numeral(NoSign, "42", true, "123456", None), 4212, "42.12");
  }

  // nn 1234567.89

  lemma Digits123456789()
    ensures DecimalDigits(1234567) == "1234567"
    ensures DigitsValue("123456789") == 123456789
  {
    assert DigitChar(1) == '1';
    assert DecimalDigits(1) == "1";
    DigitsStep(12, "1", '2');
    DigitsStep(123, "12", '3');
    DigitsStep(1234, "123", '4');
    DigitsStep(12345, "1234", '5');
    DigitsStep(123456, "12345", '6');
    DigitsStep(1234567, "123456", '7');
    DigitsStep(12345678, "1234567", '8');
    DigitsStep(123456789, "12345678", '9');
    assert "12345678" + ['9'] == "123456789";
  }

  lemma Group1234(n: nat, r: string)
    requires n == 1234 && r == "1,234"
    ensures GroupThousands(n) == r
  {
    assert DigitChar(1) == '1' && DecimalDigits(1) == "1";
    GroupStep(n, "1", "234");
  }

  lemma Group1234567(n: nat, r: string)
    requires n == 1234567 && r == "1,234,567"
    ensures GroupThousands(n) == r
  {
    Three(n % 1000, "567");
    JoinGroups("1,234", "567", r);
    Group1234(n / 1000, "1,234");
    GroupStep(n, "1,234", "567");
  }

  lemma Render123456789(h: int)
    requires h == 123456789
    ensures FormatWithSeparators(h) == "1,234,567.89"
  {
    WholeAndFraction(h, 1234567, 89);
    Group1234567(IntegerPart(h), "1,234,567");
    Suffix89(FractionPart(h));
    Joined89("1,234,567", ".89");
  }

  lemma Joined89(whole: string, suffix: string)
    requires whole == "1,234,567" && suffix == ".89"
    ensures whole + suffix == "1,234,567.89"
  {
  }

  /** The whole part and the hundredths of a non-negative value. */
  lemma WholeAndFraction(h: int, whole: int, fraction: nat)
    requires h >= 0 && h == whole * 100 + fraction && fraction < 100
    ensures IntegerPart(h) == whole && FractionPart(h) == fraction
  {
  }

  lemma Suffix89(fraction: nat)
    requires fraction == 89
    ensures Suffix(fraction) == ".89"
  {
    assert DigitChar(8) == '8' && DigitChar(9) == '9';
  }

  lemma Text123456789()
    ensures Text(Numeral(NoSign, "1234567", true, "89", None)) == "1234567.89"
    ensures WellFormed(Numeral(NoSign, "1234567", true, "89", None))
  {
  }

  lemma Value123456789()
    ensures IsHundredths(NumeralValue(Numeral(NoSign, "1234567", true, "89", None)), 123456789)
  {
    Digits123456789();
    assert "1234567" + "89" == "123456789";
    var d := NumeralValue(Numeral(NoSign, "1234567", true, "89", None));
    assert d == Decimal(123456789, -2);
  }

  lemma Line123456789()
    ensures "1,234,567.89" + " " + Label(Classify(123456789)) == "1,234,567.89 (pretty big)"
  {
  }

  /** `nn 1234567.89` prints `1,234,567.89 (pretty big)`. */
  lemma PrettyBigNumber(input: string)
    requires input == "1234567.89"
    ensures ProcessNumber(input) == "1,234,567.89 (pretty big)"
  {
    TrimPlain(input);
    Text123456789();
    Value123456789();
    Render123456789(123456789);
    Line123456789();
    ExactLine(input, Numeral(NoSign, "1234567", true, "89", None), 123456789, "1,234,567.89");
  }

  // nn 1.23e5

  lemma Text123e5()
    ensures Text(Numeral(NoSign, "1", true, "23", Some(Exponent('e', NoSign, "5")))) == "1.23e5"
    ensures WellFormed(Numeral(NoSign, "1", true, "23", Some(Exponent('e', NoSign, "5"))))
  {
  }

  lemma Value123e5()
    ensures IsHundredths(NumeralValue(Numeral(NoSign, "1", true, "23", Some(Exponent('e', NoSign, "5")))), 12300000)
  {
    assert "1" + "23" == "123";
    assert DigitsValue("123"[..2]) == 12;
    assert DigitsValue("123") == 123;
    assert DigitsValue("5") == 5;
    var d := NumeralValue(Numeral(NoSign, "1", true, "23", Some(Exponent('e', NoSign, "5"))));
    assert d == Decimal(123, 3);
    assert Pow10(5) == 100000;
  }

  lemma Render12300000(h: int)
    requires h == 12300000
    ensures FormatWithSeparators(h) == "123,000"
  {
    assert IntegerPart(h) == 123000 && FractionPart(h) == 0;
    Group123000(IntegerPart(h));
  }

  lemma Group123000(n: nat)
    requires n == 123000
    ensures GroupThousands(n) == "123,000"
  {
    assert DigitChar(1) == '1' && DecimalDigits(1) == "1";
    DigitsStep(12, "1", '2');
    DigitsStep(123, "12", '3');
    assert GroupThousands(123) == "123";
    GroupStep(n, "123", "000");
  }

  lemma Line12300000()
    ensures "123,000" + " " + Label(Classify(12300000)) == "123,000 (medium)"
  {
  }

  /** `nn 1.23e5` prints `123,000 (medium)`. */
  lemma ScientificNotation(input: string)
    requires input == "1.23e5"
    ensures ProcessNumber(input) == "123,000 (medium)"
  {
    TrimPlain(input);
    Text123e5();
    Value123e5();
    Render12300000(12300000);
    Line12300000();
    ExactLine(input, Numeral(NoSign, "1", true, "23", Some(Exponent('e', NoSign, "5"))), 12300000, "123,000");
  }

  // nn -- -5000

  lemma TextMinus5000()
    ensures Text(Numeral(Minus, "5000", false, "", None)) == "-5000"
    ensures WellFormed(Numeral(Minus, "5000", false, "", None))
  {
  }

  lemma Digits5000()
    ensures DecimalDigits(5000) == "5000"
  {
    assert DigitChar(0) == '0' && DigitChar(5) == '5';
    assert DecimalDigits(5) == "5";
    DigitsStep(50, "5", '0');
    DigitsStep(500, "50", '0');
    DigitsStep(5000, "500", '0');
  }

  lemma ValueMinus5000()
    ensures IsHundredths(NumeralValue(Numeral(Minus, "5000", false, "", None)), -500000)
  {
    Digits5000();
    assert "5000" + "" == "5000";
    var d := NumeralValue(Numeral(Minus, "5000", false, "", None));
    assert d == Decimal(-5000, 0);
    assert Pow10(2) == 100;
  }

  lemma RenderMinus500000()
    ensures FormatWithSeparators(-500000) == "-5,000"
  {
    assert IntegerPart(-500000) == -5000 && FractionPart(-500000) == 0;
    assert DigitChar(0) == '0' && DigitChar(5) == '5';
    assert ThreeDigits(0) == "000";
    assert GroupThousands(5) == "5";
    assert GroupThousands(5000) == "5,000";
  }

  lemma LineMinus500000()
    ensures "-5,000" + " " + Label(Classify(-500000)) == "-5,000 (medium)"
  {
  }

  /** `nn -- -5000` prints `-5,000 (medium)`. */
  lemma NegativeNumber(input: string)
    requires input == "-5000"
    ensures ProcessNumber(input) == "-5,000 (medium)"
  {
    TrimPlain(input);
    TextMinus5000();
    ValueMinus5000();
    RenderMinus500000();
    LineMinus500000();
    ExactLine(input, Numeral(Minus, "5000", false, "", None), -500000, "-5,000");
  }

  // nn -- -0.5

  lemma TextMinusHalf()
    ensures Text(Numeral(Minus, "0", true, "5", None)) == "-0.5"
    ensures WellFormed(Numeral(Minus, "0", true, "5", None))
  {
  }

  lemma ValueMinusHalf()
    ensures IsHundredths(NumeralValue(Numeral(Minus, "0", true, "5", None)), -50)
  {
    assert "0" + "5" == "05";
    assert DigitsValue("05"[..1]) == 0;
    assert DigitsValue("05") == 5;
    var d := NumeralValue(Numeral(Minus, "0", true, "5", None));
    assert d == Decimal(-5, -1);
    assert Pow10(1) == 10;
  }

  lemma RenderMinus50()
    ensures FormatWithSeparators(-50) == "0.50"
  {
    assert IntegerPart(-50) == 0 && FractionPart(-50) == 50;
    assert DigitChar(0) == '0' && DigitChar(5) == '5';
    assert DecimalDigits(0) == "0";
    assert TwoDigits(50) == "50";
  }

  lemma LineMinus50()
    ensures "0.50" + " " + Label(Classify(-50)) == "0.50 (small)"
  {
  }

  /** `nn -- -0.5` prints `0.50 (small)`: the sign is lost, because it is taken from the
      whole part alone. */
  lemma NegativeHalfLosesSign(input: string)
    requires input == "-0.5"
    ensures ProcessNumber(input) == "0.50 (small)"
  {
    TrimPlain(input);
    TextMinusHalf();
    ValueMinusHalf();
    RenderMinus50();
    LineMinus50();
    ExactLine(input, Numeral(Minus, "0", true, "5", None), -50, "0.50");
  }

  // nn 999.999

  lemma Text999999()
    ensures Text(Numeral(NoSign, "999", true, "999", None)) == "999.999"
    ensures WellFormed(Numeral(NoSign, "999", true, "999", None))
  {
  }

  lemma Digits999999()
    ensures DigitsValue("999999") == 999999
  {
    assert DigitChar(9) == '9' && DecimalDigits(9) == "9";
    DigitsStep(99, "9", '9');
    DigitsStep(999, "99", '9');
    DigitsStep(9999, "999", '9');
    DigitsStep(99999, "9999", '9');
    DigitsStep(999999, "99999", '9');
    assert "99999" + ['9'] == "999999";
  }

  lemma Value999999()
    ensures var d := NumeralValue(Numeral(NoSign, "999", true, "999", None));
      NearestTiesAway(Num100(d), Den100(d), 100000) && !IsHundredths(d, 100000) && d.exponent >= -15
  {
    Digits999999();
    assert "999" + "999" == "999999";
    var d := NumeralValue(Numeral(NoSign, "999", true, "999", None));
    assert d == Decimal(999999, -3);
    assert Pow10(1) == 10;
    assert Num100(d) == 999999 && Den100(d) == 10;
  }

  lemma Render100000()
    ensures FormatWithSeparators(100000) == "1,000"
  {
    assert IntegerPart(100000) == 1000 && FractionPart(100000) == 0;
    assert DigitChar(0) == '0' && DigitChar(1) == '1';
    assert DecimalDigits(1) == "1";
    GroupStep(1000, "1", "000");
  }

  lemma Line100000()
    ensures "1,000" + " (rounded) " + Label(Classify(100000)) == "1,000 (rounded) (medium)"
  {
  }

  /** `nn 999.999` prints `1,000 (rounded) (medium)`: the label is that of the rounded
      value, although 999.999 itself truncates to 999, a small number. */
  lemma LabelOfRoundedValue(input: string)
    requires input == "999.999"
    ensures ProcessNumber(input) == "1,000 (rounded) (medium)"
    ensures Classify(99999) == Small
  {
    TrimPlain(input);
    Text999999();
    Value999999();
    Render100000();
    Line100000();
    RoundedLine(input, Numeral(NoSign, "999", true, "999", None), 100000, "1,000");
  }

  // nn 0

  lemma TextZero()
    ensures Text(Numeral(NoSign, "0", false, "", None)) == "0"
    ensures WellFormed(Numeral(NoSign, "0", false, "", None))
  {
  }

  lemma ValueZero()
    ensures IsHundredths(NumeralValue(Numeral(NoSign, "0", false, "", None)), 0)
  {
    assert "0" + "" == "0";
    assert DigitsValue("0") == 0;
  }

  lemma RenderZero()
    ensures FormatWithSeparators(0) == "0"
  {
    assert IntegerPart(0) == 0 && FractionPart(0) == 0;
    assert DigitChar(0) == '0';
    assert DecimalDigits(0) == "0";
  }

  lemma LineZero()
    ensures "0" + " " + Label(Classify(0)) == "0 (zero)"
  {
  }

  /** `nn 0` prints `0 (zero)`. */
  lemma ZeroLabel(input: string)
    requires input == "0"
    ensures ProcessNumber(input) == "0 (zero)"
  {
    TrimPlain(input);
    TextZero();
    ValueZero();
    RenderZero();
    LineZero();
    ExactLine(input, Numeral(NoSign, "0", false, "", None), 0, "0");
  }

  // nn "The file is 1024 bytes"

  /** Text that starts with anything but a digit, a sign or a point is not a float. */
  lemma NotAFloat(s: string)
    requires s != [] && !IsAsciiDigit(s[0]) && s[0] != '+' && s[0] != '-' && s[0] != '.'
    ensures ParseFloat(s).None?
  {
    if ParseSyntax(s).Some? {
      var n := ParseSyntax(s).value;
      assert SignText(n.sign) + n.intDigits + PointText(n.point) + n.fracDigits + ExponentText(n.exponent) == s;
    }
  }

  lemma Text1024(n: Numeral)
    requires n == Numeral(NoSign, "1024", false, "", None)
    ensures Text(n) == "1024" && WellFormed(n)
  {
  }

  lemma Split1024(s: string, t: string, rest: string)
    requires s == "1024 bytes" && t == "1024" && rest == " bytes"
    ensures s == t + rest
  {
  }

  lemma Digits1024()
    ensures DecimalDigits(1024) == "1024"
  {
    assert DigitChar(1) == '1' && DecimalDigits(1) == "1";
    DigitsStep(10, "1", '0');
    DigitsStep(102, "10", '2');
    DigitsStep(1024, "102", '4');
    assert "102" + ['4'] == "1024";
  }

  lemma Value1024()
    ensures IsHundredths(NumeralValue(Numeral(NoSign, "1024", false, "", None)), 102400)
  {
    Digits1024();
    assert "1024" + "" == "1024";
    assert Pow10(2) == 100;
  }

  lemma Render102400(h: int)
    requires h == 102400
    ensures FormatWithSeparators(h) == "1,024"
  {
    assert IntegerPart(h) == 1024 && FractionPart(h) == 0;
    assert DigitChar(1) == '1';
    assert DecimalDigits(1) == "1";
    GroupStep(1024, "1", "024");
  }

  /** A numeral in running text, followed by text that cannot continue it, is replaced by
      the rendering of its value. */
  lemma NumberThenRest(s: string, n: Numeral, rest: string, rendered: string)
    requires WellFormed(n) && n.sign != Plus && n.intDigits != []
    requires StopsNumeral(rest, Unicode) && s == Text(n) + rest
    requires FormatSingleNumber(NumeralValue(n)) == rendered
    ensures ProcessText(s) == rendered + ProcessText(rest)
  {
    AsciiShapedIsUnicodeShaped(n);
    MatchOf(n, rest);
    NumberStep(s);
    assert s[|Text(n)|..] == rest;
    ParseText(n);
  }

  lemma Rendered1024(n: Numeral, r: string)
    requires n == Numeral(NoSign, "1024", false, "", None) && r == "1,024"
    ensures FormatSingleNumber(NumeralValue(n)) == r
  {
    Value1024();
    RoundExact(NumeralValue(n), 102400);
    Render102400(102400);
  }

  lemma Facts1024(s: string, rest: string, n: Numeral)
    requires s == "1024 bytes" && rest == " bytes" && n == Numeral(NoSign, "1024", false, "", None)
    ensures WellFormed(n) && n.sign != Plus && n.intDigits != []
    ensures StopsNumeral(rest, Unicode) && s == Text(n) + rest
  {
    Text1024(n);
    Split1024(s, Text(n), rest);
  }

  lemma Number1024(s: string, rest: string, n: Numeral)
    requires s == "1024 bytes" && rest == " bytes" && n == Numeral(NoSign, "1024", false, "", None)
    ensures ProcessText(s) == "1,024" + ProcessText(rest)
  {
    Facts1024(s, rest, n);
    Rendered1024(n, "1,024");
    NumberThenRest(s, n, rest, "1,024");
  }

  lemma Words(s: string, rest: string)
    requires s == "The file is 1024 bytes" && rest == "1024 bytes"
    ensures ProcessText(s) == "The file is " + ProcessText(rest)
  {
    assert s == "The file is " + rest;
    PlainTextCopied("The file is ", rest);
  }

  lemma Bytes(s: string)
    requires s == " bytes"
    ensures ProcessText(s) == s
  {
    assert s == s + "";
    PlainTextCopied(s, "");
  }

  /** A trimmed line that is not a float goes to the text path. */
  lemma TextLine(input: string)
    requires Trim(input) == input && ParseFloat(input).None?
    ensures ProcessNumber(input) == ProcessText(input)
  {
  }

  lemma Joined(a: string, b: string, c: string)
    requires a == "The file is " && b == "1,024" && c == " bytes"
    ensures a + (b + c) == "The file is 1,024 bytes"
  {
  }

  lemma Sentence(input: string, number: string, rest: string)
    requires input == "The file is 1024 bytes" && number == "1024 bytes" && rest == " bytes"
    ensures ProcessText(input) == "The file is 1,024 bytes"
  {
    Words(input, number);
    Number1024(number, rest, Numeral(NoSign, "1024", false, "", None));
    Bytes(rest);
    Joined("The file is ", "1,024", rest);
  }

  /** `nn "The file is 1024 bytes"` prints `The file is 1,024 bytes`: the whole line is
      not a float, so the number inside it is reformatted and the words are kept. */
  lemma NumberInText(input: string)
    requires input == "The file is 1024 bytes"
    ensures ProcessNumber(input) == "The file is 1,024 bytes"
  {
    TrimPlain(input);
    NotAFloat(input);
    TextLine(input);
    Sentence(input, "1024 bytes", " bytes");
  }

  // nn 5000

  lemma Text5000()
    ensures Text(Numeral(NoSign, "5000", false, "", None)) == "5000"
    ensures WellFormed(Numeral(NoSign, "5000", false, "", None))
  {
  }

  lemma Value5000()
    ensures IsHundredths(NumeralValue(Numeral(NoSign, "5000", false, "", None)), 500000)
  {
    Digits5000();
    assert "5000" + "" == "5000";
    assert Pow10(2) == 100;
  }

  lemma Render500000(h: int)
    requires h == 500000
    ensures FormatWithSeparators(h) == "5,000"
  {
    WholeAndFraction(h, 5000, 0);
    assert DigitChar(5) == '5' && DecimalDigits(5) == "5";
    GroupStep(IntegerPart(h), "5", "000");
  }

  lemma Line500000()
    ensures "5,000" + " " + Label(Classify(500000)) == "5,000 (medium)"
  {
  }

  /** `nn 5000` prints `5,000 (medium)`. */
  lemma FiveThousand(input: string)
    requires input == "5000"
    ensures ProcessNumber(input) == "5,000 (medium)"
  {
    TrimPlain(input);
    Text5000();
    Value5000();
    Render500000(500000);
    Line500000();
    ExactLine(input, Numeral(NoSign, "5000", false, "", None), 500000, "5,000");
  }

  // nn 9876543210 and nn 9876543210.999

  /** An unsigned numeral of whole digits only is worth its digits, in hundredths times 100. */
  lemma PlainValue(n: Numeral, v: nat)
    requires WellFormed(n) && n.sign == NoSign && n.fracDigits == [] && n.exponent.None?
    requires DigitsValue(n.intDigits) == v
    ensures IsHundredths(NumeralValue(n), 100 * v)
  {
    assert n.intDigits + n.fracDigits == n.intDigits;
    assert Pow10(2) == 100;
  }

  lemma Digits9876543210(n: nat)
    requires n == 9876543210
    ensures DecimalDigits(n) == "9876543210"
  {
    assert DigitChar(9) == '9' && DecimalDigits(9) == "9";
    DigitsStep(98, "9", '8');
    DigitsStep(987, "98", '7');
    DigitsStep(9876, "987", '6');
    DigitsStep(98765, "9876", '5');
    DigitsStep(987654, "98765", '4');
    DigitsStep(9876543, "987654", '3');
    DigitsStep(98765432, "9876543", '2');
    DigitsStep(987654321, "98765432", '1');
    DigitsStep(n, "987654321", '0');
    assert "987654321" + ['0'] == "9876543210";
  }

  lemma Digits9876543210999(v: nat)
    requires v == 9876543210999
    ensures DigitsValue("9876543210" + "999") == v
  {
    Digits9876543210(9876543210);
    DigitsStep(98765432109, "9876543210", '9');
    DigitsStep(987654321099, "98765432109", '9');
    DigitsStep(v, "987654321099", '9');
    assert "98765432109" + ['9'] + ['9'] == "9876543210" + "999";
  }

  lemma Three(k: nat, s: string)
    requires k < 1000 && s == [DigitChar(k / 100), DigitChar(k / 10 % 10), DigitChar(k % 10)]
    ensures ThreeDigits(k) == s
  {
  }

  lemma JoinGroups(lead: string, last: string, r: string)
    requires |last| == 3 && |r| == |lead| + 4
    requires r[..|lead|] == lead && r[|lead|] == ',' && r[|lead| + 1..] == last
    ensures lead + "," + last == r
  {
  }

  lemma Group9876(n: nat, r: string)
    requires n == 9876 && r == "9,876"
    ensures GroupThousands(n) == r
  {
    assert DigitChar(9) == '9' && DecimalDigits(9) == "9";
    GroupStep(n, "9", "876");
  }

  lemma Group9876543(n: nat, r: string)
    requires n == 9876543 && r == "9,876,543"
    ensures GroupThousands(n) == r
  {
    Three(n % 1000, "543");
    JoinGroups("9,876", "543", r);
    Group9876(n / 1000, "9,876");
    GroupStep(n, "9,876", "543");
  }

  /** The grouping of a number in 9876543000..9876543999, from its last three digits. */
  lemma Group9876543xyz(n: nat, k: nat, last: string, r: string)
    requires k < 1000 && n == 9876543000 + k && last == ThreeDigits(k)
    requires r == "9,876,543" + "," + last
    ensures GroupThousands(n) == r
  {
    assert n / 1000 == 9876543 && n % 1000 == k;
    Group9876543(n / 1000, "9,876,543");
    GroupStep(n, "9,876,543", last);
  }

  lemma Group9876543210(n: nat, r: string)
    requires n == 9876543210 && r == "9,876,543,210"
    ensures GroupThousands(n) == r
  {
    Three(210, "210");
    JoinGroups("9,876,543", "210", r);
    Group9876543xyz(n, 210, "210", r);
  }

  lemma Group9876543211(n: nat, r: string)
    requires n == 9876543211 && r == "9,876,543,211"
    ensures GroupThousands(n) == r
  {
    Three(211, "211");
    JoinGroups("9,876,543", "211", r);
    Group9876543xyz(n, 211, "211", r);
  }

  lemma Text9876543210(n: Numeral)
    requires n == Numeral(NoSign, "9876543210", false, "", None)
    ensures Text(n) == "9876543210" && WellFormed(n)
  {
  }

  lemma Input9876543210(input: string, n: Numeral)
    requires input == "9876543210" && n == Numeral(NoSign, "9876543210", false, "", None)
    ensures Trim(input) == Text(n) && WellFormed(n)
  {
    TrimPlain(input);
    Text9876543210(n);
  }

  lemma Value9876543210(n: Numeral)
    requires n == Numeral(NoSign, "9876543210", false, "", None)
    ensures IsHundredths(NumeralValue(n), 987654321000)
  {
    Digits9876543210(9876543210);
    PlainValue(n, 9876543210);
  }

  lemma Render987654321000(h: int)
    requires h == 987654321000
    ensures FormatWithSeparators(h) == "9,876,543,210"
  {
    WholeAndFraction(h, 9876543210, 0);
    Group9876543210(IntegerPart(h), "9,876,543,210");
  }

  lemma Line987654321000()
    ensures "9,876,543,210" + " " + Label(Classify(987654321000)) == "9,876,543,210 (extremely big)"
  {
  }

  /** `nn 9876543210` prints `9,876,543,210 (extremely big)`. */
  lemma ExtremelyBigNumber(input: string)
    requires input == "9876543210"
    ensures ProcessNumber(input) == "9,876,543,210 (extremely big)"
  {
    var n := Numeral(NoSign, "9876543210", false, "", None);
    Input9876543210(input, n);
    Value9876543210(n);
    Render987654321000(987654321000);
    Line987654321000();
    ExactLine(input, n, 987654321000, "9,876,543,210");
  }

  lemma Text9876543210999(n: Numeral)
    requires n == Numeral(NoSign, "9876543210", true, "999", None)
    ensures Text(n) == "9876543210.999" && WellFormed(n)
  {
  }

  lemma Value9876543210999(n: Numeral)
    requires n == Numeral(NoSign, "9876543210", true, "999", None)
    ensures var d := NumeralValue(n);
      NearestTiesAway(Num100(d), Den100(d), 987654321100) && !IsHundredths(d, 987654321100)
      && d.exponent >= -15
  {
    Digits9876543210999(9876543210999);
    var d := NumeralValue(n);
    assert d == Decimal(9876543210999, -3);
    assert Pow10(1) == 10;
    assert Num100(d) == 9876543210999 && Den100(d) == 10;
  }

  lemma Render987654321100(h: int)
    requires h == 987654321100
    ensures FormatWithSeparators(h) == "9,876,543,211"
  {
    WholeAndFraction(h, 9876543211, 0);
    Group9876543211(IntegerPart(h), "9,876,543,211");
  }

  lemma Line987654321100()
    ensures "9,876,543,211" + " (rounded) " + Label(Classify(987654321100))
            == "9,876,543,211 (rounded) (extremely big)"
  {
  }

  /** `nn 9876543210.999` prints `9,876,543,211 (rounded) (extremely big)`: the hundredths
      round up into the whole part. */
  lemma RoundingCarriesIntoWholePart(input: string)
    requires input == "9876543210.999"
    ensures ProcessNumber(input) == "9,876,543,211 (rounded) (extremely big)"
  {
    var n := Numeral(NoSign, "9876543210", true, "999", None);
    TrimPlain(input);
    Text9876543210999(n);
    Value9876543210999(n);
    Render987654321100(987654321100);
    Line987654321100();
    RoundedLine(input, n, 987654321100, "9,876,543,211");
  }

  // nn 42.50 and nn 123.45, the decimals of tests/integration_tests.rs

  lemma Input4250(input: string, n: Numeral)
    requires input == "42.50" && n == Numeral(NoSign, "42", true, "50", None)
    ensures Trim(input) == Text(n) && WellFormed(n)
  {
    TrimPlain(input);
  }

  lemma Value4250(n: Numeral)
    requires n == Numeral(NoSign, "42", true, "50", None)
    ensures IsHundredths(NumeralValue(n), 4250)
  {
    Digits42();
    DigitsStep(425, "42", '5');
    DigitsStep(4250, "425", '0');
    assert n.intDigits + n.fracDigits == "42" + ['5'] + ['0'];
    var d := NumeralValue(n);
    assert d == Decimal(4250, -2);
  }

  lemma Render4250(h: int)
    requires h == 4250
    ensures FormatWithSeparators(h) == "42.50"
  {
    WholeAndFraction(h, 42, 50);
    Digits42();
    assert DigitChar(5) == '5' && DigitChar(0) == '0';
    assert TwoDigits(50) == "50";
  }

  lemma Line4250()
    ensures "42.50" + " " + Label(Classify(4250)) == "42.50 (small)"
  {
  }

  /** `nn 42.50` prints `42.50 (small)`: the trailing zero of the hundredths is kept. */
  lemma TwoFractionDigits(input: string)
    requires input == "42.50"
    ensures ProcessNumber(input) == "42.50 (small)"
  {
    var n := Numeral(NoSign, "42", true, "50", None);
    Input4250(input, n);
    Value4250(n);
    Render4250(4250);
    Line4250();
    ExactLine(input, n, 4250, "42.50");
  }

  lemma Input12345(input: string, n: Numeral)
    requires input == "123.45" && n == Numeral(NoSign, "123", true, "45", None)
    ensures Trim(input) == Text(n) && WellFormed(n)
  {
    TrimPlain(input);
  }

  lemma Digits12345()
    ensures DecimalDigits(123) == "123" && DecimalDigits(12345) == "123" + "45"
  {
    assert DigitChar(1) == '1' && DecimalDigits(1) == "1";
    DigitsStep(12, "1", '2');
    DigitsStep(123, "12", '3');
    DigitsStep(1234, "123", '4');
    DigitsStep(12345, "1234", '5');
  }

  lemma Value12345(n: Numeral)
    requires n == Numeral(NoSign, "123", true, "45", None)
    ensures IsHundredths(NumeralValue(n), 12345)
  {
    Digits12345();
    var d := NumeralValue(n);
    assert d == Decimal(12345, -2);
  }

  lemma Render12345(h: int)
    requires h == 12345
    ensures FormatWithSeparators(h) == "123.45"
  {
    WholeAndFraction(h, 123, 45);
    Digits12345();
    assert DigitChar(4) == '4' && DigitChar(5) == '5';
    assert TwoDigits(45) == "45";
  }

  lemma Line12345()
    ensures "123.45" + " " + Label(Classify(12345)) == "123.45 (small)"
  {
  }

  /** `nn 123.45` prints `123.45 (small)`, with no `(rounded)` note: the value already is a
      whole number of hundredths. */
  lemma ExactHundredths(input: string)
    requires input == "123.45"
    ensures ProcessNumber(input) == "123.45 (small)"
  {
    var n := Numeral(NoSign, "123", true, "45", None);
    Input12345(input, n);
    Value12345(n);
    Render12345(12345);
    Line12345();
    ExactLine(input, n, 12345, "123.45");
  }
}
