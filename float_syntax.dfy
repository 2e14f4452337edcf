// The textual form of a number: what `str::parse::<f64>` accepts (src/main.rs:98, 111), and
// the scanning of a numeral that it shares with the regex of src/main.rs:94.
module FloatSyntax {
  import opened Digits
  import opened Decimals

  datatype Option<T> = None | Some(value: T)

  datatype Sign = NoSign | Plus | Minus

  /** Rust's float parser reads ASCII digits; the regex class `\d` matches every Unicode digit. */
  datatype DigitClass = Ascii | Unicode

  predicate IsDigitOf(cls: DigitClass, c: char) {
    match cls
    case Ascii => IsAsciiDigit(c)
    case Unicode => IsUnicodeDigit(c)
  }

  predicate AllDigitsOf(cls: DigitClass, s: string) {
    forall i :: 0 <= i < |s| ==> IsDigitOf(cls, s[i])
  }

  /** `[eE][+-]?digits` */
  datatype Exponent = Exponent(marker: char, sign: Sign, digits: string)

  /** A number as written: sign, integer digits, decimal point, fraction digits, exponent. */
  datatype Numeral = Numeral(sign: Sign, intDigits: string, point: bool, fracDigits: string,
                             exponent: Option<Exponent>)

  function SignText(s: Sign): string {
    match s
    case NoSign => ""
    case Plus => "+"
    case Minus => "-"
  }

  function ExponentText(e: Option<Exponent>): string {
    match e
    case None => ""
    case Some(x) => [x.marker] + SignText(x.sign) + x.digits
  }

  function PointText(point: bool): string {
    if point then "." else ""
  }

  function Text(n: Numeral): string {
    SignText(n.sign) + n.intDigits + PointText(n.point) + n.fracDigits + ExponentText(n.exponent)
  }

  predicate IsPrefix(t: string, s: string) {
    |t| <= |s| && s[..|t|] == t
  }

  predicate ExponentShaped(e: Exponent, cls: DigitClass) {
    (e.marker == 'e' || e.marker == 'E') && |e.digits| >= 1 && AllDigitsOf(cls, e.digits)
  }

  /** The pieces hold digits of the class, fraction digits only after a point, and an
      exponent has a marker and at least one digit. */
  predicate Shaped(n: Numeral, cls: DigitClass) {
    && AllDigitsOf(cls, n.intDigits)
    && AllDigitsOf(cls, n.fracDigits)
    && (!n.point ==> n.fracDigits == [])
    && (n.exponent.Some? ==> ExponentShaped(n.exponent.value, cls))
  }

  /** Rust's grammar for a finite float: `[+-]? (d+ | d+ '.' d* | d* '.' d+) ([eE] [+-]? d+)?`. */
  predicate WellFormed(n: Numeral) {
    Shaped(n, Ascii) && |n.intDigits| + |n.fracDigits| >= 1
  }

  /** Splits s into its longest prefix of class digits and the rest. */
  function ScanDigits(s: string, cls: DigitClass): (r: (string, string))
    ensures s == r.0 + r.1 && AllDigitsOf(cls, r.0)
    ensures r.1 == [] || !IsDigitOf(cls, r.1[0])
  {
    if s != [] && IsDigitOf(cls, s[0]) then
      var (digits, rest) := ScanDigits(s[1..], cls);
      assert s == [s[0]] + s[1..];
      ([s[0]] + digits, rest)
    else
      ([], s)
  }

  /** The digits of an exponent after its marker and sign, if there are any. */
  function ExponentDigits(marker: char, sign: Sign, s: string, cls: DigitClass): (r: (Option<Exponent>, string))
    requires marker == 'e' || marker == 'E'
    ensures r.0.Some? ==> r.0.value.marker == marker && r.0.value.sign == sign
    ensures r.0.Some? ==> ExponentShaped(r.0.value, cls) && s == r.0.value.digits + r.1
    ensures r.0.Some? ==> r.1 == [] || !IsDigitOf(cls, r.1[0])
  {
    var digits := ScanDigits(s, cls);
    if digits.0 != [] then (Some(Exponent(marker, sign, digits.0)), digits.1) else (None, s)
  }

  /** Splits off the exponent `[eE][+-]?\d+` at the start of s, as long as possible, if
      there is one. A marker and sign not followed by a digit is no exponent: the unsigned
      alternative cannot match either, since a sign is not a digit. */
  function ScanExponent(s: string, cls: DigitClass): (r: (Option<Exponent>, string))
    ensures s == ExponentText(r.0) + r.1
    ensures r.0.Some? ==> ExponentShaped(r.0.value, cls) && (r.1 == [] || !IsDigitOf(cls, r.1[0]))
  {
    if s != [] && (s[0] == 'e' || s[0] == 'E') then
      var sign := ScanSign(s[1..], true);
      assert s == [s[0]] + SignText(sign.0) + sign.1;
      var e := ExponentDigits(s[0], sign.0, sign.1, cls);
      if e.0.Some? then
        ExponentTextSplit(e.0.value, e.1);
        e
      else
        (None, s)
    else
      (None, s)
  }

  lemma ExponentTextSplit(x: Exponent, rest: string)
    ensures ExponentText(Some(x)) + rest == [x.marker] + SignText(x.sign) + (x.digits + rest)
  {
  }

  /** Splits off a leading '-', or a leading '+' when plusAllowed. */
  function ScanSign(s: string, plusAllowed: bool): (r: (Sign, string))
    ensures s == SignText(r.0) + r.1 && (r.0 == Plus ==> plusAllowed)
  {
    if s != [] && s[0] == '-' then (Minus, s[1..])
    else if s != [] && s[0] == '+' && plusAllowed then (Plus, s[1..])
    else (NoSign, s)
  }

  /** Splits off a leading decimal point. */
  function ScanPoint(s: string): (r: (bool, string))
    ensures s == PointText(r.0) + r.1
  {
    if s != [] && s[0] == '.' then (true, s[1..]) else (false, s)
  }

  lemma Associate(a: string, b: string, c: string, d: string, e: string, f: string)
    ensures a + (b + (c + (d + (e + f)))) == a + b + c + d + e + f
  {
  }

  /** Splits off the longest numeral at the start of s: a sign ('+' only when plusAllowed),
      digits, a point, digits, an exponent. Any piece may be empty; callers decide which
      empty pieces they accept. */
  function ScanNumeral(s: string, cls: DigitClass, plusAllowed: bool): (r: (Numeral, string))
    ensures s == Text(r.0) + r.1
    ensures Shaped(r.0, cls) && (r.0.sign == Plus ==> plusAllowed)
  {
    var sign := ScanSign(s, plusAllowed);
    var intDigits := ScanDigits(sign.1, cls);
    var point := ScanPoint(intDigits.1);
    var fracDigits := ScanDigits(point.1, cls);
    var exponent := ScanExponent(fracDigits.1, cls);
    Associate(SignText(sign.0), intDigits.0, PointText(point.0), fracDigits.0,
              ExponentText(exponent.0), exponent.1);
    assert !point.0 ==> fracDigits.0 == [];
    (Numeral(sign.0, intDigits.0, point.0, fracDigits.0, exponent.0), exponent.1)
  }

  /** The numeral s spells out when the whole of s is a number in Rust's grammar. */
  function ParseSyntax(s: string): (r: Option<Numeral>)
    ensures r.Some? ==> WellFormed(r.value) && Text(r.value) == s
  {
    var scan := ScanNumeral(s, Ascii, true);
    var n := scan.0;
    if |n.intDigits| + |n.fracDigits| >= 1 && scan.1 == [] then Some(n) else None
  }

  function ExponentValue(e: Option<Exponent>): int
    requires e.Some? ==> ExponentShaped(e.value, Ascii)
  {
    match e
    case None => 0
    case Some(x) =>
      var v: int := DigitsValue(x.digits);
      if x.sign == Minus then -v else v
  }

  /** The exact value a well-formed numeral denotes. */
  function NumeralValue(n: Numeral): Decimal
    requires WellFormed(n)
  {
    var m: int := DigitsValue(n.intDigits + n.fracDigits);
    Decimal(if n.sign == Minus then -m else m, ExponentValue(n.exponent) - |n.fracDigits|)
  }

  /** `s.parse::<f64>()`, with the value kept exact; `None` is the `Err` case. */
  function ParseFloat(s: string): (r: Option<Decimal>)
    ensures r.Some? <==> ParseSyntax(s).Some?
    ensures r.Some? ==> r.value == NumeralValue(ParseSyntax(s).value)
  {
    match ParseSyntax(s)
    case None => None
    case Some(n) => Some(NumeralValue(n))
  }

  /** The sign, point and exponent characters are digits of no class. */
  lemma PunctuationIsNoDigit(c: char, cls: DigitClass)
    requires c in {'+', '-', '.', 'e', 'E'}
    ensures !IsDigitOf(cls, c)
  {
  }

  lemma {:induction false} ScanDigitsOf(digits: string, rest: string, cls: DigitClass)
    requires AllDigitsOf(cls, digits)
    requires rest == [] || !IsDigitOf(cls, rest[0])
    ensures ScanDigits(digits + rest, cls) == (digits, rest)
  {
    if digits != [] {
      var s := digits + rest;
      assert s[0] == digits[0] && IsDigitOf(cls, s[0]);
      assert s[1..] == digits[1..] + rest;
      ScanDigitsOf(digits[1..], rest, cls);
      assert [s[0]] + digits[1..] == digits;
    } else {
      assert digits + rest == rest;
    }
  }

  /** rest cannot continue a numeral: it is empty or starts with no digit, sign, point
      or exponent marker. */
  predicate StopsNumeral(rest: string, cls: DigitClass) {
    rest == [] || !(IsDigitOf(cls, rest[0]) || rest[0] in {'+', '-', '.', 'e', 'E'})
  }

  lemma ScanExponentOf(e: Option<Exponent>, rest: string, cls: DigitClass)
    requires e.Some? ==> ExponentShaped(e.value, cls)
    requires StopsNumeral(rest, cls)
    ensures ScanExponent(ExponentText(e) + rest, cls) == (e, rest)
  {
    if e.Some? {
      var x := e.value;
      var s := ExponentText(e) + rest;
      assert s[1..] == SignText(x.sign) + (x.digits + rest);
      assert (x.digits + rest)[0] == x.digits[0];
      PunctuationIsNoDigit('+', cls);
      PunctuationIsNoDigit('-', cls);
      ScanSignOf(x.sign, x.digits + rest, true);
      ScanDigitsOf(x.digits, rest, cls);
    } else {
      assert ExponentText(e) + rest == rest;
    }
  }

  lemma ScanSignOf(sign: Sign, rest: string, plusAllowed: bool)
    requires sign == Plus ==> plusAllowed
    requires rest == [] || (rest[0] != '-' && rest[0] != '+')
    ensures ScanSign(SignText(sign) + rest, plusAllowed) == (sign, rest)
  {
    var s := SignText(sign) + rest;
    if sign != NoSign {
      assert s[0] == SignText(sign)[0] && s[1..] == rest;
    } else {
      assert s == rest;
    }
  }

  /** What follows the sign of a numeral starts with a digit, a point or an exponent
      marker, never with a sign. */
  lemma AfterSignNoSign(n: Numeral, rest: string, cls: DigitClass)
    requires Shaped(n, cls) && StopsNumeral(rest, cls)
    ensures var t := n.intDigits + (PointText(n.point) + (n.fracDigits + (ExponentText(n.exponent) + rest)));
      t == [] || (t[0] != '-' && t[0] != '+')
  {
    var t := n.intDigits + (PointText(n.point) + (n.fracDigits + (ExponentText(n.exponent) + rest)));
    if n.intDigits != [] {
      assert t[0] == n.intDigits[0] && IsDigitOf(cls, t[0]);
      PunctuationIsNoDigit('+', cls);
      PunctuationIsNoDigit('-', cls);
    } else if n.point {
      assert t[0] == '.';
    } else if n.exponent.Some? {
      assert t[0] == n.exponent.value.marker;
    } else {
      assert t == rest;
    }
  }

  /** The digits before the point are followed by a point, an exponent marker or
      something that stops the numeral. */
  lemma IntDigitsOfText(n: Numeral, rest: string, cls: DigitClass)
    requires Shaped(n, cls) && StopsNumeral(rest, cls)
    ensures var afterInt := PointText(n.point) + (n.fracDigits + (ExponentText(n.exponent) + rest));
      ScanDigits(n.intDigits + afterInt, cls) == (n.intDigits, afterInt)
  {
    var afterInt := PointText(n.point) + (n.fracDigits + (ExponentText(n.exponent) + rest));
    if afterInt != [] {
      if !n.point {
        assert afterInt == ExponentText(n.exponent) + rest;
        if n.exponent.Some? {
          assert afterInt[0] == n.exponent.value.marker;
        }
      }
      if afterInt[0] in {'+', '-', '.', 'e', 'E'} {
        PunctuationIsNoDigit(afterInt[0], cls);
      }
    }
    ScanDigitsOf(n.intDigits, afterInt, cls);
  }

  /** The point is followed by a digit, an exponent marker or something that stops the
      numeral. */
  lemma PointOfText(n: Numeral, rest: string, cls: DigitClass)
    requires Shaped(n, cls) && StopsNumeral(rest, cls)
    ensures var afterPoint := n.fracDigits + (ExponentText(n.exponent) + rest);
      ScanPoint(PointText(n.point) + afterPoint) == (n.point, afterPoint)
  {
    var afterPoint := n.fracDigits + (ExponentText(n.exponent) + rest);
    if afterPoint != [] && n.fracDigits == [] {
      if n.exponent.Some? {
        assert afterPoint[0] == n.exponent.value.marker;
      } else {
        assert afterPoint == rest;
      }
    } else if afterPoint != [] {
      assert afterPoint[0] == n.fracDigits[0] && IsDigitOf(cls, afterPoint[0]);
      PunctuationIsNoDigit('.', cls);
    }
    if n.point {
      assert (PointText(n.point) + afterPoint)[1..] == afterPoint;
    } else {
      assert PointText(n.point) + afterPoint == afterPoint;
    }
  }

  /** The fraction digits are followed by an exponent marker or something that stops the
      numeral. */
  lemma FracDigitsOfText(n: Numeral, rest: string, cls: DigitClass)
    requires Shaped(n, cls) && StopsNumeral(rest, cls)
    ensures var afterFrac := ExponentText(n.exponent) + rest;
      ScanDigits(n.fracDigits + afterFrac, cls) == (n.fracDigits, afterFrac)
  {
    var afterFrac := ExponentText(n.exponent) + rest;
    if afterFrac != [] {
      if n.exponent.Some? {
        assert afterFrac[0] == n.exponent.value.marker;
      } else {
        assert afterFrac == rest;
      }
      if afterFrac[0] in {'+', '-', '.', 'e', 'E'} {
        PunctuationIsNoDigit(afterFrac[0], cls);
      }
    }
    ScanDigitsOf(n.fracDigits, afterFrac, cls);
  }

  lemma TextNested(n: Numeral, rest: string)
    ensures Text(n) + rest
      == SignText(n.sign) + (n.intDigits + (PointText(n.point) + (n.fracDigits + (ExponentText(n.exponent) + rest))))
  {
  }

  /** Scanning the text of a numeral, followed by anything that cannot continue it, gives
      the numeral and that rest back: the pieces of a numeral can be told apart from its
      text alone. */
  lemma ScanText(n: Numeral, rest: string, cls: DigitClass, plusAllowed: bool)
    requires Shaped(n, cls) && (n.sign == Plus ==> plusAllowed)
    requires StopsNumeral(rest, cls)
    ensures ScanNumeral(Text(n) + rest, cls, plusAllowed) == (n, rest)
  {
    var afterFrac := ExponentText(n.exponent) + rest;
    var afterPoint := n.fracDigits + afterFrac;
    var afterInt := PointText(n.point) + afterPoint;
    var afterSign := n.intDigits + afterInt;
    TextNested(n, rest);
    AfterSignNoSign(n, rest, cls);
    ScanSignOf(n.sign, afterSign, plusAllowed);
    IntDigitsOfText(n, rest, cls);
    PointOfText(n, rest, cls);
    FracDigitsOfText(n, rest, cls);
    ScanExponentOf(n.exponent, rest, cls);
  }

  /** Every well-formed numeral's text parses, to that very numeral: together with the
      contract of ParseSyntax, the strings Rust accepts as floats are exactly the texts of
      well-formed numerals. */
  lemma ParseText(n: Numeral)
    requires WellFormed(n)
    ensures ParseSyntax(Text(n)) == Some(n)
  {
    ScanText(n, [], Ascii, true);
    assert Text(n) + [] == Text(n);
  }
}
