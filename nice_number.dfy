// `process_number` (src/main.rs:107-143) without its printing: the line it writes for
// one input. The input is trimmed; if what is left is a float, the line is the rendered
// rounded value, a `(rounded)` note when rounding changed it, and the size label;
// otherwise the line is the text with its embedded numbers rendered.
module NiceNumber {
  import opened Digits
  import opened Decimals
  import opened FloatSyntax
  import opened Magnitude
  import opened Separators
  import opened TextScan

  /** The characters with the Unicode White_Space property, which `str::trim` removes. */
  predicate IsWhiteSpace(c: char) {
    var n := c as int;
    || 0x9 <= n <= 0xD || n == 0x20 || n == 0x85 || n == 0xA0 || n == 0x1680
    || 0x2000 <= n <= 0x200A || n == 0x2028 || n == 0x2029 || n == 0x202F || n == 0x205F
    || n == 0x3000
  }

  /** The first index at or after i whose character is not white space, or |s|. */
  function SkipWhiteSpace(s: string, i: nat): (k: nat)
    requires i <= |s|
    ensures i <= k <= |s|
    ensures forall j :: i <= j < k ==> IsWhiteSpace(s[j])
    ensures k == |s| || !IsWhiteSpace(s[k])
    decreases |s| - i
  {
    if i < |s| && IsWhiteSpace(s[i]) then SkipWhiteSpace(s, i + 1) else i
  }

  /** The end of s[k..n] once its trailing white space is dropped. */
  function TrimmedEnd(s: string, k: nat, n: nat): (e: nat)
    requires k <= n <= |s|
    ensures k <= e <= n
    ensures forall j :: e <= j < n ==> IsWhiteSpace(s[j])
    ensures e == k || !IsWhiteSpace(s[e - 1])
    decreases n
  {
    if k < n && IsWhiteSpace(s[n - 1]) then TrimmedEnd(s, k, n - 1) else n
  }

  /** `str::trim`: s is k white-space characters, then r, then only white space, and r
      neither starts nor ends with white space. */
  function Trim(s: string): (r: string)
    ensures var k := SkipWhiteSpace(s, 0);
      && k + |r| <= |s| && r == s[k..k + |r|]
      && (forall i :: 0 <= i < k ==> IsWhiteSpace(s[i]))
      && (forall i :: k + |r| <= i < |s| ==> IsWhiteSpace(s[i]))
    ensures r == [] || (!IsWhiteSpace(r[0]) && !IsWhiteSpace(r[|r| - 1]))
  {
    var k := SkipWhiteSpace(s, 0);
    s[k..TrimmedEnd(s, k, |s|)]
  }

  /** The line for an input that parsed as the float d: the value rounded to hundredths
      and rendered, a `(rounded)` note, and the label of the rounded value's size. Read
      back, it gives exactly those three parts. */
  function SingleNumberLine(d: Decimal): (r: string)
    ensures var h := RoundHundredths(d);
      ReadLine(r) == Some((FormatWithSeparators(h), WasRounded(d), Classify(h)))
  {
    var h := RoundHundredths(d);
    ReadLineOf(FormatWithSeparators(h), WasRounded(d), Classify(h));
    FormatWithSeparators(h) + (if WasRounded(d) then " (rounded)" else "") + " " + Label(Classify(h))
  }

  /** The line `process_number` prints for an input. When the trimmed input parses, the
      line reads back as the rendering of the rounded value, the note exactly when the
      rounding check fires, and the label of the rounded value. Otherwise it is the text
      path, which keeps every character that is not a number character, in order. */
  function ProcessNumber(input: string): (r: string)
    ensures ParseFloat(Trim(input)).Some? ==>
      var d := ParseFloat(Trim(input)).value; var h := RoundHundredths(d);
      ReadLine(r) == Some((FormatWithSeparators(h), WasRounded(d), Classify(h)))
    ensures ParseFloat(Trim(input)).None? ==> Strip(r) == Strip(Trim(input))
  {
    var trimmed := Trim(input);
    match ParseFloat(trimmed)
    case Some(d) => SingleNumberLine(d)
    case None => ProcessText(trimmed)
  }

  /** Trimming twice is trimming once. */
  lemma TrimIdempotent(s: string)
    ensures Trim(Trim(s)) == Trim(s)
  {
    var r := Trim(s);
    assert SkipWhiteSpace(r, 0) == 0;
    assert TrimmedEnd(r, 0, |r|) == |r|;
  }

  /** The input is trimmed before either path, so surrounding white space never changes
      the line. */
  lemma ProcessNumberIgnoresPadding(input: string)
    ensures ProcessNumber(Trim(input)) == ProcessNumber(input)
  {
    TrimIdempotent(input);
  }

  /** The part of s before its first space, and the part after it. */
  function SplitAtSpace(s: string): (r: (string, string))
    ensures ' ' !in r.0
    ensures s == r.0 + [' '] + r.1 || (s == r.0 && r.1 == [])
  {
    if s == [] then ([], [])
    else if s[0] == ' ' then ([], s[1..])
    else
      var rest := SplitAtSpace(s[1..]);
      assert s == [s[0]] + s[1..];
      ([s[0]] + rest.0, rest.1)
  }

  /** The size a label names. */
  function SizeOfLabel(t: string): (r: Option<Size>)
    ensures r.Some? ==> Label(r.value) == t
  {
    if t == Label(Zero) then Some(Zero)
    else if t == Label(Small) then Some(Small)
    else if t == Label(Medium) then Some(Medium)
    else if t == Label(PrettyBig) then Some(PrettyBig)
    else if t == Label(ExtremelyBig) then Some(ExtremelyBig)
    else None
  }

  /** Reads a single-number line back into its rendered number, whether it carries the
      `(rounded)` note, and the size its label names. */
  function ReadLine(line: string): Option<(string, bool, Size)> {
    var parts := SplitAtSpace(line);
    var rounded := |parts.1| >= 10 && parts.1[..10] == "(rounded) ";
    match SizeOfLabel(if rounded then parts.1[10..] else parts.1)
    case Some(size) => Some((parts.0, rounded, size))
    case None => None
  }

  lemma {:induction false} SplitAtSpaceOf(a: string, b: string)
    requires ' ' !in a
    ensures SplitAtSpace(a + [' '] + b) == (a, b)
  {
    if a != [] {
      assert (a + [' '] + b)[1..] == a[1..] + [' '] + b;
      assert ' ' !in a[1..] by {
        assert forall c :: c in a[1..] ==> c in a;
      }
      SplitAtSpaceOf(a[1..], b);
      assert [a[0]] + a[1..] == a;
    } else {
      assert (a + [' '] + b)[1..] == b;
    }
  }

  lemma LabelRead(size: Size)
    ensures SizeOfLabel(Label(size)) == Some(size)
    ensures !(|Label(size)| >= 10 && Label(size)[..10] == "(rounded) ")
  {
    if |Label(size)| >= 10 {
      assert Label(size)[1] != "(rounded) "[1];
    }
  }

  lemma ReadLineOf(number: string, rounded: bool, size: Size)
    requires ' ' !in number
    ensures ReadLine(number + (if rounded then " (rounded)" else "") + " " + Label(size))
            == Some((number, rounded, size))
  {
    var sizeLabel := Label(size);
    LabelRead(size);
    if rounded {
      var tail := "(rounded) " + sizeLabel;
      assert number + " (rounded)" + " " + sizeLabel == number + [' '] + tail;
      SplitAtSpaceOf(number, tail);
      assert tail[..10] == "(rounded) " && tail[10..] == sizeLabel;
    } else {
      assert number + "" + " " + sizeLabel == number + [' '] + sizeLabel;
      SplitAtSpaceOf(number, sizeLabel);
    }
  }

  /** When the trimmed input does not parse, a character that cannot be part of a number,
      a parenthesis for one, is in the output exactly when it is in the trimmed input: the
      text path adds no `(rounded)` note and no label. */
  lemma TextModeAddsNoNote(input: string, c: char)
    requires ParseFloat(Trim(input)).None? && !IsNumberChar(c)
    ensures c in ProcessNumber(input) <==> c in Trim(input)
  {
    StripMembers(ProcessNumber(input), c);
    StripMembers(Trim(input), c);
  }

  /** A line without an ASCII digit comes back trimmed and otherwise unchanged. */
  lemma NoDigitLineTrimmed(input: string)
    requires forall i :: 0 <= i < |Trim(input)| ==> !IsAsciiDigit(Trim(input)[i])
    ensures ProcessNumber(input) == Trim(input)
  {
    ParsedHasAsciiDigit(Trim(input));
    NoAsciiDigitUnchanged(Trim(input));
  }
}
