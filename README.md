# nice-number in Dafny

`nn` (nice-number) prints a number in a friendlier form. The value is rounded to hundredths. The whole part gets a comma every three digits. The hundredths, when there are any, follow as exactly two digits. A ` (rounded)` note appears when rounding changed the value (for inputs whose exponent is at least -15; a smaller change, such as that of `1e-16`, gets no note, see "## Left out"), and a size label follows: `(zero)`, `(small)`, `(medium)`, `(pretty big)` or `(extremely big)`. When the trimmed input is not a single number, `nn` treats it as text. Every number it finds in the text is reformatted the same way, without note or label, and every other character is copied.

This project models the functions of `src/main.rs` that do this work, as pure Dafny functions with lemmas about them:

- `get_size_description`: the size classifier (`Magnitude`).
- `format_number_with_separators` and `format_single_number`: the renderer (`Separators`).
- The rounding and the `(rounded)` test of `process_number` (`Decimals`).
- `str::parse::<f64>`, the grammar of the numbers `nn` accepts (`FloatSyntax`).
- `process_text_with_numbers`: the text scanner, with its regex `-?\d+\.?\d*(?:[eE][+-]?\d+)?` (`TextScan`).
- `process_number`: the dispatch between the two paths, after `str::trim` (`NiceNumber`).

`Digits` holds the digit characters and the decimal writing of naturals. `Examples` works the help text's examples, and a few from `tests/integration_tests.rs`, through the model.

Numbers are exact. A parsed input is a `Decimal(mantissa, exponent)` worth mantissa × 10^exponent. A rounded value is an `int` count of hundredths. Rounding is to the nearest hundredth, ties away from zero, as `f64::round` does on an exact value. The source multiplies and rounds the binary value of the input instead, so a decimal close to a half-hundredth can round the other way there (see "## Left out"). The `(rounded)` test keeps the source's absolute threshold `f64::EPSILON` (2^-52), computed exactly. Rust's float grammar is modelled in full for finite numbers: an optional `+` or `-`, digits with an optional point (`5.` and `.5` included), and an optional exponent. The regex's `\d` matches any Unicode decimal digit, but the float parser reads ASCII digits only. So a match that holds another digit, `٣` for one, fails to parse and is kept as it is.

The regex is specified twice. `TextScan.MatchAt` scans a match the way the regex engine does. An independent automaton (`TextScan.Step`) accepts exactly the pattern's language. `TextScan.MatchIsLongest` proves that the scan returns the longest accepted prefix.

## Model

| member | source | states |
|---|---|---|
| Magnitude.Classify | src/main.rs:48-61 | The size of a value of h hundredths. It is zero exactly when the value is 0; otherwise the truncated absolute value picks the bucket, each stated as an if-and-only-if range: small below 1,000, medium below 1,000,000, pretty big below 1,000,000,000, extremely big above. |
| Magnitude.Label | src/main.rs:52-60 | Each label is a name in parentheses, with no other parenthesis inside. |
| Magnitude.LabelInjective | src/main.rs:52-60 | The five labels are distinct, so a label names its size. |
| Magnitude.ClassifyMonotone | src/main.rs:56-61 | A larger absolute value never gets a smaller size. |
| Magnitude.ClassifyIgnoresSign | src/main.rs:49 | Negating a value does not change its size. |
| Digits.DecimalDigits | src/main.rs:68 | The plain decimal writing of a natural number: ASCII digits, no leading zero, and it spells the number back. |
| Digits.TwoDigits | src/main.rs:72-74 | The `{:02}` writing of the hundredths: two ASCII digits that spell the number back. |
| Decimals.RoundQuotient | src/main.rs:114 | `round` of a fraction: the nearest integer, a tie going away from zero. |
| Decimals.RoundHundredths | src/main.rs:88 | `(number * 100.0).round()`: the nearest number of hundredths, ties away from zero. |
| Decimals.NearestUnique | src/main.rs:114 | The nearest integer, ties away from zero, is unique, so the rounding is fully determined. |
| Decimals.RoundExact | src/main.rs:114-117 | A value that already is a whole number of hundredths keeps it and gets no `(rounded)` note. |
| Decimals.RoundIdempotent | src/main.rs:114-117 | Rounding the rounded value changes nothing and gets no note. |
| Decimals.WasRounded | src/main.rs:117 | When the `(rounded)` test fires, the value is not a whole number of hundredths. |
| Decimals.WasRoundedMeansChanged | src/main.rs:117 | The note only appears when rounding changed the value. For a parsed value whose exponent is at least -15 (at most 15 digits after the point when written without an exponent), it appears exactly then. `1e-16` is already outside: it rounds to 0 and gets no note. |
| Decimals.TinyDifferenceNotAnnotated | src/main.rs:117 | 10^-19 rounds to 0 and so changes, yet it gets no note: the absolute epsilon hides the change. |
| FloatSyntax.ScanNumeral | src/main.rs:94 | Splits a numeral off the start of a string. The numeral's text followed by the rest is the string, its pieces hold digits of the class, and it has a `+` sign only where one is allowed. That each piece is taken greedily is proved by FloatSyntax.ScanText and TextScan.MatchLongest. |
| FloatSyntax.ParseSyntax | src/main.rs:111 | When a string parses, the result is well formed in Rust's float grammar and its text is the whole string. |
| FloatSyntax.ParseFloat | src/main.rs:111 | `parse::<f64>` succeeds exactly when the string is in the grammar. The value is then the exact value the numeral spells. |
| FloatSyntax.ScanText | src/main.rs:94-98 | Scanning a numeral's text, followed by anything that cannot continue it, gives that numeral and that rest back. |
| FloatSyntax.ParseText | src/main.rs:111 | The text of every well-formed numeral parses to that numeral. With ParseSyntax, the accepted strings are exactly the texts of well-formed numerals. |
| Separators.GroupThousands | src/main.rs:68 | The English-locale grouping of a natural: a lead group of 1-3 digits, then groups of a comma and three digits. Deleting the commas gives the plain decimal form. |
| Separators.Grouped | src/main.rs:65-68 | An `i64` in the English locale: a minus sign exactly for a negative number, then the grouped magnitude. Commas deleted, it is the signed decimal form. |
| Separators.IntegerPart | src/main.rs:65 | `trunc`: the whole part's magnitude is the largest whole number not above the absolute value, and it is negative exactly when the value is -1 or below. |
| Separators.FractionPart | src/main.rs:66 | The hundredths of the absolute value: under 100, and together with the whole part they make up the absolute value. |
| Separators.Suffix | src/main.rs:66-78 | The suffix is present exactly when the hundredths of the absolute value are non-zero. It is then a point and exactly two ASCII digits that spell the hundredths, zero-padded; never a minus sign. |
| Separators.FormatWithSeparators | src/main.rs:64-79 | A rendering holds only digits, commas, a point and a minus sign. It has a point exactly when the hundredths are non-zero. It has a minus sign exactly when the truncated whole part is negative, so a value strictly between -1 and 0 loses its sign. |
| Separators.FormatSingleNumber | src/main.rs:87-90 | The rendering of a float, with its commas deleted, parses back to the float rounded to hundredths, made positive when the rounded value lies strictly between -1 and 0. |
| Separators.ReadBack | src/main.rs:64-79 | Deleting the commas from a rendering and parsing it as a float gives back exactly the rounded value, except that a value strictly between -1 and 0 comes back positive. |
| Separators.ReadBackValue | src/main.rs:64-79 | The numeral of a rendering is well formed, and its value is the rendered number of hundredths (made positive for a value strictly between -1 and 0). |
| Separators.GroupedText | src/main.rs:65-68 | With the commas deleted, the grouped whole part is its sign followed by the decimal digits of its magnitude. |
| Separators.SuffixText | src/main.rs:70-78 | With the commas deleted, the suffix is a point and the two hundredths digits, or nothing. |
| TextScan.MatchAt | src/main.rs:94 | A regex match at the start of a text: a numeral of the pattern's shape, with no `+`, at least one whole digit, and its text a prefix of the input. |
| TextScan.MatchIsLongest | src/main.rs:94 | The match is the longest prefix that the pattern's automaton accepts. When there is no match, no prefix is accepted. |
| TextScan.MatchLongest | src/main.rs:94 | The greedy scan's numeral, when it has whole digits, is the longest accepted prefix. |
| TextScan.NoMatch | src/main.rs:94 | A text that starts with no digit, after an optional minus sign, has no accepted prefix. |
| TextScan.MatchRun | src/main.rs:94 | The automaton accepts the text of every numeral of the pattern's shape. |
| TextScan.NoExponentRejects | src/main.rs:94 | After the fraction digits, or after whole digits when no point follows, an exponent marker without exponent digits or any other non-digit cannot extend a match. |
| TextScan.MatchOf | src/main.rs:94 | A numeral of the pattern's shape, followed by text that cannot continue it, is the match there. |
| TextScan.NoMatchAtPlain | src/main.rs:94 | No match starts at a character that is neither a digit nor a minus sign. |
| TextScan.Scan | src/main.rs:96-104 | Cutting a text into pieces, copied characters and matches, loses and adds nothing: the pieces spell the text. |
| TextScan.ScanTokenizes | src/main.rs:96-104 | The pieces are what `replace_all` visits left to right: where a match starts, the longest match; elsewhere one character. |
| TextScan.TokenizesUnique | src/main.rs:96-104 | There is only one way to cut a text like that, so the scan is determined by the regex's semantics. |
| TextScan.MatchParsesIff | src/main.rs:97-102 | A match parses as a float exactly when all its digits are ASCII, and then has the value its digits spell. Otherwise it is kept verbatim. |
| TextScan.ParsedHasAsciiDigit | src/main.rs:98 | A string that parses as a float holds an ASCII digit. |
| TextScan.KeptVerbatim | src/main.rs:100-101 | In a text without ASCII digits, a match fails to parse and is kept. |
| TextScan.ProcessTextStep | src/main.rs:96-104 | Where a match starts, its replacement comes first, then the processed rest. Elsewhere the first character is copied, then the processed rest. |
| TextScan.NoAsciiDigitUnchanged | src/main.rs:96-104 | A text without ASCII digits comes back unchanged. |
| TextScan.ProcessText | src/main.rs:92-105 | With every number character deleted, the processed text equals the input: every other character is kept, in order. Number characters are the Unicode digits, `,`, `.`, `-`, `+`, `e` and `E`, so this says nothing about those letters in prose; TextScan.ProcessTextStep states the exact step, which copies every character outside a match. |
| TextScan.RenderPiece | src/main.rs:96-102 | A replacement, rendered or kept, differs from the match only in number characters. |
| TextScan.RenderKeepsText | src/main.rs:96-104 | Replacing every piece keeps the characters that are not number characters, in order. |
| TextScan.OtherCharactersKept | src/main.rs:96-104 | A character that cannot be part of a number is in the output exactly when it is in the input. |
| TextScan.PlainTextCopied | src/main.rs:96-104 | Text with no digit and no minus sign is copied through, whatever follows it. |
| TextScan.ParsedStripped | src/main.rs:97-99 | A match that parses as a float consists of number characters only. |
| TextScan.RenderingStripped | src/main.rs:99 | `format_single_number`'s output consists of number characters only. |
| NiceNumber.Trim | src/main.rs:108 | `str::trim`: the result is a slice of the input with only Unicode white space before and after it, and it neither starts nor ends with white space. |
| NiceNumber.TrimIdempotent | src/main.rs:108 | Trimming twice is trimming once. |
| NiceNumber.ProcessNumberIgnoresPadding | src/main.rs:108 | Surrounding white space never changes the output line. |
| NiceNumber.ReadLineOf | src/main.rs:126-131 | The single-number line format can be read back into the rendering, the presence of the note, and the size. |
| NiceNumber.SingleNumberLine | src/main.rs:114-131 | A single-number line reads back as the rendering of the rounded value, the `(rounded)` note exactly when the test fires, and the label of the rounded value's size. |
| NiceNumber.ProcessNumber | src/main.rs:107-143 | When the trimmed input parses, the output line reads back as the rounded rendering, the note exactly when the test fires, and the label of the rounded value. Otherwise the line keeps every character of the trimmed input that is not a number character, in order. |
| NiceNumber.TextModeAddsNoNote | src/main.rs:138-141 | When the trimmed input does not parse, a non-number character such as a parenthesis is in the output exactly when it is in the input, so no note or label is added. |
| NiceNumber.NoDigitLineTrimmed | src/main.rs:107-142 | A line without an ASCII digit comes back trimmed and otherwise unchanged. |
| Examples.ExactLine | src/main.rs:114-131 | An input that is exactly h hundredths prints the rendering of h and its label, with no note. |
| Examples.RoundedLine | src/main.rs:114-131 | An input whose parsed exponent is at least -15, and that rounds to h hundredths without being h hundredths, prints the rendering of h, the note, and the label of h. |
| Examples.NotAFloat | src/main.rs:111 | A string starting with anything but a digit, a sign or a point is not a float. |
| Examples.TextLine | src/main.rs:138-141 | A trimmed line that is not a float takes the text path. |
| Examples.NumberThenRest | src/main.rs:96-101 | A numeral in running text, before text that cannot continue it, is replaced by its rendering. |
| Examples.FortyTwo | src/main.rs:28 | `42` prints `42 (small)`. |
| Examples.FiveThousand | src/main.rs:29 | `5000` prints `5,000 (medium)`. |
| Examples.FortyTwoRounded | src/main.rs:30 | `42.123456` prints `42.12 (rounded) (small)`. |
| Examples.PrettyBigNumber | src/main.rs:31 | `1234567.89` prints `1,234,567.89 (pretty big)`. |
| Examples.ExtremelyBigNumber | src/main.rs:32 | `9876543210` prints `9,876,543,210 (extremely big)`. |
| Examples.ScientificNotation | src/main.rs:33 | `1.23e5` prints `123,000 (medium)`. |
| Examples.NegativeNumber | src/main.rs:34 | `-5000` prints `-5,000 (medium)`. |
| Examples.NumberInText | src/main.rs:36 | `The file is 1024 bytes` prints `The file is 1,024 bytes`. |
| Examples.RoundingCarriesIntoWholePart | tests/integration_tests.rs:182-189 | `9876543210.999` prints `9,876,543,211 (rounded) (extremely big)`. |
| Examples.TwoFractionDigits | tests/integration_tests.rs:15-21 | `42.50` prints `42.50 (small)`: the trailing zero of the hundredths is kept. |
| Examples.ExactHundredths | tests/integration_tests.rs:171-178 | `123.45` prints `123.45 (small)`, with no note. |
| Examples.NegativeHalfLosesSign | src/main.rs:65-78 | `-0.5` prints `0.50 (small)`: the sign comes from the truncated whole part only. |
| Examples.LabelOfRoundedValue | src/main.rs:130 | `999.999` prints `1,000 (rounded) (medium)`: the label is that of the rounded value, although 999.999 truncates to a small number. |
| Examples.ZeroLabel | src/main.rs:52-53 | `0` prints `0 (zero)`. |

## Left out

- The binary-units line (`--bytes`, `format_as_binary_units`, src/main.rs:81-85, 133-136) is not modelled. It is a wrapper over the `humansize` crate, whose code is not part of this model.
- Colour and styling (`colored`, src/main.rs:53-60, 121, 135) are not modelled: the labels and the note are bare strings.
- Command-line parsing, help and version text, stdin reading, and the no-op for an empty or blank stdin line (src/main.rs:146-163) are not modelled. `println!` is modelled as the line it prints, without the newline.
- IEEE-754 arithmetic is not modelled. Parsing, `* 100.0`, `round`, `trunc` and the `f64::EPSILON` comparison are exact here. The source rounds the binary value nearest the input, times 100.0, so a decimal that lies within about half an ulp of a half-hundredth can round the other way there, even with few digits. In `f64`, `1.005 * 100.0` is 100.49999999999999, so the source prints `1 (rounded) (small)`, where the model's exact tie gives `1.01 (rounded) (small)`. `0.145`, `1.015` and `1.255` behave the same way. Inputs beyond `f64` precision (more than about 15-17 significant digits) differ likewise.
- The saturating `as i64` and `as u32` casts (src/main.rs:56, 65, 74) are left out: whole parts beyond 2^63 are unbounded integers here.
- `inf`, `infinity` and `nan`, which Rust's float parser also accepts, are not in the grammar: such input takes the text path here.
- Subnormal and overflowing exponents (`1e400`) are not modelled: their value stays exact.
- `num_format` is modelled only for what its English locale does to an `i64`: a minus sign and a comma every three digits.
- The Unicode decimal-digit set of `\d` is written out as a table of the zeros of its blocks, as of Unicode 15.0. The `regex` crate in use may follow a later Unicode version, which adds Nd blocks; those would need to be added to the table.
- Decimals.WasRounded: the note's test is the source's absolute epsilon, not "the value changed". WasRoundedMeansChanged proves they agree for a parsed value whose exponent is at least -15 (at most 15 digits after the point when written without an exponent). `1e-16` is already outside: it rounds to 0, so the value changes, yet it gets no note. TinyDifferenceNotAnnotated shows that 10^-19 is an input where they differ.
- Where `tests/integration_tests.rs` contradicts `src/main.rs`, the model follows `src/main.rs`. `0` gets `(zero)` (src/main.rs:52-53), not `(small)` (tests/integration_tests.rs:96-103). Text that is not a number is printed, not rejected (src/main.rs:138-142; tests/integration_tests.rs:106-125).
