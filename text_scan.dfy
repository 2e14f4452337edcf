// `process_text_with_numbers` (src/main.rs:92-105): every match of the pattern
// `-?\d+\.?\d*(?:[eE][+-]?\d+)?` in the text is replaced by its rendering when it parses
// as a float, and kept as it is otherwise; everything between matches is copied.
module TextScan {
  import opened Digits
  import opened Decimals
  import opened FloatSyntax
  import opened Separators

  /** The match of the pattern at the very start of s, if there is one. The regex takes
      every optional part it can (greedy quantifiers, leftmost-first alternation): the
      same scan as a float's text, with `\d` any Unicode digit, no '+' sign, and at least
      one digit before the point. */
  function MatchAt(s: string): (r: Option<Numeral>)
    ensures r.Some? ==> && Shaped(r.value, Unicode) && r.value.sign != Plus
                        && r.value.intDigits != [] && IsPrefix(Text(r.value), s)
    ensures r.Some? ==> |Text(r.value)| > 0
  {
    var scan := ScanNumeral(s, Unicode, false);
    assert s[..|Text(scan.0)|] == Text(scan.0);
    if scan.0.intDigits != [] then Some(scan.0) else None
  }

  /** The states of an automaton that accepts exactly the strings the pattern matches. */
  datatype State = Start | AfterMinus | InInt | InFrac | AfterMarker | AfterExpSign | InExp | Dead

  function Step(q: State, c: char): State {
    var digit := IsUnicodeDigit(c);
    match q
    case Start => if c == '-' then AfterMinus else if digit then InInt else Dead
    case AfterMinus => if digit then InInt else Dead
    case InInt =>
      if digit then InInt
      else if c == '.' then InFrac
      else if c == 'e' || c == 'E' then AfterMarker
      else Dead
    case InFrac => if digit then InFrac else if c == 'e' || c == 'E' then AfterMarker else Dead
    case AfterMarker => if c == '+' || c == '-' then AfterExpSign else if digit then InExp else Dead
    case AfterExpSign => if digit then InExp else Dead
    case InExp => if digit then InExp else Dead
    case Dead => Dead
  }

  function Run(q: State, t: string): State
    decreases |t|
  {
    if t == [] then q else Run(Step(q, t[0]), t[1..])
  }

  predicate Accepting(q: State) {
    q == InInt || q == InFrac || q == InExp
  }

  /** t is a string the pattern matches in full. */
  predicate InPattern(t: string) {
    Accepting(Run(Start, t))
  }

  /** t is the longest prefix of s the pattern matches. */
  predicate LongestMatch(s: string, t: string) {
    && IsPrefix(t, s)
    && InPattern(t)
    && forall k :: |t| < k <= |s| ==> !InPattern(s[..k])
  }

  /** No prefix of s is matched by the pattern: no match starts here. */
  predicate NoMatchAt(s: string) {
    forall k :: 0 <= k <= |s| ==> !InPattern(s[..k])
  }

  /** No prefix of t takes the automaton from q to an accepting state. */
  predicate Rejects(q: State, t: string) {
    forall k :: 0 <= k <= |t| ==> !Accepting(Run(q, t[..k]))
  }

  lemma {:induction false} RunAppend(q: State, a: string, b: string)
    ensures Run(q, a + b) == Run(Run(q, a), b)
    decreases |a|
  {
    if a == [] {
      assert a + b == b;
    } else {
      assert (a + b)[0] == a[0] && (a + b)[1..] == a[1..] + b;
      RunAppend(Step(q, a[0]), a[1..], b);
    }
  }

  lemma {:induction false} RunDead(t: string)
    ensures Run(Dead, t) == Dead
    decreases |t|
  {
    if t != [] {
      RunDead(t[1..]);
    }
  }

  /** A digit loop stays where it is on digits. */
  lemma {:induction false} RunDigits(q: State, digits: string)
    requires q == InInt || q == InFrac || q == InExp
    requires AllDigitsOf(Unicode, digits)
    ensures Run(q, digits) == q
    decreases |digits|
  {
    if digits != [] {
      RunDigits(q, digits[1..]);
    }
  }

  /** From a state that does not accept, t is rejected when the rest after its first
      character is rejected from the next state. */
  lemma RejectsStep(q: State, t: string)
    requires t != [] && !Accepting(q) && Rejects(Step(q, t[0]), t[1..])
    ensures Rejects(q, t)
  {
    forall k | 0 < k <= |t|
      ensures Run(q, t[..k]) == Run(Step(q, t[0]), t[1..][..k - 1])
    {
      assert t[..k][0] == t[0] && t[..k][1..] == t[1..][..k - 1];
    }
  }

  lemma DeadRejects(t: string)
    ensures Rejects(Dead, t)
  {
    forall k | 0 <= k <= |t| {
      RunDead(t[..k]);
    }
  }

  /** The state the automaton is in after a matched numeral's text. */
  function EndState(n: Numeral): State {
    if n.exponent.Some? then InExp else if n.point then InFrac else InInt
  }

  lemma ExponentRun(q: State, e: Option<Exponent>)
    requires q == InInt || q == InFrac
    requires e.Some? ==> ExponentShaped(e.value, Unicode)
    ensures Run(q, ExponentText(e)) == if e.Some? then InExp else q
  {
    if e.Some? {
      var x := e.value;
      var head := [x.marker] + SignText(x.sign);
      RunAppend(q, head, x.digits);
      RunAppend(q, [x.marker], SignText(x.sign));
      assert Run(q, [x.marker]) == AfterMarker;
      var after := Run(AfterMarker, SignText(x.sign));
      assert after == if x.sign == NoSign then AfterMarker else AfterExpSign;
      assert x.digits == [x.digits[0]] + x.digits[1..];
      RunAppend(after, [x.digits[0]], x.digits[1..]);
      assert Run(after, [x.digits[0]]) == InExp;
      RunDigits(InExp, x.digits[1..]);
    }
  }

  /** The automaton accepts the text of a match, ending in its EndState. */
  lemma MatchRun(n: Numeral)
    requires Shaped(n, Unicode) && n.sign != Plus && n.intDigits != []
    ensures Run(Start, Text(n)) == EndState(n)
  {
    var first := SignText(n.sign) + n.intDigits;
    RunAppend(Start, SignText(n.sign), n.intDigits);
    var q0 := Run(Start, SignText(n.sign));
    assert q0 == Start || q0 == AfterMinus;
    assert n.intDigits == [n.intDigits[0]] + n.intDigits[1..];
    RunAppend(q0, [n.intDigits[0]], n.intDigits[1..]);
    RunDigits(InInt, n.intDigits[1..]);
    var q1 := if n.point then InFrac else InInt;
    RunAppend(Start, first, PointText(n.point));
    RunAppend(Start, first + PointText(n.point), n.fracDigits);
    RunDigits(q1, n.fracDigits);
    RunAppend(Start, first + PointText(n.point) + n.fracDigits, ExponentText(n.exponent));
    ExponentRun(q1, n.exponent);
  }

  /** What a failed exponent scan leaves: from a digit loop, t takes the automaton to no
      accepting state once it has read a character. */
  lemma NoExponentRejects(q: State, t: string)
    requires q == InInt || q == InFrac
    requires t != [] && !IsUnicodeDigit(t[0]) && (q == InInt ==> t[0] != '.')
    requires ScanExponent(t, Unicode).0.None?
    ensures Rejects(Step(q, t[0]), t[1..])
  {
    var next := Step(q, t[0]);
    if next == Dead {
      DeadRejects(t[1..]);
    } else {
      assert next == AfterMarker;
      var u := t[1..];
      MarkerWithoutDigits(t);
      if u != [] && (u[0] == '+' || u[0] == '-') {
        var w := u[1..];
        if w != [] {
          DeadRejects(w[1..]);
          RejectsStep(AfterExpSign, w);
        }
        RejectsStep(AfterMarker, u);
      } else if u != [] {
        DeadRejects(u[1..]);
        RejectsStep(AfterMarker, u);
      }
    }
  }

  /** An exponent marker that starts no exponent is followed, after an optional sign, by
      no digit. */
  lemma MarkerWithoutDigits(t: string)
    requires t != [] && (t[0] == 'e' || t[0] == 'E')
    requires ScanExponent(t, Unicode).0.None?
    ensures var u := t[1..];
      if u != [] && (u[0] == '+' || u[0] == '-') then u[1..] == [] || !IsUnicodeDigit(u[1])
      else u == [] || !IsUnicodeDigit(u[0])
  {
    var sign := ScanSign(t[1..], true);
    assert ScanDigits(sign.1, Unicode).0 == [];
  }

  /** The match is the longest prefix of s in the pattern's language, and when there is no
      match, no prefix of s is in it. */
  lemma MatchIsLongest(s: string)
    ensures MatchAt(s).Some? ==> LongestMatch(s, Text(MatchAt(s).value))
    ensures MatchAt(s).None? ==> NoMatchAt(s)
  {
    var scan := ScanNumeral(s, Unicode, false);
    var n := scan.0;
    if n.intDigits != [] {
      MatchLongest(s);
    } else {
      NoMatch(s);
    }
  }

  lemma MatchLongest(s: string)
    requires ScanNumeral(s, Unicode, false).0.intDigits != []
    ensures LongestMatch(s, Text(ScanNumeral(s, Unicode, false).0))
  {
    var scan := ScanNumeral(s, Unicode, false);
    var n, rest := scan.0, scan.1;
    var t := Text(n);
    MatchRun(n);
    if rest != [] {
      TailRejected(s);
      forall k | |t| < k <= |s|
        ensures !InPattern(s[..k])
      {
        PastMatch(s, t, rest, k);
      }
    }
  }

  /** A prefix of s longer than t is rejected when what follows t is. */
  lemma PastMatch(s: string, t: string, rest: string, k: int)
    requires s == t + rest && |t| < k <= |s|
    requires Rejects(Step(Run(Start, t), rest[0]), rest[1..])
    ensures !InPattern(s[..k])
  {
    var j := k - |t|;
    var u := rest[..j];
    assert s[..k] == t + u;
    RunAppend(Start, t, u);
    assert u[0] == rest[0] && u[1..] == rest[1..][..j - 1];
  }

  /** What follows a match cannot extend it. */
  lemma TailRejected(s: string)
    requires ScanNumeral(s, Unicode, false).0.intDigits != []
    requires ScanNumeral(s, Unicode, false).1 != []
    ensures var scan := ScanNumeral(s, Unicode, false);
      Rejects(Step(EndState(scan.0), scan.1[0]), scan.1[1..])
  {
    var sign := ScanSign(s, false);
    var intDigits := ScanDigits(sign.1, Unicode);
    var point := ScanPoint(intDigits.1);
    var fracDigits := ScanDigits(point.1, Unicode);
    var exponent := ScanExponent(fracDigits.1, Unicode);
    var n := Numeral(sign.0, intDigits.0, point.0, fracDigits.0, exponent.0);
    assert ScanNumeral(s, Unicode, false) == (n, exponent.1);
    TailAfter(n, intDigits.1, fracDigits.1, exponent.1);
  }

  /** The automaton's view of what follows a numeral: intRest follows its whole digits,
      fracRest its fraction digits, and rest the exponent, if any. */
  lemma TailAfter(n: Numeral, intRest: string, fracRest: string, rest: string)
    requires rest != [] && (intRest == [] || !IsUnicodeDigit(intRest[0]))
    requires !n.point ==> n.fracDigits == [] && fracRest == intRest && (intRest == [] || intRest[0] != '.')
    requires n.point ==> fracRest == [] || !IsUnicodeDigit(fracRest[0])
    requires (n.exponent, rest) == ScanExponent(fracRest, Unicode)
    ensures Rejects(Step(EndState(n), rest[0]), rest[1..])
  {
    if n.exponent.Some? {
      DeadRejects(rest[1..]);
    } else {
      assert rest == fracRest;
      NoExponentRejects(EndState(n), rest);
    }
  }

  lemma NoMatch(s: string)
    requires ScanDigits(ScanSign(s, false).1, Unicode).0 == []
    ensures NoMatchAt(s)
  {
    if s == [] {
      assert s[..0] == [];
    } else if s[0] == '-' {
      var u := s[1..];
      if u != [] {
        assert !IsUnicodeDigit(u[0]);
        DeadRejects(u[1..]);
        RejectsStep(AfterMinus, u);
      }
      RejectsStep(Start, s);
    } else {
      assert !IsUnicodeDigit(s[0]);
      DeadRejects(s[1..]);
      RejectsStep(Start, s);
    }
  }

  /** A piece of the text: one character copied, or the text of one match. */
  datatype Piece = Plain(c: char) | Number(text: string)

  function PieceText(p: Piece): string {
    match p
    case Plain(c) => [c]
    case Number(t) => t
  }

  /** The text the pieces were cut from. */
  function Source(ps: seq<Piece>): string {
    if ps == [] then [] else PieceText(ps[0]) + Source(ps[1..])
  }

  /** ps cuts s the way `replace_all` walks it, left to right: where a match starts, the
      longest match; elsewhere one character. */
  predicate Tokenizes(s: string, ps: seq<Piece>)
    decreases |ps|
  {
    if ps == [] then s == []
    else match ps[0]
      case Plain(c) => s != [] && s[0] == c && NoMatchAt(s) && Tokenizes(s[1..], ps[1..])
      case Number(t) => LongestMatch(s, t) && Tokenizes(s[|t|..], ps[1..])
  }

  /** The pieces of s, cut at the matches of the pattern. */
  function Scan(s: string): (ps: seq<Piece>)
    ensures Source(ps) == s
    decreases |s|
  {
    if s == [] then []
    else
      var m := MatchAt(s);
      if m.Some? then
        var t := Text(m.value);
        var rest := Scan(s[|t|..]);
        ScanNumberCase(s, t, rest);
        [Number(t)] + rest
      else
        var rest := Scan(s[1..]);
        ScanPlainCase(s, rest);
        [Plain(s[0])] + rest
  }

  lemma ScanNumberCase(s: string, t: string, rest: seq<Piece>)
    requires IsPrefix(t, s) && Source(rest) == s[|t|..]
    ensures Source([Number(t)] + rest) == s
  {
    SourceCons(Number(t), rest);
    assert s == s[..|t|] + s[|t|..];
  }

  lemma ScanPlainCase(s: string, rest: seq<Piece>)
    requires s != [] && Source(rest) == s[1..]
    ensures Source([Plain(s[0])] + rest) == s
  {
    SourceCons(Plain(s[0]), rest);
    assert s == [s[0]] + s[1..];
  }

  lemma SourceCons(p: Piece, ps: seq<Piece>)
    ensures Source([p] + ps) == PieceText(p) + Source(ps)
  {
    assert ([p] + ps)[1..] == ps;
  }

  /** What replaces a piece: a match that parses as a float is rendered with
      `format_single_number`, anything else is kept. Either way, the characters that are
      not number characters stay as they were. */
  function RenderPiece(p: Piece): (r: string)
    ensures Strip(r) == Strip(PieceText(p))
  {
    match p
    case Plain(c) => [c]
    case Number(t) =>
      if ParseFloat(t).Some? then
        ParsedStripped(t);
        RenderingStripped(RoundHundredths(ParseFloat(t).value));
        FormatSingleNumber(ParseFloat(t).value)
      else t
  }

  function Render(ps: seq<Piece>): string {
    if ps == [] then [] else RenderPiece(ps[0]) + Render(ps[1..])
  }

  /** `process_text_with_numbers`. Processing only ever replaces number characters with
      number characters: with every number character deleted, the output is the input, so
      the rest of the text is kept, in its order. */
  function ProcessText(s: string): (r: string)
    ensures Strip(r) == Strip(s)
  {
    RenderKeepsText(Scan(s));
    Render(Scan(s))
  }

  lemma {:induction false} RenderKeepsText(ps: seq<Piece>)
    ensures Strip(Render(ps)) == Strip(Source(ps))
  {
    if ps != [] {
      RenderKeepsText(ps[1..]);
      StripAppend(RenderPiece(ps[0]), Render(ps[1..]));
      StripAppend(PieceText(ps[0]), Source(ps[1..]));
    }
  }

  /** Scan cuts the text as the regex's `replace_all` does. */
  lemma {:induction false} ScanTokenizes(s: string)
    ensures Tokenizes(s, Scan(s))
    decreases |s|
  {
    if s != [] {
      MatchIsLongest(s);
      var ps := Scan(s);
      match MatchAt(s)
      case Some(n) =>
        ScanTokenizes(s[|Text(n)|..]);
        assert ps[1..] == Scan(s[|Text(n)|..]);
      case None =>
        ScanTokenizes(s[1..]);
        assert ps[1..] == Scan(s[1..]);
    }
  }

  /** There is only one way to cut a text that way. */
  lemma {:induction false} TokenizesUnique(s: string, ps: seq<Piece>, qs: seq<Piece>)
    requires Tokenizes(s, ps) && Tokenizes(s, qs)
    ensures ps == qs
    decreases |ps|
  {
    if ps != [] && qs != [] {
      match ps[0]
      case Plain(c) =>
        TokenizesUnique(s[1..], ps[1..], qs[1..]);
      case Number(t) =>
        assert s[..|t|] == t;
        match qs[0]
        case Plain(_) =>
        case Number(u) =>
          assert s[..|u|] == u;
          assert |t| == |u|;
        TokenizesUnique(s[|t|..], ps[1..], qs[1..]);
    }
  }

  lemma AsciiShapedIsUnicodeShaped(n: Numeral)
    requires Shaped(n, Ascii)
    ensures Shaped(n, Unicode)
  {
    forall c: char {
      AsciiDigitIsUnicodeDigit(c);
    }
  }

  /** A match parses as a float exactly when all its digits are ASCII digits; it then has
      the value its digits spell. A match holding another Unicode digit is kept verbatim. */
  lemma MatchParsesIff(s: string)
    requires MatchAt(s).Some?
    ensures var n := MatchAt(s).value;
      && (ParseFloat(Text(n)).Some? <==> Shaped(n, Ascii))
      && (Shaped(n, Ascii) ==> ParseFloat(Text(n)) == Some(NumeralValue(n)))
  {
    var n := MatchAt(s).value;
    if Shaped(n, Ascii) {
      ParseText(n);
    }
    match ParseSyntax(Text(n))
    case Some(m) =>
      AsciiShapedIsUnicodeShaped(m);
      ScanText(m, [], Unicode, true);
      ScanText(n, [], Unicode, true);
      assert Text(n) + [] == Text(n) && Text(m) + [] == Text(m);
    case None =>
  }

  /** The characters a numeral's text is made of. */
  lemma TextCharacters(n: Numeral, cls: DigitClass)
    requires Shaped(n, cls)
    ensures forall c :: c in Text(n) ==>
      IsDigitOf(cls, c) || c == '+' || c == '-' || c == '.' || c == 'e' || c == 'E'
  {
  }

  /** A float's text has an ASCII digit. */
  lemma ParsedHasAsciiDigit(t: string)
    ensures ParseFloat(t).Some? ==> exists i :: 0 <= i < |t| && IsAsciiDigit(t[i])
  {
    match ParseSyntax(t)
    case Some(m) =>
      var pre := SignText(m.sign);
      if m.intDigits != [] {
        assert t[|pre|] == m.intDigits[0];
      } else {
        assert t[|pre| + |PointText(m.point)|] == m.fracDigits[0];
      }
    case None =>
  }

  lemma KeptVerbatim(s: string)
    requires forall i :: 0 <= i < |s| ==> !IsAsciiDigit(s[i])
    requires MatchAt(s).Some?
    ensures ParseFloat(Text(MatchAt(s).value)).None?
  {
    var t := Text(MatchAt(s).value);
    ParsedHasAsciiDigit(t);
    assert forall i :: 0 <= i < |t| ==> t[i] == s[i];
  }

  lemma RenderCons(p: Piece, ps: seq<Piece>)
    ensures Render([p] + ps) == RenderPiece(p) + Render(ps)
  {
    assert ([p] + ps)[1..] == ps;
  }

  /** Where a match starts, its rendering comes first, then the rest of s, processed. */
  lemma NumberStep(s: string)
    requires s != [] && MatchAt(s).Some?
    ensures var t := Text(MatchAt(s).value);
      s == t + s[|t|..] && ProcessText(s) == RenderPiece(Number(t)) + ProcessText(s[|t|..])
  {
    var t := Text(MatchAt(s).value);
    RenderCons(Number(t), Scan(s[|t|..]));
  }

  /** Where no match starts, the first character is copied, then the rest of s is
      processed. */
  lemma PlainStep(s: string)
    requires s != [] && MatchAt(s).None?
    ensures ProcessText(s) == [s[0]] + ProcessText(s[1..])
  {
    RenderCons(Plain(s[0]), Scan(s[1..]));
  }

  /** The first piece of s, rendered, and the rest of s, processed. */
  lemma ProcessTextStep(s: string)
    requires s != []
    ensures MatchAt(s).Some? ==>
      var t := Text(MatchAt(s).value);
      s == t + s[|t|..] && ProcessText(s) == RenderPiece(Number(t)) + ProcessText(s[|t|..])
    ensures MatchAt(s).None? ==> ProcessText(s) == [s[0]] + ProcessText(s[1..])
  {
    if MatchAt(s).Some? {
      NumberStep(s);
    } else {
      PlainStep(s);
    }
  }

  /** Text without an ASCII digit comes back unchanged: a match in it can only be made of
      other Unicode digits, and is kept verbatim. */
  lemma {:induction false} NoAsciiDigitUnchanged(s: string)
    requires forall i :: 0 <= i < |s| ==> !IsAsciiDigit(s[i])
    ensures ProcessText(s) == s
    decreases |s|
  {
    if s != [] {
      var k := FirstPieceKept(s);
      NoAsciiDigitUnchanged(s[k..]);
      Rejoin(s, k);
    }
  }

  lemma Rejoin(s: string, k: nat)
    requires k <= |s|
    ensures s[..k] + s[k..] == s
  {
  }

  /** Without an ASCII digit, the first piece of s, of length k, is copied as it is. */
  lemma FirstPieceKept(s: string) returns (k: nat)
    requires s != [] && forall i :: 0 <= i < |s| ==> !IsAsciiDigit(s[i])
    ensures 0 < k <= |s| && ProcessText(s) == s[..k] + ProcessText(s[k..])
  {
    if MatchAt(s).Some? {
      var t := Text(MatchAt(s).value);
      NumberStep(s);
      KeptVerbatim(s);
      k := |t|;
    } else {
      PlainStep(s);
      k := 1;
    }
  }


  /** The characters a number is written with: Unicode digits, signs, the point, the
      comma and the exponent markers. */
  predicate IsNumberChar(c: char) {
    IsUnicodeDigit(c) || c == ',' || c == '.' || c == '-' || c == '+' || c == 'e' || c == 'E'
  }

  /** The text with every number character deleted. */
  function Strip(s: string): string {
    if s == [] then [] else (if IsNumberChar(s[0]) then [] else [s[0]]) + Strip(s[1..])
  }

  lemma {:induction false} StripAppend(a: string, b: string)
    ensures Strip(a + b) == Strip(a) + Strip(b)
  {
    if a != [] {
      assert (a + b)[0] == a[0] && (a + b)[1..] == a[1..] + b;
      StripAppend(a[1..], b);
    } else {
      assert a + b == b;
    }
  }

  lemma {:induction false} StripNumberChars(s: string)
    requires forall c :: c in s ==> IsNumberChar(c)
    ensures Strip(s) == []
  {
    if s != [] {
      assert s[0] in s;
      assert forall c :: c in s[1..] ==> c in s;
      StripNumberChars(s[1..]);
    }
  }

  lemma {:induction false} StripMembers(s: string, c: char)
    requires !IsNumberChar(c)
    ensures c in Strip(s) <==> c in s
  {
    if s != [] {
      StripMembers(s[1..], c);
      assert s == [s[0]] + s[1..];
    }
  }

  /** A character that cannot be part of a number, such as a parenthesis, occurs in the
      processed text exactly when it occurs in the input: text mode adds no note and no
      label. */
  lemma OtherCharactersKept(s: string, c: char)
    requires !IsNumberChar(c)
    ensures c in ProcessText(s) <==> c in s
  {
    StripMembers(ProcessText(s), c);
    StripMembers(s, c);
  }

  /** The text of a float is made of number characters only. */
  lemma ParsedStripped(t: string)
    requires ParseFloat(t).Some?
    ensures Strip(t) == []
  {
    var n := ParseSyntax(t).value;
    TextCharacters(n, Ascii);
    forall c | c in t
      ensures IsNumberChar(c)
    {
      AsciiDigitIsUnicodeDigit(c);
    }
    StripNumberChars(t);
  }

  lemma RenderingStripped(h: int)
    ensures Strip(FormatWithSeparators(h)) == []
  {
    forall c | IsRenderedChar(c)
      ensures IsNumberChar(c)
    {
      AsciiDigitIsUnicodeDigit(c);
    }
    StripNumberChars(FormatWithSeparators(h));
  }

  /** A match is found wherever a numeral of the pattern's shape stands before text that
      cannot continue it. */
  lemma MatchOf(n: Numeral, rest: string)
    requires Shaped(n, Unicode) && n.sign != Plus && n.intDigits != []
    requires StopsNumeral(rest, Unicode)
    ensures MatchAt(Text(n) + rest) == Some(n)
  {
    ScanText(n, rest, Unicode, false);
  }

  /** No match starts at a character that is neither a digit nor a minus sign. */
  lemma NoMatchAtPlain(t: string)
    requires t != [] && !IsUnicodeDigit(t[0]) && t[0] != '-'
    ensures MatchAt(t).None?
  {
    assert ScanSign(t, false) == (NoSign, t);
    assert ScanDigits(t, Unicode).0 == [];
  }

  /** A first character that is neither a digit nor a minus sign is copied. */
  lemma PlainFirst(p: string, s: string)
    requires p != [] && !IsUnicodeDigit(p[0]) && p[0] != '-'
    ensures ProcessText(p + s) == [p[0]] + ProcessText(p[1..] + s)
  {
    var t := p + s;
    assert t[0] == p[0] && t[1..] == p[1..] + s;
    NoMatchAtPlain(t);
    PlainStep(t);
  }

  lemma ConsAppend(p: string, r: string)
    requires p != []
    ensures [p[0]] + (p[1..] + r) == p + r
  {
    assert p == [p[0]] + p[1..];
  }

  /** Text holding no digit and no minus sign is copied through, whatever follows it. */
  lemma {:induction false} PlainTextCopied(p: string, s: string)
    requires forall i :: 0 <= i < |p| ==> !IsUnicodeDigit(p[i]) && p[i] != '-'
    ensures ProcessText(p + s) == p + ProcessText(s)
  {
    if p != [] {
      PlainFirst(p, s);
      PlainTextCopied(p[1..], s);
      ConsAppend(p, ProcessText(s));
    } else {
      assert p + s == s;
    }
  }
}
