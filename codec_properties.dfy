/** What the colour codec promises about its results: the channels a hex
    code denotes, how the code is cleaned before it is read, which codes
    raise, and the round trips between hex codes, CSS text and tuples. */
module CodecProperties {
  import opened Wrappers
  import opened PyText
  import opened PyInt
  import opened PlotHelpers

  // ---------------------------------------------------------------------
  // Reference definitions
  // ---------------------------------------------------------------------

  /** The byte two hex digits spell, high digit first. */
  function HexByte(a: char, b: char): int
    requires IsHexDigit(a) && IsHexDigit(b)
  {
    16 * HexValue(a) + HexValue(b)
  }

  /** The first six characters of `h` are hex digits. */
  predicate SixHexDigits(h: string) {
    |h| >= 6 && forall k :: 0 <= k < 6 ==> IsHexDigit(h[k])
  }

  /** The channels a code of (at least) six hex digits denotes: the bytes
      of its first, second and third pair of digits. */
  function CodeChannels(h: string): Rgb
    requires SixHexDigits(h)
  {
    Rgb(HexByte(h[0], h[1]), HexByte(h[2], h[3]), HexByte(h[4], h[5]))
  }

  /** The code without its leading '#' characters. */
  function Unhashed(code: string): string {
    LStrip(code, {'#'})
  }

  // ---------------------------------------------------------------------
  // hex2rgb
  // ---------------------------------------------------------------------

  /** The first channel read from a code is the byte of its first two
      digits, and so on. */
  lemma ReadPair(h: string, i: nat)
    requires i + 2 <= |h| && IsHexDigit(h[i]) && IsHexDigit(h[i + 1])
    ensures ParseInt(Slice(h, i, i + 2), 16) == Ok(HexByte(h[i], h[i + 1]))
    ensures IsByte(HexByte(h[i], h[i + 1]))
  {
    assert Slice(h, i, i + 2) == [h[i], h[i + 1]];
    ParseTwoHexDigits(h[i], h[i + 1]);
    TwoDigitsValue(h[i], h[i + 1]);
  }

  /** ReadHex returns the three values its slices parse to. */
  lemma ReadHexOf(h: string, csslike: bool, c: Rgb)
    requires ParseInt(Slice(h, 0, 2), 16) == Ok(c.r)
    requires ParseInt(Slice(h, 2, 4), 16) == Ok(c.g)
    requires ParseInt(Slice(h, 4, 6), 16) == Ok(c.b)
    ensures ReadHex(h, csslike) == Ok(RgbEntry(c, csslike))
  {
  }

  /** A cleaned code of six or more hex digits yields the channels of its
      first six digits, each a byte. */
  lemma ReadSixDigits(h: string, csslike: bool)
    requires SixHexDigits(h)
    ensures ReadHex(h, csslike) == Ok(RgbEntry(CodeChannels(h), csslike))
    ensures IsByteRgb(CodeChannels(h))
  {
    var c := CodeChannels(h);
    assert ParseInt(Slice(h, 0, 2), 16) == Ok(c.r) && IsByte(c.r) by { ReadPair(h, 0); }
    assert ParseInt(Slice(h, 2, 4), 16) == Ok(c.g) && IsByte(c.g) by { ReadPair(h, 2); }
    assert ParseInt(Slice(h, 4, 6), 16) == Ok(c.b) && IsByte(c.b) by { ReadPair(h, 4); }
    ReadHexOf(h, csslike, c);
  }

  /** A code whose digits after the '#'s are six or more hex digits yields
      the bytes of the pairs [0:2], [2:4] and [4:6]; digits past the sixth
      are ignored. */
  lemma SixDigitCode(code: string, csslike: bool)
    requires SixHexDigits(Unhashed(code))
    ensures HexToRgbCode(code, csslike) == Ok(RgbEntry(CodeChannels(Unhashed(code)), csslike))
    ensures IsByteRgb(CodeChannels(Unhashed(code)))
  {
    assert CleanHex(code) == Unhashed(code);
    ReadSixDigits(Unhashed(code), csslike);
  }

  /** Leading '#' characters, any number of them, do not change the result. */
  lemma LeadingHashesIgnored(hashes: string, code: string, csslike: bool)
    requires forall k :: 0 <= k < |hashes| ==> hashes[k] == '#'
    ensures HexToRgbCode(hashes + code, csslike) == HexToRgbCode(code, csslike)
  {
    LStripDropsPrefix(hashes, code, {'#'});
  }

  /** A three-character code reads as its six-character form with every
      character doubled ("#ABC" as "#AABBCC"), whatever the characters are. */
  lemma ShorthandExpands(code: string, csslike: bool)
    requires |Unhashed(code)| == 3
    ensures HexToRgbCode(code, csslike) == HexToRgbCode(DoubleEach(Unhashed(code)), csslike)
  {
    var h := Unhashed(code);
    var d := DoubleEach(h);
    assert d[0] == h[0] && h[0] != '#';
    assert LStrip(d, {'#'}) == d;
    assert CleanHex(d) == d == CleanHex(code);
  }

  /** A three-hex-digit code yields channels 17 times its digits' values:
      "#ABC" is (170, 187, 204). */
  lemma ThreeDigitCode(code: string, csslike: bool)
    requires |Unhashed(code)| == 3 && forall k :: 0 <= k < 3 ==> IsHexDigit(Unhashed(code)[k])
    ensures var h := Unhashed(code);
            HexToRgbCode(code, csslike) ==
              Ok(RgbEntry(Rgb(17 * HexValue(h[0]), 17 * HexValue(h[1]), 17 * HexValue(h[2])), csslike))
  {
    var h := Unhashed(code);
    var d := DoubleEach(h);
    var c := Rgb(17 * HexValue(h[0]), 17 * HexValue(h[1]), 17 * HexValue(h[2]));
    assert ReadHex(d, csslike) == Ok(RgbEntry(c, csslike)) by {
      assert SixHexDigits(d) && CodeChannels(d) == c by {
        assert d[0] == d[1] == h[0] && d[2] == d[3] == h[1] && d[4] == d[5] == h[2];
      }
      ReadSixDigits(d, csslike);
    }
    assert CleanHex(code) == d;
  }

  /** Five hex digits are read as two bytes and a last channel of one
      digit. */
  lemma ReadLastDigit(h: string)
    requires |h| == 5 && IsHexDigit(h[4])
    ensures ParseInt(Slice(h, 4, 6), 16) == Ok(HexValue(h[4]) as int)
  {
    assert Slice(h, 4, 6) == [h[4]];
    ParseOneHexDigit(h[4]);
  }

  lemma ReadFiveDigits(h: string, csslike: bool)
    requires |h| == 5 && forall k :: 0 <= k < 5 ==> IsHexDigit(h[k])
    ensures ReadHex(h, csslike) ==
              Ok(RgbEntry(Rgb(HexByte(h[0], h[1]), HexByte(h[2], h[3]), HexValue(h[4])), csslike))
  {
    var c := Rgb(HexByte(h[0], h[1]), HexByte(h[2], h[3]), HexValue(h[4]));
    assert ParseInt(Slice(h, 0, 2), 16) == Ok(c.r) by { ReadPair(h, 0); }
    assert ParseInt(Slice(h, 2, 4), 16) == Ok(c.g) by { ReadPair(h, 2); }
    assert ParseInt(Slice(h, 4, 6), 16) == Ok(c.b) by { ReadLastDigit(h); }
    ReadHexOf(h, csslike, c);
  }

  /** A code of five hex digits does not raise: its last channel is read
      from the single digit left over. */
  lemma FiveDigitCode(code: string, csslike: bool)
    requires |Unhashed(code)| == 5 && forall k :: 0 <= k < 5 ==> IsHexDigit(Unhashed(code)[k])
    ensures var h := Unhashed(code);
            HexToRgbCode(code, csslike) ==
              Ok(RgbEntry(Rgb(HexByte(h[0], h[1]), HexByte(h[2], h[3]), HexValue(h[4])), csslike))
  {
    assert CleanHex(code) == Unhashed(code);
    ReadFiveDigits(Unhashed(code), csslike);
  }

  /** A code of 0, 1, 2 or 4 characters after its '#'s raises: its third
      slice, or an earlier one, is empty or not hexadecimal. */
  lemma ShortCodeRaises(code: string, csslike: bool)
    requires |Unhashed(code)| in {0, 1, 2, 4}
    ensures HexToRgbCode(code, csslike).Err?
  {
    var h := CleanHex(code);
    assert |h| < 5;
    ReadHexErrors(h, csslike);
  }

  /** A slice that `int` rejects makes the whole read raise, whichever of
      the three it is. */
  lemma ReadHexRaises(h: string, csslike: bool, p: nat)
    requires p == 0 || p == 2 || p == 4
    requires ParseInt(Slice(h, p, p + 2), 16).Err?
    ensures ReadHex(h, csslike).Err?
  {
  }

  /** Reading needs at least five characters, and whatever it raises is
      `int` rejecting one of the three slices in base 16, a piece of at most
      two characters. */
  lemma ReadHexErrors(h: string, csslike: bool)
    ensures ReadHex(h, csslike).Ok? ==> |h| >= 5
    ensures ReadHex(h, csslike).Err? ==>
              var e := ReadHex(h, csslike).error;
              && (e == InvalidLiteral(Slice(h, 0, 2), 16) || e == InvalidLiteral(Slice(h, 2, 4), 16) ||
                  e == InvalidLiteral(Slice(h, 4, 6), 16))
              && |e.text| <= 2
  {
    if |h| < 5 {
      assert Slice(h, 4, 6) == [];
      ParseNeedsDigit([], 16);
    }
  }

  /** A cleaned code never has three characters nor a leading '#'. */
  lemma CleanHexShape(code: string)
    ensures |CleanHex(code)| != 3
    ensures CleanHex(code) == [] || CleanHex(code)[0] != '#'
  {
  }

  /** What hex2rgb raises for a code is ValueError from `int` in base 16 on
      a piece of at most two characters of the cleaned code. */
  lemma HexToRgbCodeErrors(code: string, csslike: bool)
    ensures HexToRgbCode(code, csslike).Err? ==>
              var e := HexToRgbCode(code, csslike).error;
              e.InvalidLiteral? && e.base == 16 && |e.text| <= 2
  {
    ReadHexErrors(CleanHex(code), csslike);
  }

  /** A cleaned code with, among its first six characters, one that no
      integer literal holds ('g', '#', ',' ...) raises. */
  lemma NonHexCodeRaises(code: string, csslike: bool, k: nat)
    requires k < 6 && k < |CleanHex(code)| && NotLiteralChar(CleanHex(code)[k])
    ensures HexToRgbCode(code, csslike).Err?
  {
    ReadHexRejects(CleanHex(code), csslike, k);
  }

  /** The same for a cleaned code: the slice holding the character raises. */
  lemma ReadHexRejects(h: string, csslike: bool, k: nat)
    requires k < 6 && k < |h| && NotLiteralChar(h[k])
    ensures ReadHex(h, csslike).Err?
  {
    var p := if k < 2 then 0 else if k < 4 then 2 else 4;
    var piece := Slice(h, p, p + 2);
    assert k - p < |piece| && piece[k - p] == h[k];
    ParseRejects(piece, 16, k - p);
    ReadHexRaises(h, csslike, p);
  }

  /** The flag changes only the form of the entry: both forms raise on the
      same codes with the same error, and the text is the CSS form of the
      tuple. */
  lemma CsslikeAgrees(code: string)
    ensures HexToRgbCode(code, true).Ok? <==> HexToRgbCode(code, false).Ok?
    ensures HexToRgbCode(code, true).Err? ==>
              HexToRgbCode(code, true).error == HexToRgbCode(code, false).error
    ensures HexToRgbCode(code, false).Ok? ==>
              && HexToRgbCode(code, false).value.Channels?
              && HexToRgbCode(code, true).value ==
                   CssText(CssString(HexToRgbCode(code, false).value.rgb))
  {
    ReadHexFlag(CleanHex(code));
  }

  /** Reading a cleaned code with either flag. */
  lemma ReadHexFlag(h: string)
    ensures ReadHex(h, true).Ok? <==> ReadHex(h, false).Ok?
    ensures ReadHex(h, true).Err? ==> ReadHex(h, true).error == ReadHex(h, false).error
    ensures ReadHex(h, false).Ok? ==>
              && ReadHex(h, false).value.Channels?
              && ReadHex(h, true).value == CssText(CssString(ReadHex(h, false).value.rgb))
  {
  }

  // ---------------------------------------------------------------------
  // CSS text: rgb_string_to_tuple and the reading half of rgb2hex
  // ---------------------------------------------------------------------

  /** The text between the brackets of CssString(c). */
  function CssBody(c: Rgb): string {
    FormatDec(c.r) + ", " + FormatDec(c.g) + ", " + FormatDec(c.b)
  }

  /** The characters CSS text has between its brackets. */
  predicate IsBodyChar(ch: char) {
    ch == '-' || '0' <= ch <= '9' || ch == ',' || ch == ' '
  }

  predicate BodyText(s: string) {
    forall k :: 0 <= k < |s| ==> IsBodyChar(s[k])
  }

  /** Text made only of decimal digits and minus signs: no commas. */
  predicate NumberText(s: string) {
    BodyText(s) && forall k :: 0 <= k < |s| ==> s[k] != ','
  }

  lemma FormatDecIsNumberText(n: int)
    ensures NumberText(FormatDec(n)) && NumberText(" " + FormatDec(n))
  {
    var f := FormatDec(n);
    forall k | 0 <= k < |f|
      ensures f[k] == '-' || '0' <= f[k] <= '9'
    {
      if k > 0 || f[0] != '-' {
        assert IsDigitIn(f[k], 10);
      }
    }
  }

  lemma BodyTextConcat(a: string, b: string)
    requires BodyText(a) && BodyText(b)
    ensures BodyText(a + b)
  {
  }

  /** The body of CSS text holds no bracket and no 'r'. */
  lemma CssBodyShape(c: Rgb)
    ensures CssString(c) == "rgb(" + CssBody(c) + ")"
    ensures BodyText(CssBody(c))
  {
    var red, green, blue := FormatDec(c.r), FormatDec(c.g), FormatDec(c.b);
    assert BodyText(CssBody(c)) by {
      FormatDecIsNumberText(c.r);
      FormatDecIsNumberText(c.g);
      FormatDecIsNumberText(c.b);
      BodyOfNumbers(red, green, blue);
    }
    assert CssString(c) == "rgb(" + CssBody(c) + ")" by {
      BracketsAround(red, green, blue);
    }
  }

  lemma BracketsAround(red: string, green: string, blue: string)
    ensures "rgb(" + red + ", " + green + ", " + blue + ")" ==
            "rgb(" + (red + ", " + green + ", " + blue) + ")"
  {
  }

  /** Three numbers joined by ", " are body text. */
  lemma BodyOfNumbers(red: string, green: string, blue: string)
    requires NumberText(red) && NumberText(green) && NumberText(blue)
    ensures BodyText(red + ", " + green + ", " + blue)
  {
    BodyTextConcat(red, ", ");
    BodyTextConcat(red + ", ", green);
    BodyTextConcat(red + ", " + green, ", ");
    BodyTextConcat(red + ", " + green + ", ", blue);
  }

  /** Deleting "rgb(" and ")" from CSS text leaves its body. */
  lemma CssInnerOfCssString(c: Rgb)
    ensures CssInner(CssString(c)) == CssBody(c)
  {
    var body := CssBody(c);
    assert Remove(CssString(c), "rgb(") == body + ")" by {
      CssBodyShape(c);
      assert CssString(c) == "rgb(" + (body + ")");
      assert forall k :: 0 <= k < |body + ")"| ==> (body + ")")[k] != 'r';
      RemoveLeading("rgb(", body + ")");
    }
    assert Remove(body + ")", ")") == body by {
      CssBodyShape(c);
      RemoveTrailing(body, ")");
    }
  }

  /** Two numbers joined by ", " split back into the two, the second
      behind its space. */
  lemma SplitTwoNumbers(head: string, last: string)
    requires NumberText(head) && NumberText(last)
    ensures Split(head + ", " + last, ',') == [head, " " + last]
  {
    assert head + ", " + last == head + [','] + (" " + last);
    SplitFirst(head, ',', " " + last);
    assert forall k :: 0 <= k < |" " + last| ==> (" " + last)[k] != ',';
    SplitNone(" " + last, ',');
  }

  lemma SplitAtFirstSeparator(a: string, b: string, c: string)
    ensures a + ", " + b + ", " + c == a + [','] + (" " + b + ", " + c)
  {
  }

  /** The body of CSS text splits on ',' into the three numbers, the second
      and third behind their space. */
  lemma SplitCssBody(c: Rgb)
    ensures Split(CssBody(c), ',') == [FormatDec(c.r), " " + FormatDec(c.g), " " + FormatDec(c.b)]
  {
    var red, green, blue := FormatDec(c.r), FormatDec(c.g), FormatDec(c.b);
    var tail := " " + green + ", " + blue;
    assert Split(CssBody(c), ',') == [red] + Split(tail, ',') by {
      FormatDecIsNumberText(c.r);
      SplitAtFirstSeparator(red, green, blue);
      SplitFirst(red, ',', tail);
    }
    assert Split(tail, ',') == [" " + green, " " + blue] by {
      FormatDecIsNumberText(c.g);
      FormatDecIsNumberText(c.b);
      SplitTwoNumbers(" " + green, blue);
    }
  }

  /** The numbers of CSS text read back as the channels it was made from. */
  lemma ParseCssParts(c: Rgb)
    ensures ParseInt(FormatDec(c.r), 10) == Ok(c.r)
    ensures ParseInt(" " + FormatDec(c.g), 10) == Ok(c.g)
    ensures ParseInt(" " + FormatDec(c.b), 10) == Ok(c.b)
  {
    ParseFormatDec([], c.r);
    assert [] + FormatDec(c.r) == FormatDec(c.r);
    ParseFormatDec(" ", c.g);
    ParseFormatDec(" ", c.b);
  }

  /** rgb_string_to_tuple reads back what hex2rgb writes with csslike=True,
      for every triple of integers. */
  lemma CssStringParses(c: Rgb)
    ensures RgbStringToTuple(CssString(c)) == Ok(c)
  {
    CssInnerOfCssString(c);
    SplitCssBody(c);
    ParseCssParts(c);
  }

  /** rgb2hex finds the brackets of CSS text at its fourth and last
      characters and reads the channels between them. */
  lemma ParseRgbTextOfCss(c: Rgb)
    ensures ParseRgbText(CssString(c)) == Ok(c)
  {
    var s := CssString(c);
    var parts := [FormatDec(c.r), " " + FormatDec(c.g), " " + FormatDec(c.b)];
    assert Index(s, '(') == Ok(3) && Index(s, ')') == Ok(|s| - 1) by {
      CssBrackets(c);
    }
    assert Split(Slice(s, 3 + 1, |s| - 1), ',') == parts by {
      CssBrackets(c);
      SplitCssBody(c);
    }
    ParseRgbTextOf(s, 3, |s| - 1, parts);
    assert UnpackThreeInts(parts) == Ok(c) by {
      ParseCssParts(c);
      UnpackThree(parts[0], parts[1], parts[2], c);
    }
  }

  /** rgb2hex raises ValueError for a missing '(' first, then for a missing
      ')'; it reads only text holding both. */
  lemma ParseRgbTextNeedsBrackets(code: string)
    ensures '(' !in code ==> ParseRgbText(code) == Err(SubstringNotFound("("))
    ensures '(' in code && ')' !in code ==> ParseRgbText(code) == Err(SubstringNotFound(")"))
    ensures ParseRgbText(code).Ok? ==> '(' in code && ')' in code
  {
  }

  /** rgb2hex unpacks the pieces between the brackets it finds. */
  lemma ParseRgbTextOf(code: string, open: int, close: int, parts: seq<string>)
    requires Index(code, '(') == Ok(open) && Index(code, ')') == Ok(close)
    requires Split(Slice(code, open + 1, close), ',') == parts
    ensures ParseRgbText(code) == UnpackThreeInts(parts)
  {
    var o, c := Index(code, '('), Index(code, ')');
    assert !o.IsFailure() && !c.IsFailure();
  }

  /** Three pieces that read as the channels of `c` unpack to `c`. */
  lemma UnpackThree(a: string, b: string, d: string, c: Rgb)
    requires ParseInt(a, 10) == Ok(c.r) && ParseInt(b, 10) == Ok(c.g) && ParseInt(d, 10) == Ok(c.b)
    ensures UnpackThreeInts([a, b, d]) == Ok(c)
  {
  }

  /** rgb2hex finds the '(' of CSS text at its fourth character and the
      ')' at its last, with the body between them. */
  lemma CssBrackets(c: Rgb)
    ensures var s := CssString(c);
            && Index(s, '(') == Ok(3)
            && Index(s, ')') == Ok(|s| - 1)
            && Slice(s, 4, |s| - 1) == CssBody(c)
  {
    CssBodyShape(c);
    BracketsOf(CssBody(c));
  }

  /** Text between "rgb(" and ")" that holds no bracket is what rgb2hex
      takes from between the brackets. */
  lemma BracketsOf(body: string)
    requires BodyText(body)
    ensures var s := "rgb(" + body + ")";
            && Index(s, '(') == Ok(3)
            && Index(s, ')') == Ok(|s| - 1)
            && Slice(s, 4, |s| - 1) == body
  {
    var s := "rgb(" + body + ")";
    assert forall j :: 4 <= j < |s| - 1 ==> s[j] == body[j - 4];
    IndexOfFirst(s, '(', 3);
    IndexOfFirst(s, ')', |s| - 1);
    assert s[4..|s| - 1] == body;
  }

  /** rgb2hex turns CSS text into the hex code of its channels. */
  lemma RgbTextToHexOfCss(c: Rgb)
    ensures RgbTextToHex(CssString(c)) == Ok(HexString(c))
  {
    ParseRgbTextOfCss(c);
  }

  /** rgb_string_to_tuple needs exactly two commas in its argument (neither
      "rgb(" nor ")" holds one): with fewer it raises for too few values,
      with more for too many, before any piece is read. */
  lemma TupleNeedsTwoCommas(s: string)
    ensures Count(s, ',') < 2 ==> RgbStringToTuple(s) == Err(NotEnoughValues(3, Count(s, ',') + 1))
    ensures Count(s, ',') > 2 ==> RgbStringToTuple(s) == Err(TooManyValues(3))
  {
    RemoveKeepsCount(s, "rgb(", ',');
    RemoveKeepsCount(Remove(s, "rgb("), ")", ',');
  }

  /** A tuple read from text is normalised into [0, 1] when its channels
      are bytes. */
  lemma NormalizedInUnitRange(s: string)
    requires RgbStringToTuple(s).Ok? && IsByteRgb(RgbStringToTuple(s).value)
    ensures RgbStringToNormalizedTuple(s).Ok?
    ensures var n := RgbStringToNormalizedTuple(s).value;
            0.0 <= n.r <= 1.0 && 0.0 <= n.g <= 1.0 && 0.0 <= n.b <= 1.0
  {
    assert FitsFloatRgb(RgbStringToTuple(s).value);
  }

  /** The normalised tuple is the tuple with each channel divided by 255,
      when every channel is in float range. */
  lemma NormalizedOfTuple(s: string, c: Rgb)
    requires RgbStringToTuple(s) == Ok(c) && FitsFloatRgb(c)
    ensures RgbStringToNormalizedTuple(s) ==
              Ok(Normalized(c.r as real / 255.0, c.g as real / 255.0, c.b as real / 255.0))
  {
  }

  /** A channel beyond float range makes the division raise OverflowError. */
  lemma NormalizedOverflows(s: string, c: Rgb)
    requires RgbStringToTuple(s) == Ok(c) && !FitsFloatRgb(c)
    ensures RgbStringToNormalizedTuple(s) == Err(IntTooLargeForFloat)
  {
  }

  /** The normalised tuple of CSS text is its channels divided by 255. */
  lemma NormalizedOfCssString(c: Rgb)
    ensures FitsFloatRgb(c) ==>
              RgbStringToNormalizedTuple(CssString(c)) ==
              Ok(Normalized(c.r as real / 255.0, c.g as real / 255.0, c.b as real / 255.0))
    ensures !FitsFloatRgb(c) ==> RgbStringToNormalizedTuple(CssString(c)) == Err(IntTooLargeForFloat)
  {
    CssStringParses(c);
    if FitsFloatRgb(c) {
      NormalizedOfTuple(CssString(c), c);
    } else {
      NormalizedOverflows(CssString(c), c);
    }
  }

  /** hex2rgb's two output forms agree: the CSS text written for a code
      reads back, through rgb_string_to_tuple, as the tuple written for it. */
  lemma CssAgreesWithTuple(code: string)
    requires HexToRgbCode(code, true).Ok?
    ensures HexToRgbCode(code, false).Ok? && HexToRgbCode(code, true).value.CssText?
    ensures RgbStringToTuple(HexToRgbCode(code, true).value.text) ==
              Ok(HexToRgbCode(code, false).value.rgb)
  {
    CsslikeAgrees(code);
    CssStringParses(HexToRgbCode(code, false).value.rgb);
  }

  // ---------------------------------------------------------------------
  // Hex codes written by rgb2hex, and the round trips
  // ---------------------------------------------------------------------

  /** "#" followed by six upper-case hex digits. */
  predicate UpperHexCode(s: string) {
    && |s| == 7
    && s[0] == '#'
    && forall k :: 1 <= k < 7 ==> IsHexDigit(s[k]) && !('a' <= s[k] <= 'z')
  }

  /** rgb2hex writes byte channels as "#" and six upper-case hex digits. */
  lemma HexStringShape(c: Rgb)
    requires IsByteRgb(c)
    ensures UpperHexCode(HexString(c))
  {
  }

  /** An upper-case hex digit is the upper-case form of every hex digit of
      the same value. */
  lemma UpperHexDigit(c: char, d: char)
    requires IsHexDigit(c) && IsHexDigit(d) && !('a' <= d <= 'z')
    requires HexValue(c) == HexValue(d)
    ensures d == UpperChar(c)
  {
  }

  /** Upper-casing a hex digit keeps it a hex digit of the same value. */
  lemma UpperKeepsHexValue(c: char)
    requires IsHexDigit(c)
    ensures IsHexDigit(UpperChar(c)) && HexValue(UpperChar(c)) == HexValue(c)
  {
  }

  /** Formatting the byte of two hex digits writes those digits again,
      upper-cased. */
  lemma Format02XOfHexByte(a: char, b: char)
    requires IsHexDigit(a) && IsHexDigit(b)
    ensures Format02X(HexByte(a, b)) == [UpperChar(a), UpperChar(b)]
  {
    var n := HexByte(a, b);
    TwoDigitsValue(a, b);
    var r := Format02X(n);
    assert HexValue(r[0]) == HexValue(a) && HexValue(r[1]) == HexValue(b);
    UpperHexDigit(a, r[0]);
    UpperHexDigit(b, r[1]);
  }

  /** The hex code rgb2hex writes for the channels of a six-digit code is
      that code upper-cased behind a '#'. */
  lemma HexStringOfCode(h: string)
    requires |h| == 6 && SixHexDigits(h)
    ensures HexString(CodeChannels(h)) == "#" + Upper(h)
  {
    var c := CodeChannels(h);
    var u := Upper(h);
    assert Format02X(c.r) == [u[0], u[1]] by {
      Format02XOfHexByte(h[0], h[1]);
    }
    assert Format02X(c.g) == [u[2], u[3]] by {
      Format02XOfHexByte(h[2], h[3]);
    }
    assert Format02X(c.b) == [u[4], u[5]] by {
      Format02XOfHexByte(h[4], h[5]);
    }
    HexStringOfDigits(c, u);
  }

  /** The code written for channels whose pairs of digits are those of `u`. */
  lemma HexStringOfDigits(c: Rgb, u: string)
    requires |u| == 6
    requires Format02X(c.r) == [u[0], u[1]] && Format02X(c.g) == [u[2], u[3]]
    requires Format02X(c.b) == [u[4], u[5]]
    ensures HexString(c) == "#" + u
  {
    PairsOfSix(u);
  }

  lemma PairsOfSix(u: string)
    requires |u| == 6
    ensures [u[0], u[1]] + [u[2], u[3]] + [u[4], u[5]] == u
  {
  }

  /** What hex2rgb reads from a code rgb2hex wrote: the six digits behind
      the '#', which spell the channels again. */
  lemma CleanHexString(c: Rgb)
    requires IsByteRgb(c)
    ensures CleanHex(HexString(c)) == HexString(c)[1..]
    ensures SixHexDigits(HexString(c)[1..]) && CodeChannels(HexString(c)[1..]) == c
  {
    var s := HexString(c);
    var d := s[1..];
    HexStringShape(c);
    assert LStrip(d, {'#'}) == d;
    assert d == Format02X(c.r) + Format02X(c.g) + Format02X(c.b);
  }

  /** hex2rgb reads back the code rgb2hex writes for byte channels. */
  lemma HexStringReadBack(c: Rgb, csslike: bool)
    requires IsByteRgb(c)
    ensures HexToRgbCode(HexString(c), csslike) == Ok(RgbEntry(c, csslike))
  {
    CleanHexString(c);
    ReadSixDigits(HexString(c)[1..], csslike);
  }

  /** hex2rgb with csslike=True followed by rgb2hex gives back the cleaned
      code upper-cased behind one '#': "#009480" and "009480" both come back
      as "#009480", "#abc" as "#AABBCC". */
  lemma HexRoundTrip(code: string)
    requires |CleanHex(code)| == 6 && SixHexDigits(CleanHex(code))
    ensures HexToRgbCode(code, true).Ok? && HexToRgbCode(code, true).value.CssText?
    ensures RgbTextToHex(HexToRgbCode(code, true).value.text) == Ok("#" + Upper(CleanHex(code)))
  {
    HexEntryRoundTrip(code);
  }

  /** The entry hex2rgb writes for a six-digit code, and the code rgb2hex
      writes for that entry. */
  lemma HexEntryRoundTrip(code: string)
    requires |CleanHex(code)| == 6 && SixHexDigits(CleanHex(code))
    ensures var text := CssString(CodeChannels(CleanHex(code)));
            && HexToRgbStep(true)(code) == Ok(CssText(text))
            && RgbTextToHex(text) == Ok("#" + Upper(CleanHex(code)))
  {
    var h := CleanHex(code);
    ReadSixDigits(h, true);
    RgbTextToHexOfCss(CodeChannels(h));
    HexStringOfCode(h);
  }

  /** The CSS texts of a list of hex2rgb entries that are all texts. */
  function Texts(entries: seq<RgbCode>): (texts: seq<string>)
    requires forall i :: 0 <= i < |entries| ==> entries[i].CssText?
    ensures |texts| == |entries|
    ensures forall i :: 0 <= i < |entries| ==> entries[i] == CssText(texts[i])
  {
    seq(|entries|, i requires 0 <= i < |entries| => entries[i].text)
  }

  /** The round trip over a whole list: rgb2hex(hex2rgb(codes)) is the list
      of cleaned codes, upper-cased behind one '#', in the same order. */
  lemma HexListRoundTrip(codes: seq<string>)
    requires forall i :: 0 <= i < |codes| ==> |CleanHex(codes[i])| == 6 && SixHexDigits(CleanHex(codes[i]))
    ensures HexToRgbAll(codes, true).Ok?
    ensures forall i :: 0 <= i < |HexToRgbAll(codes, true).value| ==>
              HexToRgbAll(codes, true).value[i].CssText?
    ensures RgbToHexAll(Texts(HexToRgbAll(codes, true).value)) ==
              Ok(seq(|codes|, i requires 0 <= i < |codes| => "#" + Upper(CleanHex(codes[i]))))
  {
    var expected := seq(|codes|, i requires 0 <= i < |codes| => "#" + Upper(CleanHex(codes[i])));
    var channels := seq(|codes|, i requires 0 <= i < |codes| => CodeChannels(CleanHex(codes[i])));
    var texts := seq(|codes|, i requires 0 <= i < |codes| => CssString(channels[i]));
    var entries := seq(|codes|, i requires 0 <= i < |codes| => CssText(texts[i]));
    assert HexToRgbAll(codes, true) == Ok(entries) by {
      forall i | 0 <= i < |codes|
        ensures HexToRgbStep(true)(codes[i]) == Ok(entries[i])
      {
        HexEntryRoundTrip(codes[i]);
      }
      MapAllOfValues(HexToRgbStep(true), codes, entries);
    }
    assert Texts(entries) == texts;
    assert RgbToHexAll(texts) == Ok(expected) by {
      forall i | 0 <= i < |codes|
        ensures RgbTextToHex(texts[i]) == Ok(expected[i])
      {
        HexEntryRoundTrip(codes[i]);
      }
      MapAllOfValues(RgbTextToHex, texts, expected);
    }
  }

  /** Every code rgb2hex writes for text whose channels are bytes is "#"
      and six upper-case hex digits. */
  lemma RgbTextToHexShape(code: string)
    requires ParseRgbText(code).Ok? && IsByteRgb(ParseRgbText(code).value)
    ensures RgbTextToHex(code).Ok? && UpperHexCode(RgbTextToHex(code).value)
  {
    HexStringShape(ParseRgbText(code).value);
  }
}
