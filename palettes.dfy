/** Two of the palettes defined next to the codec, and what the codec does
    with some concrete codes, worked out from the general lemmas. */
module Palettes {
  import opened Wrappers
  import opened PyText
  import opened PyInt
  import opened PlotHelpers
  import opened CodecProperties

  /** The 1960s palette from GraphPad Prism: upper-case six-digit codes. */
  const Prism1960s: seq<string> :=
    ["#7BB44F", "#15A6EC", "#F5C02C", "#EE2926", "#961192", "#16325C"]

  /** The accent palette: lower-case six-digit codes. */
  const Accent: seq<string> :=
    ["#7fc97f", "#beaed4", "#fdc086", "#ffff99", "#386cb0", "#f0027f", "#bf5b17", "#666666"]

  /** "#ABC" is read as "#AABBCC", the channels (170, 187, 204). */
  lemma ShorthandExample()
    ensures HexToRgbCode("#ABC", false) == Ok(Channels(Rgb(170, 187, 204)))
  {
    ShorthandDigits("#ABC", 'A', 'B', 'C');
    assert HexValue('A') == 10 && HexValue('B') == 11 && HexValue('C') == 12;
  }

  /** A '#' and three hex digits: each digit is read twice over. */
  lemma ShorthandDigits(code: string, a: char, b: char, c: char)
    requires code == ['#', a, b, c] && IsHexDigit(a) && IsHexDigit(b) && IsHexDigit(c)
    ensures HexToRgbCode(code, false) == Ok(Channels(Rgb(17 * HexValue(a), 17 * HexValue(b), 17 * HexValue(c))))
  {
    assert Unhashed(code) == code[1..] by {
      assert code[1..][0] != '#';
    }
    ThreeDigitCode(code, false);
  }

  /** With csslike=True, "#ABC" gives the text "rgb(170, 187, 204)". */
  lemma ShorthandCssExample()
    ensures HexToRgbCode("#ABC", true) == Ok(CssText("rgb(170, 187, 204)"))
  {
    ShorthandCssForm();
    ThreeDecimalDigits(170, 1, 7, 0, '1', '7', '0');
    ThreeDecimalDigits(187, 1, 8, 7, '1', '8', '7');
    ThreeDecimalDigits(204, 2, 0, 4, '2', '0', '4');
    SpelledOut(FormatDec(170), FormatDec(187), FormatDec(204));
  }

  /** The three numbers spelled out inside "rgb(...)". */
  lemma SpelledOut(red: string, green: string, blue: string)
    requires red == "170" && green == "187" && blue == "204"
    ensures "rgb(" + red + ", " + green + ", " + blue + ")" == "rgb(170, 187, 204)"
  {
  }

  /** The CSS form of "#ABC" is the CSS text of its channels. */
  lemma ShorthandCssForm()
    ensures HexToRgbCode("#ABC", true) == Ok(CssText(CssString(Rgb(170, 187, 204))))
  {
    ShorthandExample();
    CsslikeAgrees("#ABC");
  }

  /** The decimal text of a number with three digits. */
  lemma ThreeDecimalDigits(n: nat, x: nat, y: nat, z: nat, a: char, b: char, c: char)
    requires 1 <= x < 10 && y < 10 && z < 10 && n == 100 * x + 10 * y + z
    requires a == DigitChar(x) && b == DigitChar(y) && c == DigitChar(z)
    ensures FormatDec(n) == [a, b, c]
  {
    assert n / 10 == 10 * x + y && n % 10 == z;
    assert (10 * x + y) / 10 == x && (10 * x + y) % 10 == y;
    assert NatDigits(10 * x + y, 10) == [a, b];
  }

  /** A five-digit code does not raise: "12345" is (18, 52, 5). */
  lemma FiveDigitExample()
    ensures HexToRgbCode("12345", false) == Ok(Channels(Rgb(18, 52, 5)))
  {
    assert Unhashed("12345") == "12345";
    assert HexByte('1', '2') == 18 && HexByte('3', '4') == 52 && HexValue('5') == 5;
    FiveDigitCode("12345", false);
  }

  /** A palette entry: '#' and six hex digits. */
  predicate IsHashedSixDigitCode(code: string) {
    |code| == 7 && code[0] == '#' && SixHexDigits(code[1..])
  }

  predicate HasNoLowerCase(s: string) {
    forall k :: 0 <= k < |s| ==> !IsLower(s[k])
  }

  /** The accent palette holds only '#' and six hex digits. */
  lemma AccentCodesAreHashed()
    ensures forall i :: 0 <= i < |Accent| ==> IsHashedSixDigitCode(Accent[i])
  {
  }

  /** The 1960s palette holds only '#' and six hex digits, in upper case. */
  lemma PrismCodesAreUpperCase()
    ensures forall i :: 0 <= i < |Prism1960s| ==>
              IsHashedSixDigitCode(Prism1960s[i]) && HasNoLowerCase(Prism1960s[i])
  {
  }

  /** hex2rgb cleans such a code to its six digits. */
  lemma CleanHashedCode(code: string)
    requires IsHashedSixDigitCode(code)
    ensures CleanHex(code) == code[1..]
  {
    assert code[1..][0] != '#';
  }

  /** hex2rgb then rgb2hex on a palette code gives the code back with its
      digits upper-cased: "#7fc97f" of the accent palette comes back as
      "#7FC97F". */
  lemma HashedCodeRoundTrip(code: string)
    requires IsHashedSixDigitCode(code)
    ensures HexToRgbCode(code, true).Ok? && HexToRgbCode(code, true).value.CssText?
    ensures RgbTextToHex(HexToRgbCode(code, true).value.text) == Ok("#" + Upper(code[1..]))
  {
    CleanHashedCode(code);
    HexRoundTrip(code);
  }

  /** A palette code without lower-case letters, such as every code of the
      1960s palette, comes back from the round trip unchanged. */
  lemma UpperCaseCodeRoundTrip(code: string)
    requires IsHashedSixDigitCode(code) && HasNoLowerCase(code)
    ensures HexToRgbCode(code, true).Ok? && HexToRgbCode(code, true).value.CssText?
    ensures RgbTextToHex(HexToRgbCode(code, true).value.text) == Ok(code)
  {
    HashedCodeRoundTrip(code);
    UpperOfNoLowerCase(code);
  }

  /** Upper-casing the digits of a code without lower-case letters changes
      nothing. */
  lemma UpperOfNoLowerCase(code: string)
    requires |code| >= 1 && code[0] == '#' && HasNoLowerCase(code)
    ensures "#" + Upper(code[1..]) == code
  {
    UpperFixesUpperCase(code[1..]);
  }

  /** hex2rgb with csslike=True followed by rgb2hex takes `code` to `back`. */
  predicate RoundTripsTo(code: string, back: string) {
    && HexToRgbCode(code, true).Ok?
    && HexToRgbCode(code, true).value.CssText?
    && RgbTextToHex(HexToRgbCode(code, true).value.text) == Ok(back)
  }

  /** Every code of the accent palette comes back from the round trip
      upper-cased. */
  lemma AccentRoundTrip()
    ensures forall i :: 0 <= i < |Accent| ==> RoundTripsTo(Accent[i], "#" + Upper(Accent[i][1..]))
  {
    AccentCodesAreHashed();
    forall i | 0 <= i < |Accent|
      ensures RoundTripsTo(Accent[i], "#" + Upper(Accent[i][1..]))
    {
      HashedCodeRoundTrip(Accent[i]);
    }
  }

  /** Every code of the 1960s palette comes back from the round trip
      unchanged. */
  lemma PrismRoundTrip()
    ensures forall i :: 0 <= i < |Prism1960s| ==> RoundTripsTo(Prism1960s[i], Prism1960s[i])
  {
    PrismCodesAreUpperCase();
    forall i | 0 <= i < |Prism1960s|
      ensures RoundTripsTo(Prism1960s[i], Prism1960s[i])
    {
      UpperCaseCodeRoundTrip(Prism1960s[i]);
    }
  }
}
