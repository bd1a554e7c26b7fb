/** The colour-code codec of STForte's plotting helpers: hex codes to RGB
    (as "rgb(r, g, b)" text or as an integer triple), RGB text back to
    upper-case hex codes, and the parse of "rgb(r, g, b)" text into a triple. */
module PlotHelpers {
  import opened Wrappers
  import opened PyText
  import opened PyInt

  /** The tuple (r, g, b) of Python ints. */
  datatype Rgb = Rgb(r: int, g: int, b: int)

  /** One entry of hex2rgb's result: "rgb(r, g, b)" text when `csslike`,
      otherwise the tuple. */
  datatype RgbCode = CssText(text: string) | Channels(rgb: Rgb)

  /** hex2rgb's argument: a list of codes, or a lone code that it wraps into
      a one-element list. */
  datatype HexCodes = Single(code: string) | Many(codes: seq<string>)

  /** The normalised tuple (r / 255.0, g / 255.0, b / 255.0). */
  datatype Normalized = Normalized(r: real, g: real, b: real)

  predicate IsByte(v: int) {
    0 <= v <= 255
  }

  predicate IsByteRgb(c: Rgb) {
    IsByte(c.r) && IsByte(c.g) && IsByte(c.b)
  }

  /** The codes hex2rgb iterates over. */
  function CodeList(hexCodes: HexCodes): seq<string> {
    match hexCodes
    case Single(code) => [code]
    case Many(codes) => codes
  }

  // ---------------------------------------------------------------------
  // hex2rgb
  // ---------------------------------------------------------------------

  /** `"".join(c * 2 for c in s)`: every character written twice. */
  function DoubleEach(s: string): (r: string)
    ensures |r| == 2 * |s|
    ensures forall k :: 0 <= k < |r| ==> r[k] == s[k / 2]
  {
    if s == [] then []
    else
      var rest := DoubleEach(s[1..]);
      var r := [s[0], s[0]] + rest;
      assert forall k :: 2 <= k < |r| ==> r[k] == rest[k - 2] == s[1..][(k - 2) / 2];
      r
  }

  /** The code after its leading '#' characters are stripped and a
      three-character code is expanded to six. */
  function CleanHex(code: string): string {
    var h := LStrip(code, {'#'});
    if |h| == 3 then DoubleEach(h) else h
  }

  /** `f"rgb({r}, {g}, {b})"`. */
  function CssString(c: Rgb): string {
    "rgb(" + FormatDec(c.r) + ", " + FormatDec(c.g) + ", " + FormatDec(c.b) + ")"
  }

  /** What hex2rgb appends for channels `c`: the CSS text when `csslike`,
      the tuple otherwise. */
  function RgbEntry(c: Rgb, csslike: bool): (e: RgbCode)
    ensures e.CssText? <==> csslike
    ensures e.Channels? ==> e.rgb == c
  {
    if csslike then CssText(CssString(c)) else Channels(c)
  }

  /** The reading half of hex2rgb's loop, on a cleaned code: the channels
      are the base-16 values of the slices [0:2], [2:4] and [4:6], read in
      that order. */
  function ReadHex(h: string, csslike: bool): Result<RgbCode> {
    var r :- ParseInt(Slice(h, 0, 2), 16);
    var g :- ParseInt(Slice(h, 2, 4), 16);
    var b :- ParseInt(Slice(h, 4, 6), 16);
    Ok(RgbEntry(Rgb(r, g, b), csslike))
  }

  /** One pass of hex2rgb's loop: the code is cleaned, then read. */
  function HexToRgbCode(code: string, csslike: bool): Result<RgbCode> {
    ReadHex(CleanHex(code), csslike)
  }

  /** HexToRgbCode with its flag fixed, as the loop applies it. */
  function HexToRgbStep(csslike: bool): string -> Result<RgbCode> {
    code => HexToRgbCode(code, csslike)
  }

  /** hex2rgb on a list of codes. */
  function HexToRgbAll(codes: seq<string>, csslike: bool): Result<seq<RgbCode>> {
    MapAll(HexToRgbStep(csslike), codes)
  }

  /** `hex2rgb(hex_codes, csslike)`: one entry per input code, in input
      order; the first code that `int` rejects raises. */
  method Hex2Rgb(hexCodes: HexCodes, csslike: bool) returns (result: Result<seq<RgbCode>>)
    ensures result == HexToRgbAll(CodeList(hexCodes), csslike)
    ensures var codes := CodeList(hexCodes);
            result.Ok? <==> forall i :: 0 <= i < |codes| ==> HexToRgbStep(csslike)(codes[i]).Ok?
    ensures var codes := CodeList(hexCodes);
            result.Ok? ==>
              && |result.value| == |codes|
              && forall i :: 0 <= i < |codes| ==> result.value[i] == HexToRgbStep(csslike)(codes[i]).value
  {
    var codes := CodeList(hexCodes);
    result := MapEach(HexToRgbStep(csslike), codes);
    MapAllOk(HexToRgbStep(csslike), codes);
  }

  // ---------------------------------------------------------------------
  // rgb2hex
  // ---------------------------------------------------------------------

  /** `red, green, blue = map(int, parts)`: the lazy map converts the items
      as the unpacking pulls them, including a fourth one when there is one,
      so a bad item among the first four raises before a wrong count does. */
  function UnpackThreeInts(parts: seq<string>): (r: Result<Rgb>)
    ensures r.Ok? <==> |parts| == 3 && forall i :: 0 <= i < 3 ==> ParseInt(parts[i], 10).Ok?
    ensures r.Ok? ==>
              r.value == Rgb(ParseInt(parts[0], 10).value, ParseInt(parts[1], 10).value,
                             ParseInt(parts[2], 10).value)
    ensures (forall i :: 0 <= i < |parts| && i < 4 ==> ParseInt(parts[i], 10).Ok?) ==>
              && (|parts| < 3 ==> r == Err(NotEnoughValues(3, |parts|)))
              && (|parts| > 3 ==> r == Err(TooManyValues(3)))
    ensures forall k :: 0 <= k < |parts| && k < 4 && ParseInt(parts[k], 10).Err? &&
                        (forall i :: 0 <= i < k ==> ParseInt(parts[i], 10).Ok?) ==>
              r == Err(InvalidLiteral(parts[k], 10))
  {
    if |parts| == 0 then Err(NotEnoughValues(3, 0))
    else
      var red :- ParseInt(parts[0], 10);
      if |parts| == 1 then Err(NotEnoughValues(3, 1))
      else
        var green :- ParseInt(parts[1], 10);
        if |parts| == 2 then Err(NotEnoughValues(3, 2))
        else
          var blue :- ParseInt(parts[2], 10);
          if |parts| == 3 then Ok(Rgb(red, green, blue))
          else
            var _ :- ParseInt(parts[3], 10);
            Err(TooManyValues(3))
  }

  /** The channels rgb2hex reads from one code: the text between the first
      '(' and the first ')', split on commas, each piece read by `int`. */
  function ParseRgbText(code: string): Result<Rgb> {
    var open :- Index(code, '(');
    var close :- Index(code, ')');
    UnpackThreeInts(Split(Slice(code, open + 1, close), ','))
  }

  /** `f"#{red:02X}{green:02X}{blue:02X}"`. */
  function HexString(c: Rgb): string {
    "#" + Format02X(c.r) + Format02X(c.g) + Format02X(c.b)
  }

  /** One pass of rgb2hex's loop. */
  function RgbTextToHex(code: string): Result<string> {
    var c :- ParseRgbText(code);
    Ok(HexString(c))
  }

  function RgbToHexAll(codes: seq<string>): Result<seq<string>> {
    MapAll(RgbTextToHex, codes)
  }

  /** `rgb2hex(rgb_codes)`: one hex code per input, in input order; the
      first code that cannot be read raises. */
  method Rgb2Hex(rgbCodes: seq<string>) returns (result: Result<seq<string>>)
    ensures result == RgbToHexAll(rgbCodes)
    ensures result.Ok? <==> forall i :: 0 <= i < |rgbCodes| ==> RgbTextToHex(rgbCodes[i]).Ok?
    ensures result.Ok? ==>
              && |result.value| == |rgbCodes|
              && forall i :: 0 <= i < |rgbCodes| ==> result.value[i] == RgbTextToHex(rgbCodes[i]).value
  {
    result := MapEach(RgbTextToHex, rgbCodes);
    MapAllOk(RgbTextToHex, rgbCodes);
  }

  // ---------------------------------------------------------------------
  // rgb_string_to_tuple and rgb_string_to_normalized_tuple
  // ---------------------------------------------------------------------

  /** The text between the brackets: every "rgb(" and every ")" deleted. */
  function CssInner(s: string): string {
    Remove(Remove(s, "rgb("), ")")
  }

  /** `rgb_string_to_tuple(s)`: the comma-separated pieces of CssInner(s)
      must be exactly three (checked before any is read), each read by `int`. */
  function RgbStringToTuple(s: string): Result<Rgb> {
    var parts := Split(CssInner(s), ',');
    if |parts| < 3 then Err(NotEnoughValues(3, |parts|))
    else if |parts| > 3 then Err(TooManyValues(3))
    else
      var r :- ParseInt(parts[0], 10);
      var g :- ParseInt(parts[1], 10);
      var b :- ParseInt(parts[2], 10);
      Ok(Rgb(r, g, b))
  }

  /** 2^1024 - 2^970: converting an int to a float rounds it to 53 bits,
      half to even, and a magnitude this large or larger rounds past the
      largest finite float. */
  const FloatLimit: int := 0xFFFFFFFFFFFFFC00000000000000000000000000000000000000000000000000000000000000000000000000000000000000000000000000000000000000000000000000000000000000000000000000000000000000000000000000000000000000000000000000000000000000000000000000000000000000000000000000

  /** `float(v)` is a finite float rather than an OverflowError. */
  predicate FitsFloat(v: int) {
    -FloatLimit < v < FloatLimit
  }

  predicate FitsFloatRgb(c: Rgb) {
    FitsFloat(c.r) && FitsFloat(c.g) && FitsFloat(c.b)
  }

  /** `int(x) / 255.0` for one piece: the piece is read by `int`, then
      converted to a float, which raises for an int beyond its range. */
  function NormalizeChannel(x: string): Result<real> {
    var v :- ParseInt(x, 10);
    if FitsFloat(v) then Ok(v as real / 255.0) else Err(IntTooLargeForFloat)
  }

  /** `rgb_string_to_normalized_tuple(s)`: the pieces of rgb_string_to_tuple,
      each read and divided by 255 in turn (exactly, where Python rounds to a
      float). It succeeds iff rgb_string_to_tuple does with channels in float
      range; a channel out of range raises OverflowError, and otherwise the
      error is rgb_string_to_tuple's, except that an out-of-range channel
      read before an unreadable one raises first. */
  function RgbStringToNormalizedTuple(s: string): (n: Result<Normalized>)
    ensures n.Ok? <==> RgbStringToTuple(s).Ok? && FitsFloatRgb(RgbStringToTuple(s).value)
    ensures RgbStringToTuple(s).Ok? && !FitsFloatRgb(RgbStringToTuple(s).value) ==>
              n == Err(IntTooLargeForFloat)
    ensures RgbStringToTuple(s).Err? ==>
              n.Err? && (n.error == RgbStringToTuple(s).error || n.error == IntTooLargeForFloat)
    ensures n.Ok? ==>
              var c := RgbStringToTuple(s).value;
              n.value.r * 255.0 == c.r as real && n.value.g * 255.0 == c.g as real &&
              n.value.b * 255.0 == c.b as real
  {
    var parts := Split(CssInner(s), ',');
    if |parts| < 3 then Err(NotEnoughValues(3, |parts|))
    else if |parts| > 3 then Err(TooManyValues(3))
    else
      var r :- NormalizeChannel(parts[0]);
      var g :- NormalizeChannel(parts[1]);
      var b :- NormalizeChannel(parts[2]);
      Ok(Normalized(r, g, b))
  }
}
