# STForte colour-code codec in Dafny

This project models the colour-code helpers that STForte's plotting module
(`STForte/helper/__plot_helpers.py`) uses to move between three colour forms:

- hex codes (`"#7BB44F"`, `"abc"`);
- CSS text (`"rgb(123, 180, 79)"`);
- integer triples `(r, g, b)`.

It covers four functions:

- `hex2rgb`;
- `rgb2hex`;
- `rgb_string_to_tuple`;
- `rgb_string_to_normalized_tuple`, up to float rounding.

It also includes two of the module's palettes as sample inputs. The model
follows the Python code as written, including what happens on malformed
input. The Python builtins those functions rely on are modelled explicitly:

- `int(s, base)`: the whitespace it ignores around a literal (tab through
  carriage return, space, and the two Latin-1 spaces NEL and no-break
  space), one sign, an optional `0x` for base 16, and underscores between
  digits;
- converting an int to a float for `int(x) / 255.0`, which raises
  OverflowError from 2^1024 - 2^970 in magnitude up;
- `str.lstrip`, `str.index`, `str.split(",")` and
  `str.replace(sub, "")`;
- slicing, including its clamping;
- `str.upper`, which the code does not call: it states what the round trip
  hex → CSS text → hex gives back;
- the lazy `map(int, ...)` as three names unpack it;
- the f-string formats `{n}` and `{n:02X}`.

Modules:

- `Wrappers`: the exceptions the codec can raise (`ValueError`s, and the
  `OverflowError` of the float conversion), `Result`, and the
  append loop shared by `hex2rgb` and `rgb2hex` (`MapEach`, proved equal to
  the specification function `MapAll`).
- `PyText`: the string builtins.
- `PyInt`: `int(s, base)` and the two integer formats.
- `PlotHelpers`: the four operations.
- `CodecProperties`: what the operations promise, as lemmas:
  - the channels a code denotes;
  - which codes raise;
  - that the two output forms of `hex2rgb` agree;
  - the round trips hex → CSS text → hex and CSS text → tuple.
- `Palettes`: the 1960s Prism palette and the accent palette, with worked
  examples.

Where the code's own comments, or the usual reading of a hex colour code,
say less than the code does, the model follows the code. The comment at
line 25 says `# Remove '#' if present`, and the comment at lines 27-28
suggests that only short (3-digit) and full (6-digit) codes are meant:

- Leading `#`: the code strips every leading `#` (`lstrip("#")`), not just
  one.
- Code lengths:
  - Not only codes of length 3 and 6 are read.
  - A code of 5 digits reads its last channel from one digit: `"12345"` is
    `(18, 52, 5)`.
  - A code longer than 6 characters has everything past the sixth ignored.
  - A 2-character slice may also be a signed or padded literal, such as
    `"+F"` or `" 1"`.
  - Codes of 0, 1, 2 or 4 characters raise, because their last slice is
    empty.
- Values outside 0-255: `{n:02X}` does not wrap or truncate them. `-1` is
  written `"-1"` and `256` as `"100"`. The model writes these as Python
  does (`Format02X`).

## Model

| member | source | states |
|---|---|---|
| PlotHelpers.Hex2Rgb | STForte/helper/__plot_helpers.py:20-38 | the loop returns MapAll of one code's conversion over the code list; it succeeds iff every code converts; then it has one entry per code, in input order, each the conversion of that code |
| PlotHelpers.Rgb2Hex | STForte/helper/__plot_helpers.py:7-17 | the loop returns MapAll of one text's conversion over the input; it succeeds iff every text converts; then it keeps length and order, entry i being the hex code of text i |
| Wrappers.MapEach | STForte/helper/__plot_helpers.py:8-16 | the `for ...: append` loop over a list returns exactly MapAll: the values in input order, or the error of the first element that raises |
| Wrappers.MapAllOk | STForte/helper/__plot_helpers.py:24-38 | a loop that appends f(x) for each x succeeds iff every element succeeds, and then its result has the input's length with entry i equal to f(xs[i]) |
| Wrappers.MapAllFirstError | STForte/helper/__plot_helpers.py:24-33 | when some element raises, the whole loop raises the error of the first element that raises |
| Wrappers.MapAllOfValues | STForte/helper/__plot_helpers.py:24-37 | when every element yields a given value, the loop returns exactly those values in order |
| PlotHelpers.DoubleEach | STForte/helper/__plot_helpers.py:29 | `"".join(c * 2 for c in s)` is twice as long as s and character k is s[k / 2] |
| PlotHelpers.UnpackThreeInts | STForte/helper/__plot_helpers.py:12 | `red, green, blue = map(int, parts)` succeeds iff there are exactly three parts and each parses; then the triple is their values; when the first min(n, 4) parts parse, too few parts raise NotEnoughValues(3, n) and too many raise TooManyValues(3); otherwise the first bad part among the first four raises InvalidLiteral |
| PlotHelpers.RgbStringToNormalizedTuple | STForte/helper/__plot_helpers.py:65-79 | succeeds iff rgb_string_to_tuple succeeds on the same text with every channel in float range; a channel out of range raises OverflowError; when rgb_string_to_tuple raises, this raises its error, or OverflowError for an earlier channel out of range; each component times 255 is the tuple's channel |
| PlotHelpers.RgbStringToTuple | STForte/helper/__plot_helpers.py:52-62 | defined as: every "rgb(" and ")" deleted (CssInner), split on ',', exactly three pieces checked before any is read, each read by int in base 10; its properties are CodecProperties.CssStringParses, TupleNeedsTwoCommas and CssAgreesWithTuple |
| PlotHelpers.CssInner | STForte/helper/__plot_helpers.py:54 | defined as the two `replace(…, "")` calls; CodecProperties.CssInnerOfCssString and PyText.RemoveKeepsCount state what they keep |
| PlotHelpers.HexToRgbCode | STForte/helper/__plot_helpers.py:24-37 | defined as one pass of hex2rgb's loop, CleanHex then ReadHex; its properties are the CodecProperties lemmas SixDigitCode, ThreeDigitCode, FiveDigitCode, ShortCodeRaises, NonHexCodeRaises, HexToRgbCodeErrors and CsslikeAgrees |
| PlotHelpers.CleanHex | STForte/helper/__plot_helpers.py:25-29 | defined as lstrip("#") then doubling a three-character code; CodecProperties.CleanHexShape, LeadingHashesIgnored and ShorthandExpands state its properties |
| PlotHelpers.ReadHex | STForte/helper/__plot_helpers.py:31-37 | defined as the three base-16 reads of [0:2], [2:4], [4:6] in order and the entry built from them; CodecProperties.ReadSixDigits, ReadFiveDigits, ReadHexErrors and ReadHexRejects state its properties |
| PlotHelpers.RgbEntry | STForte/helper/__plot_helpers.py:34-37 | the entry is CSS text exactly when csslike, and otherwise the channels themselves |
| PlotHelpers.CssString | STForte/helper/__plot_helpers.py:35 | defined as `f"rgb({r}, {g}, {b})"`; CodecProperties.CssBodyShape and CssStringParses state its shape and that it reads back |
| PlotHelpers.ParseRgbText | STForte/helper/__plot_helpers.py:11-12 | defined as index of '(' and ')', the slice between, split on ',', unpacked by map(int, …); CodecProperties.ParseRgbTextNeedsBrackets, ParseRgbTextOf and ParseRgbTextOfCss state its properties |
| PlotHelpers.RgbTextToHex | STForte/helper/__plot_helpers.py:9-16 | defined as one pass of rgb2hex's loop, ParseRgbText then HexString; CodecProperties.RgbTextToHexOfCss, RgbTextToHexShape and HexRoundTrip state its properties |
| PlotHelpers.HexString | STForte/helper/__plot_helpers.py:15 | defined as `f"#{red:02X}{green:02X}{blue:02X}"`; CodecProperties.HexStringShape, HexStringOfCode and CleanHexString state its properties |
| PyText.LStrip | STForte/helper/__plot_helpers.py:25 | `lstrip("#")` returns a suffix of its argument; every dropped character is '#', and the result is empty or does not start with '#' |
| PyText.LStripDropsPrefix | STForte/helper/__plot_helpers.py:25 | a prefix made only of stripped characters does not change the result of lstrip |
| PyText.LStripSpaceFacts | STForte/helper/__plot_helpers.py:60 | stripping whitespace on the left keeps a suffix, drops only whitespace, and leaves a first character that is not whitespace |
| PyText.RStripSpaceFacts | STForte/helper/__plot_helpers.py:60 | stripping whitespace on the right keeps a prefix, drops only whitespace, and leaves a last character that is not whitespace |
| PyText.IntTrimPadded | STForte/helper/__plot_helpers.py:60 | trimming the whitespace `int()` ignores from whitespace followed by text with no whitespace at either end leaves that text |
| PyText.IntTrimIsSlice | STForte/helper/__plot_helpers.py:60 | what `int()`'s whitespace trim keeps is a contiguous piece of its argument |
| PyText.IntTrimKeepsNonSpace | STForte/helper/__plot_helpers.py:31-33 | `int()`'s whitespace trim keeps every character that is not whitespace to it |
| PyText.Slice | STForte/helper/__plot_helpers.py:31-33 | `s[i:j]` is empty when j <= i or i is at or past the end; otherwise it has j - i characters, or only the rest of s when j is past the end; character k is s[i + k] |
| PyText.SliceConcat | STForte/helper/__plot_helpers.py:31-33 | adjacent slices join: `s[i:j] + s[j:k] == s[i:k]` for i <= j <= k, so [0:2], [2:4], [4:6] together are `s[0:6]` |
| PyText.Index | STForte/helper/__plot_helpers.py:11 | `s.index(c)` is the first position holding c, or raises SubstringNotFound when c does not occur |
| PyText.IndexOfFirst | STForte/helper/__plot_helpers.py:11 | a position holding c with no c before it is what index returns |
| PyText.Split | STForte/helper/__plot_helpers.py:11 | `split(",")` returns one more piece than the text has commas |
| PyText.SplitJoin | STForte/helper/__plot_helpers.py:57 | no piece of split holds the separator, and joining the pieces with it gives back the text |
| PyText.SplitFirst | STForte/helper/__plot_helpers.py:57 | text before the first separator is the first piece, and the rest splits on its own |
| PyText.SplitNone | STForte/helper/__plot_helpers.py:57 | text without the separator splits into itself alone |
| PyText.Remove | STForte/helper/__plot_helpers.py:54 | `replace(sub, "")` never lengthens the text; it returns the text unchanged when the first character of sub does not occur; for a one-character sub, none is left |
| PyText.RemoveKeepsPrefix | STForte/helper/__plot_helpers.py:54 | a prefix holding no character that starts sub passes through replace unchanged |
| PyText.RemoveLeading | STForte/helper/__plot_helpers.py:54 | `"rgb(" + t` loses its "rgb(" and keeps t when t holds no 'r' |
| PyText.RemoveTrailing | STForte/helper/__plot_helpers.py:54 | `t + ")"` loses its ")" and keeps t when t holds no ')' |
| PyText.RemoveKeepsCount | STForte/helper/__plot_helpers.py:54-57 | deleting "rgb(" and ")" keeps the number of commas, so split sees the commas of the original text |
| PyInt.LiteralValue | STForte/helper/__plot_helpers.py:60 | a literal (whitespace already trimmed) that reads as a value holds a digit of the base, and one that reads as a negative value starts with '-'; LiteralOfDigits, LiteralOfNegatedDigits, LiteralNeedsDigit and LiteralRejects state which texts are literals |
| PyInt.DigitsValue | STForte/helper/__plot_helpers.py:31-33 | defined as the positional value of the digits, skipping underscores; DigitsValueSnoc, TwoDigitsValue, LeadingZero and NatDigits state its properties |
| PyInt.ParseInt | STForte/helper/__plot_helpers.py:31-33 | `int(s, base)` raises InvalidLiteral carrying the text and the base when the text is not a literal |
| PyInt.ParsePadded | STForte/helper/__plot_helpers.py:60 | whitespace `int()` ignores (tab through carriage return, space, NEL, no-break space) in front of a literal does not change what int reads |
| PyInt.ParseDigits | STForte/helper/__plot_helpers.py:31-33 | plain digits of the base read as their positional value |
| PyInt.LiteralOfDigits | STForte/helper/__plot_helpers.py:60 | plain digits form a literal whose value is the digits' value |
| PyInt.LiteralOfNegatedDigits | STForte/helper/__plot_helpers.py:60 | a minus sign before digits negates their value |
| PyInt.LeadingZero | STForte/helper/__plot_helpers.py:15 | a leading zero digit does not change a digit string's value |
| PyInt.AllDigitsWellFormed | STForte/helper/__plot_helpers.py:60 | a non-empty string of digits is a well-formed digit part of a literal |
| PyInt.TwoDigitsValue | STForte/helper/__plot_helpers.py:31-33 | two hex digits are worth 16 times the first plus the second, at most 255 |
| PyInt.ParseOneHexDigit | STForte/helper/__plot_helpers.py:33 | a slice holding one hex digit reads as that digit's value |
| PyInt.ParseTwoHexDigits | STForte/helper/__plot_helpers.py:31-33 | two hex digits of either case read as 16 times the first plus the second |
| PyInt.LiteralNeedsDigit | STForte/helper/__plot_helpers.py:31-33 | text without a digit of the base is not a literal |
| PyInt.ParseNeedsDigit | STForte/helper/__plot_helpers.py:31-33 | int raises InvalidLiteral on text without a digit, the empty slice included |
| PyInt.LiteralRejects | STForte/helper/__plot_helpers.py:31-33 | text holding a Latin-1 character that is no hex digit, whitespace, sign, '_' or 'x'/'X' is not a literal in either base |
| PyInt.ParseRejects | STForte/helper/__plot_helpers.py:31-33 | int raises InvalidLiteral on text holding such a character, wherever it stands |
| PyInt.HexValue | STForte/helper/__plot_helpers.py:31-33 | a hex digit's value is below 16, and below 10 exactly for '0'-'9' |
| PyInt.DigitChar | STForte/helper/__plot_helpers.py:15 | the digit written for a value below 16 is an upper-case hex digit of that value |
| PyInt.NatDigits | STForte/helper/__plot_helpers.py:15 | the digits of n in the base are non-empty, a single digit iff n is below the base, all upper-case digits of the base, and they read back as n |
| PyInt.FormatDec | STForte/helper/__plot_helpers.py:35 | `f"{n}"` is decimal digits after a leading '-' that appears iff n is negative |
| PyInt.Format02X | STForte/helper/__plot_helpers.py:15 | `f"{n:02X}"` is exactly two upper-case hex digits worth n for 0 <= n < 256; it is upper-case hex digits for any n >= 0, and starts with '-' for n < 0 |
| PyInt.ParseFormatDec | STForte/helper/__plot_helpers.py:60 | int reads back `f"{n}"`, even after leading whitespace `int()` ignores, as n, for every integer n |
| PyInt.ParseFormat02X | STForte/helper/__plot_helpers.py:15 | int(…, 16) reads back `f"{n:02X}"` as n, for every integer n |
| PyInt.ParseNegativeHex | STForte/helper/__plot_helpers.py:15 | for negative n, `f"{n:02X}"` is a signed hex literal that reads back as n |
| CodecProperties.ReadPair | STForte/helper/__plot_helpers.py:31-33 | a two-hex-digit slice reads as the byte those digits spell, which lies in 0..255 |
| CodecProperties.ReadSixDigits | STForte/helper/__plot_helpers.py:31-37 | a cleaned code starting with six hex digits yields the bytes of its pairs [0:2], [2:4], [4:6], all in 0..255 |
| CodecProperties.SixDigitCode | STForte/helper/__plot_helpers.py:25-37 | a code whose text after the '#'s starts with six hex digits yields the bytes of the first three pairs; later digits are ignored |
| CodecProperties.LeadingHashesIgnored | STForte/helper/__plot_helpers.py:25 | any number of leading '#' leave the result of hex2rgb unchanged |
| CodecProperties.ShorthandExpands | STForte/helper/__plot_helpers.py:26-29 | a 3-character code converts exactly as its doubled 6-character form, whatever its characters |
| CodecProperties.ThreeDigitCode | STForte/helper/__plot_helpers.py:26-37 | a 3-hex-digit code yields channels 17 times its digits' values |
| CodecProperties.ReadFiveDigits | STForte/helper/__plot_helpers.py:31-37 | five hex digits read as two bytes and a last channel of one digit |
| CodecProperties.FiveDigitCode | STForte/helper/__plot_helpers.py:25-37 | a 5-hex-digit code does not raise: its last channel is the value of its fifth digit |
| CodecProperties.CleanHexShape | STForte/helper/__plot_helpers.py:25-29 | a cleaned code never has three characters and never starts with '#' |
| CodecProperties.ReadHexErrors | STForte/helper/__plot_helpers.py:31-33 | a read that succeeds had at least five characters; one that raises raises InvalidLiteral, in base 16, on one of the slices [0:2], [2:4], [4:6], at most two characters long |
| CodecProperties.HexToRgbCodeErrors | STForte/helper/__plot_helpers.py:25-33 | whatever hex2rgb raises for a code is int's ValueError in base 16 on a piece of at most two characters |
| CodecProperties.ShortCodeRaises | STForte/helper/__plot_helpers.py:25-33 | a code of 0, 1, 2 or 4 characters after the '#'s raises |
| CodecProperties.ReadHexRaises | STForte/helper/__plot_helpers.py:31-33 | a slice that int rejects, whichever of the three, makes the read raise |
| CodecProperties.ReadHexRejects | STForte/helper/__plot_helpers.py:31-33 | a cleaned code with a Latin-1 character no literal holds among its first six raises |
| CodecProperties.NonHexCodeRaises | STForte/helper/__plot_helpers.py:25-33 | hex2rgb raises on a code whose cleaned form has, among its first six characters, a Latin-1 one that no literal holds ('g', '#', ',' ...) |
| CodecProperties.CsslikeAgrees | STForte/helper/__plot_helpers.py:34-37 | csslike=True and csslike=False raise on the same codes with the same error; on success the text is the CSS form of the tuple |
| CodecProperties.CssBodyShape | STForte/helper/__plot_helpers.py:35 | CSS text is "rgb(" + body + ")" where the body holds only digits, '-', ',' and ' ' |
| CodecProperties.CssInnerOfCssString | STForte/helper/__plot_helpers.py:54 | deleting "rgb(" and ")" from CSS text leaves its body |
| CodecProperties.SplitCssBody | STForte/helper/__plot_helpers.py:57 | the body splits on ',' into the three numbers, the last two behind a space |
| CodecProperties.SplitTwoNumbers | STForte/helper/__plot_helpers.py:57 | two numbers joined by ", " split into the first and the space-led second |
| CodecProperties.ParseCssParts | STForte/helper/__plot_helpers.py:60 | int reads each piece of the body back as its channel |
| CodecProperties.CssStringParses | STForte/helper/__plot_helpers.py:52-62 | rgb_string_to_tuple reads back the CSS text of any integer triple as that triple |
| CodecProperties.ParseRgbTextNeedsBrackets | STForte/helper/__plot_helpers.py:11 | rgb2hex raises for a missing '(' first, then for a missing ')', and reads only text holding both |
| CodecProperties.CssBrackets | STForte/helper/__plot_helpers.py:11 | in CSS text, index finds '(' at position 3 and ')' at the end, and the slice between them is the body |
| CodecProperties.BracketsOf | STForte/helper/__plot_helpers.py:11 | for any body without brackets, "rgb(" + body + ")" has its brackets where index finds them and the body between them |
| CodecProperties.ParseRgbTextOfCss | STForte/helper/__plot_helpers.py:11-12 | rgb2hex's parsing reads CSS text back as the triple it was written from |
| CodecProperties.RgbTextToHexOfCss | STForte/helper/__plot_helpers.py:9-16 | rgb2hex turns the CSS text of a triple into the hex code of that triple |
| CodecProperties.TupleNeedsTwoCommas | STForte/helper/__plot_helpers.py:54-57 | rgb_string_to_tuple raises NotEnoughValues(3, commas + 1) with fewer than two commas and TooManyValues with more, before any piece is read |
| CodecProperties.NormalizedInUnitRange | STForte/helper/__plot_helpers.py:73-75 | byte channels do not overflow and normalise into [0, 1] |
| CodecProperties.NormalizedOfTuple | STForte/helper/__plot_helpers.py:73-77 | with every channel in float range, the normalised tuple is the parsed tuple with each channel divided by 255 |
| CodecProperties.NormalizedOverflows | STForte/helper/__plot_helpers.py:73-75 | with a parsed channel out of float range, the division raises OverflowError |
| CodecProperties.NormalizedOfCssString | STForte/helper/__plot_helpers.py:65-79 | the normalised tuple of CSS text is its channels divided by 255 when they are in float range, and OverflowError otherwise |
| CodecProperties.CssAgreesWithTuple | STForte/helper/__plot_helpers.py:34-37 | the CSS text hex2rgb writes for a code reads back through rgb_string_to_tuple as the tuple it writes with csslike=False |
| CodecProperties.HexStringShape | STForte/helper/__plot_helpers.py:15 | for byte channels rgb2hex writes '#' and six upper-case hex digits |
| CodecProperties.RgbTextToHexShape | STForte/helper/__plot_helpers.py:9-16 | every code rgb2hex writes for text whose channels are bytes is '#' and six upper-case hex digits |
| CodecProperties.UpperKeepsHexValue | STForte/helper/__plot_helpers.py:15 | upper-casing a hex digit keeps it a hex digit of the same value, so an upper-cased code denotes the same channels |
| CodecProperties.Format02XOfHexByte | STForte/helper/__plot_helpers.py:15 | formatting the byte of two hex digits writes those digits again, upper-cased |
| CodecProperties.HexStringOfCode | STForte/helper/__plot_helpers.py:15 | the hex code written for the channels of a six-digit code is '#' and that code upper-cased |
| CodecProperties.CleanHexString | STForte/helper/__plot_helpers.py:25-33 | hex2rgb cleans a code rgb2hex wrote to its six digits, which spell the channels again |
| CodecProperties.HexStringReadBack | STForte/helper/__plot_helpers.py:20-38 | hex2rgb reads the code rgb2hex writes for byte channels back as those channels |
| CodecProperties.HexRoundTrip | STForte/helper/__plot_helpers.py:7-38 | rgb2hex(hex2rgb(code)) is '#' plus the cleaned code upper-cased, for every code that cleans to six hex digits |
| CodecProperties.HexEntryRoundTrip | STForte/helper/__plot_helpers.py:7-38 | the entry hex2rgb writes for such a code is the CSS text of its channels, and rgb2hex turns it into '#' plus the upper-cased code |
| CodecProperties.HexListRoundTrip | STForte/helper/__plot_helpers.py:7-38 | over a whole list of such codes, hex2rgb succeeds with CSS texts, and rgb2hex of them is the list of upper-cased codes behind one '#', in order |
| CodecProperties.Texts | STForte/helper/__plot_helpers.py:7-9 | the texts of a list of CSS entries, one per entry, in order |
| Palettes.ShorthandExample | STForte/helper/__plot_helpers.py:26-29 | "#ABC" reads as (170, 187, 204) |
| Palettes.ShorthandDigits | STForte/helper/__plot_helpers.py:26-33 | a '#' and three hex digits reads as 17 times each digit's value |
| Palettes.ShorthandCssExample | STForte/helper/__plot_helpers.py:26-35 | with csslike=True, "#ABC" gives the text "rgb(170, 187, 204)" |
| Palettes.FiveDigitExample | STForte/helper/__plot_helpers.py:31-33 | "12345" reads as (18, 52, 5) |
| Palettes.AccentCodesAreHashed | STForte/helper/__plot_helpers.py:477-486 | every accent palette entry is '#' and six hex digits |
| Palettes.PrismCodesAreUpperCase | STForte/helper/__plot_helpers.py:455-463 | every 1960s Prism palette entry is '#' and six hex digits, none lower-case |
| Palettes.CleanHashedCode | STForte/helper/__plot_helpers.py:25-29 | hex2rgb cleans a palette entry to its six digits |
| Palettes.HashedCodeRoundTrip | STForte/helper/__plot_helpers.py:477-486 | a palette entry comes back from hex2rgb then rgb2hex with its digits upper-cased ("#7fc97f" as "#7FC97F") |
| Palettes.UpperCaseCodeRoundTrip | STForte/helper/__plot_helpers.py:455-463 | a palette entry with no lower-case letters, like every 1960s Prism entry, comes back unchanged |
| Palettes.AccentRoundTrip | STForte/helper/__plot_helpers.py:477-486 | every accent palette entry comes back from hex2rgb then rgb2hex as '#' and its digits upper-cased |
| Palettes.PrismRoundTrip | STForte/helper/__plot_helpers.py:455-463 | every 1960s Prism palette entry comes back from hex2rgb then rgb2hex unchanged |

## Left out

- `create_refined_colormap`, `colormap_with_alpha` and the other palettes
  are not part of this model: they work on matplotlib and numpy objects.
- Float rounding: `rgb_string_to_normalized_tuple` divides by 255.0 in
  binary floating point. The model uses exact reals, so
  `RgbStringToNormalizedTuple` states the exact quotient, not the rounded
  float.
- PyInt.ParseInt: Unicode decimal digits other than ASCII, and Unicode
  whitespace beyond Latin-1, which Python's `int` also accepts, are not
  modelled.
- PyInt.ParseInt: the limit on decimal digits is not modelled. Since Python
  3.11, `int(s)` raises ValueError for a base-10 literal of more than 4300
  digits (the default of `sys.set_int_max_str_digits`, which a program or
  the PYTHONINTMAXSTRDIGITS variable can change). The model reads literals
  of any length. Base 16 has no such limit.
- PyInt.FormatDec: for the same reason, `f"{n}"` raises ValueError in
  Python 3.11+ when n has more than 4300 digits; the model writes every n.
- PyInt.ParseFormatDec: the round trip holds in Python 3.11+ only for
  |n| < 10^4300; the model states it for every integer.
- CodecProperties.CssStringParses: likewise holds in Python 3.11+ only for
  channels of at most 4300 digits. Channels written by hex2rgb are at most
  three digits long.
- CodecProperties.ParseCssParts: the same 4300-digit bound applies.
- CodecProperties.ParseRgbTextOfCss: the same 4300-digit bound applies.
- CodecProperties.RgbTextToHexOfCss: the same 4300-digit bound applies.
- CodecProperties.NormalizedOfCssString: the same 4300-digit bound applies.
- PyText.Upper: only ASCII letters are upper-cased. It is applied only to
  hex digits.
- PlotHelpers.Hex2Rgb: the argument is either a lone string or a list of
  strings. Other values, such as a tuple that `isinstance(…, list)` rejects
  and wraps, fail in Python on `lstrip` with an AttributeError. They are not
  modelled.
- Out-of-memory conditions and the identity of the returned list objects are
  not modelled. The results are values.
