/** The behaviour of Python's `int(s, base)` for bases 10 and 16, and of the
    f-string formats `{n}` and `{n:02X}`, on unbounded integers. */
module PyInt {
  import opened Wrappers
  import opened PyText

  predicate IsHexDigit(c: char) {
    '0' <= c <= '9' || 'a' <= c <= 'f' || 'A' <= c <= 'F'
  }

  function HexValue(c: char): (v: nat)
    requires IsHexDigit(c)
    ensures v < 16
    ensures '0' <= c <= '9' <==> v < 10
  {
    if '0' <= c <= '9' then c as int - '0' as int
    else if 'a' <= c <= 'f' then c as int - 'a' as int + 10
    else c as int - 'A' as int + 10
  }

  /** A digit of the given base: 0-9 for base 10, 0-9 and a-f in either case for base 16. */
  predicate IsDigitIn(c: char, base: nat) {
    IsHexDigit(c) && HexValue(c) < base
  }

  /** The digit part of an integer literal: digits, with single underscores
      allowed between two digits (PEP 515). */
  predicate DigitsOrUnderscores(s: string, base: nat) {
    forall k :: 0 <= k < |s| ==> IsDigitIn(s[k], base) || s[k] == '_'
  }

  predicate WellFormedDigits(s: string, base: nat) {
    && DigitsOrUnderscores(s, base)
    && |s| > 0
    && IsDigitIn(s[0], base)
    && IsDigitIn(s[|s| - 1], base)
    && forall j, k :: 0 <= j < |s| && 0 <= k < |s| && k == j + 1 ==> s[j] != '_' || s[k] != '_'
  }

  /** The value of a digit string read in `base`; underscores are skipped. */
  function DigitsValue(s: string, base: nat): nat
    requires DigitsOrUnderscores(s, base)
  {
    if s == [] then 0
    else
      var init, last := s[..|s| - 1], s[|s| - 1];
      assert IsDigitIn(last, base) || last == '_';
      assert DigitsOrUnderscores(init, base) by {
        forall k | 0 <= k < |init|
          ensures IsDigitIn(init[k], base) || init[k] == '_'
        {
          assert init[k] == s[k];
        }
      }
      var v := DigitsValue(init, base);
      if last == '_' then v else v * base + HexValue(last)
  }

  /** True when a base-16 literal begins with the prefix "0x" or "0X". */
  predicate HasHexPrefix(u: string) {
    |u| >= 2 && u[0] == '0' && (u[1] == 'x' || u[1] == 'X')
  }

  /** The value of an integer literal that has no whitespace at either end:
      one optional sign, then for base 16 an optional "0x" prefix that may be
      followed by one underscore, then well-formed digits. */
  function LiteralValue(t: string, base: nat): (v: Option<int>)
    requires base == 10 || base == 16
    ensures v.Some? ==> exists k :: 0 <= k < |t| && IsDigitIn(t[k], base)
    ensures v.Some? && v.value < 0 ==> t[0] == '-'
  {
    var negative := |t| > 0 && t[0] == '-';
    var unsigned := if |t| > 0 && (t[0] == '+' || t[0] == '-') then t[1..] else t;
    var digits :=
      if base == 16 && HasHexPrefix(unsigned) then
        (if |unsigned| > 2 && unsigned[2] == '_' then unsigned[3..] else unsigned[2..])
      else unsigned;
    if WellFormedDigits(digits, base) then
      var v := DigitsValue(digits, base);
      Some(if negative then -(v as int) else v)
    else None
  }

  /** `int(s, base)`: surrounding whitespace is ignored and the rest must be
      a literal; anything else raises ValueError ("invalid literal for int()
      with base ..."). */
  function ParseInt(s: string, base: nat): (r: Result<int>)
    requires base == 10 || base == 16
    ensures r.Err? ==> r.error == InvalidLiteral(s, base)
  {
    match LiteralValue(IntTrim(s), base)
    case Some(v) => Ok(v)
    case None => Err(InvalidLiteral(s, base))
  }

  /** The character that `format` uses for a digit value: 0-9, then upper-case A-F. */
  function DigitChar(d: nat): (c: char)
    requires d < 16
    ensures IsHexDigit(c) && HexValue(c) == d && !('a' <= c <= 'z')
  {
    if d < 10 then (d + '0' as int) as char else (d - 10 + 'A' as int) as char
  }

  /** The digits of a natural number in `base`, most significant first, with
      no leading zero. */
  function NatDigits(n: nat, base: nat): (r: string)
    requires base == 10 || base == 16
    ensures |r| >= 1 && (|r| == 1 <==> n < base)
    ensures forall k :: 0 <= k < |r| ==> IsDigitIn(r[k], base) && !('a' <= r[k] <= 'z')
    ensures DigitsValue(r, base) == n
  {
    if n < base then [DigitChar(n)]
    else
      var init := NatDigits(n / base, base);
      var last := DigitChar(n % base);
      DigitsValueSnoc(init, last, base);
      init + [last]
  }

  /** One more digit at the end multiplies the value by the base and adds
      the digit. */
  lemma DigitsValueSnoc(init: string, last: char, base: nat)
    requires DigitsOrUnderscores(init, base) && IsDigitIn(last, base)
    ensures DigitsOrUnderscores(init + [last], base)
    ensures DigitsValue(init + [last], base) == DigitsValue(init, base) * base + HexValue(last)
  {
    var r := init + [last];
    assert r[..|r| - 1] == init;
  }

  /** `f"{n}"`: the decimal form of an integer, with a minus sign when negative. */
  function FormatDec(n: int): (r: string)
    ensures |r| >= 1 && (r[0] == '-' || IsDigitIn(r[0], 10))
    ensures forall k :: 1 <= k < |r| ==> IsDigitIn(r[k], 10)
    ensures (r[0] == '-') <==> n < 0
  {
    if n < 0 then "-" + NatDigits(-n, 10) else NatDigits(n, 10)
  }

  /** `f"{n:02X}"`: upper-case hexadecimal, zero-padded to a width of two.
      Python neither wraps nor truncates: a negative value keeps its minus
      sign and a value above 255 gets more than two digits. */
  function Format02X(n: int): (r: string)
    ensures |r| >= 1
    ensures 0 <= n < 256 ==> |r| == 2
    ensures 0 <= n ==> forall k :: 0 <= k < |r| ==> IsHexDigit(r[k]) && !('a' <= r[k] <= 'z')
    ensures 0 <= n < 256 ==> 16 * HexValue(r[0]) + HexValue(r[1]) == n
    ensures n < 0 ==> r[0] == '-'
  {
    if n < 0 then "-" + NatDigits(-n, 16)
    else
      var d := NatDigits(n, 16);
      var r := if |d| < 2 then "0" + d else d;
      assert 16 <= n < 256 ==> d == NatDigits(n / 16, 16) + [DigitChar(n % 16)];
      r
  }

  /** Digit strings with a digit in front and at the back and nothing but
      digits in between are well-formed, and their value is unchanged by a
      leading zero. */
  lemma AllDigitsWellFormed(s: string, base: nat)
    requires |s| > 0 && forall k :: 0 <= k < |s| ==> IsDigitIn(s[k], base)
    ensures WellFormedDigits(s, base)
  {
  }

  lemma {:induction false} LeadingZero(s: string, base: nat)
    requires base == 10 || base == 16
    requires DigitsOrUnderscores(s, base)
    ensures DigitsValue("0" + s, base) == DigitsValue(s, base)
  {
    if s != [] {
      var z := "0" + s;
      assert z[..|z| - 1] == "0" + s[..|s| - 1];
      LeadingZero(s[..|s| - 1], base);
    }
  }

  /** Whitespace around a literal does not change what `int` reads. */
  lemma ParsePadded(pad: string, t: string, base: nat)
    requires base == 10 || base == 16
    requires forall k :: 0 <= k < |pad| ==> IsSpace(pad[k])
    requires t != [] && !IsSpace(t[0]) && !IsSpace(t[|t| - 1])
    ensures ParseInt(pad + t, base) ==
              match LiteralValue(t, base)
              case Some(v) => Ok(v)
              case None => Err(InvalidLiteral(pad + t, base))
  {
    IntTrimPadded(pad, t);
  }

  /** Plain digits are a literal whose value is that of the digits. */
  lemma LiteralOfDigits(d: string, base: nat)
    requires base == 10 || base == 16
    requires |d| > 0 && forall k :: 0 <= k < |d| ==> IsDigitIn(d[k], base)
    requires base == 16 ==> !HasHexPrefix(d)
    ensures LiteralValue(d, base) == Some(DigitsValue(d, base) as int)
  {
    AllDigitsWellFormed(d, base);
  }

  /** Digits after a minus sign are a literal whose value is the negated
      value of the digits. */
  lemma LiteralOfNegatedDigits(d: string, base: nat)
    requires base == 10 || base == 16
    requires |d| > 0 && forall k :: 0 <= k < |d| ==> IsDigitIn(d[k], base)
    requires base == 16 ==> !HasHexPrefix(d)
    ensures LiteralValue("-" + d, base) == Some(-(DigitsValue(d, base) as int))
  {
    AllDigitsWellFormed(d, base);
    assert ("-" + d)[1..] == d;
  }

  /** Reading back what FormatDec writes gives the same number, also with
      whitespace in front (as in the ", 187" pieces of a CSS colour). */
  lemma ParseFormatDec(pad: string, n: int)
    requires forall k :: 0 <= k < |pad| ==> IsSpace(pad[k])
    ensures ParseInt(pad + FormatDec(n), 10) == Ok(n)
  {
    var f := FormatDec(n);
    assert !IsSpace(f[0]) && !IsSpace(f[|f| - 1]);
    ParsePadded(pad, f, 10);
    if n < 0 {
      LiteralOfNegatedDigits(NatDigits(-n, 10), 10);
    } else {
      LiteralOfDigits(NatDigits(n, 10), 10);
    }
  }

  /** Reading back what Format02X writes gives the same number, for every
      integer, negative and above 255 included. */
  lemma ParseFormat02X(n: int)
    ensures ParseInt(Format02X(n), 16) == Ok(n)
  {
    if n < 0 {
      ParseNegativeHex(n);
    } else {
      var d := NatDigits(n, 16);
      if |d| < 2 {
        ParseDigits("0" + d, 16);
        LeadingZero(d, 16);
      } else {
        ParseDigits(d, 16);
      }
    }
  }

  lemma ParseNegativeHex(n: int)
    requires n < 0
    ensures ParseInt(Format02X(n), 16) == Ok(n)
  {
    var d := NatDigits(-n, 16);
    var f := "-" + d;
    assert f == Format02X(n);
    assert LiteralValue(f, 16) == Some(n) by {
      LiteralOfNegatedDigits(d, 16);
    }
    assert IntTrim(f) == f by {
      assert !IsSpace(f[0]) && !IsSpace(f[|f| - 1]);
      IntTrimClean(f);
    }
  }

  /** Plain digits read as their value. */
  lemma ParseDigits(d: string, base: nat)
    requires base == 10 || base == 16
    requires |d| > 0 && forall k :: 0 <= k < |d| ==> IsDigitIn(d[k], base)
    requires base == 16 ==> !HasHexPrefix(d)
    ensures ParseInt(d, base) == Ok(DigitsValue(d, base) as int)
  {
    LiteralOfDigits(d, base);
    assert IntTrim(d) == d by {
      assert !IsSpace(d[0]) && !IsSpace(d[|d| - 1]);
      IntTrimClean(d);
    }
  }

  lemma {:induction false} TwoDigitsValue(a: char, b: char)
    requires IsHexDigit(a) && IsHexDigit(b)
    ensures DigitsValue([a, b], 16) == 16 * HexValue(a) + HexValue(b) <= 255
  {
    assert [a, b][..1] == [a];
    assert [a][..0] == [];
    assert DigitsValue([a], 16) == HexValue(a);
  }

  /** A single hex digit reads as its value. */
  lemma ParseOneHexDigit(a: char)
    requires IsHexDigit(a)
    ensures ParseInt([a], 16) == Ok(HexValue(a) as int)
  {
    ParseDigits([a], 16);
    assert [a][..0] == [];
  }

  /** Two hex digits of either case read as a byte in 0..255. */
  lemma ParseTwoHexDigits(a: char, b: char)
    requires IsHexDigit(a) && IsHexDigit(b)
    ensures ParseInt([a, b], 16) == Ok((16 * HexValue(a) + HexValue(b)) as int)
  {
    ParseDigits([a, b], 16);
    TwoDigitsValue(a, b);
  }

  /** A literal holds at least one digit of its base. */
  lemma LiteralNeedsDigit(t: string, base: nat)
    requires base == 10 || base == 16
    requires forall k :: 0 <= k < |t| ==> !IsDigitIn(t[k], base)
    ensures LiteralValue(t, base) == None
  {
    var unsigned := if |t| > 0 && (t[0] == '+' || t[0] == '-') then t[1..] else t;
    assert forall k :: 0 <= k < |unsigned| ==> !IsDigitIn(unsigned[k], base);
    assert !HasHexPrefix(unsigned) && !WellFormedDigits(unsigned, base);
  }

  /** A Latin-1 character that no integer literal holds in either base: not
      a hex digit, not whitespace, not a sign, not '_' and not the 'x' of a
      "0x" prefix. Beyond Latin-1 `int()` also takes other Unicode digits and
      spaces, so those characters are not claimed here. */
  predicate NotLiteralChar(c: char) {
    && c as int < 256
    && !IsHexDigit(c) && !IsSpace(c) && c != '+' && c != '-' && c != '_' && c != 'x' && c != 'X'
  }

  /** Text holding such a character is not a literal. */
  lemma LiteralRejects(t: string, base: nat, c: char)
    requires base == 10 || base == 16
    requires c in t && NotLiteralChar(c)
    ensures LiteralValue(t, base) == None
  {
    var unsigned := if |t| > 0 && (t[0] == '+' || t[0] == '-') then t[1..] else t;
    assert c in unsigned;
    var digits :=
      if base == 16 && HasHexPrefix(unsigned) then
        (if |unsigned| > 2 && unsigned[2] == '_' then unsigned[3..] else unsigned[2..])
      else unsigned;
    assert c in digits by {
      if base == 16 && HasHexPrefix(unsigned) {
        assert unsigned == unsigned[..2] + unsigned[2..];
        if |unsigned| > 2 && unsigned[2] == '_' {
          assert unsigned[2..] == [unsigned[2]] + unsigned[3..];
        }
      }
    }
    assert !DigitsOrUnderscores(digits, base);
  }

  /** `int` raises on text holding a character that no literal holds,
      wherever it stands. */
  lemma ParseRejects(s: string, base: nat, i: nat)
    requires base == 10 || base == 16
    requires i < |s| && NotLiteralChar(s[i])
    ensures ParseInt(s, base) == Err(InvalidLiteral(s, base))
  {
    IntTrimKeepsNonSpace(s, i);
    LiteralRejects(IntTrim(s), base, s[i]);
  }

  /** `int` raises on a string that holds no digit of the base at all,
      the empty string included. */
  lemma ParseNeedsDigit(s: string, base: nat)
    requires base == 10 || base == 16
    requires forall k :: 0 <= k < |s| ==> !IsDigitIn(s[k], base)
    ensures ParseInt(s, base) == Err(InvalidLiteral(s, base))
  {
    var i := IntTrimIsSlice(s);
    var t := IntTrim(s);
    assert forall k :: 0 <= k < |t| ==> t[k] == s[i + k];
    LiteralNeedsDigit(t, base);
  }
}
