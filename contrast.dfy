/** The text colour of the maintenance notice: black or white, whichever
    reads better on the configured background, decided by the YIQ luma of the
    colour (ITU-R BT.601 weights 0.299, 0.587, 0.114) against 140. */
module Contrast {
  import opened PhpValues

  datatype TextColor = Black | White

  predicate IsHexDigit(c: char) {
    IsDigit(c) ||
    'a' as int <= c as int <= 'f' as int ||
    'A' as int <= c as int <= 'F' as int
  }

  function HexDigitValue(c: char): (v: nat)
    requires IsHexDigit(c)
    ensures v < 16
  {
    if IsDigit(c) then c as int - '0' as int
    else if 'a' as int <= c as int <= 'f' as int then c as int - 'a' as int + 10
    else c as int - 'A' as int + 10
  }

  /** Value of a string of hexadecimal digits, most significant first. */
  function HexDigitsValue(s: string): (v: nat)
    requires forall i :: 0 <= i < |s| ==> IsHexDigit(s[i])
  {
    if s == [] then 0
    else
      var last := s[|s| - 1];
      assert IsHexDigit(last);
      16 * HexDigitsValue(s[..|s| - 1]) + HexDigitValue(last)
  }

  /** `intval( $s, 16 )`, which is C's strtol in base 16: leading whitespace,
      an optional sign, an optional `0x` prefix, then the run of hexadecimal
      digits; 0 when there are none. */
  function HexIntVal(s: string): (n: int) {
    var u := Unsigned(s);
    var w := if |u| >= 2 && u[0] == '0' && (u[1] == 'x' || u[1] == 'X') then u[2..] else u;
    SignOf(s) * HexDigitsValue(w[..Span(w, IsHexDigit)])
  }

  /** `substr( $s, $start, $len )` for a non-negative start and length (PHP 8:
      an empty string when the start lies beyond the end). */
  function Substr(s: string, start: nat, len: nat): (t: string)
    ensures |t| <= len
  {
    if start >= |s| then ""
    else if start + len <= |s| then s[start..start + len]
    else s[start..]
  }

  /** Channel k (0 red, 1 green, 2 blue): two hexadecimal digits each. */
  function Channel(hex: string, k: nat): (byte: int) {
    HexIntVal(Substr(hex, 2 * k, 2))
  }

  /** `( ( $red * 299 ) + ( $green * 587 ) + ( $blue * 114 ) ) / 1000`, with
      exact division where PHP divides in floating point. */
  function Luma(red: int, green: int, blue: int): (yiq: real) {
    (red * 299 + green * 587 + blue * 114) as real / 1000.0
  }

  function Contrast(hex: string): (text: TextColor) {
    if Luma(Channel(hex, 0), Channel(hex, 1), Channel(hex, 2)) >= 140.0 then Black else White
  }

  /** The text up to the first `sep` (or the end). */
  function Before(s: string, sep: char): (t: string)
    ensures |t| <= |s|
  {
    if s == [] || s[0] == sep then [] else [s[0]] + Before(s[1..], sep)
  }

  /** `explode( $sep, $s )[1]`: the text between the first and the second
      separator (or the end); empty when there is no separator, where PHP
      reads an undefined index as null. */
  function SecondPiece(s: string, sep: char): (piece: string) {
    if s == [] then ""
    else if s[0] == sep then Before(s[1..], sep)
    else SecondPiece(s[1..], sep)
  }

  /** The text colour chosen for a stored background such as `#1e73be`. */
  function NoticeTextColor(background: string): (text: TextColor) {
    Contrast(SecondPiece(background, '#'))
  }

  /** Lower-case hexadecimal digit of d. */
  function HexChar(d: nat): (c: char)
    requires d < 16
    ensures IsHexDigit(c) && HexDigitValue(c) == d
  {
    if d < 10 then ('0' as int + d) as char else ('a' as int + d - 10) as char
  }

  /** A colour written as six lower-case hexadecimal digits, `rrggbb`. */
  function HexColor(red: nat, green: nat, blue: nat): (hex: string)
    requires red < 256 && green < 256 && blue < 256
  {
    [HexChar(red / 16), HexChar(red % 16), HexChar(green / 16), HexChar(green % 16),
     HexChar(blue / 16), HexChar(blue % 16)]
  }

  /** Two hexadecimal digits read as one byte. */
  lemma HexIntValOfPair(a: char, b: char)
    requires IsHexDigit(a) && IsHexDigit(b)
    ensures HexIntVal([a, b]) == 16 * HexDigitValue(a) + HexDigitValue(b)
  {
    var s := [a, b];
    assert !IsWhitespace(a) && !IsSign(a);
    assert Span(s, IsWhitespace) == 0;
    assert s[0..] == s;
    assert Unsigned(s) == s;
    assert SignOf(s) == 1;
    assert b != 'x' && b != 'X';
    assert Span(s, IsHexDigit) == 2 by {
      assert s[1..] == [b];
      assert [b][1..] == [];
    }
    assert s[..2] == s;
    assert s[..1] == [a];
    assert [a][..0] == [];
    assert HexDigitsValue([a]) == HexDigitValue(a);
    assert HexDigitsValue(s) == 16 * HexDigitsValue([a]) + HexDigitValue(b);
  }

  /** For a colour of exactly six hexadecimal digits, channel k is the byte
      written by digits 2k and 2k+1. */
  lemma ChannelOfSixDigits(hex: string, k: nat)
    requires |hex| == 6 && forall i :: 0 <= i < 6 ==> IsHexDigit(hex[i])
    requires k < 3
    ensures Channel(hex, k) == 16 * HexDigitValue(hex[2 * k]) + HexDigitValue(hex[2 * k + 1])
    ensures 0 <= Channel(hex, k) < 256
  {
    assert Substr(hex, 2 * k, 2) == [hex[2 * k], hex[2 * k + 1]];
    HexIntValOfPair(hex[2 * k], hex[2 * k + 1]);
  }

  /** The floating-point test `$yiq >= 140` is the integer test
      `299 R + 587 G + 114 B >= 140000`. */
  lemma LumaThreshold(red: int, green: int, blue: int)
    ensures Luma(red, green, blue) >= 140.0 <==> red * 299 + green * 587 + blue * 114 >= 140000
  {
  }

  /** For every six-digit colour: black text exactly when the integer luma
      reaches 140000, and every channel is a byte. */
  lemma ContrastOfSixDigits(hex: string)
    requires |hex| == 6 && forall i :: 0 <= i < 6 ==> IsHexDigit(hex[i])
    ensures forall k :: 0 <= k < 3 ==> 0 <= Channel(hex, k) < 256
    ensures Contrast(hex) == Black <==>
              299 * Channel(hex, 0) + 587 * Channel(hex, 1) + 114 * Channel(hex, 2) >= 140000
  {
    forall k | 0 <= k < 3 ensures 0 <= Channel(hex, k) < 256 {
      ChannelOfSixDigits(hex, k);
    }
    var red, green, blue := Channel(hex, 0), Channel(hex, 1), Channel(hex, 2);
    LumaThreshold(red, green, blue);
  }

  /** `rrggbb` gets black text exactly when 299 r + 587 g + 114 b >= 140000. */
  lemma ContrastOfHexColor(red: nat, green: nat, blue: nat)
    requires red < 256 && green < 256 && blue < 256
    ensures Contrast(HexColor(red, green, blue)) == Black <==> 299 * red + 587 * green + 114 * blue >= 140000
  {
    var hex := HexColor(red, green, blue);
    ChannelOfSixDigits(hex, 0);
    ChannelOfSixDigits(hex, 1);
    ChannelOfSixDigits(hex, 2);
    LumaThreshold(red, green, blue);
  }

  /** Brightening any channel never turns black text into white. */
  lemma ContrastMonotone(red: nat, green: nat, blue: nat, red': nat, green': nat, blue': nat)
    requires red <= red' < 256 && green <= green' < 256 && blue <= blue' < 256
    requires Contrast(HexColor(red, green, blue)) == Black
    ensures Contrast(HexColor(red', green', blue')) == Black
  {
    ContrastOfHexColor(red, green, blue);
    ContrastOfHexColor(red', green', blue');
  }

  lemma WhiteBackgroundBlackText()
    ensures Contrast("ffffff") == Black
  {
    assert HexColor(255, 255, 255) == "ffffff";
    ContrastOfHexColor(255, 255, 255);
  }

  lemma BlackBackgroundWhiteText()
    ensures Contrast("000000") == White
  {
    assert HexColor(0, 0, 0) == "000000";
    ContrastOfHexColor(0, 0, 0);
  }

  /** A luma of exactly 140 (299 + 587 * 231 + 114 * 36 == 140000) picks
      black. */
  lemma BoundaryLumaBlackText()
    ensures Luma(1, 231, 36) == 140.0
    ensures Contrast("01e724") == Black
  {
    assert HexColor(1, 231, 36) == "01e724";
    ContrastOfHexColor(1, 231, 36);
  }

  /** The stored background `#rrggbb` is split at `#` before its channels are
      read. */
  lemma {:induction false} BeforeWithoutSeparator(s: string, sep: char)
    requires sep !in s
    ensures Before(s, sep) == s
  {
    if s != [] {
      BeforeWithoutSeparator(s[1..], sep);
    }
  }

  lemma NoticeTextColorOfHash(hex: string)
    requires '#' !in hex
    ensures NoticeTextColor("#" + hex) == Contrast(hex)
  {
    assert ("#" + hex)[1..] == hex;
    BeforeWithoutSeparator(hex, '#');
  }
}
