/*******************************************************************************
 *  The display's `hexToRgb`: the six-digit hexadecimal colour notation of CSS
 *  Color Module Level 4 ("The RGB hexadecimal notations"), with the leading
 *  `#` optional and the digits case-insensitive.
 *******************************************************************************/

module Colour {
  import opened Js

  type Byte = x: int | 0 <= x < 256

  datatype Rgb = Rgb(r: Byte, g: Byte, b: Byte)

  predicate IsHex(c: char) {
    DigitValue(c, 16).Some?
  }

  /** Two hex digits as one byte (`parseInt(pair, 16)`). */
  function HexByte(hi: char, lo: char): Byte
    requires IsHex(hi) && IsHex(lo)
  {
    DigitValue(hi, 16).value * 16 + DigitValue(lo, 16).value
  }

  /** The text matches `^#?([a-f\d]{2})([a-f\d]{2})([a-f\d]{2})$` under the
      case-insensitive flag. */
  predicate IsHexColour(s: string) {
    || (|s| == 7 && s[0] == '#' && AllDigits(s[1..], 16))
    || (|s| == 6 && AllDigits(s, 16))
  }

  /** `hexToRgb(hex)`: the three channels, or None (null) when the text is not
      a six-digit hex colour. */
  function HexToRgb(s: string): (r: Option<Rgb>)
    ensures r.Some? <==> IsHexColour(s)
  {
    var h := if |s| == 7 && s[0] == '#' then s[1..] else s;
    if |h| == 6 && AllDigits(h, 16) then
      Some(Rgb(HexByte(h[0], h[1]), HexByte(h[2], h[3]), HexByte(h[4], h[5])))
    else None
  }

  /** The hex digit of a value below 16, in either case. */
  function HexDigit(v: nat, upper: bool): (c: char)
    requires v < 16
    ensures DigitValue(c, 16) == Some(v)
  {
    if v < 10 then ('0' as nat + v) as char
    else if upper then ('A' as nat + v - 10) as char
    else ('a' as nat + v - 10) as char
  }

  /** A byte as two hex digits. */
  function HexPair(b: Byte, upper: bool): (s: string)
    ensures |s| == 2 && IsHex(s[0]) && IsHex(s[1]) && HexByte(s[0], s[1]) == b
  {
    [HexDigit(b / 16, upper), HexDigit(b % 16, upper)]
  }

  /** The colour written as `#rrggbb` (or `#RRGGBB`), the form a colour input
      produces. */
  function FormatHex(c: Rgb, upper: bool): string {
    "#" + HexPair(c.r, upper) + HexPair(c.g, upper) + HexPair(c.b, upper)
  }

  /** Every colour written as hex, with or without `#` and in either case,
      parses back to the same channels. */
  lemma HexRoundTrip(c: Rgb, upper: bool)
    ensures HexToRgb(FormatHex(c, upper)) == Some(c)
    ensures HexToRgb(FormatHex(c, upper)[1..]) == Some(c)
  {
    var s := FormatHex(c, upper);
    assert s[1..] == HexPair(c.r, upper) + HexPair(c.g, upper) + HexPair(c.b, upper);
    assert AllDigits(s[1..], 16);
  }

  /** Changing the case of a hex letter does not change the result. */
  lemma HexCaseInsensitive(s: string, i: nat, c: char)
    requires i < |s| && IsHex(s[i]) && IsHex(c) && DigitValue(c, 16) == DigitValue(s[i], 16)
    ensures HexToRgb(s[i := c]) == HexToRgb(s)
  {
    var t := s[i := c];
    assert s[0] == '#' <==> t[0] == '#';
    if |s| == 7 && s[0] == '#' {
      assert t[1..] == s[1..][i - 1 := c];
      SameDigitValues(s[1..], t[1..]);
    } else {
      SameDigitValues(s, t);
    }
  }

  /** Two texts whose characters have the same digit values, place by place,
      read as the same channels. */
  lemma SameDigitValues(h: string, h': string)
    requires |h| == |h'|
    requires forall j | 0 <= j < |h| :: DigitValue(h'[j], 16) == DigitValue(h[j], 16)
    ensures AllDigits(h, 16) <==> AllDigits(h', 16)
    ensures |h| == 6 && AllDigits(h, 16) ==>
      && HexByte(h'[0], h'[1]) == HexByte(h[0], h[1])
      && HexByte(h'[2], h'[3]) == HexByte(h[2], h[3])
      && HexByte(h'[4], h'[5]) == HexByte(h[4], h[5])
  {
  }
}
