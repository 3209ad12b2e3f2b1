/** A value that may be absent. */
module Options {
  datatype Option<+T> = None | Some(value: T)
}

/**
 rgbToHex: '#' followed by each channel as two lowercase hexadecimal digits,
 built as the source does, from Number.prototype.toString(16) with a '0'
 prepended below 16; and a parser for the same format, which shows the
 output determines the colour.
 */
module Hex {
  import opened Options
  import opened Wcag

  const HexDigits: string := "0123456789abcdef"

  predicate IsHexDigit(ch: char) {
    ch in HexDigits
  }

  function Digit(d: nat): (ch: char)
    requires d < 16
    ensures IsHexDigit(ch)
  {
    HexDigits[d]
  }

  /** The value of a lowercase hexadecimal digit; None for anything else, upper-case digits included. */
  function DigitValue(ch: char): (v: Option<nat>)
    ensures v.Some? <==> IsHexDigit(ch)
    ensures v.Some? ==> v.value < 16 && Digit(v.value) == ch
  {
    if '0' <= ch <= '9' then Some(ch as int - '0' as int)
    else if 'a' <= ch <= 'f' then Some(ch as int - 'a' as int + 10)
    else None
  }

  lemma DigitValueOfDigit(d: nat)
    requires d < 16
    ensures DigitValue(Digit(d)) == Some(d)
  {
  }

  /** Number.prototype.toString(16) on a natural number: lowercase digits, no leading zero. */
  function ToHexString(n: nat): (s: string)
    ensures 1 <= |s|
    ensures |s| == 1 <==> n < 16
    ensures n > 0 ==> s[0] != '0'
    ensures forall i :: 0 <= i < |s| ==> IsHexDigit(s[i])
    decreases n
  {
    if n < 16 then [Digit(n)] else ToHexString(n / 16) + [Digit(n % 16)]
  }

  /** The number a string of lowercase hexadecimal digits denotes. */
  function HexValue(s: string): nat
    requires forall i :: 0 <= i < |s| ==> IsHexDigit(s[i])
  {
    if s == [] then 0
    else HexValue(s[..|s| - 1]) * 16 + DigitValue(s[|s| - 1]).value
  }

  /** toString(16) loses nothing: reading its digits back gives the number. */
  lemma {:induction false} HexValueOfToHexString(n: nat)
    ensures HexValue(ToHexString(n)) == n
    decreases n
  {
    var s := ToHexString(n);
    DigitValueOfDigit(n % 16);
    if n < 16 {
      assert s[..0] == [];
    } else {
      HexValueOfToHexString(n / 16);
      assert s[..|s| - 1] == ToHexString(n / 16);
    }
  }

  /** One channel: toString(16), zero-padded to two digits. */
  function ChannelHex(c: Channel): (s: string)
    ensures |s| == 2 && IsHexDigit(s[0]) && IsHexDigit(s[1])
  {
    if c < 16 then "0" + ToHexString(c) else ToHexString(c)
  }

  /** Every channel is written as exactly two digits: the high and the low nibble. */
  lemma ChannelHexIsTwoDigits(c: Channel)
    ensures ChannelHex(c) == [Digit(c / 16), Digit(c % 16)]
    ensures c < 16 ==> ChannelHex(c)[0] == '0'
  {
    if c >= 16 {
      assert ToHexString(c / 16) == [Digit(c / 16)];
    }
  }

  function RgbToHex(color: RGB): (s: string)
    ensures |s| == 7 && s[0] == '#'
    ensures forall i :: 1 <= i < 7 ==> IsHexDigit(s[i])
  {
    var r, g, b := ChannelHex(color.r), ChannelHex(color.g), ChannelHex(color.b);
    var s := "#" + r + g + b;
    assert s[1] == r[0] && s[2] == r[1] && s[3] == g[0] && s[4] == g[1] && s[5] == b[0] && s[6] == b[1];
    s
  }

  /** Two digits back to a channel. */
  function ParseChannel(hi: char, lo: char): (c: Option<Channel>)
    ensures c.Some? <==> IsHexDigit(hi) && IsHexDigit(lo)
  {
    match (DigitValue(hi), DigitValue(lo))
    case (Some(h), Some(l)) => Some(h * 16 + l)
    case _ => None
  }

  /** The inverse of rgbToHex: "#rrggbb" with lowercase digits, anything else None. */
  function ParseHex(s: string): Option<RGB> {
    if |s| != 7 || s[0] != '#' then None
    else
      match (ParseChannel(s[1], s[2]), ParseChannel(s[3], s[4]), ParseChannel(s[5], s[6]))
      case (Some(r), Some(g), Some(b)) => Some(RGB(r, g, b))
      case _ => None
  }

  lemma ParseChannelOfDigits(c: Channel)
    ensures ParseChannel(Digit(c / 16), Digit(c % 16)) == Some(c)
  {
    var h, l := c / 16, c % 16;
    DigitValueOfDigit(h);
    DigitValueOfDigit(l);
    assert ParseChannel(Digit(h), Digit(l)) == Some(h * 16 + l);
  }

  /** Reading the hex string back gives the colour it was made from. */
  lemma ParseRgbToHex(color: RGB)
    ensures ParseHex(RgbToHex(color)) == Some(color)
  {
    ChannelHexIsTwoDigits(color.r);
    ChannelHexIsTwoDigits(color.g);
    ChannelHexIsTwoDigits(color.b);
    ParseChannelOfDigits(color.r);
    ParseChannelOfDigits(color.g);
    ParseChannelOfDigits(color.b);
    var s := RgbToHex(color);
    assert s[1] == Digit(color.r / 16) && s[2] == Digit(color.r % 16);
    assert s[3] == Digit(color.g / 16) && s[4] == Digit(color.g % 16);
    assert s[5] == Digit(color.b / 16) && s[6] == Digit(color.b % 16);
  }

  lemma ParseChannelDigits(hi: char, lo: char, c: Channel)
    requires ParseChannel(hi, lo) == Some(c)
    ensures hi == Digit(c / 16) && lo == Digit(c % 16)
  {
    var h, l := DigitValue(hi).value, DigitValue(lo).value;
    assert c == h * 16 + l;
    assert c / 16 == h && c % 16 == l;
  }

  /** The parser accepts nothing but rgbToHex's own output, so the format is a bijection. */
  lemma ParseHexOnlyCanonical(s: string)
    ensures ParseHex(s).Some? ==> s == RgbToHex(ParseHex(s).value)
  {
    if ParseHex(s).Some? {
      var color := ParseHex(s).value;
      ParseChannelDigits(s[1], s[2], color.r);
      ParseChannelDigits(s[3], s[4], color.g);
      ParseChannelDigits(s[5], s[6], color.b);
      ChannelHexIsTwoDigits(color.r);
      ChannelHexIsTwoDigits(color.g);
      ChannelHexIsTwoDigits(color.b);
      SplitSeven(s);
    }
  }

  lemma SplitSeven(s: string)
    requires |s| == 7
    ensures s == [s[0]] + [s[1], s[2]] + [s[3], s[4]] + [s[5], s[6]]
  {
  }

  /** Different colours never share a hex string. */
  lemma RgbToHexInjective(a: RGB, b: RGB)
    requires RgbToHex(a) == RgbToHex(b)
    ensures a == b
  {
    ParseRgbToHex(a);
    ParseRgbToHex(b);
  }
}
