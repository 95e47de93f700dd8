/**
 * The text form of a colour: the `#rrggbb` string the picker builds from a
 * sampled pixel, the upper-case copy it displays, and the parse that reads the
 * three channels back out of such a string.
 */
module HexColor {

  /** One colour channel of a sampled pixel. */
  type Byte = x: int | 0 <= x < 256

  /** A pixel as the screenshot delivers it: red, green and blue channels. */
  datatype Rgb = Rgb(r: Byte, g: Byte, b: Byte)

  /** The characters `int(_, 16)` accepts as digits, in either letter case. */
  predicate IsHexDigit(c: char) {
    '0' <= c <= '9' || 'a' <= c <= 'f' || 'A' <= c <= 'F'
  }

  predicate IsLowerHexDigit(c: char) {
    '0' <= c <= '9' || 'a' <= c <= 'f'
  }

  predicate IsUpperHexDigit(c: char) {
    '0' <= c <= '9' || 'A' <= c <= 'F'
  }

  /** The value of one base-16 digit; upper and lower case letters mean the same. */
  function DigitValue(c: char): (d: nat)
    requires IsHexDigit(c)
    ensures d < 16
  {
    if '0' <= c <= '9' then c as int - '0' as int
    else if 'a' <= c <= 'f' then c as int - 'a' as int + 10
    else c as int - 'A' as int + 10
  }

  /** The lower-case digit that the `x` format code writes for a value below 16. */
  function LowerDigit(d: nat): (c: char)
    requires d < 16
    ensures IsLowerHexDigit(c) && DigitValue(c) == d
  {
    if d < 10 then ('0' as int + d) as char else ('a' as int + d - 10) as char
  }

  /** `'{:02x}'.format(b)` for a byte: two lower-case digits, high nibble first. */
  function FormatByte(b: Byte): (s: string)
    ensures |s| == 2 && IsLowerHexDigit(s[0]) && IsLowerHexDigit(s[1])
    ensures 16 * DigitValue(s[0]) + DigitValue(s[1]) == b
  {
    [LowerDigit(b / 16), LowerDigit(b % 16)]
  }

  /** `int(hi + lo, 16)` on a two-character slice made of hex digits. */
  function ParseByte(hi: char, lo: char): Byte
    requires IsHexDigit(hi) && IsHexDigit(lo)
  {
    16 * DigitValue(hi) + DigitValue(lo)
  }

  /** The string the picker builds from a pixel: `'#{:02x}{:02x}{:02x}'.format(r, g, b)`. */
  function FormatColor(c: Rgb): (s: string)
    ensures |s| == 7 && s[0] == '#'
    ensures forall i :: 1 <= i < 7 ==> IsLowerHexDigit(s[i]) && IsHexDigit(s[i])
    ensures ParseByte(s[1], s[2]) == c.r && ParseByte(s[3], s[4]) == c.g && ParseByte(s[5], s[6]) == c.b
  {
    "#" + FormatByte(c.r) + FormatByte(c.g) + FormatByte(c.b)
  }

  /** `str.upper` on one character of the ASCII range; every other character is kept. */
  function UpperChar(c: char): char {
    if 'a' <= c <= 'z' then (c as int - 32) as char else c
  }

  /** `s.upper()` on ASCII text. */
  function ToUpper(s: string): (u: string)
    ensures |u| == |s|
    ensures forall i :: 0 <= i < |s| ==> u[i] == UpperChar(s[i])
  {
    if s == [] then [] else [UpperChar(s[0])] + ToUpper(s[1..])
  }

  /** The text the picker shows in its hex entry after sampling `c`. */
  function DisplayHex(c: Rgb): string {
    ToUpper(FormatColor(c))
  }

  /** `s.lstrip('#')`: every leading `#` is dropped (StripHashesSuffix says nothing else is). */
  function StripHashes(s: string): (t: string)
    ensures |t| <= |s|
    ensures t == [] || t[0] != '#'
  {
    if s != [] && s[0] == '#' then StripHashes(s[1..]) else s
  }

  /** What `lstrip('#')` removes is a run of `#` at the front, and what it keeps is the rest. */
  lemma {:induction false} StripHashesSuffix(s: string)
    ensures StripHashes(s) == s[|s| - |StripHashes(s)|..]
    ensures forall i :: 0 <= i < |s| - |StripHashes(s)| ==> s[i] == '#'
  {
    if s != [] && s[0] == '#' {
      StripHashesSuffix(s[1..]);
    }
  }

  /**
   * The strings whose first six characters after the leading `#`s are hex
   * digits: those on which the three `int(_, 16)` calls all succeed.
   */
  predicate WellFormedHex(s: string) {
    var t := StripHashes(s);
    |t| >= 6 && forall i :: 0 <= i < 6 ==> IsHexDigit(t[i])
  }

  /** The channels read back from characters 0-2, 2-4 and 4-6 after stripping `#`. */
  function ParseRgb(s: string): Rgb
    requires WellFormedHex(s)
  {
    var t := StripHashes(s);
    Rgb(ParseByte(t[0], t[1]), ParseByte(t[2], t[3]), ParseByte(t[4], t[5]))
  }

  /** Upper-casing a hex digit keeps it a digit of the same value. */
  lemma UpperDigit(c: char)
    requires IsHexDigit(c)
    ensures IsHexDigit(UpperChar(c)) && IsUpperHexDigit(UpperChar(c))
    ensures DigitValue(UpperChar(c)) == DigitValue(c)
  {
  }

  /** Upper-casing commutes with stripping the leading `#`s. */
  lemma {:induction false} StripHashesToUpper(s: string)
    ensures StripHashes(ToUpper(s)) == ToUpper(StripHashes(s))
  {
    if s != [] && s[0] == '#' {
      assert ToUpper(s)[1..] == ToUpper(s[1..]);
      StripHashesToUpper(s[1..]);
    }
  }

  /** Parsing ignores letter case: an upper-cased colour string reads back the same channels. */
  lemma ParseIgnoresCase(s: string)
    requires WellFormedHex(s)
    ensures WellFormedHex(ToUpper(s))
    ensures ParseRgb(ToUpper(s)) == ParseRgb(s)
  {
    var t := StripHashes(s);
    StripHashesToUpper(s);
    var u := ToUpper(t);
    assert StripHashes(ToUpper(s)) == u;
    UpperDigit(t[0]);
    UpperDigit(t[1]);
    UpperDigit(t[2]);
    UpperDigit(t[3]);
    UpperDigit(t[4]);
    UpperDigit(t[5]);
  }

  /** The formatted colour is well formed and reads back as the pixel it came from. */
  lemma FormatColorRoundTrip(c: Rgb)
    ensures WellFormedHex(FormatColor(c))
    ensures ParseRgb(FormatColor(c)) == c
  {
    var s := FormatColor(c);
    assert StripHashes(s[1..]) == s[1..];
    assert StripHashes(s) == s[1..];
  }

  /** The displayed colour: `#` then six upper-case digits, reading back as the pixel. */
  lemma DisplayHexRoundTrip(c: Rgb)
    ensures |DisplayHex(c)| == 7 && DisplayHex(c)[0] == '#'
    ensures forall i :: 1 <= i < 7 ==> IsUpperHexDigit(DisplayHex(c)[i])
    ensures WellFormedHex(DisplayHex(c))
    ensures ParseRgb(DisplayHex(c)) == c
  {
    var s := FormatColor(c);
    FormatColorRoundTrip(c);
    ParseIgnoresCase(s);
    forall i | 1 <= i < 7
      ensures IsUpperHexDigit(DisplayHex(c)[i])
    {
      UpperDigit(s[i]);
    }
  }

  /** Two different pixels never format to the same string. */
  lemma FormatColorInjective(c1: Rgb, c2: Rgb)
    requires FormatColor(c1) == FormatColor(c2)
    ensures c1 == c2
  {
    FormatColorRoundTrip(c1);
    FormatColorRoundTrip(c2);
  }
}
