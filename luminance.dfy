/**
 * The dark/light decision that picks the text colour of a favourite's row:
 * perceived luminance 0.299 R + 0.587 G + 0.114 B over channels scaled to
 * [0, 1], compared with one half.
 */
module Luminance {
  import opened HexColor

  /** Perceived luminance of a pixel, channels divided by 255, as exact reals. */
  function Brightness(c: Rgb): real {
    0.299 * (c.r as real / 255.0) + 0.587 * (c.g as real / 255.0) + 0.114 * (c.b as real / 255.0)
  }

  /** `is_dark_color`: strip `#`, read three channels, and ask whether the brightness is below 0.5. */
  predicate IsDarkColor(hex: string)
    requires WellFormedHex(hex)
  {
    Brightness(ParseRgb(hex)) < 0.5
  }

  /** The luminance weighting in thousandths, over integers. */
  function Weighted(c: Rgb): int {
    299 * c.r + 587 * c.g + 114 * c.b
  }

  /** The foreground a favourite's row gets: white on dark colours, black on light ones. */
  function TextColor(hex: string): (fg: string)
    requires WellFormedHex(hex)
    ensures fg == "white" <==> IsDarkColor(hex)
    ensures fg == "black" <==> !IsDarkColor(hex)
  {
    if IsDarkColor(hex) then "white" else "black"
  }

  /** The real-valued test is exactly the integer inequality 299 R + 587 G + 114 B < 127500. */
  lemma DarkIffWeightedBelow(hex: string)
    requires WellFormedHex(hex)
    ensures IsDarkColor(hex) <==> Weighted(ParseRgb(hex)) < 127500
  {
    var c := ParseRgb(hex);
    assert Brightness(c) == Weighted(c) as real / 255000.0;
  }

  /** A sampled pixel is shown dark exactly when its weighted sum is below 127500. */
  lemma SampledDarkIff(c: Rgb)
    ensures WellFormedHex(FormatColor(c)) && WellFormedHex(DisplayHex(c))
    ensures IsDarkColor(FormatColor(c)) <==> Weighted(c) < 127500
    ensures IsDarkColor(DisplayHex(c)) <==> IsDarkColor(FormatColor(c))
  {
    FormatColorRoundTrip(c);
    DisplayHexRoundTrip(c);
    DarkIffWeightedBelow(FormatColor(c));
    DarkIffWeightedBelow(DisplayHex(c));
  }

  /** Black is dark, written as the picker formats it. */
  lemma BlackIsDark()
    ensures WellFormedHex("#000000") && IsDarkColor("#000000")
  {
    var black := Rgb(0, 0, 0);
    assert FormatColor(black) == "#000000" by {
      assert FormatByte(0) == "00";
    }
    FormatColorRoundTrip(black);
    assert Brightness(black) == 0.0;
  }

  /** White is light, written as the picker displays it. */
  lemma WhiteIsLight()
    ensures WellFormedHex("#FFFFFF") && !IsDarkColor("#FFFFFF")
  {
    var white := Rgb(255, 255, 255);
    SampledDarkIff(white);
    assert DisplayHex(white) == "#FFFFFF";
  }

  /** Raising any channel never turns a light colour dark. */
  lemma BrighterNeverDarker(lighter: string, darker: string)
    requires WellFormedHex(lighter) && WellFormedHex(darker)
    requires ParseRgb(darker).r <= ParseRgb(lighter).r
    requires ParseRgb(darker).g <= ParseRgb(lighter).g
    requires ParseRgb(darker).b <= ParseRgb(lighter).b
    ensures IsDarkColor(lighter) ==> IsDarkColor(darker)
  {
    DarkIffWeightedBelow(lighter);
    DarkIffWeightedBelow(darker);
  }
}
