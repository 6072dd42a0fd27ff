/** The colour logic of the page script (script.js): its own copies of the hex,
    HSL and CMYK conversions, fixed-percentage lightening and darkening, the
    text colour chosen for a swatch, and the nine-step shade ramp. */
module Script {
  import opened JsBuiltins
  import ColorUtils

  type Rgb = ColorUtils.Rgb

  // ===========================================================================
  // The conversions script.js repeats

  /** hexToRgb, the same regular expression and parseInt calls as the library's. */
  function HexToRgb(hex: string): (rgb: Option<Rgb>)
    ensures rgb == ColorUtils.HexToRgb(hex)
  {
    var digits := ColorUtils.StripHash(hex);
    if |digits| == 6 && AllHexDigits(digits) then
      Some(ColorUtils.Rgb(ParseRadix(digits[0..2], 16), ParseRadix(digits[2..4], 16), ParseRadix(digits[4..6], 16)))
    else
      None
  }

  /** rgbToHsl, written out with the channel switch inline. */
  function RgbToHsl(r: int, g: int, b: int): ColorUtils.Hsl
    requires ColorUtils.IsByte(r) && ColorUtils.IsByte(g) && ColorUtils.IsByte(b)
  {
    var R, G, B := r as real / 255.0, g as real / 255.0, b as real / 255.0;
    var max := ColorUtils.Max3(R, G, B);
    var min := ColorUtils.Min3(R, G, B);
    var l := (max + min) / 2.0;
    if max == min then
      ColorUtils.HslOfFractions(0.0, 0.0, l)
    else
      var d := max - min;
      var s := if l > 0.5 then d / (2.0 - max - min) else d / (max + min);
      var h :=
        if max == R then ((G - B) / d + (if G < B then 6.0 else 0.0)) / 6.0
        else if max == G then ((B - R) / d + 2.0) / 6.0
        else ((R - G) / d + 4.0) / 6.0;
      ColorUtils.HslOfFractions(h, s, l)
  }

  /** The page's rgbToHsl agrees with the library's on every byte colour. */
  lemma RgbToHslAgrees(r: int, g: int, b: int)
    requires ColorUtils.IsByte(r) && ColorUtils.IsByte(g) && ColorUtils.IsByte(b)
    ensures RgbToHsl(r, g, b) == ColorUtils.RgbToHsl(r, g, b)
  {
    var R, G, B := r as real / 255.0, g as real / 255.0, b as real / 255.0;
    var max := ColorUtils.Max3(R, G, B);
    var min := ColorUtils.Min3(R, G, B);
    if max != min {
      var d := max - min;
      var l := (max + min) / 2.0;
      var s := if l > 0.5 then d / (2.0 - max - min) else d / (max + min);
      var h :=
        if max == R then ((G - B) / d + (if G < B then 6.0 else 0.0)) / 6.0
        else if max == G then ((B - R) / d + 2.0) / 6.0
        else ((R - G) / d + 4.0) / 6.0;
      assert ColorUtils.HueTurn(R, G, B) == h;
      assert ColorUtils.SaturationFraction(max, min) == s;
    }
  }

  /** rgbToCmyk, written out inline; it agrees with the library's on every input. */
  function RgbToCmyk(r: int, g: int, b: int): (cmyk: ColorUtils.Cmyk)
    ensures cmyk == ColorUtils.RgbToCmyk(r, g, b)
  {
    var c := 1.0 - r as real / 255.0;
    var m := 1.0 - g as real / 255.0;
    var y := 1.0 - b as real / 255.0;
    var k := ColorUtils.Min3(c, m, y);
    if k == 1.0 then
      ColorUtils.Cmyk(Round(0.0 * 100.0), Round(0.0 * 100.0), Round(0.0 * 100.0), Round(k * 100.0))
    else
      ColorUtils.Cmyk(Round((c - k) / (1.0 - k) * 100.0),
                      Round((m - k) / (1.0 - k) * 100.0),
                      Round((y - k) / (1.0 - k) * 100.0),
                      Round(k * 100.0))
  }

  // ===========================================================================
  // Hex text of a colour

  /** `n.toString(16).padStart(2, '0')`. */
  function Channel(n: int): string {
    PadStart(NumberToString(n, 16), 2, '0')
  }

  /** The template `#${r…}${g…}${b…}` used by lightenColor, darkenColor and the extraction. */
  function FormatRgb(r: int, g: int, b: int): string {
    "#" + Channel(r) + Channel(g) + Channel(b)
  }

  /** For a non-negative channel, padStart writes the same digits as the library's toHex. */
  lemma ChannelIsToHex(n: int)
    requires 0 <= n
    ensures Channel(n) == ColorUtils.ToHex(n)
  {
    var digits := ToRadixString(n, 16);
    PadStartSpec(digits, 2, '0');
    if |digits| == 1 {
      assert PadStart(digits, 2, '0') == ['0'] + digits;
    }
  }

  /** For byte channels the template gives exactly rgbToHex's text, so it is
      canonical and parses back to the channels. */
  lemma {:induction false} FormatRgbIsRgbHex(c: Rgb)
    requires ColorUtils.IsRgb(c)
    ensures FormatRgb(c.r, c.g, c.b) == ColorUtils.RgbHex(c)
    ensures ColorUtils.IsCanonicalHex(FormatRgb(c.r, c.g, c.b))
    ensures HexToRgb(FormatRgb(c.r, c.g, c.b)) == Some(c)
  {
    ChannelIsToHex(c.r);
    ChannelIsToHex(c.g);
    ChannelIsToHex(c.b);
    RoundOfInt(c.r);
    RoundOfInt(c.g);
    RoundOfInt(c.b);
    ColorUtils.HexRoundTrip(c);
  }

  // ===========================================================================
  // Lighten and darken

  /** One channel of lightenColor: moved `percent` of the way to 255, capped at 255. */
  function LightenChannel(x: int, percent: real): int {
    Min(255, ColorUtils.TintBy(x, percent))
  }

  /** One channel of darkenColor: scaled by 1 - percent, floored at 0. */
  function DarkenChannel(x: int, percent: real): int {
    Max(0, ColorUtils.ShadeBy(x, percent))
  }

  function Lightened(c: Rgb, percent: real): Rgb {
    ColorUtils.Rgb(LightenChannel(c.r, percent), LightenChannel(c.g, percent), LightenChannel(c.b, percent))
  }

  function Darkened(c: Rgb, percent: real): Rgb {
    ColorUtils.Rgb(DarkenChannel(c.r, percent), DarkenChannel(c.g, percent), DarkenChannel(c.b, percent))
  }

  /** For a fraction in [0, 1], lightening keeps each channel between its old
      value and 255, and a larger fraction lightens at least as much. */
  lemma {:induction false} LightenChannelOrder(x: int, p: real, p': real)
    requires ColorUtils.IsByte(x) && 0.0 <= p <= p' <= 1.0
    ensures x <= LightenChannel(x, p) <= LightenChannel(x, p') <= 255
  {
    ColorUtils.TintByOrder(x, p, p');
  }

  /** For a fraction in [0, 1], darkening keeps each channel between 0 and its
      old value, and a larger fraction darkens at least as much. */
  lemma {:induction false} DarkenChannelOrder(x: int, p: real, p': real)
    requires ColorUtils.IsByte(x) && 0.0 <= p <= p' <= 1.0
    ensures 0 <= DarkenChannel(x, p') <= DarkenChannel(x, p) <= x
  {
    ColorUtils.ShadeByOrder(x, p, p');
  }

  /** Darkening by 0 leaves every channel as it was. */
  lemma {:induction false} DarkenByZero(c: Rgb)
    requires ColorUtils.IsRgb(c)
    ensures Darkened(c, 0.0) == c
  {
    assert c.r as real * (1.0 - 0.0) == c.r as real;
    assert c.g as real * (1.0 - 0.0) == c.g as real;
    assert c.b as real * (1.0 - 0.0) == c.b as real;
    RoundOfInt(c.r);
    RoundOfInt(c.g);
    RoundOfInt(c.b);
  }

  lemma LightenedOrder(c: Rgb, p: real, p': real)
    requires ColorUtils.IsRgb(c) && 0.0 <= p <= p' <= 1.0
    ensures ColorUtils.IsRgb(Lightened(c, p)) && ColorUtils.NoLighter(c, Lightened(c, p))
    ensures ColorUtils.NoLighter(Lightened(c, p), Lightened(c, p'))
  {
    LightenChannelOrder(c.r, p, p');
    LightenChannelOrder(c.g, p, p');
    LightenChannelOrder(c.b, p, p');
  }

  lemma DarkenedOrder(c: Rgb, p: real, p': real)
    requires ColorUtils.IsRgb(c) && 0.0 <= p <= p' <= 1.0
    ensures ColorUtils.IsRgb(Darkened(c, p)) && ColorUtils.NoLighter(Darkened(c, p), c)
    ensures ColorUtils.NoLighter(Darkened(c, p'), Darkened(c, p))
  {
    DarkenChannelOrder(c.r, p, p');
    DarkenChannelOrder(c.g, p, p');
    DarkenChannelOrder(c.b, p, p');
  }

  /** lightenColor. The hex must parse (the source reads the channels of
      hexToRgb's result). */
  function LightenColor(hex: string, percent: real): string
    requires HexToRgb(hex).Some?
  {
    var rgb := HexToRgb(hex).value;
    FormatRgb(LightenChannel(rgb.r, percent), LightenChannel(rgb.g, percent), LightenChannel(rgb.b, percent))
  }

  /** For a fraction in [0, 1], lightenColor gives rgbToHex's text of the
      lightened colour, no darker than the input in any channel. */
  lemma LightenColorSpec(hex: string, percent: real)
    requires HexToRgb(hex).Some? && 0.0 <= percent <= 1.0
    ensures ColorUtils.IsCanonicalHex(LightenColor(hex, percent))
    ensures HexToRgb(LightenColor(hex, percent)) == Some(Lightened(HexToRgb(hex).value, percent))
    ensures ColorUtils.NoLighter(HexToRgb(hex).value, Lightened(HexToRgb(hex).value, percent))
  {
    var rgb := HexToRgb(hex).value;
    LightenedOrder(rgb, percent, percent);
    FormatRgbIsRgbHex(Lightened(rgb, percent));
  }

  /** darkenColor. */
  function DarkenColor(hex: string, percent: real): string
    requires HexToRgb(hex).Some?
  {
    var rgb := HexToRgb(hex).value;
    FormatRgb(DarkenChannel(rgb.r, percent), DarkenChannel(rgb.g, percent), DarkenChannel(rgb.b, percent))
  }

  /** For a fraction in [0, 1], darkenColor gives rgbToHex's text of the
      darkened colour, no lighter than the input in any channel. */
  lemma DarkenColorSpec(hex: string, percent: real)
    requires HexToRgb(hex).Some? && 0.0 <= percent <= 1.0
    ensures ColorUtils.IsCanonicalHex(DarkenColor(hex, percent))
    ensures HexToRgb(DarkenColor(hex, percent)) == Some(Darkened(HexToRgb(hex).value, percent))
    ensures ColorUtils.NoLighter(Darkened(HexToRgb(hex).value, percent), HexToRgb(hex).value)
  {
    var rgb := HexToRgb(hex).value;
    DarkenedOrder(rgb, percent, percent);
    FormatRgbIsRgbHex(Darkened(rgb, percent));
  }

  /** Darkening by 0 gives back the colour itself, in lower-case rgbToHex form. */
  lemma DarkenByZeroColor(hex: string)
    requires HexToRgb(hex).Some?
    ensures HexToRgb(DarkenColor(hex, 0.0)) == HexToRgb(hex)
  {
    DarkenColorSpec(hex, 0.0);
    DarkenByZero(HexToRgb(hex).value);
  }

  // ===========================================================================
  // Text colour

  /** getTextColor: black text exactly when the brightness
      (299 r + 587 g + 114 b) / 1000 exceeds 128, white text otherwise. */
  function GetTextColor(hex: string): (text: string)
    requires HexToRgb(hex).Some?
    ensures text == "#000000" || text == "#FFFFFF"
    ensures var c := HexToRgb(hex).value;
      text == "#000000" <==> 299 * c.r + 587 * c.g + 114 * c.b > 128000
  {
    var rgb := HexToRgb(hex).value;
    var brightness := (rgb.r * 299 + rgb.g * 587 + rgb.b * 114) as real / 1000.0;
    if brightness > 128.0 then "#000000" else "#FFFFFF"
  }

  /** A colour no darker than one that gets black text also gets black text. */
  lemma {:induction false} TextColorMonotone(dark: string, light: string)
    requires HexToRgb(dark).Some? && HexToRgb(light).Some?
    requires ColorUtils.NoLighter(HexToRgb(dark).value, HexToRgb(light).value)
    ensures GetTextColor(dark) == "#000000" ==> GetTextColor(light) == "#000000"
  {
    var d, l := HexToRgb(dark).value, HexToRgb(light).value;
    assert 299 * d.r + 587 * d.g + 114 * d.b <= 299 * l.r + 587 * l.g + 114 * l.b;
  }

  lemma TextColorExamples()
    ensures GetTextColor("#000000") == "#FFFFFF"
    ensures GetTextColor("#ffffff") == "#000000"
  {
    ParseExample();
  }

  lemma ParseExample()
    ensures HexToRgb("#000000") == Some(ColorUtils.Rgb(0, 0, 0))
    ensures HexToRgb("#ffffff") == Some(ColorUtils.Rgb(255, 255, 255))
  {
    ColorUtils.HexOfBytes(0, 0, 0);
    ColorUtils.HexOfBytes(255, 255, 255);
    assert ToRadixString(0, 16) == "0";
    assert ColorUtils.ToHex(0) == "00";
    assert "#" + ColorUtils.ToHex(0) + ColorUtils.ToHex(0) + ColorUtils.ToHex(0) == "#000000";
    assert ToRadixString(15, 16) == "f";
    assert ToRadixString(255, 16) == "ff";
    assert ColorUtils.ToHex(255) == "ff";
    assert "#" + ColorUtils.ToHex(255) + ColorUtils.ToHex(255) + ColorUtils.ToHex(255) == "#ffffff";
  }

  // ===========================================================================
  // The shade ramp

  /** The step of the ramp: i * 0.15. */
  function Step(i: int): real {
    i as real * 0.15
  }

  /** The colour of swatch k of the ramp: four lightened, the colour, four darkened. */
  function RampColor(c: Rgb, k: int): Rgb {
    if k < 4 then Lightened(c, Step(4 - k))
    else if k == 4 then c
    else Darkened(c, Step(k - 4))
  }

  /** Each swatch of the ramp is a byte colour no lighter than the one before it. */
  lemma RampColorOrder(c: Rgb, k: int)
    requires ColorUtils.IsRgb(c) && 0 <= k < 8
    ensures ColorUtils.IsRgb(RampColor(c, k)) && ColorUtils.IsRgb(RampColor(c, k + 1))
    ensures ColorUtils.NoLighter(RampColor(c, k + 1), RampColor(c, k))
  {
    if k < 3 {
      LightenedOrder(c, Step(3 - k), Step(4 - k));
    } else if k == 3 {
      LightenedOrder(c, Step(1), Step(1));
    } else if k == 4 {
      DarkenedOrder(c, Step(1), Step(1));
    } else {
      DarkenedOrder(c, Step(k - 4), Step(k - 3));
    }
  }

  /** The lightened swatches for steps 4 down to i + 1, in that order. */
  function LighterRun(hex: string, i: int): seq<string>
    requires HexToRgb(hex).Some? && 0 <= i <= 4
    decreases hex, 4 - i
  {
    if i == 4 then [] else LighterRun(hex, i + 1) + [LightenColor(hex, Step(i + 1))]
  }

  /** The darkened swatches for steps 1 up to i - 1, in that order. */
  function DarkerRun(hex: string, i: int): seq<string>
    requires HexToRgb(hex).Some? && 1 <= i <= 5
    decreases hex, i
  {
    if i == 1 then [] else DarkerRun(hex, i - 1) + [DarkenColor(hex, Step(i - 1))]
  }

  /** The nine swatches of the ramp. */
  function Ramp(hex: string): seq<string>
    requires HexToRgb(hex).Some?
  {
    LighterRun(hex, 0) + [hex] + DarkerRun(hex, 5)
  }

  lemma LighterRunStep(hex: string, i: int)
    requires HexToRgb(hex).Some? && 1 <= i <= 4
    ensures LighterRun(hex, i - 1) == LighterRun(hex, i) + [LightenColor(hex, Step(i))]
  {
  }

  lemma DarkerRunStep(hex: string, i: int)
    requires HexToRgb(hex).Some? && 1 <= i <= 4
    ensures DarkerRun(hex, i + 1) == DarkerRun(hex, i) + [DarkenColor(hex, Step(i))]
  {
  }

  /** The first loop of generateShades: lightenColor(hex, 0.15 i) for i = 4 down to 1. */
  method LighterShades(hex: string) returns (run: seq<string>)
    requires HexToRgb(hex).Some?
    ensures run == LighterRun(hex, 0)
  {
    run := [];
    var i := 4;
    while i >= 1
      invariant 0 <= i <= 4 && run == LighterRun(hex, i)
    {
      LighterRunStep(hex, i);
      run := run + [LightenColor(hex, Step(i))];
      i := i - 1;
    }
  }

  /** The second loop of generateShades: darkenColor(hex, 0.15 i) for i = 1 up to 4. */
  method DarkerShades(hex: string) returns (run: seq<string>)
    requires HexToRgb(hex).Some?
    ensures run == DarkerRun(hex, 5)
  {
    run := [];
    var i := 1;
    while i <= 4
      invariant 1 <= i <= 5 && run == DarkerRun(hex, i)
    {
      DarkerRunStep(hex, i);
      run := run + [DarkenColor(hex, Step(i))];
      i := i + 1;
    }
  }

  /** generateShades of the page: the lightened swatches for 0.60, 0.45, 0.30
      and 0.15, the colour itself, then the darkened ones for 0.15 to 0.60. */
  method GenerateShades(hex: string) returns (ramp: seq<string>)
    requires HexToRgb(hex).Some?
    ensures ramp == Ramp(hex)
  {
    var lighter := LighterShades(hex);
    var darker := DarkerShades(hex);
    ramp := lighter + [hex] + darker;
  }

  lemma {:induction false} LighterRunIndex(hex: string, i: int)
    requires HexToRgb(hex).Some? && 0 <= i <= 4
    ensures |LighterRun(hex, i)| == 4 - i
    ensures forall k :: 0 <= k < 4 - i ==> LighterRun(hex, i)[k] == LightenColor(hex, Step(4 - k))
    decreases 4 - i
  {
    if i < 4 {
      LighterRunIndex(hex, i + 1);
      var run, last := LighterRun(hex, i + 1), LightenColor(hex, Step(i + 1));
      assert LighterRun(hex, i) == run + [last];
      forall k | 0 <= k < 4 - i
        ensures LighterRun(hex, i)[k] == LightenColor(hex, Step(4 - k))
      {
        if k < 3 - i {
          assert (run + [last])[k] == run[k];
        } else {
          assert (run + [last])[k] == last;
          assert 4 - k == i + 1;
        }
      }
    }
  }

  lemma {:induction false} DarkerRunIndex(hex: string, i: int)
    requires HexToRgb(hex).Some? && 1 <= i <= 5
    ensures |DarkerRun(hex, i)| == i - 1
    ensures forall k :: 0 <= k < i - 1 ==> DarkerRun(hex, i)[k] == DarkenColor(hex, Step(k + 1))
  {
    if i > 1 {
      DarkerRunIndex(hex, i - 1);
      var run, last := DarkerRun(hex, i - 1), DarkenColor(hex, Step(i - 1));
      assert DarkerRun(hex, i) == run + [last];
      forall k | 0 <= k < i - 1
        ensures DarkerRun(hex, i)[k] == DarkenColor(hex, Step(k + 1))
      {
        if k < i - 2 {
          assert (run + [last])[k] == run[k];
        } else {
          assert (run + [last])[k] == last;
          assert k + 1 == i - 1;
        }
      }
    }
  }

  /** The ramp has nine swatches: lightened by 0.60, 0.45, 0.30 and 0.15, the
      colour itself at index 4, then darkened by 0.15, 0.30, 0.45 and 0.60. */
  lemma {:induction false} RampShape(hex: string)
    requires HexToRgb(hex).Some?
    ensures |Ramp(hex)| == 9 && Ramp(hex)[4] == hex
    ensures forall k :: 0 <= k < 4 ==> Ramp(hex)[k] == LightenColor(hex, Step(4 - k))
    ensures forall k :: 5 <= k < 9 ==> Ramp(hex)[k] == DarkenColor(hex, Step(k - 4))
  {
    LighterRunIndex(hex, 0);
    DarkerRunIndex(hex, 5);
    var lighter, darker := LighterRun(hex, 0), DarkerRun(hex, 5);
    assert Ramp(hex) == lighter + [hex] + darker;
    forall k | 0 <= k < 4
      ensures Ramp(hex)[k] == LightenColor(hex, Step(4 - k))
    {
      assert (lighter + [hex] + darker)[k] == lighter[k];
    }
    forall k | 5 <= k < 9
      ensures Ramp(hex)[k] == DarkenColor(hex, Step(k - 4))
    {
      assert (lighter + [hex] + darker)[k] == darker[k - 5];
      assert (k - 5) + 1 == k - 4;
    }
  }

  /** Every swatch of the ramp decodes to its ramp colour, and each is no
      lighter in any channel than the one before it. */
  lemma {:induction false} RampDarkens(hex: string)
    requires HexToRgb(hex).Some?
    ensures |Ramp(hex)| == 9
    ensures forall k :: 0 <= k < 9 ==> HexToRgb(Ramp(hex)[k]) == Some(RampColor(HexToRgb(hex).value, k))
    ensures forall k :: 0 <= k < 8 ==>
      ColorUtils.NoLighter(RampColor(HexToRgb(hex).value, k + 1), RampColor(HexToRgb(hex).value, k))
  {
    RampShape(hex);
    var c := HexToRgb(hex).value;
    forall k | 0 <= k < 9
      ensures HexToRgb(Ramp(hex)[k]) == Some(RampColor(c, k))
    {
      RampSwatch(hex, Ramp(hex)[k], k);
    }
    forall k | 0 <= k < 8
      ensures ColorUtils.NoLighter(RampColor(c, k + 1), RampColor(c, k))
    {
      RampColorOrder(c, k);
    }
  }

  /** The swatch built for index k decodes to the ramp colour k. */
  lemma RampSwatch(hex: string, swatch: string, k: int)
    requires HexToRgb(hex).Some? && 0 <= k < 9
    requires k < 4 ==> swatch == LightenColor(hex, Step(4 - k))
    requires k == 4 ==> swatch == hex
    requires k > 4 ==> swatch == DarkenColor(hex, Step(k - 4))
    ensures HexToRgb(swatch) == Some(RampColor(HexToRgb(hex).value, k))
  {
    if k < 4 {
      LightenColorSpec(hex, Step(4 - k));
    } else if k > 4 {
      DarkenColorSpec(hex, Step(k - 4));
    }
  }
}
