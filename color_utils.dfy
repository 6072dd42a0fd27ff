/** The ColorUtils object of js/colorUtils.js: conversions between hex, RGB,
    HSL and CMYK, a luma-weighted brightness, tints and shades, a descriptive
    colour name, hex validation and formatting. */
module ColorUtils {
  import opened JsBuiltins

  datatype Rgb = Rgb(r: int, g: int, b: int)
  datatype Hsl = Hsl(h: int, s: int, l: int)
  datatype Cmyk = Cmyk(c: int, m: int, y: int, k: int)

  predicate IsByte(n: int) { 0 <= n <= 255 }

  predicate IsRgb(c: Rgb) { IsByte(c.r) && IsByte(c.g) && IsByte(c.b) }

  // ===========================================================================
  // Hex <-> RGB

  /** The strings matched by /^#?([a-f\d]{2})([a-f\d]{2})([a-f\d]{2})$/i:
      an optional '#' followed by exactly six hex digits of either case. */
  predicate IsSixDigitHex(hex: string) {
    || (|hex| == 6 && AllHexDigits(hex))
    || (|hex| == 7 && hex[0] == '#' && AllHexDigits(hex[1..]))
  }

  /** The text after an optional leading '#'. */
  function StripHash(hex: string): string {
    if |hex| > 0 && hex[0] == '#' then hex[1..] else hex
  }

  /** parseInt(pair, 16) for a pair of hex digits. */
  lemma ParsePair(pair: string)
    requires |pair| == 2 && AllHexDigits(pair)
    ensures ParseRadix(pair, 16) == DigitValue(pair[0]) * 16 + DigitValue(pair[1])
    ensures IsByte(ParseRadix(pair, 16))
  {
    var first := pair[..1];
    assert first[..0] == [] && first[0] == pair[0];
    assert ParseRadix(first, 16) == DigitValue(pair[0]);
  }

  /** hexToRgb: the three channels of a six-digit hex colour, or None when the
      text is not an optional '#' followed by six hex digits. */
  function HexToRgb(hex: string): (rgb: Option<Rgb>)
    ensures rgb.Some? <==> IsSixDigitHex(hex)
    ensures rgb.Some? ==> IsRgb(rgb.value)
  {
    var digits := StripHash(hex);
    if |digits| == 6 && AllHexDigits(digits) then
      ParsePair(digits[0..2]);
      ParsePair(digits[2..4]);
      ParsePair(digits[4..6]);
      Some(Rgb(ParseRadix(digits[0..2], 16), ParseRadix(digits[2..4], 16), ParseRadix(digits[4..6], 16)))
    else
      None
  }

  /** The `toHex` helper of rgbToHex: the base-16 digits, with a '0' in front of a single digit. */
  function ToHex(n: nat): string {
    var hex := ToRadixString(n, 16);
    if |hex| == 1 then "0" + hex else hex
  }

  /** A byte is written as exactly two lower-case digits that parseInt reads back. */
  lemma ToHexOfByte(n: nat)
    requires n < 256
    ensures |ToHex(n)| == 2 && IsLowerHexDigit(ToHex(n)[0]) && IsLowerHexDigit(ToHex(n)[1])
    ensures AllHexDigits(ToHex(n)) && ParseRadix(ToHex(n), 16) == n
  {
    HexStringOfByte(n);
    RadixRoundTrip(n, 16);
    var hex := ToRadixString(n, 16);
    if |hex| == 1 {
      ParsePair("0" + hex);
    } else {
      ParsePair(hex);
    }
  }

  /** Reading two hex digits and writing the byte back gives the same digits in lower case. */
  lemma {:induction false} ToHexOfPair(pair: string)
    requires |pair| == 2 && AllHexDigits(pair)
    ensures ToHex(ParseRadix(pair, 16)) == ToLowerString(pair)
  {
    ParsePair(pair);
    var hi, lo := DigitValue(pair[0]), DigitValue(pair[1]);
    var n := hi * 16 + lo;
    DigitCharOfValue(pair[0]);
    DigitCharOfValue(pair[1]);
    if hi == 0 {
      assert ToRadixString(n, 16) == [DigitChar(lo)];
      assert ToLower(pair[0]) == '0';
    } else {
      assert n / 16 == hi && n % 16 == lo;
      assert ToRadixString(n, 16) == ToRadixString(hi, 16) + [DigitChar(lo)];
    }
  }

  /** Math.max(0, Math.min(255, Math.round(x))). */
  function ClampByte(x: real): (n: int)
    ensures IsByte(n)
    ensures 0.0 <= x <= 255.0 ==> n == Round(x)
  {
    Max(0, Min(255, Round(x)))
  }

  /** '#' and the two-digit forms of three bytes read back as those bytes. */
  lemma HexOfBytes(x: nat, y: nat, z: nat)
    requires x < 256 && y < 256 && z < 256
    ensures var hex := "#" + ToHex(x) + ToHex(y) + ToHex(z);
      && |hex| == 7 && hex[0] == '#'
      && (forall i :: 1 <= i < 7 ==> IsLowerHexDigit(hex[i]))
      && HexToRgb(hex) == Some(Rgb(x, y, z))
  {
    ToHexOfByte(x);
    ToHexOfByte(y);
    ToHexOfByte(z);
    HexOfPairs(ToHex(x), ToHex(y), ToHex(z));
  }

  predicate IsLowerPair(pair: string) {
    |pair| == 2 && IsLowerHexDigit(pair[0]) && IsLowerHexDigit(pair[1])
  }

  /** '#' followed by three pairs of lower-case digits parses pair by pair. */
  lemma HexOfPairs(hx: string, hy: string, hz: string)
    requires IsLowerPair(hx) && IsLowerPair(hy) && IsLowerPair(hz)
    ensures var hex := "#" + hx + hy + hz;
      && |hex| == 7 && hex[0] == '#'
      && (forall i :: 1 <= i < 7 ==> IsLowerHexDigit(hex[i]))
      && HexToRgb(hex) == Some(Rgb(ParseRadix(hx, 16), ParseRadix(hy, 16), ParseRadix(hz, 16)))
  {
    ThreePairs('#', hx, hy, hz);
  }

  /** A lead element and three pairs: where each pair sits once the lead is dropped. */
  lemma ThreePairs<T>(lead: T, x: seq<T>, y: seq<T>, z: seq<T>)
    requires |x| == 2 && |y| == 2 && |z| == 2
    ensures var s := [lead] + x + y + z;
      && |s| == 7 && s[0] == lead && s[1..] == x + y + z
      && (forall i :: 1 <= i < 7 ==> s[i] in x + y + z)
    ensures var d := x + y + z; d[0..2] == x && d[2..4] == y && d[4..6] == z
  {
    var d := x + y + z;
    assert d == [x[0], x[1], y[0], y[1], z[0], z[1]];
    assert ([lead] + x + y + z)[1..] == d;
  }

  /** rgbToHex: '#' and six lower-case, zero-padded hex digits. */
  function RgbToHex(r: real, g: real, b: real): (hex: string)
    ensures IsCanonicalHex(hex)
  {
    HexOfBytes(ClampByte(r), ClampByte(g), ClampByte(b));
    "#" + ToHex(ClampByte(r)) + ToHex(ClampByte(g)) + ToHex(ClampByte(b))
  }

  /** What rgbToHex writes, hexToRgb reads back as the channels rounded and
      then clamped to 0..255. */
  lemma RgbToHexDecodes(r: real, g: real, b: real)
    ensures HexToRgb(RgbToHex(r, g, b)) == Some(Rgb(ClampByte(r), ClampByte(g), ClampByte(b)))
  {
    HexOfBytes(ClampByte(r), ClampByte(g), ClampByte(b));
  }

  /** rgbToHex of a colour whose channels are bytes. */
  function RgbHex(c: Rgb): string {
    RgbToHex(c.r as real, c.g as real, c.b as real)
  }

  /** Hex round trip one way: for byte channels, hexToRgb(rgbToHex(r, g, b)) is (r, g, b). */
  lemma HexRoundTrip(c: Rgb)
    requires IsRgb(c)
    ensures HexToRgb(RgbHex(c)) == Some(c)
  {
    RgbToHexDecodes(c.r as real, c.g as real, c.b as real);
    RoundOfInt(c.r);
    RoundOfInt(c.g);
    RoundOfInt(c.b);
  }

  /** '#' and six lower-case hex digits: the text rgbToHex writes. */
  predicate IsCanonicalHex(s: string) {
    |s| == 7 && s[0] == '#' && forall i :: 1 <= i < 7 ==> IsLowerHexDigit(s[i])
  }

  /** A canonical text is exactly rgbToHex of the colour it parses to, so the
      two facts together fix the text. */
  lemma CanonicalIsRgbHex(hex: string)
    requires IsCanonicalHex(hex)
    ensures HexToRgb(hex).Some? && RgbHex(HexToRgb(hex).value) == hex
  {
    assert IsSixDigitHex(hex);
    HexCanonical(hex);
    var digits := StripHash(hex);
    assert digits == hex[1..];
    assert ToLowerString(digits) == digits;
  }

  /** `hex` is the text rgbToHex writes for `c`: canonical, and parsing back to `c`. */
  predicate IsHexOf(hex: string, c: Rgb) {
    IsCanonicalHex(hex) && HexToRgb(hex) == Some(c)
  }

  /** For a byte colour, being its canonical parseable text and being rgbToHex's
      text of it are the same thing. */
  lemma IsHexOfRgbHex(hex: string, c: Rgb)
    requires IsRgb(c)
    ensures IsHexOf(hex, c) <==> hex == RgbHex(c)
  {
    HexRoundTrip(c);
    if IsCanonicalHex(hex) {
      CanonicalIsRgbHex(hex);
    }
  }

  /** Hex round trip the other way: formatting a parsed colour gives '#' and
      the lower-cased digits of the original text. */
  lemma HexCanonical(hex: string)
    requires HexToRgb(hex).Some?
    ensures RgbHex(HexToRgb(hex).value) == "#" + ToLowerString(StripHash(hex))
  {
    var digits := StripHash(hex);
    var c := HexToRgb(hex).value;
    assert c == Rgb(ParseRadix(digits[0..2], 16), ParseRadix(digits[2..4], 16), ParseRadix(digits[4..6], 16));
    FormatOfPairs(c, digits[0..2], digits[2..4], digits[4..6]);
    LowerOfPairs(digits);
  }

  lemma FormatOfPairs(c: Rgb, p0: string, p1: string, p2: string)
    requires |p0| == 2 && AllHexDigits(p0) && |p1| == 2 && AllHexDigits(p1) && |p2| == 2 && AllHexDigits(p2)
    requires c == Rgb(ParseRadix(p0, 16), ParseRadix(p1, 16), ParseRadix(p2, 16))
    ensures RgbHex(c) == "#" + ToLowerString(p0) + ToLowerString(p1) + ToLowerString(p2)
  {
    ParsePair(p0);
    ParsePair(p1);
    ParsePair(p2);
    RoundOfInt(c.r);
    RoundOfInt(c.g);
    RoundOfInt(c.b);
    ToHexOfPair(p0);
    ToHexOfPair(p1);
    ToHexOfPair(p2);
  }

  lemma LowerOfPairs(digits: string)
    requires |digits| == 6
    ensures ToLowerString(digits)
      == ToLowerString(digits[0..2]) + ToLowerString(digits[2..4]) + ToLowerString(digits[4..6])
  {
  }

  // ===========================================================================
  // RGB <-> HSL

  /** Math.max(a, b, c) */
  function Max3(a: real, b: real, c: real): (m: real)
    ensures a <= m && b <= m && c <= m && (m == a || m == b || m == c)
  {
    MaxReal(MaxReal(a, b), c)
  }

  /** Math.min(a, b, c) */
  function Min3(a: real, b: real, c: real): (m: real)
    ensures m <= a && m <= b && m <= c && (m == a || m == b || m == c)
  {
    MinReal(MinReal(a, b), c)
  }

  /** A difference bounded by a positive divisor gives a quotient in [-1, 1]. */
  lemma QuotientBounds(x: real, d: real)
    requires 0.0 < d && -d <= x <= d
    ensures -1.0 <= x / d <= 1.0
    ensures x < 0.0 ==> x / d < 0.0
    ensures x >= 0.0 ==> x / d >= 0.0
  {
    assert (x / d) * d == x;
  }

  /** The hue of rgbToHsl as a fraction of a full turn, taken from whichever
      channel is largest (red first, then green, then blue). */
  function HueTurn(R: real, G: real, B: real): (h: real)
    requires Max3(R, G, B) != Min3(R, G, B)
    ensures 0.0 <= h < 1.0
  {
    var max, min := Max3(R, G, B), Min3(R, G, B);
    var d := max - min;
    if max == R then
      QuotientBounds(G - B, d);
      ((G - B) / d + (if G < B then 6.0 else 0.0)) / 6.0
    else if max == G then
      QuotientBounds(B - R, d);
      ((B - R) / d + 2.0) / 6.0
    else
      QuotientBounds(R - G, d);
      ((R - G) / d + 4.0) / 6.0
  }

  /** The saturation of rgbToHsl, with its two branches on the lightness. */
  function SaturationFraction(max: real, min: real): (s: real)
    requires 0.0 <= min < max <= 1.0
    ensures 0.0 < s <= 1.0
  {
    var l := (max + min) / 2.0;
    var d := max - min;
    if l > 0.5 then
      QuotientBounds(d, 2.0 - max - min);
      d / (2.0 - max - min)
    else
      QuotientBounds(d, max + min);
      d / (max + min)
  }

  /** rgbToHsl: for byte channels the hue lies in [0, 360] (360 is reached
      through rounding), saturation and lightness in [0, 100]; a grey has hue
      and saturation 0. */
  function RgbToHsl(r: int, g: int, b: int): (hsl: Hsl)
    requires IsByte(r) && IsByte(g) && IsByte(b)
    ensures 0 <= hsl.h <= 360 && 0 <= hsl.s <= 100 && 0 <= hsl.l <= 100
    ensures r == g == b ==> hsl.h == 0 && hsl.s == 0
  {
    var R := r as real / 255.0;
    var G := g as real / 255.0;
    var B := b as real / 255.0;
    var max := Max3(R, G, B);
    var min := Min3(R, G, B);
    var l := (max + min) / 2.0;
    var h := if max == min then 0.0 else HueTurn(R, G, B);
    var s := if max == min then 0.0 else SaturationFraction(max, min);
    HslOfFractions(h, s, l)
  }

  /** The final step of rgbToHsl: the hue in whole degrees, saturation and
      lightness in whole percent, each rounded as Math.round does. */
  function HslOfFractions(h: real, s: real, l: real): Hsl {
    Hsl(Round(h * 360.0), Round(s * 100.0), Round(l * 100.0))
  }

  /** Rounding makes a hue of 360 reachable: (255, 0, 1) has hue 359.76... */
  lemma HueReaches360()
    ensures RgbToHsl(255, 0, 1).h == 360
  {
    var B := 1.0 / 255.0;
    assert HueTurn(1.0, 0.0, B) == ((0.0 - B) / 1.0 + 6.0) / 6.0;
  }

  /** The `hue2rgb` helper of hslToRgb: one channel from the hue offset `t`,
      wrapped once into [0, 1], on a ramp between `p` and `q`. */
  function HueToChannel(p: real, q: real, t: real): real {
    var t1 := if t < 0.0 then t + 1.0 else t;
    var t2 := if t1 > 1.0 then t1 - 1.0 else t1;
    if t2 < 1.0 / 6.0 then p + (q - p) * 6.0 * t2
    else if t2 < 1.0 / 2.0 then q
    else if t2 < 2.0 / 3.0 then p + (q - p) * (2.0 / 3.0 - t2) * 6.0
    else p
  }

  /** Scaling a non-negative amount by a factor in [0, 1] keeps it between 0 and itself. */
  lemma ScaleBelow(d: real, f: real)
    requires 0.0 <= d && 0.0 <= f <= 1.0
    ensures 0.0 <= d * f <= d
  {
  }

  lemma RampUp(p: real, q: real, t: real)
    requires p <= q && 0.0 <= t < 1.0 / 6.0
    ensures p <= p + (q - p) * 6.0 * t <= q
  {
    ScaleBelow(q - p, 6.0 * t);
    assert (q - p) * 6.0 * t == (q - p) * (6.0 * t);
  }

  lemma RampDown(p: real, q: real, t: real)
    requires p <= q && 1.0 / 2.0 <= t < 2.0 / 3.0
    ensures p <= p + (q - p) * (2.0 / 3.0 - t) * 6.0 <= q
  {
    ScaleBelow(q - p, (2.0 / 3.0 - t) * 6.0);
    assert (q - p) * (2.0 / 3.0 - t) * 6.0 == (q - p) * ((2.0 / 3.0 - t) * 6.0);
  }

  /** Once `t` is at least -1 the single wrap brings it into [0, 1], and the
      channel stays between p and q. */
  lemma HueToChannelBounds(p: real, q: real, t: real)
    requires p <= q && -1.0 <= t
    ensures p <= HueToChannel(p, q, t) <= q
  {
    var t1 := if t < 0.0 then t + 1.0 else t;
    var t2 := if t1 > 1.0 then t1 - 1.0 else t1;
    assert 0.0 <= t2;
    var v := HueToChannel(p, q, t);
    if t2 < 1.0 / 6.0 {
      assert v == p + (q - p) * 6.0 * t2;
      RampUp(p, q, t2);
    } else if t2 < 1.0 / 2.0 {
      assert v == q;
    } else if t2 < 2.0 / 3.0 {
      assert v == p + (q - p) * (2.0 / 3.0 - t2) * 6.0;
      RampDown(p, q, t2);
    } else {
      assert v == p;
    }
  }

  /** The `q` of hslToRgb, with its two branches on the lightness. */
  function UpperPivot(S: real, L: real): real {
    if L < 0.5 then L * (1.0 + S) else L + S - L * S
  }

  lemma PivotLow(S: real, L: real)
    requires 0.0 <= S <= 1.0 && 0.0 <= L < 0.5
    ensures 0.0 <= 2.0 * L - L * (1.0 + S) <= L * (1.0 + S) <= 1.0
  {
  }

  lemma PivotHigh(S: real, L: real)
    requires 0.0 <= S <= 1.0 && 0.5 <= L <= 1.0
    ensures 0.0 <= 2.0 * L - (L + S - L * S) <= L + S - L * S <= 1.0
  {
  }

  /** For s, l in [0, 1]: 0 <= p = 2l - q <= q <= 1. */
  lemma PivotBounds(S: real, L: real)
    requires 0.0 <= S <= 1.0 && 0.0 <= L <= 1.0
    ensures 0.0 <= 2.0 * L - UpperPivot(S, L) <= UpperPivot(S, L) <= 1.0
  {
    if L < 0.5 {
      PivotLow(S, L);
    } else {
      PivotHigh(S, L);
    }
  }

  /** hslToRgb: with saturation 0 all three channels are the lightness scaled to 0..255. */
  function HslToRgb(h: int, s: int, l: int): (rgb: Rgb)
    ensures s == 0 ==> rgb.r == rgb.g == rgb.b == Round(l as real * 255.0 / 100.0)
  {
    var H := h as real / 360.0;
    var S := s as real / 100.0;
    var L := l as real / 100.0;
    if S == 0.0 then
      Rgb(Round(L * 255.0), Round(L * 255.0), Round(L * 255.0))
    else
      var q := UpperPivot(S, L);
      var p := 2.0 * L - q;
      Rgb(Round(HueToChannel(p, q, H + 1.0 / 3.0) * 255.0),
          Round(HueToChannel(p, q, H) * 255.0),
          Round(HueToChannel(p, q, H - 1.0 / 3.0) * 255.0))
  }

  /** For h in [0, 360] and s, l in [0, 100], every channel of hslToRgb is a byte. */
  lemma HslToRgbRange(h: int, s: int, l: int)
    requires 0 <= h <= 360 && 0 <= s <= 100 && 0 <= l <= 100
    ensures IsRgb(HslToRgb(h, s, l))
  {
    var H := h as real / 360.0;
    var S := s as real / 100.0;
    var L := l as real / 100.0;
    if S != 0.0 {
      var q := UpperPivot(S, L);
      var p := 2.0 * L - q;
      PivotBounds(S, L);
      HueToChannelBounds(p, q, H + 1.0 / 3.0);
      HueToChannelBounds(p, q, H);
      HueToChannelBounds(p, q, H - 1.0 / 3.0);
      RoundMonotone(0.0, HueToChannel(p, q, H + 1.0 / 3.0) * 255.0);
      RoundMonotone(HueToChannel(p, q, H + 1.0 / 3.0) * 255.0, 255.0);
      RoundMonotone(0.0, HueToChannel(p, q, H) * 255.0);
      RoundMonotone(HueToChannel(p, q, H) * 255.0, 255.0);
      RoundMonotone(0.0, HueToChannel(p, q, H - 1.0 / 3.0) * 255.0);
      RoundMonotone(HueToChannel(p, q, H - 1.0 / 3.0) * 255.0, 255.0);
    }
  }

  // ===========================================================================
  // RGB -> CMYK

  /** A quotient by a non-zero divisor: zero over anything is zero, and a
      numerator between 0 and the divisor gives a fraction in [0, 1]. */
  lemma Fraction(a: real, d: real)
    requires d != 0.0
    ensures a == 0.0 ==> a / d == 0.0
    ensures 0.0 <= a <= d ==> 0.0 <= a / d <= 1.0
  {
    if 0.0 <= a <= d {
      QuotientBounds(a, d);
    }
  }

  /** One of c, m, y after removing the black part k, as a fraction of 1 - k. */
  function WithoutBlack(x: real, k: real): (v: real)
    requires k != 1.0
    ensures k <= x <= 1.0 ==> 0.0 <= v <= 1.0
    ensures x == k ==> v == 0.0
  {
    Fraction(x - k, 1.0 - k);
    (x - k) / (1.0 - k)
  }

  /** rgbToCmyk: for byte channels all four values lie in [0, 100]; at least
      one of c, m, y is 0; black is (0, 0, 0, 100) through the k == 1 guard and
      white is (0, 0, 0, 0). */
  function RgbToCmyk(r: int, g: int, b: int): (cmyk: Cmyk)
    ensures IsByte(r) && IsByte(g) && IsByte(b) ==>
      && 0 <= cmyk.c <= 100 && 0 <= cmyk.m <= 100 && 0 <= cmyk.y <= 100 && 0 <= cmyk.k <= 100
    ensures cmyk.c == 0 || cmyk.m == 0 || cmyk.y == 0
    ensures r == g == b == 0 ==> cmyk == Cmyk(0, 0, 0, 100)
    ensures r == g == b == 255 ==> cmyk == Cmyk(0, 0, 0, 0)
  {
    var c := 1.0 - r as real / 255.0;
    var m := 1.0 - g as real / 255.0;
    var y := 1.0 - b as real / 255.0;
    var k := Min3(c, m, y);
    if k == 1.0 then
      Cmyk(0, 0, 0, Round(k * 100.0))
    else
      Cmyk(Round(WithoutBlack(c, k) * 100.0),
           Round(WithoutBlack(m, k) * 100.0),
           Round(WithoutBlack(y, k) * 100.0),
           Round(k * 100.0))
  }

  // ===========================================================================
  // Brightness

  /** getBrightness: the luma-weighted mean (299 r + 587 g + 114 b) / 1000, in
      [0, 255] for byte channels. */
  function GetBrightness(r: int, g: int, b: int): (brightness: real)
    ensures IsByte(r) && IsByte(g) && IsByte(b) ==> 0.0 <= brightness <= 255.0
    ensures brightness * 1000.0 == (299 * r + 587 * g + 114 * b) as real
  {
    (r * 299 + g * 587 + b * 114) as real / 1000.0
  }

  /** Raising any one channel never lowers the brightness. */
  lemma BrightnessMonotone(c: Rgb, d: Rgb)
    requires c.r <= d.r && c.g <= d.g && c.b <= d.b
    ensures GetBrightness(c.r, c.g, c.b) <= GetBrightness(d.r, d.g, d.b)
  {
  }

  // ===========================================================================
  // Shades and tints

  /** Step i of count moves the fraction i / (count + 1) of the way towards black or white. */
  function StepFactor(i: int, count: int): real
    requires 0 <= count
  {
    i as real / (count + 1) as real
  }

  /** For 0 <= a <= b <= n with n positive, a / n and b / n are ordered fractions. */
  lemma QuotientOrder(a: real, b: real, n: real)
    requires 0.0 <= a <= b <= n && 0.0 < n
    ensures 0.0 <= a / n <= b / n <= 1.0
  {
  }

  /** Steps 1..count have factors in [0, 1] that grow with the step. */
  lemma StepFactorOrder(i: int, j: int, count: int)
    requires 1 <= i <= j <= count
    ensures 0.0 <= StepFactor(i, count) <= StepFactor(j, count) <= 1.0
  {
    QuotientOrder(i as real, j as real, (count + 1) as real);
  }

  /** A channel x scaled by 1 - f, rounded as Math.round does. */
  function ShadeBy(x: int, f: real): int {
    Round(x as real * (1.0 - f))
  }

  /** A channel x moved the fraction f of the way to 255, rounded as Math.round does. */
  function TintBy(x: int, f: real): int {
    Round(x as real + (255.0 - x as real) * f)
  }

  /** The channel of the i-th shade. */
  function ShadeChannel(x: int, i: int, count: int): int
    requires 0 <= count
  {
    ShadeBy(x, StepFactor(i, count))
  }

  /** The channel of the i-th tint. */
  function TintChannel(x: int, i: int, count: int): int
    requires 0 <= count
  {
    TintBy(x, StepFactor(i, count))
  }

  function ShadeOf(base: Rgb, i: int, count: int): Rgb
    requires 0 <= count
  {
    Rgb(ShadeChannel(base.r, i, count), ShadeChannel(base.g, i, count), ShadeChannel(base.b, i, count))
  }

  function TintOf(base: Rgb, i: int, count: int): Rgb
    requires 0 <= count
  {
    Rgb(TintChannel(base.r, i, count), TintChannel(base.g, i, count), TintChannel(base.b, i, count))
  }

  /** Every channel of `a` is at most the matching channel of `b`. */
  predicate NoLighter(a: Rgb, b: Rgb) {
    a.r <= b.r && a.g <= b.g && a.b <= b.b
  }

  /** Scaling by 1 - f for factors 0 <= f <= f' <= 1 stays in [0, x] and
      the larger factor gives the smaller result. */
  lemma ShadeReal(x: real, f: real, f': real)
    requires 0.0 <= x && 0.0 <= f <= f' <= 1.0
    ensures 0.0 <= x * (1.0 - f') <= x * (1.0 - f) <= x
  {
  }

  /** Moving the fraction f of the way from x to 255, for 0 <= f <= f' <= 1,
      stays in [x, 255] and the larger fraction goes further. */
  lemma TintReal(x: real, f: real, f': real)
    requires 0.0 <= x <= 255.0 && 0.0 <= f <= f' <= 1.0
    ensures x <= x + (255.0 - x) * f <= x + (255.0 - x) * f' <= 255.0
  {
  }

  /** Shading a byte by a factor in [0, 1] gives a byte no larger than it;
      a larger factor gives a result no larger. */
  lemma ShadeByOrder(x: int, f: real, f': real)
    requires IsByte(x) && 0.0 <= f <= f' <= 1.0
    ensures 0 <= ShadeBy(x, f') <= ShadeBy(x, f) <= x
  {
    ShadeReal(x as real, f, f');
    RoundBetween(0, x as real * (1.0 - f'), x as real * (1.0 - f), x);
  }

  /** Tinting a byte by a fraction in [0, 1] gives a byte no smaller than it;
      a larger fraction gives a result no smaller. */
  lemma TintByOrder(x: int, f: real, f': real)
    requires IsByte(x) && 0.0 <= f <= f' <= 1.0
    ensures x <= TintBy(x, f) <= TintBy(x, f') <= 255
  {
    TintReal(x as real, f, f');
    RoundBetween(x, x as real + (255.0 - x as real) * f, x as real + (255.0 - x as real) * f', 255);
  }

  /** Shade channels stay between 0 and the base channel and do not rise
      from one step to the next. */
  lemma {:induction false} ShadeChannelOrder(x: int, i: int, j: int, count: int)
    requires IsByte(x) && 1 <= i <= j <= count
    ensures 0 <= ShadeChannel(x, j, count) <= ShadeChannel(x, i, count) <= x
  {
    StepFactorOrder(i, j, count);
    ShadeByOrder(x, StepFactor(i, count), StepFactor(j, count));
  }

  /** Tint channels stay between the base channel and 255 and do not fall
      from one step to the next. */
  lemma {:induction false} TintChannelOrder(x: int, i: int, j: int, count: int)
    requires IsByte(x) && 1 <= i <= j <= count
    ensures x <= TintChannel(x, i, count) <= TintChannel(x, j, count) <= 255
  {
    StepFactorOrder(i, j, count);
    TintByOrder(x, StepFactor(i, count), StepFactor(j, count));
  }

  /** Shades darken: each is a valid colour no lighter than the base, and each
      is no lighter than the one after it. */
  lemma ShadeOrder(base: Rgb, i: int, j: int, count: int)
    requires IsRgb(base) && 1 <= i <= j <= count
    ensures IsRgb(ShadeOf(base, i, count)) && NoLighter(ShadeOf(base, i, count), base)
    ensures NoLighter(ShadeOf(base, j, count), ShadeOf(base, i, count))
  {
    ShadeChannelOrder(base.r, i, j, count);
    ShadeChannelOrder(base.g, i, j, count);
    ShadeChannelOrder(base.b, i, j, count);
  }

  /** Tints lighten: each is a valid colour no darker than the base, and each
      is no darker than the one before it. */
  lemma TintOrder(base: Rgb, i: int, j: int, count: int)
    requires IsRgb(base) && 1 <= i <= j <= count
    ensures IsRgb(TintOf(base, i, count)) && NoLighter(base, TintOf(base, i, count))
    ensures NoLighter(TintOf(base, i, count), TintOf(base, j, count))
  {
    TintChannelOrder(base.r, i, j, count);
    TintChannelOrder(base.g, i, j, count);
    TintChannelOrder(base.b, i, j, count);
  }

  lemma ShadeDecodes(base: Rgb, i: int, count: int)
    requires IsRgb(base) && 1 <= i <= count
    ensures IsHexOf(RgbHex(ShadeOf(base, i, count)), ShadeOf(base, i, count))
  {
    ShadeOrder(base, i, i, count);
    HexRoundTrip(ShadeOf(base, i, count));
  }

  lemma TintDecodes(base: Rgb, i: int, count: int)
    requires IsRgb(base) && 1 <= i <= count
    ensures IsHexOf(RgbHex(TintOf(base, i, count)), TintOf(base, i, count))
  {
    TintOrder(base, i, i, count);
    HexRoundTrip(TintOf(base, i, count));
  }

  /** Shades 1..|shades| of `base` run from the base towards black. */
  lemma ShadesDarken(base: Rgb, shades: seq<string>, count: int)
    requires IsRgb(base) && |shades| <= Max(count, 0)
    requires forall k :: 0 <= k < |shades| ==> HexToRgb(shades[k]) == Some(ShadeOf(base, k + 1, count))
    ensures forall k :: 0 <= k < |shades| ==> NoLighter(HexToRgb(shades[k]).value, base)
    ensures forall k, k' :: 0 <= k <= k' < |shades| ==>
      NoLighter(HexToRgb(shades[k']).value, HexToRgb(shades[k]).value)
  {
    forall k | 0 <= k < |shades|
      ensures NoLighter(HexToRgb(shades[k]).value, base)
    {
      ShadeOrder(base, k + 1, k + 1, count);
    }
    forall k, k' | 0 <= k <= k' < |shades|
      ensures NoLighter(HexToRgb(shades[k']).value, HexToRgb(shades[k]).value)
    {
      ShadeOrder(base, k + 1, k' + 1, count);
    }
  }

  /** Tints 1..|tints| of `base` run from the base towards white. */
  lemma TintsLighten(base: Rgb, tints: seq<string>, count: int)
    requires IsRgb(base) && |tints| <= Max(count, 0)
    requires forall k :: 0 <= k < |tints| ==> HexToRgb(tints[k]) == Some(TintOf(base, k + 1, count))
    ensures forall k :: 0 <= k < |tints| ==> NoLighter(base, HexToRgb(tints[k]).value)
    ensures forall k, k' :: 0 <= k <= k' < |tints| ==>
      NoLighter(HexToRgb(tints[k]).value, HexToRgb(tints[k']).value)
  {
    forall k | 0 <= k < |tints|
      ensures NoLighter(base, HexToRgb(tints[k]).value)
    {
      TintOrder(base, k + 1, k + 1, count);
    }
    forall k, k' | 0 <= k <= k' < |tints|
      ensures NoLighter(HexToRgb(tints[k]).value, HexToRgb(tints[k']).value)
    {
      TintOrder(base, k + 1, k' + 1, count);
    }
  }

  /** generateShades: `count` darker versions of the colour, step i of them
      scaling every channel by 1 - i / (count + 1); none for count <= 0.
      The hex must parse when count >= 1 (the loop reads the channels of
      hexToRgb's result); with count <= 0 the loop never runs and the result is
      empty whatever the text. */
  method GenerateShades(hex: string, count: int) returns (shades: seq<string>)
    requires count >= 1 ==> HexToRgb(hex).Some?
    ensures |shades| == Max(count, 0)
    ensures forall k :: 0 <= k < |shades| ==> IsCanonicalHex(shades[k])
    ensures forall k :: 0 <= k < |shades| ==>
      HexToRgb(shades[k]) == Some(ShadeOf(HexToRgb(hex).value, k + 1, count))
    ensures forall k :: 0 <= k < |shades| ==>
      NoLighter(HexToRgb(shades[k]).value, HexToRgb(hex).value)
    ensures forall k, k' :: 0 <= k <= k' < |shades| ==>
      NoLighter(HexToRgb(shades[k']).value, HexToRgb(shades[k]).value)
  {
    var parsed := HexToRgb(hex);
    shades := [];
    var i := 1;
    while i <= count
      invariant 1 <= i <= Max(count, 0) + 1 && |shades| == i - 1
      invariant forall k {:trigger shades[k]} :: 0 <= k < |shades| ==> IsHexOf(shades[k], ShadeOf(parsed.value, k + 1, count))
    {
      var rgb := parsed.value;
      var factor := StepFactor(i, count);
      var r := ShadeBy(rgb.r, factor);
      var g := ShadeBy(rgb.g, factor);
      var b := ShadeBy(rgb.b, factor);
      assert Rgb(r, g, b) == ShadeOf(rgb, i, count);
      ShadeDecodes(rgb, i, count);
      shades := shades + [RgbToHex(r as real, g as real, b as real)];
      i := i + 1;
    }
    if parsed.Some? {
      ShadesDarken(parsed.value, shades, count);
    }
  }

  /** generateTints: `count` lighter versions of the colour, step i of them
      moving every channel i / (count + 1) of the way to 255. */
  method GenerateTints(hex: string, count: int) returns (tints: seq<string>)
    requires count >= 1 ==> HexToRgb(hex).Some?
    ensures |tints| == Max(count, 0)
    ensures forall k :: 0 <= k < |tints| ==> IsCanonicalHex(tints[k])
    ensures forall k :: 0 <= k < |tints| ==>
      HexToRgb(tints[k]) == Some(TintOf(HexToRgb(hex).value, k + 1, count))
    ensures forall k :: 0 <= k < |tints| ==>
      NoLighter(HexToRgb(hex).value, HexToRgb(tints[k]).value)
    ensures forall k, k' :: 0 <= k <= k' < |tints| ==>
      NoLighter(HexToRgb(tints[k]).value, HexToRgb(tints[k']).value)
  {
    var parsed := HexToRgb(hex);
    tints := [];
    var i := 1;
    while i <= count
      invariant 1 <= i <= Max(count, 0) + 1 && |tints| == i - 1
      invariant forall k {:trigger tints[k]} :: 0 <= k < |tints| ==> IsHexOf(tints[k], TintOf(parsed.value, k + 1, count))
    {
      var rgb := parsed.value;
      var factor := StepFactor(i, count);
      var r := TintBy(rgb.r, factor);
      var g := TintBy(rgb.g, factor);
      var b := TintBy(rgb.b, factor);
      assert Rgb(r, g, b) == TintOf(rgb, i, count);
      TintDecodes(rgb, i, count);
      tints := tints + [RgbToHex(r as real, g as real, b as real)];
      i := i + 1;
    }
    if parsed.Some? {
      TintsLighten(parsed.value, tints, count);
    }
  }

  // ===========================================================================
  // Colour names

  function GrayName(l: int): string {
    if l < 15 then "Black"
    else if l < 30 then "Very Dark Gray"
    else if l < 45 then "Dark Gray"
    else if l < 60 then "Gray"
    else if l < 75 then "Light Gray"
    else if l < 90 then "Very Light Gray"
    else "White"
  }

  function HueName(h: int): string {
    if h >= 0 && h < 15 then "Red"
    else if h >= 15 && h < 45 then "Orange"
    else if h >= 45 && h < 75 then "Yellow"
    else if h >= 75 && h < 150 then "Green"
    else if h >= 150 && h < 200 then "Cyan"
    else if h >= 200 && h < 260 then "Blue"
    else if h >= 260 && h < 300 then "Purple"
    else if h >= 300 && h < 330 then "Magenta"
    else "Red"
  }

  function LightnessModifier(l: int): string {
    if l < 20 then "Very Dark "
    else if l < 40 then "Dark "
    else if l > 80 then "Very Light "
    else if l > 60 then "Light "
    else ""
  }

  function SaturationModifier(s: int): string {
    if s < 30 then "Grayish "
    else if s > 80 then "Vivid "
    else ""
  }

  /** getColorName: a grey name chosen by lightness when the saturation is
      below 10, otherwise a saturation modifier, a lightness modifier and the
      name of the hue band. */
  function GetColorName(r: int, g: int, b: int): string
    requires IsByte(r) && IsByte(g) && IsByte(b)
  {
    var hsl := RgbToHsl(r, g, b);
    if hsl.s < 10 then GrayName(hsl.l)
    else SaturationModifier(hsl.s) + LightnessModifier(hsl.l) + HueName(hsl.h)
  }

  // The classes a name stands for, and the band of HSL values each class covers.

  datatype Grey = Black | VeryDarkGray | DarkGray | MidGray | LightGray | VeryLightGray | White
  datatype Hue = Red | Orange | Yellow | Green | Cyan | Blue | Purple | Magenta
  datatype Tone = VeryDark | Dark | MidTone | Light | VeryLight
  datatype Chroma = Grayish | Plain | Vivid
  datatype ColorClass = Achromatic(grey: Grey) | Chromatic(chroma: Chroma, tone: Tone, hue: Hue)

  predicate GreyBand(grey: Grey, l: int) {
    match grey
    case Black => l < 15
    case VeryDarkGray => 15 <= l < 30
    case DarkGray => 30 <= l < 45
    case MidGray => 45 <= l < 60
    case LightGray => 60 <= l < 75
    case VeryLightGray => 75 <= l < 90
    case White => 90 <= l
  }

  /** Red covers both ends of the wheel: [0, 15) and [330, 360]. */
  predicate HueBand(hue: Hue, h: int) {
    match hue
    case Red => h < 15 || 330 <= h
    case Orange => 15 <= h < 45
    case Yellow => 45 <= h < 75
    case Green => 75 <= h < 150
    case Cyan => 150 <= h < 200
    case Blue => 200 <= h < 260
    case Purple => 260 <= h < 300
    case Magenta => 300 <= h < 330
  }

  predicate ToneBand(tone: Tone, l: int) {
    match tone
    case VeryDark => l < 20
    case Dark => 20 <= l < 40
    case MidTone => 40 <= l <= 60
    case Light => 60 < l <= 80
    case VeryLight => 80 < l
  }

  predicate ChromaBand(chroma: Chroma, s: int) {
    match chroma
    case Grayish => s < 30
    case Plain => 30 <= s <= 80
    case Vivid => 80 < s
  }

  /** The class a colour with these HSL values belongs to. */
  predicate InBands(cls: ColorClass, hsl: Hsl) {
    match cls
    case Achromatic(grey) => hsl.s < 10 && GreyBand(grey, hsl.l)
    case Chromatic(chroma, tone, hue) =>
      10 <= hsl.s && ChromaBand(chroma, hsl.s) && ToneBand(tone, hsl.l) && HueBand(hue, hsl.h)
  }

  /** The bands do not overlap: a colour is in at most one class. */
  lemma BandsDisjoint(c1: ColorClass, c2: ColorClass, hsl: Hsl)
    requires InBands(c1, hsl) && InBands(c2, hsl)
    ensures c1 == c2
  {
  }

  // Reading a name back.

  predicate StartsWith(s: string, prefix: string) {
    |prefix| <= |s| && s[..|prefix|] == prefix
  }

  function GreyOfName(name: string): Option<Grey> {
    if name == "Black" then Some(Black)
    else if name == "Very Dark Gray" then Some(VeryDarkGray)
    else if name == "Dark Gray" then Some(DarkGray)
    else if name == "Gray" then Some(MidGray)
    else if name == "Light Gray" then Some(LightGray)
    else if name == "Very Light Gray" then Some(VeryLightGray)
    else if name == "White" then Some(White)
    else None
  }

  function HueOfName(word: string): Option<Hue> {
    if word == "Red" then Some(Red)
    else if word == "Orange" then Some(Orange)
    else if word == "Yellow" then Some(Yellow)
    else if word == "Green" then Some(Green)
    else if word == "Cyan" then Some(Cyan)
    else if word == "Blue" then Some(Blue)
    else if word == "Purple" then Some(Purple)
    else if word == "Magenta" then Some(Magenta)
    else None
  }

  function SplitChroma(name: string): (Chroma, string) {
    if StartsWith(name, "Grayish ") then (Grayish, name[8..])
    else if StartsWith(name, "Vivid ") then (Vivid, name[6..])
    else (Plain, name)
  }

  function SplitTone(name: string): (Tone, string) {
    if StartsWith(name, "Very Dark ") then (VeryDark, name[10..])
    else if StartsWith(name, "Dark ") then (Dark, name[5..])
    else if StartsWith(name, "Very Light ") then (VeryLight, name[11..])
    else if StartsWith(name, "Light ") then (Light, name[6..])
    else (MidTone, name)
  }

  /** The class a colour name spells out, or None for text that is not a colour name. */
  function ParseColorName(name: string): Option<ColorClass> {
    match GreyOfName(name)
    case Some(grey) => Some(Achromatic(grey))
    case None =>
      var (chroma, rest) := SplitChroma(name);
      var (tone, word) := SplitTone(rest);
      match HueOfName(word)
      case Some(hue) => Some(Chromatic(chroma, tone, hue))
      case None => None
  }

  lemma GrayNameParses(l: int)
    ensures GreyOfName(GrayName(l)).Some? && GreyBand(GreyOfName(GrayName(l)).value, l)
  {
  }

  lemma HueNameParses(h: int)
    ensures HueOfName(HueName(h)).Some? && HueBand(HueOfName(HueName(h)).value, h)
  {
  }

  /** The lightness modifier in front of a hue word is split off again. */
  lemma ToneSplits(l: int, word: string)
    requires HueOfName(word).Some?
    ensures SplitTone(LightnessModifier(l) + word).1 == word
    ensures ToneBand(SplitTone(LightnessModifier(l) + word).0, l)
  {
    var m := LightnessModifier(l);
    var name := m + word;
    assert name[..|m|] == m && name[|m|..] == word;
    HueWordStart(word);
    if l < 20 {
      assert StartsWith(name, "Very Dark ");
    } else if l < 40 {
      Differs(name, "Very Dark ", 0);
      assert StartsWith(name, "Dark ");
    } else if l > 80 {
      Differs(name, "Very Dark ", 5);
      Differs(name, "Dark ", 0);
      assert StartsWith(name, "Very Light ");
    } else if l > 60 {
      Differs(name, "Very Dark ", 0);
      Differs(name, "Dark ", 0);
      Differs(name, "Very Light ", 0);
      assert StartsWith(name, "Light ");
    } else {
      assert name == word;
      Differs(name, "Very Dark ", 0);
      Differs(name, "Dark ", 0);
      Differs(name, "Very Light ", 0);
      Differs(name, "Light ", 0);
    }
  }

  /** The saturation modifier in front of (modifier +) hue word is split off again. */
  lemma ChromaSplits(s: int, rest: string, l: int, word: string)
    requires HueOfName(word).Some? && rest == LightnessModifier(l) + word
    ensures SplitChroma(SaturationModifier(s) + rest).1 == rest
    ensures ChromaBand(SplitChroma(SaturationModifier(s) + rest).0, s)
  {
    var m := SaturationModifier(s);
    var name := m + rest;
    assert name[..|m|] == m && name[|m|..] == rest;
    if s < 30 {
      assert StartsWith(name, "Grayish ");
    } else if s > 80 {
      Differs(name, "Grayish ", 0);
      assert StartsWith(name, "Vivid ");
    } else {
      assert name == rest;
      PlainSplits(LightnessModifier(l), word);
    }
  }

  lemma PlainSplits(lm: string, word: string)
    requires lm in ["Very Dark ", "Dark ", "Very Light ", "Light ", ""] && HueOfName(word).Some?
    ensures SplitChroma(lm + word) == (Plain, lm + word)
  {
    var rest := lm + word;
    assert rest[..|lm|] == lm && rest[|lm|..] == word;
    HueWordStart(word);
    if lm == "" {
      assert rest == word;
      if word[0] == 'G' {
        Differs(rest, "Grayish ", 2);
      } else {
        Differs(rest, "Grayish ", 0);
      }
      Differs(rest, "Vivid ", 0);
    } else if lm[0] == 'V' {
      Differs(rest, "Grayish ", 0);
      Differs(rest, "Vivid ", 1);
    } else {
      Differs(rest, "Grayish ", 0);
      Differs(rest, "Vivid ", 0);
    }
  }

  lemma HueWordStart(word: string)
    requires HueOfName(word).Some?
    ensures |word| >= 3 && word[0] in "ROYGCBPM" && (word[0] == 'G' ==> word[2] == 'e')
  {
  }

  lemma Differs(s: string, prefix: string, i: nat)
    requires i < |s| && i < |prefix| && s[i] != prefix[i]
    ensures !StartsWith(s, prefix)
  {
  }

  /** Every grey name ends in 'k', in 'y', or in "te". */
  lemma GreyNameEnd(name: string)
    requires GreyOfName(name).Some?
    ensures |name| >= 4
    ensures name[|name| - 1] == 'k' || name[|name| - 1] == 'y' || (name[|name| - 1] == 'e' && name[|name| - 2] == 't')
  {
  }

  /** No hue word ends the way a grey name does. */
  lemma HueWordEnd(word: string)
    requires HueOfName(word).Some?
    ensures |word| >= 3
    ensures word[|word| - 1] != 'k' && word[|word| - 1] != 'y'
    ensures word[|word| - 1] == 'e' ==> word[|word| - 2] != 't'
  {
  }

  /** A name ending in a hue word is not one of the grey names. */
  lemma NotGreyName(front: string, word: string)
    requires HueOfName(word).Some?
    ensures GreyOfName(front + word) == None
  {
    var name := front + word;
    HueWordEnd(word);
    assert name[|name| - 1] == word[|word| - 1] && name[|name| - 2] == word[|word| - 2];
    if GreyOfName(name).Some? {
      GreyNameEnd(name);
    }
  }

  /** getColorName is unambiguous: the name reads back as the class whose
      bands contain the colour's HSL values (grey by lightness below
      saturation 10, otherwise saturation, lightness and hue bands). */
  lemma {:induction false} ColorNameClass(r: int, g: int, b: int)
    requires IsByte(r) && IsByte(g) && IsByte(b)
    ensures ParseColorName(GetColorName(r, g, b)).Some?
    ensures InBands(ParseColorName(GetColorName(r, g, b)).value, RgbToHsl(r, g, b))
  {
    var hsl := RgbToHsl(r, g, b);
    if hsl.s < 10 {
      GrayNameParses(hsl.l);
    } else {
      var word := HueName(hsl.h);
      var rest := LightnessModifier(hsl.l) + word;
      var name := SaturationModifier(hsl.s) + rest;
      assert GetColorName(r, g, b) == name;
      HueNameParses(hsl.h);
      ToneSplits(hsl.l, word);
      ChromaSplits(hsl.s, rest, hsl.l, word);
      assert name == SaturationModifier(hsl.s) + LightnessModifier(hsl.l) + word;
      NotGreyName(SaturationModifier(hsl.s) + LightnessModifier(hsl.l), word);
    }
  }

  /** Black, white and pure red, as the source's documentation names them. */
  lemma ColorNameExamples()
    ensures GetColorName(0, 0, 0) == "Black"
    ensures GetColorName(255, 255, 255) == "White"
    ensures GetColorName(255, 0, 0) == "Vivid Red"
  {
    assert RgbToHsl(255, 0, 0) == Hsl(0, 100, 50);
  }

  // ===========================================================================
  // Validation and formatting

  /** isValidHex: an optional '#', then exactly six or exactly three hex digits. */
  predicate IsValidHex(hex: string) {
    || ((|hex| == 6 || |hex| == 3) && AllHexDigits(hex))
    || ((|hex| == 7 || |hex| == 4) && hex[0] == '#' && AllHexDigits(hex[1..]))
  }

  /** The CSS shorthand `#rgb`, with or without the '#'. */
  predicate IsShorthandHex(hex: string) {
    |StripHash(hex)| == 3 && AllHexDigits(StripHash(hex))
  }

  /** Everything hexToRgb parses is valid, and the only valid text it rejects
      is the three-digit shorthand. */
  lemma ValidHexVersusParse(hex: string)
    ensures IsValidHex(hex) <==> HexToRgb(hex).Some? || IsShorthandHex(hex)
    ensures IsShorthandHex(hex) ==> HexToRgb(hex) == None
  {
  }

  lemma ShorthandExample()
    ensures IsValidHex("#abc") && HexToRgb("#abc") == None
  {
  }

  /** formatHex: the text with a '#' in front unless it already starts with one. */
  function FormatHex(hex: string): (formatted: string)
    ensures |formatted| > 0 && formatted[0] == '#'
    ensures StripHash(formatted) == StripHash(hex)
    ensures |hex| > 0 && hex[0] == '#' ==> formatted == hex
  {
    if |hex| > 0 && hex[0] == '#' then hex else "#" + hex
  }

  /** Formatting twice changes nothing more. */
  lemma FormatHexIdempotent(hex: string)
    ensures FormatHex(FormatHex(hex)) == FormatHex(hex)
  {
  }

  /** Adding the '#' changes neither what the text parses to nor whether it is valid. */
  lemma {:induction false} FormatHexKeepsMeaning(hex: string)
    ensures HexToRgb(FormatHex(hex)) == HexToRgb(hex)
    ensures IsValidHex(FormatHex(hex)) == IsValidHex(hex)
  {
    var f := FormatHex(hex);
    if !(|hex| > 0 && hex[0] == '#') {
      assert f[1..] == hex;
      assert StripHash(f) == StripHash(hex);
      assert IsSixDigitHex(f) == IsSixDigitHex(hex);
    }
  }
}
