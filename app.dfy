/** The state logic of the page controller (js/app.js, class ColorPickerApp):
    the current colour and the guard on replacing it, the saved-colour list kept
    in localStorage, and the eleven-swatch palette with its labels. */
module App {
  import opened JsBuiltins
  import ColorUtils

  type Rgb = ColorUtils.Rgb

  // ===========================================================================
  // The palette

  /** `generateShades(hex, 5)` and `generateTints(hex, 5)`. */
  const Steps := 5
  /** Tints, the base and shades. */
  const PaletteSize := 2 * Steps + 1
  /** The base colour's slot: after the five tints. */
  const BaseIndex := Steps

  /** The colour of palette slot `index`: tints whitest first, then the base,
      then shades darkest last. */
  function PaletteTone(base: Rgb, index: int): Rgb {
    if index < BaseIndex then ColorUtils.TintOf(base, BaseIndex - index, Steps)
    else if index == BaseIndex then base
    else ColorUtils.ShadeOf(base, index - BaseIndex, Steps)
  }

  /** The palette runs from lightest to darkest: no channel grows from one slot
      to a later one, and every slot is a byte colour. */
  lemma ToneOrder(base: Rgb, i: int, j: int)
    requires ColorUtils.IsRgb(base) && 0 <= i <= j < PaletteSize
    ensures ColorUtils.IsRgb(PaletteTone(base, i))
    ensures ColorUtils.NoLighter(PaletteTone(base, j), PaletteTone(base, i))
  {
    if i < BaseIndex {
      ColorUtils.TintOrder(base, BaseIndex - i, BaseIndex - i, Steps);
      if j < BaseIndex {
        ColorUtils.TintOrder(base, BaseIndex - j, BaseIndex - i, Steps);
      } else if j > BaseIndex {
        ColorUtils.ShadeOrder(base, j - BaseIndex, j - BaseIndex, Steps);
      }
    } else if i == BaseIndex {
      if j > BaseIndex {
        ColorUtils.ShadeOrder(base, j - BaseIndex, j - BaseIndex, Steps);
      }
    } else {
      ColorUtils.ShadeOrder(base, i - BaseIndex, j - BaseIndex, Steps);
    }
  }

  /** The palette `[...tints.reverse(), hex, ...shades]` built from generateTints'
      and generateShades' texts: eleven swatches, the base text in the middle,
      each parsing to its slot's tone, and all but the base written by rgbToHex. */
  lemma PaletteTexts(base: Rgb, tints: seq<string>, hex: string, shades: seq<string>)
    requires ColorUtils.HexToRgb(hex) == Some(base)
    requires |tints| == Steps && |shades| == Steps
    requires forall k :: 0 <= k < Steps ==> ColorUtils.IsCanonicalHex(tints[k])
    requires forall k :: 0 <= k < Steps ==> ColorUtils.HexToRgb(tints[k]) == Some(ColorUtils.TintOf(base, k + 1, Steps))
    requires forall k :: 0 <= k < Steps ==> ColorUtils.IsCanonicalHex(shades[k])
    requires forall k :: 0 <= k < Steps ==> ColorUtils.HexToRgb(shades[k]) == Some(ColorUtils.ShadeOf(base, k + 1, Steps))
    ensures var palette := Reverse(tints) + [hex] + shades;
      && |palette| == PaletteSize && palette[BaseIndex] == hex
      && (forall i :: 0 <= i < PaletteSize ==> ColorUtils.HexToRgb(palette[i]) == Some(PaletteTone(base, i)))
      && (forall i :: 0 <= i < PaletteSize && i != BaseIndex ==> ColorUtils.IsCanonicalHex(palette[i]))
  {
    ReverseSpec(tints);
  }

  /** The label under slot `index`: `+100%` … `+20%`, `Base`, `-20%` … `-100%`. */
  function PaletteLabel(index: int): string {
    if index < BaseIndex then "+" + NumberToString((BaseIndex - index) * 20, 10) + "%"
    else if index == BaseIndex then "Base"
    else "-" + NumberToString((index - BaseIndex) * 20, 10) + "%"
  }

  /** The percentage a label names: 20 per slot away from the base. */
  function LabelPercent(index: int): nat {
    if index < BaseIndex then (BaseIndex - index) * 20 else (index - BaseIndex) * 20
  }

  /** A label other than `Base` is a sign, the decimal digits of its
      percentage, and `%`. */
  lemma LabelParses(index: int)
    requires 0 <= index < PaletteSize && index != BaseIndex
    ensures |PaletteLabel(index)| >= 3
    ensures PaletteLabel(index)[0] == (if index < BaseIndex then '+' else '-')
    ensures PaletteLabel(index)[|PaletteLabel(index)| - 1] == '%'
    ensures AllHexDigits(PaletteLabel(index)[1..|PaletteLabel(index)| - 1])
    ensures ParseRadix(PaletteLabel(index)[1..|PaletteLabel(index)| - 1], 10) == LabelPercent(index)
  {
    var digits := ToRadixString(LabelPercent(index), 10);
    RadixRoundTrip(LabelPercent(index), 10);
    var sign := if index < BaseIndex then "+" else "-";
    assert PaletteLabel(index) == sign + digits + "%";
    assert PaletteLabel(index)[1..|PaletteLabel(index)| - 1] == digits;
  }

  /** No two slots share a label. */
  lemma LabelsDistinct(i: int, j: int)
    requires 0 <= i < j < PaletteSize
    ensures PaletteLabel(i) != PaletteLabel(j)
  {
    if i == BaseIndex {
      LabelParses(j);
    } else if j == BaseIndex {
      LabelParses(i);
    } else {
      LabelParses(i);
      LabelParses(j);
      assert PaletteLabel(i) == PaletteLabel(j) ==> LabelPercent(i) == LabelPercent(j);
    }
  }

  /** The labels at both ends, either side of the base, and the base. */
  lemma LabelExamples()
    ensures PaletteLabel(0) == "+100%" && PaletteLabel(4) == "+20%"
    ensures PaletteLabel(BaseIndex) == "Base"
    ensures PaletteLabel(6) == "-20%" && PaletteLabel(10) == "-100%"
  {
    assert ToRadixString(1, 10) == "1";
    assert ToRadixString(2, 10) == "2";
    assert ToRadixString(10, 10) == "10";
    assert ToRadixString(20, 10) == "20";
    assert ToRadixString(100, 10) == "100";
  }

  // ===========================================================================
  // The saved colours

  /** `if (!savedColors.includes(hex)) savedColors.push(hex)`. */
  function SaveColor<T(==)>(saved: seq<T>, hex: T): seq<T> {
    if hex in saved then saved else saved + [hex]
  }

  /** `savedColors.filter(color => color !== colorToDelete)`. */
  function DeleteColor<T(==)>(saved: seq<T>, color: T): seq<T> {
    if saved == [] then []
    else (if saved[0] == color then [] else [saved[0]]) + DeleteColor(saved[1..], color)
  }

  /** After a save the colour is listed once more only if it was absent: the
      old list is kept in front and nothing else is added. */
  lemma SaveColorSpec<T>(saved: seq<T>, hex: T)
    ensures hex in SaveColor(saved, hex)
    ensures forall x :: x in SaveColor(saved, hex) <==> x in saved || x == hex
    ensures SaveColor(saved, hex)[..|saved|] == saved
    ensures Distinct(saved) ==> Distinct(SaveColor(saved, hex))
    ensures SaveColor(SaveColor(saved, hex), hex) == SaveColor(saved, hex)
  {
    if hex !in saved {
      assert (saved + [hex])[..|saved|] == saved;
      assert forall i :: 0 <= i < |saved| ==> (saved + [hex])[i] == saved[i];
    }
  }

  /** Deleting keeps exactly the other colours. */
  lemma {:induction false} DeleteColorMembers<T>(saved: seq<T>, color: T)
    ensures forall x :: x in DeleteColor(saved, color) <==> x in saved && x != color
  {
    if saved != [] {
      DeleteColorMembers(saved[1..], color);
      assert saved == [saved[0]] + saved[1..];
    }
  }

  /** One step of the filter: the first colour is kept unless it is the one deleted. */
  lemma DeleteColorCons<T>(x: T, rest: seq<T>, color: T)
    ensures DeleteColor([x] + rest, color) == (if x == color then [] else [x]) + DeleteColor(rest, color)
  {
    assert ([x] + rest)[1..] == rest;
  }

  /** Deleting keeps the other colours in their order: it distributes over
      concatenation. */
  lemma {:induction false} DeleteColorAppend<T>(a: seq<T>, b: seq<T>, color: T)
    ensures DeleteColor(a + b, color) == DeleteColor(a, color) + DeleteColor(b, color)
  {
    if a == [] {
      assert a + b == b;
    } else {
      var x, rest := a[0], a[1..];
      assert a == [x] + rest;
      assert a + b == [x] + (rest + b);
      DeleteColorCons(x, rest, color);
      DeleteColorCons(x, rest + b, color);
      DeleteColorAppend(rest, b, color);
    }
  }

  /** Deleting a colour that is not listed changes nothing. */
  lemma {:induction false} DeleteAbsent<T>(saved: seq<T>, color: T)
    requires color !in saved
    ensures DeleteColor(saved, color) == saved
  {
    if saved != [] {
      DeleteAbsent(saved[1..], color);
      assert saved == [saved[0]] + saved[1..];
    }
  }

  /** Deleting keeps a list free of duplicates. */
  lemma {:induction false} DeleteKeepsDistinct<T>(saved: seq<T>, color: T)
    requires Distinct(saved)
    ensures Distinct(DeleteColor(saved, color))
  {
    if saved != [] {
      DeleteKeepsDistinct(saved[1..], color);
      DeleteColorMembers(saved[1..], color);
      var rest := DeleteColor(saved[1..], color);
      assert saved[0] !in saved[1..];
      if saved[0] != color {
        forall i, j | 0 <= i < j < |[saved[0]] + rest| ensures ([saved[0]] + rest)[i] != ([saved[0]] + rest)[j] {
          if i == 0 {
            assert ([saved[0]] + rest)[j] in rest;
          }
        }
      }
    }
  }

  /** Deleting a colour just saved restores the list it was saved to. */
  lemma SaveThenDelete<T>(saved: seq<T>, hex: T)
    requires hex !in saved
    ensures DeleteColor(SaveColor(saved, hex), hex) == saved
  {
    DeleteColorAppend(saved, [hex], hex);
    DeleteAbsent(saved, hex);
  }

  // ===========================================================================
  // The controller

  class ColorPickerApp {
    /** `this.currentColor`. */
    var currentColor: Rgb
    /** The `savedColors` item of localStorage after JSON.parse: None when it is
        missing or does not parse. */
    var storedColors: Option<seq<string>>

    /** The list save, delete and load start from: missing or unparseable
        stored data counts as the empty list. */
    function SavedColors(): seq<string>
      reads this
    {
      storedColors.GetOr([])
    }

    /** The hex text of the current colour, as rgbToHex writes it. */
    function CurrentHex(): string
      reads this
    {
      ColorUtils.RgbHex(currentColor)
    }

    /** The controller's colour is three bytes. Every handler but the slider
        ones keeps this; the slider ones keep it for in-range slider values. */
    predicate Valid()
      reads this
    {
      ColorUtils.IsRgb(currentColor)
    }

    /** While the colour is three bytes, the hex shown and saved is rgbToHex's
        text of it and parses back to it. */
    lemma CurrentHexDecodes()
      requires Valid()
      ensures ColorUtils.IsHexOf(CurrentHex(), currentColor)
    {
      ColorUtils.HexRoundTrip(currentColor);
    }

    /** The initial colour (52, 152, 219), and whatever localStorage holds. */
    constructor(stored: Option<seq<string>>)
      ensures Valid()
      ensures currentColor == ColorUtils.Rgb(52, 152, 219) && storedColors == stored
    {
      currentColor := ColorUtils.Rgb(52, 152, 219);
      storedColors := stored;
    }

    /** The colour-picker handler (also the palette and saved-colour click
        handlers): the colour changes only when the text parses as hex. */
    method PickColor(value: string)
      modifies this
      ensures old(Valid()) || ColorUtils.HexToRgb(value).Some? ==> Valid()
      ensures ColorUtils.HexToRgb(value).Some? ==> currentColor == ColorUtils.HexToRgb(value).value
      ensures ColorUtils.HexToRgb(value).None? ==> currentColor == old(currentColor)
      ensures storedColors == old(storedColors)
    {
      var rgb := ColorUtils.HexToRgb(value);
      if rgb.Some? {
        currentColor := rgb.value;
      }
    }

    /** handleRGBSliderChange: the colour becomes the three slider values. It
        stays three bytes exactly when the values are bytes, as the sliders'
        0..255 ranges give. */
    method HandleRgbSliderChange(red: int, green: int, blue: int)
      modifies this
      ensures currentColor == ColorUtils.Rgb(red, green, blue)
      ensures storedColors == old(storedColors)
      ensures Valid() <==> ColorUtils.IsByte(red) && ColorUtils.IsByte(green) && ColorUtils.IsByte(blue)
    {
      currentColor := ColorUtils.Rgb(red, green, blue);
    }

    /** handleHSLSliderChange: the colour becomes hslToRgb of the three slider
        values, and stays three bytes for hue 0..360 and percentages 0..100. */
    method HandleHslSliderChange(h: int, s: int, l: int)
      modifies this
      ensures currentColor == ColorUtils.HslToRgb(h, s, l)
      ensures storedColors == old(storedColors)
      ensures 0 <= h <= 360 && 0 <= s <= 100 && 0 <= l <= 100 ==> Valid()
    {
      currentColor := ColorUtils.HslToRgb(h, s, l);
      if 0 <= h <= 360 && 0 <= s <= 100 && 0 <= l <= 100 {
        ColorUtils.HslToRgbRange(h, s, l);
      }
    }

    /** saveCurrentColor: appends the current colour's hex when it is not yet
        saved; otherwise the store is left as it was. */
    method SaveCurrentColor()
      modifies this
      ensures currentColor == old(currentColor) && Valid() == old(Valid())
      ensures SavedColors() == SaveColor(old(SavedColors()), CurrentHex())
      ensures CurrentHex() in old(SavedColors()) ==> storedColors == old(storedColors)
      ensures Distinct(old(SavedColors())) ==> Distinct(SavedColors())
    {
      var hex := ColorUtils.RgbToHex(currentColor.r as real, currentColor.g as real, currentColor.b as real);
      var savedColors := SavedColors();
      SaveColorSpec(savedColors, hex);
      if hex !in savedColors {
        savedColors := savedColors + [hex];
        storedColors := Some(savedColors);
      }
    }

    /** deleteSavedColor: writes back the saved list without `color`. */
    method DeleteSavedColor(color: string)
      modifies this
      ensures currentColor == old(currentColor) && Valid() == old(Valid())
      ensures storedColors == Some(DeleteColor(old(SavedColors()), color))
      ensures color !in SavedColors()
      ensures Distinct(old(SavedColors())) ==> Distinct(SavedColors())
    {
      var savedColors := SavedColors();
      DeleteColorMembers(savedColors, color);
      if Distinct(savedColors) {
        DeleteKeepsDistinct(savedColors, color);
      }
      savedColors := DeleteColor(savedColors, color);
      storedColors := Some(savedColors);
    }

    /** loadSavedColors: the colours shown, in stored order; none when the store
        is missing or unparseable. */
    method LoadSavedColors() returns (shown: seq<string>)
      ensures storedColors.None? ==> shown == []
      ensures storedColors.Some? ==> shown == storedColors.value
    {
      shown := SavedColors();
    }

    /** updatePalette: five tints reversed, the base, five shades, and the
        label the loop writes under each. */
    method UpdatePalette(hex: string) returns (palette: seq<string>, labels: seq<string>)
      requires ColorUtils.HexToRgb(hex).Some?
      ensures |palette| == PaletteSize && palette[BaseIndex] == hex
      ensures forall i :: 0 <= i < PaletteSize && i != BaseIndex ==> ColorUtils.IsCanonicalHex(palette[i])
      ensures forall i :: 0 <= i < PaletteSize ==>
        ColorUtils.HexToRgb(palette[i]) == Some(PaletteTone(ColorUtils.HexToRgb(hex).value, i))
      ensures |labels| == PaletteSize && forall i :: 0 <= i < PaletteSize ==> labels[i] == PaletteLabel(i)
    {
      var shades := ColorUtils.GenerateShades(hex, Steps);
      var tints := ColorUtils.GenerateTints(hex, Steps);
      ReverseSpec(tints);
      PaletteTexts(ColorUtils.HexToRgb(hex).value, tints, hex, shades);
      palette := Reverse(tints) + [hex] + shades;
      labels := [];
      for index := 0 to |palette|
        invariant |labels| == index
        invariant forall k :: 0 <= k < index ==> labels[k] == PaletteLabel(k)
      {
        labels := labels + [PaletteLabel(index)];
      }
    }
  }
}
