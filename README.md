# what-is-the-color: a verified model of the colour logic

This project models the colour logic of a small browser colour picker. It proves what the code promises about that logic. The logic lives in three places:

- `js/colorUtils.js` is the `ColorUtils` library. It covers:
  - hex parsing and formatting, the `#rrggbb` notation of CSS Color Module Level 3, section 4.2.1;
  - RGB to HSL, and HSL to RGB (the `hue2rgb` algorithm of CSS Color Module Level 3, section 4.2.4);
  - RGB to CMYK, and a luma-weighted brightness;
  - tints and shades;
  - a banded colour name;
  - hex validation and formatting.
- `script.js` is the page script. It has its own copies of the conversions, fixed-percentage lightening and darkening, a nine-swatch shade ramp, and the black/white text colour for a swatch. It also extracts the dominant colours of an image: it samples every tenth pixel, counts hex keys in a `Map`, sorts the entries by count and keeps ten.
- `js/app.js` is the `ColorPickerApp` controller. It holds the current colour and the guard on replacing it, the saved-colour list kept in `localStorage`, and the eleven-swatch palette with its labels.

The Dafny modules follow that structure:

| module | file | models |
|---|---|---|
| `JsBuiltins` | `js_builtins.dfy` | `Math.round`, `Math.min`/`max`, `Number.prototype.toString(radix)`, `parseInt(s, radix)`, `padStart`, `Array.prototype.reverse`, and the hex digit class of the regular expressions |
| `ColorUtils` | `color_utils.dfy` | `js/colorUtils.js` |
| `Script` | `script.dfy` | the conversions, lighten/darken, text colour and ramp of `script.js` |
| `Ranking` | `ranking.dfy` | the `Map` count, the stable sort by count and the slice of `extractColorsFromImage`, generic in the key |
| `Extraction` | `extraction.dfy` | the strided sampling loop of `extractColorsFromImage` and what it returns |
| `App` | `app.dfy` | `ColorPickerApp` as a class with the fields `currentColor` and `storedColors` |

The model makes these choices about numbers and state:

- Numbers are exact. Integers are `int`; fractions are `real`.
- `Math.round(x)` is `Floor(x + 1/2)`, which rounds a half towards +infinity as JavaScript does.
- Pure code is written as functions. Some code changes state step by step: the `for` loops of `generateShades` and `generateTints`, the ramp loops, the sampling loop, and the controller's handlers. That code is written as methods, each proved against a specification function.
- The controller is a `class`. Its handlers `modifies` its fields.

## Model

| member | source | states |
|---|---|---|
| JsBuiltins.Round | js/colorUtils.js:76-80 | Math.round gives the integer n with n - 1/2 <= x < n + 1/2, so a half rounds up |
| JsBuiltins.RadixDigits | js/colorUtils.js:34-37 | toString(radix) writes only lower-case digits below the radix, and writes a single digit exactly when the value is below the radix |
| JsBuiltins.RadixRoundTrip | js/colorUtils.js:34-37 | parseInt reads back the value that toString(radix) wrote |
| JsBuiltins.HexStringOfByte | js/colorUtils.js:34-37 | a value below 256 takes at most two base-16 digits |
| JsBuiltins.PadStartSpec | script.js:114 | padStart reaches the target length, keeps the original text at the end and fills the front with the filler |
| JsBuiltins.ReverseSpec | js/app.js:220 | reverse keeps the length, puts element i at position n-1-i, and is its own inverse |
| ColorUtils.ParsePair | js/colorUtils.js:15-17 | parseInt of two hex digits is 16 times the first digit plus the second, and is a byte |
| ColorUtils.HexToRgb | js/colorUtils.js:12-19 | gives a colour exactly when the text is an optional '#' followed by six hex digits of either case; the channels are then bytes |
| ColorUtils.ToHexOfByte | js/colorUtils.js:34-37 | toHex of a byte is exactly two lower-case digits that parse back to the byte |
| ColorUtils.ToHexOfPair | js/colorUtils.js:34-37 | parsing two hex digits and writing them back with toHex gives the same digits in lower case |
| ColorUtils.ClampByte | js/colorUtils.js:30-32 | the clamp always gives a byte, and is plain rounding for inputs in [0, 255] |
| ColorUtils.RgbToHex | js/colorUtils.js:28-39 | always '#' followed by exactly six lower-case hex digits |
| ColorUtils.CanonicalIsRgbHex | js/colorUtils.js:12-39 | a '#' and six lower-case digits parse, and rgbToHex of the parsed colour gives the same text back |
| ColorUtils.IsHexOfRgbHex | js/colorUtils.js:12-39 | for a byte colour c, a text is canonical and parses to c exactly when it is rgbToHex's text of c |
| ColorUtils.RgbToHexDecodes | js/colorUtils.js:28-39 | hexToRgb reads rgbToHex's text back as the channels rounded and then clamped to 0..255, for any real input |
| ColorUtils.HexOfBytes | js/colorUtils.js:38 | '#' plus the toHex texts of three bytes is seven characters of lower-case hex that hexToRgb parses to those bytes |
| ColorUtils.HexRoundTrip | js/colorUtils.js:12-39 | hexToRgb(rgbToHex(r, g, b)) == (r, g, b) for byte channels |
| ColorUtils.HexCanonical | js/colorUtils.js:12-39 | rgbToHex(hexToRgb(h)) is '#' followed by the lower-cased digits of h, for any accepted h |
| ColorUtils.Max3 | js/colorUtils.js:53 | Math.max of three values is one of them and at least each |
| ColorUtils.Min3 | js/colorUtils.js:54 | Math.min of three values is one of them and at most each |
| ColorUtils.HueTurn | js/colorUtils.js:60-73 | the hue switch gives a fraction of a turn in [0, 1) whichever channel is largest |
| ColorUtils.SaturationFraction | js/colorUtils.js:60-61 | both branches of the saturation give a value in (0, 1] for a non-grey colour |
| ColorUtils.RgbToHsl | js/colorUtils.js:48-81 | for byte channels h is in [0, 360], and s and l are in [0, 100]; a grey (max == min) has h = s = 0 |
| ColorUtils.HueReaches360 | js/colorUtils.js:76-80 | rounding makes hue 360 reachable: (255, 0, 1) has h = 360 |
| ColorUtils.HueToChannelBounds | js/colorUtils.js:100-107 | hue2rgb wraps t once and stays between p and q for every t >= -1 |
| ColorUtils.PivotBounds | js/colorUtils.js:109-110 | for s, l in [0, 1] the pivots satisfy 0 <= p <= q <= 1 in both branches of q |
| ColorUtils.HslToRgb | js/colorUtils.js:90-122 | with s = 0 all three channels equal round(l * 255 / 100) |
| ColorUtils.HslToRgbRange | js/colorUtils.js:90-122 | for h in [0, 360] and s, l in [0, 100] every channel is a byte |
| ColorUtils.WithoutBlack | js/colorUtils.js:140-142 | removing the black part gives a value in [0, 1], and exactly 0 for the channel that set k |
| ColorUtils.RgbToCmyk | js/colorUtils.js:131-151 | all four values are in [0, 100] for byte channels; at least one of c, m, y is 0; black is (0, 0, 0, 100) through the k == 1 guard; white is (0, 0, 0, 0) |
| ColorUtils.GetBrightness | js/colorUtils.js:160-162 | the brightness is (299 r + 587 g + 114 b) / 1000, in [0, 255] for byte channels |
| ColorUtils.BrightnessMonotone | js/colorUtils.js:160-162 | raising any channel never lowers the brightness |
| ColorUtils.StepFactorOrder | js/colorUtils.js:175 | the factors i / (count + 1) of steps 1..count lie in [0, 1] and grow with i |
| ColorUtils.ShadeByOrder | js/colorUtils.js:176-178 | shading a byte stays in [0, x], and a larger factor gives a result no larger |
| ColorUtils.TintByOrder | js/colorUtils.js:197-199 | tinting a byte stays in [x, 255], and a larger factor gives a result no smaller |
| ColorUtils.ShadeChannelOrder | js/colorUtils.js:174-180 | a shade channel is at most the base channel and does not rise from step i to step j >= i |
| ColorUtils.TintChannelOrder | js/colorUtils.js:195-201 | a tint channel is at least the base channel, at most 255, and does not fall from step i to step j >= i |
| ColorUtils.ShadeOrder | js/colorUtils.js:170-183 | every shade is a byte colour no lighter than the base, and shade j is no lighter than shade i for i <= j |
| ColorUtils.TintOrder | js/colorUtils.js:191-204 | every tint is a byte colour no darker than the base, and tint j is no darker than tint i for i <= j |
| ColorUtils.ShadeDecodes | js/colorUtils.js:176-179 | the hex text pushed for shade i is canonical and parses back to shade i |
| ColorUtils.TintDecodes | js/colorUtils.js:197-200 | the hex text pushed for tint i is canonical and parses back to tint i |
| ColorUtils.ShadesDarken | js/colorUtils.js:174-180 | a run of shades goes from the base towards black without any channel rising |
| ColorUtils.TintsLighten | js/colorUtils.js:195-201 | a run of tints goes from the base towards white without any channel falling |
| ColorUtils.GenerateShades | js/colorUtils.js:170-183 | exactly max(count, 0) texts, and none for count <= 0 whatever the text; text k is canonical and parses to the base scaled by 1 - (k+1)/(count+1), so by IsHexOfRgbHex it is rgbToHex's text of that colour; each is no lighter than the base and no lighter than the next |
| ColorUtils.GenerateTints | js/colorUtils.js:191-204 | exactly max(count, 0) texts, and none for count <= 0 whatever the text; text k is canonical and parses to the base moved (k+1)/(count+1) of the way to white, so by IsHexOfRgbHex it is rgbToHex's text of that colour; each is no darker than the base and no darker than the next |
| ColorUtils.BandsDisjoint | js/colorUtils.js:213-251 | the grey, hue, lightness and saturation bands do not overlap, so an HSL value belongs to at most one name class |
| ColorUtils.GrayNameParses | js/colorUtils.js:217-225 | the grey name for lightness l is one of the seven grey names, and its band contains l |
| ColorUtils.HueNameParses | js/colorUtils.js:230-238 | the hue name for h is one of the eight hue words, and its band contains h; hues of 330 and above, including 360, are Red |
| ColorUtils.ToneSplits | js/colorUtils.js:241-244 | the lightness modifier in front of a hue word can be split off again, and its band contains l |
| ColorUtils.ChromaSplits | js/colorUtils.js:247-248 | the saturation modifier in front of the rest of the name can be split off again, and its band contains s |
| ColorUtils.NotGreyName | js/colorUtils.js:217-250 | a name that ends in a hue word is never one of the grey names |
| ColorUtils.ColorNameClass | js/colorUtils.js:213-251 | every name getColorName returns reads back as a class: grey by lightness when s < 10, otherwise saturation, lightness and hue bands; that class's bands contain the colour's HSL values |
| ColorUtils.ColorNameExamples | js/colorUtils.js:213-251 | (0,0,0) is Black, (255,255,255) is White, (255,0,0) is Vivid Red |
| ColorUtils.ValidHexVersusParse | js/colorUtils.js:258-260 | isValidHex accepts exactly what hexToRgb parses plus the three-digit shorthand, which hexToRgb rejects |
| ColorUtils.ShorthandExample | js/colorUtils.js:258-260 | "#abc" is valid but does not parse |
| ColorUtils.FormatHex | js/colorUtils.js:267-269 | the result starts with '#', has the same text after the '#', and is the input itself when the input already starts with '#' |
| ColorUtils.FormatHexIdempotent | js/colorUtils.js:267-269 | formatting twice is formatting once |
| ColorUtils.FormatHexKeepsMeaning | js/colorUtils.js:267-269 | adding the '#' changes neither what hexToRgb returns nor whether isValidHex accepts the text |
| Script.HexToRgb | script.js:45-52 | the page's hexToRgb returns what the library's returns, on every input |
| Script.RgbToHslAgrees | script.js:54-81 | the page's rgbToHsl equals the library's on every byte colour |
| Script.RgbToCmyk | script.js:83-103 | the page's rgbToCmyk equals the library's on every input |
| Script.ChannelIsToHex | script.js:114 | toString(16).padStart(2, '0') of a non-negative channel is the library's toHex |
| Script.FormatRgbIsRgbHex | script.js:114 | for byte channels the template text is exactly rgbToHex's text: canonical lower-case hex that parses back to the channels |
| Script.LightenChannelOrder | script.js:111-113 | for p in [0, 1] a lightened channel is between the old channel and 255, and grows with p |
| Script.DarkenChannelOrder | script.js:119-121 | for p in [0, 1] a darkened channel is between 0 and the old channel, and shrinks as p grows |
| Script.LightenedOrder | script.js:109-115 | a lightened byte colour is a byte colour no darker than the input, and lightening by more gives no darker a colour |
| Script.DarkenedOrder | script.js:117-123 | a darkened byte colour is a byte colour no lighter than the input, and darkening by more gives no lighter a colour |
| Script.DarkenByZero | script.js:119-121 | darkening by 0 leaves every channel unchanged |
| Script.LightenColorSpec | script.js:109-115 | for p in [0, 1] the text is '#' and six lower-case digits, parses to the lightened colour, and every channel is at least the input's |
| Script.DarkenColorSpec | script.js:117-123 | for p in [0, 1] the text is '#' and six lower-case digits, parses to the darkened colour, and every channel is at most the input's |
| Script.DarkenByZeroColor | script.js:117-123 | darkenColor(hex, 0) parses to the same colour as hex |
| Script.GetTextColor | script.js:125-129 | '#000000' exactly when 299 r + 587 g + 114 b > 128000, which is brightness > 128; '#FFFFFF' otherwise |
| Script.TextColorMonotone | script.js:125-129 | a colour no darker in any channel than one that gets black text also gets black text |
| Script.TextColorExamples | script.js:125-129 | black gets white text and white gets black text |
| Script.ParseExample | script.js:45-52 | "#000000" and "#ffffff" parse to black and white |
| Script.RampColorOrder | script.js:150-167 | each swatch colour of the ramp is a byte colour no lighter than the one before it |
| Script.LighterShades | script.js:153-157 | the first loop builds exactly the four lightened swatches, for steps 0.60 down to 0.15 |
| Script.DarkerShades | script.js:162-166 | the second loop builds exactly the four darkened swatches, for steps 0.15 up to 0.60 |
| Script.GenerateShades | script.js:150-167 | the two loops and the middle swatch build exactly the ramp: four lightened swatches, the colour, four darkened swatches |
| Script.LighterRunIndex | script.js:154-157 | the first loop leaves 4 swatches, swatch k lightened by 0.15 (4 - k) |
| Script.DarkerRunIndex | script.js:163-166 | the second loop leaves 4 swatches, swatch k darkened by 0.15 (k + 1) |
| Script.RampShape | script.js:150-167 | the ramp has 9 swatches: lightened by 0.60, 0.45, 0.30, 0.15, the colour at index 4, then darkened by 0.15 to 0.60 |
| Script.RampDarkens | script.js:150-167 | every swatch parses to its ramp colour, and no channel rises from one swatch to the next |
| Script.RampSwatch | script.js:150-167 | the swatch built for index k (lightened, the colour, or darkened) parses to ramp colour k |
| Ranking.Count | script.js:224 | colorMap.set(hex, (colorMap.get(hex) or 0) + 1) on a Map held as its key order and counts: a known key counts one more in place; a new key goes last with count 1 |
| Ranking.FirstIndex | script.js:227 | the first position of a key: the key is there and nowhere before it |
| Ranking.FirstIndexSnoc | script.js:217-225 | keys already seen keep their first position when more keys follow |
| Ranking.TallyShape | script.js:217-225 | the Map's keys are exactly the keys counted, in a list without duplicates |
| Ranking.TallyCounts | script.js:217-225 | the count of every key equals its number of occurrences |
| Ranking.FirstSeenSnoc | script.js:224 | counting a key already seen keeps the insertion order in order of first occurrence |
| Ranking.FirstSeenNew | script.js:224 | counting a new key at the end keeps the insertion order in order of first occurrence |
| Ranking.TallyFirstSeen | script.js:217-225 | the Map lists its keys in order of first occurrence |
| Ranking.TotalFrame | script.js:224 | the sum of counts only depends on the counts of the listed keys |
| Ranking.TotalBump | script.js:224 | adding one to one listed key adds one to the sum |
| Ranking.TallyTotal | script.js:217-225 | the counts sum to the number of keys counted, one per loop pass |
| Ranking.InsertPerm | script.js:228 | inserting an entry into a sorted list keeps all entries and adds this one |
| Ranking.SortPerm | script.js:228 | the sort by count is a permutation of the entries |
| Ranking.InsertElems | script.js:228 | inserting keeps exactly the old entries and the new one |
| Ranking.LastIsLeast | script.js:228 | in a list with non-increasing counts the last count is the least |
| Ranking.InsertSorted | script.js:228 | inserting into a list with non-increasing counts keeps the counts non-increasing |
| Ranking.SortElems | script.js:228 | the sorted list holds exactly the entries of the input |
| Ranking.SortSorted | script.js:228 | the sorted list has non-increasing counts |
| Ranking.InsertTies | script.js:228 | inserting keeps equal counts in order of first occurrence, since the sort is stable |
| Ranking.TieWithLast | script.js:228 | an entry tied with the last entry of a stable list comes after it in order of first occurrence |
| Ranking.SortTies | script.js:228 | the sort by count is stable: entries with equal counts keep the Map's order of first occurrence |
| Ranking.EntriesSpec | script.js:217-227 | the Map's entries hold every counted key once with its number of occurrences, in order of first occurrence |
| Ranking.SortedEntriesSpec | script.js:228 | after the sort every key occurs once with its count, and each entry beats every later one (more occurrences, or as many and seen first) |
| Ranking.TopSpec | script.js:229-230 | the first n keys of such a list beat each later key and every key left out |
| Ranking.RankingSpec | script.js:217-230 | at most n keys, all occurring; all keys when fewer than n distinct keys occur; each key beats every later one and every key left out |
| Ranking.RankingDistinct | script.js:227-230 | the ranking has no duplicates |
| Extraction.SampleCountSpec | script.js:217 | the loop visits offset 40 j exactly when 40 j is below the length, i.e. ceil(len / 40) times, and a visited pixel lies inside a whole-pixel buffer |
| Extraction.SamplePixel | script.js:218-220 | the red, green and blue bytes at a visited offset form a byte colour |
| Extraction.SampleStep | script.js:218-224 | one pass turns the bytes at the next offset into that sample's text and counts it |
| Extraction.SampleKeyDecodes | script.js:221 | a sample's text is canonical lower-case hex that parses back to the sampled colour |
| Extraction.SampleKeyInjective | script.js:221 | two samples share a text exactly when they share red, green and blue; alpha is ignored |
| Extraction.ExtractColors | script.js:199-233 | the strided loop filling the Map in place, then the sort, slice and map, return exactly the ranking of the sampled texts |
| Extraction.DominantColorsSpec | script.js:215-231 | at most ten canonical hex colours, each one sampled; all sampled colours when fewer than ten differ; each colour is at least as frequent as the next and as every colour left out, ties in order of first appearance |
| App.ToneOrder | js/app.js:218-220 | every palette slot is a byte colour, and the palette runs from lightest to darkest |
| App.PaletteTexts | js/app.js:218-220 | `[...tints.reverse(), hex, ...shades]` of generateTints' and generateShades' texts has eleven swatches, the base text in the middle, slot i parsing to palette tone i, and every other slot canonical |
| App.LabelParses | js/app.js:232-238 | every label other than Base is a sign ('+' before the base, '-' after), the decimal digits of 20 per slot from the base, and '%' |
| App.LabelsDistinct | js/app.js:232-238 | no two palette slots share a label |
| App.LabelExamples | js/app.js:232-238 | the labels are +100% and +20% at slots 0 and 4, Base at 5, and -20% and -100% at 6 and 10 |
| App.SaveColorSpec | js/app.js:318-321 | a save lists the colour; nothing else is added; the old list stays in front; a duplicate-free list stays duplicate-free; saving twice is saving once |
| App.DeleteColorMembers | js/app.js:394 | the filter keeps exactly the other colours |
| App.DeleteColorAppend | js/app.js:394 | the filter keeps the other colours in their original relative order: it distributes over concatenation |
| App.DeleteAbsent | js/app.js:394 | deleting a colour that is not listed changes nothing |
| App.DeleteKeepsDistinct | js/app.js:394 | deleting keeps a duplicate-free list duplicate-free |
| App.SaveThenDelete | js/app.js:318-394 | deleting a colour just saved to a list without it gives back that list |
| App.ColorPickerApp.constructor | js/app.js:42-45 | the controller starts at (52, 152, 219) with whatever the store holds |
| App.ColorPickerApp.CurrentHexDecodes | js/app.js:304-308 | while the colour is three bytes, the hex saved for it is canonical and parses back to it |
| App.ColorPickerApp.HandleRgbSliderChange | js/app.js:91-98 | the colour becomes the three slider values, and stays three bytes exactly when they are bytes; the store is untouched |
| App.ColorPickerApp.HandleHslSliderChange | js/app.js:103-111 | the colour becomes hslToRgb of the three slider values, three bytes for hue 0..360 and percentages 0..100; the store is untouched |
| App.ColorPickerApp.PickColor | js/app.js:57-63 | the current colour becomes the parsed colour when the text parses as hex, and is unchanged otherwise; the store is untouched; the app state is valid afterwards if it was before or the text parses |
| App.ColorPickerApp.SaveCurrentColor | js/app.js:303-327 | the stored list becomes the old list (empty when missing or unparseable) with rgbToHex of the current colour appended if absent; when it was present the store is not written; duplicates are never introduced; the colour and whether it is three bytes are unchanged |
| App.ColorPickerApp.DeleteSavedColor | js/app.js:386-398 | the store is written with the old list (empty when missing or unparseable) filtered of the colour; the colour is then absent; duplicates are never introduced; the current colour and whether it is three bytes are unchanged |
| App.ColorPickerApp.LoadSavedColors | js/app.js:332-380 | the colours shown are the stored list in order, and none when the store is missing or unparseable |
| App.ColorPickerApp.UpdatePalette | js/app.js:217-254 | eleven swatches with the base text at index 5, slot i parsing to palette tone i (tints whitest first, the base, shades darkest last), every other slot canonical, and label i under slot i |

## Left out

- DOM reads and writes, event-listener registration, slider gradients and the upper-case display text (js/app.js:124-211, script.js:131-148, script.js:169-181, script.js:235-253). These are UI wiring. `createShadeItem` appears only as the swatch order in `Script.GenerateShades`.
- Reading the sliders' DOM values with `parseInt` (js/app.js:93-95, js/app.js:104-106). The handlers `App.ColorPickerApp.HandleRgbSliderChange` and `App.ColorPickerApp.HandleHslSliderChange` take the parsed integers as parameters. Neither handler guards what it writes to `currentColor`. The slider elements' ranges are set in the page's HTML, which is not part of this model. So `Valid()` after a slider move is stated on the condition that the values are bytes, or hue 0..360 with percentages 0..100.
- `updateFromRGB` (js/app.js:117-165). It writes the colour's hex, RGB, HSL, CMYK and name into the display and the sliders. The conversions it calls are modelled. It then calls `updatePalette(hex)` (js/app.js:164), modelled as `App.ColorPickerApp.UpdatePalette`; the `hex` it passes is `rgbToHex`'s text, which is canonical (`ColorUtils.RgbToHex`) and so parses (`ColorUtils.CanonicalIsRgbHex`), as that method requires.
- Clipboard, toasts, notifications and `setTimeout` (js/app.js:260-298, script.js:256-291). These are asynchronous browser APIs.
- `FileReader`, `Image` and canvas decoding (script.js:184-212). These are foreign I/O. The extraction starts from an already decoded buffer of whole RGBA pixels (`IsImageData`).
- `localStorage` and `JSON.parse` themselves. The stored item after parsing is the field `storedColors: Option<seq<string>>`, where `None` stands for a missing item or one that does not parse. Stored JSON that parses to something other than a list of strings is not modelled.
- `generateRandomColor` (script.js:105-107), because it depends on `Math.random`.
- The keyboard shortcut (script.js:294-299), which only calls the random colour.
- IEEE-754 doubles. All arithmetic is exact. So `3 * 0.15` is exactly 0.45, the thirds of `hslToRgb` are exact, and a rounding that lands exactly on a half rounds up. On such boundary inputs the browser may round the other way.
- `count = 5`, the default parameter of `generateShades` and `generateTints`: the count is always passed explicitly.
- `Array.prototype.sort` is modelled as a stable insertion sort on values (`Ranking.SortByCount`), because ECMAScript requires `sort` to be stable. The comparator `b[1] - a[1]` is expressed as "count descending". The sort algorithm the engine uses is not modelled.
- App.ColorPickerApp.UpdatePalette: `tints.reverse()` is modelled as a function on the array's contents (`JsBuiltins.Reverse`). Its in-place update of the `tints` array is not modelled, because nothing reads that array afterwards.
- ColorUtils.GenerateShades and ColorUtils.GenerateTints require text that `hexToRgb` parses only when count >= 1, where the loop reads the channels; with count <= 0 they return the empty list for any text, as the source does. `Script.LightenColor`, `Script.DarkenColor`, `Script.GetTextColor`, `Script.GenerateShades` and `App.ColorPickerApp.UpdatePalette` require parseable text always. On other text the source reads a field of `null` and throws.
- ColorUtils.RgbToHsl requires byte channels, which its documentation asks for. Outside 0..255 the model's range facts would not hold.
- ColorUtils.HslToRgb: channel bounds are proved for h in [0, 360] and s, l in [0, 100]. The source neither validates its inputs nor normalises the hue modulo 360, and neither does the model.
- App.ColorPickerApp.PickColor stands for every handler that guards `currentColor` with a successful `hexToRgb`: the colour picker (js/app.js:57-63), a palette click (js/app.js:243-249) and a saved-colour click (js/app.js:369-376).
- App.ColorPickerApp.LoadSavedColors returns the list it would display. The "No saved colors yet" placeholder for an empty list is DOM output.
- Script.RgbToHsl has no range contract of its own. It equals `ColorUtils.RgbToHsl` on byte colours (`Script.RgbToHslAgrees`), which carries the range facts.
