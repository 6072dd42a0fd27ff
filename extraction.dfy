/** Dominant colours of an image (extractColorsFromImage in script.js): every
    tenth pixel of the RGBA buffer is written as hex text, the texts are
    counted, and the ten most frequent are kept. */
module Extraction {
  import opened JsBuiltins
  import ColorUtils
  import Script
  import opened Ranking

  /** `sampleRate`: one pixel in ten is looked at. */
  const SampleRate := 10
  /** Four bytes per pixel: red, green, blue, alpha. */
  const BytesPerPixel := 4
  /** `.slice(0, 10)`: how many colours are kept. */
  const TopCount := 10

  /** The bytes of an ImageData: whole RGBA pixels, each byte 0..255. */
  predicate IsImageData(pixels: seq<int>) {
    |pixels| % BytesPerPixel == 0 && forall i :: 0 <= i < |pixels| ==> ColorUtils.IsByte(pixels[i])
  }

  /** `4 * sampleRate`: the loop's step, in bytes. */
  const Stride := BytesPerPixel * SampleRate

  /** Where sample `j` starts in the buffer. */
  function Offset(j: nat): nat {
    j * Stride
  }

  /** How many times the loop `i += 4 * sampleRate` runs over `len` bytes. */
  function SampleCount(len: nat): nat {
    (len + Stride - 1) / Stride
  }

  /** Sample `j` is looked at exactly when its offset lies inside the buffer,
      and then its pixel lies wholly inside an ImageData buffer. */
  lemma SampleCountSpec(len: nat, j: nat)
    ensures Offset(j + 1) == Offset(j) + Stride
    ensures j < SampleCount(len) <==> Offset(j) < len
    ensures j < SampleCount(len) && len % BytesPerPixel == 0 ==> Offset(j) + BytesPerPixel <= len
  {
    assert Stride == 40 && Offset(j) == 40 * j;
    if len % BytesPerPixel == 0 {
      var q := len / 4;
      assert len == 4 * q;
      assert 40 * j < 4 * q ==> 10 * j + 1 <= q;
    }
  }

  /** The red, green and blue bytes at offset `i`. */
  function PixelAt(pixels: seq<int>, i: nat): ColorUtils.Rgb
    requires i + 2 < |pixels|
  {
    ColorUtils.Rgb(pixels[i], pixels[i + 1], pixels[i + 2])
  }

  /** The colour of sample `j`, alpha ignored. */
  function SamplePixel(pixels: seq<int>, j: nat): (c: ColorUtils.Rgb)
    requires IsImageData(pixels) && j < SampleCount(|pixels|)
    ensures ColorUtils.IsRgb(c)
  {
    SampleCountSpec(|pixels|, j);
    PixelAt(pixels, Offset(j))
  }

  /** The hex text the loop builds for sample `j`. */
  function SampleKey(pixels: seq<int>, j: nat): string
    requires IsImageData(pixels) && j < SampleCount(|pixels|)
  {
    var c := SamplePixel(pixels, j);
    Script.FormatRgb(c.r, c.g, c.b)
  }

  /** The texts of the first `n` samples, in the order they are counted. */
  function Samples(pixels: seq<int>, n: nat): seq<string>
    requires IsImageData(pixels) && n <= SampleCount(|pixels|)
  {
    seq(n, j requires 0 <= j < n => SampleKey(pixels, j))
  }

  /** The bytes at sample `n`'s offset give its text, and counting that text
      extends the count of the first `n` samples to the first `n + 1`. */
  lemma SampleStep(pixels: seq<int>, n: nat, i: nat, r: int, g: int, b: int)
    requires IsImageData(pixels) && n < SampleCount(|pixels|) && i == Offset(n) && i + 2 < |pixels|
    requires r == pixels[i] && g == pixels[i + 1] && b == pixels[i + 2]
    ensures Script.FormatRgb(r, g, b) == SampleKey(pixels, n)
    ensures TallyOf(Samples(pixels, n + 1)) == Add(TallyOf(Samples(pixels, n)), Script.FormatRgb(r, g, b))
  {
    assert ColorUtils.Rgb(r, g, b) == PixelAt(pixels, i);
    assert Samples(pixels, n + 1) == Samples(pixels, n) + [SampleKey(pixels, n)];
    TallyOfSnoc(Samples(pixels, n), SampleKey(pixels, n));
  }

  /** A sample's text is canonical hex that parses back to the sampled colour. */
  lemma SampleKeyDecodes(pixels: seq<int>, j: nat)
    requires IsImageData(pixels) && j < SampleCount(|pixels|)
    ensures ColorUtils.IsCanonicalHex(SampleKey(pixels, j))
    ensures Script.HexToRgb(SampleKey(pixels, j)) == Some(SamplePixel(pixels, j))
  {
    Script.FormatRgbIsRgbHex(SamplePixel(pixels, j));
  }

  /** Two samples share a text exactly when they share a colour, so counting
      texts counts colours (alpha ignored). */
  lemma SampleKeyInjective(pixels: seq<int>, j: nat, j': nat)
    requires IsImageData(pixels) && j < SampleCount(|pixels|) && j' < SampleCount(|pixels|)
    ensures SampleKey(pixels, j) == SampleKey(pixels, j') <==> SamplePixel(pixels, j) == SamplePixel(pixels, j')
  {
    SampleKeyDecodes(pixels, j);
    SampleKeyDecodes(pixels, j');
  }

  /** The ten most frequent sampled colours, ties in order of first appearance. */
  function DominantColors(pixels: seq<int>): seq<string>
    requires IsImageData(pixels)
  {
    RankingOf(Samples(pixels, SampleCount(|pixels|)), TopCount)
  }

  /** The loop of extractColorsFromImage: a strided scan filling the Map of
      counts in place, then the sort and slice of its entries. */
  method ExtractColors(pixels: seq<int>) returns (colors: seq<string>)
    requires IsImageData(pixels)
    ensures colors == DominantColors(pixels)
  {
    var order: seq<string> := [];
    var colorMap: map<string, nat> := map[];
    var i := 0;
    ghost var n := 0;
    while i < |pixels|
      invariant n <= SampleCount(|pixels|) && i == Offset(n)
      invariant Tally(order, colorMap) == TallyOf(Samples(pixels, n))
    {
      SampleCountSpec(|pixels|, n);
      var r, g, b := pixels[i], pixels[i + 1], pixels[i + 2];
      var hex := Script.FormatRgb(r, g, b);
      SampleStep(pixels, n, i, r, g, b);
      order, colorMap := Count(order, colorMap, hex);
      i := i + Stride;
      n := n + 1;
    }
    SampleCountSpec(|pixels|, n);
    assert n == SampleCount(|pixels|);
    TallyShape(Samples(pixels, n));
    colors := Top(SortByCount(Entries(Tally(order, colorMap))), TopCount);
  }

  /** What the extraction returns: at most ten canonical hex colours, each
      sampled, all sampled colours when fewer than ten differ, each at least as
      frequent as the next and as every colour left out, ties in order of
      first appearance. */
  lemma DominantColorsSpec(pixels: seq<int>)
    requires IsImageData(pixels)
    ensures |DominantColors(pixels)| <= TopCount
    ensures forall c :: c in DominantColors(pixels) ==> ColorUtils.IsCanonicalHex(c)
    ensures forall c :: c in DominantColors(pixels) ==> exists j :: 0 <= j < SampleCount(|pixels|) && SampleKey(pixels, j) == c
    ensures |DominantColors(pixels)| < TopCount ==>
      forall j :: 0 <= j < SampleCount(|pixels|) ==> SampleKey(pixels, j) in DominantColors(pixels)
    ensures forall a, b :: 0 <= a < b < |DominantColors(pixels)| ==>
      Beats(Samples(pixels, SampleCount(|pixels|)), DominantColors(pixels)[a], DominantColors(pixels)[b])
    ensures forall j, a :: 0 <= j < SampleCount(|pixels|) && SampleKey(pixels, j) !in DominantColors(pixels) && 0 <= a < |DominantColors(pixels)| ==>
      Beats(Samples(pixels, SampleCount(|pixels|)), DominantColors(pixels)[a], SampleKey(pixels, j))
  {
    var keys := Samples(pixels, SampleCount(|pixels|));
    RankingSpec(keys, TopCount);
    forall c | c in DominantColors(pixels)
      ensures ColorUtils.IsCanonicalHex(c)
      ensures exists j :: 0 <= j < SampleCount(|pixels|) && SampleKey(pixels, j) == c
    {
      var j :| 0 <= j < |keys| && keys[j] == c;
      SampleKeyDecodes(pixels, j);
    }
    forall j | 0 <= j < SampleCount(|pixels|) ensures SampleKey(pixels, j) in keys {
      assert keys[j] == SampleKey(pixels, j);
    }
  }
}
