/**
 * The per-cell decision of the vision compositor: read the camera pixel under a
 * cell, turn its brightness into a shade of green, look that glyph up in the
 * pre-rendered cache and blit it with an opacity derived from the shade.
 */
module Luminance {
  import opened Alphabet

  /** An RGB colour. */
  datatype Rgb = Rgb(red: int, green: int, blue: int)

  /** A glyph image as the font renderer returns it; the image itself is opaque and is identified by what it was rendered from. */
  datatype Rendered = Rendered(ch: string, color: Rgb)

  /** Key of the vision glyph cache: a character and the colour `(0, c, 0)` it was rendered in. */
  datatype CacheKey = CacheKey(ch: string, color: Rgb)

  /** One blit onto the drawing surface: the glyph, the opacity set on it just before, and the pixel position. */
  datatype Blit = Blit(glyph: Rendered, alpha: int, x: int, y: int)

  /** Largest value of one colour channel. */
  const CHANNEL_MAX: int := 255

  /** Lower (exclusive) and upper (exclusive) bounds of the band of intensities collapsed to BAND_TOP. */
  const BAND_BOTTOM: int := 160
  const BAND_TOP: int := 220

  /** Added to the intensity to obtain the opacity set on the glyph. */
  const ALPHA_OFFSET: int := 60

  /** A mapped 32-bit pixel value. */
  predicate IsPixel(v: int) {
    0 <= v < 0x1_0000_0000
  }

  /** A channel value. */
  predicate IsChannel(c: int) {
    0 <= c <= CHANNEL_MAX
  }

  /**
   * The channels read from a mapped pixel. The integer is read as 0xRRGGBBAA and
   * its first component is discarded, so red, green and blue are the three
   * low-order bytes of the value, from high to low.
   */
  function DecodePixel(v: int): (c: Rgb)
    requires IsPixel(v)
    ensures IsChannel(c.red) && IsChannel(c.green) && IsChannel(c.blue)
    ensures v % 0x100_0000 == c.red * 0x1_0000 + c.green * 0x100 + c.blue
  {
    DecodeSplit(v);
    Rgb(v / 0x1_0000 % 0x100, v / 0x100 % 0x100, v % 0x100)
  }

  /** The byte arithmetic behind DecodePixel. */
  lemma DecodeSplit(v: int)
    requires IsPixel(v)
    ensures v % 0x100_0000 == (v / 0x1_0000 % 0x100) * 0x1_0000 + (v / 0x100 % 0x100) * 0x100 + v % 0x100
  {
    var b, q1 := v % 0x100, v / 0x100;
    var g, q2 := q1 % 0x100, q1 / 0x100;
    var r, t := q2 % 0x100, q2 / 0x100;
    assert v == q1 * 0x100 + b;
    assert q1 == q2 * 0x100 + g;
    assert q2 == t * 0x100 + r;
    assert v == t * 0x100_0000 + (r * 0x1_0000 + g * 0x100 + b);
    assert v / 0x1_0000 == q2;
  }

  /** Decoding inverts packing: a pixel built from a top byte and three channels decodes to those channels. */
  lemma DecodePixelRoundTrip(top: int, c: Rgb)
    requires 0 <= top < 0x100 && IsChannel(c.red) && IsChannel(c.green) && IsChannel(c.blue)
    ensures IsPixel(top * 0x100_0000 + c.red * 0x1_0000 + c.green * 0x100 + c.blue)
    ensures DecodePixel(top * 0x100_0000 + c.red * 0x1_0000 + c.green * 0x100 + c.blue) == c
  {
    var v := top * 0x100_0000 + c.red * 0x1_0000 + c.green * 0x100 + c.blue;
    assert v / 0x100 == top * 0x1_0000 + c.red * 0x100 + c.green;
    assert v / 0x1_0000 == top * 0x100 + c.red;
  }

  /** Brightness of a pixel: the floored mean of its channels. */
  function Intensity(c: Rgb): (k: int)
    requires IsChannel(c.red) && IsChannel(c.green) && IsChannel(c.blue)
    ensures 0 <= k <= CHANNEL_MAX
    ensures 3 * k <= c.red + c.green + c.blue < 3 * k + 3
    ensures c.red > 0 && c.green > 0 && c.blue > 0 ==> k >= 1
  {
    (c.red + c.green + c.blue) / 3
  }

  /** Intensities strictly inside (160, 220) are collapsed to 220; all others are kept. */
  function Band(k: int): (b: int)
    ensures BAND_BOTTOM < k < BAND_TOP ==> b == BAND_TOP
    ensures k <= BAND_BOTTOM || k >= BAND_TOP ==> b == k
    ensures b >= k
  {
    if BAND_BOTTOM < k < BAND_TOP then BAND_TOP else k
  }

  /** The band map is idempotent, keeps channel values channel values, and never produces a value inside the band. */
  lemma BandLaws(k: int)
    ensures Band(Band(k)) == Band(k)
    ensures IsChannel(k) ==> IsChannel(Band(k))
    ensures !(BAND_BOTTOM < Band(k) < BAND_TOP)
  {
  }

  /** Boundaries of the band: 160 and 220 are fixed, 190 goes to 220. */
  lemma BandBoundaries()
    ensures Band(160) == 160 && Band(220) == 220 && Band(190) == 220
  {
  }

  /** A key of the vision cache: an alphabet character paired with `(0, c, 0)` for a channel value c. */
  predicate IsVisionKey(k: CacheKey) {
    IsAlphabetChar(k.ch) && k.color.red == 0 && k.color.blue == 0 && IsChannel(k.color.green)
  }

  /** The vision cache holds, for each alphabet character and each green value 0..255, the glyph rendered in `(0, green, 0)`, and nothing else. */
  ghost predicate IsVisionCache(cache: map<CacheKey, Rendered>) {
    (forall k :: k in cache <==> IsVisionKey(k))
    && (forall k :: k in cache ==> cache[k] == Rendered(k.ch, k.color))
  }

  /** Every alphabet position and green value has its glyph in a vision cache. */
  lemma VisionCacheHas(cache: map<CacheKey, Rendered>, i: int, c: int)
    requires IsVisionCache(cache) && IsIndex(i) && IsChannel(c)
    ensures CacheKey(Glyph(i), Rgb(0, c, 0)) in cache
    ensures cache[CacheKey(Glyph(i), Rgb(0, c, 0))] == Rendered(Glyph(i), Rgb(0, c, 0))
  {
    assert IsVisionKey(CacheKey(Glyph(i), Rgb(0, c, 0)));
  }

  /** Build the vision glyph cache, character by character and green value by green value. */
  method RenderVisionCache() returns (cache: map<CacheKey, Rendered>)
    ensures IsVisionCache(cache)
  {
    cache := map[];
    for i := 0 to ALPHABET_SIZE
      invariant forall k :: k in cache <==> IsVisionKey(k) && FirstIndex(k.ch) < i
      invariant forall k :: k in cache ==> cache[k] == Rendered(k.ch, k.color)
    {
      var ch := Glyph(i);
      var row: map<CacheKey, Rendered> := map[];
      for c := 0 to CHANNEL_MAX + 1
        invariant forall k :: k in row <==> k.ch == ch && IsVisionKey(k) && k.color.green < c
        invariant forall k :: k in row ==> row[k] == Rendered(k.ch, k.color)
      {
        var color := Rgb(0, c, 0);
        row := row[CacheKey(ch, color) := Rendered(ch, color)];
      }
      cache := cache + row;
    }
  }

  /**
   * What one cell contributes to the frame: nothing when its character is blank
   * or any channel of the pixel under it is zero; otherwise the glyph in the
   * banded green shade, at opacity shade + 60, at the cell's pixel position.
   */
  function CellBlit(ch: int, x: nat, y: nat, pixel: Rgb): (b: seq<Blit>)
    requires IsIndex(ch)
    requires IsChannel(pixel.red) && IsChannel(pixel.green) && IsChannel(pixel.blue)
    ensures |b| <= 1
    ensures |b| == 1 <==> !IsBlank(ch) && pixel.red != 0 && pixel.green != 0 && pixel.blue != 0
    ensures |b| == 1 ==> b[0].x == x * FONT_SIZE && b[0].y == y * FONT_SIZE
    ensures |b| == 1 ==> 61 <= b[0].alpha <= CHANNEL_MAX + ALPHA_OFFSET
    ensures |b| == 1 ==> b[0].glyph.ch == Glyph(ch) && b[0].glyph.color.red == 0 && b[0].glyph.color.blue == 0
    ensures |b| == 1 ==> b[0].alpha == b[0].glyph.color.green + ALPHA_OFFSET
    ensures |b| == 1 ==> b[0].glyph.color.green == Band(Intensity(pixel))
  {
    if Glyph(ch) == "" then []
    else if pixel.red == 0 || pixel.green == 0 || pixel.blue == 0 then []
    else
      var shade := Band(Intensity(pixel));
      BandLaws(Intensity(pixel));
      [Blit(Rendered(Glyph(ch), Rgb(0, shade, 0)), shade + ALPHA_OFFSET, x * FONT_SIZE, y * FONT_SIZE)]
  }

  /** The lookup a drawn cell makes never misses: its key `(char, (0, c, 0))` is in the vision cache, and the cached glyph is the one blitted. */
  lemma CellBlitFromCache(cache: map<CacheKey, Rendered>, ch: int, x: nat, y: nat, pixel: Rgb)
    requires IsVisionCache(cache) && IsIndex(ch)
    requires IsChannel(pixel.red) && IsChannel(pixel.green) && IsChannel(pixel.blue)
    requires |CellBlit(ch, x, y, pixel)| == 1
    ensures var key := CacheKey(Glyph(ch), Rgb(0, Band(Intensity(pixel)), 0));
      key in cache && cache[key] == CellBlit(ch, x, y, pixel)[0].glyph
  {
    BandLaws(Intensity(pixel));
    VisionCacheHas(cache, ch, Band(Intensity(pixel)));
  }

  /** The opacity a cell asks for is above the 255 an opacity can hold when the pixel is bright: a white pixel gives 315. */
  lemma OpacityExceedsChannel()
    ensures CellBlit(0, 0, 0, Rgb(255, 255, 255))[0].alpha == 315 > CHANNEL_MAX
  {
    assert Intensity(Rgb(255, 255, 255)) == 255;
  }
}
