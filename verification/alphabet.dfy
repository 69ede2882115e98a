/** The glyph alphabet shared by both compositors, and the cell size of the screen grid. */
module Alphabet {

  /** Side of one glyph cell, in pixels (the font size). */
  const FONT_SIZE: nat := 23

  /** Code point of the first katakana glyph. */
  const KATAKANA_BASE: nat := 0x30A0

  /** Number of katakana glyphs, taken consecutively from KATAKANA_BASE. */
  const KATAKANA_COUNT: nat := 96

  /** Number of blank entries appended to bias the picks towards empty cells. */
  const BLANK_COUNT: nat := 10

  /** Length of the alphabet: katakana followed by blanks. */
  const ALPHABET_SIZE: nat := KATAKANA_COUNT + BLANK_COUNT

  /** An index into the alphabet. */
  predicate IsIndex(i: int) {
    0 <= i < ALPHABET_SIZE
  }

  /** The character stored at alphabet position `i`: one katakana, or the empty string. */
  function Glyph(i: int): (s: string)
    requires IsIndex(i)
    ensures |s| <= 1
    ensures s == [] <==> i >= KATAKANA_COUNT
    ensures i < KATAKANA_COUNT ==> s[0] as int == KATAKANA_BASE + i
    ensures IsAlphabetChar(s)
  {
    if i < KATAKANA_COUNT then [(KATAKANA_BASE + i) as char] else ""
  }

  /** The characters of the alphabet: the empty string or one katakana of the block. */
  predicate IsAlphabetChar(s: string) {
    s == "" || (|s| == 1 && KATAKANA_BASE <= s[0] as int < KATAKANA_BASE + KATAKANA_COUNT)
  }

  /** The first alphabet position holding character `s`; the blanks share the character "". */
  function FirstIndex(s: string): (i: int)
    requires IsAlphabetChar(s)
    ensures IsIndex(i) && Glyph(i) == s
    ensures forall j :: IsIndex(j) && Glyph(j) == s ==> i <= j
  {
    if s == "" then KATAKANA_COUNT
    else
      var i := s[0] as int - KATAKANA_BASE;
      assert Glyph(i) == [s[0]];
      i
  }

  /** The blank entries are the only falsy characters of the alphabet. */
  predicate IsBlank(i: int)
    requires IsIndex(i)
  {
    Glyph(i) == ""
  }

  /** Distinct katakana positions carry distinct characters. */
  lemma GlyphInjective(i: int, j: int)
    requires IsIndex(i) && IsIndex(j)
    requires i < KATAKANA_COUNT && j < KATAKANA_COUNT
    ensures Glyph(i) == Glyph(j) <==> i == j
  {
    if Glyph(i) == Glyph(j) {
      assert Glyph(i)[0] == Glyph(j)[0];
    }
  }

  /** Number of grid cells that fit along a screen side of `pixels` pixels (floor division). */
  function CellsAlong(pixels: nat): (n: nat)
    ensures n * FONT_SIZE <= pixels < (n + 1) * FONT_SIZE
  {
    pixels / FONT_SIZE
  }

  /** The top-left pixel of cell `k` lies on the screen, and so does the whole cell. */
  lemma CellOriginOnScreen(k: nat, pixels: nat)
    requires k < CellsAlong(pixels)
    ensures 0 <= k * FONT_SIZE && k * FONT_SIZE + FONT_SIZE <= pixels
  {
    assert k + 1 <= CellsAlong(pixels);
    assert (k + 1) * FONT_SIZE <= CellsAlong(pixels) * FONT_SIZE;
  }
}
