/**
 * The vision compositor: a grid of alphabet indices, each cell with its own
 * change interval and scroll speed, updated in place once per tick and drawn
 * against the camera image.
 */
module Vision {
  import opened Alphabet
  import opened Grid
  import opened GridChange
  import opened Luminance

  /** Change intervals are drawn from [25, 50). */
  const INTERVAL_MIN: int := 25
  const INTERVAL_END: int := 50

  /** Scroll speeds are drawn from [1, 500). */
  const SPEED_MIN: int := 1
  const SPEED_END: int := 500

  /** The contents of a two-dimensional array, row by row. */
  ghost function ToRows(a: array2<int>): (g: seq<seq<int>>)
    reads a
    ensures HasShape(g, a.Length0, a.Length1) && Rect(g)
    ensures a.Length0 > 0 ==> Width(g) == a.Length1
    ensures forall i, j :: 0 <= i < a.Length0 && 0 <= j < a.Length1 ==> g[i][j] == a[i, j]
  {
    seq(a.Length0, i requires 0 <= i < a.Length0 reads a =>
      seq(a.Length1, j requires 0 <= j < a.Length1 reads a => a[i, j]))
  }

  /** Two grids with the same rows, cell by cell, are equal. */
  lemma RowsEqual(g: seq<seq<int>>, h: seq<seq<int>>)
    requires |g| == |h| && forall i :: 0 <= i < |g| ==> |g[i]| == |h[i]|
    requires forall i, j :: 0 <= i < |g| && 0 <= j < |g[i]| ==> g[i][j] == h[i][j]
    ensures g == h
  {
    forall i | 0 <= i < |g| ensures g[i] == h[i] {
    }
  }

  /** The top-left pixel of cell (x, y) is a pixel of a `width` by `height` screen. */
  predicate CellOriginOnScreenBoth(x: nat, y: nat, width: nat, height: nat) {
    x * FONT_SIZE < width && y * FONT_SIZE < height
  }

  /** A camera frame scaled to the screen: `image[px][py]` is the mapped pixel value at column px, row py. */
  predicate IsFrame(image: seq<seq<int>>, width: nat, height: nat) {
    |image| == width
    && (forall px :: 0 <= px < width ==> |image[px]| == height)
    && (forall px, py :: 0 <= px < width && 0 <= py < |image[px]| ==> IsPixel(image[px][py]))
  }

  /** Blits of the first `n` cells of row `y`, left to right. */
  function RowBlits(row: seq<int>, y: nat, image: seq<seq<int>>, width: nat, height: nat,
                    n: nat): (r: seq<Blit>)
    requires IsFrame(image, width, height)
    requires n <= |row| <= CellsAlong(width) && y < CellsAlong(height)
    requires forall x :: 0 <= x < |row| ==> IsIndex(row[x])
    ensures |r| <= n
  {
    if n == 0 then []
    else
      var x := n - 1;
      CellOriginOnScreen(x, width);
      CellOriginOnScreen(y, height);
      RowBlits(row, y, image, width, height, x)
        + CellBlit(row[x], x, y, DecodePixel(image[x * FONT_SIZE][y * FONT_SIZE]))
  }

  /** Blits of the first `m` rows of the grid, in row-major order. */
  function GridBlits(g: seq<seq<int>>, image: seq<seq<int>>, width: nat, height: nat,
                     m: nat): (r: seq<Blit>)
    requires IsFrame(image, width, height)
    requires HasShape(g, CellsAlong(height), CellsAlong(width)) && InAlphabet(g) && m <= |g|
    ensures |r| <= CellCount(g[..m])
  {
    if m == 0 then []
    else
      assert g[..m][..m - 1] == g[..m - 1];
      GridBlits(g, image, width, height, m - 1)
        + RowBlits(g[m - 1], m - 1, image, width, height, |g[m - 1]|)
  }

  /** A blit that lands entirely on a `width` by `height` screen, with an opacity in [61, 315]. */
  predicate OnScreen(b: Blit, width: nat, height: nat) {
    0 <= b.x && b.x + FONT_SIZE <= width && 0 <= b.y && b.y + FONT_SIZE <= height
    && 61 <= b.alpha <= CHANNEL_MAX + ALPHA_OFFSET
  }

  /** Every blit of a row pass is on screen, in that row, with an opacity in [61, 315]. */
  lemma {:induction false} RowBlitsOnScreen(row: seq<int>, y: nat, image: seq<seq<int>>, width: nat, height: nat,
                                            n: nat)
    requires IsFrame(image, width, height)
    requires n <= |row| <= CellsAlong(width) && y < CellsAlong(height)
    requires forall x :: 0 <= x < |row| ==> IsIndex(row[x])
    ensures forall b :: b in RowBlits(row, y, image, width, height, n) ==>
      OnScreen(b, width, height) && b.y == y * FONT_SIZE
  {
    if n > 0 {
      RowBlitsOnScreen(row, y, image, width, height, n - 1);
      CellOriginOnScreen(n - 1, width);
      CellOriginOnScreen(y, height);
    }
  }

  /** Every blit of `s` is on screen. */
  predicate AllOnScreen(s: seq<Blit>, width: nat, height: nat) {
    forall b :: b in s ==> OnScreen(b, width, height)
  }

  /** Being on screen survives concatenation. */
  lemma AllOnScreenConcat(s: seq<Blit>, t: seq<Blit>, width: nat, height: nat)
    requires AllOnScreen(s, width, height) && AllOnScreen(t, width, height)
    ensures AllOnScreen(s + t, width, height)
  {
  }

  /** Every blit of a grid pass is on screen with an opacity in [61, 315]: cell positions are inside the screen because the grid size is a floor division of it. */
  lemma {:induction false} GridBlitsOnScreen(g: seq<seq<int>>, image: seq<seq<int>>, width: nat, height: nat,
                                             m: nat)
    requires IsFrame(image, width, height)
    requires HasShape(g, CellsAlong(height), CellsAlong(width)) && InAlphabet(g) && m <= |g|
    ensures AllOnScreen(GridBlits(g, image, width, height, m), width, height)
  {
    if m > 0 {
      var row := g[m - 1];
      assert |row| == CellsAlong(width) && forall x :: 0 <= x < |row| ==> IsIndex(row[x]);
      GridBlitsOnScreen(g, image, width, height, m - 1);
      RowBlitsOnScreen(row, m - 1, image, width, height, |row|);
      AllOnScreenConcat(GridBlits(g, image, width, height, m - 1),
                        RowBlits(row, m - 1, image, width, height, |row|), width, height);
    }
  }

  /** A fresh array holding the given rectangular grid. */
  method FromRows(g: seq<seq<int>>, rows: nat, cols: nat) returns (a: array2<int>)
    requires HasShape(g, rows, cols)
    ensures fresh(a) && a.Length0 == rows && a.Length1 == cols && ToRows(a) == g
  {
    a := new int[rows, cols]((i, j) requires 0 <= i < rows && 0 <= j < cols => g[i][j]);
    RowsEqual(ToRows(a), g);
  }

  class MatrixVision {
    /** Screen size in pixels. */
    const width: nat
    const height: nat
    /** Grid size in cells. */
    const rows: nat
    const cols: nat
    /** The characters, as alphabet indices. */
    const matrix: array2<int>
    /** Per-cell change interval (never written after construction, so kept as a value). */
    const charIntervals: seq<seq<int>>
    /** Per-cell scroll speed (never written after construction, so kept as a value). */
    const colsSpeed: seq<seq<int>>
    /** The pre-rendered glyphs, keyed by character and colour. */
    const renderedChars: map<CacheKey, Rendered>

    ghost function Cells(): seq<seq<int>>
      reads this, matrix
    {
      ToRows(matrix)
    }

    /** The fixed part of the state: dimensions, the two period grids and the glyph cache. */
    ghost predicate Schedules()
      reads this
    {
      rows == CellsAlong(height) && cols == CellsAlong(width)
      && matrix.Length0 == rows && matrix.Length1 == cols
      && HasShape(charIntervals, rows, cols) && HasShape(colsSpeed, rows, cols)
      && SameShape(charIntervals, colsSpeed)
      && Within(charIntervals, INTERVAL_MIN, INTERVAL_END) && Positive(charIntervals)
      && Within(colsSpeed, SPEED_MIN, SPEED_END) && Positive(colsSpeed)
      && IsVisionCache(renderedChars)
    }

    /** The object invariant: fixed part as above, and every cell holds an alphabet index. */
    ghost predicate Valid()
      reads this, matrix
    {
      Schedules() && SameShape(Cells(), charIntervals) && SameShape(Cells(), colsSpeed) && InAlphabet(Cells())
    }

    /** Set up a grid covering the screen, with initial characters, intervals and speeds supplied by the caller. */
    constructor (width: nat, height: nat, chars: seq<seq<int>>, intervals: seq<seq<int>>, speeds: seq<seq<int>>)
      requires HasShape(chars, CellsAlong(height), CellsAlong(width)) && InAlphabet(chars)
      requires HasShape(intervals, CellsAlong(height), CellsAlong(width)) && Within(intervals, INTERVAL_MIN, INTERVAL_END)
      requires HasShape(speeds, CellsAlong(height), CellsAlong(width)) && Within(speeds, SPEED_MIN, SPEED_END)
      ensures Valid() && fresh(matrix)
      ensures this.width == width && this.height == height
      ensures Cells() == chars && charIntervals == intervals && colsSpeed == speeds
    {
      var r, c := CellsAlong(height), CellsAlong(width);
      var cache := RenderVisionCache();
      var m := FromRows(chars, r, c);
      this.width, this.height := width, height;
      rows, cols := r, c;
      matrix, charIntervals, colsSpeed := m, intervals, speeds;
      renderedChars := cache;
    }

    /** Whether column `j` has a cell whose speed divides the tick. */
    method ColumnQualifies(j: nat, frames: nat) returns (due: bool)
      requires Schedules() && j < cols
      ensures due == ColumnDue(colsSpeed, j, frames)
      ensures due ==> rows > 0
    {
      due := false;
      for i := 0 to rows
        invariant due == exists r :: 0 <= r < i && frames % colsSpeed[r][j] == 0
      {
        if frames % colsSpeed[i][j] == 0 {
          due := true;
        }
      }
    }

    /** Roll column `j` down by one row, circularly. */
    method RollColumn(j: nat)
      requires Schedules() && j < cols
      modifies matrix
      ensures forall r, c :: 0 <= r < rows && 0 <= c < cols ==>
        matrix[r, c] == if c == j then old(matrix[Above(r, rows), c]) else old(matrix[r, c])
    {
      if rows > 0 {
        var last := matrix[rows - 1, j];
        var i := rows - 1;
        while i > 0
          invariant 0 <= i < rows
          invariant forall r, c :: 0 <= r < rows && 0 <= c < cols ==>
            matrix[r, c] == if c == j && i < r then old(matrix[r - 1, c]) else old(matrix[r, c])
        {
          matrix[i, j] := matrix[i - 1, j];
          i := i - 1;
        }
        matrix[0, j] := last;
      }
    }

    /** The part of `shift_column` that falls in column `j`: roll it if it qualifies. */
    method ShiftOne(j: nat, frames: nat, ghost g0: seq<seq<int>>, ghost want: seq<seq<int>>)
      requires Schedules() && j < cols
      requires SameShape(g0, colsSpeed) && want == ShiftColumns(g0, colsSpeed, frames)
      requires forall r :: 0 <= r < rows ==> matrix[r, j] == g0[r][j]
      modifies matrix
      ensures forall r, c :: 0 <= r < rows && 0 <= c < cols ==>
        matrix[r, c] == if c == j then want[r][c] else old(matrix[r, c])
    {
      var due := ColumnQualifies(j, frames);
      if due {
        RollColumn(j);
      }
      forall r | 0 <= r < rows ensures matrix[r, j] == want[r][j] {
        ShiftColumnsAt(g0, colsSpeed, frames, r, j);
        AboveIsModulo(r, rows);
      }
    }

    /** `shift_column`: roll every qualifying column down by one row. */
    method ShiftColumn(frames: nat)
      requires Valid()
      modifies matrix
      ensures Valid()
      ensures Cells() == ShiftColumns(old(Cells()), colsSpeed, frames)
    {
      ghost var g0 := Cells();
      ghost var want := ShiftColumns(g0, colsSpeed, frames);
      for j := 0 to cols
        invariant forall r, c :: 0 <= r < rows && 0 <= c < cols ==>
          matrix[r, c] == if c < j then want[r][c] else g0[r][c]
      {
        ShiftOne(j, frames, g0, want);
      }
      RowsEqual(Cells(), want);
      ShiftColumnsWithin(g0, colsSpeed, frames, 0, ALPHABET_SIZE);
    }

    /** The part of `change_chars` that falls on cell (i, j): `k` is the number of picks taken by the cells before it. */
    method ChangeCell(i: nat, j: nat, frames: nat, picks: seq<int>, k0: nat, ghost g0: seq<seq<int>>, ghost want: seq<seq<int>>)
      returns (k: nat)
      requires matrix.Length0 == rows && matrix.Length1 == cols && i < rows && j < cols
      requires HasShape(charIntervals, rows, cols) && Positive(charIntervals)
      requires SameShape(g0, charIntervals) && |picks| == DueCountRows(charIntervals, frames)
      requires want == GridChange.ChangeChars(g0, charIntervals, frames, picks)
      requires matrix[i, j] == g0[i][j] && k0 == Rank(charIntervals, frames, i, j)
      modifies matrix
      ensures k == Rank(charIntervals, frames, i, j + 1)
      ensures forall r, c :: 0 <= r < rows && 0 <= c < cols ==>
        matrix[r, c] == if r == i && c == j then want[r][c] else old(matrix[r, c])
    {
      DueCountStep(charIntervals[i], frames, j);
      ChangeCharsAt(g0, charIntervals, frames, picks, i, j);
      k := k0;
      if frames % charIntervals[i][j] == 0 {
        matrix[i, j] := picks[k];
        k := k + 1;
      }
    }

    /** The part of `change_chars` that falls in row `i`: `k` is the number of picks taken by the rows above. */
    method ChangeRow(i: nat, frames: nat, picks: seq<int>, k0: nat, ghost g0: seq<seq<int>>, ghost want: seq<seq<int>>)
      returns (k: nat)
      requires matrix.Length0 == rows && matrix.Length1 == cols && i < rows
      requires HasShape(charIntervals, rows, cols) && Positive(charIntervals)
      requires SameShape(g0, charIntervals) && |picks| == DueCountRows(charIntervals, frames)
      requires want == GridChange.ChangeChars(g0, charIntervals, frames, picks)
      requires forall c :: 0 <= c < cols ==> matrix[i, c] == g0[i][c]
      requires k0 == Rank(charIntervals, frames, i, 0)
      modifies matrix
      ensures k == Rank(charIntervals, frames, i, cols)
      ensures forall r, c :: 0 <= r < rows && 0 <= c < cols ==>
        matrix[r, c] == if r == i then want[r][c] else old(matrix[r, c])
    {
      k := k0;
      for j := 0 to cols
        invariant k == Rank(charIntervals, frames, i, j)
        invariant forall r, c :: 0 <= r < rows && 0 <= c < cols ==>
          matrix[r, c] == if r == i && c < j then want[r][c] else old(matrix[r, c])
      {
        k := ChangeCell(i, j, frames, picks, k, g0, want);
      }
    }

    /** `change_chars`: overwrite every cell whose interval divides the tick, taking the picks in row-major order. */
    method ChangeChars(frames: nat, picks: seq<int>)
      requires Valid()
      requires |picks| == DueCountRows(charIntervals, frames)
      requires forall k :: 0 <= k < |picks| ==> IsIndex(picks[k])
      modifies matrix
      ensures Valid()
      ensures Cells() == GridChange.ChangeChars(old(Cells()), charIntervals, frames, picks)
    {
      ghost var p, g0 := charIntervals, Cells();
      ghost var want := GridChange.ChangeChars(g0, p, frames, picks);
      var k := 0;
      for i := 0 to rows
        invariant Schedules()
        invariant k == DueCountRows(p[..i], frames)
        invariant forall r, c :: 0 <= r < rows && 0 <= c < cols ==>
          matrix[r, c] == if r < i then want[r][c] else g0[r][c]
      {
        k := ChangeRow(i, frames, picks, k, g0, want);
        assert p[i][..cols] == p[i];
        DueCountRowsStep(p, frames, i);
      }
      RowsEqual(Cells(), want);
      ChangeCharsInAlphabet(g0, p, frames, picks);
    }

    /** What the cell at column `x`, row `y` contributes to the frame. */
    method DrawCell(x: nat, y: nat, image: seq<seq<int>>) returns (b: seq<Blit>)
      requires Schedules() && IsFrame(image, width, height) && x < cols && y < rows
      requires IsIndex(matrix[y, x])
      ensures CellOriginOnScreenBoth(x, y, width, height)
      ensures b == CellBlit(matrix[y, x], x, y, DecodePixel(image[x * FONT_SIZE][y * FONT_SIZE]))
    {
      CellOriginOnScreen(x, width);
      CellOriginOnScreen(y, height);
      b := [];
      var ch := matrix[y, x];
      if Glyph(ch) != "" {
        var pos := (x * FONT_SIZE, y * FONT_SIZE);
        var pixel := DecodePixel(image[pos.0][pos.1]);
        if pixel.red != 0 && pixel.green != 0 && pixel.blue != 0 {
          var color := Band(Intensity(pixel));
          BandLaws(Intensity(pixel));
          VisionCacheHas(renderedChars, ch, color);
          var glyph := renderedChars[CacheKey(Glyph(ch), Rgb(0, color, 0))];
          b := [Blit(glyph, color + ALPHA_OFFSET, pos.0, pos.1)];
        }
      }
    }

    /** The draw pass over row `y`, left to right; `row` is that row's contents. */
    method DrawRow(y: nat, image: seq<seq<int>>, ghost row: seq<int>) returns (blits: seq<Blit>)
      requires Schedules() && IsFrame(image, width, height) && y < rows
      requires |row| == cols && forall x :: 0 <= x < cols ==> row[x] == matrix[y, x] && IsIndex(row[x])
      ensures blits == RowBlits(row, y, image, width, height, cols)
    {
      blits := [];
      for x := 0 to cols
        invariant blits == RowBlits(row, y, image, width, height, x)
      {
        var b := DrawCell(x, y, image);
        blits := blits + b;
      }
    }

    /** `draw`: the per-cell draw pass over the whole grid against one camera frame, in row-major order. */
    method Draw(image: seq<seq<int>>) returns (blits: seq<Blit>)
      requires Valid() && IsFrame(image, width, height)
      ensures blits == GridBlits(Cells(), image, width, height, rows)
    {
      ghost var g := Cells();
      assert HasShape(g, CellsAlong(height), CellsAlong(width)) && InAlphabet(g);
      blits := [];
      for y := 0 to rows
        invariant blits == GridBlits(g, image, width, height, y)
      {
        var row := DrawRow(y, image, g[y]);
        assert GridBlits(g, image, width, height, y + 1) == GridBlits(g, image, width, height, y) + row;
        blits := blits + row;
      }
    }

    /** `run`: one tick of the vision compositor. Characters change first, then columns shift, then the grid is drawn. */
    method Run(frames: nat, picks: seq<int>, image: seq<seq<int>>) returns (blits: seq<Blit>)
      requires Valid() && IsFrame(image, width, height)
      requires |picks| == DueCountRows(charIntervals, frames)
      requires forall k :: 0 <= k < |picks| ==> IsIndex(picks[k])
      modifies matrix
      ensures Valid()
      ensures Cells() == ShiftColumns(GridChange.ChangeChars(old(Cells()), charIntervals, frames, picks), colsSpeed, frames)
      ensures blits == GridBlits(Cells(), image, width, height, rows)
    {
      ChangeChars(frames, picks);
      ShiftColumn(frames);
      blits := Draw(image);
    }
  }
}
