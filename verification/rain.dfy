/**
 * The rain compositor's falling glyphs: a Symbol owns its vertical position and
 * current glyph, a SymbolColumn is a stack of Symbols sharing one x and one speed.
 */
module Rain {
  import opened Alphabet

  /** Column fall speeds are drawn from [2, 6). */
  const SPEED_MIN: int := 2
  const SPEED_END: int := 6

  /** Symbol glyph-change intervals are drawn from [5, 30). */
  const INTERVAL_MIN: int := 5
  const INTERVAL_END: int := 30

  /** Column heights (symbol counts) are drawn from [14, 24). */
  const HEIGHT_MIN: int := 14
  const HEIGHT_END: int := 24

  /** Where a symbol wraps to: one cell above the top edge. */
  const WRAP_Y: int := -(FONT_SIZE as int)

  /** The two pre-rendered glyph pools: each character in its own random green, or in the fixed light green. */
  datatype Pool = Green | LightGreen

  /** A rain glyph: the alphabet position of a pre-rendered glyph, and the pool it was taken from. */
  datatype RainGlyph = RainGlyph(pool: Pool, index: int)

  /** One blit of a rain glyph at a pixel position. */
  datatype Blit = Blit(glyph: RainGlyph, x: int, y: int)

  /** The pool a draw call picks from: the green pool for the role string "green", the light-green pool for any other. */
  function PoolFor(color: string): (p: Pool)
    ensures p == Green <==> color == "green"
  {
    if color == "green" then Green else LightGreen
  }

  /** The role string `SymbolColumn.draw` passes to the symbol at index `i`. */
  function RoleOf(i: nat): (color: string)
    ensures PoolFor(color) == LightGreen <==> i == 0
  {
    if i == 0 then "lightgreen" else "green"
  }

  /** Vertical position after one draw: advance by the speed while above the bottom edge, otherwise wrap to one cell above the top. */
  function NextY(y: int, speed: int, screenHeight: int): (next: int)
    ensures y < screenHeight ==> next - y == speed
    ensures y >= screenHeight ==> next == WRAP_Y
  {
    if y < screenHeight then y + speed else WRAP_Y
  }

  /** One step of the fall law: a position above the bottom edge moves down by exactly `speed`; any other wraps to `WRAP_Y`. */
  lemma NextYLaw(y: int, speed: int, screenHeight: int)
    requires speed > 0
    ensures y < screenHeight ==> NextY(y, speed, screenHeight) == y + speed > y
    ensures y >= screenHeight ==> NextY(y, speed, screenHeight) == WRAP_Y
  {
  }

  /** Position after `n` draws. */
  function Fall(y: int, speed: int, screenHeight: int, n: nat): int
    decreases n
  {
    if n == 0 then y else Fall(NextY(y, speed, screenHeight), speed, screenHeight, n - 1)
  }

  /** Once at or below `screenHeight + speed - 1`, a symbol stays there for ever, and its `y` never drops below the smaller of its starting `y` and `WRAP_Y`. */
  lemma {:induction false} FallBounded(y: int, speed: int, screenHeight: nat, n: nat)
    requires speed > 0 && y <= screenHeight + speed - 1
    ensures Fall(y, speed, screenHeight, n) <= screenHeight + speed - 1
    ensures Fall(y, speed, screenHeight, n) >= if y < WRAP_Y then y else WRAP_Y
    decreases n
  {
    if n > 0 {
      var y' := NextY(y, speed, screenHeight);
      FallBounded(y', speed, screenHeight, n - 1);
    }
  }

  /** A symbol never spends two consecutive frames at or past the bottom edge. */
  lemma WrapWithinOneFrame(y: int, speed: int, screenHeight: nat)
    requires speed > 0
    ensures NextY(y, speed, screenHeight) >= screenHeight ==> NextY(NextY(y, speed, screenHeight), speed, screenHeight) == WRAP_Y
    ensures NextY(y, speed, screenHeight) >= screenHeight ==> y < screenHeight
  {
  }

  /** Python's `range(start, stop, -step)`: start, start - step, ... while above stop. */
  function DownRange(start: int, stop: int, step: int): (r: seq<int>)
    requires step > 0
    ensures forall k :: 0 <= k < |r| ==> stop < r[k] <= start
    decreases start - stop
  {
    if start <= stop then [] else [start] + DownRange(start - step, stop, step)
  }

  /** `range(y, y - step * h, -step)` has exactly `h` elements, `y - k * step` for k = 0 .. h - 1. */
  lemma {:induction false} DownRangeSpaced(start: int, step: int, h: nat)
    requires step > 0
    ensures |DownRange(start, start - step * h, step)| == h
    ensures forall k :: 0 <= k < h ==> DownRange(start, start - step * h, step)[k] == start - k * step
    decreases h
  {
    if h > 0 {
      assert start - step * h == (start - step) - step * (h - 1);
      DownRangeSpaced(start - step, step, h - 1);
      var rest := DownRange(start - step, start - step * h, step);
      assert DownRange(start, start - step * h, step) == [start] + rest;
      forall k | 0 < k < h ensures rest[k - 1] == start - k * step {
        assert (start - step) - (k - 1) * step == start - k * step;
      }
    }
  }

  class Symbol {
    /** Horizontal pixel position, fixed. */
    const x: int
    /** Vertical pixel position of the glyph's top. */
    var y: int
    /** Fall speed in pixels per draw, fixed (the column's). */
    const speed: int
    /** A new glyph is picked on ticks divisible by this interval. */
    const interval: int
    /** The glyph currently shown. */
    var value: RainGlyph
    /** Height of the screen in pixels. */
    const screenHeight: nat

    ghost predicate Valid()
      reads this
    {
      SPEED_MIN <= speed < SPEED_END && INTERVAL_MIN <= interval < INTERVAL_END
      && IsIndex(value.index) && y <= screenHeight + speed - 1
    }

    /** A symbol at (x, y) whose first glyph is the green pool's glyph at `pick`. */
    constructor (x: int, y: int, speed: int, screenHeight: nat, interval: int, pick: int)
      requires SPEED_MIN <= speed < SPEED_END && INTERVAL_MIN <= interval < INTERVAL_END && IsIndex(pick)
      requires y <= screenHeight + speed - 1
      ensures Valid()
      ensures this.x == x && this.y == y && this.speed == speed && this.screenHeight == screenHeight
      ensures this.interval == interval && value == RainGlyph(Green, pick)
    {
      this.x, this.y, this.speed, this.screenHeight := x, y, speed, screenHeight;
      this.interval, value := interval, RainGlyph(Green, pick);
    }

    /** `Symbol.draw`: maybe pick a new glyph from the pool the role names, move, and blit at the new position. */
    method Draw(color: string, frames: nat, pick: int) returns (b: Blit)
      requires Valid() && IsIndex(pick)
      modifies this
      ensures Valid()
      ensures value == if frames % interval == 0 then RainGlyph(PoolFor(color), pick) else old(value)
      ensures y == NextY(old(y), speed, screenHeight)
      ensures b == Blit(value, x, y)
    {
      if frames % interval == 0 {
        value := RainGlyph(if color == "green" then Green else LightGreen, pick);
      }
      y := if y < screenHeight then y + speed else WRAP_Y;
      b := Blit(value, x, y);
    }
  }

  class SymbolColumn {
    /** Number of symbols. */
    const columnHeight: int
    /** Fall speed shared by every symbol. */
    const speed: int
    /** The symbols, head first: index 0 is the lowest on screen, each later symbol one cell higher. */
    const symbols: seq<Symbol>

    ghost predicate Valid()
      reads this, symbols
    {
      HEIGHT_MIN <= columnHeight < HEIGHT_END && SPEED_MIN <= speed < SPEED_END
      && |symbols| == columnHeight
      && (forall i, j :: 0 <= i < j < |symbols| ==> symbols[i] != symbols[j])
      && (forall i :: 0 <= i < |symbols| ==> symbols[i].Valid() && symbols[i].speed == speed)
      && (forall i :: 0 <= i < |symbols| ==> symbols[i].x == symbols[0].x && symbols[i].screenHeight == symbols[0].screenHeight)
    }

    /**
     * A column at x whose head starts at `y`: `heightPick` symbols spaced one
     * cell apart going upward, all with speed `speedPick`; symbol k gets change
     * interval `intervals[k]` and first glyph `picks[k]`.
     */
    constructor (x: int, y: int, screenHeight: nat, heightPick: int, speedPick: int, intervals: seq<int>, picks: seq<int>)
      requires y < 0
      requires HEIGHT_MIN <= heightPick < HEIGHT_END && SPEED_MIN <= speedPick < SPEED_END
      requires |intervals| == heightPick && |picks| == heightPick
      requires forall k :: 0 <= k < heightPick ==> INTERVAL_MIN <= intervals[k] < INTERVAL_END && IsIndex(picks[k])
      ensures Valid() && columnHeight == heightPick && speed == speedPick
      ensures forall k :: 0 <= k < |symbols| ==> fresh(symbols[k])
      ensures forall k :: 0 <= k < |symbols| ==>
        symbols[k].x == x && symbols[k].y == y - k * FONT_SIZE && symbols[k].screenHeight == screenHeight
        && symbols[k].interval == intervals[k] && symbols[k].value == RainGlyph(Green, picks[k])
    {
      var starts := DownRange(y, y - FONT_SIZE * heightPick, FONT_SIZE);
      DownRangeSpaced(y, FONT_SIZE, heightPick);
      var built: seq<Symbol> := [];
      for k := 0 to heightPick
        invariant |built| == k
        invariant forall i :: 0 <= i < k ==> fresh(built[i])
        invariant forall i, j :: 0 <= i < j < k ==> built[i] != built[j]
        invariant forall i :: 0 <= i < k ==>
          built[i].Valid() && built[i].speed == speedPick && built[i].x == x && built[i].y == starts[i]
          && built[i].screenHeight == screenHeight && built[i].interval == intervals[i]
          && built[i].value == RainGlyph(Green, picks[i])
      {
        var s := new Symbol(x, starts[k], speedPick, screenHeight, intervals[k], picks[k]);
        built := built + [s];
      }
      columnHeight, speed, symbols := heightPick, speedPick, built;
    }

    /**
     * `SymbolColumn.draw`: draw every symbol in order, the head (index 0) in the
     * light-green role and the rest in the green role. Each symbol reads the
     * clock itself, so symbol k sees its own tick `ticks[k]`.
     */
    method Draw(ticks: seq<nat>, picks: seq<int>) returns (blits: seq<Blit>)
      requires Valid() && |ticks| == |symbols| && |picks| == |symbols|
      requires forall k :: 0 <= k < |picks| ==> IsIndex(picks[k])
      modifies symbols
      ensures Valid()
      ensures forall k :: 0 <= k < |symbols| ==>
        symbols[k].y == NextY(old(symbols[k].y), speed, symbols[k].screenHeight)
        && symbols[k].value == if ticks[k] % symbols[k].interval == 0 then RainGlyph(PoolFor(RoleOf(k)), picks[k])
                               else old(symbols[k].value)
      ensures |blits| == |symbols|
      ensures forall k :: 0 <= k < |symbols| ==> blits[k] == Blit(symbols[k].value, symbols[k].x, symbols[k].y)
    {
      blits := [];
      for i := 0 to |symbols|
        invariant |blits| == i
        invariant forall k :: 0 <= k < |symbols| ==> symbols[k].Valid()
        invariant forall k :: 0 <= k < i ==>
          symbols[k].y == NextY(old(symbols[k].y), speed, symbols[k].screenHeight)
          && symbols[k].value == (if ticks[k] % symbols[k].interval == 0 then RainGlyph(PoolFor(RoleOf(k)), picks[k])
                                  else old(symbols[k].value))
          && blits[k] == Blit(symbols[k].value, symbols[k].x, symbols[k].y)
        invariant forall k :: i <= k < |symbols| ==> symbols[k].y == old(symbols[k].y) && symbols[k].value == old(symbols[k].value)
      {
        var b := symbols[i].Draw(if i > 0 then "green" else "lightgreen", ticks[i], picks[i]);
        blits := blits + [b];
      }
    }
  }
}
