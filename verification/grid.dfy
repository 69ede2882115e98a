/**
 * Value-level description of the vision grid: a list of rows, each a list of
 * integers (alphabet indices, change intervals or scroll speeds), and the
 * column shift the grid undergoes on each tick.
 */
module Grid {
  import opened Alphabet

  /** Number of columns of a grid (the length of its first row). */
  function Width(g: seq<seq<int>>): nat {
    if g == [] then 0 else |g[0]|
  }

  /** Number of cells of a grid, summed row by row. */
  function CellCount(g: seq<seq<int>>): nat {
    if g == [] then 0 else CellCount(g[..|g| - 1]) + |g[|g| - 1]|
  }

  /** A rectangular grid has rows times columns cells. */
  lemma {:induction false} CellCountRect(g: seq<seq<int>>)
    requires Rect(g)
    ensures CellCount(g) == |g| * Width(g)
  {
    if g != [] {
      var front := g[..|g| - 1];
      assert Rect(front);
      CellCountRect(front);
      if front != [] {
        assert Width(front) == Width(g);
      }
      assert (|g| - 1) * Width(g) + Width(g) == |g| * Width(g);
    }
  }

  /** Every row has the same length. */
  predicate Rect(g: seq<seq<int>>) {
    forall i :: 0 <= i < |g| ==> |g[i]| == Width(g)
  }

  /** `g` is a rectangular grid of `rows` by `cols` cells. */
  predicate HasShape(g: seq<seq<int>>, rows: nat, cols: nat) {
    |g| == rows && forall i :: 0 <= i < |g| ==> |g[i]| == cols
  }

  /** Two rectangular grids of the same dimensions. */
  predicate SameShape(g: seq<seq<int>>, h: seq<seq<int>>) {
    Rect(g) && Rect(h) && |g| == |h| && Width(g) == Width(h)
  }

  /** Every cell lies in [lo, hi). */
  predicate Within(g: seq<seq<int>>, lo: int, hi: int) {
    forall i, j :: 0 <= i < |g| && 0 <= j < |g[i]| ==> lo <= g[i][j] < hi
  }

  /** Every cell is a positive period, so that a tick can be tested against it. */
  predicate Positive(g: seq<seq<int>>) {
    forall i, j :: 0 <= i < |g| && 0 <= j < |g[i]| ==> g[i][j] > 0
  }

  /** Every cell holds an alphabet index. */
  predicate InAlphabet(g: seq<seq<int>>) {
    Within(g, 0, ALPHABET_SIZE)
  }

  /** Column `j` of a rectangular grid, top to bottom. */
  function Column(g: seq<seq<int>>, j: nat): (c: seq<int>)
    requires Rect(g) && j < Width(g)
    ensures |c| == |g|
  {
    seq(|g|, i requires 0 <= i < |g| => g[i][j])
  }

  // ---------------------------------------------------------------------------
  // Column shift
  // ---------------------------------------------------------------------------

  /** A column qualifies for the shift on tick `frames` when ANY of its cells' speeds divides the tick. */
  function ColumnDue(speeds: seq<seq<int>>, j: nat, frames: nat): (due: bool)
    requires Positive(speeds) && forall i :: 0 <= i < |speeds| ==> j < |speeds[i]|
    ensures forall i :: 0 <= i < |speeds| && frames % speeds[i][j] == 0 ==> due
    ensures (forall i :: 0 <= i < |speeds| ==> frames % speeds[i][j] != 0) ==> !due
    ensures frames == 0 ==> (due <==> |speeds| > 0)
  {
    assert frames == 0 && |speeds| > 0 ==> frames % speeds[0][j] == 0;
    exists i :: 0 <= i < |speeds| && frames % speeds[i][j] == 0
  }

  /** The row a cell moves down from under a circular roll by one: row 0 receives the last row. */
  function Above(i: nat, rows: nat): (k: nat)
    requires i < rows
    ensures k < rows
  {
    if i == 0 then rows - 1 else i - 1
  }

  /** Python's floored `(i - 1) % rows` is the row `Above` names. */
  lemma AboveIsModulo(i: nat, rows: nat)
    requires i < rows
    ensures Above(i, rows) == (i - 1) % rows
  {
    if i == 0 {
      assert (rows - 1) % rows == rows - 1;
      assert (-1) % rows == rows - 1 by {
        assert -1 == (-1) * rows + (rows - 1);
      }
    }
  }

  /** Roll a column down by one place, the bottom cell wrapping to the top. */
  function RotateDown(c: seq<int>): (r: seq<int>)
    ensures |r| == |c|
    ensures |c| > 0 ==> r[0] == c[|c| - 1]
    ensures forall i :: 0 < i < |c| ==> r[i] == c[i - 1]
  {
    if c == [] then [] else [c[|c| - 1]] + c[..|c| - 1]
  }

  /** The grid after one tick of `shift_column`: each qualifying column rolled down by one row. */
  function ShiftColumns(g: seq<seq<int>>, speeds: seq<seq<int>>, frames: nat): (r: seq<seq<int>>)
    requires SameShape(g, speeds) && Positive(speeds)
    ensures SameShape(r, g)
  {
    seq(|g|, i requires 0 <= i < |g| =>
      seq(Width(g), j requires 0 <= j < Width(g) =>
        if ColumnDue(speeds, j, frames) then g[Above(i, |g|)][j] else g[i][j]))
  }

  /** The law of one shift, cell by cell: `new[i][j] = old[(i-1) mod ROWS][j]` in every qualifying column, `old[i][j]` elsewhere. */
  lemma ShiftColumnsAt(g: seq<seq<int>>, speeds: seq<seq<int>>, frames: nat, i: nat, j: nat)
    requires SameShape(g, speeds) && Positive(speeds)
    requires i < |g| && j < Width(g)
    ensures ShiftColumns(g, speeds, frames)[i][j]
         == if ColumnDue(speeds, j, frames) then g[(i - 1) % |g|][j] else g[i][j]
  {
    AboveIsModulo(i, |g|);
  }

  /** Seen column by column, a shift rotates each qualifying column once and leaves the others alone. */
  lemma ShiftColumnsColumn(g: seq<seq<int>>, speeds: seq<seq<int>>, frames: nat, j: nat)
    requires SameShape(g, speeds) && Positive(speeds) && j < Width(g)
    ensures Column(ShiftColumns(g, speeds, frames), j)
         == if ColumnDue(speeds, j, frames) then RotateDown(Column(g, j)) else Column(g, j)
  {
    var r := ShiftColumns(g, speeds, frames);
    if ColumnDue(speeds, j, frames) {
      var c := Column(g, j);
      forall i | 0 <= i < |g| ensures Column(r, j)[i] == RotateDown(c)[i] {
        if i > 0 {
          assert RotateDown(c)[i] == c[..|c| - 1][i - 1];
        }
      }
    }
  }

  /** A shift keeps every cell value inside whatever range the grid was in (in particular the alphabet). */
  lemma ShiftColumnsWithin(g: seq<seq<int>>, speeds: seq<seq<int>>, frames: nat, lo: int, hi: int)
    requires SameShape(g, speeds) && Positive(speeds) && Within(g, lo, hi)
    ensures Within(ShiftColumns(g, speeds, frames), lo, hi)
  {
  }

  /** Rolling keeps the column's multiset of characters. */
  lemma RotateDownMultiset(c: seq<int>)
    ensures multiset(RotateDown(c)) == multiset(c)
  {
    if c != [] {
      assert c == c[..|c| - 1] + [c[|c| - 1]];
    }
  }

  /** `k` successive roll-downs. */
  function RotateN(c: seq<int>, k: nat): (r: seq<int>)
    ensures |r| == |c|
  {
    if k == 0 then c else RotateDown(RotateN(c, k - 1))
  }

  /** Any number of rolls keeps the column's multiset of characters. */
  lemma {:induction false} RotateNMultiset(c: seq<int>, k: nat)
    ensures multiset(RotateN(c, k)) == multiset(c)
  {
    if k > 0 {
      RotateNMultiset(c, k - 1);
      RotateDownMultiset(RotateN(c, k - 1));
    }
  }

  /** Rolling `k` times (k not above the length) moves the last `k` cells to the front. */
  lemma {:induction false} RotateNSplit(c: seq<int>, k: nat)
    requires k <= |c|
    ensures RotateN(c, k) == c[|c| - k..] + c[..|c| - k]
  {
    if k > 0 {
      RotateNSplit(c, k - 1);
      var n := |c|;
      var prev := c[n - k + 1..] + c[..n - k + 1];
      assert prev[|prev| - 1] == c[n - k];
      assert prev[..|prev| - 1] == c[n - k + 1..] + c[..n - k];
      assert [c[n - k]] + c[n - k + 1..] == c[n - k..];
    }
  }

  /** Cycle law for one column: `ROWS` roll-downs restore the column. */
  lemma RotateNCycle(c: seq<int>)
    ensures RotateN(c, |c|) == c
  {
    RotateNSplit(c, |c|);
  }

  /** Rolling `a` times then `b` times is rolling `a + b` times. */
  lemma {:induction false} RotateNAdd(c: seq<int>, a: nat, b: nat)
    ensures RotateN(RotateN(c, a), b) == RotateN(c, a + b)
  {
    if b > 0 {
      RotateNAdd(c, a, b - 1);
    }
  }

  /** The grid after a sequence of ticks, each running `shift_column` once. */
  function ShiftMany(g: seq<seq<int>>, speeds: seq<seq<int>>, ticks: seq<nat>): (r: seq<seq<int>>)
    requires SameShape(g, speeds) && Positive(speeds)
    ensures SameShape(r, g)
    decreases |ticks|
  {
    if ticks == [] then g else ShiftMany(ShiftColumns(g, speeds, ticks[0]), speeds, ticks[1..])
  }

  /** Number of ticks in `ticks` on which column `j` qualifies. */
  function DueTicks(speeds: seq<seq<int>>, j: nat, ticks: seq<nat>): (n: nat)
    requires Rect(speeds) && Positive(speeds) && j < Width(speeds)
    ensures n <= |ticks|
  {
    if ticks == [] then 0
    else (if ColumnDue(speeds, j, ticks[0]) then 1 else 0) + DueTicks(speeds, j, ticks[1..])
  }

  /** After any sequence of ticks, column `j` is its original self rolled once per tick on which it qualified. */
  lemma {:induction false} ShiftManyColumn(g: seq<seq<int>>, speeds: seq<seq<int>>, ticks: seq<nat>, j: nat)
    requires SameShape(g, speeds) && Positive(speeds) && j < Width(g)
    ensures Column(ShiftMany(g, speeds, ticks), j) == RotateN(Column(g, j), DueTicks(speeds, j, ticks))
    decreases |ticks|
  {
    if ticks != [] {
      var g1 := ShiftColumns(g, speeds, ticks[0]);
      var d := if ColumnDue(speeds, j, ticks[0]) then 1 else 0;
      ShiftColumnsColumn(g, speeds, ticks[0], j);
      assert Column(g1, j) == RotateN(Column(g, j), d);
      ShiftManyColumn(g1, speeds, ticks[1..], j);
      RotateNAdd(Column(g, j), d, DueTicks(speeds, j, ticks[1..]));
    }
  }

  /** Cycle law: a column that qualifies on each of `ROWS` ticks is back where it started. */
  lemma ShiftCycleColumn(g: seq<seq<int>>, speeds: seq<seq<int>>, ticks: seq<nat>, j: nat)
    requires SameShape(g, speeds) && Positive(speeds) && j < Width(g)
    requires |ticks| == |g|
    requires forall t :: 0 <= t < |ticks| ==> ColumnDue(speeds, j, ticks[t])
    ensures Column(ShiftMany(g, speeds, ticks), j) == Column(g, j)
  {
    DueTicksAll(speeds, j, ticks);
    ShiftManyColumn(g, speeds, ticks, j);
    RotateNCycle(Column(g, j));
  }

  /** A column that qualifies on every tick is counted on every tick. */
  lemma {:induction false} DueTicksAll(speeds: seq<seq<int>>, j: nat, ticks: seq<nat>)
    requires Rect(speeds) && Positive(speeds) && j < Width(speeds)
    requires forall t :: 0 <= t < |ticks| ==> ColumnDue(speeds, j, ticks[t])
    ensures DueTicks(speeds, j, ticks) == |ticks|
  {
    if ticks != [] {
      assert ColumnDue(speeds, j, ticks[0]);
      assert forall t :: 0 <= t < |ticks[1..]| ==> ticks[1..][t] == ticks[t + 1];
      DueTicksAll(speeds, j, ticks[1..]);
    }
  }

  /** Whole-grid cycle law: when every column qualifies on each of `ROWS` ticks, the grid is restored. */
  lemma ShiftCycleGrid(g: seq<seq<int>>, speeds: seq<seq<int>>, ticks: seq<nat>)
    requires SameShape(g, speeds) && Positive(speeds)
    requires |ticks| == |g|
    requires forall t, j :: 0 <= t < |ticks| && 0 <= j < Width(g) ==> ColumnDue(speeds, j, ticks[t])
    ensures ShiftMany(g, speeds, ticks) == g
  {
    var r := ShiftMany(g, speeds, ticks);
    forall i, j | 0 <= i < |g| && 0 <= j < Width(g) ensures r[i][j] == g[i][j] {
      ShiftCycleColumn(g, speeds, ticks, j);
      assert Column(r, j)[i] == Column(g, j)[i];
    }
    forall i | 0 <= i < |g| ensures r[i] == g[i] {
    }
  }

  /** Under a shift each column keeps its multiset of characters. */
  lemma ShiftColumnsKeepsColumnMultiset(g: seq<seq<int>>, speeds: seq<seq<int>>, frames: nat, j: nat)
    requires SameShape(g, speeds) && Positive(speeds) && j < Width(g)
    ensures multiset(Column(ShiftColumns(g, speeds, frames), j)) == multiset(Column(g, j))
  {
    ShiftColumnsColumn(g, speeds, frames, j);
    RotateDownMultiset(Column(g, j));
  }

  /** Over any sequence of ticks each column keeps its multiset of characters. */
  lemma ShiftManyKeepsColumnMultiset(g: seq<seq<int>>, speeds: seq<seq<int>>, ticks: seq<nat>, j: nat)
    requires SameShape(g, speeds) && Positive(speeds) && j < Width(g)
    ensures multiset(Column(ShiftMany(g, speeds, ticks), j)) == multiset(Column(g, j))
  {
    ShiftManyColumn(g, speeds, ticks, j);
    RotateNMultiset(Column(g, j), DueTicks(speeds, j, ticks));
  }

  /** Over any sequence of ticks every cell stays inside the range the grid was in. */
  lemma {:induction false} ShiftManyWithin(g: seq<seq<int>>, speeds: seq<seq<int>>, ticks: seq<nat>, lo: int, hi: int)
    requires SameShape(g, speeds) && Positive(speeds) && Within(g, lo, hi)
    ensures Within(ShiftMany(g, speeds, ticks), lo, hi)
    decreases |ticks|
  {
    if ticks != [] {
      ShiftColumnsWithin(g, speeds, ticks[0], lo, hi);
      ShiftManyWithin(ShiftColumns(g, speeds, ticks[0]), speeds, ticks[1..], lo, hi);
    }
  }
}
