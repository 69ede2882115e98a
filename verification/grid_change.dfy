/**
 * Value-level description of `change_chars`: every cell whose change interval
 * divides the tick receives a fresh alphabet index. The fresh indices arrive as
 * a list consumed in row-major order of the due cells (the order in which
 * `np.argwhere` lists them), one per due cell.
 */
module GridChange {
  import opened Alphabet
  import opened Grid

  /** Every entry of a row is a positive period. */
  predicate PositiveRow(p: seq<int>) {
    forall k :: 0 <= k < |p| ==> p[k] > 0
  }

  /** Whether a cell with change interval `period` is re-picked on tick `frames`. */
  predicate Due(frames: nat, period: int)
    requires period > 0
  {
    frames % period == 0
  }

  /** Number of due cells in a row of periods. */
  function DueCount(p: seq<int>, frames: nat): (n: nat)
    requires PositiveRow(p)
    ensures n <= |p|
  {
    if p == [] then 0
    else DueCount(p[..|p| - 1], frames) + (if Due(frames, p[|p| - 1]) then 1 else 0)
  }

  /** Number of due cells in a list of rows of periods. */
  function DueCountRows(p: seq<seq<int>>, frames: nat): (n: nat)
    requires Positive(p)
    ensures n <= CellCount(p)
  {
    if p == [] then 0
    else DueCountRows(p[..|p| - 1], frames) + DueCount(p[|p| - 1], frames)
  }

  /** Counting due cells of a row prefix never decreases as the prefix grows. */
  lemma {:induction false} DueCountPrefix(p: seq<int>, frames: nat, a: nat, b: nat)
    requires PositiveRow(p) && a <= b <= |p|
    ensures DueCount(p[..a], frames) <= DueCount(p[..b], frames)
    decreases b - a
  {
    if a < b {
      DueCountPrefix(p, frames, a, b - 1);
      assert p[..b][..b - 1] == p[..b - 1];
    }
  }

  /** Extending a row prefix by one cell adds one exactly when that cell is due. */
  lemma DueCountStep(p: seq<int>, frames: nat, j: nat)
    requires PositiveRow(p) && j < |p|
    ensures DueCount(p[..j + 1], frames) == DueCount(p[..j], frames) + (if Due(frames, p[j]) then 1 else 0)
  {
    assert p[..j + 1][..j] == p[..j];
  }

  /** Counting due cells of a prefix of rows never decreases as the prefix grows. */
  lemma {:induction false} DueCountRowsPrefix(p: seq<seq<int>>, frames: nat, a: nat, b: nat)
    requires Positive(p) && a <= b <= |p|
    ensures DueCountRows(p[..a], frames) <= DueCountRows(p[..b], frames)
    decreases b - a
  {
    if a < b {
      DueCountRowsPrefix(p, frames, a, b - 1);
      assert p[..b][..b - 1] == p[..b - 1];
    }
  }

  /** Extending a prefix of rows by one row adds that row's due cells. */
  lemma DueCountRowsStep(p: seq<seq<int>>, frames: nat, i: nat)
    requires Positive(p) && i < |p|
    ensures DueCountRows(p[..i + 1], frames) == DueCountRows(p[..i], frames) + DueCount(p[i], frames)
  {
    assert p[..i + 1][..i] == p[..i];
  }

  /** Position of cell (i, j) among the due cells in row-major order: the index of the pick it receives. */
  function Rank(p: seq<seq<int>>, frames: nat, i: nat, j: nat): (r: nat)
    requires Positive(p) && i < |p| && j <= |p[i]|
    ensures r <= DueCountRows(p, frames)
  {
    DueCountPrefix(p[i], frames, j, |p[i]|);
    assert p[i][..|p[i]|] == p[i];
    DueCountRowsStep(p, frames, i);
    DueCountRowsPrefix(p, frames, i + 1, |p|);
    assert p[..|p|] == p;
    DueCountRows(p[..i], frames) + DueCount(p[i][..j], frames)
  }

  /** A due cell's rank is below the number of due cells, so it always has a pick. */
  lemma RankBound(p: seq<seq<int>>, frames: nat, i: nat, j: nat)
    requires Positive(p) && i < |p| && j < |p[i]| && Due(frames, p[i][j])
    ensures Rank(p, frames, i, j) < DueCountRows(p, frames)
  {
    DueCountStep(p[i], frames, j);
    DueCountPrefix(p[i], frames, j + 1, |p[i]|);
    assert p[i][..|p[i]|] == p[i];
    DueCountRowsStep(p, frames, i);
    DueCountRowsPrefix(p, frames, i + 1, |p|);
    assert p[..|p|] == p;
  }

  /** Due cells receive distinct picks: rank strictly increases in row-major order among due cells. */
  lemma RankIncreasing(p: seq<seq<int>>, frames: nat, i: nat, j: nat, i': nat, j': nat)
    requires Positive(p) && i < |p| && j < |p[i]| && i' < |p| && j' < |p[i']|
    requires Due(frames, p[i][j])
    requires i < i' || (i == i' && j < j')
    ensures Rank(p, frames, i, j) < Rank(p, frames, i', j')
  {
    DueCountStep(p[i], frames, j);
    if i == i' {
      DueCountPrefix(p[i], frames, j + 1, j');
    } else {
      DueCountPrefix(p[i], frames, j + 1, |p[i]|);
      assert p[i][..|p[i]|] == p[i];
      DueCountRowsStep(p, frames, i);
      DueCountRowsPrefix(p, frames, i + 1, i');
    }
  }

  /** The grid after `change_chars` on tick `frames` with the fresh indices `picks`. */
  function ChangeChars(g: seq<seq<int>>, p: seq<seq<int>>, frames: nat, picks: seq<int>): (r: seq<seq<int>>)
    requires SameShape(g, p) && Positive(p) && |picks| == DueCountRows(p, frames)
    ensures SameShape(r, g)
  {
    seq(|g|, i requires 0 <= i < |g| =>
      seq(Width(g), j requires 0 <= j < Width(g) =>
        if Due(frames, p[i][j]) then RankBound(p, frames, i, j); picks[Rank(p, frames, i, j)]
        else g[i][j]))
  }

  /** Exactly the due cells are overwritten, each with its own pick; every other cell keeps its value. */
  lemma ChangeCharsAt(g: seq<seq<int>>, p: seq<seq<int>>, frames: nat, picks: seq<int>, i: nat, j: nat)
    requires SameShape(g, p) && Positive(p) && |picks| == DueCountRows(p, frames)
    requires i < |g| && j < Width(g)
    ensures Due(frames, p[i][j]) ==>
      Rank(p, frames, i, j) < |picks| && ChangeChars(g, p, frames, picks)[i][j] == picks[Rank(p, frames, i, j)]
    ensures !Due(frames, p[i][j]) ==> ChangeChars(g, p, frames, picks)[i][j] == g[i][j]
  {
    if Due(frames, p[i][j]) {
      RankBound(p, frames, i, j);
    }
  }

  /** With alphabet picks, `change_chars` keeps the grid inside the alphabet. */
  lemma ChangeCharsInAlphabet(g: seq<seq<int>>, p: seq<seq<int>>, frames: nat, picks: seq<int>)
    requires SameShape(g, p) && Positive(p) && |picks| == DueCountRows(p, frames)
    requires InAlphabet(g) && forall k :: 0 <= k < |picks| ==> IsIndex(picks[k])
    ensures InAlphabet(ChangeChars(g, p, frames, picks))
  {
    var r := ChangeChars(g, p, frames, picks);
    forall i, j | 0 <= i < |r| && 0 <= j < |r[i]| ensures 0 <= r[i][j] < ALPHABET_SIZE {
      ChangeCharsAt(g, p, frames, picks, i, j);
    }
  }

  /** Every pick is used: each one lands in the due cell of the matching rank. */
  lemma {:induction false} ChangeCharsUsesEveryPick(g: seq<seq<int>>, p: seq<seq<int>>, frames: nat, picks: seq<int>, k: nat)
    requires SameShape(g, p) && Positive(p) && |picks| == DueCountRows(p, frames)
    requires k < |picks|
    ensures exists i, j :: 0 <= i < |g| && 0 <= j < Width(g) && Due(frames, p[i][j])
                        && Rank(p, frames, i, j) == k && ChangeChars(g, p, frames, picks)[i][j] == picks[k]
  {
    var i, j := RankedCell(p, frames, k);
  }

  /** The due cell of rank `k`, for every `k` below the number of due cells. */
  lemma {:induction false} RankedCell(p: seq<seq<int>>, frames: nat, k: nat) returns (i: nat, j: nat)
    requires Rect(p) && Positive(p) && k < DueCountRows(p, frames)
    ensures i < |p| && j < |p[i]| && Due(frames, p[i][j]) && Rank(p, frames, i, j) == k
    decreases |p|
  {
    var last := |p| - 1;
    assert p[..|p|] == p;
    DueCountRowsStep(p, frames, last);
    if k < DueCountRows(p[..last], frames) {
      var q := p[..last];
      assert Rect(q) by {
        forall r | 0 <= r < |q| ensures |q[r]| == Width(q) {
          assert q[r] == p[r] && Width(q) == Width(p);
        }
      }
      i, j := RankedCell(q, frames, k);
      assert q[..i] == p[..i];
    } else {
      i := last;
      j := RankedInRow(p[last], frames, k - DueCountRows(p[..last], frames));
    }
  }

  /** The due position of rank `k` within one row. */
  lemma {:induction false} RankedInRow(p: seq<int>, frames: nat, k: nat) returns (j: nat)
    requires PositiveRow(p) && k < DueCount(p, frames)
    ensures j < |p| && Due(frames, p[j]) && DueCount(p[..j], frames) == k
    decreases |p|
  {
    var last := |p| - 1;
    var q := p[..last];
    if k < DueCount(q, frames) {
      j := RankedInRow(q, frames, k);
      assert q[..j] == p[..j];
    } else {
      j := last;
    }
  }
}
