/**
 * Russel's Approximation, selection part on values: line maxima over live costs, the
 * score grid, and the choice of the cell with the most negative score.
 */
module RusselSelection {
  import opened Linear
  import opened Allocation

  /** Every entry is a Java int. */
  predicate IntRange(line: seq<int>) {
    forall j :: 0 <= j < |line| ==> IntMin <= line[j] <= IntMax
  }

  /** The maximum loop's fold: start at Integer.MIN_VALUE, skip excluded entries, keep strictly larger values. */
  function LineMax(line: seq<int>): (m: int)
    ensures m >= IntMin
    decreases |line|
  {
    if |line| == 0 then IntMin
    else
      var m := LineMax(line[..|line| - 1]);
      var v := line[|line| - 1];
      if Live(v) && v > m then v else m
  }

  /**
   * The fold is the maximum of the live Java-int entries: it bounds each of them, and it
   * is one of them unless it is MIN_VALUE, which it is for a fully excluded line.
   */
  lemma {:induction false} LineMaxSpec(line: seq<int>)
    requires IntRange(line)
    ensures forall j :: 0 <= j < |line| && Live(line[j]) ==> line[j] <= LineMax(line)
    ensures LineMax(line) == IntMin || exists j :: 0 <= j < |line| && Live(line[j]) && line[j] == LineMax(line)
    ensures NoLive(line) ==> LineMax(line) == IntMin
    decreases |line|
  {
    if |line| > 0 {
      var n := |line| - 1;
      var pre := line[..n];
      LineMaxSpec(pre);
      assert forall j :: 0 <= j < n ==> line[j] == pre[j];
      if LineMax(line) != IntMin && LineMax(line) == LineMax(pre) {
        var j :| 0 <= j < n && Live(pre[j]) && pre[j] == LineMax(pre);
        assert line[j] == LineMax(line);
      }
    }
  }

  /** The maxima of a list of lines. */
  function LineMaxes(lines: Grid): (m: seq<int>)
    ensures |m| == |lines|
  {
    seq(|lines|, i requires 0 <= i < |lines| => LineMax(lines[i]))
  }

  /**
   * The score grid: a live cell scores cost - rowMax - colMax; an excluded cell keeps
   * the 0 of the freshly created score matrix.
   */
  function Scores(g: Grid, cols: nat, rowMaxes: seq<int>, colMaxes: seq<int>): (sc: Grid)
    requires IsGrid(g, cols) && |rowMaxes| == |g| && |colMaxes| == cols
    ensures |sc| == |g| && IsGrid(sc, cols)
  {
    seq(|g|, i requires 0 <= i < |g| =>
      seq(cols, j requires 0 <= j < cols =>
        if Live(g[i][j]) then g[i][j] - rowMaxes[i] - colMaxes[j] else 0))
  }

  /** The score grid of one round of Russel's method on the cost grid g. */
  function RusselScores(g: Grid, cols: nat): (sc: Grid)
    requires IsGrid(g, cols)
    ensures |sc| == |g| && IsGrid(sc, cols)
  {
    Scores(g, cols, LineMaxes(g), LineMaxes(Transpose(g, cols)))
  }

  /**
   * On non-negative Java-int costs every live score is at most minus its cost, so at
   * most 0: a live cell's cost is below both its row maximum and its column maximum.
   */
  lemma LiveScoreBound(g: Grid, cols: nat, r: nat, c: nat)
    requires IsGrid(g, cols) && r < |g| && c < cols && Live(g[r][c])
    requires forall i :: 0 <= i < |g| ==> IntRange(g[i])
    requires g[r][c] >= 0
    ensures RusselScores(g, cols)[r][c] <= -g[r][c] <= 0
  {
    LineMaxSpec(g[r]);
    var column := Transpose(g, cols)[c];
    assert forall i :: 0 <= i < |column| ==> column[i] == g[i][c];
    LineMaxSpec(column);
  }

  /** When every live cost is 0, every score is 0, live or excluded. */
  lemma ZeroCostScores(g: Grid, cols: nat)
    requires IsGrid(g, cols)
    requires forall r, c :: 0 <= r < |g| && 0 <= c < cols ==> g[r][c] in {0, Excluded}
    ensures forall r, c :: 0 <= r < |g| && 0 <= c < cols ==> RusselScores(g, cols)[r][c] == 0
  {
    forall r, c | 0 <= r < |g| && 0 <= c < cols && Live(g[r][c])
      ensures LineMax(g[r]) == 0 && LineMax(Transpose(g, cols)[c]) == 0
    {
      var column := Transpose(g, cols)[c];
      assert forall i :: 0 <= i < |column| ==> column[i] == g[i][c];
      assert IntRange(g[r]) && IntRange(column);
      LineMaxSpec(g[r]);
      LineMaxSpec(column);
    }
  }

  /** (r, c) is live in mask and holds the least score among live cells, with no live cell before it in row-major order holding that score. */
  predicate IsFirstMinLiveCell(sc: Grid, mask: Grid, cols: nat, r: nat, c: nat)
    requires |sc| == |mask| && IsGrid(sc, cols) && IsGrid(mask, cols)
  {
    && r < |sc| && c < cols && Live(mask[r][c])
    && (forall i, j :: 0 <= i < |sc| && 0 <= j < cols && Live(mask[i][j]) ==> sc[r][c] <= sc[i][j])
    && (forall i, j :: 0 <= i < |sc| && 0 <= j < cols && Live(mask[i][j]) && (i < r || (i == r && j < c)) ==>
          sc[r][c] < sc[i][j])
  }

  /** At most one cell is the first least live one. */
  lemma FirstMinLiveCellUnique(sc: Grid, mask: Grid, cols: nat, r: nat, c: nat, r2: nat, c2: nat)
    requires |sc| == |mask| && IsGrid(sc, cols) && IsGrid(mask, cols)
    requires IsFirstMinLiveCell(sc, mask, cols, r, c) && IsFirstMinLiveCell(sc, mask, cols, r2, c2)
    ensures r == r2 && c == c2
  {
  }

  /**
   * The scan for the least live score over the first n rows, row by row: a later row's
   * best live cell replaces the candidate only when strictly smaller.
   */
  function ScanRows(sc: Grid, mask: Grid, cols: nat, n: nat): (p: Pick)
    requires |sc| == |mask| && IsGrid(sc, cols) && IsGrid(mask, cols) && n <= |sc|
    ensures p.Cell? ==> p.r < n && p.c < cols
  {
    if n == 0 then NoCell
    else
      var p := ScanRows(sc, mask, cols, n - 1);
      var k := MaskedMinIndex(sc[n - 1], mask[n - 1]);
      if k == -1 then p
      else if p.NoCell? then Cell(n - 1, k)
      else if sc[n - 1][k] < sc[p.r][p.c] then Cell(n - 1, k)
      else p
  }

  /** The scan over the first n rows finds the first least live cell among them, and finds one exactly when one is live. */
  lemma {:induction false} ScanRowsSpec(sc: Grid, mask: Grid, cols: nat, n: nat)
    requires |sc| == |mask| && IsGrid(sc, cols) && IsGrid(mask, cols) && n <= |sc|
    ensures ScanRows(sc, mask, cols, n).NoCell? <==> !HasLive(mask[..n])
    ensures var p := ScanRows(sc, mask, cols, n);
      p.Cell? ==> IsFirstMinLiveCell(sc[..n], mask[..n], cols, p.r, p.c)
  {
    if n > 0 {
      ScanRowsSpec(sc, mask, cols, n - 1);
      var sn, mn := sc[..n], mask[..n];
      assert sn[..n - 1] == sc[..n - 1] && mn[..n - 1] == mask[..n - 1];
      assert sn[n - 1] == sc[n - 1] && mn[n - 1] == mask[n - 1];
      FirstMinLiveCellStep(sn, mn, cols, ScanRows(sc, mask, cols, n - 1),
        MaskedMinIndex(sc[n - 1], mask[n - 1]), ScanRows(sc, mask, cols, n));
    }
  }

  /** The scan over every row: the first least live cell of the grid, or none when no cell is live. */
  function FirstMinLiveCell(sc: Grid, mask: Grid, cols: nat): (p: Pick)
    requires |sc| == |mask| && IsGrid(sc, cols) && IsGrid(mask, cols)
    ensures p.NoCell? <==> !HasLive(mask)
    ensures p.Cell? ==> IsFirstMinLiveCell(sc, mask, cols, p.r, p.c)
  {
    ScanRowsSpec(sc, mask, cols, |sc|);
    assert sc[..|sc|] == sc && mask[..|mask|] == mask;
    ScanRows(sc, mask, cols, |sc|)
  }

  /** The inductive step of the scan: combining the best of the first rows with the best of the last row. */
  lemma FirstMinLiveCellStep(sc: Grid, mask: Grid, cols: nat, p: Pick, k: int, result: Pick)
    requires |sc| == |mask| && IsGrid(sc, cols) && IsGrid(mask, cols) && |sc| > 0
    requires var n := |sc| - 1;
      && (p.NoCell? <==> !HasLive(mask[..n]))
      && (p.Cell? ==> IsFirstMinLiveCell(sc[..n], mask[..n], cols, p.r, p.c))
      && k == MaskedMinIndex(sc[n], mask[n])
      && result == (if k == -1 then p
                    else if p.NoCell? then Cell(n, k)
                    else if sc[n][k] < sc[p.r][p.c] then Cell(n, k)
                    else p)
    ensures result.NoCell? <==> !HasLive(mask)
    ensures result.Cell? ==> IsFirstMinLiveCell(sc, mask, cols, result.r, result.c)
  {
    var n := |sc| - 1;
    var pm := mask[..n];
    assert forall i :: 0 <= i < n ==> mask[i] == pm[i] && sc[i] == sc[..n][i];
    if HasLive(mask) && k == -1 {
      var i, j :| 0 <= i < |mask| && 0 <= j < |mask[i]| && Live(mask[i][j]);
      assert i < n;
    }
  }

  /** Russel's choice: the cell of least score, over every cell as written, or over live cells only when corrected. */
  function RusselPick(g: Grid, cols: nat, corrected: bool): (p: Pick)
    requires IsGrid(g, cols)
  {
    FirstMinLiveCell(RusselScores(g, cols), if corrected then g else Zeros(|g|, cols), cols)
  }

  /**
   * The corrected choice is a live cell of least score, first in row-major order, and
   * exists exactly when some cell is live.
   */
  lemma RusselCorrectedPick(g: Grid, cols: nat)
    requires IsGrid(g, cols)
    ensures RusselPick(g, cols, true).Cell? <==> HasLive(g)
    ensures var p := RusselPick(g, cols, true);
      p.Cell? ==> IsFirstMinLiveCell(RusselScores(g, cols), g, cols, p.r, p.c)
  {
  }

  /**
   * As written, the choice ranges over every cell, excluded ones included: it is the
   * row-major first cell of least score (the cell getCoordsOfMostNegative returns),
   * and one always exists on a non-empty grid.
   */
  lemma RusselAsWrittenPick(g: Grid, cols: nat)
    requires IsGrid(g, cols) && |g| > 0 && cols > 0
    ensures RusselPick(g, cols, false).Cell?
    ensures var p := RusselPick(g, cols, false);
      IsFirstMinCell(RusselScores(g, cols), cols, p.r, p.c)
    ensures forall r, c :: IsFirstMinCell(RusselScores(g, cols), cols, r, c) ==> RusselPick(g, cols, false) == Cell(r, c)
  {
    var mask := Zeros(|g|, cols);
    var sc := RusselScores(g, cols);
    assert HasLive(mask) by {
      assert Live(mask[0][0]);
    }
    var p := RusselPick(g, cols, false);
    assert IsFirstMinCell(sc, cols, p.r, p.c) by {
      EveryCellLive(sc, cols, p.r, p.c);
    }
    forall r, c | IsFirstMinCell(sc, cols, r, c) ensures p == Cell(r, c) {
      EveryCellLive(sc, cols, r, c);
      FirstMinLiveCellUnique(sc, mask, cols, r, c, p.r, p.c);
    }
  }

  /**
   * Whenever the as-written choice lands on a live cell, it is the corrected choice: the
   * least score over every cell is also the least over the live cells, first among them
   * in row-major order. So a round of the corrected rule repeats the source's round
   * whenever the source picks a live cell.
   */
  lemma RusselAsWrittenLiveIsCorrected(g: Grid, cols: nat)
    requires IsGrid(g, cols) && |g| > 0 && cols > 0
    ensures var p := RusselPick(g, cols, false);
      p.Cell? && Live(g[p.r][p.c]) ==> p == RusselPick(g, cols, true)
  {
    RusselAsWrittenPick(g, cols);
    var p := RusselPick(g, cols, false);
    if Live(g[p.r][p.c]) {
      var sc := RusselScores(g, cols);
      assert IsFirstMinLiveCell(sc, g, cols, p.r, p.c);
      assert HasLive(g);
      RusselCorrectedPick(g, cols);
      var q := RusselPick(g, cols, true);
      FirstMinLiveCellUnique(sc, g, cols, p.r, p.c, q.r, q.c);
    }
  }

  /** Under the all-zero mask every cell is live, so the first least live cell is the first least cell. */
  lemma EveryCellLive(sc: Grid, cols: nat, r: nat, c: nat)
    requires IsGrid(sc, cols)
    ensures IsFirstMinCell(sc, cols, r, c) <==> IsFirstMinLiveCell(sc, Zeros(|sc|, cols), cols, r, c)
  {
    var mask := Zeros(|sc|, cols);
    assert forall i, j :: 0 <= i < |sc| && 0 <= j < cols ==> Live(mask[i][j]);
  }
}
