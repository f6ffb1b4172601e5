/**
 * Vogel's Approximation, selection part on values: the penalty of a line (gap between
 * its two cheapest live costs) and the choice of the next cell.
 */
module VogelSelection {
  import opened Linear
  import opened Allocation

  /** The running least and second-least cost of the penalty loop. */
  datatype MinPair = MinPair(least: int, second: int)

  /**
   * The penalty loop's fold: both start at Integer.MAX_VALUE, excluded entries are
   * skipped, a strictly smaller value pushes the current least down to second place,
   * and otherwise a value below the second replaces it.
   */
  function TwoSmallest(line: seq<int>): (p: MinPair)
    ensures p.least <= p.second <= IntMax
    decreases |line|
  {
    if |line| == 0 then MinPair(IntMax, IntMax)
    else
      var p := TwoSmallest(line[..|line| - 1]);
      var v := line[|line| - 1];
      if !Live(v) then p
      else if v < p.least then MinPair(v, p.least)
      else if v < p.second then MinPair(p.least, v)
      else p
  }

  function Max(a: int, b: int): int {
    if a >= b then a else b
  }

  /**
   * The pair really is the two smallest live costs (capped at Integer.MAX_VALUE):
   * the least is at most every live cost, the second is at most the larger of any two
   * distinct live costs, the least is a live cost unless it is MAX_VALUE, and the
   * second is a live cost at another index unless it is MAX_VALUE.
   */
  lemma TwoSmallestSpec(line: seq<int>)
    ensures var p := TwoSmallest(line);
      && (forall k :: 0 <= k < |line| && Live(line[k]) ==> p.least <= line[k])
      && (forall k, l :: 0 <= k < l < |line| && Live(line[k]) && Live(line[l]) ==> p.second <= Max(line[k], line[l]))
      && (p.least == IntMax || exists k :: 0 <= k < |line| && Live(line[k]) && line[k] == p.least)
      && (p.second == IntMax ||
            exists k, l :: (0 <= k < |line| && 0 <= l < |line| && k != l &&
              Live(line[k]) && Live(line[l]) && line[k] == p.least && line[l] == p.second))
  {
    TwoSmallestBounds(line);
    TwoSmallestWitnesses(line);
  }

  /** The pair bounds the live costs: the least bounds each, the second bounds the larger of any two. */
  lemma {:induction false} TwoSmallestBounds(line: seq<int>)
    ensures var p := TwoSmallest(line);
      && (forall k :: 0 <= k < |line| && Live(line[k]) ==> p.least <= line[k])
      && (forall k, l :: 0 <= k < l < |line| && Live(line[k]) && Live(line[l]) ==> p.second <= Max(line[k], line[l]))
    decreases |line|
  {
    if |line| > 0 {
      var n := |line| - 1;
      var pre := line[..n];
      TwoSmallestBounds(pre);
      assert forall k :: 0 <= k < n ==> line[k] == pre[k];
    }
  }

  /** Each of the pair is a live cost, at distinct indices, unless it is MAX_VALUE. */
  lemma {:induction false} TwoSmallestWitnesses(line: seq<int>)
    ensures var p := TwoSmallest(line);
      && (p.least == IntMax || exists k :: 0 <= k < |line| && Live(line[k]) && line[k] == p.least)
      && (p.second == IntMax ||
            exists k, l :: (0 <= k < |line| && 0 <= l < |line| && k != l &&
              Live(line[k]) && Live(line[l]) && line[k] == p.least && line[l] == p.second))
    decreases |line|
  {
    if |line| > 0 {
      var n := |line| - 1;
      var pre := line[..n];
      TwoSmallestWitnesses(pre);
      var q := TwoSmallest(pre);
      var v := line[n];
      assert forall k :: 0 <= k < n ==> line[k] == pre[k];
      if Live(v) && v < q.least && q.least != IntMax {
        var k :| 0 <= k < n && Live(pre[k]) && pre[k] == q.least;
        assert line[n] == v && line[k] == q.least;
      } else if Live(v) && q.least <= v < q.second && q.least != IntMax {
        var k :| 0 <= k < n && Live(pre[k]) && pre[k] == q.least;
        assert line[k] == q.least && line[n] == v;
      } else if q.second != IntMax {
        var k, l :| 0 <= k < n && 0 <= l < n && k != l && Live(pre[k]) && Live(pre[l]) &&
          pre[k] == q.least && pre[l] == q.second;
        assert line[k] == q.least && line[l] == q.second;
      }
      if q.least != IntMax && !(Live(v) && v < q.least) {
        var k :| 0 <= k < n && Live(pre[k]) && pre[k] == q.least;
        assert line[k] == q.least;
      }
    }
  }

  /** The penalty as written: second-least minus least live cost. */
  function Penalty(line: seq<int>): (d: int)
    ensures d >= 0
  {
    TwoSmallest(line).second - TwoSmallest(line).least
  }

  /** A fully excluded line has penalty 0 (both values stay at MAX_VALUE). */
  lemma {:induction false} PenaltyOfExcludedLine(line: seq<int>)
    requires NoLive(line)
    ensures TwoSmallest(line) == MinPair(IntMax, IntMax)
    ensures Penalty(line) == 0
    decreases |line|
  {
    if |line| > 0 {
      PenaltyOfExcludedLine(line[..|line| - 1]);
    }
  }

  /** A line whose only live cost is v (a Java int) has penalty MAX_VALUE - v. */
  lemma PenaltyOfSingleLive(line: seq<int>, k: nat)
    requires k < |line| && Live(line[k]) && line[k] <= IntMax
    requires forall j :: 0 <= j < |line| && j != k ==> !Live(line[j])
    ensures Penalty(line) == IntMax - line[k]
  {
    TwoSmallestSpec(line);
  }

  /**
   * With at least two live costs, the penalty is the gap between a least live cost and
   * the least live cost at any other index, when both are below MAX_VALUE.
   */
  lemma PenaltyOfTwoLive(line: seq<int>, k: nat, l: nat)
    requires k < |line| && l < |line| && k != l && Live(line[k]) && Live(line[l])
    requires forall j :: 0 <= j < |line| && Live(line[j]) ==> line[k] <= line[j]
    requires forall j :: 0 <= j < |line| && j != k && Live(line[j]) ==> line[l] <= line[j]
    requires line[l] < IntMax
    ensures Penalty(line) == line[l] - line[k]
  {
    TwoSmallestSpec(line);
    var p := TwoSmallest(line);
    if k < l {
      assert p.second <= Max(line[k], line[l]);
    } else {
      assert p.second <= Max(line[l], line[k]);
    }
  }

  /** The corrected penalty: -1 for a line with no live cell, so such a line is never chosen. */
  function PenaltyFixed(line: seq<int>): (d: int)
    ensures d >= -1
    ensures d == -1 <==> NoLive(line)
  {
    if MaskedMinIndex(line, line) == -1 then -1 else Penalty(line)
  }

  /** Penalties of a list of lines, as written or corrected. */
  function Penalties(lines: Grid, corrected: bool): (d: seq<int>)
    ensures |d| == |lines|
  {
    seq(|lines|, i requires 0 <= i < |lines| => if corrected then PenaltyFixed(lines[i]) else Penalty(lines[i]))
  }

  /** Vogel's choice of the next cell on the cost grid g with `cols` columns. */
  function VogelPick(g: Grid, cols: nat, corrected: bool): (p: Pick)
    requires |g| > 0 && cols > 0 && IsGrid(g, cols)
    ensures p.Cell? ==> p.r < |g| && p.c < cols && Live(g[p.r][p.c])
  {
    var rowPenalties := Penalties(g, corrected);
    var colPenalties := Penalties(Transpose(g, cols), corrected);
    var maxRow := FirstMaxIndex(rowPenalties);
    var maxCol := FirstMaxIndex(colPenalties);
    if rowPenalties[maxRow] > colPenalties[maxCol] then
      var k := MaskedMinIndex(g[maxRow], g[maxRow]);
      if k == -1 then NoCell else Cell(maxRow, k)
    else
      var column := Column(g, maxCol);
      var k := MaskedMinIndex(column, column);
      if k == -1 then NoCell else Cell(k, maxCol)
  }

  /** (r, c) is the first live cell of least cost in row r. */
  predicate CheapestInRow(g: Grid, cols: nat, r: nat, c: nat)
    requires IsGrid(g, cols) && r < |g| && c < cols
  {
    && Live(g[r][c])
    && (forall j :: 0 <= j < cols && Live(g[r][j]) ==> g[r][c] <= g[r][j])
    && (forall j :: 0 <= j < c && Live(g[r][j]) ==> g[r][c] < g[r][j])
  }

  /** (r, c) is the first live cell of least cost in column c. */
  predicate CheapestInColumn(g: Grid, cols: nat, r: nat, c: nat)
    requires IsGrid(g, cols) && r < |g| && c < cols
  {
    && Live(g[r][c])
    && (forall i :: 0 <= i < |g| && Live(g[i][c]) ==> g[r][c] <= g[i][c])
    && (forall i :: 0 <= i < r && Live(g[i][c]) ==> g[r][c] < g[i][c])
  }

  /**
   * When the greatest row penalty is strictly above the greatest column penalty, the
   * choice is in the first row of greatest penalty, at its first cheapest live cell;
   * there is none exactly when that row has nothing live.
   */
  lemma VogelPickRow(g: Grid, cols: nat, corrected: bool)
    requires |g| > 0 && cols > 0 && IsGrid(g, cols)
    requires var rp, cp := Penalties(g, corrected), Penalties(Transpose(g, cols), corrected);
      rp[FirstMaxIndex(rp)] > cp[FirstMaxIndex(cp)]
    ensures var p, r := VogelPick(g, cols, corrected), FirstMaxIndex(Penalties(g, corrected));
      && (p.NoCell? <==> NoLive(g[r]))
      && (p.Cell? ==> p.r == r && CheapestInRow(g, cols, p.r, p.c))
  {
  }

  /**
   * Otherwise (ties included) the choice is in the first column of greatest penalty,
   * at its first cheapest live cell; there is none exactly when that column has
   * nothing live.
   */
  lemma VogelPickColumn(g: Grid, cols: nat, corrected: bool)
    requires |g| > 0 && cols > 0 && IsGrid(g, cols)
    requires var rp, cp := Penalties(g, corrected), Penalties(Transpose(g, cols), corrected);
      rp[FirstMaxIndex(rp)] <= cp[FirstMaxIndex(cp)]
    ensures var p, c := VogelPick(g, cols, corrected), FirstMaxIndex(Penalties(Transpose(g, cols), corrected));
      && (p.NoCell? <==> NoLive(Column(g, c)))
      && (p.Cell? ==> p.c == c && CheapestInColumn(g, cols, p.r, p.c))
  {
    var c := FirstMaxIndex(Penalties(Transpose(g, cols), corrected));
    var column := Column(g, c);
    var k := MaskedMinIndex(column, column);
    assert forall i :: 0 <= i < |column| ==> column[i] == g[i][c];
  }

  /** With the corrected penalties a cell is found whenever any cell is live. */
  lemma VogelFixedFindsCell(g: Grid, cols: nat)
    requires |g| > 0 && cols > 0 && IsGrid(g, cols)
    requires HasLive(g)
    ensures VogelPick(g, cols, true).Cell?
  {
    var rp, cp := Penalties(g, true), Penalties(Transpose(g, cols), true);
    var r, c :| 0 <= r < |g| && 0 <= c < |g[r]| && Live(g[r][c]);
    assert rp[r] >= 0;
    assert Transpose(g, cols)[c][r] == g[r][c];
    assert cp[c] >= 0;
    var maxRow, maxCol := FirstMaxIndex(rp), FirstMaxIndex(cp);
    if rp[maxRow] > cp[maxCol] {
      assert !NoLive(g[maxRow]);
    } else {
      assert Transpose(g, cols)[maxCol] == Column(g, maxCol);
      assert !NoLive(Column(g, maxCol));
    }
  }
}
