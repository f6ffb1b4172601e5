/**
 * Russel's Approximation on the array-backed vectors and matrix, with the corrected
 * choice of cell: the least score among live cells only.
 */
module RusselAlgorithm {
  import opened Errors
  import opened Linear
  import opened Allocation
  import opened Implementations
  import opened Allocator
  import opened RusselSelection
  import opened Strategies
  import VectorFactory
  import MatrixFactory

  /** One line's maximum over its live entries, starting from Integer.MIN_VALUE. */
  method LineMaximum(item: ArrayVector) returns (max: int)
    requires item.Valid()
    ensures max == LineMax(item.values[..])
  {
    max := IntMin;
    var j := 0;
    while j < item.length
      invariant 0 <= j <= item.length
      invariant max == LineMax(item.values[..j])
    {
      var got := item.GetItem(j);
      var value := got.value;
      assert item.values[..j + 1][..j] == item.values[..j];
      if value != Excluded && value > max {
        max := value;
      }
      j := j + 1;
    }
    assert item.values[..item.length] == item.values[..];
  }

  /** The maximum of each line over its live entries. */
  method MaxesForListOfVectors(lines: seq<ArrayVector>) returns (maxes: ArrayVector)
    requires forall i :: 0 <= i < |lines| ==> lines[i].Valid()
    ensures maxes.Valid() && fresh(maxes.values) && maxes.length == |lines|
    ensures forall i :: 0 <= i < |lines| ==> maxes.values[i] == LineMax(lines[i].values[..])
  {
    maxes := VectorFactory.CreateEmptyVector(|lines|);
    var i := 0;
    while i < |lines|
      invariant 0 <= i <= |lines|
      invariant maxes.Valid() && fresh(maxes.values) && maxes.length == |lines|
      invariant forall k :: 0 <= k < i ==> maxes.values[k] == LineMax(lines[k].values[..])
    {
      var max := LineMaximum(lines[i]);
      var o := maxes.SetItem(i, max);
      i := i + 1;
    }
  }

  /**
   * The score matrix of one round: a fresh zero matrix in which every live cell gets
   * cost - rowMax - colMax and every excluded cell is skipped.
   */
  method BuildScores(costs: ArrayMatrix, rowsMaxes: ArrayVector, colsMaxes: ArrayVector) returns (scores: ArrayMatrix)
    requires costs.Valid() && rowsMaxes.Valid() && colsMaxes.Valid()
    requires rowsMaxes.length == costs.rows && colsMaxes.length == costs.cols
    ensures scores.Valid() && fresh(scores.values)
    ensures scores.rows == costs.rows && scores.cols == costs.cols
    ensures scores.Cells() == Scores(costs.Cells(), costs.cols, rowsMaxes.values[..], colsMaxes.values[..])
  {
    scores := MatrixFactory.CreateEmptyMatrix(costs.rows, costs.cols);
    ghost var target := Scores(costs.Cells(), costs.cols, rowsMaxes.values[..], colsMaxes.values[..]);
    var i := 0;
    while i < costs.rows
      invariant 0 <= i <= costs.rows
      invariant scores.Valid() && fresh(scores.values) && scores.rows == costs.rows && scores.cols == costs.cols
      invariant forall p, q :: 0 <= p < costs.rows && 0 <= q < costs.cols ==>
        scores.values[p, q] == if p < i then target[p][q] else 0
    {
      var j := 0;
      while j < costs.cols
        invariant 0 <= j <= costs.cols
        invariant scores.Valid() && fresh(scores.values) && scores.rows == costs.rows && scores.cols == costs.cols
        invariant forall p, q :: 0 <= p < costs.rows && 0 <= q < costs.cols ==>
          scores.values[p, q] == if p < i || (p == i && q < j) then target[p][q] else 0
      {
        var cost := costs.GetItem(i, j);
        if cost.value != Excluded {
          var rowMax := rowsMaxes.GetItem(i);
          var colMax := colsMaxes.GetItem(j);
          var o := scores.SetItem(i, j, cost.value - rowMax.value - colMax.value);
        }
        j := j + 1;
      }
      i := i + 1;
    }
    GridOfIs(scores.values, target);
  }

  /** The first live cell of least score in row i, or -1 when the row has no live cell. */
  method RowMinLive(scores: ArrayMatrix, costs: ArrayMatrix, i: nat) returns (k: int)
    requires scores.Valid() && costs.Valid()
    requires scores.rows == costs.rows && scores.cols == costs.cols && i < costs.rows
    ensures k == MaskedMinIndex(scores.Cells()[i], costs.Cells()[i])
  {
    ghost var line := scores.Cells()[i];
    ghost var mask := costs.Cells()[i];
    k := -1;
    var j := 0;
    while j < costs.cols
      invariant 0 <= j <= costs.cols
      invariant k == MaskedMinIndex(line[..j], mask[..j])
    {
      assert line[..j + 1][..j] == line[..j] && mask[..j + 1][..j] == mask[..j];
      var cost := costs.GetItem(i, j);
      if cost.value != Excluded {
        if k == -1 {
          k := j;
        } else {
          var candidate := scores.GetItem(i, j);
          var least := scores.GetItem(i, k);
          if candidate.value < least.value {
            k := j;
          }
        }
      }
      j := j + 1;
    }
    assert line[..costs.cols] == line && mask[..costs.cols] == mask;
  }

  /** Row i's best live cell replaces the candidate for rows before i when it scores strictly less. */
  method ScanRow(scores: ArrayMatrix, costs: ArrayMatrix, p: Pick, i: nat) returns (q: Pick)
    requires scores.Valid() && costs.Valid()
    requires scores.rows == costs.rows && scores.cols == costs.cols && i < costs.rows
    requires p == ScanRows(scores.Cells(), costs.Cells(), costs.cols, i)
    ensures q == ScanRows(scores.Cells(), costs.Cells(), costs.cols, i + 1)
  {
    var k := RowMinLive(scores, costs, i);
    q := p;
    if k != -1 {
      if p.NoCell? {
        q := Cell(i, k);
      } else {
        var candidate := scores.GetItem(i, k);
        var least := scores.GetItem(p.r, p.c);
        if candidate.value < least.value {
          q := Cell(i, k);
        }
      }
    }
  }

  /** The corrected choice: the row-major first live cell of least score, or none when no cell is live. */
  method CoordsOfMostNegativeLive(scores: ArrayMatrix, costs: ArrayMatrix) returns (p: Pick)
    requires scores.Valid() && costs.Valid()
    requires scores.rows == costs.rows && scores.cols == costs.cols
    ensures p == FirstMinLiveCell(scores.Cells(), costs.Cells(), costs.cols)
  {
    p := NoCell;
    var i := 0;
    while i < costs.rows
      invariant 0 <= i <= costs.rows
      invariant p == ScanRows(scores.Cells(), costs.Cells(), costs.cols, i)
    {
      p := ScanRow(scores, costs, p, i);
      i := i + 1;
    }
  }

  /** One round's choice: scores from the live line maxima, then the least live score. */
  method ChooseCell(costs: ArrayMatrix) returns (pick: Pick)
    requires costs.Valid()
    ensures pick == RusselPick(costs.Cells(), costs.cols, true)
  {
    var rowLines := costs.GetRows();
    var rowsMaxes := MaxesForListOfVectors(rowLines);
    var colLines := costs.GetColumns();
    var colsMaxes := MaxesForListOfVectors(colLines);
    assert rowsMaxes.values[..] == LineMaxes(costs.Cells());
    assert colsMaxes.values[..] == LineMaxes(Transpose(costs.Cells(), costs.cols));
    var scores := BuildScores(costs, rowsMaxes, colsMaxes);
    pick := CoordsOfMostNegativeLive(scores, costs);
  }

  /**
   * Russel's Approximation on the given objects, updating supply, demand and costs in
   * place. It returns exactly what the value-level run with the corrected rule
   * returns, and on success leaves the objects in that run's final state.
   */
  method Solve(supply: ArrayVector, demand: ArrayVector, costs: ArrayMatrix) returns (result: Result<ArrayVector>)
    requires supply.Valid() && demand.Valid() && costs.Valid()
    requires supply.length == costs.rows && demand.length == costs.cols
    requires costs.rows > 0 && costs.cols > 0
    requires supply.values != demand.values
    modifies supply.values, demand.values, costs.values
    ensures var run := Run(RusselCorrected, Initial(old(supply.values[..]), old(demand.values[..]), old(costs.Cells())));
      && (result.Ok? <==> run.Ok?)
      && (result.Err? ==> result.error == run.error)
      && (result.Ok? ==>
            && result.value.Valid() && fresh(result.value.values)
            && result.value.values[..] == run.value.answer
            && supply.values[..] == run.value.supply && demand.values[..] == run.value.demand
            && costs.Cells() == run.value.costs)
  {
    var answer := VectorFactory.CreateEmptyVector(costs.rows * costs.cols);
    ghost var target := Run(RusselCorrected, Snapshot(supply, demand, costs, answer));
    while true
      invariant Coherent(supply, demand, costs, answer) && fresh(answer.values)
      invariant Run(RusselCorrected, Snapshot(supply, demand, costs, answer)) == target
      decreases LiveCount(costs.Cells())
    {
      ghost var before := Snapshot(supply, demand, costs, answer);
      var pick := ChooseCell(costs);
      if pick.NoCell? {
        return Err(IndexOutOfBounds);
      }
      var o := AllocateAt(supply, demand, costs, answer, pick.r, pick.c);
      ExcludeLowersLiveCount(before.costs, pick.r, pick.c);
      var supplySum := supply.GetSum();
      var demandSum := demand.GetSum();
      if supplySum == 0 && demandSum == 0 {
        return Ok(answer);
      }
    }
  }
}
