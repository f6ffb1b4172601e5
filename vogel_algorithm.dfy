/** Vogel's Approximation on the array-backed vectors and matrix, as written. */
module VogelAlgorithm {
  import opened Errors
  import opened Linear
  import opened Allocation
  import opened Implementations
  import opened Allocator
  import opened VogelSelection
  import opened Strategies
  import VectorFactory

  /** One line's penalty, from a running least and second-least over its live entries. */
  method LinePenalty(item: ArrayVector) returns (diff: int)
    requires item.Valid()
    ensures diff == Penalty(item.values[..])
  {
    var min, secondMin := IntMax, IntMax;
    var j := 0;
    while j < item.length
      invariant 0 <= j <= item.length
      invariant MinPair(min, secondMin) == TwoSmallest(item.values[..j])
    {
      var got := item.GetItem(j);
      var value := got.value;
      assert item.values[..j + 1][..j] == item.values[..j];
      if value != Excluded {
        if value < min {
          secondMin := min;
          min := value;
        } else if value < secondMin {
          secondMin := value;
        }
      }
      j := j + 1;
    }
    assert item.values[..item.length] == item.values[..];
    diff := secondMin - min;
  }

  /** The penalty of each line: its second-least minus its least live cost. */
  method DiffsForListOfVectors(lines: seq<ArrayVector>) returns (diffs: ArrayVector)
    requires forall i :: 0 <= i < |lines| ==> lines[i].Valid()
    ensures diffs.Valid() && fresh(diffs.values) && diffs.length == |lines|
    ensures forall i :: 0 <= i < |lines| ==> diffs.values[i] == Penalty(lines[i].values[..])
  {
    diffs := VectorFactory.CreateEmptyVector(|lines|);
    var i := 0;
    while i < |lines|
      invariant 0 <= i <= |lines|
      invariant diffs.Valid() && fresh(diffs.values) && diffs.length == |lines|
      invariant forall k :: 0 <= k < i ==> diffs.values[k] == Penalty(lines[k].values[..])
    {
      var diff := LinePenalty(lines[i]);
      var o := diffs.SetItem(i, diff);
      i := i + 1;
    }
  }

  /** The index of the first live entry of least value, or -1 when every entry is excluded. */
  method MinLiveIndex(target: ArrayVector) returns (minIndex: int)
    requires target.Valid()
    ensures minIndex == MaskedMinIndex(target.values[..], target.values[..])
  {
    minIndex := -1;
    var i := 0;
    while i < target.length
      invariant 0 <= i <= target.length
      invariant minIndex == MaskedMinIndex(target.values[..i], target.values[..i])
    {
      var v := target.GetItem(i);
      assert target.values[..i + 1][..i] == target.values[..i];
      if v.value != Excluded {
        if minIndex == -1 {
          minIndex := i;
        } else {
          var m := target.GetItem(minIndex);
          if v.value < m.value {
            minIndex := i;
          }
        }
      }
      i := i + 1;
    }
    assert target.values[..target.length] == target.values[..];
  }

  /**
   * One round's choice of cell: the coordinates Vogel's rule picks, or a pair with a -1
   * coordinate when the chosen line has no live cell.
   */
  method ChooseCell(costs: ArrayMatrix) returns (row: int, col: int)
    requires costs.Valid() && costs.rows > 0 && costs.cols > 0
    ensures var p := VogelPick(costs.Cells(), costs.cols, false);
      && (p.Cell? ==> row == p.r && col == p.c)
      && (p.NoCell? ==> (row == -1 && 0 <= col < costs.cols) || (col == -1 && 0 <= row < costs.rows))
  {
    var g := costs.Cells();
    var rowLines := costs.GetRows();
    var rowsDiffs := DiffsForListOfVectors(rowLines);
    var colLines := costs.GetColumns();
    var colsDiffs := DiffsForListOfVectors(colLines);
    assert rowsDiffs.values[..] == Penalties(g, false);
    assert colsDiffs.values[..] == Penalties(Transpose(g, costs.cols), false);
    var maxRowDiffIndex := rowsDiffs.GetMaxValueIndex();
    var maxColDiffIndex := colsDiffs.GetMaxValueIndex();
    var rowDiff := rowsDiffs.GetItem(maxRowDiffIndex);
    var colDiff := colsDiffs.GetItem(maxColDiffIndex);
    var targetVector: ArrayVector;
    if rowDiff.value > colDiff.value {
      var line := costs.GetRow(maxRowDiffIndex);
      targetVector := line.value;
    } else {
      var line := costs.GetColumn(maxColDiffIndex);
      targetVector := line.value;
    }
    var minIndex := MinLiveIndex(targetVector);
    ghost var pick := VogelPick(g, costs.cols, false);
    if rowDiff.value > colDiff.value {
      assert pick == if minIndex == -1 then NoCell else Cell(maxRowDiffIndex, minIndex);
      row, col := maxRowDiffIndex, minIndex;
    } else {
      assert pick == if minIndex == -1 then NoCell else Cell(minIndex, maxColDiffIndex);
      row, col := minIndex, maxColDiffIndex;
    }
  }

  /**
   * Vogel's Approximation on the given objects, updating supply, demand and costs in
   * place. It returns exactly what the value-level run with the as-written rule
   * returns, and on success leaves the objects in that run's final state.
   */
  method Solve(supply: ArrayVector, demand: ArrayVector, costs: ArrayMatrix) returns (result: Result<ArrayVector>)
    requires supply.Valid() && demand.Valid() && costs.Valid()
    requires supply.length == costs.rows && demand.length == costs.cols
    requires costs.rows > 0 && costs.cols > 0
    requires supply.values != demand.values
    modifies supply.values, demand.values, costs.values
    ensures var run := Run(VogelAsWritten, Initial(old(supply.values[..]), old(demand.values[..]), old(costs.Cells())));
      && (result.Ok? <==> run.Ok?)
      && (result.Err? ==> result.error == run.error)
      && (result.Ok? ==>
            && result.value.Valid() && fresh(result.value.values)
            && result.value.values[..] == run.value.answer
            && supply.values[..] == run.value.supply && demand.values[..] == run.value.demand
            && costs.Cells() == run.value.costs)
  {
    var answer := VectorFactory.CreateEmptyVector(costs.rows * costs.cols);
    ghost var target := Run(VogelAsWritten, Snapshot(supply, demand, costs, answer));
    while true
      invariant Coherent(supply, demand, costs, answer) && fresh(answer.values)
      invariant Run(VogelAsWritten, Snapshot(supply, demand, costs, answer)) == target
      decreases LiveCount(costs.Cells())
    {
      ghost var before := Snapshot(supply, demand, costs, answer);
      var row, col := ChooseCell(costs);
      var o := AllocateAt(supply, demand, costs, answer, row, col);
      if o.Fail? {
        return Err(o.error);
      }
      ExcludeLowersLiveCount(before.costs, row, col);
      var supplySum := supply.GetSum();
      var demandSum := demand.GetSum();
      if supplySum == 0 && demandSum == 0 {
        return Ok(answer);
      }
    }
  }
}
