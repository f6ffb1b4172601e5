/**
 * The North-West Corner rule: one row-major sweep over the cells, shipping at each
 * cell as much as its source and destination allow.
 */
module NorthWest {
  import opened Errors
  import opened Linear
  import opened Allocation
  import opened Implementations
  import opened Allocator
  import VectorFactory

  /** The sweep from cell (r, c) onward; row r is finished once c reaches the column count. */
  function SweepFrom(st: State, r: nat, c: nat): (fin: State)
    requires WellFormed(st) && r <= |st.supply| && c <= |st.demand|
    ensures WellFormed(fin) && fin.costs == st.costs
    ensures |fin.supply| == |st.supply| && |fin.demand| == |st.demand|
    decreases |st.supply| - r, |st.demand| - c
  {
    if r == |st.supply| then st
    else if c == |st.demand| then SweepFrom(st, r + 1, 0)
    else SweepFrom(Transfer(st, r, c), r, c + 1)
  }

  /** The whole sweep, from the north-west corner with an all-zero answer. */
  function Sweep(supply: seq<int>, demand: seq<int>, costs: Grid): State
    requires |costs| == |supply| && IsGrid(costs, |demand|)
  {
    SweepFrom(Initial(supply, demand, costs), 0, 0)
  }

  /** Cell (i, j) comes before cell (r, c) in row-major order. */
  predicate Before(i: nat, j: nat, r: nat, c: nat) {
    i < r || (i == r && j < c)
  }

  /**
   * The loop invariant of the sweep at (r, c): the bookkeeping holds, the cells still
   * ahead have received nothing, and every cell already visited has its source or its
   * destination exhausted.
   */
  predicate SweepInvariant(st: State, s0: seq<int>, d0: seq<int>, r: nat, c: nat)
    requires WellFormed(st)
  {
    var rows, cols := |st.supply|, |st.demand|;
    && Accounts(st, s0, d0)
    && (forall i, j :: 0 <= i < rows && 0 <= j < cols && !Before(i, j, r, c) ==>
          Plan(st.answer, rows, cols)[i][j] == 0)
    && (forall i, j :: 0 <= i < rows && 0 <= j < cols && Before(i, j, r, c) ==>
          st.supply[i] == 0 || st.demand[j] == 0)
  }

  /** One step of the sweep keeps its invariant. */
  lemma TransferKeepsInvariant(st: State, s0: seq<int>, d0: seq<int>, r: nat, c: nat)
    requires WellFormed(st) && r < |st.supply| && c < |st.demand|
    requires SweepInvariant(st, s0, d0, r, c)
    ensures SweepInvariant(Transfer(st, r, c), s0, d0, r, c + 1)
  {
    var rows, cols := |st.supply|, |st.demand|;
    var next := Transfer(st, r, c);
    TransferAccounts(st, s0, d0, r, c);
    TransferFrame(st, r, c);
    PlanUpdate(st.answer, rows, cols, r, c, Min(st.supply[r], st.demand[c]));
  }

  /** The sweep ends with the bookkeeping intact and every cell exhausted. */
  lemma {:induction false} SweepFromExhausts(st: State, s0: seq<int>, d0: seq<int>, r: nat, c: nat)
    requires WellFormed(st) && r <= |st.supply| && c <= |st.demand|
    requires SweepInvariant(st, s0, d0, r, c)
    ensures Accounts(SweepFrom(st, r, c), s0, d0)
    ensures AllCellsExhausted(SweepFrom(st, r, c))
    decreases |st.supply| - r, |st.demand| - c
  {
    if r == |st.supply| {
      SweepInvariantAtEnd(st, s0, d0, c);
    } else if c == |st.demand| {
      assert SweepInvariant(st, s0, d0, r + 1, 0) by {
        SweepInvariantNextRow(st, s0, d0, r);
      }
      SweepFromExhausts(st, s0, d0, r + 1, 0);
      assert SweepFrom(st, r, c) == SweepFrom(st, r + 1, 0);
    } else {
      var next := Transfer(st, r, c);
      assert SweepInvariant(next, s0, d0, r, c + 1) by {
        TransferKeepsInvariant(st, s0, d0, r, c);
      }
      SweepFromExhausts(next, s0, d0, r, c + 1);
      assert SweepFrom(st, r, c) == SweepFrom(next, r, c + 1);
    }
  }

  /** Finishing a row: the invariant at the end of row r is the invariant at the start of row r + 1. */
  lemma SweepInvariantNextRow(st: State, s0: seq<int>, d0: seq<int>, r: nat)
    requires WellFormed(st) && r < |st.supply|
    requires SweepInvariant(st, s0, d0, r, |st.demand|)
    ensures SweepInvariant(st, s0, d0, r + 1, 0)
  {
    assert forall i, j :: 0 <= j < |st.demand| ==> (Before(i, j, r, |st.demand|) <==> Before(i, j, r + 1, 0));
  }

  /** Past the last row every cell has been visited, so every cell is exhausted. */
  lemma SweepInvariantAtEnd(st: State, s0: seq<int>, d0: seq<int>, c: nat)
    requires WellFormed(st)
    requires SweepInvariant(st, s0, d0, |st.supply|, c)
    ensures Accounts(st, s0, d0) && AllCellsExhausted(st)
  {
    assert forall i, j :: 0 <= i < |st.supply| ==> Before(i, j, |st.supply|, c);
  }

  /**
   * The sweep conserves totals: for non-negative supply and demand, what each source
   * ships plus what it keeps is its original supply (likewise for destinations), and
   * afterwards every cell has its source or its destination at 0.
   */
  lemma SweepConserves(supply: seq<int>, demand: seq<int>, costs: Grid)
    requires |costs| == |supply| && IsGrid(costs, |demand|)
    requires AllNonNegative(supply) && AllNonNegative(demand)
    ensures Accounts(Sweep(supply, demand, costs), supply, demand)
    ensures AllCellsExhausted(Sweep(supply, demand, costs))
  {
    InitialConserves(supply, demand, costs);
    assert SweepInvariant(Initial(supply, demand, costs), supply, demand, 0, 0);
    SweepFromExhausts(Initial(supply, demand, costs), supply, demand, 0, 0);
  }

  /** On a balanced problem with non-negative data the sweep yields a feasible plan with nothing left over. */
  lemma SweepFeasible(supply: seq<int>, demand: seq<int>, costs: Grid)
    requires |costs| == |supply| && IsGrid(costs, |demand|)
    requires AllNonNegative(supply) && AllNonNegative(demand) && Sum(supply) == Sum(demand)
    ensures Feasible(Sweep(supply, demand, costs).answer, supply, demand)
    ensures Sum(Sweep(supply, demand, costs).supply) == 0 && Sum(Sweep(supply, demand, costs).demand) == 0
  {
    SweepConserves(supply, demand, costs);
    ExhaustedBalancedIsFeasible(Sweep(supply, demand, costs), supply, demand);
  }

  /** One cell of the sweep: the body of the inner loop, with the tie going to the supply branch. */
  method ShipAt(supply: ArrayVector, demand: ArrayVector, costs: ArrayMatrix, answer: ArrayVector,
                rowIndex: nat, columnIndex: nat, answerIndex: nat)
    requires Coherent(supply, demand, costs, answer)
    requires rowIndex < costs.rows && columnIndex < costs.cols
    requires answerIndex == rowIndex * costs.cols + columnIndex
    modifies supply.values, demand.values, answer.values
    ensures Snapshot(supply, demand, costs, answer) ==
      Transfer(old(Snapshot(supply, demand, costs, answer)), rowIndex, columnIndex)
  {
    CellIndex(costs.rows, costs.cols, rowIndex, columnIndex);
    var s := supply.GetItem(rowIndex);
    var d := demand.GetItem(columnIndex);
    var o;
    if s.value <= d.value {
      o := answer.SetItem(answerIndex, s.value);
      o := demand.SetItem(columnIndex, d.value - s.value);
      o := supply.SetItem(rowIndex, 0);
    } else {
      o := answer.SetItem(answerIndex, d.value);
      o := supply.SetItem(rowIndex, s.value - d.value);
      o := demand.SetItem(columnIndex, 0);
    }
  }

  /**
   * The North-West Corner method on the given vectors, updating supply and demand
   * in place; the answer has one entry per cell, in row-major order.
   */
  method Solve(supply: ArrayVector, demand: ArrayVector, costs: ArrayMatrix) returns (answer: ArrayVector)
    requires supply.Valid() && demand.Valid() && costs.Valid()
    requires supply.length == costs.rows && demand.length == costs.cols
    requires supply.values != demand.values
    modifies supply.values, demand.values
    ensures answer.Valid() && fresh(answer.values) && answer.length == costs.rows * costs.cols
    ensures var fin := Sweep(old(supply.values[..]), old(demand.values[..]), costs.Cells());
      && answer.values[..] == fin.answer
      && supply.values[..] == fin.supply && demand.values[..] == fin.demand
  {
    var rows, cols := costs.rows, costs.cols;
    ghost var target := Sweep(supply.values[..], demand.values[..], costs.Cells());
    answer := VectorFactory.CreateEmptyVector(rows * cols);
    var answerIndex := 0;
    var rowIndex := 0;
    while rowIndex < rows
      invariant 0 <= rowIndex <= rows
      invariant Coherent(supply, demand, costs, answer) && fresh(answer.values)
      invariant answerIndex == rowIndex * cols
      invariant SweepFrom(Snapshot(supply, demand, costs, answer), rowIndex, 0) == target
    {
      var columnIndex := 0;
      while columnIndex < cols
        invariant 0 <= columnIndex <= cols
        invariant Coherent(supply, demand, costs, answer)
        invariant answerIndex == rowIndex * cols + columnIndex
        invariant SweepFrom(Snapshot(supply, demand, costs, answer), rowIndex, columnIndex) == target
      {
        ShipAt(supply, demand, costs, answer, rowIndex, columnIndex, answerIndex);
        answerIndex := answerIndex + 1;
        columnIndex := columnIndex + 1;
      }
      rowIndex := rowIndex + 1;
    }
  }
}
