/**
 * The objects a heuristic works on, seen as one `State`, and the allocation step that
 * Vogel's and Russel's methods perform on them in place.
 */
module Allocator {
  import opened Errors
  import opened Linear
  import opened Allocation
  import opened Implementations

  /** The supply, demand, costs and answer objects read as a state. */
  ghost function Snapshot(supply: ArrayVector, demand: ArrayVector, costs: ArrayMatrix, answer: ArrayVector): State
    requires costs.Valid()
    reads supply.values, demand.values, costs.values, answer.values
  {
    State(supply.values[..], demand.values[..], costs.Cells(), answer.values[..])
  }

  /** The objects fit together: dimensions agree and no two vectors share storage. */
  ghost predicate Coherent(supply: ArrayVector, demand: ArrayVector, costs: ArrayMatrix, answer: ArrayVector) {
    && supply.Valid() && demand.Valid() && costs.Valid() && answer.Valid()
    && supply.length == costs.rows && demand.length == costs.cols && answer.length == costs.rows * costs.cols
    && supply.values != demand.values && supply.values != answer.values && demand.values != answer.values
  }

  lemma CoherentWellFormed(supply: ArrayVector, demand: ArrayVector, costs: ArrayMatrix, answer: ArrayVector)
    requires Coherent(supply, demand, costs, answer)
    ensures WellFormed(Snapshot(supply, demand, costs, answer))
  {
  }

  /**
   * The allocation step at (r, c): allocate min(supply[r], demand[c]), subtract it from
   * both, mark the cost -1 and record the amount at r * cols + c. Reading supply[r] or
   * demand[c] out of range throws before anything is written.
   */
  method AllocateAt(supply: ArrayVector, demand: ArrayVector, costs: ArrayMatrix, answer: ArrayVector, r: int, c: int)
    returns (o: Outcome)
    requires Coherent(supply, demand, costs, answer)
    modifies supply.values, demand.values, costs.values, answer.values
    ensures Coherent(supply, demand, costs, answer)
    ensures o.Pass? <==> 0 <= r < costs.rows && 0 <= c < costs.cols
    ensures o.Fail? ==> o.error == IndexOutOfBounds
    ensures o.Fail? ==> Snapshot(supply, demand, costs, answer) == old(Snapshot(supply, demand, costs, answer))
    ensures o.Pass? ==> Snapshot(supply, demand, costs, answer) == Allocate(old(Snapshot(supply, demand, costs, answer)), r, c)
  {
    ghost var st := Snapshot(supply, demand, costs, answer);
    var s := supply.GetItem(r);
    if s.Err? {
      return Fail(s.error);
    }
    var d := demand.GetItem(c);
    if d.Err? {
      return Fail(d.error);
    }
    CellIndex(costs.rows, costs.cols, r, c);
    var allocate := Min(s.value, d.value);
    o := supply.SetItem(r, s.value - allocate);
    o := demand.SetItem(c, d.value - allocate);
    o := costs.SetItem(r, c, Excluded);
    o := answer.SetItem(r * costs.cols + c, allocate);
    assert Snapshot(supply, demand, costs, answer) ==
      State(st.supply[r := st.supply[r] - allocate], st.demand[c := st.demand[c] - allocate],
            st.costs[r := st.costs[r][c := Excluded]], st.answer[r * costs.cols + c := allocate]);
  }
}
