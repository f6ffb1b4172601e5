/**
 * The problem object: stored supply, demand and costs, the applicability check, and
 * the clone-then-dispatch `solve` through the chosen algorithm.
 */
module Problem {
  import opened Errors
  import opened Linear
  import opened Allocation
  import opened Implementations
  import opened Strategies
  import NorthWest
  import VogelAlgorithm
  import RusselAlgorithm

  /** The three implementations of the algorithm interface. */
  datatype AlgorithmKind = NorthWestCorner | VogelApproximation | RusselApproximation

  /** A field that may be unset (null in the source). */
  datatype Option<T> = None | Some(value: T)

  /** The problem is applicable: no negative quantity, neither total 0, and the totals balanced. */
  predicate Applicable(supply: seq<int>, demand: seq<int>) {
    && AllNonNegative(supply) && AllNonNegative(demand)
    && Sum(supply) != 0 && Sum(demand) != 0
    && Sum(supply) == Sum(demand)
  }

  function AnswerOf(res: Result<State>): (r: Result<seq<int>>)
    ensures r.Ok? <==> res.Ok?
    ensures r.Ok? ==> r.value == res.value.answer
    ensures r.Err? ==> r.error == res.error
  {
    match res
    case Ok(st) => Ok(st.answer)
    case Err(e) => Err(e)
  }

  /** What the chosen algorithm returns on the given values: an allocation per cell, or the exception. */
  function Solution(kind: AlgorithmKind, supply: seq<int>, demand: seq<int>, costs: Grid): (r: Result<seq<int>>)
    requires |supply| > 0 && |demand| > 0 && |costs| == |supply| && IsGrid(costs, |demand|)
    ensures r.Ok? ==> |r.value| == |supply| * |demand|
    ensures r.Err? ==> r.error == IndexOutOfBounds
  {
    match kind
    case NorthWestCorner => Ok(NorthWest.Sweep(supply, demand, costs).answer)
    case VogelApproximation => AnswerOf(Run(VogelAsWritten, Initial(supply, demand, costs)))
    case RusselApproximation => AnswerOf(Run(RusselCorrected, Initial(supply, demand, costs)))
  }

  /**
   * On a balanced problem with non-negative quantities and no cost equal to -1, the
   * North-West Corner and Russel's methods always return a feasible plan, and Vogel's
   * does whenever it returns at all.
   */
  lemma SolutionFeasible(kind: AlgorithmKind, supply: seq<int>, demand: seq<int>, costs: Grid)
    requires Admissible(supply, demand, costs)
    ensures kind != VogelApproximation ==> Solution(kind, supply, demand, costs).Ok?
    ensures Solution(kind, supply, demand, costs).Ok? ==>
      Feasible(Solution(kind, supply, demand, costs).value, supply, demand)
  {
    match kind
    case NorthWestCorner =>
      NorthWest.SweepFeasible(supply, demand, costs);
    case VogelApproximation =>
      VogelAsWrittenSound(supply, demand, costs);
    case RusselApproximation =>
      CorrectedRuleSolves(RusselCorrected, supply, demand, costs);
  }

  /** A problem that passes the applicability check and has no -1 cost is one the heuristics are meant for. */
  lemma ApplicableIsAdmissible(supply: seq<int>, demand: seq<int>, costs: Grid)
    requires |supply| > 0 && |demand| > 0 && |costs| == |supply| && IsGrid(costs, |demand|)
    requires forall r, c :: 0 <= r < |supply| && 0 <= c < |demand| ==> costs[r][c] != Excluded
    ensures Applicable(supply, demand) ==> Admissible(supply, demand, costs)
  {
  }

  class TransportationProblem {
    var supply: ArrayVector
    var demand: ArrayVector
    var costs: ArrayMatrix
    var algorithm: Option<AlgorithmKind>

    /** The stored objects are well formed, one supply per row and one demand per column. */
    ghost predicate Valid()
      reads this
    {
      && supply.Valid() && demand.Valid() && costs.Valid()
      && supply.length == costs.rows && demand.length == costs.cols
      && costs.rows > 0 && costs.cols > 0
    }

    /** A problem with the given data and no algorithm yet. */
    constructor (supply: ArrayVector, demand: ArrayVector, costs: ArrayMatrix)
      requires supply.Valid() && demand.Valid() && costs.Valid()
      requires supply.length == costs.rows && demand.length == costs.cols
      requires costs.rows > 0 && costs.cols > 0
      ensures Valid()
      ensures this.supply == supply && this.demand == demand && this.costs == costs
      ensures algorithm == None
    {
      this.supply := supply;
      this.demand := demand;
      this.costs := costs;
      algorithm := None;
    }

    /** Choose the algorithm; nothing else changes. */
    method SetAlgorithm(algorithm: AlgorithmKind)
      modifies this
      ensures this.algorithm == Some(algorithm)
      ensures old(Valid()) ==> Valid()
      ensures supply == old(supply) && demand == old(demand) && costs == old(costs)
    {
      this.algorithm := Some(algorithm);
    }

    /** True exactly when the problem is applicable. */
    method CheckAdditionalRestrictions() returns (ok: bool)
      requires Valid()
      ensures ok <==> Applicable(supply.values[..], demand.values[..])
    {
      var i := 0;
      while i < supply.length
        invariant 0 <= i <= supply.length
        invariant forall k :: 0 <= k < i ==> supply.values[k] >= 0
      {
        var item := supply.GetItem(i);
        if item.value < 0 {
          return false;
        }
        i := i + 1;
      }
      i := 0;
      while i < demand.length
        invariant 0 <= i <= demand.length
        invariant forall k :: 0 <= k < i ==> demand.values[k] >= 0
      {
        var item := demand.GetItem(i);
        if item.value < 0 {
          return false;
        }
        i := i + 1;
      }
      var supplySum := supply.GetSum();
      var demandSum := demand.GetSum();
      if supplySum == 0 || demandSum == 0 {
        return false;
      }
      if supplySum != demandSum {
        return false;
      }
      return true;
    }

    /**
     * Solve with the chosen algorithm on deep copies of the stored data, which is left
     * as it was; without an algorithm this is an IllegalStateException.
     */
    method Solve() returns (result: Result<ArrayVector>)
      requires Valid()
      ensures algorithm.None? ==> result == Err(IllegalState)
      ensures algorithm.Some? ==>
        var sol := Solution(algorithm.value, supply.values[..], demand.values[..], costs.Cells());
        && (result.Ok? <==> sol.Ok?)
        && (result.Err? ==> result.error == sol.error)
        && (result.Ok? ==> result.value.Valid() && fresh(result.value.values) && result.value.values[..] == sol.value)
    {
      if algorithm.None? {
        return Err(IllegalState);
      }
      var supplyClone := supply.BuildClone();
      var demandClone := demand.BuildClone();
      var costsClone := costs.BuildClone();
      match algorithm.value
      case NorthWestCorner =>
        var answer := NorthWest.Solve(supplyClone, demandClone, costsClone);
        result := Ok(answer);
      case VogelApproximation =>
        result := VogelAlgorithm.Solve(supplyClone, demandClone, costsClone);
      case RusselApproximation =>
        result := RusselAlgorithm.Solve(supplyClone, demandClone, costsClone);
    }
  }
}
