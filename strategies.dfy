/**
 * The do-while loop that Vogel's and Russel's methods share, on values: pick a cell,
 * allocate there, and stop once supply and demand are both used up.
 */
module Strategies {
  import opened Errors
  import opened Linear
  import opened Allocation
  import opened VogelSelection
  import opened RusselSelection

  /** The selection rules whose loops terminate: Vogel as written and corrected, Russel corrected. */
  datatype Rule = VogelAsWritten | VogelCorrected | RusselCorrected

  /** The cell a rule picks next; as written Vogel may find none. */
  function PickFor(rule: Rule, st: State): (p: Pick)
    requires WellFormed(st) && |st.supply| > 0 && |st.demand| > 0
    ensures p.Cell? ==> p.r < |st.supply| && p.c < |st.demand| && Live(st.costs[p.r][p.c])
    ensures rule != VogelAsWritten && HasLive(st.costs) ==> p.Cell?
  {
    var g, cols := st.costs, |st.demand|;
    match rule
    case VogelAsWritten => VogelPick(g, cols, false)
    case VogelCorrected =>
      if HasLive(g) then VogelFixedFindsCell(g, cols); VogelPick(g, cols, true) else VogelPick(g, cols, true)
    case RusselCorrected => RusselCorrectedPick(g, cols); RusselPick(g, cols, true)
  }

  /**
   * The loop: each round picks a cell and allocates there; a round that finds no cell
   * ends in the out-of-range access of the source. The loop exits after a round that
   * leaves both sums at 0. Every round excludes one live cell, so it terminates.
   */
  function Run(rule: Rule, st: State): (res: Result<State>)
    requires WellFormed(st) && |st.supply| > 0 && |st.demand| > 0
    ensures res.Err? ==> res.error == IndexOutOfBounds
    ensures res.Ok? ==> WellFormed(res.value) && |res.value.supply| == |st.supply| && |res.value.demand| == |st.demand|
    decreases LiveCount(st.costs)
  {
    match PickFor(rule, st)
    case NoCell => Err(IndexOutOfBounds)
    case Cell(r, c) =>
      var next := Allocate(st, r, c);
      ExcludeLowersLiveCount(st.costs, r, c);
      if Sum(next.supply) == 0 && Sum(next.demand) == 0 then Ok(next) else Run(rule, next)
  }

  /** Whatever a run returns satisfies the demand and supply totals: it is feasible, and nothing is left over. */
  lemma {:induction false} RunFeasible(rule: Rule, st: State, s0: seq<int>, d0: seq<int>)
    requires WellFormed(st) && |st.supply| > 0 && |st.demand| > 0
    requires Conserves(st, s0, d0)
    ensures Run(rule, st).Ok? ==> Feasible(Run(rule, st).value.answer, s0, d0)
    ensures Run(rule, st).Ok? ==> Sum(Run(rule, st).value.supply) == 0 && Sum(Run(rule, st).value.demand) == 0
    decreases LiveCount(st.costs)
  {
    match PickFor(rule, st)
    case NoCell =>
    case Cell(r, c) =>
      var next := Allocate(st, r, c);
      ExcludeLowersLiveCount(st.costs, r, c);
      AllocateConserves(st, s0, d0, r, c);
      if Sum(next.supply) == 0 && Sum(next.demand) == 0 {
        FinishedIsFeasible(next, s0, d0);
      } else {
        RunFeasible(rule, next, s0, d0);
      }
  }

  /**
   * One round of a corrected rule on a balanced state whose excluded cells are all
   * exhausted finds a cell, and the state after it is again balanced, conserving and
   * exhausted, with one live cell fewer.
   */
  lemma RoundKeepsBalance(rule: Rule, st: State, s0: seq<int>, d0: seq<int>)
    requires rule != VogelAsWritten
    requires WellFormed(st) && |st.supply| > 0 && |st.demand| > 0
    requires Conserves(st, s0, d0) && Exhausted(st) && Sum(st.supply) == Sum(st.demand)
    requires Sum(st.supply) != 0 || HasLive(st.costs)
    ensures PickFor(rule, st).Cell?
    ensures var p := PickFor(rule, st);
      var next := Allocate(st, p.r, p.c);
      && WellFormed(next) && Conserves(next, s0, d0) && Exhausted(next)
      && Sum(next.supply) == Sum(next.demand)
  {
    if Sum(st.supply) != 0 {
      PendingHasLiveCell(st);
    }
    var p := PickFor(rule, st);
    AllocateConserves(st, s0, d0, p.r, p.c);
    AllocateExhausts(st, p.r, p.c);
    AllocateTotals(st, p.r, p.c);
  }

  /**
   * With a corrected rule the run never fails on a balanced state whose excluded cells
   * are all exhausted, unless it starts with nothing live and nothing to ship.
   */
  lemma {:induction false} RunSucceeds(rule: Rule, st: State, s0: seq<int>, d0: seq<int>)
    requires rule != VogelAsWritten
    requires WellFormed(st) && |st.supply| > 0 && |st.demand| > 0
    requires Conserves(st, s0, d0) && Exhausted(st) && Sum(st.supply) == Sum(st.demand)
    requires Sum(st.supply) != 0 || HasLive(st.costs)
    ensures Run(rule, st).Ok?
    decreases LiveCount(st.costs)
  {
    RoundKeepsBalance(rule, st, s0, d0);
    var p := PickFor(rule, st);
    var next := Allocate(st, p.r, p.c);
    ExcludeLowersLiveCount(st.costs, p.r, p.c);
    if !(Sum(next.supply) == 0 && Sum(next.demand) == 0) {
      RunSucceeds(rule, next, s0, d0);
    }
  }

  /** Inputs on which the heuristics are meant to run: a balanced problem with non-negative quantities and no cost equal to the -1 marker. */
  predicate Admissible(supply: seq<int>, demand: seq<int>, costs: Grid) {
    && |supply| > 0 && |demand| > 0 && |costs| == |supply| && IsGrid(costs, |demand|)
    && AllNonNegative(supply) && AllNonNegative(demand) && Sum(supply) == Sum(demand)
    && (forall r, c :: 0 <= r < |supply| && 0 <= c < |demand| ==> Live(costs[r][c]))
  }

  /** On admissible input a corrected rule returns a feasible plan: every source ships its supply, every destination receives its demand. */
  lemma CorrectedRuleSolves(rule: Rule, supply: seq<int>, demand: seq<int>, costs: Grid)
    requires rule != VogelAsWritten && Admissible(supply, demand, costs)
    ensures Run(rule, Initial(supply, demand, costs)).Ok?
    ensures Feasible(Run(rule, Initial(supply, demand, costs)).value.answer, supply, demand)
  {
    var st := Initial(supply, demand, costs);
    InitialConserves(supply, demand, costs);
    assert Live(costs[0][0]);
    RunSucceeds(rule, st, supply, demand);
    RunFeasible(rule, st, supply, demand);
  }

  /** Vogel's method as written, when it succeeds, also returns a feasible plan. */
  lemma VogelAsWrittenSound(supply: seq<int>, demand: seq<int>, costs: Grid)
    requires Admissible(supply, demand, costs)
    ensures Run(VogelAsWritten, Initial(supply, demand, costs)).Ok? ==>
      Feasible(Run(VogelAsWritten, Initial(supply, demand, costs)).value.answer, supply, demand)
  {
    InitialConserves(supply, demand, costs);
    RunFeasible(VogelAsWritten, Initial(supply, demand, costs), supply, demand);
  }
}
