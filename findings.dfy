/**
 * Two inputs on which the selection rules as written go wrong, and the corrected rules
 * that the imperative methods are checked against.
 */
module Findings {
  import opened Errors
  import opened Linear
  import opened Allocation
  import opened VogelSelection
  import opened RusselSelection
  import opened Strategies

  /** The states Vogel's method as written passes through on the example of `VogelAsWrittenFails`. */
  function VogelStart(): State {
    State([2, 2], [1, 1, 2], [[1, 5, 5], [1, 5, 5]], [0, 0, 0, 0, 0, 0])
  }

  function VogelAfterOne(): State {
    State([1, 2], [0, 1, 2], [[-1, 5, 5], [1, 5, 5]], [1, 0, 0, 0, 0, 0])
  }

  function VogelAfterTwo(): State {
    State([1, 2], [0, 1, 2], [[-1, 5, 5], [-1, 5, 5]], [1, 0, 0, 0, 0, 0])
  }

  /** The penalties of round 1: 4 for each row, 0 for each column. */
  lemma VogelPenaltiesOne()
    ensures var g := VogelStart().costs;
      && Penalties(g, false) == [4, 4]
      && Penalties(Transpose(g, 3), false) == [0, 0, 0]
  {
    var g := VogelStart().costs;
    PenaltyOfTwoLive(g[0], 0, 1);
    PenaltyOfTwoLive(g[1], 0, 1);
    assert Column(g, 0) == [1, 1] && Column(g, 1) == [5, 5] && Column(g, 2) == [5, 5];
    var t := Transpose(g, 3);
    assert t == [[1, 1], [5, 5], [5, 5]];
    PenaltyOfTwoLive(t[0], 0, 1);
    PenaltyOfTwoLive(t[1], 0, 1);
    PenaltyOfTwoLive(t[2], 0, 1);
  }

  /** Round 1: row penalties 4, 4 beat column penalties 0, 0, 0; row 0 is served at its cheapest cell. */
  lemma VogelRoundOne()
    ensures WellFormed(VogelStart())
    ensures VogelPick(VogelStart().costs, 3, false) == Cell(0, 0)
  {
    var g := VogelStart().costs;
    VogelPenaltiesOne();
    assert FirstMaxIndex([4, 4]) == 0;
    assert FirstMaxIndex([0, 0, 0]) == 0;
    assert MaskedMinIndex(g[0], g[0]) == 0;
  }

  /** The allocation of round 1: one unit at (0, 0), which exhausts destination 0. */
  lemma VogelAllocationOne()
    ensures WellFormed(VogelStart())
    ensures Allocate(VogelStart(), 0, 0) == VogelAfterOne()
  {
    var n := Allocate(VogelStart(), 0, 0);
    assert Min(2, 1) == 1;
    assert n.supply == [1, 2] && n.demand == [0, 1, 2];
    assert n.costs[0] == [-1, 5, 5] && n.costs[1] == [1, 5, 5];
    assert n.costs == [[-1, 5, 5], [1, 5, 5]];
    assert n.answer == [1, 0, 0, 0, 0, 0];
  }

  /** The penalties of round 2: 0 and 4 for the rows, MAX_VALUE - 1, 0, 0 for the columns. */
  lemma VogelPenaltiesTwo()
    ensures var g := VogelAfterOne().costs;
      && Penalties(g, false) == [0, 4]
      && Penalties(Transpose(g, 3), false) == [IntMax - 1, 0, 0]
  {
    var g := VogelAfterOne().costs;
    PenaltyOfTwoLive(g[0], 1, 2);
    PenaltyOfTwoLive(g[1], 0, 1);
    assert Column(g, 0) == [-1, 1] && Column(g, 1) == [5, 5] && Column(g, 2) == [5, 5];
    var t := Transpose(g, 3);
    assert t == [[-1, 1], [5, 5], [5, 5]];
    PenaltyOfSingleLive(t[0], 1);
    PenaltyOfTwoLive(t[1], 0, 1);
    PenaltyOfTwoLive(t[2], 0, 1);
  }

  /** Round 2: column 0 has one live cost, so its penalty MAX_VALUE - 1 wins; its live cell is (1, 0). */
  lemma VogelRoundTwo()
    ensures WellFormed(VogelAfterOne())
    ensures VogelPick(VogelAfterOne().costs, 3, false) == Cell(1, 0)
  {
    var g := VogelAfterOne().costs;
    VogelPenaltiesTwo();
    assert FirstMaxIndex([0, 4]) == 1;
    assert FirstMaxIndex([IntMax - 1, 0, 0]) == 0;
    assert MaskedMinIndex(Column(g, 0), Column(g, 0)) == 1 by {
      assert Column(g, 0) == [-1, 1];
    }
  }

  /** The allocation of round 2: nothing is left for destination 0, so 0 units go to (1, 0). */
  lemma VogelAllocationTwo()
    ensures WellFormed(VogelAfterOne())
    ensures Allocate(VogelAfterOne(), 1, 0) == VogelAfterTwo()
  {
    var n := Allocate(VogelAfterOne(), 1, 0);
    assert Min(2, 0) == 0;
    assert n.supply == [1, 2] && n.demand == [0, 1, 2];
    assert n.costs[0] == [-1, 5, 5] && n.costs[1] == [-1, 5, 5];
    assert n.costs == [[-1, 5, 5], [-1, 5, 5]];
    assert n.answer == [1, 0, 0, 0, 0, 0];
  }

  /** The penalties of round 3: 0 everywhere, the fully excluded column 0 included. */
  lemma VogelPenaltiesThree()
    ensures var g := VogelAfterTwo().costs;
      && Penalties(g, false) == [0, 0]
      && Penalties(Transpose(g, 3), false) == [0, 0, 0]
  {
    var g := VogelAfterTwo().costs;
    PenaltyOfTwoLive(g[0], 1, 2);
    PenaltyOfTwoLive(g[1], 1, 2);
    assert Column(g, 0) == [-1, -1] && Column(g, 1) == [5, 5] && Column(g, 2) == [5, 5];
    var t := Transpose(g, 3);
    assert t == [[-1, -1], [5, 5], [5, 5]];
    PenaltyOfExcludedLine(t[0]);
    PenaltyOfTwoLive(t[1], 0, 1);
    PenaltyOfTwoLive(t[2], 0, 1);
  }

  /** Round 3: every penalty is 0, the tie goes to the columns, and column 0 has nothing live. */
  lemma VogelRoundThree()
    ensures WellFormed(VogelAfterTwo())
    ensures VogelPick(VogelAfterTwo().costs, 3, false) == NoCell
  {
    var g := VogelAfterTwo().costs;
    VogelPenaltiesThree();
    assert FirstMaxIndex([0, 0]) == 0;
    assert FirstMaxIndex([0, 0, 0]) == 0;
    assert MaskedMinIndex(Column(g, 0), Column(g, 0)) == -1 by {
      assert Column(g, 0) == [-1, -1];
      assert NoLive(Column(g, 0));
    }
  }

  /**
   * Vogel as written fails on a balanced problem. After two rounds the first column is
   * fully excluded, so its penalty is MAX_VALUE - MAX_VALUE = 0; every other penalty is
   * 0 as well, the tie goes to the columns, the first column is chosen, it has no live
   * cell and minIndex stays -1, so the next access is out of range.
   */
  lemma VogelAsWrittenFails()
    ensures WellFormed(VogelStart())
    ensures Run(VogelAsWritten, VogelStart()) == Err(IndexOutOfBounds)
  {
    assert Run(VogelAsWritten, VogelAfterTwo()) == Err(IndexOutOfBounds) by {
      VogelRoundThree();
    }
    assert Run(VogelAsWritten, VogelAfterOne()) == Run(VogelAsWritten, VogelAfterTwo()) by {
      VogelRoundTwo();
      VogelAllocationTwo();
      assert Sum(VogelAfterTwo().supply) == 3;
    }
    assert Run(VogelAsWritten, VogelStart()) == Run(VogelAsWritten, VogelAfterOne()) by {
      VogelRoundOne();
      VogelAllocationOne();
      assert Sum(VogelAfterOne().supply) == 3;
    }
  }

  /** The example is an admissible problem, and with the corrected penalty Vogel's method solves it. */
  lemma VogelCorrectedSolvesExample()
    ensures Initial([2, 2], [1, 1, 2], [[1, 5, 5], [1, 5, 5]]) == VogelStart()
    ensures Admissible(VogelStart().supply, VogelStart().demand, VogelStart().costs)
    ensures Run(VogelCorrected, VogelStart()).Ok?
    ensures Feasible(Run(VogelCorrected, VogelStart()).value.answer, [2, 2], [1, 1, 2])
  {
    var st := Initial([2, 2], [1, 1, 2], [[1, 5, 5], [1, 5, 5]]);
    assert st.answer == [0, 0, 0, 0, 0, 0];
    assert st == VogelStart();
    assert Sum(st.supply) == 4 && Sum(st.demand) == 4;
    CorrectedRuleSolves(VogelCorrected, [2, 2], [1, 1, 2], [[1, 5, 5], [1, 5, 5]]);
  }

  /** The states Russel's method as written passes through on the example of `RusselAsWrittenStalls`. */
  function RusselStart(): State {
    State([1, 1], [1, 1], [[0, 0], [0, 0]], [0, 0, 0, 0])
  }

  function RusselAfterOne(): State {
    State([0, 1], [0, 1], [[-1, 0], [0, 0]], [1, 0, 0, 0])
  }

  function RusselAfterTwo(): State {
    State([0, 1], [0, 1], [[-1, 0], [0, 0]], [0, 0, 0, 0])
  }

  /** With only 0 and -1 costs every score is 0, so the as-written choice is the corner cell (0, 0), live or not. */
  lemma ZeroCostsPickCorner(st: State)
    requires WellFormed(st) && |st.supply| > 0 && |st.demand| > 0
    requires forall r, c :: 0 <= r < |st.supply| && 0 <= c < |st.demand| ==> st.costs[r][c] in {0, Excluded}
    ensures RusselPick(st.costs, |st.demand|, false) == Cell(0, 0)
  {
    ZeroCostScores(st.costs, |st.demand|);
    RusselAsWrittenPick(st.costs, |st.demand|);
    assert IsFirstMinCell(RusselScores(st.costs, |st.demand|), |st.demand|, 0, 0);
  }

  /** Round 1 ships one unit at (0, 0); round 2 returns to (0, 0) and ships 0 there. */
  lemma RusselAllocations()
    ensures WellFormed(RusselStart()) && WellFormed(RusselAfterOne())
    ensures Allocate(RusselStart(), 0, 0) == RusselAfterOne()
    ensures Allocate(RusselAfterOne(), 0, 0) == RusselAfterTwo()
    ensures Allocate(RusselAfterTwo(), 0, 0) == RusselAfterTwo()
  {
    var n := Allocate(RusselStart(), 0, 0);
    assert n.costs[0] == [-1, 0] && n.costs[1] == [0, 0];
    assert n.answer == [1, 0, 0, 0];
    var m := Allocate(RusselAfterOne(), 0, 0);
    assert m.costs[0] == [-1, 0] && m.costs[1] == [0, 0];
    assert m.answer == [0, 0, 0, 0];
    var k := Allocate(RusselAfterTwo(), 0, 0);
    assert k.costs[0] == [-1, 0] && k.costs[1] == [0, 0];
    assert k.answer == [0, 0, 0, 0];
  }

  /**
   * Russel as written on a balanced problem whose costs are all 0. Excluded cells keep
   * score 0, which ties with every live score, so the row-major first cell (0, 0) is
   * chosen again in round 2: it allocates 0 there, overwriting the 1 recorded in round 1.
   */
  lemma RusselAsWrittenRevisits()
    ensures WellFormed(RusselStart()) && WellFormed(RusselAfterOne())
    ensures RusselPick(RusselStart().costs, 2, false) == Cell(0, 0) && Allocate(RusselStart(), 0, 0) == RusselAfterOne()
    ensures RusselPick(RusselAfterOne().costs, 2, false) == Cell(0, 0) && Allocate(RusselAfterOne(), 0, 0) == RusselAfterTwo()
    ensures RusselAfterOne().answer == [1, 0, 0, 0] && RusselAfterTwo().answer == [0, 0, 0, 0]
  {
    RusselAllocations();
    ZeroCostsPickCorner(RusselStart());
    ZeroCostsPickCorner(RusselAfterOne());
  }

  /**
   * From round 2 on, the as-written loop is stuck: the state after round 2 picks (0, 0)
   * again and allocating there returns the same state, while one unit of supply and of
   * demand is still unshipped, so the exit test never succeeds.
   */
  lemma RusselAsWrittenStalls()
    ensures WellFormed(RusselAfterTwo())
    ensures RusselPick(RusselAfterTwo().costs, 2, false) == Cell(0, 0) && Allocate(RusselAfterTwo(), 0, 0) == RusselAfterTwo()
    ensures Sum(RusselAfterTwo().supply) == 1 && Sum(RusselAfterTwo().demand) == 1
  {
    RusselAllocations();
    ZeroCostsPickCorner(RusselAfterTwo());
  }

  /** The example is an admissible problem, and the corrected rule, which only considers live cells, solves it. */
  lemma RusselCorrectedSolvesExample()
    ensures Initial([1, 1], [1, 1], [[0, 0], [0, 0]]) == RusselStart()
    ensures Admissible(RusselStart().supply, RusselStart().demand, RusselStart().costs)
    ensures Run(RusselCorrected, RusselStart()).Ok?
    ensures Feasible(Run(RusselCorrected, RusselStart()).value.answer, [1, 1], [1, 1])
  {
    assert Sum(RusselStart().supply) == 2 && Sum(RusselStart().demand) == 2;
    var st0 := Initial([1, 1], [1, 1], [[0, 0], [0, 0]]);
    assert st0.answer == [0, 0, 0, 0];
    assert st0 == RusselStart();
    CorrectedRuleSolves(RusselCorrected, [1, 1], [1, 1], [[0, 0], [0, 0]]);
  }
}
