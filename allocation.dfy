/**
 * The bookkeeping shared by the three heuristics, on values: the problem state,
 * the flattened allocation vector and its grid view, the single allocation step,
 * and the invariants that step preserves.
 */
module Allocation {
  import opened Linear

  /** Integer.MAX_VALUE and Integer.MIN_VALUE, the starting values of the running min and max. */
  const IntMax: int := 0x7fff_ffff
  const IntMin: int := -0x8000_0000

  /** The cost value that marks a cell as already allocated. */
  const Excluded: int := -1

  predicate Live(v: int) {
    v != Excluded
  }

  /** A line (row or column) whose every cell is excluded. */
  predicate NoLive(line: seq<int>) {
    forall j :: 0 <= j < |line| ==> !Live(line[j])
  }

  function Min(a: int, b: int): int {
    if a <= b then a else b
  }

  /**
   * What the heuristics mutate: supply per source, demand per destination, the cost grid
   * (cells set to `Excluded` as they are used) and the row-major allocation vector.
   */
  datatype State = State(supply: seq<int>, demand: seq<int>, costs: Grid, answer: seq<int>)

  predicate WellFormed(st: State) {
    && |st.costs| == |st.supply|
    && IsGrid(st.costs, |st.demand|)
    && |st.answer| == |st.supply| * |st.demand|
  }

  /** The state a heuristic starts from: the inputs and an all-zero allocation vector. */
  function Initial(supply: seq<int>, demand: seq<int>, costs: Grid): (st: State)
    requires |costs| == |supply| && IsGrid(costs, |demand|)
    ensures WellFormed(st)
  {
    State(supply, demand, costs, seq(|supply| * |demand|, _ => 0))
  }

  /** a <= b implies a * k <= b * k for a non-negative k. */
  lemma {:induction false} MulMonotone(a: nat, b: nat, k: nat)
    requires a <= b
    ensures a * k <= b * k
    decreases b - a
  {
    if a < b {
      MulMonotone(a, b - 1, k);
      assert (b - 1) * k + k == b * k;
    }
  }

  /** The row-major index of a cell lies inside the allocation vector. */
  lemma CellIndex(rows: nat, cols: nat, r: nat, c: nat)
    requires r < rows && c < cols
    ensures r * cols + c < rows * cols
  {
    MulMonotone(r + 1, rows, cols);
    assert (r + 1) * cols == r * cols + cols;
  }

  /** Distinct cells have distinct row-major indices. */
  lemma CellIndexInjective(cols: nat, r: nat, c: nat, r2: nat, c2: nat)
    requires c < cols && c2 < cols
    requires r * cols + c == r2 * cols + c2
    ensures r == r2 && c == c2
  {
    if r < r2 {
      assert (r + 1) * cols == r * cols + cols;
      MulMonotone(r + 1, r2, cols);
    } else if r2 < r {
      assert (r2 + 1) * cols == r2 * cols + cols;
      MulMonotone(r2 + 1, r, cols);
    }
  }

  /** The allocation vector read as a rows x cols grid: cell (r, c) is entry r * cols + c. */
  function Plan(x: seq<int>, rows: nat, cols: nat): (g: Grid)
    requires |x| == rows * cols
    ensures |g| == rows && IsGrid(g, cols)
  {
    seq(rows, r requires 0 <= r < rows =>
      seq(cols, c requires 0 <= c < cols => CellIndex(rows, cols, r, c); x[r * cols + c]))
  }

  /** Writing entry r * cols + c of the vector writes cell (r, c) of its grid view. */
  lemma PlanUpdate(x: seq<int>, rows: nat, cols: nat, r: nat, c: nat, v: int)
    requires |x| == rows * cols && r < rows && c < cols
    ensures r * cols + c < |x|
    ensures Plan(x[r * cols + c := v], rows, cols) == Plan(x, rows, cols)[r := Plan(x, rows, cols)[r][c := v]]
  {
    CellIndex(rows, cols, r, c);
    var g, h := Plan(x, rows, cols), Plan(x[r * cols + c := v], rows, cols);
    var e := g[r := g[r][c := v]];
    forall i | 0 <= i < rows ensures h[i] == e[i] {
      forall j | 0 <= j < cols ensures h[i][j] == e[i][j] {
        CellIndex(rows, cols, i, j);
        if i * cols + j == r * cols + c {
          CellIndexInjective(cols, i, j, r, c);
        }
      }
    }
  }

  /** Amount shipped from source r: the sum of row r of the plan. */
  function Shipped(x: seq<int>, rows: nat, cols: nat, r: nat): int
    requires |x| == rows * cols && r < rows
  {
    Sum(Plan(x, rows, cols)[r])
  }

  /** Amount received by destination c: the sum of column c of the plan. */
  function Received(x: seq<int>, rows: nat, cols: nat, c: nat): int
    requires |x| == rows * cols && c < cols
  {
    Sum(Column(Plan(x, rows, cols), c))
  }

  /**
   * A basic feasible solution's defining property: every shipment is non-negative,
   * source r ships exactly supply[r] and destination c receives exactly demand[c].
   */
  predicate Feasible(x: seq<int>, supply: seq<int>, demand: seq<int>) {
    && |x| == |supply| * |demand|
    && AllNonNegative(x)
    && (forall r :: 0 <= r < |supply| ==> Shipped(x, |supply|, |demand|, r) == supply[r])
    && (forall c :: 0 <= c < |demand| ==> Received(x, |supply|, |demand|, c) == demand[c])
  }

  /**
   * Bookkeeping relative to the original supply s0 and demand d0: quantities stay
   * non-negative, and what source r has shipped plus what it still holds is s0[r]
   * (likewise for destinations).
   */
  predicate Accounts(st: State, s0: seq<int>, d0: seq<int>)
    requires WellFormed(st)
  {
    var rows, cols := |st.supply|, |st.demand|;
    && |s0| == rows && |d0| == cols
    && AllNonNegative(st.supply) && AllNonNegative(st.demand) && AllNonNegative(st.answer)
    && (forall r :: 0 <= r < rows ==> Shipped(st.answer, rows, cols, r) + st.supply[r] == s0[r])
    && (forall c :: 0 <= c < cols ==> Received(st.answer, rows, cols, c) + st.demand[c] == d0[c])
  }

  /** The invariant of Vogel's and Russel's methods: the bookkeeping holds and no live cell has received anything yet. */
  predicate Conserves(st: State, s0: seq<int>, d0: seq<int>)
    requires WellFormed(st)
  {
    && Accounts(st, s0, d0)
    && (forall r, c :: 0 <= r < |st.supply| && 0 <= c < |st.demand| && Live(st.costs[r][c]) ==>
          Plan(st.answer, |st.supply|, |st.demand|)[r][c] == 0)
  }

  /** Every cell has its source or its destination exhausted. */
  predicate AllCellsExhausted(st: State) {
    forall r, c :: 0 <= r < |st.supply| && 0 <= c < |st.demand| ==> st.supply[r] == 0 || st.demand[c] == 0
  }

  /** Every excluded cell has its source or its destination exhausted. */
  predicate Exhausted(st: State)
    requires WellFormed(st)
  {
    forall r, c :: 0 <= r < |st.supply| && 0 <= c < |st.demand| && !Live(st.costs[r][c]) ==>
      st.supply[r] == 0 || st.demand[c] == 0
  }

  predicate HasLive(g: Grid) {
    exists r, c :: 0 <= r < |g| && 0 <= c < |g[r]| && Live(g[r][c])
  }

  /** A heuristic's choice of the next cell, or none when the chosen line has no live cell. */
  datatype Pick = Cell(r: nat, c: nat) | NoCell

  /**
   * The first index j whose mask entry mask[j] is live and whose value is least among
   * those, or -1 when every mask entry is excluded: a left-to-right scan that replaces
   * its candidate only on a strictly smaller value.
   */
  function MaskedMinIndex(values: seq<int>, mask: seq<int>): (k: int)
    requires |values| == |mask|
    ensures -1 <= k < |values|
    ensures k == -1 <==> NoLive(mask)
    ensures k >= 0 ==> Live(mask[k])
    ensures k >= 0 ==> forall j :: 0 <= j < |values| && Live(mask[j]) ==> values[k] <= values[j]
    ensures k >= 0 ==> forall j :: 0 <= j < k && Live(mask[j]) ==> values[k] < values[j]
    decreases |values|
  {
    if |values| == 0 then -1
    else
      var n := |values| - 1;
      var k := MaskedMinIndex(values[..n], mask[..n]);
      if !Live(mask[n]) then k
      else if k == -1 then n
      else if values[n] < values[k] then n
      else k
  }

  /** Number of live cells in a line. */
  function LiveInLine(line: seq<int>): nat
    decreases |line|
  {
    if |line| == 0 then 0 else LiveInLine(line[..|line| - 1]) + (if Live(line[|line| - 1]) then 1 else 0)
  }

  /** Number of live cells in a grid: the measure every Vogel and Russel step decreases. */
  function LiveCount(g: Grid): nat
    decreases |g|
  {
    if |g| == 0 then 0 else LiveCount(g[..|g| - 1]) + LiveInLine(g[|g| - 1])
  }

  lemma {:induction false} LiveInLineExclude(line: seq<int>, j: nat)
    requires j < |line| && Live(line[j])
    ensures LiveInLine(line[j := Excluded]) == LiveInLine(line) - 1
    decreases |line|
  {
    var t := line[j := Excluded];
    if j == |line| - 1 {
      assert t[..|t| - 1] == line[..|line| - 1];
    } else {
      assert t[..|t| - 1] == line[..|line| - 1][j := Excluded];
      LiveInLineExclude(line[..|line| - 1], j);
    }
  }

  lemma {:induction false} LiveCountReplaceRow(g: Grid, r: nat, row: seq<int>)
    requires r < |g|
    ensures LiveCount(g[r := row]) == LiveCount(g) - LiveInLine(g[r]) + LiveInLine(row)
    decreases |g|
  {
    var h := g[r := row];
    if r == |g| - 1 {
      assert h[..|h| - 1] == g[..|g| - 1];
    } else {
      assert h[..|h| - 1] == g[..|g| - 1][r := row];
      LiveCountReplaceRow(g[..|g| - 1], r, row);
    }
  }

  /** Excluding a live cell lowers the live count by exactly one. */
  lemma ExcludeLowersLiveCount(g: Grid, r: nat, c: nat)
    requires r < |g| && c < |g[r]| && Live(g[r][c])
    ensures LiveCount(g[r := g[r][c := Excluded]]) == LiveCount(g) - 1
  {
    LiveInLineExclude(g[r], c);
    LiveCountReplaceRow(g, r, g[r][c := Excluded]);
  }

  /**
   * Shipping at cell (r, c): move min(supply[r], demand[c]), take it off both and record
   * it at index r * cols + c. When supply[r] <= demand[c] this is the whole supply (the
   * branch taken on a tie), otherwise the whole demand; both branches move the minimum.
   */
  function Transfer(st: State, r: nat, c: nat): (next: State)
    requires WellFormed(st) && r < |st.supply| && c < |st.demand|
    ensures WellFormed(next) && next.costs == st.costs
    ensures |next.supply| == |st.supply| && |next.demand| == |st.demand|
    ensures next.supply[r] == 0 || next.demand[c] == 0
    ensures st.supply[r] >= 0 && st.demand[c] >= 0 ==> next.supply[r] >= 0 && next.demand[c] >= 0
  {
    var amount := Min(st.supply[r], st.demand[c]);
    CellIndex(|st.supply|, |st.demand|, r, c);
    State(st.supply[r := st.supply[r] - amount],
          st.demand[c := st.demand[c] - amount],
          st.costs,
          st.answer[r * |st.demand| + c := amount])
  }

  /**
   * Apart from the touched entries nothing changes: the other supplies, demands and
   * allocations keep their values; both quantities drop by the amount, which is
   * recorded at index r * cols + c.
   */
  lemma TransferFrame(st: State, r: nat, c: nat)
    requires WellFormed(st) && r < |st.supply| && c < |st.demand|
    ensures var next, amount := Transfer(st, r, c), Min(st.supply[r], st.demand[c]);
      && r * |st.demand| + c < |st.answer|
      && next.supply[r] == st.supply[r] - amount && next.demand[c] == st.demand[c] - amount
      && next.answer[r * |st.demand| + c] == amount
      && (forall i :: 0 <= i < |st.supply| && i != r ==> next.supply[i] == st.supply[i])
      && (forall j :: 0 <= j < |st.demand| && j != c ==> next.demand[j] == st.demand[j])
      && (forall k :: 0 <= k < |st.answer| && k != r * |st.demand| + c ==> next.answer[k] == st.answer[k])
  {
    CellIndex(|st.supply|, |st.demand|, r, c);
  }

  /**
   * The step shared by Vogel's and Russel's methods at cell (r, c): ship as in `Transfer`
   * and exclude the cell; no other cost changes.
   */
  function Allocate(st: State, r: nat, c: nat): (next: State)
    requires WellFormed(st) && r < |st.supply| && c < |st.demand|
    ensures WellFormed(next)
    ensures |next.supply| == |st.supply| && |next.demand| == |st.demand|
    ensures next.supply[r] == 0 || next.demand[c] == 0
    ensures next.costs[r][c] == Excluded
    ensures forall i, j :: 0 <= i < |st.supply| && 0 <= j < |st.demand| && (i != r || j != c) ==>
      next.costs[i][j] == st.costs[i][j]
  {
    var shipped := Transfer(st, r, c);
    shipped.(costs := st.costs[r := st.costs[r][c := Excluded]])
  }

  /** Column c of a grid after one cell of it is rewritten. */
  lemma ColumnAfterWrite(g: Grid, cols: nat, r: nat, c: nat, v: int, j: nat)
    requires IsGrid(g, cols) && r < |g| && c < cols && j < cols
    ensures Column(g[r := g[r][c := v]], j) == if j == c then Column(g, j)[r := v] else Column(g, j)
  {
  }

  /** Shipping at a cell that has received nothing yet keeps the bookkeeping. */
  lemma TransferAccounts(st: State, s0: seq<int>, d0: seq<int>, r: nat, c: nat)
    requires WellFormed(st) && r < |st.supply| && c < |st.demand|
    requires Accounts(st, s0, d0) && Plan(st.answer, |st.supply|, |st.demand|)[r][c] == 0
    ensures Accounts(Transfer(st, r, c), s0, d0)
  {
    var rows, cols := |st.supply|, |st.demand|;
    var next := Transfer(st, r, c);
    var amount := Min(st.supply[r], st.demand[c]);
    TransferFrame(st, r, c);
    var g := Plan(st.answer, rows, cols);
    PlanUpdate(st.answer, rows, cols, r, c, amount);
    assert Plan(next.answer, rows, cols) == g[r := g[r][c := amount]];
    forall i | 0 <= i < rows
      ensures Shipped(next.answer, rows, cols, i) + next.supply[i] == s0[i]
    {
      if i == r {
        SumUpdate(g[r], c, amount);
      }
    }
    forall j | 0 <= j < cols
      ensures Received(next.answer, rows, cols, j) + next.demand[j] == d0[j]
    {
      ColumnAfterWrite(g, cols, r, c, amount, j);
      if j == c {
        SumUpdate(Column(g, j), r, amount);
      }
    }
  }

  /** Allocating at a live cell preserves the invariant of Vogel's and Russel's methods. */
  lemma AllocateConserves(st: State, s0: seq<int>, d0: seq<int>, r: nat, c: nat)
    requires WellFormed(st) && r < |st.supply| && c < |st.demand|
    requires Conserves(st, s0, d0) && Live(st.costs[r][c])
    ensures Conserves(Allocate(st, r, c), s0, d0)
  {
    var rows, cols := |st.supply|, |st.demand|;
    TransferAccounts(st, s0, d0, r, c);
    TransferFrame(st, r, c);
    PlanUpdate(st.answer, rows, cols, r, c, Min(st.supply[r], st.demand[c]));
  }

  /** Allocating at any cell keeps every exhausted-line fact and adds one for the cell. */
  lemma AllocateExhausts(st: State, r: nat, c: nat)
    requires WellFormed(st) && r < |st.supply| && c < |st.demand|
    requires AllNonNegative(st.supply) && AllNonNegative(st.demand) && Exhausted(st)
    ensures Exhausted(Allocate(st, r, c))
  {
    TransferFrame(st, r, c);
  }

  /** Both totals drop by the allocated amount, so a balanced state stays balanced. */
  lemma AllocateTotals(st: State, r: nat, c: nat)
    requires WellFormed(st) && r < |st.supply| && c < |st.demand|
    ensures Sum(Allocate(st, r, c).supply) == Sum(st.supply) - Min(st.supply[r], st.demand[c])
    ensures Sum(Allocate(st, r, c).demand) == Sum(st.demand) - Min(st.supply[r], st.demand[c])
  {
    var amount := Min(st.supply[r], st.demand[c]);
    SumUpdate(st.supply, r, st.supply[r] - amount);
    SumUpdate(st.demand, c, st.demand[c] - amount);
  }

  /** The start state satisfies the invariants: nothing shipped, and no cell excluded when no cost is -1. */
  lemma InitialConserves(supply: seq<int>, demand: seq<int>, costs: Grid)
    requires |costs| == |supply| && IsGrid(costs, |demand|)
    requires AllNonNegative(supply) && AllNonNegative(demand)
    ensures Conserves(Initial(supply, demand, costs), supply, demand)
    ensures forall r, c :: 0 <= r < |supply| && 0 <= c < |demand| ==>
      Plan(Initial(supply, demand, costs).answer, |supply|, |demand|)[r][c] == 0
    ensures (forall r, c :: 0 <= r < |costs| && 0 <= c < |demand| ==> Live(costs[r][c])) ==>
      Exhausted(Initial(supply, demand, costs))
  {
    var rows, cols := |supply|, |demand|;
    var st := Initial(supply, demand, costs);
    var g := Plan(st.answer, rows, cols);
    forall r, c | 0 <= r < rows && 0 <= c < cols ensures g[r][c] == 0 {
      CellIndex(rows, cols, r, c);
    }
    forall r | 0 <= r < rows ensures Shipped(st.answer, rows, cols, r) == 0 {
      SumZeroIffAllZero(g[r]);
    }
    forall c | 0 <= c < cols ensures Received(st.answer, rows, cols, c) == 0 {
      SumZeroIffAllZero(Column(g, c));
    }
  }

  /** Once both totals are 0 the invariant makes the allocation vector feasible. */
  lemma FinishedIsFeasible(st: State, s0: seq<int>, d0: seq<int>)
    requires WellFormed(st) && Accounts(st, s0, d0)
    requires Sum(st.supply) == 0 && Sum(st.demand) == 0
    ensures Feasible(st.answer, s0, d0)
  {
    SumZeroIffAllZero(st.supply);
    SumZeroIffAllZero(st.demand);
  }

  /**
   * With every excluded cell exhausted and the totals balanced, a non-zero total means
   * some cell is still live.
   */
  lemma PendingHasLiveCell(st: State)
    requires WellFormed(st) && AllNonNegative(st.supply) && AllNonNegative(st.demand)
    requires Exhausted(st) && Sum(st.supply) == Sum(st.demand) && Sum(st.supply) != 0
    ensures HasLive(st.costs)
  {
    SumZeroIffAllZero(st.supply);
    SumZeroIffAllZero(st.demand);
    var r :| 0 <= r < |st.supply| && st.supply[r] != 0;
    var c :| 0 <= c < |st.demand| && st.demand[c] != 0;
    assert Live(st.costs[r][c]);
  }

  /** Original total supply = everything shipped + what is left; likewise for demand. */
  lemma AccountsTotals(st: State, s0: seq<int>, d0: seq<int>)
    requires WellFormed(st) && Accounts(st, s0, d0)
    ensures var g := Plan(st.answer, |st.supply|, |st.demand|);
      && Sum(s0) == Sum(RowSums(g)) + Sum(st.supply)
      && Sum(d0) == Sum(ColumnSums(g, |st.demand|)) + Sum(st.demand)
  {
    var rows, cols := |st.supply|, |st.demand|;
    var g := Plan(st.answer, rows, cols);
    assert s0 == VAdd(RowSums(g), st.supply) by {
      forall r | 0 <= r < rows ensures s0[r] == VAdd(RowSums(g), st.supply)[r] {
        assert RowSums(g)[r] == Shipped(st.answer, rows, cols, r);
      }
    }
    assert d0 == VAdd(ColumnSums(g, cols), st.demand) by {
      forall c | 0 <= c < cols ensures d0[c] == VAdd(ColumnSums(g, cols), st.demand)[c] {
        assert ColumnSums(g, cols)[c] == Received(st.answer, rows, cols, c);
      }
    }
    SumAdd(RowSums(g), st.supply);
    SumAdd(ColumnSums(g, cols), st.demand);
  }

  /**
   * When every cell has its source or destination exhausted and the original totals
   * balance, nothing is left anywhere and the allocation is feasible.
   */
  lemma ExhaustedBalancedIsFeasible(st: State, s0: seq<int>, d0: seq<int>)
    requires WellFormed(st) && Accounts(st, s0, d0) && AllCellsExhausted(st)
    requires Sum(s0) == Sum(d0)
    ensures Sum(st.supply) == 0 && Sum(st.demand) == 0
    ensures Feasible(st.answer, s0, d0)
  {
    AccountsTotals(st, s0, d0);
    GrandTotal(Plan(st.answer, |st.supply|, |st.demand|), |st.demand|);
    assert Sum(st.supply) == Sum(st.demand);
    SumZeroIffAllZero(st.supply);
    SumZeroIffAllZero(st.demand);
    FinishedIsFeasible(st, s0, d0);
  }
}
