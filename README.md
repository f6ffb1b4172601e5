# Transportation problem: initial basic feasible solutions

This project models the core of a small Java program that builds an initial basic
feasible solution of a balanced transportation problem. A problem has a supply per
source, a demand per destination and a unit-cost grid. The solution is an allocation
vector with one entry per cell, in row-major order. Three heuristics compute it:

- the North-West Corner rule, one row-major sweep over the cells;
- Vogel's Approximation, which picks the row or column with the largest penalty (the
  gap between its two cheapest live costs) and allocates at its cheapest live cell;
- Russel's Approximation, which scores every cell as `cost - rowMax - colMax` and
  allocates at the most negative score.

Vogel's and Russel's methods mark an allocated cell by overwriting its cost with `-1`.
They stop once supply and demand both sum to 0. The model also covers the problem
object (stored data, the applicability check, clone-then-dispatch solve) and the
vector and matrix classes with their factories.

Layout:

- `errors.dfy`: the Java exceptions as an `Error` value inside `Result`/`Outcome`.
- `linear.dfy`: sums, dot products, grids, transposes and products on values.
- `implementations.dfy`: `ArrayVector` and `ArrayMatrix` as classes over an `array` and an `array2`.
- `vector_factory.dfy` and `matrix_factory.dfy`: the factories.
- `allocation.dfy`: the shared state (`State`), one shipment (`Transfer`, `Allocate`) and the invariants they keep.
- `allocator.dfy`: the in-place allocation step on the objects.
- `north_west.dfy`: the sweep, on values and as nested loops.
- `vogel_selection.dfy` and `russel_selection.dfy`: the selection rules on values.
- `strategies.dfy`: the shared do-while loop on values (`Run`).
- `vogel_algorithm.dfy` and `russel_algorithm.dfy`: the imperative algorithms, each proved equal to `Run`.
- `transportation_problem.dfy`: the problem object.
- `findings.dfy`: the two counterexamples below.

Each imperative method is proved against a function on values. Its loop invariant says
that running the value-level specification from the current objects gives the value
from the start. Feasibility, conservation and termination are then proved once, about
those functions.

The model keeps the code's own choices where they differ from the usual statement of
the methods:

- Vogel's method follows the code. A tie between the largest row penalty and the
  largest column penalty goes to the column, because the code tests `rowDiff > colDiff`
  strictly (`src/Main.java:294`).
- Russel's pick as written searches every cell, excluded cells included. An excluded
  cell keeps the score 0 it was given when the score matrix was created. This pick is
  modelled on values, as `RusselSelection.RusselPick` with `corrected == false`, and
  `Findings.RusselAsWrittenStalls` shows where it leads. `RusselAlgorithm.Solve`,
  `Problem.Solution` and the lemmas about them use the live-only pick instead (see
  "## Left out").

## Model

| member | source | states |
|---|---|---|
| Implementations.ArrayVector.constructor | src/structures/implementations/ArrayVector.java:12-18 | a fresh vector of the given length, all zeros |
| Implementations.ArrayVector.GetItem | src/structures/implementations/ArrayVector.java:84-89 | the entry at an index in range; IndexOutOfBounds exactly when the index is out of range |
| Implementations.ArrayVector.SetItem | src/structures/implementations/ArrayVector.java:92-97 | in range, only that entry changes; out of range, IndexOutOfBounds and nothing changes |
| Implementations.ArrayVector.Plus | src/structures/implementations/ArrayVector.java:21-31 | the entrywise sum; IllegalArgument exactly when the lengths differ |
| Implementations.ArrayVector.Minus | src/structures/implementations/ArrayVector.java:34-39 | the entrywise difference; IllegalArgument exactly when the lengths differ |
| Implementations.ArrayVector.ScalarMultiply | src/structures/implementations/ArrayVector.java:42-49 | every entry times the scalar |
| Implementations.ArrayVector.DotProduct | src/structures/implementations/ArrayVector.java:52-62 | the dot product; IllegalArgument exactly when the lengths differ |
| Implementations.ArrayVector.Multiply | src/structures/implementations/ArrayVector.java:65-81 | the row-vector times matrix product, one dot product per column; IllegalArgument exactly when the length is not the row count |
| Implementations.ArrayVector.DotWithColumn | src/structures/implementations/ArrayVector.java:72-75 | the inner loop of multiply: the dot product with column i |
| Implementations.ArrayVector.Equals | src/structures/implementations/ArrayVector.java:134-143 | true exactly when both hold the same entries, lengths included |
| Implementations.ArrayVector.GetNumberOfZeroElements | src/structures/implementations/ArrayVector.java:164-172 | the number of zero entries, at most the length |
| Implementations.ArrayVector.FindMinValue | src/structures/implementations/ArrayVector.java:179-187 | a lower bound of every entry, equal to one of them unless it is the starting value 1000000000 |
| Implementations.ArrayVector.GetSum | src/Main.java:322 | the sum of the entries |
| Implementations.ArrayVector.GetMaxValueIndex | src/structures/Vector.java:12 | the first index holding the maximum |
| Implementations.ArrayVector.BuildClone | src/Main.java:148-149 | a fresh copy with the same entries |
| Implementations.ArrayMatrix.constructor | src/structures/implementations/ArrayMatrix.java:19-27 | a fresh rows x cols matrix of zeros |
| Implementations.ArrayMatrix.Plus | src/structures/implementations/ArrayMatrix.java:35-46 | the cellwise sum; IllegalArgument exactly when the shapes differ |
| Implementations.ArrayMatrix.Minus | src/structures/implementations/ArrayMatrix.java:54-59 | this plus -1 times the other, as the source computes it; IllegalArgument exactly when the shapes differ |
| Implementations.ArrayMatrix.ScalarMultiply | src/structures/implementations/ArrayMatrix.java:67-75 | every cell times the scalar |
| Implementations.ArrayMatrix.Multiply | src/structures/implementations/ArrayMatrix.java:83-95 | the matrix product; IllegalArgument exactly when the column count is not the other's row count |
| Implementations.ArrayMatrix.MultiplyRow | src/structures/implementations/ArrayMatrix.java:90-92 | row i of the product is filled in and every other cell keeps its value |
| Implementations.ArrayMatrix.AccumulateCell | src/structures/implementations/ArrayMatrix.java:91-92 | cell (i, j) becomes the dot product of row i and column j; no other cell changes |
| Implementations.ArrayMatrix.MultiplyByVector | src/structures/implementations/ArrayMatrix.java:103-115 | the matrix times column-vector product; IllegalArgument exactly when the column count is not the length |
| Implementations.ArrayMatrix.AccumulateRow | src/structures/implementations/ArrayMatrix.java:111-112 | entry i becomes the dot product of row i with the vector; no other entry changes |
| Implementations.ArrayMatrix.GetTransposed | src/structures/implementations/ArrayMatrix.java:122-130 | a fresh cols x rows matrix holding the transpose |
| Implementations.ArrayMatrix.GetItem | src/structures/implementations/ArrayMatrix.java:139-144 | the cell in range; IndexOutOfBounds exactly when out of range |
| Implementations.ArrayMatrix.SetItem | src/structures/implementations/ArrayMatrix.java:183-188 | in range, only that cell changes; out of range, IndexOutOfBounds and nothing changes |
| Implementations.ArrayMatrix.GetRow | src/structures/implementations/ArrayMatrix.java:157-167 | a fresh copy of the row; IndexOutOfBounds exactly when out of range |
| Implementations.ArrayMatrix.GetColumn | src/structures/implementations/ArrayMatrix.java:170-180 | a fresh copy of the column; IndexOutOfBounds exactly when out of range |
| Implementations.ArrayMatrix.SetRow | src/structures/implementations/ArrayMatrix.java:191-200 | the row replaced by the vector; a length mismatch (IllegalArgument) is checked before the index (IndexOutOfBounds), and a failure changes nothing |
| Implementations.ArrayMatrix.SetColumn | src/structures/implementations/ArrayMatrix.java:203-212 | the column replaced by the vector, with the same two errors in the same order |
| Implementations.ArrayMatrix.SeatDiagonal | src/structures/implementations/ArrayMatrix.java:231-237 | the vector written on the diagonal; IllegalArgument on a length mismatch, IndexOutOfBounds once the diagonal leaves the matrix, with the cells written before the failure kept |
| Implementations.ArrayMatrix.GetRows | src/structures/Matrix.java:9 | fresh copies of the rows, in order, no two sharing storage |
| Implementations.ArrayMatrix.GetColumns | src/structures/Matrix.java:10 | fresh copies of the columns, in order, no two sharing storage |
| Implementations.ArrayMatrix.GetCoordsOfMostNegative | src/structures/Matrix.java:23 | the row-major first cell holding the least value |
| Implementations.ArrayMatrix.BuildClone | src/structures/Matrix.java:25 | a fresh matrix with the same shape and cells |
| VectorFactory.CreateEmptyVector | src/structures/VectorFactory.java:8-10 | a fresh all-zero vector of the given length |
| VectorFactory.CreateVector | src/structures/VectorFactory.java:12-20 | a fresh vector holding the given items |
| MatrixFactory.CreateEmptyMatrix | src/structures/MatrixFactory.java:8-10 | a fresh all-zero matrix of the given shape |
| MatrixFactory.CreateIdentityMatrix | src/structures/MatrixFactory.java:12-19 | a fresh identity matrix of the given size |
| MatrixFactory.CreateMatrix | src/structures/MatrixFactory.java:21-31 | the width is the first row's length and every row is cut to it; IndexOutOfBounds exactly when there are no rows or some row is shorter than the first |
| MatrixFactory.CreateMatrixFromRows | src/structures/MatrixFactory.java:33-42 | row i is vector i; IndexOutOfBounds for no vectors, IllegalArgument exactly when the lengths differ |
| MatrixFactory.CreateMatrixFromColumns | src/structures/MatrixFactory.java:44-53 | column j is vector j; IndexOutOfBounds for no vectors, IllegalArgument exactly when the lengths differ |
| Linear.SubThenAdd | src/structures/implementations/ArrayVector.java:21-39 | minus then plus of the same vector is the identity |
| Linear.DotCommutes | src/structures/implementations/ArrayVector.java:52-62 | the dot product is symmetric |
| Linear.TransposeTwice | src/structures/implementations/ArrayMatrix.java:122-130 | transposing twice gives back the matrix |
| Linear.MatVecIsVecMatOfTranspose | src/structures/implementations/ArrayMatrix.java:103-115 | matrix times vector equals vector times the transposed matrix |
| Linear.MulIdentity | src/structures/MatrixFactory.java:12-19 | multiplying by the identity leaves a matrix unchanged |
| Linear.CountZerosAll | src/structures/implementations/ArrayVector.java:164-172 | the zero count is the length exactly when every entry is 0, and 0 exactly when none is |
| Linear.SumZeroIffAllZero | src/Main.java:322 | a non-negative vector sums to 0 exactly when every entry is 0 |
| Linear.FirstMaxIndex | src/structures/Vector.java:12 | the first index of a maximal entry: no earlier entry is as large |
| Linear.GrandTotal | src/Main.java:226 | the row sums and the column sums of a grid have the same total |
| Allocation.Initial | src/Main.java:248 | the starting state is well formed, with an all-zero answer of rows times cols entries |
| Allocation.CellIndex | src/Main.java:320 | the row-major index of a cell lies inside the answer vector |
| Allocation.CellIndexInjective | src/Main.java:320 | distinct cells have distinct row-major indices |
| Allocation.PlanUpdate | src/Main.java:320 | writing index r * cols + c writes cell (r, c) of the plan |
| Allocation.MaskedMinIndex | src/Main.java:298-304 | -1 exactly when no entry is live; otherwise a live entry, no larger than any live entry and smaller than every live entry before it |
| Allocation.Transfer | src/Main.java:253-263 | one shipment leaves the source or the destination at 0 and keeps non-negative quantities non-negative |
| Allocation.TransferFrame | src/Main.java:253-263 | both quantities drop by min(supply, demand), which is written at the cell's index; nothing else changes |
| Allocation.Allocate | src/Main.java:315-320 | the same shipment, plus the cost marked -1; no other cost changes |
| Allocation.TransferAccounts | src/Main.java:253-263 | at a cell that has received nothing, shipped plus left stays the original supply and demand |
| Allocation.AllocateConserves | src/Main.java:315-320 | allocating at a live cell keeps that bookkeeping, and live cells still have nothing |
| Allocation.AllocateExhausts | src/Main.java:315-320 | every excluded cell has its source or its destination at 0, the new one included |
| Allocation.AllocateTotals | src/Main.java:315-317 | both totals drop by the allocated amount |
| Allocation.ExcludeLowersLiveCount | src/Main.java:318 | marking a live cell -1 lowers the live count by one |
| Allocation.InitialConserves | src/Main.java:284 | the start state keeps the bookkeeping; with no -1 cost, no cell is excluded |
| Allocation.FinishedIsFeasible | src/Main.java:322 | once both totals are 0 the answer is feasible: non-negative, each source ships its supply, each destination receives its demand |
| Allocation.PendingHasLiveCell | src/Main.java:322 | on a balanced state whose excluded cells are exhausted, a non-zero total means some cell is live |
| Allocation.AccountsTotals | src/Main.java:320 | original supply equals row sums of the plan plus what is left, and likewise for demand |
| Allocation.ExhaustedBalancedIsFeasible | src/Main.java:251-265 | with every cell exhausted and balanced totals, nothing is left and the answer is feasible |
| Allocator.AllocateAt | src/Main.java:315-320 | in range, the objects move to Allocate of their old state; out of range, IndexOutOfBounds and nothing changes |
| NorthWest.SweepFrom | src/Main.java:251-265 | the sweep keeps the state well formed, the costs unchanged and the shape |
| NorthWest.TransferKeepsInvariant | src/Main.java:253-263 | one cell of the sweep keeps the sweep invariant |
| NorthWest.SweepInvariantNextRow | src/Main.java:251-252 | the invariant at the end of a row is the invariant at the start of the next |
| NorthWest.SweepInvariantAtEnd | src/Main.java:251 | past the last row, every cell is exhausted |
| NorthWest.SweepFromExhausts | src/Main.java:251-265 | the sweep ends with the bookkeeping intact and every cell exhausted |
| NorthWest.SweepConserves | src/Main.java:247-267 | on non-negative input, shipped plus left equals the input, and every cell is exhausted |
| NorthWest.SweepFeasible | src/Main.java:247-267 | on balanced non-negative input the answer is feasible and nothing is left over |
| NorthWest.ShipAt | src/Main.java:253-263 | the objects move to Transfer of their old state, the tie taking the supply branch |
| NorthWest.Solve | src/Main.java:247-267 | a fresh answer of rows times cols entries, and supply, demand and answer equal the value-level sweep |
| VogelSelection.TwoSmallest | src/Main.java:337-351 | the running least is at most the running second, and both are at most MAX_VALUE |
| VogelSelection.TwoSmallestSpec | src/Main.java:337-351 | the pair really is the least and second-least live costs, each at its own index, or MAX_VALUE when missing |
| VogelSelection.TwoSmallestBounds | src/Main.java:337-351 | the least bounds every live cost; the second bounds the larger of any two |
| VogelSelection.TwoSmallestWitnesses | src/Main.java:337-351 | each of the pair is a live cost at distinct indices, unless it is MAX_VALUE |
| VogelSelection.Penalty | src/Main.java:353 | a penalty is never negative |
| VogelSelection.PenaltyOfExcludedLine | src/Main.java:337-353 | a fully excluded line has both values MAX_VALUE and penalty 0 |
| VogelSelection.PenaltyOfSingleLive | src/Main.java:337-353 | a line with one live cost v has penalty MAX_VALUE - v |
| VogelSelection.PenaltyOfTwoLive | src/Main.java:337-353 | with two or more live costs, the penalty is the gap between the two cheapest |
| VogelSelection.PenaltyFixed | src/Main.java:353 | the corrected penalty is -1 exactly for a line with nothing live, and otherwise the penalty |
| VogelSelection.VogelPick | src/Main.java:287-313 | a picked cell is inside the grid and live |
| VogelSelection.VogelPickRow | src/Main.java:294-309 | a strictly larger row penalty picks the first cheapest live cell of the first maximal row, and none exactly when that row has nothing live |
| VogelSelection.VogelPickColumn | src/Main.java:294-312 | otherwise, ties included, the pick is the first cheapest live cell of the first maximal column, and none exactly when that column has nothing live |
| VogelSelection.VogelFixedFindsCell | src/Main.java:287-313 | with the corrected penalty, a cell is found whenever some cell is live |
| RusselSelection.LineMax | src/Main.java:413-419 | the running maximum is at least MIN_VALUE |
| RusselSelection.LineMaxSpec | src/Main.java:413-419 | on Java ints, it is the maximum of the live entries, or MIN_VALUE for a fully excluded line |
| RusselSelection.Scores | src/Main.java:380-387 | the score grid has the shape of the costs |
| RusselSelection.LiveScoreBound | src/Main.java:380-387 | on non-negative costs, a live score is at most minus its cost, so at most 0 |
| RusselSelection.ZeroCostScores | src/Main.java:380-387 | when every cost is 0 or -1, every score is 0 |
| RusselSelection.FirstMinLiveCellUnique | src/Main.java:389 | at most one cell is the first least live cell |
| RusselSelection.ScanRows | src/Main.java:389 | a cell the scan finds lies in the rows scanned |
| RusselSelection.ScanRowsSpec | src/Main.java:389 | the scan over the first rows finds their first least live cell, and finds none exactly when none is live |
| RusselSelection.FirstMinLiveCell | src/Main.java:389 | the first least live cell of the grid, or none exactly when no cell is live |
| RusselSelection.FirstMinLiveCellStep | src/Main.java:389 | combining the best of the first rows with the last row's best gives the best overall |
| RusselSelection.RusselCorrectedPick | src/Main.java:377-389 | the corrected pick exists exactly when some cell is live, and it is the first live cell of least score |
| RusselSelection.RusselAsWrittenPick | src/Main.java:377-389 | as written the pick always exists and is the row-major first cell of least score, live or excluded |
| RusselSelection.EveryCellLive | src/Main.java:389 | a search over every cell is the live-only search under an all-live mask |
| RusselSelection.RusselAsWrittenLiveIsCorrected | src/Main.java:377-389 | for every cost grid, when the as-written pick lands on a live cell it is the corrected pick, so a corrected round repeats any source round that picks a live cell |
| Strategies.PickFor | src/Main.java:286-313 | a picked cell is inside the grid and live, and a corrected rule finds one whenever a cell is live |
| Strategies.Run | src/Main.java:286-322 | the do-while loop fails only with IndexOutOfBounds and otherwise returns a well-formed state of the same shape |
| Strategies.RunFeasible | src/Main.java:286-322 | whatever the loop returns is feasible, with nothing left over |
| Strategies.RoundKeepsBalance | src/Main.java:315-320 | a round of a corrected rule on a balanced, exhausted state finds a cell and leaves the state balanced, conserving and exhausted |
| Strategies.RunSucceeds | src/Main.java:286-322 | with a corrected rule the loop never fails on a balanced, exhausted state with work left |
| Strategies.CorrectedRuleSolves | src/Main.java:373-401 | on admissible input a corrected rule returns a feasible plan |
| Strategies.VogelAsWrittenSound | src/Main.java:283-325 | Vogel as written, when it returns, returns a feasible plan |
| VogelAlgorithm.LinePenalty | src/Main.java:336-353 | the penalty of one line |
| VogelAlgorithm.DiffsForListOfVectors | src/Main.java:332-357 | a fresh vector whose entry i is the penalty of line i |
| VogelAlgorithm.MinLiveIndex | src/Main.java:298-304 | the first index of the least live value, or -1 when nothing is live |
| VogelAlgorithm.ChooseCell | src/Main.java:287-313 | the cell of VogelPick; with no live cell in the chosen line, -1 as the row or the column, the other coordinate in range |
| VogelAlgorithm.Solve | src/Main.java:283-325 | succeeds exactly when the value-level Vogel loop does, with the same error, and then returns its answer and leaves its supply, demand and costs |
| RusselAlgorithm.LineMaximum | src/Main.java:412-421 | the maximum of one line over its live entries |
| RusselAlgorithm.MaxesForListOfVectors | src/Main.java:408-425 | a fresh vector whose entry i is the maximum of line i |
| RusselAlgorithm.BuildScores | src/Main.java:380-387 | a fresh score matrix equal to Scores of the costs and the maxima |
| RusselAlgorithm.RowMinLive | src/Main.java:389 | the first live index of least score in one row |
| RusselAlgorithm.ScanRow | src/Main.java:389 | one more row of the scan |
| RusselAlgorithm.CoordsOfMostNegativeLive | src/Main.java:389 | the first least live cell, or none |
| RusselAlgorithm.ChooseCell | src/Main.java:377-389 | the corrected Russel pick on the current costs |
| RusselAlgorithm.Solve | src/Main.java:373-401 | succeeds exactly when the corrected value-level loop does, and then returns its answer and leaves its supply, demand and costs |
| Problem.AnswerOf | src/Main.java:152 | the answer of a successful run, or its error |
| Problem.Solution | src/Main.java:144-153 | a successful answer has one entry per cell, with Russel using the live-only pick; a failure is IndexOutOfBounds |
| Problem.SolutionFeasible | src/Main.java:144-153 | on admissible input North-West and Russel with the live-only pick always return, and every algorithm that returns gives a feasible plan |
| Problem.ApplicableIsAdmissible | src/Main.java:207-231 | an applicable problem with no -1 cost is admissible for the heuristics |
| Problem.TransportationProblem.constructor | src/Main.java:111-141 | the stored data, with no algorithm set |
| Problem.TransportationProblem.SetAlgorithm | src/Main.java:160-162 | the algorithm is set, nothing else changes, and a valid problem stays valid |
| Problem.TransportationProblem.CheckAdditionalRestrictions | src/Main.java:207-231 | true exactly when no quantity is negative, neither total is 0 and the totals agree |
| Problem.TransportationProblem.Solve | src/Main.java:144-153 | IllegalState without an algorithm; otherwise the chosen algorithm's result on copies, leaving the stored data unchanged |
| Findings.VogelAsWrittenFails | src/Main.java:294-320 | Vogel as written ends in IndexOutOfBounds on the example below |
| Findings.VogelCorrectedSolvesExample | src/Main.java:353 | the example is admissible, and with the corrected penalty it is solved feasibly |
| Findings.RusselAsWrittenRevisits | src/Main.java:389-396 | on the example below, round 2 picks the excluded corner again and overwrites its allocation with 0 |
| Findings.RusselAsWrittenStalls | src/Main.java:389-398 | after round 2 each round returns the same state with one unit still unshipped, so the loop never exits |
| Findings.RusselCorrectedSolvesExample | src/Main.java:389 | the example is admissible, and the live-only pick solves it feasibly |

## Left out

- Console I/O is not modelled: `main`, the print methods, `input`, `createMatrixFromInput` and `createVectorFromInput`. They read a `Scanner` or write to the console. The messages `checkAdditionalRestrictions` prints are left out too.
- `getNorm` is not modelled because it needs a floating-point square root.
- The vector iterator is not modelled. It is only used by printing.
- The Builder is not modelled. The `TransportationProblem` constructor takes the three objects directly and leaves the algorithm unset, as a Builder without `algorithm(...)` would.
- `getLength`, `getNumberOfRows` and `getNumberOfColumns` are not separate members. They are the constant fields `length`, `rows` and `cols`.
- Implementations.ArrayVector.constructor, Implementations.ArrayMatrix.constructor, VectorFactory.CreateEmptyVector, MatrixFactory.CreateEmptyMatrix, MatrixFactory.CreateIdentityMatrix: sizes are `nat`. A negative size, which Java rejects with NegativeArraySizeException, is not modelled.
- Numbers are unbounded `int`. The implementations store `double` and the interface is `int`, so Java int overflow and double rounding are not modelled. `MAX_VALUE`, `MIN_VALUE` and the `-1` marker stay as named constants.
- `getSum`, `buildClone`, `getRows`, `getColumns`, `getMaxValueIndex`, `getCoordsOfMostNegative`, `get` and `set` have no bodies in the source. They are modelled as their names and call sites say: a sum, a deep copy, fresh copies of the lines, the first maximal index, the row-major first least cell, and range-checked access.
- After an exception, the state of the objects is not described.
- NorthWest.Solve: requires matching dimensions (one supply per row, one demand per column). The source does not check this.
- VogelAlgorithm.Solve: requires matching dimensions and at least one row and one column. The source checks neither, and `getMaxValueIndex` of an empty vector is undefined.
- RusselAlgorithm.Solve: requires matching dimensions and at least one row and one column, for the same reason.
- Problem.TransportationProblem.constructor: requires matching dimensions and at least one row and one column (`costs.rows > 0 && costs.cols > 0`). The source's Builder accepts any objects. Every other member of the class assumes these through `Valid()`.
- Problem.TransportationProblem.Solve: requires `Valid()`, so the stored objects have matching dimensions and at least one row and one column.
- RusselAlgorithm.Solve: uses the live-only selection (`RusselCorrected`), not the selection as written. As written, the loop can run forever (see Findings), so it cannot be a terminating method. The as-written pick is modelled and analysed on values, in `RusselSelection.RusselPick` with `corrected == false`. `RusselSelection.RusselAsWrittenLiveIsCorrected` proves that the two picks agree whenever the as-written pick is live.
- RusselAlgorithm.Solve: two behaviours of the source follow from that correction and are not modelled. (1) When no cell is live but supply or demand is left, the model returns IndexOutOfBounds. The source never throws there: it picks some excluded cell and keeps looping. (2) The source can ship to a cell whose cost was -1 on input. With costs [[-1,0],[0,0]], supply [1,1] and demand [1,1], every score is 0, so (0,0) is picked and 1 unit is shipped there. The model never ships to an excluded cell.
- RusselAlgorithm.RowMinLive: finds the least score among the live cells of one row. The source's `getCoordsOfMostNegative` (`src/Main.java:389`) also searches excluded cells.
- RusselAlgorithm.ScanRow: merges only live cells into the running pick. The source's search covers excluded cells too.
- RusselAlgorithm.CoordsOfMostNegativeLive: is the live-only search `FirstMinLiveCell` under the cost mask, not `getCoordsOfMostNegative` over every cell.
- RusselAlgorithm.ChooseCell: ensures the corrected pick `RusselPick(.., true)`. The source computes the as-written pick `RusselPick(.., false)`, and `RusselSelection.RusselAsWrittenLiveIsCorrected` proves that the two agree whenever the as-written pick is live.
- The inner loops of Vogel's penalties, Russel's maxima, Russel's pick, `multiply` and `multiplyByVector` are separate helper methods. The Java writes them inline. Their order of operations is the same.

## Findings

| source | as written | input that shows it | evidently intended | confidence | as-written member | corrected member |
|---|---|---|---|---|---|---|
| src/Main.java:337-353 | a line with no live cost gets penalty MAX_VALUE - MAX_VALUE = 0; a tie with the best row penalty goes to the columns, so that dead column can be chosen, `minIndex` stays -1 and `supply.get(-1)` throws | costs [[1,5,5],[1,5,5]], supply [2,2], demand [1,1,2]: round 3 chooses the exhausted first column | a line with nothing live is never chosen, so every round finds a cell until all is shipped | not executed | Findings.VogelAsWrittenFails | Strategies.CorrectedRuleSolves |
| src/Main.java:380-389 | excluded cells keep score 0 and `getCoordsOfMostNegative` searches every cell, so when no live score is negative an excluded cell is picked again, 0 is allocated there and its earlier allocation is overwritten | costs [[0,0],[0,0]], supply [1,1], demand [1,1]: cell (0,0) is picked in every round | only live cells are candidates, so each round ships at a new cell and the loop ends | not executed | Findings.RusselAsWrittenStalls | Findings.RusselCorrectedSolvesExample |

Both findings assume first-index tie-breaking in `getMaxValueIndex` and
`getCoordsOfMostNegative`, whose bodies the source does not show.
`VogelAlgorithm.Solve` models Vogel's method as written, so its contract includes the
failure. `Problem.SolutionFeasible` states what holds for each algorithm.
