# Coating-path TSP model (pathOp.py) in Dafny

`pathOp.py` plans the path of a coating head through N features on a plane.
It solves a travelling-salesman integer program with PuLP:

1. It fills an N-by-N distance table from the feature positions. Feature keys
   1 .. N become matrix indices 0 .. N - 1.
2. It creates a binary variable `x[i][j]` ("go from i to j") for every ordered
   pair, the diagonal included. The objective is the distance-weighted sum of
   all of them.
3. It adds the degree constraints "leave each node once" and "enter each node
   once", both summed over `j != i`.
4. It adds the Miller-Tucker-Zemlin (MTZ) subtour-elimination rows. These use
   continuous order variables `u[i]` in `[0, N - 1]` and the row
   `u[i] - u[j] + (N - 1) x[i][j] <= N - 2` for every pair of distinct nodes
   other than node 0.
5. It solves the program and prints every `x[i][j]` equal to 1 as
   "From Feature i+1 to Feature j+1", scanning row by row.

The project models steps 1-4 as conditions on a candidate answer `(x, u)`.
It models the read-back loop of step 5 as a method over a 2-D array. It then
proves what the constraints mean:

- The degree constraints say exactly that the successor map is a permutation
  without fixed points.
- MTZ soundness: no cycle can avoid node 0. The walk from node 0 visits every
  node once and closes after N steps.
- MTZ completeness: every tour passes every constraint.
- The diagonal variables take part in no constraint.
- The read-back reports exactly the 1-cells, in row-major order. The objective
  is the cost of what it reports.

Modules follow the program's parts:
- `Grids`: matrices as sequences of rows, sums, and the cell order of two nested loops.
- `DistanceMatrix`: the distance fill.
- `ModelBuilder`: the constraints and the objective.
- `Subtours`: the successor map, the walk, and both MTZ theorems.
- `TourExtractor`: the read-back and the tour walk.

The solver's answer is plain data: `x` is `seq<seq<int>>` (what `pulp.value`
returns for each variable) and `u` is `seq<real>` (the variables are
continuous). The distance function `np.hypot` becomes a parameter
`norm: (int, int) -> int` applied to the displacement `(xi - xj, yi - yj)`.
The positions are a parameter `map<int, (int, int)>`.

The tool's design and the script differ in two places; the model follows the script:
- The script creates `x[i][i]` for every i. The design has one variable per pair `i != j`.
- The script has no short-circuit for N < 3. It builds the same program for every N; for N = 1 that program has no solution (`ModelBuilder.SingleNodeInfeasible`).

## Model

| member | source | states |
|---|---|---|
| DistanceMatrix.Fill | pathOp.py:14-20 | The table is N-by-N for N positions. The cell at (k - 1, l - 1) holds the length of the displacement from key k to key l. The cells are written in row-major order, each exactly once (N * N writes). |
| DistanceMatrix.CostShape | pathOp.py:20 | A length that gives the zero displacement 0 yields a zero diagonal. A length that ignores direction yields a symmetric table. |
| ModelBuilder.OutDegreeOneIff | pathOp.py:33 | On binary x, "leave node i once" holds iff row i has exactly one 1 off the diagonal. |
| ModelBuilder.InDegreeOneIff | pathOp.py:34 | On binary x, "enter node i once" holds iff column i has exactly one 1 off the diagonal. |
| ModelBuilder.MtzForcesIncrease | pathOp.py:38-41 | On a chosen edge i -> j between two nodes other than 0, the MTZ rows force u[j] >= u[i] + 1. |
| ModelBuilder.SingleNodeInfeasible | pathOp.py:32-34 | With N = 1 the out-degree sum of node 0 is empty, so no x meets the degree constraints. |
| ModelBuilder.DiagonalUnconstrained | pathOp.py:26-41 | Setting x[i][i] to 0 or 1 leaves the degree constraints, the MTZ rows and full feasibility unchanged. It moves the objective by cost[i][i] times the change. |
| Subtours.SuccUnique | pathOp.py:33 | Under "leave node i once", the successor of i is a node other than i with x[i][succ] = 1. It is the only such node. |
| Subtours.SuccInjective | pathOp.py:34 | Under the degree constraints, two nodes with the same successor are equal. |
| Subtours.DegreeIffPermutation | pathOp.py:32-34 | On binary x, the degree constraints hold iff the successor map is a permutation of 0 .. N - 1 without fixed points whose graph is the set of off-diagonal 1s. |
| Subtours.SubtourViolatesMtz | pathOp.py:36-41 | If the chosen edges contain a cycle avoiding node 0, no u satisfies the MTZ rows. |
| Subtours.DegreeAloneAdmitsSubtours | pathOp.py:32-41 | Two separate 2-cycles on 4 nodes pass the degree constraints, but no u lets them through the MTZ rows. |
| Subtours.ReachesDepot | pathOp.py:37-41 | On a feasible answer, the walk from any node other than 0 reaches node 0 within N steps. The result is the first visit. |
| Subtours.WalkIsHamiltonian | pathOp.py:32-41 | On a feasible answer, the walk from node 0 meets no node twice in its first N steps and visits every node. It is back at node 0 after exactly N steps and not before. |
| Subtours.TourIsFeasible | pathOp.py:26-41 | The 0/1 assignment of any tour on N >= 2 nodes, with u numbering each node by its place on the tour, meets every constraint and has a zero diagonal. |
| Subtours.TourAssignmentWalk | pathOp.py:32-34 | On a tour's assignment, the walk from node 0 follows the tour itself. |
| TourExtractor.ReadBack | pathOp.py:49-52 | Scanning the array row by row yields exactly the pairs (i + 1, j + 1) with x[i, j] = 1, in strictly increasing row-major order. |
| TourExtractor.ChosenMembers | pathOp.py:49-52 | A pair is reported iff it is (i + 1, j + 1) for an in-range cell holding 1. |
| TourExtractor.ChosenRowMajor | pathOp.py:49-52 | The reported pairs are strictly increasing in row-major order, so none repeats. |
| TourExtractor.ChosenCount | pathOp.py:49-52 | The number of reported pairs is the number of 1s in x. |
| TourExtractor.FeasibleReportCount | pathOp.py:32-52 | On a feasible answer, the read-back reports N edges plus one for every 1 on the diagonal. |
| TourExtractor.ObjectiveIsReportedCost | pathOp.py:29 | On binary x, the objective equals the total cost of the reported edges. |
| TourExtractor.SelfLoopPassesConstraints | pathOp.py:26-52 | The N = 3 answer taking tour 1 -> 2 -> 3 -> 1 plus x[0][0] = 1 passes every constraint. For it the read-back reports 4 edges, among them (1, 1). |
| TourExtractor.FeasibleTourReportsTour | pathOp.py:49-52 | On a feasible answer with a zero diagonal, the read-back reports exactly N edges: the N steps of the walk from node 0. |
| TourExtractor.ExtractTour | pathOp.py:49-52 | Walks the successors from node 0 and checks the walk as the tool's design describes tour extraction. A returned tour has N distinct nodes starting at 0, is a closed cycle of chosen edges along the walk, and comes with N reported edges. Every answer that passes the constraints with a zero diagonal yields a tour. |

## Left out

- The solver call, `prob.solve()` and the status string (lines 23, 44, 47): the model states conditions on the answer the solver returns, not how it finds one or that it is optimal.
- The `pulp` problem object and the variable names (`x_i_j`, `u_i`): constraints are predicates over the values of the variables.
- `np.hypot` and floating point (line 20): distances come from a parameter `norm` on integer displacements, so rounding is not modelled.
- The hard-coded positions (lines 5-11): the positions are a parameter.
- DistanceMatrix.Fill: requires every key 1 .. N to be present; the script would raise `KeyError` otherwise, and that failure is not modelled.
- Printing (lines 47-52): the read-back returns the sequence of reported pairs instead of printing lines.
- `pulp.value` returning a float near 1: the read-back compares integer values with 1.
- TourExtractor.ExtractTour: the script itself only prints edges. The walk from node 0 and its checks follow the tool's design for tour extraction, not a line of `pathOp.py`; the cited lines are the read-back it builds on.
- The total tour length in tour order: the model relates the objective to the sum over the reported edges (`ObjectiveIsReportedCost`), not to a sum taken in tour order.
- The trivial answer for N < 3 that the design describes is not in the script, so it is not modelled.

## Findings

| source | as written | input that shows it | evidently intended | confidence | as-written member | corrected member |
|---|---|---|---|---|---|---|
| pathOp.py:26-34 | A variable `x[i][i]` is created for every node. It is in the objective but skipped by both degree sums and by the MTZ rows, so nothing holds it at 0. | N = 3, x = [[1,1,0],[0,0,1],[1,0,0]], u = [0,1,2]. This passes every constraint and costs the same as the tour when the diagonal distance is 0. The read-back then prints 4 lines, including "From Feature 1 to Feature 1". | No variable on the diagonal (or `x[i][i] == 0`), so that the read-back prints exactly the N edges of the tour. | not executed; whether a solver returns such an answer depends on its choice among equal-cost optima | TourExtractor.SelfLoopPassesConstraints | TourExtractor.FeasibleTourReportsTour |
