/** Reading the answer back: the script's scan over x that reports every
    chosen edge with 1-based feature numbers, and the walk from node 0 that
    puts the chosen edges in tour order. */
module TourExtractor {
  import opened Grids
  import opened ModelBuilder
  import opened Subtours

  /** Cell q lies inside g and holds 1. */
  predicate IsOne(g: seq<seq<int>>, q: (nat, nat)) {
    q.0 < |g| && q.1 < |g[q.0]| && g[q.0][q.1] == 1
  }

  /** What the read-back reports for cell q: its 1-based pair if q holds 1, else nothing. */
  function Pick(g: seq<seq<int>>, q: (nat, nat)): seq<(nat, nat)> {
    if IsOne(g, q) then [(q.0 + 1, q.1 + 1)] else []
  }

  /** One pass of the inner loop: what row i reports among columns 0 .. m - 1. */
  function RowChosen(g: seq<seq<int>>, i: nat, m: nat): seq<(nat, nat)> {
    if m == 0 then [] else RowChosen(g, i, m - 1) + Pick(g, (i, m - 1))
  }

  /** Rows 0 .. r - 1 of the outer loop, each scanned over n columns. */
  function ChosenRows(g: seq<seq<int>>, n: nat, r: nat): seq<(nat, nat)> {
    if r == 0 then [] else ChosenRows(g, n, r - 1) + RowChosen(g, r - 1, n)
  }

  /** What the script reports for an n-by-n answer g. */
  function Chosen(g: seq<seq<int>>, n: nat): seq<(nat, nat)> {
    ChosenRows(g, n, n)
  }

  /** The read-back loop: scans x row by row and collects (i + 1, j + 1) for
      every cell holding 1. */
  method ReadBack(x: array2<int>) returns (edges: seq<(nat, nat)>)
    requires x.Length0 == x.Length1
    ensures edges == Chosen(Rows(x), x.Length0)
    ensures forall e :: e in edges <==>
      1 <= e.0 <= x.Length0 && 1 <= e.1 <= x.Length1 && x[e.0 - 1, e.1 - 1] == 1
    ensures StrictlyRowMajor(edges)
  {
    var n := x.Length0;
    ghost var g := Rows(x);
    edges := [];
    for i := 0 to n
      invariant edges == ChosenRows(g, n, i)
    {
      ghost var done := edges;
      for j := 0 to n
        invariant edges == done + RowChosen(g, i, j)
      {
        ghost var row, pick := RowChosen(g, i, j), Pick(g, (i, j));
        assert pick == if x[i, j] == 1 then [(i + 1, j + 1)] else [];
        if x[i, j] == 1 {
          edges := edges + [(i + 1, j + 1)];
        }
        assert edges == done + (row + pick);
      }
    }
    ReportedCells(x);
    ChosenRowMajor(g, n);
  }

  /** Chosen, read on an array, in the array's own terms. */
  lemma ReportedCells(x: array2<int>)
    requires x.Length0 == x.Length1
    ensures forall e :: e in Chosen(Rows(x), x.Length0) <==>
      1 <= e.0 <= x.Length0 && 1 <= e.1 <= x.Length1 && x[e.0 - 1, e.1 - 1] == 1
  {
    var g, n := Rows(x), x.Length0;
    assert IsSquare(g, n);
    ChosenMembers(g, n);
  }

  /** Row i reports every 1-cell among its first m columns. */
  lemma {:induction false} RowChosenHas(g: seq<seq<int>>, i: nat, m: nat, j: nat)
    requires j < m && IsOne(g, (i, j))
    ensures (i + 1, j + 1) in RowChosen(g, i, m)
  {
    if j < m - 1 {
      RowChosenHas(g, i, m - 1, j);
    }
  }

  /** Rows 0 .. r - 1 report every 1-cell among their n columns. */
  lemma {:induction false} ChosenRowsHas(g: seq<seq<int>>, n: nat, r: nat, i: nat, j: nat)
    requires i < r && j < n && IsOne(g, (i, j))
    ensures (i + 1, j + 1) in ChosenRows(g, n, r)
  {
    if i < r - 1 {
      ChosenRowsHas(g, n, r - 1, i, j);
    } else {
      RowChosenHas(g, i, n, j);
    }
  }

  /** The read-back reports exactly the pairs (i + 1, j + 1) with x[i][j] == 1. */
  lemma ChosenMembers(g: seq<seq<int>>, n: nat)
    requires IsSquare(g, n)
    ensures forall e :: e in Chosen(g, n) <==>
      1 <= e.0 <= n && 1 <= e.1 <= n && g[e.0 - 1][e.1 - 1] == 1
  {
    ChosenRowsBounds(g, n, n);
    var c := Chosen(g, n);
    forall e | e in c ensures 1 <= e.0 <= n && 1 <= e.1 <= n && g[e.0 - 1][e.1 - 1] == 1 {
      var k :| 0 <= k < |c| && c[k] == e;
    }
    ChosenHasAll(g, n);
  }

  lemma ChosenHasAll(g: seq<seq<int>>, n: nat)
    requires IsSquare(g, n)
    ensures forall e: (nat, nat) :: 1 <= e.0 <= n && 1 <= e.1 <= n && g[e.0 - 1][e.1 - 1] == 1 ==> e in Chosen(g, n)
  {
    forall e: (nat, nat) | 1 <= e.0 <= n && 1 <= e.1 <= n && g[e.0 - 1][e.1 - 1] == 1
      ensures e in Chosen(g, n)
    {
      ChosenRowsHas(g, n, n, e.0 - 1, e.1 - 1);
    }
  }

  /** Every pair row i reports among its first m columns is a 1-cell of row i,
      written (i + 1, j + 1) with j < m. */
  lemma {:induction false} RowChosenBounds(g: seq<seq<int>>, i: nat, m: nat)
    ensures forall k :: 0 <= k < |RowChosen(g, i, m)| ==>
      var e := RowChosen(g, i, m)[k]; e.0 == i + 1 && 1 <= e.1 <= m && IsOne(g, (i, e.1 - 1))
  {
    if m > 0 {
      RowChosenBounds(g, i, m - 1);
      var s: seq<(nat, nat)>, p: seq<(nat, nat)> := RowChosen(g, i, m - 1), Pick(g, (i, m - 1));
      forall k | 0 <= k < |s + p|
        ensures (s + p)[k].0 == i + 1 && 1 <= (s + p)[k].1 <= m && IsOne(g, (i, (s + p)[k].1 - 1))
      {
        if k < |s| {
          assert (s + p)[k] == s[k];
        }
      }
    }
  }

  /** Every pair rows 0 .. r - 1 report is a 1-cell of those rows, written
      (i + 1, j + 1) with j < n. */
  lemma {:induction false} ChosenRowsBounds(g: seq<seq<int>>, n: nat, r: nat)
    ensures forall k :: 0 <= k < |ChosenRows(g, n, r)| ==>
      var e := ChosenRows(g, n, r)[k]; 1 <= e.0 <= r && 1 <= e.1 <= n && IsOne(g, (e.0 - 1, e.1 - 1))
  {
    if r > 0 {
      ChosenRowsBounds(g, n, r - 1);
      RowChosenBounds(g, r - 1, n);
      var a: seq<(nat, nat)>, b: seq<(nat, nat)> := ChosenRows(g, n, r - 1), RowChosen(g, r - 1, n);
      forall k | 0 <= k < |a + b|
        ensures 1 <= (a + b)[k].0 <= r && 1 <= (a + b)[k].1 <= n && IsOne(g, ((a + b)[k].0 - 1, (a + b)[k].1 - 1))
      {
        if k < |a| {
          assert (a + b)[k] == a[k];
        } else {
          assert (a + b)[k] == b[k - |a|];
        }
      }
    }
  }

  lemma {:induction false} RowChosenOrder(g: seq<seq<int>>, i: nat, m: nat)
    ensures StrictlyRowMajor(RowChosen(g, i, m))
  {
    if m > 0 {
      RowChosenOrder(g, i, m - 1);
      RowChosenBounds(g, i, m - 1);
      var s, p := RowChosen(g, i, m - 1), Pick(g, (i, m - 1));
      assert forall l :: 0 <= l < |p| ==> p[l] == (i + 1, m);
      ConcatRowMajor(s, p);
    }
  }

  lemma {:induction false} ChosenRowsOrder(g: seq<seq<int>>, n: nat, r: nat)
    ensures StrictlyRowMajor(ChosenRows(g, n, r))
  {
    if r > 0 {
      ChosenRowsOrder(g, n, r - 1);
      RowChosenOrder(g, r - 1, n);
      ChosenRowsBounds(g, n, r - 1);
      RowChosenBounds(g, r - 1, n);
      ConcatRowMajor(ChosenRows(g, n, r - 1), RowChosen(g, r - 1, n));
    }
  }

  /** The read-back reports the chosen edges in row-major order: by row, and
      within a row by column, so no edge twice. */
  lemma ChosenRowMajor(g: seq<seq<int>>, n: nat)
    ensures StrictlyRowMajor(Chosen(g, n))
  {
    ChosenRowsOrder(g, n, n);
  }

  /** The number of entries equal to 1 among s[0..m). */
  function Ones(s: seq<int>, m: nat): nat
    requires m <= |s|
  {
    if m == 0 then 0 else Ones(s, m - 1) + (if s[m - 1] == 1 then 1 else 0)
  }

  /** On a 0/1 sequence, counting the 1s is summing the entries. */
  lemma {:induction false} OnesOfBinary(s: seq<int>, m: nat)
    requires m <= |s| && IsBinarySeq(s)
    ensures Ones(s, m) == Sum(s, m)
  {
    if m > 0 {
      OnesOfBinary(s, m - 1);
    }
  }

  lemma {:induction false} RowChosenCount(g: seq<seq<int>>, i: nat, m: nat)
    requires i < |g| && m <= |g[i]|
    ensures |RowChosen(g, i, m)| == Ones(g[i], m)
  {
    if m > 0 {
      RowChosenCount(g, i, m - 1);
    }
  }

  /** The number of 1s in rows 0 .. r - 1. */
  function OnesInRows(g: seq<seq<int>>, n: nat, r: nat): nat
    requires IsSquare(g, n) && r <= n
  {
    if r == 0 then 0 else OnesInRows(g, n, r - 1) + Ones(g[r - 1], n)
  }

  lemma {:induction false} ChosenRowsCount(g: seq<seq<int>>, n: nat, r: nat)
    requires IsSquare(g, n) && r <= n
    ensures |ChosenRows(g, n, r)| == OnesInRows(g, n, r)
  {
    if r > 0 {
      ChosenRowsCount(g, n, r - 1);
      RowChosenCount(g, r - 1, n);
    }
  }

  /** The read-back reports one edge for every 1 in x. */
  lemma ChosenCount(g: seq<seq<int>>, n: nat)
    requires IsSquare(g, n)
    ensures |Chosen(g, n)| == OnesInRows(g, n, n)
  {
    ChosenRowsCount(g, n, n);
  }

  /** The cost of the reported edge e, read with 1-based feature numbers. */
  function EdgeCostOf(cost: seq<seq<int>>, e: (nat, nat)): int {
    if 1 <= e.0 <= |cost| && 1 <= e.1 <= |cost[e.0 - 1]| then cost[e.0 - 1][e.1 - 1] else 0
  }

  /** The total cost of a list of reported edges. */
  function EdgeCost(cost: seq<seq<int>>, edges: seq<(nat, nat)>): int {
    EdgeCostUpTo(cost, edges, |edges|)
  }

  /** The total cost of the first k reported edges. */
  function EdgeCostUpTo(cost: seq<seq<int>>, edges: seq<(nat, nat)>, k: nat): int
    requires k <= |edges|
  {
    if k == 0 then 0 else EdgeCostUpTo(cost, edges, k - 1) + EdgeCostOf(cost, edges[k - 1])
  }

  lemma {:induction false} EdgeCostPrefix(cost: seq<seq<int>>, a: seq<(nat, nat)>, b: seq<(nat, nat)>, k: nat)
    requires k <= |a|
    ensures EdgeCostUpTo(cost, a + b, k) == EdgeCostUpTo(cost, a, k)
  {
    if k > 0 {
      EdgeCostPrefix(cost, a, b, k - 1);
      assert (a + b)[k - 1] == a[k - 1];
    }
  }

  lemma {:induction false} EdgeCostSuffix(cost: seq<seq<int>>, a: seq<(nat, nat)>, b: seq<(nat, nat)>, j: nat)
    requires j <= |b|
    ensures EdgeCostUpTo(cost, a + b, |a| + j) == EdgeCost(cost, a) + EdgeCostUpTo(cost, b, j)
  {
    if j == 0 {
      EdgeCostPrefix(cost, a, b, |a|);
    } else {
      EdgeCostSuffix(cost, a, b, j - 1);
      assert (a + b)[|a| + j - 1] == b[j - 1];
    }
  }

  /** The cost of two lists reported one after the other is the sum of their costs. */
  lemma EdgeCostAppend(cost: seq<seq<int>>, a: seq<(nat, nat)>, b: seq<(nat, nat)>)
    ensures EdgeCost(cost, a + b) == EdgeCost(cost, a) + EdgeCost(cost, b)
  {
    EdgeCostSuffix(cost, a, b, |b|);
  }

  lemma PickCost(cost: seq<seq<int>>, x: seq<seq<int>>, n: nat, i: nat, j: nat)
    requires IsSquare(cost, n) && IsSquare(x, n) && i < n && j < n
    ensures EdgeCost(cost, Pick(x, (i, j))) == if x[i][j] == 1 then cost[i][j] else 0
  {
    var p := Pick(x, (i, j));
    if x[i][j] == 1 {
      assert |p| == 1 && p[0] == (i + 1, j + 1);
      assert EdgeCostUpTo(cost, p, 1) == EdgeCostUpTo(cost, p, 0) + EdgeCostOf(cost, p[0]);
    }
  }

  /** c[j] summed over the columns j < m where s holds 1. */
  function OnesCost(c: seq<int>, s: seq<int>, m: nat): int
    requires m <= |c| && m <= |s|
  {
    if m == 0 then 0 else OnesCost(c, s, m - 1) + (if s[m - 1] == 1 then c[m - 1] else 0)
  }

  /** On a 0/1 row, weighting each cost by its entry keeps exactly the costs of the 1s. */
  lemma {:induction false} RowCostOfBinary(c: seq<int>, s: seq<int>, m: nat)
    requires m <= |c| && m <= |s| && IsBinarySeq(s)
    ensures RowCost(c, s, m) == OnesCost(c, s, m)
  {
    if m > 0 {
      RowCostOfBinary(c, s, m - 1);
      assert s[m - 1] == 0 || s[m - 1] == 1;
    }
  }

  lemma {:induction false} OnesCostIsEdgeCost(cost: seq<seq<int>>, x: seq<seq<int>>, n: nat, i: nat, m: nat)
    requires IsSquare(cost, n) && IsSquare(x, n) && i < n && m <= n
    ensures OnesCost(cost[i], x[i], m) == EdgeCost(cost, RowChosen(x, i, m))
  {
    if m > 0 {
      var s, p := RowChosen(x, i, m - 1), Pick(x, (i, m - 1));
      OnesCostIsEdgeCost(cost, x, n, i, m - 1);
      assert RowChosen(x, i, m) == s + p;
      EdgeCostAppend(cost, s, p);
      PickCost(cost, x, n, i, m - 1);
    }
  }

  /** OnesCost over rows 0 .. r - 1: the objective with every weight read as 0 or 1. */
  function OnesRows(cost: seq<seq<int>>, x: seq<seq<int>>, n: nat, r: nat): int
    requires IsSquare(cost, n) && IsSquare(x, n) && r <= n
  {
    if r == 0 then 0 else OnesRows(cost, x, n, r - 1) + OnesCost(cost[r - 1], x[r - 1], n)
  }

  lemma {:induction false} ObjectiveRowsOfBinary(cost: seq<seq<int>>, x: seq<seq<int>>, n: nat, r: nat)
    requires IsSquare(cost, n) && IsSquare(x, n) && IsBinary(x) && r <= n
    ensures ObjectiveRows(cost, x, n, r) == OnesRows(cost, x, n, r)
  {
    if r > 0 {
      ObjectiveRowsOfBinary(cost, x, n, r - 1);
      assert IsBinarySeq(x[r - 1]);
      RowCostOfBinary(cost[r - 1], x[r - 1], n);
    }
  }

  lemma {:induction false} OnesRowsIsEdgeCost(cost: seq<seq<int>>, x: seq<seq<int>>, n: nat, r: nat)
    requires IsSquare(cost, n) && IsSquare(x, n) && r <= n
    ensures OnesRows(cost, x, n, r) == EdgeCost(cost, ChosenRows(x, n, r))
  {
    if r > 0 {
      var a, b := ChosenRows(x, n, r - 1), RowChosen(x, r - 1, n);
      OnesRowsIsEdgeCost(cost, x, n, r - 1);
      OnesCostIsEdgeCost(cost, x, n, r - 1, n);
      assert ChosenRows(x, n, r) == a + b;
      EdgeCostAppend(cost, a, b);
      assert OnesRows(cost, x, n, r) == OnesRows(cost, x, n, r - 1) + OnesCost(cost[r - 1], x[r - 1], n);
    }
  }

  /** On binary x the objective is the total cost of the edges the read-back
      reports, each counted once. */
  lemma ObjectiveIsReportedCost(cost: seq<seq<int>>, x: seq<seq<int>>, n: nat)
    requires IsSquare(cost, n) && IsSquare(x, n) && IsBinary(x)
    ensures Objective(cost, x, n) == EdgeCost(cost, Chosen(x, n))
  {
    ObjectiveRowsOfBinary(cost, x, n, n);
    OnesRowsIsEdgeCost(cost, x, n, n);
  }

  /** The number of 1s on the diagonal in rows 0 .. r - 1. */
  function DiagonalOnes(x: seq<seq<int>>, n: nat, r: nat): int
    requires IsSquare(x, n) && r <= n
  {
    if r == 0 then 0 else DiagonalOnes(x, n, r - 1) + x[r - 1][r - 1]
  }

  lemma {:induction false} OnesInFeasibleRows(x: seq<seq<int>>, u: seq<real>, n: nat, r: nat)
    requires Feasible(x, u, n) && r <= n
    ensures OnesInRows(x, n, r) == r + DiagonalOnes(x, n, r)
  {
    if r > 0 {
      OnesInFeasibleRows(x, u, n, r - 1);
      SumSplit(x[r - 1], r - 1, n);
      OnesOfBinary(x[r - 1], n);
      assert OutDegree(x, n, r - 1) == 1;
    }
  }

  /** For an answer that passes the script's constraints, the read-back
      reports N edges plus one for every 1 on the diagonal. */
  lemma FeasibleReportCount(x: seq<seq<int>>, u: seq<real>, n: nat)
    requires Feasible(x, u, n)
    ensures |Chosen(x, n)| == n + DiagonalOnes(x, n, n)
  {
    ChosenCount(x, n);
    OnesInFeasibleRows(x, u, n, n);
  }

  /** The N = 3 answer that takes the tour 1 -> 2 -> 3 -> 1 and also sets
      the diagonal variable of feature 1. */
  function SelfLoopAnswer(): seq<seq<int>> {
    [[1, 1, 0], [0, 0, 1], [1, 0, 0]]
  }

  lemma SelfLoopDegrees()
    ensures IsSquare(SelfLoopAnswer(), 3) && IsBinary(SelfLoopAnswer())
    ensures DegreeConstraints(SelfLoopAnswer(), 3)
  {
    var x := SelfLoopAnswer();
    assert IsSquare(x, 3);
    assert IsBinary(x) by {
      assert IsBinarySeq(x[0]) && IsBinarySeq(x[1]) && IsBinarySeq(x[2]);
    }
    var next := [1, 2, 0];
    var prev := [2, 0, 1];
    forall i | 0 <= i < 3 ensures OutDegree(x, 3, i) == 1 && InDegree(x, 3, i) == 1 {
      SumOneOfOnlyOne(x[i], i, 3, next[i]);
      SumOneOfOnlyOne(Column(x, 3, i), i, 3, prev[i]);
    }
  }

  /** As written, the constraints let a self-loop through: the answer above
      passes every constraint, costs the same as the plain tour whenever the
      diagonal costs 0, and makes the read-back report four edges, among
      them "From Feature 1 to Feature 1". */
  lemma SelfLoopPassesConstraints()
    ensures Feasible(SelfLoopAnswer(), [0.0, 1.0, 2.0], 3)
    ensures (1, 1) in Chosen(SelfLoopAnswer(), 3)
    ensures |Chosen(SelfLoopAnswer(), 3)| == 3 + 1
  {
    var x, u := SelfLoopAnswer(), [0.0, 1.0, 2.0];
    SelfLoopDegrees();
    assert MtzRow(x, u, 3, 1, 2) && MtzRow(x, u, 3, 2, 1);
    assert MtzConstraints(x, u, 3);
    FeasibleReportCount(x, u, 3);
    assert DiagonalOnes(x, 3, 1) == 1;
    assert DiagonalOnes(x, 3, 3) == 1;
    ChosenMembers(x, 3);
  }

  /** The constraint set as intended, with the diagonal variables held at 0
      (there is no variable for i == j). */
  predicate FeasibleTour(x: seq<seq<int>>, u: seq<real>, n: nat) {
    Feasible(x, u, n) && ZeroDiagonal(x, n)
  }

  lemma {:induction false} NoDiagonalOnes(x: seq<seq<int>>, n: nat, r: nat)
    requires IsSquare(x, n) && ZeroDiagonal(x, n) && r <= n
    ensures DiagonalOnes(x, n, r) == 0
  {
    if r > 0 {
      NoDiagonalOnes(x, n, r - 1);
    }
  }

  /** Step k of the walk from node 0, as the read-back labels it. */
  function WalkStep(x: seq<seq<int>>, n: nat, k: nat): (nat, nat)
    requires IsSquare(x, n)
  {
    (Walk(x, n, 0, k) + 1, Walk(x, n, 0, k + 1) + 1)
  }

  /** Every reported edge of an answer with a zero diagonal is a step of the walk from node 0. */
  /** The step of the walk from node 0 that a chosen edge off the diagonal takes. */
  lemma EdgeIsStep(x: seq<seq<int>>, u: seq<real>, n: nat, a: nat, b: nat) returns (k: nat)
    requires Feasible(x, u, n) && n >= 1 && a < n && b < n && a != b && x[a][b] == 1
    ensures k < n && WalkStep(x, n, k) == (a + 1, b + 1)
  {
    SuccUnique(x, n, a);
    WalkIsHamiltonian(x, u, n);
    assert a in Orbit(x, n, 0, n);
    k :| 0 <= k < n && Orbit(x, n, 0, n)[k] == a;
    assert Walk(x, n, 0, k + 1) == Succ(x, n, a);
  }

  /** Every reported edge of an answer with a zero diagonal is a step of the walk from node 0. */
  lemma ReportedEdgesAreSteps(x: seq<seq<int>>, u: seq<real>, n: nat)
    requires FeasibleTour(x, u, n) && n >= 1
    ensures forall e :: e in Chosen(x, n) ==> exists k :: 0 <= k < n && e == WalkStep(x, n, k)
  {
    ChosenMembers(x, n);
    forall e | e in Chosen(x, n)
      ensures exists k :: 0 <= k < n && e == WalkStep(x, n, k)
    {
      var k := EdgeIsStep(x, u, n, e.0 - 1, e.1 - 1);
    }
  }

  /** Every step of the walk from node 0 is reported. */
  lemma StepsAreReported(x: seq<seq<int>>, u: seq<real>, n: nat)
    requires Feasible(x, u, n) && n >= 1
    ensures forall k :: 0 <= k < n ==> WalkStep(x, n, k) in Chosen(x, n)
  {
    ChosenMembers(x, n);
    forall k | 0 <= k < n ensures WalkStep(x, n, k) in Chosen(x, n) {
      WalkBelow(x, n, 0, k);
      SuccUnique(x, n, Walk(x, n, 0, k));
    }
  }

  /** With the diagonal held at 0, the read-back reports exactly N edges, and
      they are exactly the N steps of the walk from node 0. */
  lemma FeasibleTourReportsTour(x: seq<seq<int>>, u: seq<real>, n: nat)
    requires FeasibleTour(x, u, n) && n >= 1
    ensures |Chosen(x, n)| == n
    ensures forall e :: e in Chosen(x, n) <==> exists k :: 0 <= k < n && e == WalkStep(x, n, k)
  {
    FeasibleReportCount(x, u, n);
    NoDiagonalOnes(x, n, n);
    ReportedEdgesAreSteps(x, u, n);
    StepsAreReported(x, u, n);
  }

  /** Some order variables make x pass the intended constraints. */
  ghost predicate Consistent(x: seq<seq<int>>, n: nat) {
    exists u :: FeasibleTour(x, u, n)
  }

  /** On an answer that passes the intended constraints, the walk from node 0
      stays on the nodes, meets no node twice in its first N steps, is back
      at node 0 after N steps, and the read-back reports N edges. */
  lemma ConsistentWalk(x: seq<seq<int>>, n: nat)
    requires IsSquare(x, n) && n >= 1
    ensures Consistent(x, n) ==>
      && Walk(x, n, 0, n) == 0 && |Chosen(x, n)| == n
      && (forall k :: 0 <= k <= n ==> Walk(x, n, 0, k) < n)
      && (forall a, b :: 0 <= a < b < n ==> Walk(x, n, 0, a) != Walk(x, n, 0, b))
  {
    if Consistent(x, n) {
      var u :| FeasibleTour(x, u, n);
      WalkIsHamiltonian(x, u, n);
      FeasibleTourReportsTour(x, u, n);
      forall k | 0 <= k <= n ensures Walk(x, n, 0, k) < n {
        WalkBelow(x, n, 0, k);
      }
      var o := Orbit(x, n, 0, n);
      forall a, b | 0 <= a < b < n ensures Walk(x, n, 0, a) != Walk(x, n, 0, b) {
        assert o[a] != o[b];
      }
    }
  }

  /** t is the first |t| nodes of the walk from node 0, all of them nodes and none twice. */
  predicate WalkPrefix(x: seq<seq<int>>, n: nat, t: seq<nat>)
    requires IsSquare(x, n)
  {
    && 1 <= |t| <= n && Distinct(t)
    && forall k :: 0 <= k < |t| ==> t[k] < n && t[k] == Walk(x, n, 0, k)
  }

  /** One more step of the walk keeps a prefix a prefix, unless it leaves the
      nodes or meets a node already on it; on a consistent answer it does neither. */
  lemma PrefixStep(x: seq<seq<int>>, n: nat, t: seq<nat>)
    requires IsSquare(x, n) && WalkPrefix(x, n, t) && |t| < n
    ensures Walk(x, n, 0, |t|) == Succ(x, n, t[|t| - 1])
    ensures Succ(x, n, t[|t| - 1]) < n && Succ(x, n, t[|t| - 1]) !in t ==>
      WalkPrefix(x, n, t + [Succ(x, n, t[|t| - 1])])
    ensures Consistent(x, n) ==> Succ(x, n, t[|t| - 1]) < n && Succ(x, n, t[|t| - 1]) !in t
  {
    var next := Succ(x, n, t[|t| - 1]);
    ConsistentWalk(x, n);
    if next < n && next !in t {
      var t' := t + [next];
      forall a, b | 0 <= a < b < |t'| ensures t'[a] != t'[b] {
        if b == |t| {
          assert t[a] in t;
        }
      }
    }
    if Consistent(x, n) {
      forall k | 0 <= k < |t| ensures t[k] != next {
        assert Walk(x, n, 0, k) != Walk(x, n, 0, |t|);
      }
    }
  }

  /** A prefix of all N nodes whose last node leads back to node 0 is a tour
      along chosen edges. */
  lemma PrefixCloses(x: seq<seq<int>>, n: nat, t: seq<nat>)
    requires IsSquare(x, n) && WalkPrefix(x, n, t) && |t| == n
    ensures Walk(x, n, 0, n) == Succ(x, n, t[n - 1])
    ensures Succ(x, n, t[n - 1]) == 0 ==> IsTour(t, n) && IsCycle(x, n, t)
  {
    forall k | 0 <= k < n - 1 ensures t[k] != t[k + 1] && x[t[k]][t[k + 1]] == 1 {
      assert Walk(x, n, 0, k + 1) == Succ(x, n, t[k]);
    }
    if Succ(x, n, t[n - 1]) == 0 {
      assert x[t[n - 1]][0] == 1 && t[n - 1] != 0;
      assert forall k :: 0 <= k < |t| ==> t[k] != CycleNext(t, k) && x[t[k]][CycleNext(t, k)] == 1;
    }
  }

  /** What the tour extractor hands back. */
  datatype Extraction = Tour(order: seq<nat>) | InconsistentSolution

  /** The tour extractor: starting at node 0, follow the successor of each
      node until N nodes are on the list, then check that the last one leads
      back to node 0 and that exactly N edges are chosen. */
  method ExtractTour(x: seq<seq<int>>, n: nat) returns (r: Extraction)
    requires IsSquare(x, n) && n >= 1
    ensures r.Tour? ==> IsTour(r.order, n) && IsCycle(x, n, r.order) && |Chosen(x, n)| == n
    ensures r.Tour? ==> forall k :: 0 <= k < n ==> r.order[k] == Walk(x, n, 0, k)
    ensures Consistent(x, n) ==> r.Tour?
  {
    ConsistentWalk(x, n);
    var t: seq<nat> := [0];
    var cur: nat := 0;
    while |t| < n
      invariant WalkPrefix(x, n, t) && cur == t[|t| - 1]
    {
      var next := Succ(x, n, cur);
      PrefixStep(x, n, t);
      if next == n || next in t {
        return InconsistentSolution;
      }
      t := t + [next];
      cur := next;
    }
    PrefixCloses(x, n, t);
    if Succ(x, n, cur) != 0 || |Chosen(x, n)| != n {
      return InconsistentSolution;
    }
    r := Tour(t);
  }
}
