/** The integer program the script writes down: the objective, the degree
    constraints and the Miller-Tucker-Zemlin (MTZ) subtour-elimination
    constraints, as conditions on a candidate assignment.

    x[i][j] is the value of the 0/1 variable "the path goes from node i to
    node j"; u[i] is the value of the continuous order variable of node i. */
module ModelBuilder {
  import opened Grids

  /** cost[0] * s[0] + ... + cost[m - 1] * s[m - 1]. */
  function RowCost(c: seq<int>, s: seq<int>, m: nat): int
    requires m <= |c| && m <= |s|
  {
    if m == 0 then 0 else RowCost(c, s, m - 1) + c[m - 1] * s[m - 1]
  }

  function ObjectiveRows(cost: seq<seq<int>>, x: seq<seq<int>>, n: nat, r: nat): int
    requires IsSquare(cost, n) && IsSquare(x, n) && r <= n
  {
    if r == 0 then 0 else ObjectiveRows(cost, x, n, r - 1) + RowCost(cost[r - 1], x[r - 1], n)
  }

  /** The objective: cost[i][j] * x[i][j] summed over ALL ordered pairs,
      the diagonal included. */
  function Objective(cost: seq<seq<int>>, x: seq<seq<int>>, n: nat): int
    requires IsSquare(cost, n) && IsSquare(x, n)
  {
    ObjectiveRows(cost, x, n, n)
  }

  /** Left-hand side of "leave node i once": x[i][j] summed over j != i. */
  function OutDegree(x: seq<seq<int>>, n: nat, i: nat): int
    requires IsSquare(x, n) && i < n
  {
    SumExcept(x[i], i, n)
  }

  /** Left-hand side of "enter node i once": x[j][i] summed over j != i. */
  function InDegree(x: seq<seq<int>>, n: nat, i: nat): int
    requires IsSquare(x, n) && i < n
  {
    SumExcept(Column(x, n, i), i, n)
  }

  /** Both degree constraints, for every node. */
  predicate DegreeConstraints(x: seq<seq<int>>, n: nat)
    requires IsSquare(x, n)
  {
    forall i :: 0 <= i < n ==> OutDegree(x, n, i) == 1 && InDegree(x, n, i) == 1
  }

  /** The bounds 0 <= u[i] <= N - 1 of every order variable, u[0] included. */
  predicate OrderBounds(u: seq<real>, n: nat) {
    |u| == n && forall i :: 0 <= i < n ==> 0.0 <= u[i] <= (n - 1) as real
  }

  /** One MTZ row: u[i] - u[j] + (N - 1) * x[i][j] <= N - 2. */
  predicate MtzRow(x: seq<seq<int>>, u: seq<real>, n: nat, i: nat, j: nat)
    requires IsSquare(x, n) && |u| == n && i < n && j < n
  {
    u[i] - u[j] + (n - 1) as real * x[i][j] as real <= (n - 2) as real
  }

  /** The MTZ rows for every ordered pair of distinct nodes in 1 .. N - 1;
      node 0 takes part in none. */
  predicate MtzConstraints(x: seq<seq<int>>, u: seq<real>, n: nat)
    requires IsSquare(x, n) && |u| == n
  {
    forall i, j :: 1 <= i < n && 1 <= j < n && i != j ==> MtzRow(x, u, n, i, j)
  }

  /** Everything the script asks of the solver's answer: binary x, the degree
      constraints, the bounds on u and the MTZ rows. */
  predicate Feasible(x: seq<seq<int>>, u: seq<real>, n: nat) {
    && IsSquare(x, n)
    && IsBinary(x)
    && DegreeConstraints(x, n)
    && OrderBounds(u, n)
    && MtzConstraints(x, u, n)
  }

  predicate ZeroDiagonal(x: seq<seq<int>>, n: nat)
    requires IsSquare(x, n)
  {
    forall i :: 0 <= i < n ==> x[i][i] == 0
  }

  /** On binary x, "leave node i once" holds exactly when row i has a single
      1 off the diagonal: node i has a unique successor. */
  lemma OutDegreeOneIff(x: seq<seq<int>>, n: nat, i: nat)
    requires IsSquare(x, n) && IsBinary(x) && i < n
    ensures OutDegree(x, n, i) == 1 <==> UniqueOneExcept(x[i], i, n)
  {
    SumExceptOne(x[i], i, n);
  }

  /** On binary x, "enter node i once" holds exactly when column i has a
      single 1 off the diagonal: node i has a unique predecessor. */
  lemma InDegreeOneIff(x: seq<seq<int>>, n: nat, i: nat)
    requires IsSquare(x, n) && IsBinary(x) && i < n
    ensures InDegree(x, n, i) == 1 <==> UniqueOneExcept(Column(x, n, i), i, n)
  {
    var c := Column(x, n, i);
    assert IsBinarySeq(c) by {
      forall k | 0 <= k < n ensures c[k] == 0 || c[k] == 1 {
        assert IsBinarySeq(x[k]);
      }
    }
    SumExceptOne(c, i, n);
  }

  /** On a chosen edge between two nodes other than 0, the MTZ row forces the
      order variable to grow by at least one. */
  lemma MtzForcesIncrease(x: seq<seq<int>>, u: seq<real>, n: nat, i: nat, j: nat)
    requires IsSquare(x, n) && |u| == n && 1 <= i < n && 1 <= j < n && i != j
    requires MtzConstraints(x, u, n) && x[i][j] == 1
    ensures u[j] >= u[i] + 1.0
  {
    assert MtzRow(x, u, n, i, j);
  }

  /** With a single node, "leave node 0 once" sums over no variable at all,
      so the constraint system has no solution. */
  lemma SingleNodeInfeasible(x: seq<seq<int>>)
    requires IsSquare(x, 1)
    ensures !DegreeConstraints(x, 1)
  {
    assert SumExcept(x[0], 0, 0) == 0;
    assert OutDegree(x, 1, 0) == 0;
  }

  /** x with the entry at (i, j) replaced by b. */
  function SetCell(x: seq<seq<int>>, n: nat, i: nat, j: nat, b: int): (y: seq<seq<int>>)
    requires IsSquare(x, n) && i < n && j < n
    ensures IsSquare(y, n) && y[i][j] == b
    ensures forall k, l :: 0 <= k < n && 0 <= l < n && (k, l) != (i, j) ==> y[k][l] == x[k][l]
  {
    x[i := x[i][j := b]]
  }

  lemma {:induction false} RowCostUpdate(c: seq<int>, s: seq<int>, m: nat, j: nat, b: int)
    requires m <= |c| && m <= |s| && j < |s|
    ensures RowCost(c, s[j := b], m) == RowCost(c, s, m) + (if j < m then c[j] * (b - s[j]) else 0)
  {
    if m > 0 {
      RowCostUpdate(c, s, m - 1, j, b);
      if j == m - 1 {
        assert c[j] * b == c[j] * s[j] + c[j] * (b - s[j]);
      }
    }
  }

  lemma {:induction false} ObjectiveRowsUpdate(cost: seq<seq<int>>, x: seq<seq<int>>, n: nat, r: nat, i: nat, b: int)
    requires IsSquare(cost, n) && IsSquare(x, n) && r <= n && i < n
    ensures ObjectiveRows(cost, SetCell(x, n, i, i, b), n, r)
      == ObjectiveRows(cost, x, n, r) + (if i < r then cost[i][i] * (b - x[i][i]) else 0)
  {
    if r > 0 {
      ObjectiveRowsUpdate(cost, x, n, r - 1, i, b);
      var y := SetCell(x, n, i, i, b);
      if i == r - 1 {
        assert y[i] == x[i][i := b];
        RowCostUpdate(cost[i], x[i], n, i, b);
      } else {
        assert y[r - 1] == x[r - 1];
      }
    }
  }

  /** The diagonal variables x[i][i] occur in the objective but in no
      constraint: flipping one between 0 and 1 keeps every constraint as it
      was and moves the objective by cost[i][i] times the change. */
  lemma DiagonalUnconstrained(cost: seq<seq<int>>, x: seq<seq<int>>, u: seq<real>, n: nat, i: nat, b: int)
    requires IsSquare(cost, n) && IsSquare(x, n) && i < n
    requires (b == 0 || b == 1) && (x[i][i] == 0 || x[i][i] == 1)
    ensures DegreeConstraints(x, n) <==> DegreeConstraints(SetCell(x, n, i, i, b), n)
    ensures |u| == n ==> (MtzConstraints(x, u, n) <==> MtzConstraints(SetCell(x, n, i, i, b), u, n))
    ensures Feasible(x, u, n) <==> Feasible(SetCell(x, n, i, i, b), u, n)
    ensures Objective(cost, SetCell(x, n, i, i, b), n) == Objective(cost, x, n) + cost[i][i] * (b - x[i][i])
  {
    var y := SetCell(x, n, i, i, b);
    forall k | 0 <= k < n
      ensures OutDegree(x, n, k) == OutDegree(y, n, k) && InDegree(x, n, k) == InDegree(y, n, k)
    {
      SumExceptIgnoresExcluded(x[k], y[k], k, n);
      SumExceptIgnoresExcluded(Column(x, n, k), Column(y, n, k), k, n);
    }
    if |u| == n {
      forall k, l | 1 <= k < n && 1 <= l < n && k != l
        ensures MtzRow(x, u, n, k, l) == MtzRow(y, u, n, k, l)
      {
      }
    }
    assert IsBinary(x) <==> IsBinary(y) by {
      forall k | 0 <= k < n ensures IsBinarySeq(x[k]) <==> IsBinarySeq(y[k]) {
        if k != i {
          assert x[k] == y[k];
        }
      }
    }
    ObjectiveRowsUpdate(cost, x, n, n, i, b);
  }
}
