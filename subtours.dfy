/** What the degree and MTZ constraints mean for the path the solver picks:
    the successor map, the walk from node 0, why no cycle can avoid node 0,
    and why every genuine tour passes the constraints. */
module Subtours {
  import opened Grids
  import opened ModelBuilder

  /** The first index k >= from with k != e and s[k] == 1, or |s| if there is none. */
  function FirstOne(s: seq<int>, e: int, from: nat): (r: nat)
    requires from <= |s|
    decreases |s| - from
    ensures from <= r <= |s|
    ensures r < |s| ==> r != e && s[r] == 1
    ensures forall k :: from <= k < r && k != e ==> s[k] != 1
  {
    if from == |s| then |s|
    else if from != e && s[from] == 1 then from
    else FirstOne(s, e, from + 1)
  }

  /** The successor of node i: the column of the first 1 off the diagonal in
      row i, or N when row i has none. */
  function Succ(x: seq<seq<int>>, n: nat, i: nat): (j: nat)
    requires IsSquare(x, n) && i < n
    ensures j <= n
  {
    FirstOne(x[i], i, 0)
  }

  /** Under "leave node i once", Succ names the one node i goes to. */
  lemma SuccUnique(x: seq<seq<int>>, n: nat, i: nat)
    requires IsSquare(x, n) && IsBinary(x) && i < n && OutDegree(x, n, i) == 1
    ensures Succ(x, n, i) < n && Succ(x, n, i) != i && x[i][Succ(x, n, i)] == 1
    ensures forall j :: 0 <= j < n && j != i && x[i][j] == 1 ==> j == Succ(x, n, i)
  {
    OutDegreeOneIff(x, n, i);
    var j :| 0 <= j < n && j != i && x[i][j] == 1 &&
      forall k :: 0 <= k < n && k != i && x[i][k] == 1 ==> k == j;
    assert Succ(x, n, i) <= j;
  }

  /** Some node has j as its successor. */
  predicate HasPredecessor(x: seq<seq<int>>, n: nat, j: nat)
    requires IsSquare(x, n)
  {
    exists i :: 0 <= i < n && Succ(x, n, i) == j
  }

  /** Under "enter node j once", two nodes with the same successor are the same node. */
  lemma SuccInjective(x: seq<seq<int>>, n: nat, i: nat, k: nat)
    requires IsSquare(x, n) && IsBinary(x) && DegreeConstraints(x, n) && i < n && k < n
    ensures Succ(x, n, i) == Succ(x, n, k) ==> i == k
  {
    if Succ(x, n, i) == Succ(x, n, k) {
      SuccUnique(x, n, i);
      SuccUnique(x, n, k);
      var j := Succ(x, n, i);
      InDegreeOneIff(x, n, j);
      var c := Column(x, n, j);
      assert c[i] == 1 && c[k] == 1;
    }
  }

  /** The off-diagonal 1s of x are the graph of a fixed-point-free
      permutation of the nodes 0 .. N - 1, and Succ is that permutation. */
  predicate SuccessorIsPermutation(x: seq<seq<int>>, n: nat)
    requires IsSquare(x, n)
  {
    && (forall i :: 0 <= i < n ==> Succ(x, n, i) < n && Succ(x, n, i) != i)
    && (forall i, j :: 0 <= i < n && 0 <= j < n && j != i && x[i][j] == 1 ==> j == Succ(x, n, i))
    && (forall i, k :: 0 <= i < n && 0 <= k < n && Succ(x, n, i) == Succ(x, n, k) ==> i == k)
    && (forall j :: 0 <= j < n ==> HasPredecessor(x, n, j))
  }

  /** The two degree constraints together hold of a binary x exactly when each
      node has a unique successor and these successors form a permutation
      without fixed points. */
  lemma DegreeIffPermutation(x: seq<seq<int>>, n: nat)
    requires IsSquare(x, n) && IsBinary(x)
    ensures DegreeConstraints(x, n) <==> SuccessorIsPermutation(x, n)
  {
    if DegreeConstraints(x, n) {
      forall i | 0 <= i < n
        ensures Succ(x, n, i) < n && Succ(x, n, i) != i && x[i][Succ(x, n, i)] == 1
        ensures forall j :: 0 <= j < n && j != i && x[i][j] == 1 ==> j == Succ(x, n, i)
      {
        SuccUnique(x, n, i);
      }
      forall i, k | 0 <= i < n && 0 <= k < n
        ensures Succ(x, n, i) == Succ(x, n, k) ==> i == k
      {
        SuccInjective(x, n, i, k);
      }
      forall j | 0 <= j < n
        ensures HasPredecessor(x, n, j)
      {
        InDegreeOneIff(x, n, j);
        var c := Column(x, n, j);
        var i :| 0 <= i < n && i != j && c[i] == 1 &&
          forall k :: 0 <= k < n && k != j && c[k] == 1 ==> k == i;
        assert Succ(x, n, i) == j;
      }
    }
    if SuccessorIsPermutation(x, n) {
      forall i | 0 <= i < n
        ensures OutDegree(x, n, i) == 1 && InDegree(x, n, i) == 1
      {
        SumOneOfOnlyOne(x[i], i, n, Succ(x, n, i));
        assert HasPredecessor(x, n, i);
        var p :| 0 <= p < n && Succ(x, n, p) == i;
        var c := Column(x, n, i);
        forall k | 0 <= k < n && k != i && c[k] == 1 ensures k == p {
          assert Succ(x, n, k) == i;
        }
        SumOneOfOnlyOne(c, i, n, p);
      }
    }
  }

  /** Node s after k steps along the successor map; a walk that meets a node
      without successor stays at N from then on. */
  function Walk(x: seq<seq<int>>, n: nat, s: nat, k: nat): (w: nat)
    requires IsSquare(x, n) && s <= n
    ensures w <= n
  {
    if k == 0 then s
    else
      var w := Walk(x, n, s, k - 1);
      if w < n then Succ(x, n, w) else n
  }

  /** c is a closed path along chosen edges: each c[k] goes to the next
      element, the last one back to c[0], and no step stays on its node. */
  predicate IsCycle(x: seq<seq<int>>, n: nat, c: seq<nat>)
    requires IsSquare(x, n)
  {
    && |c| >= 1
    && (forall k :: 0 <= k < |c| ==> c[k] < n)
    && (forall k :: 0 <= k < |c| ==> c[k] != CycleNext(c, k) && x[c[k]][CycleNext(c, k)] == 1)
  }

  function CycleNext(c: seq<nat>, k: nat): nat
    requires k < |c|
  {
    if k + 1 < |c| then c[k + 1] else c[0]
  }

  /** Order values that grow by at least one from each element of c to the
      next grow by at least k over the first k steps. */
  lemma {:induction false} OrderGrowsAlongCycle(u: seq<real>, c: seq<nat>, k: nat)
    requires forall m :: 0 <= m < |c| ==> c[m] < |u|
    requires forall m :: 1 <= m < |c| ==> u[c[m]] >= u[c[m - 1]] + 1.0
    requires k < |c|
    ensures u[c[k]] >= u[c[0]] + k as real
  {
    if k > 0 {
      OrderGrowsAlongCycle(u, c, k - 1);
    }
  }

  /** MTZ soundness: no order variables satisfy the MTZ rows when the chosen
      edges contain a cycle that avoids node 0. */
  lemma SubtourViolatesMtz(x: seq<seq<int>>, u: seq<real>, n: nat, c: seq<nat>)
    requires IsSquare(x, n) && |u| == n && IsCycle(x, n, c)
    requires forall m :: 0 <= m < |c| ==> c[m] != 0
    ensures !MtzConstraints(x, u, n)
  {
    if MtzConstraints(x, u, n) {
      forall m | 1 <= m < |c| ensures u[c[m]] >= u[c[m - 1]] + 1.0 {
        assert CycleNext(c, m - 1) == c[m];
        MtzForcesIncrease(x, u, n, c[m - 1], c[m]);
      }
      var last := |c| - 1;
      OrderGrowsAlongCycle(u, c, last);
      MtzForcesIncrease(x, u, n, c[last], c[0]);
    }
  }

  /** Two separate 2-cycles on four nodes: 0 <-> 1 and 2 <-> 3. */
  function TwoSubtours(): seq<seq<int>> {
    [[0, 1, 0, 0], [1, 0, 0, 0], [0, 0, 0, 1], [0, 0, 1, 0]]
  }

  lemma TwoSubtoursDegrees()
    ensures IsSquare(TwoSubtours(), 4) && IsBinary(TwoSubtours()) && ZeroDiagonal(TwoSubtours(), 4)
    ensures DegreeConstraints(TwoSubtours(), 4)
  {
    var x := TwoSubtours();
    assert IsSquare(x, 4);
    assert IsBinary(x) by {
      assert IsBinarySeq(x[0]) && IsBinarySeq(x[1]) && IsBinarySeq(x[2]) && IsBinarySeq(x[3]);
    }
    var partner := [1, 0, 3, 2];
    forall i | 0 <= i < 4 ensures OutDegree(x, 4, i) == 1 && InDegree(x, 4, i) == 1 {
      SumOneOfOnlyOne(x[i], i, 4, partner[i]);
      SumOneOfOnlyOne(Column(x, 4, i), i, 4, partner[i]);
    }
  }

  /** The degree constraints alone are not enough: two separate 2-cycles pass
      them, and no choice of order variables lets them through the MTZ rows. */
  lemma DegreeAloneAdmitsSubtours()
    ensures IsSquare(TwoSubtours(), 4) && IsBinary(TwoSubtours()) && ZeroDiagonal(TwoSubtours(), 4)
    ensures DegreeConstraints(TwoSubtours(), 4)
    ensures forall u: seq<real> :: |u| == 4 ==> !MtzConstraints(TwoSubtours(), u, 4)
  {
    TwoSubtoursDegrees();
    var x := TwoSubtours();
    assert IsCycle(x, 4, [2, 3]) by {
      assert CycleNext([2, 3], 0) == 3 && CycleNext([2, 3], 1) == 2;
    }
    forall u: seq<real> | |u| == 4 ensures !MtzConstraints(x, u, 4) {
      SubtourViolatesMtz(x, u, 4, [2, 3]);
    }
  }

  lemma {:induction false} WalkBelow(x: seq<seq<int>>, n: nat, s: nat, k: nat)
    requires IsSquare(x, n) && IsBinary(x) && DegreeConstraints(x, n) && s < n
    ensures Walk(x, n, s, k) < n
  {
    if k > 0 {
      WalkBelow(x, n, s, k - 1);
      SuccUnique(x, n, Walk(x, n, s, k - 1));
    }
  }

  /** One step first, then k more: Walk(s, k + 1) is Walk(Succ(s), k). */
  lemma {:induction false} WalkShift(x: seq<seq<int>>, n: nat, s: nat, k: nat)
    requires IsSquare(x, n) && IsBinary(x) && DegreeConstraints(x, n) && s < n
    ensures Succ(x, n, s) < n && Walk(x, n, s, k + 1) == Walk(x, n, Succ(x, n, s), k)
  {
    SuccUnique(x, n, s);
    if k > 0 {
      WalkShift(x, n, s, k - 1);
    }
  }

  /** Two walks from s that meet after a and b steps also met t steps earlier,
      because Succ is injective. */
  lemma {:induction false} WalkCancel(x: seq<seq<int>>, n: nat, s: nat, a: nat, b: nat, t: nat)
    requires IsSquare(x, n) && IsBinary(x) && DegreeConstraints(x, n) && s < n
    requires t <= a && t <= b
    ensures Walk(x, n, s, a) == Walk(x, n, s, b) ==> Walk(x, n, s, a - t) == Walk(x, n, s, b - t)
  {
    if t > 0 && Walk(x, n, s, a) == Walk(x, n, s, b) {
      WalkBelow(x, n, s, a - 1);
      WalkBelow(x, n, s, b - 1);
      SuccInjective(x, n, Walk(x, n, s, a - 1), Walk(x, n, s, b - 1));
      WalkCancel(x, n, s, a - 1, b - 1, t - 1);
    }
  }

  /** From any node other than 0 the walk reaches node 0 within N steps: along
      the way the MTZ rows raise the order variable by one per step, and the
      bounds cap it at N - 1. The result is the first visit of node 0. */
  lemma ReachesDepot(x: seq<seq<int>>, u: seq<real>, n: nat, v: nat) returns (m: nat)
    requires Feasible(x, u, n) && 1 <= v < n
    ensures 1 <= m <= n && Walk(x, n, v, m) == 0
    ensures forall k :: 0 <= k < m ==> Walk(x, n, v, k) != 0
  {
    m := 0;
    while Walk(x, n, v, m) != 0
      invariant m <= n
      invariant forall k :: 0 <= k < m ==> Walk(x, n, v, k) != 0
      invariant Walk(x, n, v, m) < n
      invariant Walk(x, n, v, m) != 0 ==> m <= n - 1 && u[Walk(x, n, v, m)] >= m as real
      decreases n - m
    {
      var w := Walk(x, n, v, m);
      SuccUnique(x, n, w);
      var next := Succ(x, n, w);
      if next != 0 {
        MtzForcesIncrease(x, u, n, w, next);
        assert m + 1 <= n - 1;
      }
      m := m + 1;
    }
  }

  /** The nodes met by the walk from s in its first r steps. */
  function Orbit(x: seq<seq<int>>, n: nat, s: nat, r: nat): (o: seq<nat>)
    requires IsSquare(x, n) && s <= n
    ensures |o| == r && forall k :: 0 <= k < r ==> o[k] == Walk(x, n, s, k)
  {
    seq(r, k requires 0 <= k < r => Walk(x, n, s, k))
  }

  /** A node whose successor lies on the closed orbit of node 0 lies on it too. */
  lemma PredecessorOnOrbit(x: seq<seq<int>>, n: nat, r: nat, a: nat)
    requires IsSquare(x, n) && IsBinary(x) && DegreeConstraints(x, n) && 1 <= r && 1 <= n
    requires Walk(x, n, 0, r) == 0 && a < n && Succ(x, n, a) in Orbit(x, n, 0, r)
    ensures a in Orbit(x, n, 0, r)
  {
    DegreeIffPermutation(x, n);
    var o := Orbit(x, n, 0, r);
    var j :| 0 <= j < r && o[j] == Succ(x, n, a);
    var p := if j >= 1 then j - 1 else r - 1;
    WalkBelow(x, n, 0, p);
    assert Walk(x, n, 0, p + 1) == Succ(x, n, Walk(x, n, 0, p));
    assert o[p] == a;
  }

  lemma {:induction false} BackToOrbit(x: seq<seq<int>>, n: nat, r: nat, v: nat, k: nat)
    requires IsSquare(x, n) && IsBinary(x) && DegreeConstraints(x, n) && 1 <= r && 1 <= n
    requires Walk(x, n, 0, r) == 0 && v < n && Walk(x, n, v, k) in Orbit(x, n, 0, r)
    ensures v in Orbit(x, n, 0, r)
  {
    if k > 0 {
      WalkBelow(x, n, v, k - 1);
      PredecessorOnOrbit(x, n, r, Walk(x, n, v, k - 1));
      BackToOrbit(x, n, r, v, k - 1);
    }
  }

  /** MTZ soundness for the whole answer: the walk from node 0 visits every one
      of the N nodes exactly once and is back at node 0 after exactly N steps,
      so the chosen edges off the diagonal form a single tour. */
  lemma WalkIsHamiltonian(x: seq<seq<int>>, u: seq<real>, n: nat)
    requires Feasible(x, u, n) && n >= 1
    ensures Walk(x, n, 0, n) == 0
    ensures forall k :: 1 <= k < n ==> Walk(x, n, 0, k) != 0
    ensures Distinct(Orbit(x, n, 0, n))
    ensures forall v :: 0 <= v < n ==> v in Orbit(x, n, 0, n)
  {
    SuccUnique(x, n, 0);
    var first := Succ(x, n, 0);
    var m := ReachesDepot(x, u, n, first);
    var r := m + 1;
    forall k | 0 <= k < m ensures Walk(x, n, 0, k + 1) == Walk(x, n, first, k) {
      WalkShift(x, n, 0, k);
    }
    WalkShift(x, n, 0, m);
    assert Walk(x, n, 0, r) == 0;
    assert forall k :: 1 <= k < r ==> Walk(x, n, 0, k) != 0 by {
      forall k | 1 <= k < r ensures Walk(x, n, 0, k) != 0 {
        assert Walk(x, n, 0, (k - 1) + 1) == Walk(x, n, first, k - 1);
      }
    }
    var o := Orbit(x, n, 0, r);
    forall k | 0 <= k < r ensures o[k] < n {
      WalkBelow(x, n, 0, k);
    }
    forall v | 0 <= v < n ensures v in o {
      if v == 0 {
        assert o[0] == 0;
      } else {
        var mv := ReachesDepot(x, u, n, v);
        assert o[0] == 0;
        BackToOrbit(x, n, r, v, mv);
      }
    }
    forall a, b | 0 <= a < b < r ensures o[a] != o[b] {
      WalkCancel(x, n, 0, a, b, a);
      assert Walk(x, n, 0, b - a) != 0;
    }
    DistinctCoveringLength(o, n);
  }

  /** t is a tour: all N nodes, each once, starting at node 0. */
  predicate IsTour(t: seq<nat>, n: nat) {
    && |t| == n && n >= 1 && t[0] == 0 && Distinct(t)
    && forall k :: 0 <= k < n ==> t[k] < n
  }

  /** The index of v in t, or |t| if v does not occur. */
  function Position(t: seq<nat>, v: nat): (p: nat)
    ensures p <= |t|
    ensures p < |t| ==> t[p] == v
    ensures p == |t| ==> v !in t
  {
    if |t| == 0 then 0
    else if t[|t| - 1] == v then |t| - 1
    else
      var p := Position(t[..|t| - 1], v);
      if p < |t| - 1 then p else |t|
  }

  /** The node the tour visits after v. */
  function TourNext(t: seq<nat>, v: nat): nat
    requires |t| >= 1
  {
    var p := Position(t, v);
    if p + 1 < |t| then t[p + 1] else t[0]
  }

  /** The 0/1 assignment that chooses exactly the edges of tour t. */
  function TourAssignment(t: seq<nat>, n: nat): (x: seq<seq<int>>)
    requires IsTour(t, n)
    ensures IsSquare(x, n)
    ensures forall i, j :: 0 <= i < n && 0 <= j < n ==> x[i][j] == if j == TourNext(t, i) then 1 else 0
  {
    seq(n, i requires 0 <= i < n => seq(n, j requires 0 <= j < n => if j == TourNext(t, i) then 1 else 0))
  }

  /** Order variables that number the nodes by their place on tour t. */
  function TourOrder(t: seq<nat>, n: nat): (u: seq<real>)
    ensures |u| == n && forall v :: 0 <= v < n ==> u[v] == Position(t, v) as real
  {
    seq(n, v requires 0 <= v < n => Position(t, v) as real)
  }

  lemma PositionOfDistinct(t: seq<nat>, k: nat)
    requires Distinct(t) && k < |t|
    ensures Position(t, t[k]) == k
  {
    var p := Position(t, t[k]);
    assert p < |t| by {
      assert t[k] in t;
    }
  }

  /** Along the tour, the node after t[k] is t[k + 1], and after the last one t[0]. */
  lemma TourNextAt(t: seq<nat>, n: nat, k: nat)
    requires IsTour(t, n) && k < n
    ensures TourNext(t, t[k]) == if k + 1 < n then t[k + 1] else t[0]
  {
    PositionOfDistinct(t, k);
  }

  /** Facts about the place of one node i on a tour of two nodes or more. */
  lemma TourPlace(t: seq<nat>, n: nat, i: nat)
    requires IsTour(t, n) && n >= 2 && i < n
    ensures Position(t, i) < n && TourNext(t, i) < n && TourNext(t, i) != i
    ensures TourNext(t, i) == 0 <==> Position(t, i) == n - 1
    ensures Position(t, i) == 0 <==> i == 0
  {
    DistinctBelowCovers(t, n);
    var p := Position(t, i);
    assert i in t;
    TourNextAt(t, n, p);
    PositionOfDistinct(t, 0);
    if p + 1 < n {
      PositionOfDistinct(t, p + 1);
    }
  }

  /** Two nodes followed by the same node on a tour are the same node. */
  lemma TourNextInjective(t: seq<nat>, n: nat, i: nat, k: nat)
    requires IsTour(t, n) && n >= 2 && i < n && k < n
    ensures TourNext(t, i) == TourNext(t, k) ==> i == k
  {
    TourPlace(t, n, i);
    TourPlace(t, n, k);
    var pi, pk := Position(t, i), Position(t, k);
    TourNextAt(t, n, pi);
    TourNextAt(t, n, pk);
    if pi + 1 < n {
      PositionOfDistinct(t, pi + 1);
    } else {
      PositionOfDistinct(t, 0);
    }
  }

  /** The node just before i on a tour. */
  lemma TourPredecessor(t: seq<nat>, n: nat, i: nat) returns (pred: nat)
    requires IsTour(t, n) && n >= 2 && i < n
    ensures pred < n && pred != i && TourNext(t, pred) == i
  {
    TourPlace(t, n, i);
    var q := Position(t, i);
    var pq := if q > 0 then q - 1 else n - 1;
    pred := t[pq];
    TourNextAt(t, n, pq);
    PositionOfDistinct(t, q);
  }

  /** A tour's assignment is binary and passes both degree constraints. */
  lemma TourAssignmentDegrees(t: seq<nat>, n: nat)
    requires IsTour(t, n) && n >= 2
    ensures IsBinary(TourAssignment(t, n)) && DegreeConstraints(TourAssignment(t, n), n)
  {
    var x := TourAssignment(t, n);
    assert IsBinary(x) by {
      forall i | 0 <= i < n ensures IsBinarySeq(x[i]) { }
    }
    forall i | 0 <= i < n ensures OutDegree(x, n, i) == 1 && InDegree(x, n, i) == 1 {
      TourPlace(t, n, i);
      SumOneOfOnlyOne(x[i], i, n, TourNext(t, i));
      var pred := TourPredecessor(t, n, i);
      var c := Column(x, n, i);
      forall k | 0 <= k < n && k != i && c[k] == 1 ensures k == pred {
        TourNextInjective(t, n, k, pred);
      }
      SumOneOfOnlyOne(c, i, n, pred);
    }
  }

  /** Numbering the nodes by their place on the tour meets the bounds and
      every MTZ row of the tour's assignment. */
  lemma TourOrderMtz(t: seq<nat>, n: nat)
    requires IsTour(t, n) && n >= 2
    ensures OrderBounds(TourOrder(t, n), n)
    ensures MtzConstraints(TourAssignment(t, n), TourOrder(t, n), n)
  {
    var x, u := TourAssignment(t, n), TourOrder(t, n);
    forall i | 0 <= i < n ensures 0.0 <= u[i] <= (n - 1) as real {
      TourPlace(t, n, i);
    }
    forall i, j | 1 <= i < n && 1 <= j < n && i != j ensures MtzRow(x, u, n, i, j) {
      TourPlace(t, n, i);
      TourPlace(t, n, j);
      var p := Position(t, i);
      if x[i][j] == 1 {
        TourNextAt(t, n, p);
        PositionOfDistinct(t, p + 1);
        assert Position(t, j) == p + 1;
      } else {
        assert x[i][j] as real == 0.0;
      }
    }
  }

  /** MTZ completeness: every tour of two nodes or more passes every
      constraint the script writes down once u numbers the nodes by their
      place on the tour; and its assignment leaves the diagonal at 0. */
  lemma TourIsFeasible(t: seq<nat>, n: nat)
    requires IsTour(t, n) && n >= 2
    ensures Feasible(TourAssignment(t, n), TourOrder(t, n), n)
    ensures ZeroDiagonal(TourAssignment(t, n), n)
  {
    TourAssignmentDegrees(t, n);
    TourOrderMtz(t, n);
    forall i | 0 <= i < n ensures TourAssignment(t, n)[i][i] == 0 {
      TourPlace(t, n, i);
    }
  }

  /** The tour's assignment leads the walk from node 0 along the tour itself. */
  lemma {:induction false} TourAssignmentWalk(t: seq<nat>, n: nat, k: nat)
    requires IsTour(t, n) && n >= 2 && k < n
    ensures Walk(TourAssignment(t, n), n, 0, k) == t[k]
  {
    if k > 0 {
      var x := TourAssignment(t, n);
      TourAssignmentWalk(t, n, k - 1);
      var prev := t[k - 1];
      TourNextAt(t, n, k - 1);
      assert x[prev][t[k]] == 1;
      TourAssignmentDegrees(t, n);
      assert OutDegree(x, n, prev) == 1;
      SuccUnique(x, n, prev);
      assert t[k] != prev;
      assert Walk(x, n, 0, k) == Succ(x, n, prev);
    }
  }
}
