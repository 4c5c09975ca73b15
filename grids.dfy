/** Integer matrices as sequences of rows, sums over their rows and columns,
    and the row-major order in which the script's nested loops visit cells. */
module Grids {

  /** A matrix of n rows holding n entries each. */
  predicate IsSquare(g: seq<seq<int>>, n: nat) {
    |g| == n && forall i :: 0 <= i < n ==> |g[i]| == n
  }

  /** Every entry is 0 or 1. */
  predicate IsBinarySeq(s: seq<int>) {
    forall k :: 0 <= k < |s| ==> s[k] == 0 || s[k] == 1
  }

  predicate IsBinary(g: seq<seq<int>>) {
    forall i :: 0 <= i < |g| ==> IsBinarySeq(g[i])
  }

  /** Column j of a square matrix, read top to bottom. */
  function Column(g: seq<seq<int>>, n: nat, j: nat): (c: seq<int>)
    requires IsSquare(g, n) && j < n
    ensures |c| == n && forall i :: 0 <= i < n ==> c[i] == g[i][j]
  {
    seq(n, i requires 0 <= i < n => g[i][j])
  }

  /** The matrix of an array, as a sequence of rows. */
  ghost function Rows(d: array2<int>): (g: seq<seq<int>>)
    reads d
    ensures |g| == d.Length0
    ensures forall i :: 0 <= i < d.Length0 ==> |g[i]| == d.Length1
    ensures forall i, j :: 0 <= i < d.Length0 && 0 <= j < d.Length1 ==> g[i][j] == d[i, j]
  {
    seq(d.Length0, i requires 0 <= i < d.Length0 reads d =>
      seq(d.Length1, j requires 0 <= j < d.Length1 reads d => d[i, j]))
  }

  /** Sum of s[k] over 0 <= k < m. */
  function Sum(s: seq<int>, m: nat): int
    requires m <= |s|
  {
    if m == 0 then 0 else Sum(s, m - 1) + s[m - 1]
  }

  /** Sum of s[k] over 0 <= k < m with k != e: the left-hand side of a degree constraint. */
  function SumExcept(s: seq<int>, e: int, m: nat): int
    requires m <= |s|
  {
    if m == 0 then 0 else SumExcept(s, e, m - 1) + (if m - 1 == e then 0 else s[m - 1])
  }

  /** Among s[0..m), leaving out index e, no entry is 1. */
  predicate NoOneExcept(s: seq<int>, e: int, m: nat)
    requires m <= |s|
  {
    forall k :: 0 <= k < m && k != e ==> s[k] != 1
  }

  /** Among s[0..m), leaving out index e, exactly one entry is 1. */
  predicate UniqueOneExcept(s: seq<int>, e: int, m: nat)
    requires m <= |s|
  {
    exists j :: 0 <= j < m && j != e && s[j] == 1 &&
      forall k :: 0 <= k < m && k != e && s[k] == 1 ==> k == j
  }

  lemma {:induction false} SumExceptZero(s: seq<int>, e: int, m: nat)
    requires IsBinarySeq(s) && m <= |s|
    ensures SumExcept(s, e, m) >= 0
    ensures SumExcept(s, e, m) == 0 <==> NoOneExcept(s, e, m)
  {
    if m > 0 {
      SumExceptZero(s, e, m - 1);
    }
  }

  /** On a 0/1 sequence, a degree sum equals 1 exactly when a single entry is 1. */
  lemma SumExceptOne(s: seq<int>, e: int, m: nat)
    requires IsBinarySeq(s) && m <= |s|
    ensures SumExcept(s, e, m) == 1 <==> UniqueOneExcept(s, e, m)
  {
    if SumExcept(s, e, m) == 1 {
      var j := OnlyOneOfSumOne(s, e, m);
    }
    if UniqueOneExcept(s, e, m) {
      var j :| 0 <= j < m && j != e && s[j] == 1 &&
        forall k :: 0 <= k < m && k != e && s[k] == 1 ==> k == j;
      SumOneOfOnlyOne(s, e, m, j);
    }
  }

  /** A degree sum of 1 on a 0/1 sequence names the one entry that is 1. */
  lemma {:induction false} OnlyOneOfSumOne(s: seq<int>, e: int, m: nat) returns (j: nat)
    requires IsBinarySeq(s) && m <= |s| && SumExcept(s, e, m) == 1
    ensures j < m && j != e && s[j] == 1
    ensures forall k :: 0 <= k < m && k != e && s[k] == 1 ==> k == j
  {
    SumExceptZero(s, e, m - 1);
    if m - 1 != e && s[m - 1] == 1 {
      j := m - 1;
    } else {
      j := OnlyOneOfSumOne(s, e, m - 1);
    }
  }

  /** A single entry that is 1 gives a degree sum of 1. */
  lemma {:induction false} SumOneOfOnlyOne(s: seq<int>, e: int, m: nat, j: nat)
    requires IsBinarySeq(s) && m <= |s|
    requires j < m && j != e && s[j] == 1
    requires forall k :: 0 <= k < m && k != e && s[k] == 1 ==> k == j
    ensures SumExcept(s, e, m) == 1
  {
    if j == m - 1 {
      SumExceptZero(s, e, m - 1);
    } else {
      SumOneOfOnlyOne(s, e, m - 1, j);
    }
  }

  /** The full sum is the sum leaving out e plus the entry at e. */
  lemma {:induction false} SumSplit(s: seq<int>, e: nat, m: nat)
    requires m <= |s|
    ensures Sum(s, m) == SumExcept(s, e, m) + (if e < m then s[e] else 0)
  {
    if m > 0 {
      SumSplit(s, e, m - 1);
    }
  }

  /** Changing the entry at the excluded index e leaves the degree sum unchanged. */
  lemma {:induction false} SumExceptIgnoresExcluded(s: seq<int>, t: seq<int>, e: int, m: nat)
    requires m <= |s| == |t|
    requires forall k :: 0 <= k < |s| && k != e ==> s[k] == t[k]
    ensures SumExcept(s, e, m) == SumExcept(t, e, m)
  {
    if m > 0 {
      SumExceptIgnoresExcluded(s, t, e, m - 1);
    }
  }

  /** Cells (i, 0), ..., (i, m - 1): the inner loop over one row. */
  function RowCells(i: nat, m: nat): seq<(nat, nat)>
  {
    if m == 0 then [] else RowCells(i, m - 1) + [(i, m - 1)]
  }

  /** All cells of rows 0 .. r - 1 of an n-column matrix, in the order of two nested loops. */
  function Cells(r: nat, n: nat): seq<(nat, nat)>
  {
    if r == 0 then [] else Cells(r - 1, n) + RowCells(r - 1, n)
  }

  /** Lexicographic (row-major) order on cells. */
  predicate RowMajorLess(p: (nat, nat), q: (nat, nat)) {
    p.0 < q.0 || (p.0 == q.0 && p.1 < q.1)
  }

  /** Strictly increasing in row-major order, hence free of repetitions. */
  predicate StrictlyRowMajor(c: seq<(nat, nat)>) {
    forall a, b :: 0 <= a < b < |c| ==> RowMajorLess(c[a], c[b])
  }

  /** Two row-major runs, the first wholly before the second, make one. */
  lemma ConcatRowMajor(a: seq<(nat, nat)>, b: seq<(nat, nat)>)
    requires StrictlyRowMajor(a) && StrictlyRowMajor(b)
    requires forall k, l :: 0 <= k < |a| && 0 <= l < |b| ==> RowMajorLess(a[k], b[l])
    ensures StrictlyRowMajor(a + b)
  {
    forall x, y | 0 <= x < y < |a + b| ensures RowMajorLess((a + b)[x], (a + b)[y]) {
      if y < |a| {
        assert RowMajorLess(a[x], a[y]);
      } else if x < |a| {
        assert RowMajorLess(a[x], b[y - |a|]);
      } else {
        assert RowMajorLess(b[x - |a|], b[y - |a|]);
      }
    }
  }

  lemma {:induction false} RowCellsEnumerate(i: nat, m: nat)
    ensures |RowCells(i, m)| == m
    ensures forall p :: p in RowCells(i, m) <==> p.0 == i && p.1 < m
    ensures forall k :: 0 <= k < m ==> RowCells(i, m)[k] == (i, k)
    ensures StrictlyRowMajor(RowCells(i, m))
  {
    if m > 0 {
      RowCellsEnumerate(i, m - 1);
    }
  }

  lemma {:induction false} CellsLength(r: nat, n: nat)
    ensures |Cells(r, n)| == r * n
  {
    if r > 0 {
      CellsLength(r - 1, n);
      RowCellsEnumerate(r - 1, n);
      assert (r - 1) * n + n == r * n;
    }
  }

  lemma {:induction false} CellsOrder(r: nat, n: nat)
    ensures forall p :: p in Cells(r, n) <==> p.0 < r && p.1 < n
    ensures StrictlyRowMajor(Cells(r, n))
  {
    if r > 0 {
      CellsOrder(r - 1, n);
      RowCellsEnumerate(r - 1, n);
      var a, b := Cells(r - 1, n), RowCells(r - 1, n);
      forall k, l | 0 <= k < |a| && 0 <= l < |b| ensures RowMajorLess(a[k], b[l]) {
        assert a[k] in a && b[l] in b;
      }
      ConcatRowMajor(a, b);
    }
  }

  /** The nested loops over an n-by-n matrix visit each of its n * n cells
      exactly once, in row-major order. */
  lemma CellsEnumerate(r: nat, n: nat)
    ensures |Cells(r, n)| == r * n
    ensures forall p :: p in Cells(r, n) <==> p.0 < r && p.1 < n
    ensures StrictlyRowMajor(Cells(r, n))
  {
    CellsLength(r, n);
    CellsOrder(r, n);
  }

  /** A sequence without repeated elements. */
  predicate Distinct<T(==)>(s: seq<T>) {
    forall a, b :: 0 <= a < b < |s| ==> s[a] != s[b]
  }

  function Elements<T>(s: seq<T>): set<T> {
    set x | x in s
  }

  /** The node indices 0 .. n - 1. */
  function Below(n: nat): (b: set<nat>)
    ensures forall v: nat :: v in b <==> v < n
  {
    if n == 0 then {} else Below(n - 1) + {n - 1}
  }

  lemma {:induction false} DistinctCard<T>(s: seq<T>)
    requires Distinct(s)
    ensures |Elements(s)| == |s|
  {
    if |s| > 0 {
      var t := s[..|s| - 1];
      assert Distinct(t);
      DistinctCard(t);
      assert Elements(s) == Elements(t) + {s[|s| - 1]};
      assert s[|s| - 1] !in Elements(t);
    }
  }

  lemma {:induction false} BelowCard(n: nat)
    ensures |Below(n)| == n
  {
    if n > 0 {
      BelowCard(n - 1);
    }
  }

  /** Pigeonhole: n distinct values below n are all of 0 .. n - 1. */
  lemma DistinctBelowCovers(s: seq<nat>, n: nat)
    requires |s| == n && Distinct(s)
    requires forall k :: 0 <= k < |s| ==> s[k] < n
    ensures forall v :: 0 <= v < n ==> v in s
  {
    DistinctCard(s);
    BelowCard(n);
    var A, B := Elements(s), Below(n);
    assert A <= B;
    assert B == A + (B - A) && A * (B - A) == {};
    assert |B - A| == 0;
    forall v | 0 <= v < n ensures v in s {
      assert v in B;
    }
  }

  /** Pigeonhole the other way: distinct values below n that include every
      value below n are exactly n of them. */
  lemma DistinctCoveringLength(s: seq<nat>, n: nat)
    requires Distinct(s)
    requires forall k :: 0 <= k < |s| ==> s[k] < n
    requires forall v :: 0 <= v < n ==> v in s
    ensures |s| == n
  {
    DistinctCard(s);
    BelowCard(n);
    assert Elements(s) == Below(n);
  }
}
