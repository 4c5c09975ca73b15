/** The distance table: feature keys 1 .. N become matrix indices 0 .. N - 1,
    and each ordered pair of features gets the length of its displacement. */
module DistanceMatrix {
  import opened Grids

  /** A feature's position on the plane. */
  type Point = (int, int)

  /** The keys 1 .. N, where N is the number of entries, are all present:
      this is what the fill loop's lookups rely on. */
  predicate KeyedOneToN(positions: map<int, Point>) {
    forall k :: 1 <= k <= |positions| ==> k in positions
  }

  /** The cost of going from key k to key l: the length `norm` assigns to
      the displacement (xk - xl, yk - yl). */
  function Cost(positions: map<int, Point>, norm: (int, int) -> int, k: int, l: int): int
    requires k in positions && l in positions
  {
    norm(positions[k].0 - positions[l].0, positions[k].1 - positions[l].1)
  }

  /** A length that ignores direction gives a symmetric table, and one that
      gives the zero displacement length 0 gives a zero diagonal. */
  lemma CostShape(positions: map<int, Point>, norm: (int, int) -> int, k: int, l: int)
    requires k in positions && l in positions
    ensures norm(0, 0) == 0 ==> Cost(positions, norm, k, k) == 0
    ensures (forall a, b :: norm(a, b) == norm(-a, -b)) ==>
      Cost(positions, norm, k, l) == Cost(positions, norm, l, k)
  {
    var (a, b) := (positions[k].0 - positions[l].0, positions[k].1 - positions[l].1);
    assert (positions[l].0 - positions[k].0, positions[l].1 - positions[k].1) == (-a, -b);
  }

  /** Fills the N-by-N distance array, looping over keys 1 .. N for the row and
      for the column and storing the cost from key k to key l at index (k - 1, l - 1).
      `writes` records the cells in the order they are stored; each cell comes
      up exactly once. */
  method Fill(positions: map<int, Point>, norm: (int, int) -> int)
    returns (d: array2<int>, ghost writes: seq<(nat, nat)>)
    requires KeyedOneToN(positions)
    ensures d.Length0 == |positions| && d.Length1 == |positions|
    ensures forall k, l :: 1 <= k <= |positions| && 1 <= l <= |positions| ==>
      d[k - 1, l - 1] == Cost(positions, norm, k, l)
    ensures writes == Cells(|positions|, |positions|)
    ensures |writes| == |positions| * |positions| && StrictlyRowMajor(writes)
    ensures forall p :: p in writes <==> p.0 < |positions| && p.1 < |positions|
  {
    var n := |positions|;
    d := new int[n, n]((i, j) => 0);
    writes := [];
    var i := 1;
    while i <= n
      invariant 1 <= i <= n + 1
      invariant writes == Cells(i - 1, n)
      invariant forall k, l :: 1 <= k < i && 1 <= l <= n ==> d[k - 1, l - 1] == Cost(positions, norm, k, l)
    {
      var j := 1;
      while j <= n
        invariant 1 <= j <= n + 1
        invariant writes == Cells(i - 1, n) + RowCells(i - 1, j - 1)
        invariant forall k, l :: 1 <= k < i && 1 <= l <= n ==> d[k - 1, l - 1] == Cost(positions, norm, k, l)
        invariant forall l :: 1 <= l < j ==> d[i - 1, l - 1] == Cost(positions, norm, i, l)
      {
        var (xi, yi) := positions[i];
        var (xj, yj) := positions[j];
        d[i - 1, j - 1] := norm(xi - xj, yi - yj);
        writes := writes + [(i - 1, j - 1)];
        j := j + 1;
      }
      i := i + 1;
    }
    CellsEnumerate(n, n);
  }
}
