/** The query layer of delaunay.h: interpolateValue (lines 145-188), a search for
    the first triangle that encircles the query point with a fallback value, and
    the row-major grid of createGridInterpolation (lines 191-210). The
    inverse-distance weighting the source applies to the triangle it finds is a
    parameter weigh of the model. */
module Interpolation {
  import opened Points
  import opened Triangles

  datatype Option<T> = None | Some(value: T)

  /** The position of the first triangle of ts that isEncircling (px, py), if
      any. */
  function FirstEncircling<D>(ts: seq<Triangle<D>>, px: real, py: real): (r: Option<nat>)
    ensures r.None? <==> forall i :: 0 <= i < |ts| ==> !IsEncircling(ts[i], px, py)
    ensures r.Some? ==>
      && r.value < |ts|
      && IsEncircling(ts[r.value], px, py)
      && forall i :: 0 <= i < r.value ==> !IsEncircling(ts[i], px, py)
  {
    if ts == [] then None
    else if IsEncircling(ts[0], px, py) then Some(0)
    else match FirstEncircling(ts[1..], px, py)
      case None => None
      case Some(i) => Some(i + 1)
  }

  /** A position that encircles the point, with none before it, is the first. */
  lemma FirstEncirclingIs<D>(ts: seq<Triangle<D>>, px: real, py: real, i: nat)
    requires i < |ts| && IsEncircling(ts[i], px, py)
    requires forall j :: 0 <= j < i ==> !IsEncircling(ts[j], px, py)
    ensures FirstEncircling(ts, px, py) == Some(i)
  {
    var r := FirstEncircling(ts, px, py);
    assert r.Some?;
    assert !IsEncircling(ts[i], px, py) || i <= r.value;
    assert r.value == i;
  }

  /** The value interpolateValue(px, py) returns on the list ts: the weighted
      value of the first encircling triangle, or notFound when there is none. */
  function Interpolated<D>(ts: seq<Triangle<D>>, px: real, py: real,
                           weigh: (Triangle<D>, real, real) -> D, notFound: D): D
  {
    match FirstEncircling(ts, px, py)
    case None => notFound
    case Some(i) => weigh(ts[i], px, py)
  }

  /** The two outcomes: the fallback exactly when no triangle encircles the
      point, and otherwise the weighting of the first one that does. */
  lemma InterpolatedCases<D>(ts: seq<Triangle<D>>, px: real, py: real,
                             weigh: (Triangle<D>, real, real) -> D, notFound: D)
    ensures (forall i :: 0 <= i < |ts| ==> !IsEncircling(ts[i], px, py)) ==>
      Interpolated(ts, px, py, weigh, notFound) == notFound
    ensures forall i ::
      (0 <= i < |ts| && IsEncircling(ts[i], px, py) && forall j :: 0 <= j < i ==> !IsEncircling(ts[j], px, py)) ==>
      Interpolated(ts, px, py, weigh, notFound) == weigh(ts[i], px, py)
  {
    forall i | 0 <= i < |ts| && IsEncircling(ts[i], px, py) &&
      (forall j :: 0 <= j < i ==> !IsEncircling(ts[j], px, py))
      ensures Interpolated(ts, px, py, weigh, notFound) == weigh(ts[i], px, py)
    {
      FirstEncirclingIs(ts, px, py, i);
    }
  }

  /** Only the list up to the first encircling triangle matters: two lists that
      agree up to and including it give the same value, whatever follows. */
  lemma OnlyFirstMatchMatters<D>(ts1: seq<Triangle<D>>, ts2: seq<Triangle<D>>, px: real, py: real,
                                 weigh: (Triangle<D>, real, real) -> D, notFound: D, i: nat)
    requires FirstEncircling(ts1, px, py) == Some(i)
    requires i < |ts2| && ts1[..i + 1] == ts2[..i + 1]
    ensures Interpolated(ts1, px, py, weigh, notFound) == Interpolated(ts2, px, py, weigh, notFound)
  {
    assert forall j :: 0 <= j <= i ==> ts1[j] == ts1[..i + 1][j] == ts2[j];
    FirstEncirclingIs(ts2, px, py, i);
  }

  // ---------------------------------------------------------------------------
  // The grid (delaunay.h:191-210)

  /** mult: the spacing of n grid lines spread over [gridMin, gridMax]. */
  function GridStep(gridMin: real, gridMax: real, n: nat): real
    requires 2 <= n
  {
    (gridMax - gridMin) / ((n - 1) as real)
  }

  /** The coordinate of grid line i. */
  function GridCoord(gridMin: real, mult: real, i: nat): real
  {
    gridMin + (i as real) * mult
  }

  /** The first and the last grid line fall on gridMin and gridMax. */
  lemma GridSpansRange(gridMin: real, gridMax: real, n: nat)
    requires 2 <= n
    ensures GridCoord(gridMin, GridStep(gridMin, gridMax, n), 0) == gridMin
    ensures GridCoord(gridMin, GridStep(gridMin, gridMax, n), n - 1) == gridMax
  {
    var d := (n - 1) as real;
    assert (gridMax - gridMin) / d * d == gridMax - gridMin;
  }

  /** The index of row y, column x in a row-major n*n buffer; it lies inside
      the buffer. */
  function RowMajorIndex(n: nat, y: nat, x: nat): (k: nat)
    requires x < n && y < n
    ensures k < n * n
  {
    MulLe(y + 1, n, n);
    y * n + x
  }

  /** Row-major layout: the cell of row y and column x sits at index y*n + x,
      and from that index the row and the column are read back, so no two cells
      share an index. */
  lemma RowMajor(n: nat, y: nat, x: nat)
    requires x < n && y < n
    ensures RowMajorIndex(n, y, x) == y * n + x
    ensures RowMajorIndex(n, y, x) / n == y && RowMajorIndex(n, y, x) % n == x
  {
    DivUnique(y * n + x, n, y, x);
  }

  /** Row y occupies y*n .. y*n + n - 1 inside the buffer, and the cells of
      the rows before it all lie below y*n. */
  lemma RowsBefore(n: nat, y: nat)
    requires y < n
    ensures y * n + n <= n * n
    ensures forall yy: nat, x: nat :: yy < y && x < n ==> RowMajorIndex(n, yy, x) < y * n
  {
    MulLe(y + 1, n, n);
    forall yy: nat, x: nat | yy < y && x < n
      ensures RowMajorIndex(n, yy, x) < y * n
    {
      MulLe(yy + 1, y, n);
    }
  }

  /** Every index below n*n is the cell of some row and column below n. */
  lemma RowMajorCovers(n: nat, k: nat)
    requires k < n * n
    ensures k / n < n && k % n < n && k == (k / n) * n + k % n
  {
    MulLe(n, k / n, n);
  }

  /** Multiplying by a non-negative number keeps the order. */
  lemma MulLe(a: int, b: int, c: nat)
    ensures a <= b ==> a * c <= b * c
  {
    if a <= b {
      assert b * c - a * c == (b - a) * c;
    }
  }

  /** Euclidean division has one quotient and one remainder. */
  lemma DivUnique(k: int, n: nat, q: int, r: int)
    requires 0 <= r < n && k == q * n + r
    ensures k / n == q && k % n == r
  {
    var q', r' := k / n, k % n;
    assert (q - q') * n == r' - r;
    MulLe(1, q - q', n);
    MulLe(1, q' - q, n);
  }
}
