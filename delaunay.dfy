/** delaunay.h: the class Delaunay. Its three lists are fields that triangulate
    rewrites step by step; every step is a method whose postcondition ties the
    new field values to the functions of module BowyerWatson, and the query
    methods are proved against module Interpolation. */
module DelaunayTriangulator {
  import opened Points
  import opened Edges
  import opened Triangles
  import opened SeqFilter
  import opened BowyerWatson
  import opened Interpolation

  /** The bounding-box scan of delaunay.h:28-39, on four running bounds that
      start at the first point. */
  method ScanBounds<D>(pts: seq<Point<D>>) returns (b: Box)
    requires 0 < |pts|
    ensures b == BoundingBox(pts)
    ensures forall i :: 0 <= i < |pts| ==> Inside(b, pts[i])
    ensures Attained(b, pts)
  {
    var minX, minY := pts[0].x, pts[0].y;
    var maxX, maxY := minX, minY;
    var i := 0;
    while i < |pts|
      invariant 0 <= i <= |pts|
      invariant Box(minX, minY, maxX, maxY) == ScanBox(pts, i)
    {
      if pts[i].x < minX { minX := pts[i].x; }
      if pts[i].y < minY { minY := pts[i].y; }
      if pts[i].x > maxX { maxX := pts[i].x; }
      if pts[i].y > maxY { maxY := pts[i].y; }
      i := i + 1;
    }
    b := Box(minX, minY, maxX, maxY);
    BoundingBoxIsTight(pts);
  }

  /** delaunay.h:41-49: the super triangle of the box, its vertices made with
      the two-coordinate constructor of Vector2. */
  method MakeSuperTriangle<D(0)>(box: Box) returns (st: Triangle<D>)
    ensures st == SuperTriangle(box, st.p1.value, st.p2.value, st.p3.value)
  {
    var dx, dy := box.maxX - box.minX, box.maxY - box.minY;
    var deltaMax := if dx < dy then dy else dx;
    var midx, midy := (box.minX + box.maxX) / 2.0, (box.minY + box.maxY) / 2.0;
    var v1 := new Vector2.FromXY(midx - 20.0 * deltaMax, midy - deltaMax);
    var v2 := new Vector2.FromXY(midx, midy + 20.0 * deltaMax);
    var v3 := new Vector2.FromXY(midx + 20.0 * deltaMax, midy - deltaMax);
    st := Triangle(v1.ToPoint(), v2.ToPoint(), v3.ToPoint());
  }

  /** The lambda of delaunay.h:82-92: a loop over badTriangles that returns true
      at the first bt with bt == t. */
  method MatchesAnyTriangle<D>(bad: seq<Triangle<D>>, t: Triangle<D>) returns (found: bool)
    ensures found <==> exists k :: 0 <= k < |bad| && TriEq(bad[k], t)
  {
    var k := 0;
    while k < |bad|
      invariant 0 <= k <= |bad|
      invariant forall j :: 0 <= j < k ==> !TriEq(bad[j], t)
    {
      if TriEq(bad[k], t) {
        return true;
      }
      k := k + 1;
    }
    return false;
  }

  /** The lambda of delaunay.h:110-117: a loop over badEdges that returns true
      at the first entry equal to e. */
  method MatchesAnyEdge<D>(badEdges: seq<Edge<D>>, e: Edge<D>) returns (found: bool)
    ensures found <==> exists k :: 0 <= k < |badEdges| && EdgeEq(badEdges[k], e)
  {
    var k := 0;
    while k < |badEdges|
      invariant 0 <= k <= |badEdges|
      invariant forall j :: 0 <= j < k ==> !EdgeEq(badEdges[j], e)
    {
      if EdgeEq(badEdges[k], e) {
        return true;
      }
      k := k + 1;
    }
    return false;
  }

  /** The nested loop of delaunay.h:94-108: for every pair of distinct
      positions i, j of polygon holding equal edges, polygon[i] and polygon[j]
      are pushed onto badEdges. */
  method CollectSharedEdges<D>(polygon: seq<Edge<D>>) returns (badEdges: seq<Edge<D>>)
    ensures badEdges == SharedEdges(polygon)
  {
    badEdges := [];
    var i := 0;
    while i < |polygon|
      invariant 0 <= i <= |polygon|
      invariant badEdges == SharedEdgesUpTo(polygon, i)
    {
      var j := 0;
      while j < |polygon|
        invariant 0 <= j <= |polygon|
        invariant badEdges == SharedEdgesUpTo(polygon, i) + PairRow(polygon, i, j)
      {
        if i != j && EdgeEq(polygon[i], polygon[j]) {
          badEdges := badEdges + [polygon[i], polygon[j]];
        }
        j := j + 1;
      }
      i := i + 1;
    }
  }

  /** delaunay.h:94-117: the nested loop, then the erase of every polygon edge
      equal to an entry of badEdges. What is left is the cavity's boundary: the
      edges without a twin, in their order (BowyerWatson.BoundaryKeepsUniqueEdges). */
  method CancelSharedEdges<D>(polygon: seq<Edge<D>>) returns (boundary: seq<Edge<D>>)
    ensures boundary == Boundary(polygon)
  {
    var badEdges := CollectSharedEdges(polygon);
    boundary := [];
    var k := 0;
    while k < |polygon|
      invariant 0 <= k <= |polygon|
      invariant boundary == Filter(polygon[..k], Unshared(badEdges))
    {
      var e := polygon[k];
      var shared := MatchesAnyEdge(badEdges, e);
      FilterSnoc(polygon[..k], e, Unshared(badEdges));
      assert polygon[..k + 1] == polygon[..k] + [e];
      assert Unshared(badEdges)(e) == !shared;
      if !shared {
        boundary := boundary + [e];
      }
      k := k + 1;
    }
    assert polygon[..|polygon|] == polygon;
  }

  /** The default grid_size of createGridInterpolation (delaunay.h:191). */
  const DefaultGridSize: nat := 2048

  class Delaunay<D(0)> {
    var triangles: seq<Triangle<D>>
    var edges: seq<Edge<D>>
    var vertices: seq<Point<D>>
    /** The value interpolateValue falls back on; unset until setNotFoundReturn. */
    var notFoundReturn: D

    /** A new triangulator holds three empty lists. */
    constructor ()
      ensures triangles == [] && edges == [] && vertices == []
    {
      triangles, edges, vertices := [], [], [];
    }

    /** triangulate (delaunay.h:22-136). The lists _triangles and _edges are not
        cleared first: the result is built on whatever triangles the object
        already holds and the new edges go after the old ones. st is the super
        triangle; its vertices come from the two-coordinate constructor, so
        their payloads are whatever that leaves in them. */
    method Triangulate(pts: seq<Point<D>>, inCircle: (Triangle<D>, Point<D>) -> bool)
      returns (r: seq<Triangle<D>>, ghost st: Triangle<D>)
      requires 0 < |pts|
      modifies this
      ensures st == SuperTriangle(BoundingBox(pts), st.p1.value, st.p2.value, st.p3.value)
      ensures vertices == pts
      ensures triangles == Triangulation(old(triangles), pts, st, inCircle)
      ensures edges == old(edges) + EdgesOf(triangles)
      ensures notFoundReturn == old(notFoundReturn)
      ensures r == triangles
    {
      vertices := pts;
      var box := ScanBounds(pts);
      var superTriangle := MakeSuperTriangle(box);
      st := superTriangle;
      triangles := triangles + [superTriangle];
      InsertVertices(pts, inCircle);
      RemoveSuperTriangle(superTriangle);
      FlattenEdges();
      r := triangles;
    }

    /** The loop over the points (delaunay.h:56-122). */
    method InsertVertices(pts: seq<Point<D>>, inCircle: (Triangle<D>, Point<D>) -> bool)
      modifies this`triangles
      ensures triangles == InsertAll(old(triangles), pts, inCircle)
    {
      var i := 0;
      while i < |pts|
        invariant 0 <= i <= |pts|
        invariant triangles == InsertAll(old(triangles), pts[..i], inCircle)
      {
        InsertAllStep(old(triangles), pts, i, inCircle);
        InsertVertex(pts[i], inCircle);
        i := i + 1;
      }
      assert pts[..|pts|] == pts;
    }

    /** One pass of the loop over the points (delaunay.h:61-120). */
    method InsertVertex(p: Point<D>, inCircle: (Triangle<D>, Point<D>) -> bool)
      modifies this`triangles
      ensures triangles == InsertPoint(old(triangles), p, inCircle)
    {
      var bad, polygon := CollectBad(p, inCircle);
      RemoveBadTriangles(bad);
      polygon := CancelSharedEdges(polygon);
      AppendFan(polygon, p);
    }

    /** delaunay.h:119-120: one new triangle (e.p1, e.p2, p) per edge e of
        polygon, pushed in polygon order. */
    method AppendFan(polygon: seq<Edge<D>>, p: Point<D>)
      modifies this`triangles
      ensures triangles == old(triangles) + Fan(polygon, p)
    {
      var k := 0;
      while k < |polygon|
        invariant 0 <= k <= |polygon|
        invariant triangles == old(triangles) + Fan(polygon[..k], p)
      {
        FanSnoc(polygon[..k], polygon[k], p);
        assert polygon[..k + 1] == polygon[..k] + [polygon[k]];
        triangles := triangles + [Triangle(polygon[k].p1, polygon[k].p2, p)];
        k := k + 1;
      }
      assert polygon[..|polygon|] == polygon;
    }

    /** The scan of delaunay.h:61-80: the triangles whose circumcircle contains
        p, in list order, and their edges e1, e2, e3 one triangle after the
        other. The list itself is left as it is. */
    method CollectBad(p: Point<D>, inCircle: (Triangle<D>, Point<D>) -> bool)
      returns (bad: seq<Triangle<D>>, polygon: seq<Edge<D>>)
      ensures bad == BadTriangles(triangles, p, inCircle)
      ensures forall k :: 0 <= k < |bad| ==> bad[k] in triangles && inCircle(bad[k], p)
      ensures polygon == EdgesOf(bad) && |polygon| == 3 * |bad|
    {
      bad, polygon := [], [];
      var i := 0;
      while i < |triangles|
        invariant 0 <= i <= |triangles|
        invariant bad == Filter(triangles[..i], InCircleOf(p, inCircle))
        invariant polygon == EdgesOf(bad)
      {
        var t := triangles[i];
        FilterSnoc(triangles[..i], t, InCircleOf(p, inCircle));
        assert triangles[..i + 1] == triangles[..i] + [t];
        if inCircle(t, p) {
          EdgesOfSnoc(bad, t);
          bad := bad + [t];
          polygon := polygon + [t.E1(), t.E2(), t.E3()];
        }
        i := i + 1;
      }
      assert triangles[..|triangles|] == triangles;
      EdgesOfLayout(bad);
    }

    /** The erase of delaunay.h:82-92: drops every triangle equal to a bad one
        and keeps the others in order. */
    method RemoveBadTriangles(bad: seq<Triangle<D>>)
      modifies this`triangles
      ensures triangles == RemoveBad(old(triangles), bad)
    {
      var ts, kept := triangles, [];
      var i := 0;
      while i < |ts|
        invariant 0 <= i <= |ts|
        invariant kept == Filter(ts[..i], NotBad(bad))
      {
        var t := ts[i];
        var matched := MatchesAnyTriangle(bad, t);
        FilterSnoc(ts[..i], t, NotBad(bad));
        assert ts[..i + 1] == ts[..i] + [t];
        assert NotBad(bad)(t) == !matched;
        if !matched {
          kept := kept + [t];
        }
        i := i + 1;
      }
      assert ts[..|ts|] == ts;
      triangles := kept;
    }

    /** The erase of delaunay.h:124-126: drops every triangle with a vertex of
        the super triangle st and keeps the others in order. */
    method RemoveSuperTriangle(st: Triangle<D>)
      modifies this`triangles
      ensures triangles == DropSuper(old(triangles), st)
    {
      var ts, kept := triangles, [];
      var i := 0;
      while i < |ts|
        invariant 0 <= i <= |ts|
        invariant kept == Filter(ts[..i], AvoidsSuper(st))
      {
        var t := ts[i];
        FilterSnoc(ts[..i], t, AvoidsSuper(st));
        assert ts[..i + 1] == ts[..i] + [t];
        if !(ContainsVertex(t, st.p1) || ContainsVertex(t, st.p2) || ContainsVertex(t, st.p3)) {
          kept := kept + [t];
        }
        i := i + 1;
      }
      assert ts[..|ts|] == ts;
      triangles := kept;
    }

    /** delaunay.h:128-133: appends e1, e2, e3 of every triangle to _edges. */
    method FlattenEdges()
      modifies this`edges
      ensures edges == old(edges) + EdgesOf(triangles)
    {
      var i := 0;
      while i < |triangles|
        invariant 0 <= i <= |triangles|
        invariant edges == old(edges) + EdgesOf(triangles[..i])
      {
        var t := triangles[i];
        EdgesOfSnoc(triangles[..i], t);
        assert triangles[..i + 1] == triangles[..i] + [t];
        edges := edges + [t.E1(), t.E2(), t.E3()];
        i := i + 1;
      }
      assert triangles[..|triangles|] == triangles;
    }

    /** setNotFoundReturn (delaunay.h:139-142). */
    method SetNotFoundReturn(data: D)
      modifies this`notFoundReturn
      ensures notFoundReturn == data
    {
      notFoundReturn := data;
    }

    /** interpolateValue(px, py) (delaunay.h:145-182): the weighting of the first
        triangle that encircles the point, or the fallback value when none
        does. */
    method InterpolateValue(px: real, py: real, weigh: (Triangle<D>, real, real) -> D) returns (v: D)
      ensures v == Interpolated(triangles, px, py, weigh, notFoundReturn)
    {
      var i := 0;
      while i < |triangles|
        invariant 0 <= i <= |triangles|
        invariant forall j :: 0 <= j < i ==> !IsEncircling(triangles[j], px, py)
      {
        if IsEncircling(triangles[i], px, py) {
          FirstEncirclingIs(triangles, px, py, i);
          return weigh(triangles[i], px, py);
        }
        i := i + 1;
      }
      return notFoundReturn;
    }

    /** interpolateValue(point) (delaunay.h:185-188): the same at the point's
        coordinates; its payload plays no part. */
    method InterpolateAt(point: Point<D>, weigh: (Triangle<D>, real, real) -> D) returns (v: D)
      ensures v == Interpolated(triangles, point.x, point.y, weigh, notFoundReturn)
    {
      v := InterpolateValue(point.x, point.y, weigh);
    }

    /** createGridInterpolation (delaunay.h:191-210): an n*n buffer, row after
        row, whose cell (y, x) holds the interpolated value at grid line x and
        grid line y. For n == 0 the buffer is empty; the unsigned n - 1 then
        wraps to 2^32 - 1, and the spacing divided by it is never used. */
    method CreateGridInterpolation(n: nat, gridMin: real, gridMax: real, weigh: (Triangle<D>, real, real) -> D)
      returns (grid: array<D>)
      requires n != 1 && n * n < 0x1_0000_0000
      ensures fresh(grid) && grid.Length == n * n
      ensures forall y: nat, x: nat :: y < n && x < n ==>
        grid[RowMajorIndex(n, y, x)] == Interpolated(triangles, GridCoord(gridMin, GridStep(gridMin, gridMax, n), x),
                                        GridCoord(gridMin, GridStep(gridMin, gridMax, n), y), weigh, notFoundReturn)
    {
      var mult := if n == 0 then (gridMax - gridMin) / 4294967295.0 else GridStep(gridMin, gridMax, n);
      grid := new D[n * n];
      var y := 0;
      while y < n
        invariant 0 <= y <= n
        invariant forall yy: nat, x: nat :: yy < y && x < n ==>
          grid[RowMajorIndex(n, yy, x)] == Interpolated(triangles, GridCoord(gridMin, mult, x), GridCoord(gridMin, mult, yy),
                                                        weigh, notFoundReturn)
      {
        var ypos := GridCoord(gridMin, mult, y);
        var yOffset := y * n;
        RowsBefore(n, y);
        FillRow(grid, n, yOffset, ypos, gridMin, mult, weigh);
        forall yy: nat, x: nat | yy <= y && x < n
          ensures grid[RowMajorIndex(n, yy, x)] == Interpolated(triangles, GridCoord(gridMin, mult, x), GridCoord(gridMin, mult, yy),
                                                                weigh, notFoundReturn)
        {
          if yy < y {
            assert RowMajorIndex(n, yy, x) < yOffset;
          } else {
            assert RowMajorIndex(n, yy, x) == yOffset + x;
          }
        }
        y := y + 1;
      }
    }

    /** createGridInterpolation() with its default arguments (delaunay.h:191-192):
        a DefaultGridSize by DefaultGridSize grid spread over [0, 1]. */
    method CreateDefaultGridInterpolation(weigh: (Triangle<D>, real, real) -> D) returns (grid: array<D>)
      ensures fresh(grid) && grid.Length == DefaultGridSize * DefaultGridSize
      ensures forall y: nat, x: nat :: y < DefaultGridSize && x < DefaultGridSize ==>
        grid[RowMajorIndex(DefaultGridSize, y, x)]
          == Interpolated(triangles, GridCoord(0.0, GridStep(0.0, 1.0, DefaultGridSize), x),
                          GridCoord(0.0, GridStep(0.0, 1.0, DefaultGridSize), y), weigh, notFoundReturn)
    {
      grid := CreateGridInterpolation(DefaultGridSize, 0.0, 1.0, weigh);
    }

    /** The inner loop of delaunay.h:203-206: fills the row of the grid that
        starts at index yOffset and sits at height ypos, and leaves every cell
        outside that row as it was. */
    method FillRow(grid: array<D>, n: nat, yOffset: nat, ypos: real, gridMin: real, mult: real,
                   weigh: (Triangle<D>, real, real) -> D)
      requires yOffset + n <= grid.Length
      modifies grid
      ensures forall k :: 0 <= k < yOffset ==> grid[k] == old(grid[k])
      ensures forall k :: yOffset + n <= k < grid.Length ==> grid[k] == old(grid[k])
      ensures forall x: nat :: x < n ==>
        grid[yOffset + x] == Interpolated(triangles, GridCoord(gridMin, mult, x), ypos, weigh, notFoundReturn)
    {
      var x := 0;
      while x < n
        invariant 0 <= x <= n
        invariant forall k :: 0 <= k < yOffset ==> grid[k] == old(grid[k])
        invariant forall k :: yOffset + n <= k < grid.Length ==> grid[k] == old(grid[k])
        invariant forall xx: nat :: xx < x ==>
          grid[yOffset + xx] == Interpolated(triangles, GridCoord(gridMin, mult, xx), ypos, weigh, notFoundReturn)
      {
        grid[yOffset + x] := InterpolateValue(GridCoord(gridMin, mult, x), ypos, weigh);
        x := x + 1;
      }
    }

    /** getTriangles (delaunay.h:213): the list as it stands, left unchanged. */
    method GetTriangles() returns (r: seq<Triangle<D>>)
      ensures r == triangles
    {
      r := triangles;
    }

    /** getEdges (delaunay.h:214). */
    method GetEdges() returns (r: seq<Edge<D>>)
      ensures r == edges
    {
      r := edges;
    }

    /** getVertices (delaunay.h:215). */
    method GetVertices() returns (r: seq<Point<D>>)
      ensures r == vertices
    {
      r := vertices;
    }
  }
}
