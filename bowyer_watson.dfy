/** Delaunay::triangulate (delaunay.h:22-136) stated over values. Each step of
    the algorithm is a function of the triangle list it starts from; the class
    Delaunay (module DelaunayTriangulator) runs the same steps with loops on its fields
    and is proved equal to these functions. The circumcircle test is a parameter
    inCircle, so everything here holds whatever test is plugged in (the exact one
    of triangle.h is Triangles.CircumCircleContains). */
module BowyerWatson {
  import opened Points
  import opened Edges
  import opened Triangles
  import opened SeqFilter

  // ---------------------------------------------------------------------------
  // The bounding box (delaunay.h:28-39)

  datatype Box = Box(minX: real, minY: real, maxX: real, maxY: real)

  /** One pass of the scan loop: each bound moves out to the point when the point
      lies beyond it. */
  function Widen<D>(b: Box, p: Point<D>): Box
  {
    Box(if p.x < b.minX then p.x else b.minX,
        if p.y < b.minY then p.y else b.minY,
        if p.x > b.maxX then p.x else b.maxX,
        if p.y > b.maxY then p.y else b.maxY)
  }

  /** The four bounds after the first n passes; they start at the first point. */
  function ScanBox<D>(pts: seq<Point<D>>, n: nat): Box
    requires 0 < |pts| && n <= |pts|
  {
    if n == 0 then Box(pts[0].x, pts[0].y, pts[0].x, pts[0].y)
    else Widen(ScanBox(pts, n - 1), pts[n - 1])
  }

  /** The bounds after the whole scan. */
  function BoundingBox<D>(pts: seq<Point<D>>): Box
    requires 0 < |pts|
  {
    ScanBox(pts, |pts|)
  }

  predicate Inside<D>(b: Box, p: Point<D>)
  {
    b.minX <= p.x <= b.maxX && b.minY <= p.y <= b.maxY
  }

  /** Every bound is the coordinate of one of the points. */
  predicate Attained<D>(b: Box, pts: seq<Point<D>>)
  {
    && (exists i :: 0 <= i < |pts| && pts[i].x == b.minX)
    && (exists i :: 0 <= i < |pts| && pts[i].y == b.minY)
    && (exists i :: 0 <= i < |pts| && pts[i].x == b.maxX)
    && (exists i :: 0 <= i < |pts| && pts[i].y == b.maxY)
  }

  /** After n passes the bounds enclose the first point and the n points scanned,
      and, once a pass has run, each bound is attained by one of the scanned
      points. */
  lemma {:induction false} ScanBoxBounds<D>(pts: seq<Point<D>>, n: nat)
    requires 0 < |pts| && n <= |pts|
    ensures Inside(ScanBox(pts, n), pts[0])
    ensures forall i :: 0 <= i < n ==> Inside(ScanBox(pts, n), pts[i])
    ensures Attained(ScanBox(pts, n), pts)
    ensures 0 < n ==> Attained(ScanBox(pts, n), pts[..n])
  {
    if n > 0 {
      ScanBoxBounds(pts, n - 1);
      var b0, p := ScanBox(pts, n - 1), pts[n - 1];
      var b := Widen(b0, p);
      assert b.minX == p.x || b.minX == b0.minX;
      assert b.minY == p.y || b.minY == b0.minY;
      assert b.maxX == p.x || b.maxX == b0.maxX;
      assert b.maxY == p.y || b.maxY == b0.maxY;
      var scanned := pts[..n];
      assert scanned[n - 1] == p;
      if n == 1 {
        assert b0 == Box(p.x, p.y, p.x, p.y);
      } else {
        assert forall i :: 0 <= i < n - 1 ==> pts[..n - 1][i] == scanned[i];
      }
    }
  }

  /** The scan computes the exact minimum and maximum of each coordinate: every
      input point lies in the box and every bound is some point's coordinate. */
  lemma BoundingBoxIsTight<D>(pts: seq<Point<D>>)
    requires 0 < |pts|
    ensures forall i :: 0 <= i < |pts| ==> Inside(BoundingBox(pts), pts[i])
    ensures Attained(BoundingBox(pts), pts)
  {
    ScanBoxBounds(pts, |pts|);
  }

  // ---------------------------------------------------------------------------
  // The super triangle (delaunay.h:41-49)

  /** The super triangle built from the box. Its vertices are built with the
      two-coordinate constructor, which leaves the payload unset: u1, u2, u3
      stand for whatever they hold. */
  function SuperTriangle<D>(b: Box, u1: D, u2: D, u3: D): Triangle<D>
  {
    var dx, dy := b.maxX - b.minX, b.maxY - b.minY;
    var deltaMax := if dx < dy then dy else dx;
    var midx, midy := (b.minX + b.maxX) / 2.0, (b.minY + b.maxY) / 2.0;
    Triangle(Point(midx - 20.0 * deltaMax, midy - deltaMax, u1),
             Point(midx, midy + 20.0 * deltaMax, u2),
             Point(midx + 20.0 * deltaMax, midy - deltaMax, u3))
  }

  /** Every point of the box, and so every input point, lies in the super
      triangle by the isEncircling test (boundary included). */
  lemma SuperTriangleEnclosesBox<D>(b: Box, u1: D, u2: D, u3: D, p: Point<D>)
    requires Inside(b, p)
    ensures IsEncircling(SuperTriangle(b, u1, u2, u3), p.x, p.y)
  {
    var t := SuperTriangle(b, u1, u2, u3);
    var dx, dy := b.maxX - b.minX, b.maxY - b.minY;
    var d := if dx < dy then dy else dx;
    var mx, my := (b.minX + b.maxX) / 2.0, (b.minY + b.maxY) / 2.0;
    var u, v := p.x - mx, p.y - my;
    assert t.p2.y - t.p3.y == 21.0 * d && t.p1.x - t.p3.x == -40.0 * d;
    assert t.p3.x - t.p2.x == 20.0 * d && t.p1.y - t.p3.y == 0.0 && t.p3.y - t.p1.y == 0.0;
    assert p.x - t.p3.x == u - 20.0 * d && p.y - t.p3.y == v + d;
    SuperTriangleSigns(d, u, v, Det(t), CoordS(t, p.x, p.y), CoordT(t, p.x, p.y));
  }

  /** The super triangle built from the points' bounding box encircles every
      input point. */
  lemma SuperTriangleEnclosesInput<D>(pts: seq<Point<D>>, u1: D, u2: D, u3: D)
    requires 0 < |pts|
    ensures forall i :: 0 <= i < |pts| ==>
      IsEncircling(SuperTriangle(BoundingBox(pts), u1, u2, u3), pts[i].x, pts[i].y)
  {
    BoundingBoxIsTight(pts);
    forall i | 0 <= i < |pts|
      ensures IsEncircling(SuperTriangle(BoundingBox(pts), u1, u2, u3), pts[i].x, pts[i].y)
    {
      SuperTriangleEnclosesBox(BoundingBox(pts), u1, u2, u3, pts[i]);
    }
  }

  /** The sign test on the super triangle's D, s and t, for a point (u, v)
      away from the box centre, when the box fits in a square of side d. */
  lemma SuperTriangleSigns(d: real, u: real, v: real, det: real, s: real, t: real)
    ensures
      && d >= 0.0 && -d <= 2.0 * u <= d && -d <= 2.0 * v <= d
      && det == (21.0 * d) * (-40.0 * d) + (20.0 * d) * 0.0
      && s == (21.0 * d) * (u - 20.0 * d) + (20.0 * d) * (v + d)
      && t == 0.0 * (u - 20.0 * d) + (-40.0 * d) * (v + d)
      ==>
      if det < 0.0 then s <= 0.0 && t <= 0.0 && s + t >= det
      else s >= 0.0 && t >= 0.0 && s + t <= det
  {
    if && d >= 0.0 && -d <= 2.0 * u <= d && -d <= 2.0 * v <= d
       && det == (21.0 * d) * (-40.0 * d) + (20.0 * d) * 0.0
       && s == (21.0 * d) * (u - 20.0 * d) + (20.0 * d) * (v + d)
       && t == 0.0 * (u - 20.0 * d) + (-40.0 * d) * (v + d)
    {
      if d == 0.0 {
        assert det == 0.0 && s == 0.0 && t == 0.0;
      } else {
        assert det == -840.0 * (d * d);
        assert d * d > 0.0;
        assert s == d * (21.0 * u + 20.0 * v - 400.0 * d);
        assert t == -40.0 * (d * (v + d));
        assert s + t - det == d * (21.0 * u - 20.0 * v + 400.0 * d);
        ScaleSign(-(21.0 * u + 20.0 * v - 400.0 * d), d);
        assert -(21.0 * u + 20.0 * v - 400.0 * d) * d == -s;
        ScaleSign(v + d, d);
        ScaleSign(21.0 * u - 20.0 * v + 400.0 * d, d);
      }
    }
  }

  // ---------------------------------------------------------------------------
  // One insertion step (delaunay.h:61-120)

  /** The test "t's circumcircle contains p", for a fixed p. */
  function InCircleOf<D>(p: Point<D>, inCircle: (Triangle<D>, Point<D>) -> bool): Triangle<D> -> bool
  {
    t => inCircle(t, p)
  }

  /** badTriangles (delaunay.h:64-80): the triangles whose circumcircle contains
      p, in list order. */
  function BadTriangles<D>(ts: seq<Triangle<D>>, p: Point<D>, inCircle: (Triangle<D>, Point<D>) -> bool): seq<Triangle<D>>
  {
    Filter(ts, InCircleOf(p, inCircle))
  }

  /** The edges e1, e2, e3 of each triangle, triangle after triangle: polygon
      (delaunay.h:72-74) and the block appended to _edges (delaunay.h:128-133). */
  function EdgesOf<D>(ts: seq<Triangle<D>>): seq<Edge<D>>
  {
    if ts == [] then []
    else
      var t := ts[|ts| - 1];
      EdgesOf(ts[..|ts| - 1]) + [t.E1(), t.E2(), t.E3()]
  }

  /** Three edges per triangle, and entries 3i, 3i+1, 3i+2 are the edges of
      triangle i. */
  lemma {:induction false} EdgesOfLayout<D>(ts: seq<Triangle<D>>)
    ensures |EdgesOf(ts)| == 3 * |ts|
    ensures forall i :: 0 <= i < |ts| ==>
      && EdgesOf(ts)[3 * i] == ts[i].E1()
      && EdgesOf(ts)[3 * i + 1] == ts[i].E2()
      && EdgesOf(ts)[3 * i + 2] == ts[i].E3()
  {
    if ts != [] {
      var init := ts[..|ts| - 1];
      EdgesOfLayout(init);
      assert forall i :: 0 <= i < |init| ==> ts[i] == init[i];
    }
  }

  /** One more triangle adds its three edges at the back. */
  lemma EdgesOfSnoc<D>(ts: seq<Triangle<D>>, t: Triangle<D>)
    ensures EdgesOf(ts + [t]) == EdgesOf(ts) + [t.E1(), t.E2(), t.E3()]
  {
    assert (ts + [t])[..|ts|] == ts;
  }

  /** The lambda of the first remove_if (delaunay.h:82-92): some bad triangle bt
      has bt == t. */
  predicate MatchesAny<D>(bad: seq<Triangle<D>>, t: Triangle<D>)
  {
    exists k :: 0 <= k < |bad| && TriEq(bad[k], t)
  }

  /** What the erase keeps. */
  function NotBad<D>(bad: seq<Triangle<D>>): Triangle<D> -> bool
  {
    t => !MatchesAny(bad, t)
  }

  /** _triangles after the erase of delaunay.h:82-92. */
  function RemoveBad<D>(ts: seq<Triangle<D>>, bad: seq<Triangle<D>>): seq<Triangle<D>>
  {
    Filter(ts, NotBad(bad))
  }

  /** The erase removes exactly the triangles that equal a bad one, keeps every
      other triangle in its original order, and adds nothing: the result is ts
      read at the increasing positions of the non-matching triangles. */
  lemma RemoveBadKeepsTheRest<D>(ts: seq<Triangle<D>>, bad: seq<Triangle<D>>)
    ensures forall j :: 0 <= j < |RemoveBad(ts, bad)| ==> !MatchesAny(bad, RemoveBad(ts, bad)[j])
    ensures |KeptPositions(ts, NotBad(bad))| == |RemoveBad(ts, bad)|
    ensures forall k :: 0 <= k < |KeptPositions(ts, NotBad(bad))| ==>
      0 <= KeptPositions(ts, NotBad(bad))[k] < |ts| &&
      RemoveBad(ts, bad)[k] == ts[KeptPositions(ts, NotBad(bad))[k]]
    ensures forall k, l :: 0 <= k < l < |KeptPositions(ts, NotBad(bad))| ==>
      KeptPositions(ts, NotBad(bad))[k] < KeptPositions(ts, NotBad(bad))[l]
    ensures forall i :: 0 <= i < |ts| ==>
      (i in KeptPositions(ts, NotBad(bad)) <==> !MatchesAny(bad, ts[i]))
  {
    FilterIsOrderedSelection(ts, NotBad(bad));
  }

  /** After the erase no triangle is left whose circumcircle contains p: each
      bad triangle equals itself, so it is among those removed. */
  lemma CavityCleared<D>(ts: seq<Triangle<D>>, p: Point<D>, inCircle: (Triangle<D>, Point<D>) -> bool)
    ensures forall j :: 0 <= j < |RemoveBad(ts, BadTriangles(ts, p, inCircle))| ==>
      !inCircle(RemoveBad(ts, BadTriangles(ts, p, inCircle))[j], p)
  {
    var bad := BadTriangles(ts, p, inCircle);
    var r := RemoveBad(ts, bad);
    forall j | 0 <= j < |r|
      ensures !inCircle(r[j], p)
    {
      var t := r[j];
      assert NotBad(bad)(t) && t in ts;
      assert inCircle(t, p) ==> t in bad;
      TriEqReflexive(t);
      assert t in bad ==> MatchesAny(bad, t);
    }
  }

  /** The lambda of the second remove_if (delaunay.h:110-117): some entry of
      badEdges equals e. */
  predicate EdgeMatchesAny<D>(es: seq<Edge<D>>, e: Edge<D>)
  {
    exists k :: 0 <= k < |es| && EdgeEq(es[k], e)
  }

  /** What the edge erase keeps. */
  function Unshared<D>(es: seq<Edge<D>>): Edge<D> -> bool
  {
    e => !EdgeMatchesAny(es, e)
  }

  /** The inner loop of delaunay.h:97-107 for the outer index i, after its first
      m passes: for each other index j with an equal edge, the pair p[i], p[j]. */
  function PairRow<D>(p: seq<Edge<D>>, i: nat, m: nat): seq<Edge<D>>
    requires i < |p| && m <= |p|
  {
    if m == 0 then []
    else PairRow(p, i, m - 1) + (if i != m - 1 && EdgeEq(p[i], p[m - 1]) then [p[i], p[m - 1]] else [])
  }

  /** badEdges after the first n passes of the outer loop (delaunay.h:94-108). */
  function SharedEdgesUpTo<D>(p: seq<Edge<D>>, n: nat): seq<Edge<D>>
    requires n <= |p|
  {
    if n == 0 then [] else SharedEdgesUpTo(p, n - 1) + PairRow(p, n - 1, |p|)
  }

  /** badEdges once both loops are done. */
  function SharedEdges<D>(p: seq<Edge<D>>): seq<Edge<D>>
  {
    SharedEdgesUpTo(p, |p|)
  }

  /** polygon after the erase of delaunay.h:110-117: the boundary of the cavity. */
  function Boundary<D>(p: seq<Edge<D>>): seq<Edge<D>>
  {
    Filter(p, Unshared(SharedEdges(p)))
  }

  /** Some other position of p holds an edge equal to p[k]. */
  predicate HasTwin<D>(p: seq<Edge<D>>, k: int)
    requires 0 <= k < |p|
  {
    exists j :: 0 <= j < |p| && j != k && EdgeEq(p[k], p[j])
  }

  /** What the inner loop pushes: exactly the pairs p[i], p[j] with j != i and
      p[i] == p[j]. */
  lemma {:induction false} PairRowMembers<D>(p: seq<Edge<D>>, i: nat, m: nat)
    requires i < |p| && m <= |p|
    ensures forall x :: x in PairRow(p, i, m) <==>
      exists j :: 0 <= j < m && j != i && EdgeEq(p[i], p[j]) && (x == p[i] || x == p[j])
  {
    if m > 0 {
      PairRowMembers(p, i, m - 1);
    }
  }

  /** What both loops push: exactly the members of pairs p[i], p[j] with
      i < n, j != i and p[i] == p[j]. */
  lemma {:induction false} SharedEdgesMembers<D>(p: seq<Edge<D>>, n: nat)
    requires n <= |p|
    ensures forall x :: x in SharedEdgesUpTo(p, n) <==>
      exists i, j :: 0 <= i < n && 0 <= j < |p| && i != j && EdgeEq(p[i], p[j]) && (x == p[i] || x == p[j])
  {
    if n > 0 {
      SharedEdgesMembers(p, n - 1);
      PairRowMembers(p, n - 1, |p|);
    }
  }

  /** The edge erase keeps polygon[k] exactly when no other index of polygon
      holds an equal edge. */
  lemma UnsharedIffNoTwin<D>(p: seq<Edge<D>>, k: int)
    requires 0 <= k < |p|
    ensures Unshared(SharedEdges(p))(p[k]) <==> !HasTwin(p, k)
  {
    var bad := SharedEdges(p);
    SharedEdgesMembers(p, |p|);
    if HasTwin(p, k) {
      var j :| 0 <= j < |p| && j != k && EdgeEq(p[k], p[j]);
      assert p[k] in bad;
      var m :| 0 <= m < |bad| && bad[m] == p[k];
      EdgeEqIsEquivalence(p[k], p[k], p[k]);
      assert EdgeMatchesAny(bad, p[k]);
    }
    if EdgeMatchesAny(bad, p[k]) {
      var m :| 0 <= m < |bad| && EdgeEq(bad[m], p[k]);
      assert bad[m] in bad;
      var i, j :| 0 <= i < |p| && 0 <= j < |p| && i != j && EdgeEq(p[i], p[j]) && (bad[m] == p[i] || bad[m] == p[j]);
      EdgeEqIsEquivalence(p[i], p[j], p[k]);
      EdgeEqIsEquivalence(p[j], p[i], p[k]);
      EdgeEqIsEquivalence(p[k], p[i], p[j]);
      if i != k {
        assert EdgeEq(p[k], p[i]);
      } else {
        assert EdgeEq(p[k], p[j]);
      }
    }
  }

  /** Cancellation keeps exactly the edges without a twin, in their original
      order: the boundary is polygon read at the increasing positions of those
      edges. */
  lemma BoundaryKeepsUniqueEdges<D>(p: seq<Edge<D>>)
    ensures |KeptPositions(p, Unshared(SharedEdges(p)))| == |Boundary(p)|
    ensures forall k :: 0 <= k < |KeptPositions(p, Unshared(SharedEdges(p)))| ==>
      0 <= KeptPositions(p, Unshared(SharedEdges(p)))[k] < |p| &&
      Boundary(p)[k] == p[KeptPositions(p, Unshared(SharedEdges(p)))[k]]
    ensures forall k, l :: 0 <= k < l < |KeptPositions(p, Unshared(SharedEdges(p)))| ==>
      KeptPositions(p, Unshared(SharedEdges(p)))[k] < KeptPositions(p, Unshared(SharedEdges(p)))[l]
    ensures forall i :: 0 <= i < |p| ==>
      (i in KeptPositions(p, Unshared(SharedEdges(p))) <==> !HasTwin(p, i))
  {
    FilterIsOrderedSelection(p, Unshared(SharedEdges(p)));
    forall i | 0 <= i < |p|
      ensures Unshared(SharedEdges(p))(p[i]) <==> !HasTwin(p, i)
    {
      UnsharedIffNoTwin(p, i);
    }
  }

  /** The triangles appended by delaunay.h:119-120, one per boundary edge. */
  function Fan<D>(polygon: seq<Edge<D>>, p: Point<D>): seq<Triangle<D>>
  {
    if polygon == [] then []
    else
      var e := polygon[|polygon| - 1];
      Fan(polygon[..|polygon| - 1], p) + [Triangle(e.p1, e.p2, p)]
  }

  /** One new triangle per boundary edge: the i-th joins polygon[i] to p, and so
      contains p. */
  lemma {:induction false} FanShape<D>(polygon: seq<Edge<D>>, p: Point<D>)
    ensures |Fan(polygon, p)| == |polygon|
    ensures forall i :: 0 <= i < |polygon| ==>
      Fan(polygon, p)[i] == Triangle(polygon[i].p1, polygon[i].p2, p) && ContainsVertex(Fan(polygon, p)[i], p)
  {
    if polygon != [] {
      var init := polygon[..|polygon| - 1];
      FanShape(init, p);
      assert forall i :: 0 <= i < |init| ==> polygon[i] == init[i];
    }
  }

  /** One edge more adds one triangle at the back. */
  lemma FanSnoc<D>(polygon: seq<Edge<D>>, e: Edge<D>, p: Point<D>)
    ensures Fan(polygon + [e], p) == Fan(polygon, p) + [Triangle(e.p1, e.p2, p)]
  {
    assert (polygon + [e])[..|polygon|] == polygon;
  }

  /** The whole body of the loop over the points (delaunay.h:61-120). */
  function InsertPoint<D>(ts: seq<Triangle<D>>, p: Point<D>, inCircle: (Triangle<D>, Point<D>) -> bool): seq<Triangle<D>>
  {
    var bad := BadTriangles(ts, p, inCircle);
    RemoveBad(ts, bad) + Fan(Boundary(EdgesOf(bad)), p)
  }

  /** Count bookkeeping of one step: the triangles removed are at least the bad
      ones, the boundary has at most three edges per bad triangle, and the new
      list has what was kept plus one triangle per boundary edge. */
  lemma InsertPointCount<D>(ts: seq<Triangle<D>>, p: Point<D>, inCircle: (Triangle<D>, Point<D>) -> bool)
    ensures |BadTriangles(ts, p, inCircle)| <= |Filter(ts, Negation(NotBad(BadTriangles(ts, p, inCircle))))|
    ensures |Boundary(EdgesOf(BadTriangles(ts, p, inCircle)))| <= 3 * |BadTriangles(ts, p, inCircle)|
    ensures |InsertPoint(ts, p, inCircle)| + |Filter(ts, Negation(NotBad(BadTriangles(ts, p, inCircle))))|
      == |ts| + |Boundary(EdgesOf(BadTriangles(ts, p, inCircle)))|
  {
    var bad := BadTriangles(ts, p, inCircle);
    forall i | 0 <= i < |ts| && InCircleOf(p, inCircle)(ts[i])
      ensures Negation(NotBad(bad))(ts[i])
    {
      assert ts[i] in bad;
      var k :| 0 <= k < |bad| && bad[k] == ts[i];
      TriEqReflexive(ts[i]);
      assert MatchesAny(bad, ts[i]);
    }
    FilterMonotone(ts, InCircleOf(p, inCircle), Negation(NotBad(bad)));
    FilterSplitsLength(ts, NotBad(bad));
    EdgesOfLayout(bad);
    FanShape(Boundary(EdgesOf(bad)), p);
  }

  // ---------------------------------------------------------------------------
  // The whole algorithm (delaunay.h:54-126)

  /** The loop over the points (delaunay.h:56-122), point after point. */
  function InsertAll<D>(ts: seq<Triangle<D>>, pts: seq<Point<D>>, inCircle: (Triangle<D>, Point<D>) -> bool): seq<Triangle<D>>
  {
    if pts == [] then ts
    else InsertPoint(InsertAll(ts, pts[..|pts| - 1], inCircle), pts[|pts| - 1], inCircle)
  }

  /** Taking one more of the points is one more insertion step. */
  lemma InsertAllStep<D>(ts: seq<Triangle<D>>, pts: seq<Point<D>>, i: nat, inCircle: (Triangle<D>, Point<D>) -> bool)
    requires i < |pts|
    ensures InsertAll(ts, pts[..i + 1], inCircle) == InsertPoint(InsertAll(ts, pts[..i], inCircle), pts[i], inCircle)
  {
    assert pts[..i + 1][..i] == pts[..i];
  }

  /** The lambda of the last remove_if (delaunay.h:124-126), negated: t touches
      none of the super triangle's vertices. */
  function AvoidsSuper<D>(st: Triangle<D>): Triangle<D> -> bool
  {
    t => !(ContainsVertex(t, st.p1) || ContainsVertex(t, st.p2) || ContainsVertex(t, st.p3))
  }

  /** _triangles after the final erase. */
  function DropSuper<D>(ts: seq<Triangle<D>>, st: Triangle<D>): seq<Triangle<D>>
  {
    Filter(ts, AvoidsSuper(st))
  }

  /** After the final erase no triangle contains a vertex of the super triangle,
      and the survivors are exactly the other triangles, in their order. */
  lemma DropSuperKeepsTheRest<D>(ts: seq<Triangle<D>>, st: Triangle<D>)
    ensures forall j :: 0 <= j < |DropSuper(ts, st)| ==>
      !ContainsVertex(DropSuper(ts, st)[j], st.p1) &&
      !ContainsVertex(DropSuper(ts, st)[j], st.p2) &&
      !ContainsVertex(DropSuper(ts, st)[j], st.p3)
    ensures |KeptPositions(ts, AvoidsSuper(st))| == |DropSuper(ts, st)|
    ensures forall k :: 0 <= k < |KeptPositions(ts, AvoidsSuper(st))| ==>
      0 <= KeptPositions(ts, AvoidsSuper(st))[k] < |ts| &&
      DropSuper(ts, st)[k] == ts[KeptPositions(ts, AvoidsSuper(st))[k]]
    ensures forall k, l :: 0 <= k < l < |KeptPositions(ts, AvoidsSuper(st))| ==>
      KeptPositions(ts, AvoidsSuper(st))[k] < KeptPositions(ts, AvoidsSuper(st))[l]
    ensures forall i :: 0 <= i < |ts| ==>
      (i in KeptPositions(ts, AvoidsSuper(st)) <==> AvoidsSuper(st)(ts[i]))
  {
    FilterIsOrderedSelection(ts, AvoidsSuper(st));
  }

  /** _triangles when triangulate returns, starting from the list prior it held
      before (the source never clears it) and the super triangle st. */
  function Triangulation<D>(prior: seq<Triangle<D>>, pts: seq<Point<D>>, st: Triangle<D>,
                            inCircle: (Triangle<D>, Point<D>) -> bool): seq<Triangle<D>>
  {
    DropSuper(InsertAll(prior + [st], pts, inCircle), st)
  }

  // ---------------------------------------------------------------------------
  // Where the vertices of the result come from

  /** Every vertex of every triangle of ts is in pool. */
  ghost predicate CornersIn<D>(ts: seq<Triangle<D>>, pool: seq<Point<D>>)
  {
    forall t :: t in ts ==> t.p1 in pool && t.p2 in pool && t.p3 in pool
  }

  /** Every endpoint of every edge of es is in pool. */
  ghost predicate EndsIn<D>(es: seq<Edge<D>>, pool: seq<Point<D>>)
  {
    forall e :: e in es ==> e.p1 in pool && e.p2 in pool
  }

  /** The edges of triangles with vertices in pool end in pool. */
  lemma {:induction false} EdgesOfEndsIn<D>(ts: seq<Triangle<D>>, pool: seq<Point<D>>)
    requires CornersIn(ts, pool)
    ensures EndsIn(EdgesOf(ts), pool)
  {
    if ts != [] {
      var init := ts[..|ts| - 1];
      assert forall t :: t in init ==> t in ts;
      EdgesOfEndsIn(init, pool);
      assert ts[|ts| - 1] in ts;
    }
  }

  /** An insertion step only uses vertices of the triangles it starts from and
      the point it inserts. */
  lemma InsertPointCornersIn<D>(ts: seq<Triangle<D>>, p: Point<D>, inCircle: (Triangle<D>, Point<D>) -> bool,
                                pool: seq<Point<D>>)
    requires CornersIn(ts, pool) && p in pool
    ensures CornersIn(InsertPoint(ts, p, inCircle), pool)
  {
    var bad := BadTriangles(ts, p, inCircle);
    assert CornersIn(bad, pool);
    EdgesOfEndsIn(bad, pool);
    var boundary := Boundary(EdgesOf(bad));
    assert EndsIn(boundary, pool);
    FanShape(boundary, p);
    var fan := Fan(boundary, p);
    assert CornersIn(fan, pool) by {
      forall t | t in fan
        ensures t.p1 in pool && t.p2 in pool && t.p3 in pool
      {
        var i :| 0 <= i < |fan| && fan[i] == t;
        assert boundary[i] in boundary;
      }
    }
    assert CornersIn(RemoveBad(ts, bad), pool);
  }

  /** The same for the whole loop over the points. */
  lemma {:induction false} InsertAllCornersIn<D>(ts: seq<Triangle<D>>, pts: seq<Point<D>>,
                                                 inCircle: (Triangle<D>, Point<D>) -> bool, pool: seq<Point<D>>)
    requires CornersIn(ts, pool) && forall p :: p in pts ==> p in pool
    ensures CornersIn(InsertAll(ts, pts, inCircle), pool)
  {
    if pts != [] {
      var init := pts[..|pts| - 1];
      assert forall p :: p in init ==> p in pts;
      InsertAllCornersIn(ts, init, inCircle, pool);
      assert pts[|pts| - 1] in pts;
      InsertPointCornersIn(InsertAll(ts, init, inCircle), pts[|pts| - 1], inCircle, pool);
    }
  }

  /** Every vertex of the returned triangulation is an input point or a vertex of
      the triangles the list held before the call: the super triangle's vertices
      are all gone. On a fresh Delaunay (prior == []) every vertex is an input
      point. */
  lemma TriangulationUsesInputVertices<D>(prior: seq<Triangle<D>>, pts: seq<Point<D>>, st: Triangle<D>,
                                          inCircle: (Triangle<D>, Point<D>) -> bool, pool: seq<Point<D>>)
    requires CornersIn(prior, pool)
    ensures CornersIn(Triangulation(prior, pts, st, inCircle), pool + pts)
  {
    var big := [st.p1, st.p2, st.p3] + pool + pts;
    assert CornersIn(prior + [st], big);
    InsertAllCornersIn(prior + [st], pts, inCircle, big);
    var all := InsertAll(prior + [st], pts, inCircle);
    forall t | t in DropSuper(all, st)
      ensures t.p1 in pool + pts && t.p2 in pool + pts && t.p3 in pool + pts
    {
      assert AvoidsSuper(st)(t);
      PointEqIsEquivalence(t.p1, t.p1, t.p1);
      PointEqIsEquivalence(t.p2, t.p2, t.p2);
      PointEqIsEquivalence(t.p3, t.p3, t.p3);
    }
  }
}
