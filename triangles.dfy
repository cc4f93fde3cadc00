/** triangle.h: three vertices and the three edges derived from them, with the
    vertex-membership test, the two geometric predicates and the unordered
    equality the triangulator relies on. Coordinates are exact reals. */
module Triangles {
  import opened Points
  import opened Edges

  /** Triangle(p1, p2, p3). Its edges e1, e2, e3 (triangle.h:17-20) are derived
      from the vertices, so they cannot disagree with them. */
  datatype Triangle<D> = Triangle(p1: Point<D>, p2: Point<D>, p3: Point<D>)
  {
    function E1(): Edge<D> { Edge(p1, p2) }
    function E2(): Edge<D> { Edge(p2, p3) }
    function E3(): Edge<D> { Edge(p3, p1) }
  }

  /** The derived edges run p1 -> p2 -> p3 -> p1: e1 = (p1, p2), e2 = (p2, p3)
      and e3 = (p3, p1), each starts where the previous one ends, and together
      they touch exactly the three vertices. */
  lemma DerivedEdgesFormCycle<D>(t: Triangle<D>)
    ensures t.E1() == Edge(t.p1, t.p2) && t.E2() == Edge(t.p2, t.p3) && t.E3() == Edge(t.p3, t.p1)
    ensures t.E1().p1 == t.p1 && t.E1().p2 == t.E2().p1
    ensures t.E2().p2 == t.E3().p1 && t.E3().p2 == t.E1().p1
    ensures Ends(t.E1()) + Ends(t.E2()) + Ends(t.E3()) == Corners(t)
  {
  }

  /** The locations of the three vertices, as a set. */
  function Corners<D>(t: Triangle<D>): set<(real, real)>
  {
    {Loc(t.p1), Loc(t.p2), Loc(t.p3)}
  }

  /** containsVertex (triangle.h:22-25). */
  predicate ContainsVertex<D>(t: Triangle<D>, v: Point<D>)
  {
    PointEq(t.p1, v) || PointEq(t.p2, v) || PointEq(t.p3, v)
  }

  /** A triangle contains a point exactly when the point stands on one of its
      corners; the payload plays no part. */
  lemma ContainsVertexIsCorner<D>(t: Triangle<D>, v: Point<D>)
    ensures ContainsVertex(t, v) <==> Loc(v) in Corners(t)
  {
  }

  /** operator== (triangle.h:71-77): every vertex of t1 equals some vertex of t2. */
  predicate TriEq<D>(t1: Triangle<D>, t2: Triangle<D>)
  {
    && (PointEq(t1.p1, t2.p1) || PointEq(t1.p1, t2.p2) || PointEq(t1.p1, t2.p3))
    && (PointEq(t1.p2, t2.p1) || PointEq(t1.p2, t2.p2) || PointEq(t1.p2, t2.p3))
    && (PointEq(t1.p3, t2.p1) || PointEq(t1.p3, t2.p2) || PointEq(t1.p3, t2.p3))
  }

  /** Triangle equality is inclusion of the corner sets, t1's in t2's. */
  lemma TriEqIsCornerInclusion<D>(t1: Triangle<D>, t2: Triangle<D>)
    ensures TriEq(t1, t2) <==> Corners(t1) <= Corners(t2)
  {
    if Corners(t1) <= Corners(t2) {
      assert Loc(t1.p1) in Corners(t2) && Loc(t1.p2) in Corners(t2) && Loc(t1.p3) in Corners(t2);
    }
  }

  /** The six relabellings of a triangle's vertices. */
  function Relabel<D>(t: Triangle<D>, k: nat): Triangle<D>
    requires k < 6
  {
    match k
    case 0 => t
    case 1 => Triangle(t.p1, t.p3, t.p2)
    case 2 => Triangle(t.p2, t.p1, t.p3)
    case 3 => Triangle(t.p2, t.p3, t.p1)
    case 4 => Triangle(t.p3, t.p1, t.p2)
    case _ => Triangle(t.p3, t.p2, t.p1)
  }

  /** Relabelling the vertices of either triangle never changes operator==. */
  lemma TriEqIgnoresLabelling<D>(t1: Triangle<D>, t2: Triangle<D>, i: nat, j: nat)
    requires i < 6 && j < 6
    ensures TriEq(Relabel(t1, i), Relabel(t2, j)) == TriEq(t1, t2)
  {
    assert Corners(Relabel(t1, i)) == Corners(t1);
    assert Corners(Relabel(t2, j)) == Corners(t2);
    TriEqIsCornerInclusion(t1, t2);
    TriEqIsCornerInclusion(Relabel(t1, i), Relabel(t2, j));
  }

  /** operator== is reflexive. */
  lemma TriEqReflexive<D>(t: Triangle<D>)
    ensures TriEq(t, t)
  {
  }

  /** No two vertices of t stand at the same location. */
  predicate DistinctVertices<D>(t: Triangle<D>)
  {
    !PointEq(t.p1, t.p2) && !PointEq(t.p2, t.p3) && !PointEq(t.p1, t.p3)
  }

  /** Between triangles with pairwise-distinct vertices operator== is
      symmetric: it then says that both have the same three corners. */
  lemma TriEqSymmetricOnDistinct<D>(t1: Triangle<D>, t2: Triangle<D>)
    requires DistinctVertices(t1) && DistinctVertices(t2)
    ensures TriEq(t1, t2) ==> TriEq(t2, t1) && Corners(t1) == Corners(t2)
  {
    if TriEq(t1, t2) {
      TriEqIsCornerInclusion(t1, t2);
      TriEqIsCornerInclusion(t2, t1);
      var c1, c2 := Corners(t1), Corners(t2);
      ThreeCorners(t1);
      ThreeCorners(t2);
      assert |c2 - c1| == |c2| - |c1| == 0;
      assert c2 - c1 == {};
      assert c2 <= c1;
    }
  }

  /** A triangle with distinct vertices has three corners. */
  lemma ThreeCorners<D>(t: Triangle<D>)
    requires DistinctVertices(t)
    ensures |Corners(t)| == 3
  {
    var a, b, c := Loc(t.p1), Loc(t.p2), Loc(t.p3);
    assert a != b && b != c && a != c;
    assert |{a}| == 1;
    assert |{a, b}| == |{a} + {b}| == 2;
    assert {a, b, c} == {a, b} + {c};
  }

  /** Without distinct vertices operator== is not symmetric: a triangle with
      two coincident vertices is "equal" to any triangle that has its two
      corners, but not the other way round. */
  lemma TriEqAsymmetricOnDegenerate<D>(v: D)
    ensures var a, b, c := Point(0.0, 0.0, v), Point(1.0, 0.0, v), Point(0.0, 1.0, v);
      TriEq(Triangle(a, a, b), Triangle(a, b, c)) && !TriEq(Triangle(a, b, c), Triangle(a, a, b))
  {
  }

  // ---------------------------------------------------------------------------
  // isEncircling (triangle.h:42-54)

  /** D: twice the signed area of t. */
  function Det<D>(t: Triangle<D>): real
  {
    (t.p2.y - t.p3.y) * (t.p1.x - t.p3.x) + (t.p3.x - t.p2.x) * (t.p1.y - t.p3.y)
  }

  /** s: the coordinate of (x, y) towards p1, scaled by D. */
  function CoordS<D>(t: Triangle<D>, x: real, y: real): real
  {
    (t.p2.y - t.p3.y) * (x - t.p3.x) + (t.p3.x - t.p2.x) * (y - t.p3.y)
  }

  /** t: the coordinate of (x, y) towards p2, scaled by D. */
  function CoordT<D>(t: Triangle<D>, x: real, y: real): real
  {
    (t.p3.y - t.p1.y) * (x - t.p3.x) + (t.p1.x - t.p3.x) * (y - t.p3.y)
  }

  /** isEncircling: the sign test, with one branch per winding direction; both
      boundaries are inclusive. */
  predicate IsEncircling<D>(t: Triangle<D>, x: real, y: real)
  {
    SignTest(Det(t), CoordS(t, x, y), CoordT(t, x, y))
  }

  /** The test on the three numbers D, s and t alone. */
  predicate SignTest(d: real, s: real, u: real)
  {
    if d < 0.0 then s <= 0.0 && u <= 0.0 && s + u >= d
    else s >= 0.0 && u >= 0.0 && s + u <= d
  }

  /** Each of a triangle's own vertices passes the test, whatever the
      winding. */
  lemma EncirclesOwnVertices<D>(t: Triangle<D>)
    ensures IsEncircling(t, t.p1.x, t.p1.y)
    ensures IsEncircling(t, t.p2.x, t.p2.y)
    ensures IsEncircling(t, t.p3.x, t.p3.y)
  {
    var ax, ay, bx, by', dx, dy := RelativeCoordinates(t, t.p1.x, t.p1.y);
    VertexCoordinates(ax, ay, bx, by', dx, dy, Det(t), CoordS(t, t.p1.x, t.p1.y), CoordT(t, t.p1.x, t.p1.y));
    ax, ay, bx, by', dx, dy := RelativeCoordinates(t, t.p2.x, t.p2.y);
    VertexCoordinates(ax, ay, bx, by', dx, dy, Det(t), CoordS(t, t.p2.x, t.p2.y), CoordT(t, t.p2.x, t.p2.y));
    ax, ay, bx, by', dx, dy := RelativeCoordinates(t, t.p3.x, t.p3.y);
    VertexCoordinates(ax, ay, bx, by', dx, dy, Det(t), CoordS(t, t.p3.x, t.p3.y), CoordT(t, t.p3.x, t.p3.y));
  }

  /** In the relative coordinates the vertices sit at a, b and the origin,
      where (s, t) is (D, 0), (0, D) and (0, 0). */
  lemma VertexCoordinates(ax: real, ay: real, bx: real, by': real, dx: real, dy: real, d: real, s: real, u: real)
    ensures d == by' * ax - bx * ay && s == by' * dx - bx * dy && u == ax * dy - ay * dx ==>
      && (dx == ax && dy == ay ==> s == d && u == 0.0)
      && (dx == bx && dy == by' ==> s == 0.0 && u == d)
      && (dx == 0.0 && dy == 0.0 ==> s == 0.0 && u == 0.0)
  {
    if d == by' * ax - bx * ay && s == by' * dx - bx * dy && u == ax * dy - ay * dx {
      if dx == ax && dy == ay {
        assert ax * ay == ay * ax;
      }
      if dx == bx && dy == by' {
        assert by' * bx == bx * by';
      }
    }
  }

  /** Swapping p1 and p2 maps (s, t, D) to (-t, -s, -D); the two branches mirror
      each other, so the test is unchanged. */
  lemma EncirclingIgnoresSwap<D>(t: Triangle<D>, x: real, y: real)
    ensures IsEncircling(Triangle(t.p2, t.p1, t.p3), x, y) == IsEncircling(t, x, y)
  {
    var t' := Triangle(t.p2, t.p1, t.p3);
    var ax, ay, bx, by', dx, dy := RelativeCoordinates(t, x, y);
    var ax', ay', bx', by'', dx', dy' := RelativeCoordinates(t', x, y);
    SwapCoordinates(ax, ay, bx, by', dx, dy, Det(t), CoordS(t, x, y), CoordT(t, x, y),
                    ax', ay', bx', by'', Det(t'), CoordS(t', x, y), CoordT(t', x, y));
  }

  /** Exchanging a and b negates D and maps (s, t) to (-t, -s). */
  lemma SwapCoordinates(ax: real, ay: real, bx: real, by': real, dx: real, dy: real, d: real, s: real, u: real,
                        ax': real, ay': real, bx': real, by'': real, d': real, s': real, u': real)
    ensures && d == by' * ax - bx * ay && s == by' * dx - bx * dy && u == ax * dy - ay * dx
            && ax' == bx && ay' == by' && bx' == ax && by'' == ay
            && d' == by'' * ax' - bx' * ay' && s' == by'' * dx - bx' * dy && u' == ax' * dy - ay' * dx
            ==> d' == -d && s' == -u && u' == -s
  {
    if && d == by' * ax - bx * ay && s == by' * dx - bx * dy && u == ax * dy - ay * dx
       && ax' == bx && ay' == by' && bx' == ax && by'' == ay
       && d' == by'' * ax' - bx' * ay' && s' == by'' * dx - bx' * dy && u' == ax' * dy - ay' * dx
    {
      assert d' == ay * bx - ax * by';
      assert ay * bx == bx * ay && ax * by' == by' * ax;
    }
  }

  /** (x, y) is the convex combination l1*p1 + l2*p2 + (1-l1-l2)*p3. */
  predicate ConvexCombination<D>(t: Triangle<D>, x: real, y: real, l1: real, l2: real)
  {
    && l1 >= 0.0 && l2 >= 0.0 && l1 + l2 <= 1.0
    && x == l1 * t.p1.x + l2 * t.p2.x + (1.0 - l1 - l2) * t.p3.x
    && y == l1 * t.p1.y + l2 * t.p2.y + (1.0 - l1 - l2) * t.p3.y
  }

  /** For a triangle of non-zero area, isEncircling holds exactly at the points
      of the closed triangle: the convex combinations of its vertices. */
  lemma EncirclingIsClosedTriangle<D>(t: Triangle<D>, x: real, y: real)
    requires Det(t) != 0.0
    ensures IsEncircling(t, x, y) <==> exists l1, l2 :: ConvexCombination(t, x, y, l1, l2)
  {
    if IsEncircling(t, x, y) {
      var l1, l2 := Barycentric(t, x, y);
      assert ConvexCombination(t, x, y, l1, l2);
    }
    if l1, l2 :| ConvexCombination(t, x, y, l1, l2) {
      CombinationIsEncircled(t, x, y, l1, l2);
    }
  }

  /** The barycentric coordinates s/D and t/D of a point that passes the test
      exhibit it as a convex combination. */
  lemma Barycentric<D>(t: Triangle<D>, x: real, y: real) returns (l1: real, l2: real)
    requires Det(t) != 0.0 && IsEncircling(t, x, y)
    ensures l1 == CoordS(t, x, y) / Det(t) && l2 == CoordT(t, x, y) / Det(t)
    ensures ConvexCombination(t, x, y, l1, l2)
  {
    var ax, ay, bx, by', dx, dy := RelativeCoordinates(t, x, y);
    var d, s, u := Det(t), CoordS(t, x, y), CoordT(t, x, y);
    l1, l2 := s / d, u / d;
    QuotientScales(s, d);
    QuotientScales(u, d);
    SignTestBounds(d, s, u, l1, l2);
    CoordinateIdentity(ax, ay, bx, by', dx, dy, d, s, u);
    SolveScaled(l1, l2, s, u, d, ax, bx, dx);
    SolveScaled(l1, l2, s, u, d, ay, by', dy);
    AffineForm(l1, l2, t.p1.x, t.p2.x, t.p3.x, ax, bx);
    AffineForm(l1, l2, t.p1.y, t.p2.y, t.p3.y, ay, by');
  }

  /** Dividing s*a + u*b == q*d through by d, with l1 and l2 the quotients of s
      and u by d. */
  lemma SolveScaled(l1: real, l2: real, s: real, u: real, d: real, a: real, b: real, q: real)
    ensures d != 0.0 && l1 * d == s && l2 * d == u && s * a + u * b == q * d ==> l1 * a + l2 * b == q
  {
    if d != 0.0 && l1 * d == s && l2 * d == u && s * a + u * b == q * d {
      assert (l1 * a + l2 * b) * d == (l1 * d) * a + (l2 * d) * b;
      Cancel(l1 * a + l2 * b, q, d);
    }
  }

  /** A convex combination of the vertices passes the test. */
  lemma CombinationIsEncircled<D>(t: Triangle<D>, x: real, y: real, l1: real, l2: real)
    requires Det(t) != 0.0 && ConvexCombination(t, x, y, l1, l2)
    ensures IsEncircling(t, x, y)
  {
    var ax, ay, bx, by', dx, dy := RelativeCoordinates(t, x, y);
    AffineForm(l1, l2, t.p1.x, t.p2.x, t.p3.x, ax, bx);
    AffineForm(l1, l2, t.p1.y, t.p2.y, t.p3.y, ay, by');
    var d, s, u := Det(t), CoordS(t, x, y), CoordT(t, x, y);
    CombinationCoordinates(ax, ay, bx, by', l1, l2, dx, dy, d, s, u);
    SignTestBounds(d, s, u, l1, l2);
  }

  /** The test in the coordinates a = p1 - p3, b = p2 - p3 and
      (dx, dy) = (x, y) - p3: D = b.y*a.x - b.x*a.y, s = b.y*dx - b.x*dy,
      t = a.x*dy - a.y*dx. */
  lemma RelativeCoordinates<D>(t: Triangle<D>, x: real, y: real)
    returns (ax: real, ay: real, bx: real, by': real, dx: real, dy: real)
    ensures ax == t.p1.x - t.p3.x && ay == t.p1.y - t.p3.y
    ensures bx == t.p2.x - t.p3.x && by' == t.p2.y - t.p3.y
    ensures dx == x - t.p3.x && dy == y - t.p3.y
    ensures Det(t) == by' * ax - bx * ay
    ensures CoordS(t, x, y) == by' * dx - bx * dy
    ensures CoordT(t, x, y) == ax * dy - ay * dx
  {
    ax, ay, bx, by', dx, dy := t.p1.x - t.p3.x, t.p1.y - t.p3.y, t.p2.x - t.p3.x, t.p2.y - t.p3.y, x - t.p3.x, y - t.p3.y;
    NegatedFactor(t.p3.x - t.p2.x, bx, ay);
    NegatedFactor(t.p3.x - t.p2.x, bx, dy);
    NegatedFactor(t.p3.y - t.p1.y, ay, dx);
  }

  /** A factor equal to -b gives the negated product. */
  lemma NegatedFactor(a: real, b: real, c: real)
    ensures a == -b ==> a * c == -(b * c)
  {
  }

  /** With a = p1 - p3, b = p2 - p3 and (dx, dy) = (x, y) - p3:
      s*a + t*b == D*(dx, dy). */
  lemma CoordinateIdentity(ax: real, ay: real, bx: real, by': real, dx: real, dy: real, d: real, s: real, u: real)
    ensures d == by' * ax - bx * ay && s == by' * dx - bx * dy && u == ax * dy - ay * dx ==>
      s * ax + u * bx == dx * d && s * ay + u * by' == dy * d
  {
    if d == by' * ax - bx * ay && s == by' * dx - bx * dy && u == ax * dy - ay * dx {
      assert s * ax == by' * dx * ax - bx * dy * ax;
      assert u * bx == ax * dy * bx - ay * dx * bx;
      assert dx * d == dx * by' * ax - dx * bx * ay;
      assert s * ay == by' * dx * ay - bx * dy * ay;
      assert u * by' == ax * dy * by' - ay * dx * by';
      assert dy * d == dy * by' * ax - dy * bx * ay;
    }
  }

  /** Conversely, the point l1*a + l2*b has s = l1*D and t = l2*D. */
  lemma CombinationCoordinates(ax: real, ay: real, bx: real, by': real, l1: real, l2: real,
                               dx: real, dy: real, d: real, s: real, u: real)
    ensures && d == by' * ax - bx * ay && dx == l1 * ax + l2 * bx && dy == l1 * ay + l2 * by'
            && s == by' * dx - bx * dy && u == ax * dy - ay * dx
            ==> l1 * d == s && l2 * d == u
  {
    if && d == by' * ax - bx * ay && dx == l1 * ax + l2 * bx && dy == l1 * ay + l2 * by'
       && s == by' * dx - bx * dy && u == ax * dy - ay * dx
    {
      assert by' * dx == l1 * by' * ax + l2 * by' * bx;
      assert bx * dy == l1 * bx * ay + l2 * bx * by';
      assert l1 * d == l1 * by' * ax - l1 * bx * ay;
      assert ax * dy == l1 * ax * ay + l2 * ax * by';
      assert ay * dx == l1 * ay * ax + l2 * ay * bx;
      assert l2 * d == l2 * by' * ax - l2 * bx * ay;
    }
  }

  /** With a = p - r and b = q - r:
      l1*p + l2*q + (1-l1-l2)*r == r + (l1*a + l2*b). */
  lemma AffineForm(l1: real, l2: real, p: real, q: real, r: real, a: real, b: real)
    ensures a == p - r && b == q - r ==> l1 * p + l2 * q + (1.0 - l1 - l2) * r == r + (l1 * a + l2 * b)
  {
    if a == p - r && b == q - r {
      assert (1.0 - l1 - l2) * r == r - l1 * r - l2 * r;
      assert l1 * a == l1 * p - l1 * r;
      assert l2 * b == l2 * q - l2 * r;
    }
  }

  /** The quotient by a non-zero d, multiplied back by d. */
  lemma QuotientScales(n: real, d: real)
    ensures d != 0.0 ==> (n / d) * d == n
  {
  }

  /** With l1 and l2 the quotients of s and t by a non-zero D, the sign test
      holds exactly when l1, l2 and 1 - l1 - l2 are all non-negative. */
  lemma SignTestBounds(d: real, s: real, u: real, l1: real, l2: real)
    ensures d != 0.0 && l1 * d == s && l2 * d == u ==>
      (SignTest(d, s, u) <==> l1 >= 0.0 && l2 >= 0.0 && l1 + l2 <= 1.0)
  {
    if d != 0.0 && l1 * d == s && l2 * d == u {
      assert (l1 + l2) * d == s + u;
      ScaledBounds(l1, d, s);
      ScaledBounds(l2, d, u);
      ScaledBounds(l1 + l2, d, s + u);
    }
  }

  /** When l*d == a with d non-zero, l lies in [0, 1] exactly when a lies
      between 0 and d. */
  lemma ScaledBounds(l: real, d: real, a: real)
    requires d != 0.0 && l * d == a
    ensures d > 0.0 ==> (l >= 0.0 <==> a >= 0.0) && (l <= 1.0 <==> a <= d)
    ensures d < 0.0 ==> (l >= 0.0 <==> a <= 0.0) && (l <= 1.0 <==> a >= d)
  {
    assert (1.0 - l) * d == d - a;
    if d > 0.0 {
      ScaleSign(l, d);
      ScaleSign(1.0 - l, d);
    } else {
      assert l * (-d) == -a;
      assert (1.0 - l) * (-d) == a - d;
      ScaleSign(l, -d);
      ScaleSign(1.0 - l, -d);
    }
  }

  /** Multiplying by a positive factor keeps the sign. */
  lemma ScaleSign(q: real, k: real)
    requires k > 0.0
    ensures q >= 0.0 <==> q * k >= 0.0
  {
    if q > 0.0 {
      assert q * k > 0.0;
    } else if q < 0.0 {
      assert (-q) * k > 0.0;
      assert q * k == -((-q) * k);
    }
  }

  /** A non-zero factor cancels. */
  lemma Cancel(p: real, q: real, d: real)
    requires d != 0.0 && p * d == q * d
    ensures p == q
  {
    assert (p - q) * d == 0.0;
  }

  // ---------------------------------------------------------------------------
  // circumCircleContains (triangle.h:27-39), over exact reals

  /** The circumcenter as triangle.h:29-34 computes it. */
  function CircumCenter<D>(t: Triangle<D>): (real, real)
    requires CircumDenominator(t) != 0.0
  {
    Center(t.p1.x, t.p1.y, t.p2.x, t.p2.y, t.p3.x, t.p3.y)
  }

  /** The denominator of the circumcenter's x coordinate; the one of its y
      coordinate is its negation. Zero exactly for collinear vertices. */
  function CircumDenominator<D>(t: Triangle<D>): real
  {
    DenX(t.p1.x, t.p1.y, t.p2.x, t.p2.y, t.p3.x, t.p3.y)
  }

  /** The same formulas on the six coordinates. ab, cd and ef in the source are
      the squared norms of the vertices. */
  function SqNorm(x: real, y: real): real
  {
    x * x + y * y
  }

  function DenX(x1: real, y1: real, x2: real, y2: real, x3: real, y3: real): real
  {
    x1 * (y3 - y2) + x2 * (y1 - y3) + x3 * (y2 - y1)
  }

  function DenY(x1: real, y1: real, x2: real, y2: real, x3: real, y3: real): real
  {
    y1 * (x3 - x2) + y2 * (x1 - x3) + y3 * (x2 - x1)
  }

  function NumX(ab: real, cd: real, ef: real, y1: real, y2: real, y3: real): real
  {
    ab * (y3 - y2) + cd * (y1 - y3) + ef * (y2 - y1)
  }

  function NumY(ab: real, cd: real, ef: real, x1: real, x2: real, x3: real): real
  {
    ab * (x3 - x2) + cd * (x1 - x3) + ef * (x2 - x1)
  }

  /** (NumX / DenX / 2, NumY / DenY / 2); DenY is -DenX, so it is non-zero too. */
  function Center(x1: real, y1: real, x2: real, y2: real, x3: real, y3: real): (real, real)
    requires DenX(x1, y1, x2, y2, x3, y3) != 0.0
  {
    var ab, cd, ef := SqNorm(x1, y1), SqNorm(x2, y2), SqNorm(x3, y3);
    DenominatorsOpposite(x1, y1, x2, y2, x3, y3);
    CenterOf(NumX(ab, cd, ef, y1, y2, y3), NumY(ab, cd, ef, x1, x2, x3),
             DenX(x1, y1, x2, y2, x3, y3), DenY(x1, y1, x2, y2, x3, y3))
  }

  /** (nx / den / 2, ny / denY / 2), as the source divides. */
  function CenterOf(nx: real, ny: real, den: real, denY: real): (real, real)
    requires den != 0.0 && denY == -den
  {
    (nx / den / 2.0, ny / denY / 2.0)
  }

  /** (cx, cy) solves 2*cx*den == nx and 2*cy*den == -ny, with den non-zero. */
  predicate Solves(c: (real, real), den: real, nx: real, ny: real)
  {
    den != 0.0 && (c.0 * 2.0) * den == nx && (c.1 * 2.0) * den == -ny
  }

  /** When denY == -den, CenterOf solves 2*cx*den == nx and 2*cy*den == -ny. */
  lemma CenterOfSolves(nx: real, ny: real, den: real, denY: real)
    ensures den != 0.0 && denY == -den ==> Solves(CenterOf(nx, ny, den, denY), den, nx, ny)
  {
    if den != 0.0 && denY == -den {
      HalfQuotient(nx, den);
      HalfQuotient(ny, denY);
      var cy := ny / denY / 2.0;
      assert (cy * 2.0) * den == -((cy * 2.0) * denY);
    }
  }

  /** Halving a quotient and doubling it again gives back the quotient. */
  lemma HalfQuotient(n: real, d: real)
    requires d != 0.0
    ensures (n / d / 2.0 * 2.0) * d == n
  {
    var q := n / d;
    assert q * d == n;
    assert q / 2.0 * 2.0 == q;
  }

  /** The y denominator of the circumcenter is the negated x denominator. */
  lemma DenominatorsOpposite(x1: real, y1: real, x2: real, y2: real, x3: real, y3: real)
    ensures DenY(x1, y1, x2, y2, x3, y3) == -DenX(x1, y1, x2, y2, x3, y3)
  {
    assert y1 * (x3 - x2) == x3 * y1 - x2 * y1;
    assert y2 * (x1 - x3) == x1 * y2 - x3 * y2;
    assert y3 * (x2 - x1) == x2 * y3 - x1 * y3;
    assert x1 * (y3 - y2) == x1 * y3 - x1 * y2;
    assert x2 * (y1 - y3) == x2 * y1 - x2 * y3;
    assert x3 * (y2 - y1) == x3 * y2 - x3 * y1;
  }

  /** Squared distance from (x, y) to a center c. */
  function SqDistTo(x: real, y: real, c: (real, real)): real
  {
    (x - c.0) * (x - c.0) + (y - c.1) * (y - c.1)
  }

  /** circumCircleContains: v is no farther from the circumcenter than p1. The
      source compares square roots of these two non-negative quantities, which
      orders them the same way. */
  predicate CircumCircleContains<D>(t: Triangle<D>, v: Point<D>)
    requires CircumDenominator(t) != 0.0
  {
    var c := CircumCenter(t);
    SqDistTo(v.x, v.y, c) <= SqDistTo(t.p1.x, t.p1.y, c)
  }

  /** The computed center is equidistant from the three vertices, so it is the
      center of the circle through them; and since the boundary is inclusive,
      each vertex passes circumCircleContains. */
  lemma CircumCenterIsEquidistant<D>(t: Triangle<D>)
    requires CircumDenominator(t) != 0.0
    ensures SqDistTo(t.p2.x, t.p2.y, CircumCenter(t)) == SqDistTo(t.p1.x, t.p1.y, CircumCenter(t))
    ensures SqDistTo(t.p3.x, t.p3.y, CircumCenter(t)) == SqDistTo(t.p1.x, t.p1.y, CircumCenter(t))
    ensures CircumCircleContains(t, t.p1) && CircumCircleContains(t, t.p2) && CircumCircleContains(t, t.p3)
  {
    CenterIsEquidistant(t.p1.x, t.p1.y, t.p2.x, t.p2.y, t.p3.x, t.p3.y);
  }

  /** CircumCenterIsEquidistant on the six coordinates. */
  lemma CenterIsEquidistant(x1: real, y1: real, x2: real, y2: real, x3: real, y3: real)
    requires DenX(x1, y1, x2, y2, x3, y3) != 0.0
    ensures SqDistTo(x2, y2, Center(x1, y1, x2, y2, x3, y3)) == SqDistTo(x1, y1, Center(x1, y1, x2, y2, x3, y3))
    ensures SqDistTo(x3, y3, Center(x1, y1, x2, y2, x3, y3)) == SqDistTo(x1, y1, Center(x1, y1, x2, y2, x3, y3))
  {
    DenominatorsOpposite(x1, y1, x2, y2, x3, y3);
    CenterOfIsEquidistant(x1, y1, x2, y2, x3, y3);
    CenterUnfold(x1, y1, x2, y2, x3, y3);
  }

  /** Center is CenterOf applied to the numerators and denominators. */
  lemma CenterUnfold(x1: real, y1: real, x2: real, y2: real, x3: real, y3: real)
    requires DenX(x1, y1, x2, y2, x3, y3) != 0.0
    ensures DenY(x1, y1, x2, y2, x3, y3) == -DenX(x1, y1, x2, y2, x3, y3)
    ensures Center(x1, y1, x2, y2, x3, y3)
         == CenterOf(NumX(SqNorm(x1, y1), SqNorm(x2, y2), SqNorm(x3, y3), y1, y2, y3),
                     NumY(SqNorm(x1, y1), SqNorm(x2, y2), SqNorm(x3, y3), x1, x2, x3),
                     DenX(x1, y1, x2, y2, x3, y3), DenY(x1, y1, x2, y2, x3, y3))
  {
    DenominatorsOpposite(x1, y1, x2, y2, x3, y3);
  }

  /** The equidistance, stated on CenterOf. */
  lemma CenterOfIsEquidistant(x1: real, y1: real, x2: real, y2: real, x3: real, y3: real)
    requires DenX(x1, y1, x2, y2, x3, y3) != 0.0
    requires DenY(x1, y1, x2, y2, x3, y3) == -DenX(x1, y1, x2, y2, x3, y3)
    ensures var c := CenterOf(NumX(SqNorm(x1, y1), SqNorm(x2, y2), SqNorm(x3, y3), y1, y2, y3),
                              NumY(SqNorm(x1, y1), SqNorm(x2, y2), SqNorm(x3, y3), x1, x2, x3),
                              DenX(x1, y1, x2, y2, x3, y3), DenY(x1, y1, x2, y2, x3, y3));
      SqDistTo(x2, y2, c) == SqDistTo(x1, y1, c) && SqDistTo(x3, y3, c) == SqDistTo(x1, y1, c)
  {
    var ab, cd, ef := SqNorm(x1, y1), SqNorm(x2, y2), SqNorm(x3, y3);
    var nx, ny := NumX(ab, cd, ef, y1, y2, y3), NumY(ab, cd, ef, x1, x2, x3);
    var den, denY := DenX(x1, y1, x2, y2, x3, y3), DenY(x1, y1, x2, y2, x3, y3);
    var c := CenterOf(nx, ny, den, denY);
    CenterOfSolves(nx, ny, den, denY);
    CircumIdentity(ab, cd, ef, x1, y1, x2, y2, x3, y3);
    EquidistantByIdentity(x1, y1, x2, y2, c, den, nx, ny, cd - ab);
    EquidistantByIdentity(x1, y1, x3, y3, c, den, nx, ny, ef - ab);
  }

  /** a*den == nx*u - ny*v. */
  predicate Identity(a: real, den: real, nx: real, ny: real, u: real, v: real)
  {
    a * den == nx * u - ny * v
  }

  /** With ab, cd, ef the squared norms of the vertices, the numerators satisfy
      (cd - ab)*den == Nx*(x2 - x1) - Ny*(y2 - y1) and
      (ef - ab)*den == Nx*(x3 - x1) - Ny*(y3 - y1). */
  lemma CircumIdentity(ab: real, cd: real, ef: real, x1: real, y1: real, x2: real, y2: real, x3: real, y3: real)
    ensures Identity(cd - ab, DenX(x1, y1, x2, y2, x3, y3), NumX(ab, cd, ef, y1, y2, y3), NumY(ab, cd, ef, x1, x2, x3),
                     x2 - x1, y2 - y1)
    ensures Identity(ef - ab, DenX(x1, y1, x2, y2, x3, y3), NumX(ab, cd, ef, y1, y2, y3), NumY(ab, cd, ef, x1, x2, x3),
                     x3 - x1, y3 - y1)
  {
    var den := x1 * (y3 - y2) + x2 * (y1 - y3) + x3 * (y2 - y1);
    var nx := ab * (y3 - y2) + cd * (y1 - y3) + ef * (y2 - y1);
    var ny := ab * (x3 - x2) + cd * (x1 - x3) + ef * (x2 - x1);
    assert x1 * (y3 - y2) == x1 * y3 - x1 * y2;
    assert x2 * (y1 - y3) == x2 * y1 - x2 * y3;
    assert x3 * (y2 - y1) == x3 * y2 - x3 * y1;
    // vertex p2
    var u, v := x2 - x1, y2 - y1;
    assert (y3 - y2) * u == y3 * x2 - y3 * x1 - y2 * x2 + y2 * x1;
    assert (x3 - x2) * v == x3 * y2 - x3 * y1 - x2 * y2 + x2 * y1;
    assert (y1 - y3) * u == y1 * x2 - y1 * x1 - y3 * x2 + y3 * x1;
    assert (x1 - x3) * v == x1 * y2 - x1 * y1 - x3 * y2 + x3 * y1;
    assert (y3 - y2) * u - (x3 - x2) * v == -den;
    assert (y1 - y3) * u - (x1 - x3) * v == den;
    assert nx * u == ab * ((y3 - y2) * u) + cd * ((y1 - y3) * u) + ef * (v * u);
    assert ny * v == ab * ((x3 - x2) * v) + cd * ((x1 - x3) * v) + ef * (u * v);
    assert ab * ((y3 - y2) * u) - ab * ((x3 - x2) * v) == ab * (-den);
    assert cd * ((y1 - y3) * u) - cd * ((x1 - x3) * v) == cd * den;
    assert (cd - ab) * den == cd * den - ab * den;
    // vertex p3
    var u', v' := x3 - x1, y3 - y1;
    assert (y3 - y2) * u' == y3 * x3 - y3 * x1 - y2 * x3 + y2 * x1;
    assert (x3 - x2) * v' == x3 * y3 - x3 * y1 - x2 * y3 + x2 * y1;
    assert (y2 - y1) * u' == y2 * x3 - y2 * x1 - y1 * x3 + y1 * x1;
    assert (x2 - x1) * v' == x2 * y3 - x2 * y1 - x1 * y3 + x1 * y1;
    assert (y3 - y2) * u' - (x3 - x2) * v' == -den;
    assert (y2 - y1) * u' - (x2 - x1) * v' == den;
    assert nx * u' == ab * ((y3 - y2) * u') + cd * (v' * (-u')) + ef * ((y2 - y1) * u');
    assert ny * v' == ab * ((x3 - x2) * v') + cd * ((-u') * v') + ef * ((x2 - x1) * v');
    assert ab * ((y3 - y2) * u') - ab * ((x3 - x2) * v') == ab * (-den);
    assert ef * ((y2 - y1) * u') - ef * ((x2 - x1) * v') == ef * den;
    assert (ef - ab) * den == ef * den - ab * den;
  }

  /** A point q is as far from the center c as p when c solves
      2*c.0*den == nx and 2*c.1*den == -ny and the identity of CircumIdentity
      holds for q, with a the difference of the squared norms of q and p. */
  lemma EquidistantByIdentity(x1: real, y1: real, xq: real, yq: real, c: (real, real),
                               den: real, nx: real, ny: real, a: real)
    ensures && Solves(c, den, nx, ny)
            && a == SqNorm(xq, yq) - SqNorm(x1, y1) && Identity(a, den, nx, ny, xq - x1, yq - y1)
            ==> SqDistTo(xq, yq, c) == SqDistTo(x1, y1, c)
  {
    if && Solves(c, den, nx, ny)
       && a == SqNorm(xq, yq) - SqNorm(x1, y1) && Identity(a, den, nx, ny, xq - x1, yq - y1)
    {
      var e := SqDistTo(xq, yq, c) - SqDistTo(x1, y1, c);
      DistanceDifference(x1, y1, xq, yq, c);
      Conclude(e, a, c.0 * 2.0, xq - x1, c.1 * 2.0, yq - y1, den, nx, ny);
    }
  }

  /** If e == a - h*u - k*v and, multiplied by a non-zero d, the three terms
      reduce to nx*u - ny*v, nx*u and -ny*v, then e is zero. */
  lemma Conclude(e: real, a: real, h: real, u: real, k: real, v: real, d: real, nx: real, ny: real)
    ensures && d != 0.0 && e == a - h * u - k * v
            && a * d == nx * u - ny * v && h * d == nx && k * d == -ny
            ==> e == 0.0
  {
    if d != 0.0 && e == a - h * u - k * v && a * d == nx * u - ny * v && h * d == nx && k * d == -ny {
      assert e * d == a * d - (h * d) * u - (k * d) * v;
      assert (k * d) * v == -(ny * v);
      Cancel(e, 0.0, d);
    }
  }

  /** The difference of the squared distances of q and p from c, expanded. */
  lemma DistanceDifference(x1: real, y1: real, xq: real, yq: real, c: (real, real))
    ensures SqDistTo(xq, yq, c) - SqDistTo(x1, y1, c)
         == (SqNorm(xq, yq) - SqNorm(x1, y1)) - (c.0 * 2.0) * (xq - x1) - (c.1 * 2.0) * (yq - y1)
  {
    SquareShift(xq, x1, c.0);
    SquareShift(yq, y1, c.1);
  }

  /** (a - c)^2 - (b - c)^2 == a^2 - b^2 - 2c(a - b). */
  lemma SquareShift(a: real, b: real, c: real)
    ensures (a - c) * (a - c) - (b - c) * (b - c) == a * a - b * b - (c * 2.0) * (a - b)
  {
    assert (a - c) * (a - c) == a * a - 2.0 * (c * a) + c * c;
    assert (b - c) * (b - c) == b * b - 2.0 * (c * b) + c * c;
    assert (c * 2.0) * (a - b) == 2.0 * (c * a) - 2.0 * (c * b);
  }
}
