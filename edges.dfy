/** edge.h: an edge is a pair of points kept in the order given; its equality
    ignores that order. The two constructors of the source (from two points, and
    the copy constructor) are the datatype constructor and value copy. */
module Edges {
  import opened Points

  /** Edge(p1, p2): both endpoints, payloads included, in the given order. */
  datatype Edge<D> = Edge(p1: Point<D>, p2: Point<D>)

  /** operator== (edge.h:26-30): the same endpoints, in either orientation,
      compared with the coordinate-only point equality. */
  predicate EdgeEq<D>(e: Edge<D>, f: Edge<D>)
  {
    || (PointEq(e.p1, f.p1) && PointEq(e.p2, f.p2))
    || (PointEq(e.p1, f.p2) && PointEq(e.p2, f.p1))
  }

  /** The locations of an edge's endpoints, as an unordered set. */
  function Ends<D>(e: Edge<D>): set<(real, real)>
  {
    {Loc(e.p1), Loc(e.p2)}
  }

  /** Edge equality is exactly equality of the unordered sets of endpoint
      locations. */
  lemma EdgeEqIsSameEnds<D>(e: Edge<D>, f: Edge<D>)
    ensures EdgeEq(e, f) <==> Ends(e) == Ends(f)
  {
    var a, b, c, d := Loc(e.p1), Loc(e.p2), Loc(f.p1), Loc(f.p2);
    if Ends(e) == Ends(f) {
      assert a in {c, d} && b in {c, d};
      assert c in {a, b} && d in {a, b};
      assert (a == c && b == d) || (a == d && b == c);
    }
  }

  /** An edge equals its reversal: Edge(a, b) == Edge(b, a). */
  lemma EdgeEqReversed<D>(a: Point<D>, b: Point<D>)
    ensures EdgeEq(Edge(a, b), Edge(b, a))
  {
  }

  /** Over exact coordinates, edge equality is reflexive, symmetric and
      transitive. */
  lemma EdgeEqIsEquivalence<D>(e: Edge<D>, f: Edge<D>, g: Edge<D>)
    ensures EdgeEq(e, e)
    ensures EdgeEq(e, f) ==> EdgeEq(f, e)
    ensures EdgeEq(e, f) && EdgeEq(f, g) ==> EdgeEq(e, g)
  {
    EdgeEqIsSameEnds(e, f);
    EdgeEqIsSameEnds(f, g);
    EdgeEqIsSameEnds(e, g);
  }

  /** Endpoint payloads play no part in edge equality. */
  lemma EdgeEqIgnoresPayloads<D>(e: Edge<D>, u1: D, u2: D, f: Edge<D>)
    ensures EdgeEq(Edge(e.p1.(value := u1), e.p2.(value := u2)), f) == EdgeEq(e, f)
  {
  }
}
