/** vector2.h: a 2D point with a payload. Every container and every
    operator== in the triangulator takes points BY VALUE, so the value a point
    holds is the datatype Point; the class Vector2 models the one place where the
    source assigns a point's fields step by step (its constructors and set). */
module Points {

  /** A point as the source copies it: coordinates x, y and the payload value. */
  datatype Point<D> = Point(x: real, y: real, value: D)

  /** The part of a point that equality looks at. */
  function Loc<D>(p: Point<D>): (real, real)
  {
    (p.x, p.y)
  }

  /** operator== (vector2.h:78-81): coordinates only, the payload is ignored. */
  predicate PointEq<D>(a: Point<D>, b: Point<D>)
  {
    a.x == b.x && a.y == b.y
  }

  /** Two points are equal exactly when they stand at the same location. */
  lemma PointEqIsSameLoc<D>(a: Point<D>, b: Point<D>)
    ensures PointEq(a, b) <==> Loc(a) == Loc(b)
  {
  }

  /** Points that differ only in their payload are equal. */
  lemma PointEqIgnoresValue<D>(x: real, y: real, u: D, w: D)
    ensures PointEq(Point(x, y, u), Point(x, y, w))
  {
  }

  /** Over exact coordinates operator== is an equivalence relation. */
  lemma PointEqIsEquivalence<D>(a: Point<D>, b: Point<D>, c: Point<D>)
    ensures PointEq(a, a)
    ensures PointEq(a, b) ==> PointEq(b, a)
    ensures PointEq(a, b) && PointEq(b, c) ==> PointEq(a, c)
  {
  }

  /** dist2 (vector2.h:51-56): the squared Euclidean distance; never negative. */
  function Dist2<D>(a: Point<D>, b: Point<D>): (r: real)
    ensures r >= 0.0
  {
    SquareNonNegative(a.x - b.x);
    SquareNonNegative(a.y - b.y);
    (a.x - b.x) * (a.x - b.x) + (a.y - b.y) * (a.y - b.y)
  }

  /** A square is never negative. */
  lemma SquareNonNegative(u: real)
    ensures u * u >= 0.0
  {
    if u < 0.0 {
      assert (-u) * (-u) > 0.0 * (-u);
      assert u * u == (-u) * (-u);
    }
  }

  /** dist2 is symmetric in its two points. */
  lemma Dist2Symmetric<D>(a: Point<D>, b: Point<D>)
    ensures Dist2(a, b) == Dist2(b, a)
  {
  }

  /** A point is at squared distance zero from every point equal to it,
      itself included. */
  lemma Dist2ZeroAtEqualPoints<D>(a: Point<D>, b: Point<D>)
    requires PointEq(a, b)
    ensures Dist2(a, b) == 0.0 && Dist2(a, a) == 0.0
  {
  }

  /** A Vector2 variable. The payload has an auto-initialised type because the
      source's two constructors without a payload leave it unset. */
  class Vector2<D(0)> {
    var x: real
    var y: real
    var value: D

    /** The value this variable currently holds. */
    function ToPoint(): (p: Point<D>)
      reads this
    {
      Point(x, y, value)
    }

    /** Vector2(): the origin; the payload is left unset. */
    constructor Origin()
      ensures x == 0.0 && y == 0.0
    {
      x := 0.0;
      y := 0.0;
    }

    /** Vector2(x, y): the payload is left unset. */
    constructor FromXY(x0: real, y0: real)
      ensures x == x0 && y == y0
    {
      x := x0;
      y := y0;
    }

    /** Vector2(x, y, data). */
    constructor FromXYValue(x0: real, y0: real, v0: D)
      ensures ToPoint() == Point(x0, y0, v0)
    {
      x := x0;
      y := y0;
      value := v0;
    }

    /** The copy constructor: equal to the source under operator==, with the
        same payload. */
    constructor Copy(v: Vector2<D>)
      ensures PointEq(ToPoint(), v.ToPoint()) && value == v.value
    {
      x := v.x;
      y := v.y;
      value := v.value;
    }

    /** set(v): takes over all three fields of v and leaves v as it was
        (also when v is this very variable). */
    method Set(v: Vector2<D>)
      modifies this
      ensures ToPoint() == old(v.ToPoint())
      ensures v.ToPoint() == old(v.ToPoint())
    {
      x := v.x;
      y := v.y;
      value := v.value;
    }
  }
}
