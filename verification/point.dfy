/** Points of the plane with the comparisons and the distance of the 2-d tree
    project. Coordinates are integers and equality is exact; distances are
    compared through their squares, which orders them the same way. */
module Points {

  datatype Point = Point(x: int, y: int)

  /** Coordinate on the x axis when `onX`, on the y axis otherwise. */
  function Coord(p: Point, onX: bool): int {
    if onX then p.x else p.y
  }

  /** Squared Euclidean distance. */
  function DistSq(p: Point, q: Point): (d: int)
    ensures d >= 0
    ensures d == 0 <==> p == q
  {
    Square(p.x - q.x);
    Square(p.y - q.y);
    (p.x - q.x) * (p.x - q.x) + (p.y - q.y) * (p.y - q.y)
  }

  lemma DistSqProperties(p: Point, q: Point)
    ensures DistSq(p, q) >= 0
    ensures DistSq(p, q) == DistSq(q, p)
    ensures DistSq(p, q) == 0 <==> p == q
  {
    Square(p.x - q.x);
    Square(p.y - q.y);
  }

  lemma Square(d: int)
    ensures d * d >= 0
    ensures d * d == 0 <==> d == 0
  {
    if d < 0 {
      assert d * d == (-d) * (-d);
    }
  }

  /** A square grows with the magnitude of its base. */
  lemma SquareMonotone(a: int, b: int)
    requires 0 <= a <= b
    ensures a * a <= b * b
  {
    assert a * a <= a * b;
    assert a * b <= b * b;
  }

  predicate Eq(p: Point, q: Point)
    ensures Eq(p, q) <==> DistSq(p, q) == 0
  {
    p.x == q.x && p.y == q.y
  }

  predicate NotEq(p: Point, q: Point)
    ensures NotEq(p, q) <==> DistSq(p, q) > 0
  {
    !Eq(p, q)
  }

  /** Lexicographic order on (x, y). */
  predicate Less(p: Point, q: Point)
    ensures Less(p, q) ==> p != q && p.x <= q.x
    ensures p.x < q.x ==> Less(p, q)
  {
    p.x < q.x || (p.x == q.x && p.y < q.y)
  }

  predicate LessEq(p: Point, q: Point)
    ensures LessEq(p, q) <==> !Less(q, p)
  {
    Less(p, q) || Eq(p, q)
  }

  predicate Greater(p: Point, q: Point)
    ensures Greater(p, q) <==> Less(q, p)
  {
    !LessEq(p, q)
  }

  predicate GreaterEq(p: Point, q: Point)
    ensures GreaterEq(p, q) <==> LessEq(q, p)
  {
    !Less(p, q)
  }

  /** With exact equality, `==` is the identity of points. */
  lemma EqIsIdentity(p: Point, q: Point)
    ensures Eq(p, q) <==> p == q
    ensures NotEq(p, q) <==> p != q
  {
  }

  /** `<` is a strict total order, so it can key an ordered set. */
  lemma LessIsStrictTotalOrder(p: Point, q: Point, r: Point)
    ensures !Less(p, p)
    ensures Less(p, q) && Less(q, r) ==> Less(p, r)
    ensures p != q ==> Less(p, q) || Less(q, p)
    ensures !(Less(p, q) && Less(q, p))
  {
  }

  /** The derived operators: `>` is the converse of `<` and `>=` of `<=`. */
  lemma DerivedOperators(p: Point, q: Point)
    ensures Greater(p, q) <==> Less(q, p)
    ensures GreaterEq(p, q) <==> LessEq(q, p)
    ensures LessEq(p, q) <==> !Less(q, p)
  {
  }
}
