/** A point of the plane, as both point sets store it. */
module KDPoints {

  datatype Point = Point(x: real, y: real)

  function Square(a: real): (r: real)
    ensures r >= 0.0
  {
    NonNegativeSquare(a);
    a * a
  }

  lemma NonNegativeSquare(a: real)
    ensures a * a >= 0.0
  {
    if a < 0.0 {
      assert a * a == (-a) * (-a);
    }
  }

  /** The square grows with the distance from zero, on either side of it. */
  lemma {:induction false} SquareGrowsAway(a: real, b: real)
    requires b <= a <= 0.0 || 0.0 <= a <= b
    ensures Square(a) <= Square(b)
  {
    var u, v := if a < 0.0 then -a else a, if b < 0.0 then -b else b;
    assert 0.0 <= u <= v;
    assert a * a == u * u && b * b == v * v;
    NonNegativeProduct(u, v - u);
    NonNegativeProduct(v - u, v);
    assert u * (v - u) == u * v - u * u;
    assert (v - u) * v == v * v - u * v;
  }

  lemma NonNegativeProduct(a: real, b: real)
    requires a >= 0.0 && b >= 0.0
    ensures a * b >= 0.0
  {
    if a == 0.0 {
      calc {
        a * b;
        == 0.0 * b;
        == 0.0;
      }
    }
  }

  /** `distanceSquaredTo`: the squared Euclidean distance to `(x, y)`. */
  function DistanceSquaredTo(p: Point, x: real, y: real): (d: real)
    ensures d >= 0.0
  {
    Square(p.x - x) + Square(p.y - y)
  }
}
