/**
 * Tool positions. The source keeps coordinates as C++ `float`; the model
 * uses exact reals (rounding is not modelled).
 */
module Geometry {

  datatype Point = Point(x: real, y: real, z: real)

  const Origin: Point := Point(0.0, 0.0, 0.0)

  function Square(a: real): real {
    a * a
  }

  /** The squared Euclidean distance `dx*dx + dy*dy + dz*dz`. */
  function SqDist(p: Point, q: Point): real {
    Square(p.x - q.x) + Square(p.y - q.y) + Square(p.z - q.z)
  }

  lemma SquareFacts(a: real)
    ensures Square(a) >= 0.0
    ensures a != 0.0 ==> Square(a) > 0.0
  {
    if a > 0.0 {
      calc {
        Square(a);
        == a * a;
        > 0.0 * a;
        == 0.0;
      }
    } else if a < 0.0 {
      calc {
        Square(a);
        == (-a) * (-a);
        > 0.0 * (-a);
        == 0.0;
      }
    }
  }

  /** The squared distance is never negative and is zero exactly when the
      two points coincide, so it orders candidates the way the distance
      itself would and an exact hit is always a minimum. */
  lemma SqDistZeroIff(p: Point, q: Point)
    ensures SqDist(p, q) >= 0.0
    ensures SqDist(p, q) == 0.0 <==> p == q
  {
    SquareFacts(p.x - q.x);
    SquareFacts(p.y - q.y);
    SquareFacts(p.z - q.z);
    if p != q {
      assert p.x - q.x != 0.0 || p.y - q.y != 0.0 || p.z - q.z != 0.0;
    }
  }
}
