/** The 2D point value of the mesh generator: a pair of coordinates with
    component-wise addition and the squared Euclidean distance.
    Coordinates are mathematical reals, not IEEE-754 doubles. */
module Points {

  datatype Point = Point(x: real, y: real)

  function Square(a: real): real
  {
    a * a
  }

  lemma MulPositive(a: real, b: real)
    requires a > 0.0 && b > 0.0
    ensures a * b > 0.0
  {
  }

  /** A square is never negative, and it is zero only for zero. */
  lemma SquareSign(a: real)
    ensures Square(a) >= 0.0
    ensures Square(a) == 0.0 <==> a == 0.0
  {
    if a < 0.0 {
      calc {
        Square(a);
        (-a) * (-a);
        > { MulPositive(-a, -a); }
        0.0;
      }
    } else if a > 0.0 {
      calc {
        Square(a);
        a * a;
        > { MulPositive(a, a); }
        0.0;
      }
    }
  }

  /** Squaring is strictly increasing on the non-negative reals. */
  lemma SquareStrictlyIncreasing(a: real, b: real)
    requires 0.0 <= a < b
    ensures Square(a) < Square(b)
  {
    var d, e := b - a, b + a;
    MulPositive(d, e);
    calc {
      Square(b) - Square(a);
      d * e;
      > 0.0;
    }
  }

  /** `impl Add for Point`: component-wise sum. Adding a point leaves the
      other unchanged exactly when it is the origin. */
  function Add(p: Point, q: Point): (r: Point)
    ensures r == p <==> q == Point(0.0, 0.0)
    ensures r == q <==> p == Point(0.0, 0.0)
  {
    Point(p.x + q.x, p.y + q.y)
  }

  lemma AddComponentwise(p: Point, q: Point)
    ensures Add(p, q).x == p.x + q.x && Add(p, q).y == p.y + q.y
    ensures Add(p, q) == Add(q, p)
    ensures Add(p, Point(0.0, 0.0)) == p
  {
  }

  lemma AddAssociative(p: Point, q: Point, s: Point)
    ensures Add(Add(p, q), s) == Add(p, Add(q, s))
  {
  }

  /** `Point::dist_sq`: the squared Euclidean distance. It is non-negative
      and zero exactly between equal points. */
  function DistSq(p: Point, q: Point): (r: real)
    ensures r >= 0.0
    ensures r == 0.0 <==> p == q
  {
    SquareSign(p.x - q.x);
    SquareSign(p.y - q.y);
    Square(p.x - q.x) + Square(p.y - q.y)
  }

  lemma DistSqSymmetric(p: Point, q: Point)
    ensures DistSq(p, q) == DistSq(q, p)
  {
    assert Square(p.x - q.x) == Square(q.x - p.x);
    assert Square(p.y - q.y) == Square(q.y - p.y);
  }

  /** `x.sqrt() < eps` for x >= 0, decided without a square root: the root of
      a non-negative x is below eps exactly when eps is positive and x < eps^2. */
  predicate RootBelow(x: real, eps: real)
    requires x >= 0.0
  {
    eps > 0.0 && x < Square(eps)
  }

  /** For every non-negative root of x, RootBelow agrees with comparing that
      root with eps; so RootBelow is the square-root test without the root. */
  lemma RootBelowAgreesWithRoot(x: real, eps: real, root: real)
    requires x >= 0.0 && root >= 0.0 && Square(root) == x
    ensures RootBelow(x, eps) <==> root < eps
  {
    if root < eps {
      SquareStrictlyIncreasing(root, eps);
    } else if eps > 0.0 && eps < root {
      SquareStrictlyIncreasing(eps, root);
    }
  }
}
