/** A finite point on the curve `y^2 = x^3 + a*x + b` that carries its own
    curve coefficients (`src/point.rs`). Numbers are arbitrary-precision, as
    with `BigInt`. */
module Points {
  import opened Wrappers
  import ChordTangent

  datatype Point = Point(x: int, y: int, a: int, b: int)

  datatype PointError = NotOnCurve

  /** The curve equation `y^2 == x^3 + a*x + b`. */
  predicate OnCurve(x: int, y: int, a: int, b: int)
  {
    y * y == ChordTangent.Cubic(a, b, x)
  }

  /** `Point::new`: accepts exactly the coordinates that satisfy the curve
      equation and stores all four numbers unchanged. */
  function New(x: int, y: int, a: int, b: int): (r: Result<Point, PointError>)
    ensures r.Success? <==> OnCurve(x, y, a, b)
    ensures r.Success? ==> r.value.x == x && r.value.y == y && r.value.a == a && r.value.b == b
    ensures r.Failure? ==> r.error == NotOnCurve
  {
    if !OnCurve(x, y, a, b) then Failure(NotOnCurve) else Success(Point(x, y, a, b))
  }

  /** `PartialEq::eq`: coordinates and curve coefficients must all match. */
  function Eq(p: Point, q: Point): (r: bool)
    ensures r <==> p == q
  {
    p.x == q.x && p.y == q.y && p.a == q.a && p.b == q.b
  }

  /** Every point `new` builds lies on its own curve, and `new` gives it back
      when asked for its own coordinates. */
  lemma NewOnOwnCurve(x: int, y: int, a: int, b: int)
    requires New(x, y, a, b).Success?
    ensures var p := New(x, y, a, b).value;
      OnCurve(p.x, p.y, p.a, p.b) && New(p.x, p.y, p.a, p.b) == Success(p)
  {
  }

  /** Identical coordinates on different curves make different points. */
  lemma CurveTellsPointsApart(p: Point, q: Point)
    requires p.x == q.x && p.y == q.y
    requires p.a != q.a || p.b != q.b
    ensures !Eq(p, q)
  {
  }

  /** `(-1, -1)` lies on `y^2 = x^3 + 5x + 7`, `(-1, -2)` does not, and two
      separately built `(-1, -1)` compare equal. */
  lemma Examples()
    ensures New(-1, -1, 5, 7).Success?
    ensures New(-1, -2, 5, 7) == Failure(NotOnCurve)
    ensures Eq(New(-1, -1, 5, 7).value, New(-1, -1, 5, 7).value)
  {
  }
}
