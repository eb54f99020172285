/** A point with integer coordinates on the curve `y^2 = x^3 + A*x + B`, or the
    point at infinity when both coordinates are absent (`src/int_point.rs`).
    The source fixes `A` and `B` as const generic parameters of the type; here
    they are a `Curve` value passed to the operations that use them. The source's
    `i128` coordinates are unbounded integers here, and its truncating `/` is
    `IntOps.Div`. */
module IntPoints {
  import opened Wrappers
  import opened IntOps
  import ChordTangent

  /** The coefficients `A` and `B` of `y^2 = x^3 + A*x + B`. */
  datatype Curve = Curve(a: int, b: int)

  datatype IntPoint = IntPoint(x: Option<int>, y: Option<int>)

  /** Both coordinates absent: the group's identity. */
  const Infinity := IntPoint(None, None)

  datatype NewError =
    | NotOnCurve // both coordinates present, equation fails
    | MissingY   // `(Some(x), None)`
    | MissingX   // `(None, Some(y))`

  datatype AddError =
    | Unreachable  // the catch-all arm, "This shouldn't happen"
    | InexactSlope // only from `AddExact`: the slope is not an integer

  predicate OnCurve(c: Curve, x: int, y: int)
  {
    y * y == ChordTangent.Cubic(c.a, c.b, x)
  }

  /** What `new` lets through: infinity, or a finite point on the curve. */
  predicate Valid(c: Curve, p: IntPoint)
  {
    match p
    case IntPoint(None, None) => true
    case IntPoint(Some(x), Some(y)) => OnCurve(c, x, y)
    case _ => false
  }

  /** `IntPoint::new`: accepts infinity and the on-curve finite points, and
      nothing else; the point it builds holds the given options unchanged. */
  function New(c: Curve, x: Option<int>, y: Option<int>): (r: Result<IntPoint, NewError>)
    ensures r.Success? <==> Valid(c, IntPoint(x, y))
    ensures r.Success? ==> r.value.x == x && r.value.y == y
    ensures x.Some? && y.None? ==> r == Failure(MissingY)
    ensures x.None? && y.Some? ==> r == Failure(MissingX)
    ensures x.Some? && y.Some? && r.Failure? ==> r.error == NotOnCurve
  {
    match (x, y)
    case (Some(xn), Some(yn)) =>
      if yn * yn != xn * xn * xn + c.a * xn + c.b then Failure(NotOnCurve)
      else Success(IntPoint(x, y))
    case (Some(_), None) => Failure(MissingY)
    case (None, Some(_)) => Failure(MissingX)
    case (None, None) => Success(IntPoint(x, y))
  }

  /** `PartialEq::eq`: compares the two coordinate options, which is all a
      point holds (the curve is part of its type). */
  function Eq(p: IntPoint, q: IntPoint): (r: bool)
    ensures r <==> p == q
  {
    p.x == q.x && p.y == q.y
  }

  /** `ops::Add::add`: the chord-and-tangent law as a dispatch over the two
      points, in the source's arm order. The chord and tangent slopes are
      truncated toward zero. */
  function Add(c: Curve, p: IntPoint, q: IntPoint): (r: Result<IntPoint, AddError>)
    ensures p.x.None? && q.x.Some? ==> r == Success(q)
    ensures p.x.Some? && q.x.None? ==> r == Success(p)
    ensures r.Failure? ==> r.error == Unreachable
  {
    match (p, q)
    case (IntPoint(None, _), IntPoint(Some(_), _)) => Success(q)
    case (IntPoint(Some(_), _), IntPoint(None, _)) => Success(p)
    case (IntPoint(Some(x1), Some(y1)), IntPoint(Some(x2), Some(y2))) =>
      if x1 == x2 && y1 == -y2 then
        Success(Infinity)
      else if x1 != x2 then
        var s := Div(y2 - y1, x2 - x1);
        var x3 := s * s - x1 - x2;
        var y3 := s * (x1 - x3) - y1;
        Success(IntPoint(Some(x3), Some(y3)))
      else if x1 == x2 && y1 == y2 && y1 != 0 then
        var s := Div(3 * x1 * x1 + c.a, 2 * y1);
        var x3 := s * s - 2 * x1;
        var y3 := s * (x1 - x3) - y1;
        Success(IntPoint(Some(x3), Some(y3)))
      else if x1 == x2 && y1 == 0 && y2 == 0 then
        Success(Infinity)
      else
        Failure(Unreachable)
    case _ => Failure(Unreachable)
  }

  /** `new` round-trips exactly the valid points. */
  lemma NewValid(c: Curve, p: IntPoint)
    ensures New(c, p.x, p.y) == Success(p) <==> Valid(c, p)
  {
  }

  /** Infinity is an identity on either side of a finite point. */
  lemma InfinityIsIdentity(c: Curve, p: IntPoint)
    requires p.x.Some?
    ensures Add(c, Infinity, p) == Success(p)
    ensures Add(c, p, Infinity) == Success(p)
  {
  }

  /** Neither identity arm takes infinity plus infinity, so it reaches the
      catch-all arm. */
  lemma InfinityPlusInfinity(c: Curve)
    ensures Valid(c, Infinity)
    ensures Add(c, Infinity, Infinity) == Failure(Unreachable)
  {
  }

  /** Two points with equal `x` and opposite `y` sum to infinity. */
  lemma VerticalLine(c: Curve, x: int, y: int)
    ensures Add(c, IntPoint(Some(x), Some(y)), IntPoint(Some(x), Some(-y))) == Success(Infinity)
  {
  }

  /** The doubling arm for `y == 0` is dead code: every pair its guard admits
      (equal `x`, both `y` zero) also meets the vertical-line guard, which is
      tried first since `0 == -0`, and sums to infinity there. */
  lemma ZeroYDoublingShadowed(c: Curve, x1: int, y1: int, x2: int, y2: int)
    requires x1 == x2 && y1 == 0 && y2 == 0
    ensures x1 == x2 && y1 == -y2
    ensures Add(c, IntPoint(Some(x1), Some(y1)), IntPoint(Some(x2), Some(y2))) == Success(Infinity)
  {
  }

  /** Two points of the curve with the same `x` have equal or opposite `y`:
      `(y1 - y2)(y1 + y2) = y1^2 - y2^2 = 0`. */
  lemma SameX(c: Curve, x: int, y1: int, y2: int)
    requires OnCurve(c, x, y1) && OnCurve(c, x, y2)
    ensures y1 == y2 || y1 == -y2
  {
    assert (y1 - y2) * (y1 + y2) == y1 * y1 - y2 * y2;
    ChordTangent.ZeroFactor(y1 - y2, y1 + y2);
  }

  /** On valid points the dispatch is exhaustive: `+` fails only for infinity
      plus infinity. */
  lemma AddPanicsOnlyAtInfinity(c: Curve, p: IntPoint, q: IntPoint)
    requires Valid(c, p) && Valid(c, q)
    ensures Add(c, p, q).Failure? <==> p == Infinity && q == Infinity
  {
    if p.x.Some? && q.x.Some? && p.x.value == q.x.value {
      SameX(c, p.x.value, p.y.value, q.y.value);
    }
  }

  /** The chord arm: with `s` the truncated slope between two finite points with
      different `x`, the sum's `x` completes the three roots summing to `s^2`
      and its `y` mirrors the line at that `x`. */
  lemma ChordArm(c: Curve, x1: int, y1: int, x2: int, y2: int)
    requires x1 != x2
    ensures var r := Add(c, IntPoint(Some(x1), Some(y1)), IntPoint(Some(x2), Some(y2)));
      var s := Div(y2 - y1, x2 - x1);
      && Abs((y2 - y1) - s * (x2 - x1)) < Abs(x2 - x1)
      && (y2 - y1 >= 0 ==> (y2 - y1) - s * (x2 - x1) >= 0)
      && (y2 - y1 <= 0 ==> (y2 - y1) - s * (x2 - x1) <= 0)
      && r.Success? && r.value.x.Some? && r.value.y.Some?
      && x1 + x2 + r.value.x.value == s * s
      && r.value.y.value == -(s * (r.value.x.value - x1) + y1)
  {
    var s := Div(y2 - y1, x2 - x1);
    var x3 := s * s - x1 - x2;
    assert Add(c, IntPoint(Some(x1), Some(y1)), IntPoint(Some(x2), Some(y2)))
      == Success(IntPoint(Some(x3), Some(s * (x1 - x3) - y1)));
    assert s * (x1 - x3) - y1 == -(s * (x3 - x1) + y1);
  }

  /** The doubling arm: for a finite point with `y != 0` added to itself, with
      `s` the truncated tangent slope, the sum's `x` completes the double root
      `x1` to roots summing to `s^2` and its `y` mirrors the tangent there. */
  lemma TangentArm(c: Curve, x1: int, y1: int)
    requires y1 != 0
    ensures var p := IntPoint(Some(x1), Some(y1));
      var r := Add(c, p, p);
      var s := Div(3 * x1 * x1 + c.a, 2 * y1);
      && Abs((3 * x1 * x1 + c.a) - s * (2 * y1)) < Abs(2 * y1)
      && (3 * x1 * x1 + c.a >= 0 ==> (3 * x1 * x1 + c.a) - s * (2 * y1) >= 0)
      && (3 * x1 * x1 + c.a <= 0 ==> (3 * x1 * x1 + c.a) - s * (2 * y1) <= 0)
      && r.Success? && r.value.x.Some? && r.value.y.Some?
      && 2 * x1 + r.value.x.value == s * s
      && r.value.y.value == -(s * (r.value.x.value - x1) + y1)
  {
    var p := IntPoint(Some(x1), Some(y1));
    var s := Div(3 * x1 * x1 + c.a, 2 * y1);
    var x3 := s * s - 2 * x1;
    assert Add(c, p, p) == Success(IntPoint(Some(x3), Some(s * (x1 - x3) - y1)));
    assert s * (x1 - x3) - y1 == -(s * (x3 - x1) + y1);
  }

  /** The source's tests on `y^2 = x^3 + 5x + 7` and `y^2 = x^3 + 3x + 4`. */
  lemma Examples()
    ensures New(Curve(5, 7), Some(-1), Some(-1)).Success?
    ensures New(Curve(5, 7), Some(-1), Some(-2)) == Failure(NotOnCurve)
    ensures Eq(New(Curve(5, 7), Some(-1), Some(-1)).value, New(Curve(5, 7), Some(-1), Some(-1)).value)
    ensures Add(Curve(5, 7), IntPoint(Some(-1), Some(-1)), Infinity) == Success(IntPoint(Some(-1), Some(-1)))
    ensures Add(Curve(5, 7), Infinity, IntPoint(Some(-1), Some(1))) == Success(IntPoint(Some(-1), Some(1)))
    ensures Add(Curve(5, 7), IntPoint(Some(-1), Some(-1)), IntPoint(Some(-1), Some(1))) == Success(Infinity)
    ensures Add(Curve(5, 7), IntPoint(Some(2), Some(5)), IntPoint(Some(-1), Some(-1)))
      == Success(IntPoint(Some(3), Some(-7)))
    ensures Add(Curve(5, 7), IntPoint(Some(-1), Some(-1)), IntPoint(Some(-1), Some(-1)))
      == Success(IntPoint(Some(18), Some(77)))
    ensures Valid(Curve(3, 4), IntPoint(Some(-1), Some(0)))
    ensures Add(Curve(3, 4), IntPoint(Some(-1), Some(0)), IntPoint(Some(-1), Some(0))) == Success(Infinity)
  {
  }

  /** With a slope that does not divide evenly, `+` leaves the curve: on
      `y^2 = x^3 + 5x + 7` the valid points `(-1, 1)` and `(2, 5)` have slope
      `4/3`, truncated to `1`, and sum to `(0, -2)`, which `new` rejects. */
  lemma AddLeavesCurve()
    ensures Valid(Curve(5, 7), IntPoint(Some(-1), Some(1)))
    ensures Valid(Curve(5, 7), IntPoint(Some(2), Some(5)))
    ensures Add(Curve(5, 7), IntPoint(Some(-1), Some(1)), IntPoint(Some(2), Some(5)))
      == Success(IntPoint(Some(0), Some(-2)))
    ensures New(Curve(5, 7), Some(0), Some(-2)) == Failure(NotOnCurve)
  {
    assert Div(4, 3) == 1;
  }

  /** Whether the chord or tangent slope that `+` would use divides evenly
      (true for every other arm). */
  predicate SlopeExact(c: Curve, p: IntPoint, q: IntPoint)
  {
    match (p, q)
    case (IntPoint(Some(x1), Some(y1)), IntPoint(Some(x2), Some(y2))) =>
      if x1 == x2 && y1 == -y2 then true
      else if x1 != x2 then Rem(y2 - y1, x2 - x1) == 0
      else if y1 == y2 && y1 != 0 then Rem(3 * x1 * x1 + c.a, 2 * y1) == 0
      else true
    case _ => true
  }

  /** `+` that refuses a slope that is not an integer instead of truncating it;
      otherwise it is `+`. */
  function AddExact(c: Curve, p: IntPoint, q: IntPoint): (r: Result<IntPoint, AddError>)
    ensures r.Success? ==> r == Add(c, p, q)
    ensures SlopeExact(c, p, q) ==> r == Add(c, p, q)
    ensures !SlopeExact(c, p, q) ==> r == Failure(InexactSlope)
  {
    if SlopeExact(c, p, q) then Add(c, p, q) else Failure(InexactSlope)
  }

  /** `AddExact` keeps points on the curve: the sum of two valid points, when
      there is one, is valid. */
  lemma AddExactClosed(c: Curve, p: IntPoint, q: IntPoint)
    requires Valid(c, p) && Valid(c, q)
    requires AddExact(c, p, q).Success?
    ensures Valid(c, AddExact(c, p, q).value)
  {
    if p.x.Some? && q.x.Some? {
      var x1, y1, x2, y2 := p.x.value, p.y.value, q.x.value, q.y.value;
      if x1 == x2 && y1 == -y2 {
      } else if x1 != x2 {
        var s := Div(y2 - y1, x2 - x1);
        assert s * (x2 - x1) == y2 - y1;
        ChordTangent.ChordStaysOnCurve(c.a, c.b, x1, y1, x2, y2, s);
      } else {
        SameX(c, x1, y1, y2);
        var s := Div(3 * x1 * x1 + c.a, 2 * y1);
        assert s * (2 * y1) == 3 * x1 * x1 + c.a;
        ChordTangent.TangentStaysOnCurve(c.a, c.b, x1, y1, s);
      }
    }
  }

  /** Where the slope is exact `AddExact` gives what `+` gives, as in the
      source's tests; `(-1, 1) + (2, 5)`, whose slope is `4/3`, is refused. */
  lemma AddExactExamples()
    ensures AddExact(Curve(5, 7), IntPoint(Some(2), Some(5)), IntPoint(Some(-1), Some(-1)))
      == Success(IntPoint(Some(3), Some(-7)))
    ensures AddExact(Curve(5, 7), IntPoint(Some(-1), Some(-1)), IntPoint(Some(-1), Some(-1)))
      == Success(IntPoint(Some(18), Some(77)))
    ensures AddExact(Curve(5, 7), IntPoint(Some(-1), Some(1)), IntPoint(Some(2), Some(5)))
      == Failure(InexactSlope)
  {
    assert Rem(-6, -3) == 0 && Rem(8, -2) == 0 && Rem(4, 3) == 1;
  }
}
