/** The algebra behind the chord-and-tangent law on `y^2 = x^3 + a*x + b`:
    a line through a point of the curve with an exact slope meets the curve in a
    third point whose mirror image is again on the curve. */
module ChordTangent {
  import opened IntOps

  /** The right-hand side of the curve equation, `x^3 + a*x + b`. */
  function Cubic(a: int, b: int, x: int): int
  {
    x * x * x + a * x + b
  }

  /** The line through `(x1, y1)` with slope `s`, evaluated at `x`. */
  function Line(x1: int, y1: int, s: int, x: int): int
  {
    s * (x - x1) + y1
  }

  /** How far the line lies from the curve at `x`, as `Cubic - Line^2`. */
  function Gap(a: int, b: int, x1: int, y1: int, s: int, x: int): int
  {
    Cubic(a, b, x) - Line(x1, y1, s, x) * Line(x1, y1, s, x)
  }

  /** The gap is a monic cubic whose roots sum to `s^2`: taking away
      `(x - x1)(x - x2)(x - x3)` with `x3 = s^2 - x1 - x2` leaves the linear
      polynomial `LinearCoefficient * x + ConstantCoefficient`, whatever `x2` is. */
  lemma GapMinusRootsIsLinear(a: int, b: int, x1: int, y1: int, s: int, x2: int, x: int)
    ensures Gap(a, b, x1, y1, s, x) - (x - x1) * (x - x2) * (x - Third(x1, s, x2))
      == LinearCoefficient(a, x1, y1, s, x2) * x + ConstantCoefficient(b, x1, y1, s, x2)
  {
    var k, x3 := y1 - s * x1, Third(x1, s, x2);
    var xx, ss := x * x, s * s;
    var s2 := x1 * x2 + x1 * x3 + x2 * x3;
    assert Line(x1, y1, s, x) == s * x + k;
    LineSquared(s, k, x);
    RootsExpanded(x, x1, x2, x3);
    assert x1 + x2 + x3 == ss;
    assert x * x * x == x * xx;
    assert (a - 2 * s * k - s2) * x == a * x - 2 * s * k * x - s2 * x;
  }

  /** `(s x + k)^2`, expanded. */
  lemma LineSquared(s: int, k: int, x: int)
    ensures (s * x + k) * (s * x + k) == (s * s) * (x * x) + 2 * s * k * x + k * k
  {
  }

  /** `(x - x1)(x - x2)(x - x3)`, expanded by powers of `x`. */
  lemma RootsExpanded(x: int, x1: int, x2: int, x3: int)
    ensures (x - x1) * (x - x2) * (x - x3)
      == x * (x * x) - (x1 + x2 + x3) * (x * x) + (x1 * x2 + x1 * x3 + x2 * x3) * x - x1 * x2 * x3
  {
    var p2 := x * x - (x1 + x2) * x + x1 * x2;
    assert (x - x1) * (x - x2) == p2;
    assert p2 * (x - x3) == p2 * x - p2 * x3;
    assert p2 * x == x * (x * x) - (x1 + x2) * (x * x) + (x1 * x2) * x;
    assert p2 * x3 == x3 * (x * x) - ((x1 + x2) * x3) * x + x1 * x2 * x3;
  }

  /** The third root of the gap: the roots sum to `s^2`. */
  function Third(x1: int, s: int, x2: int): int
  {
    s * s - x1 - x2
  }

  function LinearCoefficient(a: int, x1: int, y1: int, s: int, x2: int): int
  {
    var k, x3 := y1 - s * x1, Third(x1, s, x2);
    a - 2 * s * k - (x1 * x2 + x1 * x3 + x2 * x3)
  }

  function ConstantCoefficient(b: int, x1: int, y1: int, s: int, x2: int): int
  {
    var k, x3 := y1 - s * x1, Third(x1, s, x2);
    b - k * k + x1 * x2 * x3
  }

  /** A chord through two points of the curve, with the exact slope between
      them, meets the curve a third time; the mirror image of that point, which
      the chord rule returns, is on the curve too. */
  lemma ChordStaysOnCurve(a: int, b: int, x1: int, y1: int, x2: int, y2: int, s: int)
    requires y1 * y1 == Cubic(a, b, x1) && y2 * y2 == Cubic(a, b, x2)
    requires x1 != x2
    requires s * (x2 - x1) == y2 - y1
    ensures var x3 := s * s - x1 - x2;
      var y3 := s * (x1 - x3) - y1;
      y3 * y3 == Cubic(a, b, x3)
  {
    var x3 := Third(x1, s, x2);
    var c1, c0 := LinearCoefficient(a, x1, y1, s, x2), ConstantCoefficient(b, x1, y1, s, x2);
    GapMinusRootsIsLinear(a, b, x1, y1, s, x2, x1);
    GapMinusRootsIsLinear(a, b, x1, y1, s, x2, x2);
    GapMinusRootsIsLinear(a, b, x1, y1, s, x2, x3);
    assert Line(x1, y1, s, x1) == y1 && Line(x1, y1, s, x2) == y2;
    assert (x1 - x1) * (x1 - x2) * (x1 - x3) == 0;
    assert (x2 - x1) * (x2 - x2) * (x2 - x3) == 0;
    assert (x3 - x1) * (x3 - x2) * (x3 - x3) == 0;
    assert c1 * x1 + c0 == 0 && c1 * x2 + c0 == 0;
    assert c1 * (x1 - x2) == 0;
    ZeroFactor(c1, x1 - x2);
    assert Gap(a, b, x1, y1, s, x3) == 0;
    assert s * (x1 - x3) - y1 == -Line(x1, y1, s, x3);
  }

  /** The tangent at a point of the curve with `y != 0`, with the exact slope
      `(3x^2 + a) / 2y`, meets the curve once more; the mirror image of that
      point, which the doubling rule returns, is on the curve too. */
  lemma TangentStaysOnCurve(a: int, b: int, x1: int, y1: int, s: int)
    requires y1 * y1 == Cubic(a, b, x1)
    requires s * (2 * y1) == 3 * x1 * x1 + a
    ensures var x3 := s * s - 2 * x1;
      var y3 := s * (x1 - x3) - y1;
      y3 * y3 == Cubic(a, b, x3)
  {
    var x3 := Third(x1, s, x1);
    var c0 := ConstantCoefficient(b, x1, y1, s, x1);
    TangentSlopeFlattens(a, x1, y1, s);
    GapMinusRootsIsLinear(a, b, x1, y1, s, x1, x1);
    GapMinusRootsIsLinear(a, b, x1, y1, s, x1, x3);
    assert Line(x1, y1, s, x1) == y1;
    assert (x1 - x1) * (x1 - x1) * (x1 - x3) == 0;
    assert (x3 - x1) * (x3 - x1) * (x3 - x3) == 0;
    assert c0 == 0;
    assert Gap(a, b, x1, y1, s, x3) == 0;
    assert s * (x1 - x3) - y1 == -Line(x1, y1, s, x3);
  }

  /** With the tangent slope, `x1` is a double root of the gap: the linear
      coefficient left over vanishes. */
  lemma TangentSlopeFlattens(a: int, x1: int, y1: int, s: int)
    requires s * (2 * y1) == 3 * x1 * x1 + a
    ensures LinearCoefficient(a, x1, y1, s, x1) == 0
  {
    var ss, k, x3 := s * s, y1 - s * x1, Third(x1, s, x1);
    assert x3 == ss - 2 * x1;
    assert s * k == s * y1 - ss * x1;
    assert x1 * x3 == ss * x1 - 2 * (x1 * x1);
    assert s * (2 * y1) == 2 * (s * y1);
    assert LinearCoefficient(a, x1, y1, s, x1) == a - 2 * (s * k) - (x1 * x1 + 2 * (x1 * x3));
  }

  /** A product is zero only when a factor is. */
  lemma ZeroFactor(u: int, v: int)
    requires u * v == 0
    ensures u == 0 || v == 0
  {
    NonzeroMultiple(u, v);
  }
}
