# Field elements and elliptic-curve points, modelled in Dafny

This project models the three algebraic value types of a small Rust library for
elliptic-curve arithmetic:

- `FieldElement` (`src/field_element.rs`): a number `num` tagged with a modulus
  `prime`. It has a range-checked constructor, `+`, `-` and `*` that check the
  operands share a prime and reduce with Rust's `%`, equality, and `pow` through
  `BigInt::modpow`.
- `Point` (`src/point.rs`): a finite point `(x, y)` that carries its curve
  coefficients `a` and `b`. Its constructor checks `y^2 = x^3 + a*x + b`.
  Equality compares all four numbers.
- `IntPoint<A, B>` (`src/int_point.rs`): an integer point on `y^2 = x^3 + A*x + B`,
  or the point at infinity when both coordinates are `None`. Its constructor
  validates the point. Its `+` is the chord-and-tangent group law, written as a
  `match` with six arms and a catch-all panic.

All three are immutable values, so the model is datatypes, functions and lemmas.
There are six files:

- `wrappers.dfy`: `Option` and `Result`.
- `int_ops.dfy`: Rust's truncating `/` and `%` (`Div`, `Rem`), the floored
  modulo of `modpow` (`FloorMod`), and the facts about Euclidean division used
  to relate them to Dafny's `/` and `%`.
- `field_element.dfy`, `point.dfy`, `int_point.dfy`: one module per source file.
- `chord_tangent.dfy`: the algebra showing that an exact chord or tangent
  lands back on the curve.

Every panic in the source becomes a `Failure` carrying an error kind. Panic
messages are not modelled. `IntPoint`'s const generics `A` and `B` become a
`Curve(a, b)` argument.

Rust's `/` and `%` truncate toward zero on both `i128` and `BigInt`. Dafny's are
Euclidean. So the model never uses Dafny's operators where the source uses
Rust's; it uses `IntOps.Div` and `IntOps.Rem`.

A reduction by `%` with `prime == 0` panics in Rust (division by zero). This can
happen: `new(-1, 0)` is accepted. The model returns `Failure(DivisionByZero)`
for it.

## Model

| member | source | states |
|---|---|---|
| `IntOps.Div` | src/int_point.rs:63 | The quotient of Rust's `/` leaves a remainder smaller than the divisor that has the dividend's sign (truncation toward zero). |
| `IntOps.Rem` | src/field_element.rs:47 | Rust's `%`: `a == Div(a, b) * b + r`, with `abs(r) < abs(b)` and `r` taking the sign of `a`. |
| `IntOps.RemEuclid` | src/field_element.rs:62 | Rust's `%` equals Dafny's Euclidean `%`, except on a negative dividend not divisible by the divisor, where it is `abs(b)` smaller. |
| `IntOps.RemSmall` | src/field_element.rs:62 | A dividend smaller in magnitude than the divisor is its own remainder under Rust's `%`. |
| `IntOps.RemCongruent` | src/field_element.rs:47 | Rust's `%` is congruent to the dividend modulo the divisor. |
| `IntOps.FloorMod` | src/field_element.rs:20 | The modulo `modpow` reduces with: the result is congruent to the input and lies in `[0, m)` for `m > 0` and in `(m, 0]` for `m < 0`. |
| `FieldElements.New` | src/field_element.rs:12-17 | Fails (OutOfRange) iff `num >= prime`; otherwise stores `num` and `prime` unchanged. |
| `FieldElements.NewAcceptsNegative` | src/field_element.rs:13-16 | `new(-1, 13)` succeeds and yields an element outside `0 <= num < prime`. |
| `FieldElements.NewInRange` | src/field_element.rs:12-17 | Corrected constructor: succeeds iff `0 <= num < prime`, so every element it builds is in range. |
| `FieldElements.Eq` | src/field_element.rs:34-38 | True iff both `num` and `prime` are equal. |
| `FieldElements.Pow` | src/field_element.rs:19-25 | Fails on a negative exponent or a zero prime, and succeeds otherwise. On success it keeps the prime, and its `num` is congruent to `num^exponent` modulo the prime, in `[0, prime)` for a positive prime and in `(prime, 0]` for a negative one. |
| `FieldElements.PowStep` | src/field_element.rs:19-25 | For an in-range element, `pow(n + 1)` equals `pow(n) * self`: `pow` agrees with repeated field multiplication. |
| `FieldElements.PowExample` | src/main.rs:6-8 | `3^3` in the field of 13 equals `new(1, 13)`. |
| `FieldElements.Reduce` | src/field_element.rs:44-51 | The shared check-then-reduce step of the operators: fails when the primes differ or the prime is zero, and succeeds otherwise. On success it keeps the prime, and its number is Rust's `raw % prime`: smaller than the prime in magnitude, congruent to `raw`, and of `raw`'s sign. |
| `FieldElements.TruncatedResidueUnique` | src/field_element.rs:47 | Those three conditions determine the number: it is Rust's remainder and nothing else. |
| `FieldElements.Add` | src/field_element.rs:43-52 | Fails (DifferentFields) when the primes differ. Succeeds iff the primes match and are nonzero; matching primes of zero fail with DivisionByZero (the `% 0` panic). Keeps the prime. The number is Rust's `(a + b) % prime`: smaller than the prime in magnitude, congruent to `a + b`, and of the sign of `a + b`. |
| `FieldElements.AddNegativeOperand` | src/field_element.rs:12-17 | `new` accepts `-5` in the field of 13, and `(-5) + 1` there is `-4`. |
| `FieldElements.AddInField` | src/field_element.rs:47 | On in-range operands of one field, `+` gives `(a + b) mod prime`, which is in range. |
| `FieldElements.Sub` | src/field_element.rs:58-67 | Fails (DifferentFields) when the primes differ. Succeeds iff the primes match and are nonzero; matching primes of zero fail with DivisionByZero (the `% 0` panic). Keeps the prime. The number is Rust's `(a - b) % prime`: smaller than the prime in magnitude, congruent to `a - b`, and of the sign of `a - b`. |
| `FieldElements.SubInRange` | src/field_element.rs:62 | On in-range operands, `-` gives exactly `a - b`: it lies in `(-prime, prime)` and is negative iff `rhs.num > self.num`. |
| `FieldElements.AddUndoesSub` | src/field_element.rs:43-67 | On in-range operands, `(a - b) + b == a`, negative differences included. |
| `FieldElements.SubLeavesRange` | src/field_element.rs:62 | `3 - 5` in the field of 13 is `-2`, which is out of range and unequal to `11`. |
| `FieldElements.SubMod` | src/field_element.rs:58-67 | Corrected `-` with a non-negative modulo: same failures and congruence as `-`, and in range for a positive prime. |
| `FieldElements.SubModFixesSub` | src/field_element.rs:62 | `SubMod` equals `Sub` plus one prime exactly when `rhs.num > self.num`, and `+` undoes it. |
| `FieldElements.Mul` | src/field_element.rs:73-82 | Fails (DifferentFields) when the primes differ. Succeeds iff the primes match and are nonzero; matching primes of zero fail with DivisionByZero (the `% 0` panic). Keeps the prime. The number is Rust's `(a * b) % prime`: smaller than the prime in magnitude, congruent to `a * b`, and of the sign of `a * b`. |
| `FieldElements.MulInField` | src/field_element.rs:77 | On in-range operands of one field, `*` gives `(a * b) mod prime`, which is in range. |
| `FieldElements.ArithmeticExamples` | src/field_element.rs:43-82 | `7 + 12 == 6` and `3 * 12 == 10` in the field of 13. |
| `Points.New` | src/point.rs:12-17 | Succeeds iff `y^2 == x^3 + a*x + b`, and then stores `x`, `y`, `a`, `b` unchanged; otherwise fails with NotOnCurve. |
| `Points.NewOnOwnCurve` | src/point.rs:12-17 | Every point `new` builds lies on its own curve, and rebuilding it from its fields gives it back. |
| `Points.Eq` | src/point.rs:20-24 | True iff `x`, `y`, `a` and `b` are all equal. |
| `Points.CurveTellsPointsApart` | src/point.rs:22 | Points with identical coordinates but a different `a` or `b` are unequal. |
| `Points.Examples` | src/point.rs:32-56 | `(-1, -1)` is accepted on `a = 5, b = 7` and `(-1, -2)` is rejected. Two separately built `(-1, -1)` compare equal. |
| `IntPoints.New` | src/int_point.rs:11-28 | Succeeds iff both coordinates are absent, or both are present and on the curve. Fails with MissingY or MissingX when only one coordinate is present. The point keeps the given options. |
| `IntPoints.NewValid` | src/int_point.rs:11-28 | `new` gives back exactly the valid points. |
| `IntPoints.Eq` | src/int_point.rs:44-48 | True iff the `x` options and the `y` options are equal, which is all a point holds. |
| `IntPoints.Add` | src/int_point.rs:53-91 | Infinity on the left returns `rhs` when `rhs.x` is present. Infinity on the right returns `self` when `self.x` is present. The only failure is the catch-all arm. |
| `IntPoints.InfinityIsIdentity` | src/int_point.rs:55-56 | `inf + p == p` and `p + inf == p` for every `p` with `x` present. |
| `IntPoints.InfinityPlusInfinity` | src/int_point.rs:54-89 | Infinity is valid, and infinity plus infinity reaches the panic arm. |
| `IntPoints.VerticalLine` | src/int_point.rs:57-61 | Equal `x` and opposite `y` sum to infinity. |
| `IntPoints.ZeroYDoublingShadowed` | src/int_point.rs:57-86 | Every input admitted by the `y == 0` doubling guard also meets the earlier vertical-line guard, and sums to infinity. |
| `IntPoints.SameX` | src/int_point.rs:57-83 | Two on-curve points with the same `x` have `y` equal or negated. |
| `IntPoints.AddPanicsOnlyAtInfinity` | src/int_point.rs:54-89 | For valid points, `+` fails iff both are infinity: the dispatch covers every other valid pair. |
| `IntPoints.ChordArm` | src/int_point.rs:62-71 | For different `x`, `s` is the slope truncated toward zero: the remainder it leaves is smaller than `x2 - x1` and has the sign of `y2 - y1`. The sum's `x` satisfies `x1 + x2 + x3 == s^2`. Its `y` is the line through `(x1, y1)` reflected at `x3`. |
| `IntPoints.TangentArm` | src/int_point.rs:72-83 | For a point with `y != 0` added to itself, `s` is the tangent slope truncated toward zero: the remainder it leaves is smaller than `2 y1` and has the sign of `3 x1^2 + A`. The sum's `x` satisfies `2 x1 + x3 == s^2`. Its `y` is the tangent reflected at `x3`. |
| `IntPoints.Examples` | src/int_point.rs:98-147 | The source's test cases: validation of `(-1, -1)` and `(-1, -2)`, equality, `p + inf`, `inf + p`, `(-1,-1) + (-1,1) == inf`, `(2,5) + (-1,-1) == (3,-7)`, `(-1,-1) + (-1,-1) == (18,77)`, and `(-1,0) + (-1,0) == inf` on `A = 3, B = 4`. |
| `IntPoints.AddLeavesCurve` | src/int_point.rs:62-71 | `(-1, 1) + (2, 5)` on `A = 5, B = 7` is `(0, -2)`, a point `new` rejects. |
| `IntPoints.AddExact` | src/int_point.rs:53-91 | Corrected `+`: returns InexactSlope exactly when the chord or tangent slope does not divide evenly, and otherwise equals `+`. |
| `IntPoints.AddExactExamples` | src/int_point.rs:125-139 | The corrected `+` gives `(3,-7)` for `(2,5) + (-1,-1)` and `(18,77)` for `(-1,-1) + (-1,-1)`, and refuses `(-1,1) + (2,5)`. |
| `IntPoints.AddExactClosed` | src/int_point.rs:62-83 | The corrected sum of two valid points is valid. |
| `ChordTangent.ChordStaysOnCurve` | src/int_point.rs:62-71 | If the chord slope between two on-curve points with different `x` is exact, the chord rule's result is on the curve. |
| `ChordTangent.TangentStaysOnCurve` | src/int_point.rs:72-83 | If the tangent slope at an on-curve point is exact, the doubling rule's result is on the curve. |

## Findings

| source | as written | input that shows it | evidently intended | confidence | as-written member | corrected member |
|---|---|---|---|---|---|---|
| src/field_element.rs:13 | `new` rejects only `num >= prime` | `new(-1, 13)` is accepted | reject every `num` outside `0 ..= prime - 1`, the range the panic message names | high, not executed | `FieldElements.NewAcceptsNegative` | `FieldElements.NewInRange` |
| src/field_element.rs:62 | `-` reduces with the truncating `%` | `3 - 5` in the field of 13 gives `-2`, not `11` | a result in `0 ..= prime - 1`, congruent to the difference | high, not executed | `FieldElements.SubLeavesRange` | `FieldElements.SubMod` |
| src/int_point.rs:63 | the chord slope is truncated to an integer | `(-1, 1) + (2, 5)` on `A = 5, B = 7` gives `(0, -2)`, off the curve | a sum that `new` accepts, which holds when the slope is exact | medium, not executed | `IntPoints.AddLeavesCurve` | `IntPoints.AddExactClosed` |

The tangent slope at src/int_point.rs:75 has the same flaw, and `AddExact`
covers it too. The lemmas describing `Sub` and `Add` as written remain in the
model, because they state what the source does.

## Left out

- `i128` overflow in `IntPoint`: `pow`, the slope products and the additions
  are modelled on unbounded integers. Wrap-around and overflow panics are not
  modelled.
- The internals of `BigInt::modpow`. `Pow` follows the contract num-bigint
  documents: a floored modulo, and a panic on a negative exponent or a zero
  modulus. It does not model the algorithm. The crate version is not part of
  this model.
- `fmt::Display` for `FieldElement` and `IntPoint`: string formatting only.
  This includes the panic in `IntPoint`'s formatter for a point with one
  coordinate.
- `src/main.rs`: the demo program. Its one computation is `PowExample`; the
  printing is left out.
- Panic messages: a panic is a `Failure` with an error kind, without its text.
- Field division, negative exponents, Fermat inverses, scalar multiplication
  and points over field elements: the source does not have them.
- `IntPoints.Eq` and `IntPoints.Add` accept points built for any curve. In
  Rust, mixing curves is a type error, because `A` and `B` are part of the
  type.
