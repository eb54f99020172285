/** An element of a prime field: a number `num` tagged with the modulus `prime`
    it lives under (`src/field_element.rs`). Numbers are arbitrary-precision, as
    with `BigInt`. Every operation that panics in the source returns a `Failure`
    here. */
module FieldElements {
  import opened Wrappers
  import opened IntOps

  datatype FieldElement = FieldElement(num: int, prime: int)

  datatype FieldError =
    | OutOfRange       // `new` with `num >= prime`
    | DifferentFields  // a binary operator on operands with different primes
    | DivisionByZero   // reduction modulo a zero prime
    | NegativeExponent // `modpow` with a negative exponent

  /** The range the field's numbers are meant to lie in: `0 <= num < prime`. */
  predicate InField(e: FieldElement)
  {
    0 <= e.num < e.prime
  }

  /** `FieldElement::new`: rejects only a number at or above the prime. */
  function New(num: int, prime: int): (r: Result<FieldElement, FieldError>)
    ensures r.Failure? <==> num >= prime
    ensures r.Failure? ==> r.error == OutOfRange
    ensures r.Success? ==> r.value.num == num && r.value.prime == prime
  {
    if num >= prime then Failure(OutOfRange) else Success(FieldElement(num, prime))
  }

  /** `PartialEq::eq`: both the number and the prime must match. */
  function Eq(e: FieldElement, f: FieldElement): (r: bool)
    ensures r <==> e == f
  {
    e.num == f.num && e.prime == f.prime
  }

  /** `pow`: `num` raised to `exponent` by `BigInt::modpow`, which reduces with
      a floored modulo and panics on a negative exponent or a zero modulus. */
  function Pow(e: FieldElement, exponent: int): (r: Result<FieldElement, FieldError>)
    ensures exponent < 0 ==> r == Failure(NegativeExponent)
    ensures exponent >= 0 && e.prime == 0 ==> r == Failure(DivisionByZero)
    ensures r.Success? <==> exponent >= 0 && e.prime != 0
    ensures r.Success? ==> r.value.prime == e.prime
    ensures r.Success? ==> (Power(e.num, exponent) - r.value.num) % e.prime == 0
    ensures r.Success? && e.prime > 0 ==> InField(r.value)
    ensures r.Success? && e.prime < 0 ==> e.prime < r.value.num <= 0
  {
    if exponent < 0 then Failure(NegativeExponent)
    else if e.prime == 0 then Failure(DivisionByZero)
    else Success(FieldElement(FloorMod(Power(e.num, exponent), e.prime), e.prime))
  }

  /** `n` is what Rust's `raw % p` gives: smaller than `p` in magnitude,
      congruent to `raw`, and of the same sign as `raw` (or zero). */
  predicate TruncatedResidue(raw: int, p: int, n: int)
    requires p != 0
  {
    Abs(n) < Abs(p) && (raw - n) % p == 0 && (raw >= 0 ==> n >= 0) && (raw <= 0 ==> n <= 0)
  }

  /** The shared shape of `+`, `-` and `*`: check the primes, then reduce the
      raw result with Rust's truncating `%`. */
  function Reduce(e: FieldElement, f: FieldElement, raw: int): (r: Result<FieldElement, FieldError>)
    ensures e.prime != f.prime ==> r == Failure(DifferentFields)
    ensures e.prime == f.prime && e.prime == 0 ==> r == Failure(DivisionByZero)
    ensures r.Success? <==> e.prime == f.prime && e.prime != 0
    ensures r.Success? ==> r.value.prime == e.prime && TruncatedResidue(raw, e.prime, r.value.num)
  {
    if e.prime != f.prime then Failure(DifferentFields)
    else if e.prime == 0 then Failure(DivisionByZero)
    else
      RemCongruent(raw, e.prime);
      Success(FieldElement(Rem(raw, e.prime), e.prime))
  }

  /** `TruncatedResidue` pins the number down: it is Rust's remainder and
      nothing else. */
  lemma TruncatedResidueUnique(raw: int, p: int, n: int)
    requires p != 0 && TruncatedResidue(raw, p, n)
    ensures n == Rem(raw, p)
  {
    var k := (raw - n) / p;
    assert raw == k * p + n;
    RemEuclid(raw, p);
    if n >= 0 {
      EuclidUnique(raw, p, k, n);
    } else {
      var k' := if p > 0 then k - 1 else k + 1;
      assert raw == k' * p + (n + Abs(p));
      EuclidUnique(raw, p, k', n + Abs(p));
    }
  }

  /** `ops::Add::add`. */
  function Add(e: FieldElement, f: FieldElement): (r: Result<FieldElement, FieldError>)
    ensures e.prime != f.prime ==> r == Failure(DifferentFields)
    ensures r.Success? <==> e.prime == f.prime && e.prime != 0
    ensures e.prime == f.prime && e.prime == 0 ==> r == Failure(DivisionByZero)
    ensures r.Success? ==> r.value.prime == e.prime && TruncatedResidue(e.num + f.num, e.prime, r.value.num)
  {
    Reduce(e, f, e.num + f.num)
  }

  /** `ops::Sub::sub`, as written: the truncating `%` leaves a negative number
      when the right operand is the larger. */
  function Sub(e: FieldElement, f: FieldElement): (r: Result<FieldElement, FieldError>)
    ensures e.prime != f.prime ==> r == Failure(DifferentFields)
    ensures r.Success? <==> e.prime == f.prime && e.prime != 0
    ensures e.prime == f.prime && e.prime == 0 ==> r == Failure(DivisionByZero)
    ensures r.Success? ==> r.value.prime == e.prime && TruncatedResidue(e.num - f.num, e.prime, r.value.num)
  {
    Reduce(e, f, e.num - f.num)
  }

  /** `ops::Mul::mul`. */
  function Mul(e: FieldElement, f: FieldElement): (r: Result<FieldElement, FieldError>)
    ensures e.prime != f.prime ==> r == Failure(DifferentFields)
    ensures r.Success? <==> e.prime == f.prime && e.prime != 0
    ensures e.prime == f.prime && e.prime == 0 ==> r == Failure(DivisionByZero)
    ensures r.Success? ==> r.value.prime == e.prime && TruncatedResidue(e.num * f.num, e.prime, r.value.num)
  {
    Reduce(e, f, e.num * f.num)
  }

  /** A negative number that `new` lets through stays negative under `+`:
      `(-5) + 1` in the field of 13 is `-4`. */
  lemma AddNegativeOperand()
    ensures New(-5, 13) == Success(FieldElement(-5, 13))
    ensures Add(FieldElement(-5, 13), FieldElement(1, 13)) == Success(FieldElement(-4, 13))
  {
    RemSmall(-4, 13);
  }

  /** On in-range operands of one field `+` is addition modulo the prime, and
      stays in range. */
  lemma AddInField(e: FieldElement, f: FieldElement)
    requires InField(e) && InField(f) && e.prime == f.prime
    ensures Add(e, f) == Success(FieldElement((e.num + f.num) % e.prime, e.prime))
    ensures InField(Add(e, f).value)
  {
    RemEuclid(e.num + f.num, e.prime);
  }

  /** On in-range operands of one field `*` is multiplication modulo the prime,
      and stays in range. */
  lemma MulInField(e: FieldElement, f: FieldElement)
    requires InField(e) && InField(f) && e.prime == f.prime
    ensures Mul(e, f) == Success(FieldElement((e.num * f.num) % e.prime, e.prime))
    ensures InField(Mul(e, f).value)
  {
    RemEuclid(e.num * f.num, e.prime);
  }

  /** On in-range operands `-` is plain integer subtraction: the result lies
      strictly between `-prime` and `prime`, and is negative exactly when the
      right operand is the larger. */
  lemma SubInRange(e: FieldElement, f: FieldElement)
    requires InField(e) && InField(f) && e.prime == f.prime
    ensures Sub(e, f) == Success(FieldElement(e.num - f.num, e.prime))
    ensures -e.prime < Sub(e, f).value.num < e.prime
    ensures Sub(e, f).value.num < 0 <==> f.num > e.num
  {
    RemSmall(e.num - f.num, e.prime);
  }

  /** `+` undoes `-` on in-range operands, negative differences included. */
  lemma AddUndoesSub(e: FieldElement, f: FieldElement)
    requires InField(e) && InField(f) && e.prime == f.prime
    ensures Sub(e, f).Success? && Add(Sub(e, f).value, f) == Success(e)
  {
    SubInRange(e, f);
    RemSmall(e.num, e.prime);
  }

  /** `3 - 5` in the field of 13 is `-2`, a number outside the field's range
      that `Eq` tells apart from `11`, the residue it stands for. */
  lemma SubLeavesRange()
    ensures Sub(FieldElement(3, 13), FieldElement(5, 13)) == Success(FieldElement(-2, 13))
    ensures !InField(FieldElement(-2, 13)) && !Eq(FieldElement(-2, 13), FieldElement(11, 13))
  {
    SubInRange(FieldElement(3, 13), FieldElement(5, 13));
  }

  /** Subtraction with the non-negative (Euclidean) modulo that keeps numbers in
      the field's range. */
  function SubMod(e: FieldElement, f: FieldElement): (r: Result<FieldElement, FieldError>)
    ensures r.Success? <==> e.prime == f.prime && e.prime != 0
    ensures e.prime != f.prime ==> r == Failure(DifferentFields)
    ensures r.Success? ==> r.value.prime == e.prime && (e.num - f.num - r.value.num) % e.prime == 0
    ensures r.Success? && e.prime > 0 ==> InField(r.value)
  {
    if e.prime != f.prime then Failure(DifferentFields)
    else if e.prime == 0 then Failure(DivisionByZero)
    else
      var d := e.num - f.num;
      MultipleMod(d / e.prime, e.prime);
      assert d - d % e.prime == d / e.prime * e.prime;
      Success(FieldElement(d % e.prime, e.prime))
  }

  /** `SubMod` differs from `Sub` exactly by one prime on a negative difference,
      and `+` undoes it. */
  lemma SubModFixesSub(e: FieldElement, f: FieldElement)
    requires InField(e) && InField(f) && e.prime == f.prime
    ensures SubMod(e, f).Success? && Sub(e, f).Success?
    ensures SubMod(e, f).value.num ==
      if f.num > e.num then Sub(e, f).value.num + e.prime else Sub(e, f).value.num
    ensures Add(SubMod(e, f).value, f) == Success(e)
  {
    var p, d := e.prime, e.num - f.num;
    SubInRange(e, f);
    if d >= 0 {
      EuclidUnique(d, p, 0, d);
    } else {
      EuclidUnique(d, p, -1, d + p);
    }
    AddInField(SubMod(e, f).value, f);
    ModAddMultiple(e.num, if d >= 0 then 0 else 1, p);
    EuclidUnique(e.num, p, 0, e.num);
  }

  /** `pow` by one more is `pow` followed by one `*`, for an in-range element:
      `pow` agrees with repeated multiplication. */
  lemma {:induction false} PowStep(e: FieldElement, n: nat)
    requires InField(e)
    ensures Pow(e, n).Success? && Pow(e, n + 1).Success?
    ensures Mul(Pow(e, n).value, e) == Pow(e, n + 1)
  {
    var p := e.prime;
    var x := Power(e.num, n);
    assert Pow(e, n).value.num == x % p;
    MulInField(Pow(e, n).value, e);
    ModMulLeft(x, e.num, p);
    assert Power(e.num, n + 1) == x * e.num;
  }

  /** `3^3` in the field of 13 equals `1`, as built by `new`. */
  lemma PowExample()
    ensures New(3, 13).Success? && New(1, 13).Success?
    ensures Pow(New(3, 13).value, 3).Success?
    ensures Eq(Pow(New(3, 13).value, 3).value, New(1, 13).value)
  {
    assert Power(3, 3) == 27;
  }

  /** `7 + 12 == 6` and `3 * 12 == 10` in the field of 13. */
  lemma ArithmeticExamples()
    ensures Add(FieldElement(7, 13), FieldElement(12, 13)) == Success(FieldElement(6, 13))
    ensures Mul(FieldElement(3, 13), FieldElement(12, 13)) == Success(FieldElement(10, 13))
  {
    AddInField(FieldElement(7, 13), FieldElement(12, 13));
    MulInField(FieldElement(3, 13), FieldElement(12, 13));
  }

  /** `new` accepts a negative number, outside the range `0` to `prime - 1`
      that its own panic message names. */
  lemma NewAcceptsNegative()
    ensures New(-1, 13) == Success(FieldElement(-1, 13))
    ensures !InField(New(-1, 13).value)
  {
  }

  /** A constructor that rejects every number outside `0 <= num < prime`. */
  function NewInRange(num: int, prime: int): (r: Result<FieldElement, FieldError>)
    ensures r.Success? <==> 0 <= num < prime
    ensures r.Success? ==> r.value == FieldElement(num, prime) && InField(r.value)
    ensures r.Failure? ==> r.error == OutOfRange
  {
    if num < 0 || num >= prime then Failure(OutOfRange) else New(num, prime)
  }
}
