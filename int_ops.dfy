/** Integer division as Rust performs it on `i128` and on `BigInt`: the quotient
    is truncated toward zero and the remainder takes the sign of the dividend.
    Dafny's own `/` and `%` are Euclidean (the remainder is never negative), so
    they differ from Rust's whenever an operand is negative.
    Also the floored modulo that `BigInt::modpow` reduces with, and natural powers. */
module IntOps {

  function Abs(n: int): nat
  {
    if n < 0 then -n else n
  }

  /** Rust's `a / b`: the quotient rounded toward zero, so that the remainder
      `a - q * b` is smaller than the divisor and has the dividend's sign. */
  function Div(a: int, b: int): (q: int)
    requires b != 0
    ensures Abs(a - q * b) < Abs(b)
    ensures a >= 0 ==> a - q * b >= 0
    ensures a <= 0 ==> a - q * b <= 0
  {
    if b > 0 then
      if a >= 0 then
        assert a - (a / b) * b == a % b;
        a / b
      else
        var m := (-a) / b;
        assert -a - m * b == (-a) % b;
        assert (-m) * b == -(m * b);
        -m
    else
      if a >= 0 then
        var m := a / (-b);
        assert a - m * (-b) == a % (-b);
        assert (-m) * b == m * (-b);
        -m
      else
        var m := (-a) / (-b);
        assert -a - m * (-b) == (-a) % (-b);
        assert m * b == -(m * (-b));
        m
  }

  /** Rust's `a % b`: what is left over after the truncated quotient. */
  function Rem(a: int, b: int): (r: int)
    requires b != 0
    ensures a == Div(a, b) * b + r
    ensures Abs(r) < Abs(b)
    ensures a >= 0 ==> r >= 0
    ensures a <= 0 ==> r <= 0
  {
    a - Div(a, b) * b
  }

  /** The floored modulo used by `BigInt::modpow`: the result has the sign of
      the modulus. */
  function FloorMod(a: int, m: int): (r: int)
    requires m != 0
    ensures m > 0 ==> 0 <= r < m
    ensures m < 0 ==> m < r <= 0
    ensures (a - r) % m == 0
  {
    var q, e := a / m, a % m;
    assert a - e == q * m;
    if m < 0 && e != 0 then
      assert a - (e + m) == (q - 1) * m;
      MultipleMod(q - 1, m);
      e + m
    else
      MultipleMod(q, m);
      e
  }

  /** `b` raised to the natural power `e`. */
  function Power(b: int, e: nat): int
  {
    if e == 0 then 1 else b * Power(b, e - 1)
  }

  /** A product `k * m` with `0 <= k * m < |m|` is zero. */
  lemma SmallMultiple(k: int, m: int)
    requires m != 0
    requires 0 <= k * m < Abs(m)
    ensures k == 0
  {
    NonzeroMultiple(k, m);
  }

  /** A nonzero multiple of `m` is at least as large as `m` in magnitude. */
  lemma NonzeroMultiple(k: int, m: int)
    ensures k != 0 ==> Abs(k * m) >= Abs(m)
  {
    if k != 0 {
      AtLeastFactor(Abs(k), Abs(m));
      if (k > 0) == (m > 0) {
        assert k * m == Abs(k) * Abs(m);
      } else {
        assert k * m == -(Abs(k) * Abs(m));
      }
    }
  }

  /** A product with a positive natural factor is at least the other factor. */
  lemma AtLeastFactor(j: int, n: int)
    requires j >= 1 && n >= 0
    ensures j * n >= n
  {
    assert j * n == (j - 1) * n + n;
  }

  /** Euclidean division is unique: a decomposition `a == q * m + r` with
      `0 <= r < |m|` is the one Dafny's `/` and `%` give. */
  lemma {:induction false} EuclidUnique(a: int, m: int, q: int, r: int)
    requires m != 0
    requires a == q * m + r
    requires 0 <= r < Abs(m)
    ensures q == a / m && r == a % m
  {
    var q0, r0 := a / m, a % m;
    assert (q - q0) * m == r0 - r;
    if r0 >= r {
      SmallMultiple(q - q0, m);
    } else {
      SmallMultiple(q0 - q, m);
    }
  }

  /** Every multiple of `m` is congruent to zero modulo `m`. */
  lemma {:induction false} MultipleMod(k: int, m: int)
    requires m != 0
    ensures (k * m) % m == 0
  {
    EuclidUnique(k * m, m, k, 0);
  }

  /** Adding a multiple of `m` does not change the Euclidean remainder. */
  lemma {:induction false} ModAddMultiple(a: int, k: int, m: int)
    requires m != 0
    ensures (a + k * m) % m == a % m
  {
    assert a + k * m == (a / m + k) * m + a % m;
    EuclidUnique(a + k * m, m, a / m + k, a % m);
  }

  /** Reducing a factor before multiplying does not change the product's
      remainder. */
  lemma {:induction false} ModMulLeft(x: int, y: int, m: int)
    requires m != 0
    ensures ((x % m) * y) % m == (x * y) % m
  {
    var q := x / m;
    assert x * y == (x % m) * y + (q * y) * m;
    ModAddMultiple((x % m) * y, q * y, m);
  }

  /** Rust's remainder against Dafny's Euclidean one: they agree except on a
      negative dividend that the divisor does not divide, where Rust's is
      `|b|` smaller. */
  lemma {:induction false} RemEuclid(a: int, b: int)
    requires b != 0
    ensures Rem(a, b) == if a >= 0 || a % b == 0 then a % b else a % b - Abs(b)
  {
    var q, r := Div(a, b), Rem(a, b);
    if r >= 0 {
      EuclidUnique(a, b, q, r);
    } else {
      var q' := if b > 0 then q - 1 else q + 1;
      assert a == q' * b + (r + Abs(b));
      EuclidUnique(a, b, q', r + Abs(b));
    }
  }

  /** Rust's remainder is congruent to the dividend modulo the divisor. */
  lemma {:induction false} RemCongruent(a: int, b: int)
    requires b != 0
    ensures (a - Rem(a, b)) % b == 0
  {
    MultipleMod(Div(a, b), b);
  }

  /** A dividend smaller in magnitude than the divisor is its own remainder. */
  lemma {:induction false} RemSmall(a: int, b: int)
    requires b != 0
    requires Abs(a) < Abs(b)
    ensures Rem(a, b) == a
  {
    RemEuclid(a, b);
    if a >= 0 {
      EuclidUnique(a, b, 0, a);
    } else {
      var q := if b > 0 then -1 else 1;
      EuclidUnique(a, b, q, a + Abs(b));
    }
  }
}
