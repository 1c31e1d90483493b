/** JavaScript integer arithmetic on positive divisors: the `%` operator,
    which truncates toward zero, and `parseInt(a / b)`, which truncates the
    quotient. Dafny's own `/` and `%` are Euclidean. */
module JsNumber {

  /** `a % b` in JavaScript, for `b > 0`: the remainder takes the sign of `a`. */
  function Rem(a: int, b: int): (r: int)
    requires b > 0
    ensures a >= 0 ==> 0 <= r < b
    ensures a < 0 ==> -b < r <= 0
  {
    if a >= 0 then a % b else -((-a) % b)
  }

  /** The remainder differs from the dividend by a multiple of the divisor. */
  lemma RemCongruent(a: int, b: int)
    requires b > 0
    ensures Congruent(a, Rem(a, b), b)
  {
    if a >= 0 {
      assert a - Rem(a, b) == (a / b) * b;
      CongruentFromMultiple(a, Rem(a, b), a / b, b);
    } else {
      assert a - Rem(a, b) == (-((-a) / b)) * b;
      CongruentFromMultiple(a, Rem(a, b), -((-a) / b), b);
    }
  }

  /** `parseInt(a / b)` in JavaScript, for `b > 0`: the quotient truncated
      toward zero, so `q * b` is the multiple of `b` nearest `a` on the side
      of zero. */
  function Quot(a: int, b: int): (q: int)
    requires b > 0
    ensures a >= 0 ==> 0 <= q && q * b <= a < q * b + b
    ensures a < 0 ==> q <= 0 && q * b - b < a <= q * b
  {
    if a >= 0 then FloorDiv(a, b); a / b else FloorDiv(-a, b); -((-a) / b)
  }

  /** Euclidean division of a non-negative dividend brackets it between two
      consecutive multiples of the divisor. */
  lemma FloorDiv(a: int, b: int)
    requires a >= 0 && b > 0
    ensures 0 <= a / b && (a / b) * b <= a < (a / b) * b + b
  {
    var q, r := a / b, a % b;
    assert a == b * q + r;
    assert b * q == q * b;
  }

  /** `a` and `b` leave the same Euclidean remainder modulo `m`. */
  predicate Congruent(a: int, b: int, m: int)
    requires m > 0
  {
    (a - b) % m == 0
  }

  /** Truncated quotient and remainder recompose the dividend, and agree
      with Euclidean division on a non-negative dividend. */
  lemma QuotRem(a: int, b: int)
    requires b > 0
    ensures Quot(a, b) * b + Rem(a, b) == a
    ensures a >= 0 ==> Quot(a, b) == a / b && Rem(a, b) == a % b
  {
  }

  /** A dividend strictly between `-n*b` and `n*b` gives a truncated
      quotient strictly between `-n` and `n`. */
  lemma QuotBound(a: int, b: int, n: int)
    requires b > 0 && n > 0
    requires -(n * b) < a < n * b
    ensures -n < Quot(a, b) < n
    ensures a >= 0 ==> 0 <= Quot(a, b)
  {
    if a >= 0 {
      if a / b >= n {
        MulMonotone(n, a / b, b);
      }
    } else {
      if (-a) / b >= n {
        MulMonotone(n, (-a) / b, b);
      }
    }
  }

  lemma MulMonotone(x: int, y: int, b: int)
    requires b >= 0 && x <= y
    ensures x * b <= y * b
  {
  }

  /** The only multiple of `m` strictly between `-m` and `m` is zero. */
  lemma SmallMultipleIsZero(d: int, m: int)
    requires m > 0 && -m < d * m < m
    ensures d == 0
  {
    if d >= 1 {
      MulMonotone(1, d, m);
    } else if d <= -1 {
      MulMonotone(d, -1, m);
    }
  }

  /** Euclidean division is determined by any decomposition with a remainder
      in `[0, m)`. */
  lemma DivModUnique(x: int, m: int, q: int, r: int)
    requires m > 0 && 0 <= r < m
    requires x == q * m + r
    ensures x / m == q && x % m == r
  {
    var d := q - x / m;
    assert x == (x / m) * m + x % m;
    assert d * m == x % m - r by {
      assert d * m == q * m - (x / m) * m;
    }
    SmallMultipleIsZero(d, m);
  }

  lemma CongruentFromMultiple(a: int, b: int, q: int, m: int)
    requires m > 0 && a - b == q * m
    ensures Congruent(a, b, m)
  {
    DivModUnique(a - b, m, q, 0);
  }

  lemma MultipleFromCongruent(a: int, b: int, m: int)
    requires m > 0 && Congruent(a, b, m)
    ensures a - b == ((a - b) / m) * m
  {
    assert a - b == ((a - b) / m) * m + (a - b) % m;
  }

  /** Adding a multiple of the modulus keeps the remainder of a
      non-negative dividend. */
  lemma RemPeriodic(a: int, k: nat, b: int)
    requires b > 0 && a >= 0
    ensures Rem(a + k * b, b) == Rem(a, b)
  {
    assert a == (a / b) * b + a % b;
    assert a + k * b == (a / b + k) * b + a % b;
    DivModUnique(a + k * b, b, a / b + k, a % b);
  }
}
