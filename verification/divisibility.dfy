/** Divisibility of integers and the declarative definitions of greatest
    common divisor, least common multiple and primality that the calculator's
    integer algorithms are measured against. */
module Divisibility {

  /** `d` divides `n`: `n` is an integer multiple of `d` (only 0 is a
      multiple of 0). */
  predicate Divides(d: int, n: int) {
    if d == 0 then n == 0 else n % d == 0
  }

  /** Euclidean division is unique: a quotient and a remainder in range are
      the ones `/` and `%` compute. */
  lemma DivModUnique(n: int, m: int, q: int, r: int)
    requires 0 < m && n == m * q + r && 0 <= r < m
    ensures n / m == q && n % m == r
  {
    var q', r' := n / m, n % m;
    assert n == m * q' + r';
    var t := q - q';
    assert m * q - m * q' == r' - r;
    assert m * t == r' - r by {
      assert m * t == m * q - m * q';
    }
    if t > 0 {
      MultiplyAtLeast(m, t);
    } else if t < 0 {
      MultiplyAtLeast(m, -t);
    }
  }

  /** Multiplying a positive number by a positive integer does not make it
      smaller. */
  lemma MultiplyAtLeast(m: int, t: int)
    requires 0 < m && 0 < t
    ensures m <= m * t && t <= m * t
  {
    assert m * t - m == m * (t - 1);
    assert m * t - t == (m - 1) * t;
  }

  /** Dividing a non-negative number by a positive one does not make it
      larger. */
  lemma QuotientAtMost(n: int, m: int)
    requires 0 <= n && 0 < m
    ensures 0 <= n / m <= n
  {
    var q := n / m;
    assert n == m * q + n % m;
    if 0 < q {
      MultiplyAtLeast(m, q);
    }
  }

  /** The magnitude of an integer. */
  function Magnitude(x: int): nat {
    if x < 0 then -x else x
  }

  /** The magnitude of a product is the product of the magnitudes. */
  lemma MagnitudeOfProduct(a: int, b: int)
    ensures Magnitude(a * b) == Magnitude(a) * Magnitude(b)
  {
    if a < 0 && b < 0 {
      assert a * b == (-a) * (-b);
    } else if a < 0 {
      assert a * b == -((-a) * b);
    } else if b < 0 {
      assert a * b == -(a * (-b));
    }
  }

  /** A divisor's cofactor: `n` is `d` times `n / d`. */
  lemma DividesWitness(d: int, n: int)
    requires d != 0 && Divides(d, n)
    ensures n == d * (n / d)
  {
  }

  /** Every multiple of `d` is divisible by `d`. */
  lemma MultipleIsDivisible(d: int, k: int)
    ensures Divides(d, d * k)
  {
    if d > 0 {
      DivModUnique(d * k, d, k, 0);
    } else if d < 0 {
      DivModUnique(d * k, -d, -k, 0);
      assert (d * k) % (-d) == 0;
      assert (d * k) % d == (d * k) % (-d);
    }
  }

  /** Divisibility by a nonzero `d` means having an integer cofactor. */
  lemma DividesByCofactor(d: int, n: int, k: int)
    requires n == d * k
    ensures Divides(d, n)
  {
    MultipleIsDivisible(d, k);
  }

  /** Divisibility ignores the sign of the dividend and of the divisor. */
  lemma DividesIgnoresSign(d: int, n: int)
    ensures Divides(d, n) <==> Divides(d, -n)
    ensures Divides(d, n) <==> Divides(-d, n)
  {
    if Divides(d, n) {
      DividesNegated(d, n);
    }
    if Divides(d, -n) {
      DividesNegated(d, -n);
    }
    if Divides(-d, n) {
      DividesNegated(-d, n);
    }
  }

  /** A divisor of n divides -n, and its negation divides n. */
  lemma DividesNegated(d: int, n: int)
    requires Divides(d, n)
    ensures Divides(d, -n) && Divides(-d, n)
  {
    if d != 0 {
      DividesWitness(d, n);
      var k := n / d;
      DividesByCofactor(d, -n, -k);
      DividesByCofactor(-d, n, -k);
    }
  }

  /** A common divisor of `x` and `y` divides every combination `x + k * y`. */
  lemma DividesCombination(d: int, x: int, y: int, k: int)
    requires Divides(d, x) && Divides(d, y)
    ensures Divides(d, x + k * y)
  {
    if d != 0 {
      DividesWitness(d, x);
      DividesWitness(d, y);
      var kx, ky := x / d, y / d;
      assert x + k * y == d * (kx + k * ky) by {
        assert k * y == k * (d * ky) == d * (k * ky);
      }
      DividesByCofactor(d, x + k * y, kx + k * ky);
    }
  }

  /** Divisibility is transitive. */
  lemma DividesTransitive(a: int, b: int, c: int)
    requires Divides(a, b) && Divides(b, c)
    ensures Divides(a, c)
  {
    if a != 0 && b != 0 {
      DividesWitness(a, b);
      DividesWitness(b, c);
      assert c == a * ((b / a) * (c / b)) by {
        assert c == (a * (b / a)) * (c / b);
      }
      DividesByCofactor(a, c, (b / a) * (c / b));
    }
  }

  /** A positive divisor of a positive number is no larger than it. */
  lemma DivisorAtMost(d: int, n: int)
    requires 0 < d && 0 < n && Divides(d, n)
    ensures d <= n
  {
    DividesWitness(d, n);
    var k := n / d;
    if 0 < k {
      MultiplyAtLeast(d, k);
    }
  }

  /** Two non-negative numbers that divide each other are equal. */
  lemma DividesAntisymmetric(x: int, y: int)
    requires 0 <= x && 0 <= y && Divides(x, y) && Divides(y, x)
    ensures x == y
  {
    if x != 0 && y != 0 {
      DivisorAtMost(x, y);
      DivisorAtMost(y, x);
    }
  }

  /** `g` is a greatest common divisor of `a` and `b`: a non-negative common
      divisor that every common divisor divides. */
  ghost predicate IsGcd(g: int, a: int, b: int) {
    && 0 <= g
    && Divides(g, a)
    && Divides(g, b)
    && forall d :: Divides(d, a) && Divides(d, b) ==> Divides(d, g)
  }

  /** The greatest common divisor is unique. */
  lemma GcdUnique(g: int, h: int, a: int, b: int)
    requires IsGcd(g, a, b) && IsGcd(h, a, b)
    ensures g == h
  {
    DividesAntisymmetric(g, h);
  }

  /** `m` is a least common multiple of `a` and `b`: a non-negative common
      multiple that divides every common multiple. */
  ghost predicate IsLcm(m: int, a: int, b: int) {
    && 0 <= m
    && Divides(a, m)
    && Divides(b, m)
    && forall c :: Divides(a, c) && Divides(b, c) ==> Divides(m, c)
  }

  /** The least common multiple is unique. */
  lemma LcmUnique(m: int, n: int, a: int, b: int)
    requires IsLcm(m, a, b) && IsLcm(n, a, b)
    ensures m == n
  {
    DividesAntisymmetric(m, n);
  }

  /** `n` is prime: at least 2, with no divisor strictly between 1 and `n`. */
  ghost predicate IsPrimeNumber(n: int) {
    2 <= n && forall d :: 2 <= d < n ==> !Divides(d, n)
  }
}
