/** GreatestCommonDivisor and LeastCommonMultiple of the calculator
    (SampleApp/Calculator.cs), on 32-bit operands. */
module Gcd {
  import opened Outcomes
  import opened Int32
  import opened Divisibility

  /** The loop of GreatestCommonDivisor on the magnitudes: while the second
      value is nonzero, replace (x, y) by (y, x % y). */
  function Euclid(x: nat, y: nat): (g: nat)
    ensures IsGcd(g, x, y)
    ensures g <= x || g <= y
    decreases y
  {
    if y == 0 then
      GcdWithZero(x);
      x
    else
      var g := Euclid(y, Rem(x, y));
      EuclidStep(x, y, g);
      DivisorAtMost(g, y);
      g
  }

  /** Every number is the greatest common divisor of itself and zero. */
  lemma GcdWithZero(x: nat)
    ensures IsGcd(x, x, 0)
  {
    MultipleIsDivisible(x, 1);
    MultipleIsDivisible(x, 0);
  }

  /** One iteration of Euclid's loop keeps the greatest common divisor. */
  lemma EuclidStep(x: nat, y: nat, g: int)
    requires 0 < y && IsGcd(g, y, Rem(x, y))
    ensures IsGcd(g, x, y)
  {
    var q, r := x / y, Rem(x, y);
    assert r == x % y;
    assert x == q * y + r;
    DividesCombination(g, r, y, q);
    assert r + q * y == x;
    forall d | Divides(d, x) && Divides(d, y)
      ensures Divides(d, g)
    {
      DividesCombination(d, x, y, -q);
      assert x + (-q) * y == r;
    }
  }

  /** The greatest common divisor depends only on the magnitudes. */
  lemma GcdOfMagnitudes(g: int, a: int, b: int, x: int, y: int)
    requires x == a || x == -a
    requires y == b || y == -b
    requires IsGcd(g, x, y)
    ensures IsGcd(g, a, b)
  {
    DividesIgnoresSign(g, a);
    DividesIgnoresSign(g, b);
    forall d | Divides(d, a) && Divides(d, b)
      ensures Divides(d, g)
    {
      DividesIgnoresSign(d, a);
      DividesIgnoresSign(d, b);
    }
  }

  /** GreatestCommonDivisor (Calculator.cs): Euclid's algorithm on
      Math.Abs of both operands. Math.Abs throws for int.MinValue. */
  function GreatestCommonDivisor(a: int32, b: int32): (r: Result<int32>)
    ensures r.Ok? <==> a != MinValue && b != MinValue
    ensures r.Err? ==> r.error.Overflow?
    ensures r.Ok? ==> IsGcd(r.value, a, b)
  {
    var x :- Abs(a);
    var y :- Abs(b);
    var g := Euclid(x, y);
    GcdOfMagnitudes(g, a, b, x, y);
    Ok(g)
  }

  /** Scaling both arguments of Euclid's loop scales its result. */
  lemma {:induction false} EuclidScale(s: nat, x: nat, y: nat)
    requires 0 < s
    ensures Euclid(s * x, s * y) == s * Euclid(x, y)
    decreases y
  {
    if y != 0 {
      var q, r := x / y, x % y;
      assert s * x == (s * y) * q + s * r by {
        assert x == y * q + r;
      }
      assert 0 <= s * r < s * y by {
        MultiplyAtLeast(s, y - r);
        assert s * y - s * r == s * (y - r);
      }
      DivModUnique(s * x, s * y, q, s * r);
      RemOfNonNegative(x, y);
      RemOfNonNegative(s * x, s * y);
      assert Euclid(x, y) == Euclid(y, r);
      assert Euclid(s * x, s * y) == Euclid(s * y, s * r);
      EuclidScale(s, y, r);
    }
  }

  /** Scaling both numbers scales their greatest common divisor. */
  lemma GcdScale(s: nat, g: int, x: nat, y: nat)
    requires 0 < s && IsGcd(g, x, y)
    ensures IsGcd(s * g, s * x, s * y)
  {
    GcdUnique(g, Euclid(x, y), x, y);
    EuclidScale(s, x, y);
  }

  /** A common factor cancels from both sides of a divisibility. */
  lemma DividesCancel(g: int, a: int, b: int)
    requires 0 < g && Divides(g * a, g * b)
    ensures Divides(a, b)
  {
    if a == 0 {
      assert g * b == 0;
    } else {
      DividesWitness(g * a, g * b);
      var k := (g * b) / (g * a);
      assert g * (b - a * k) == 0 by {
        assert g * b == (g * a) * k;
      }
      DividesByCofactor(a, b, k);
    }
  }

  /** If `g` is the greatest common divisor of two positive numbers then
      `x * (y / g)` is their least common multiple. */
  lemma LcmFromGcd(x: nat, y: nat, g: int)
    requires 0 < x && 0 < y && IsGcd(g, x, y)
    ensures 0 < g && Divides(g, y)
    ensures IsLcm(x * (y / g), x, y)
  {
    var x', y' := x / g, y / g;
    DividesWitness(g, x);
    DividesWitness(g, y);
    var m := x * y';
    DividesByCofactor(x, m, y');
    assert m == x' * y by {
      assert m == (g * x') * y' == x' * (g * y');
    }
    DividesByCofactor(y, m, x');
    forall c | Divides(x, c) && Divides(y, c)
      ensures Divides(m, c)
    {
      DividesIgnoresSign(x, c);
      DividesIgnoresSign(y, c);
      DividesIgnoresSign(m, c);
      var c' := if c < 0 then -c else c;
      LcmDividesCommonMultiple(x, y, g, c');
    }
  }

  /** The leastness half of LcmFromGcd, for a non-negative common multiple. */
  lemma LcmDividesCommonMultiple(x: nat, y: nat, g: int, c: nat)
    requires 0 < x && 0 < y && IsGcd(g, x, y)
    requires Divides(x, c) && Divides(y, c)
    ensures 0 < g && Divides(x * (y / g), c)
  {
    DividesWitness(g, y);
    var y' := y / g;
    DividesWitness(x, c);
    var s := c / x;
    if s == 0 {
      MultipleIsDivisible(x * y', 0);
    } else {
      assert 0 < s;
      GcdScale(s, g, x, y);
      assert Divides(y, s * x) by {
        assert s * x == c;
      }
      MultipleIsDivisible(y, s);
      assert y * s == s * y;
      assert Divides(g * y', g * s) by {
        assert g * s == s * g;
      }
      DividesCancel(g, y', s);
      DividesWitness(y', s);
      var t := s / y';
      assert c == (x * y') * t by {
        assert c == x * s == x * (y' * t);
      }
      DividesByCofactor(x * y', c, t);
    }
  }

  /** The least common multiple of two integers, as an unbounded number. */
  ghost function LcmOf(a: int, b: int): (m: nat)
    ensures IsLcm(m, a, b)
  {
    if a == 0 || b == 0 then
      MultipleIsDivisible(a, 0);
      MultipleIsDivisible(b, 0);
      0
    else
      var x, y := Magnitude(a), Magnitude(b);
      var g := Euclid(x, y);
      LcmFromGcd(x, y, g);
      LcmOfMagnitudes(x * (y / g), a, b, x, y);
      x * (y / g)
  }

  /** The least common multiple depends only on the magnitudes. */
  lemma LcmOfMagnitudes(m: int, a: int, b: int, x: int, y: int)
    requires x == a || x == -a
    requires y == b || y == -b
    requires IsLcm(m, x, y)
    ensures IsLcm(m, a, b)
  {
    DividesIgnoresSign(a, m);
    DividesIgnoresSign(b, m);
    forall c | Divides(a, c) && Divides(b, c)
      ensures Divides(m, c)
    {
      DividesIgnoresSign(a, c);
      DividesIgnoresSign(b, c);
    }
  }

  /** A nonzero number's greatest common divisor with anything is positive. */
  lemma GcdOfNonzeroIsPositive(g: int, a: int, b: int)
    requires a != 0 && IsGcd(g, a, b)
    ensures 0 < g
  {
  }

  /** LeastCommonMultiple as written (Calculator.cs): 0 when an operand is 0,
      otherwise the magnitude of the unchecked 32-bit product a * b,
      divided by the greatest common divisor. It is the least common multiple exactly
      when the product does not overflow; LcmOverflowCounterexample shows
      an input where it overflows although the answer fits. */
  function LeastCommonMultiple(a: int32, b: int32): (r: Result<int32>)
    ensures a == 0 || b == 0 ==> r == Ok(0)
    ensures r.Err? ==> r.error.Overflow?
    ensures a != 0 && b != 0 ==>
              (r.Err? <==> a == MinValue || b == MinValue || Wrap(a * b) == MinValue)
    ensures MinValue < a * b <= MaxValue ==> r == Ok(LcmOf(a, b))
  {
    if a == 0 || b == 0 then
      Ok(0)
    else
      ProductInRangeHasNoMinValueFactor(a, b);
      var p :- Abs(Wrap(a * b));
      var g :- GreatestCommonDivisor(a, b);
      ExactProductLcm(a, b, p, g);
      Ok(Quot(p, g))
  }

  /** When a * b does not overflow, |a * b| / gcd is the least common
      multiple. */
  lemma ExactProductLcm(a: int32, b: int32, p: int, g: int)
    requires a != 0 && b != 0 && IsGcd(g, a, b) && Abs(Wrap(a * b)) == Ok(p)
    ensures 0 < g
    ensures MinValue < a * b <= MaxValue ==> Quot(p, g) == LcmOf(a, b)
  {
    GcdOfNonzeroIsPositive(g, a, b);
    if MinValue < a * b <= MaxValue {
      var x, y := Magnitude(a), Magnitude(b);
      ProductInRangeHasNoMinValueFactor(a, b);
      MagnitudeOfProduct(a, b);
      assert p == Magnitude(a * b) == x * y;
      GcdOfMagnitudes(g, x, y, a, b);
      QuotientIsLcm(x, y, g);
      LcmOfMagnitudes(LcmOf(a, b), x, y, a, b);
      LcmUnique(x * (y / g), LcmOf(a, b), x, y);
    }
  }

  /** A product of nonzero numbers that fits in 32 bits, other than
      int.MinValue itself, has no int.MinValue factor. */
  lemma ProductInRangeHasNoMinValueFactor(a: int32, b: int32)
    requires a != 0 && b != 0
    ensures MinValue < a * b <= MaxValue ==> a != MinValue && b != MinValue
  {
    MagnitudeOfProduct(a, b);
    MultiplyAtLeast(Magnitude(a), Magnitude(b));
  }

  /** For positive numbers, x * y / gcd is x * (y / gcd), their least
      common multiple. */
  lemma QuotientIsLcm(x: nat, y: nat, g: int)
    requires 0 < x && 0 < y && IsGcd(g, x, y)
    ensures 0 < g
    ensures Quot(x * y, g) == x * (y / g)
    ensures IsLcm(x * (y / g), x, y)
  {
    LcmFromGcd(x, y, g);
    DividesWitness(g, y);
    var y' := y / g;
    assert x * y == g * (x * y') by {
      assert x * y == x * (g * y');
    }
    DivModUnique(x * y, g, x * y', 0);
  }

  /** LeastCommonMultiple corrected to divide a by the greatest common
      divisor before multiplying by b, and to take the magnitude last: it
      is the least common multiple whenever that fits in 32 bits. */
  function LeastCommonMultipleCorrected(a: int32, b: int32): (r: Result<int32>)
    ensures a == 0 || b == 0 ==> r == Ok(0)
    ensures r.Err? ==> r.error.Overflow?
    ensures a != 0 && b != 0 && (a == MinValue || b == MinValue) ==> r.Err?
    ensures a != MinValue && b != MinValue && LcmOf(a, b) <= MaxValue ==> r == Ok(LcmOf(a, b))
  {
    if a == 0 || b == 0 then
      Ok(0)
    else
      var g :- GreatestCommonDivisor(a, b);
      GcdOfNonzeroIsPositive(g, a, b);
      DividedFirstLcm(a, b, g);
      Abs(Wrap(Quot(a, g) * b))
  }

  /** Dividing a by the gcd before multiplying by b gives the least common
      multiple up to sign, without an intermediate that can overflow. */
  lemma DividedFirstLcm(a: int32, b: int32, g: int)
    requires a != 0 && b != 0 && IsGcd(g, a, b)
    ensures 0 < g
    ensures LcmOf(a, b) <= MaxValue ==> Abs(Wrap(Quot(a, g) * b)) == Ok(LcmOf(a, b))
  {
    var q := Quot(a, g);
    DividedFirstMagnitude(a, b, g);
    if LcmOf(a, b) <= MaxValue {
      assert InRange(q * b);
    }
  }

  /** |(a / gcd) * b| is the least common multiple, as an unbounded number. */
  lemma DividedFirstMagnitude(a: int32, b: int32, g: int)
    requires a != 0 && b != 0 && IsGcd(g, a, b)
    ensures 0 < g
    ensures Magnitude(Quot(a, g) * b) == LcmOf(a, b)
  {
    var x, y := Magnitude(a), Magnitude(b);
    var q := Quot(a, g);
    GcdOfMagnitudes(g, x, y, a, b);
    QuotientIsLcm(x, y, g);
    LcmOfMagnitudes(LcmOf(a, b), x, y, a, b);
    LcmUnique(x * (y / g), LcmOf(a, b), x, y);
    assert q * g == a;
    MagnitudeOfProduct(q, b);
    MagnitudeOfProduct(q, g);
    DividesWitness(g, y);
    Regroup(Magnitude(q), g, y / g);
  }

  /** (q * g) * y' == q * (g * y'), for the regrouping above. */
  lemma Regroup(q: int, g: int, y': int)
    ensures (q * g) * y' == q * (g * y')
  {
  }

  /** GCD(a, 0) is |a|, and GCD(0, 0) is 0. */
  lemma GcdWithZeroOperand(a: int32)
    requires a != MinValue
    ensures GreatestCommonDivisor(a, 0) == Ok(Magnitude(a))
    ensures GreatestCommonDivisor(0, a) == Ok(Magnitude(a))
  {
    GcdWithZero(Magnitude(a));
    GcdOfMagnitudes(Magnitude(a), a, 0, Magnitude(a), 0);
    GcdUnique(GreatestCommonDivisor(a, 0).value, Magnitude(a), a, 0);
    GcdSymmetric(Magnitude(a), a, 0);
    GcdUnique(GreatestCommonDivisor(0, a).value, Magnitude(a), 0, a);
  }

  /** The greatest common divisor does not depend on the operand order. */
  lemma GcdSymmetric(g: int, a: int, b: int)
    requires IsGcd(g, a, b)
    ensures IsGcd(g, b, a)
  {
  }

  /** The cases of the calculator's unit tests. */
  lemma GcdUnitTestCases()
    ensures GreatestCommonDivisor(48, 18) == Ok(6)
    ensures GreatestCommonDivisor(56, 42) == Ok(14)
    ensures GreatestCommonDivisor(17, 13) == Ok(1)
    ensures GreatestCommonDivisor(-12, 8) == Ok(4)
  {
  }

  /** LeastCommonMultiple(65536, 65536) as written: the product 2^32 wraps
      to 0, so the result is 0, which is not the least common multiple
      65536 although 65536 fits in 32 bits; the corrected version returns
      it. */
  lemma LcmOverflowCounterexample()
    ensures LeastCommonMultiple(65536, 65536) == Ok(0)
    ensures LcmOf(65536, 65536) == 65536
    ensures LeastCommonMultipleCorrected(65536, 65536) == Ok(65536)
  {
    MultipleIsDivisible(65536, 1);
    assert IsLcm(65536, 65536, 65536);
    LcmUnique(65536, LcmOf(65536, 65536), 65536, 65536);
  }
}

