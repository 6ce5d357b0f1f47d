/** IsPrime of the calculator (SampleApp/Calculator.cs): trial division by
    2, 3 and then by the pairs 6k - 1, 6k + 1 while their square is at most
    the candidate. */
module Primes {
  import opened Int32
  import opened Divisibility

  /** 46337 * 46337, the square of the last candidate whose square fits in
      32 bits. Below it the loop exits before i reaches 46343, whose square
      wraps. */
  const WrapFreeBound: int := 2147117569

  /** IsPrime as written. It never calls a composite number prime, and is
      exact below WrapFreeBound; from there on the unchecked square `i * i`
      in the loop guard can wrap to a negative number, keeping the loop
      going until `i` or `i + 2` reaches the number itself, so that
      IsPrime(int.MaxValue) is false although 2^31 - 1 is prime. */
  function IsPrime(n: int32): (r: bool)
    ensures r ==> IsPrimeNumber(n)
    ensures n < WrapFreeBound ==> (r <==> IsPrimeNumber(n))
    ensures n == MaxValue ==> !r
  {
    IsPrimeWith(n, false)
  }

  /** IsPrime with the loop guard's square widened to 64 bits before the
      comparison: exact on every 32-bit input. */
  function IsPrimeCorrected(n: int32): (r: bool)
    ensures r <==> IsPrimeNumber(n)
  {
    IsPrimeWith(n, true)
  }

  /** The body of IsPrime; `wide` selects a 64-bit square in the loop guard
      instead of the source's unchecked 32-bit one. */
  function IsPrimeWith(n: int32, wide: bool): (r: bool)
    ensures r ==> IsPrimeNumber(n)
    ensures wide || (n < WrapFreeBound) ==> (IsPrimeNumber(n) ==> r)
    ensures !wide && n == MaxValue ==> !r
  {
    if n <= 1 then
      false
    else if n <= 3 then
      true
    else if Rem(n, 2) == 0 || Rem(n, 3) == 0 then
      NotPrimeWithDivisor(n, if Rem(n, 2) == 0 then 2 else 3);
      false
    else
      NoDivisorBelowFive(n);
      TrialDivision(n, 5, wide)
  }

  /** The square of the candidate as the loop guard computes it: the true
      square in 64 bits; in the source's 32 bits, the true square while it
      fits and otherwise a value in the int range congruent to it modulo
      2^32. */
  function GuardSquare(i: int32, wide: bool): (r: int)
    ensures wide || i * i <= MaxValue ==> r == i * i
    ensures !wide ==> InRange(r) && (i * i - r) % Modulus == 0
  {
    if wide then i * i else Wrap(i * i)
  }

  /** The trial-division loop over the candidates 5, 11, 17, ..., which
      runs while the guard's square of the candidate is at most the number
      and answers false as soon as the candidate or the candidate plus 2
      divides it. Its invariant:
      nothing in [2, i) divides the number, and `i` is 5 more than a
      multiple of 6. */
  function TrialDivision(n: int32, i: int32, wide: bool): (r: bool)
    requires 5 <= i <= n && i % 6 == 5 && (n % 6 == 1 || n % 6 == 5)
    requires forall d :: 2 <= d < i ==> !Divides(d, n)
    ensures r ==> IsPrimeNumber(n)
    ensures wide || (n < WrapFreeBound && i <= 46337) ==> (IsPrimeNumber(n) ==> r)
    ensures !wide && n == MaxValue ==> !r
    decreases n - i
  {
    if GuardSquare(i, wide) > n then
      GuardExceeded(n, i, wide);
      true
    else if Rem(n, i) == 0 || Rem(n, i + 2) == 0 then
      DivisorFound(n, i, wide);
      false
    else
      TrialStep(n, i);
      GuardWithinRange(n, i, wide);
      TrialDivision(n, i + 6, wide)
  }

  /** The as-written guard's square is exact up to the candidate 46337 and
      wraps to a negative number at the next candidate, 46343. */
  lemma GuardWrapsAfter46337()
    ensures GuardSquare(46337, false) == 46337 * 46337 == WrapFreeBound
    ensures GuardSquare(46343, false) == 46343 * 46343 - Modulus < 0
  {
  }

  /** Leaving the loop through its guard is right: the number is prime,
      and the as-written guard cannot let int.MaxValue out. */
  lemma GuardExceeded(n: int32, i: int32, wide: bool)
    requires 5 <= i <= n && GuardSquare(i, wide) > n
    requires forall d :: 2 <= d < i ==> !Divides(d, n)
    ensures IsPrimeNumber(n)
    ensures !wide ==> n != MaxValue
  {
    SquareBeyond(n, i, wide);
    NoDivisorBelowRoot(n, i);
  }

  /** Returning false from the loop body is right wherever the guard is
      exact: the divisor found is below the number. */
  lemma DivisorFound(n: int32, i: int32, wide: bool)
    requires 5 <= i <= n && GuardSquare(i, wide) <= n
    requires Rem(n, i) == 0 || Rem(n, i + 2) == 0
    ensures wide || (n < WrapFreeBound && i <= 46337) ==> !IsPrimeNumber(n)
  {
    GuardWithinRange(n, i, wide);
    if wide || (n < WrapFreeBound && i <= 46337) {
      NotPrimeWithDivisor(n, if Rem(n, i) == 0 then i else i + 2);
    }
  }

  /** A number with a divisor strictly between 1 and itself is not prime. */
  lemma NotPrimeWithDivisor(n: int, d: int)
    requires 2 <= d < n && Divides(d, n)
    ensures !IsPrimeNumber(n)
  {
  }

  /** A number divisible by neither 2 nor 3 has no divisor in [2, 5). */
  lemma NoDivisorBelowFive(n: int32)
    requires 4 <= n && Rem(n, 2) != 0 && Rem(n, 3) != 0
    ensures forall d :: 2 <= d < 5 ==> !Divides(d, n)
    ensures n % 6 == 1 || n % 6 == 5
  {
    RemOfNonNegative(n, 2);
    RemOfNonNegative(n, 3);
    var q, r := n / 6, n % 6;
    DivModUnique(n, 2, 3 * q + r / 2, r % 2);
    DivModUnique(n, 3, 2 * q + r / 3, r % 3);
    if Divides(4, n) {
      MultipleIsDivisible(2, 2);
      DividesTransitive(2, 4, n);
    }
  }

  /** When the guard's square exceeds the number, so does the true square. */
  lemma SquareBeyond(n: int32, i: int32, wide: bool)
    requires 0 < i && GuardSquare(i, wide) > n
    ensures i * i > n
  {
    MultiplyAtLeast(i, i);
  }

  /** Where the guard lets the loop body run and the guard is exact, the
      candidates `i` and `i + 2` are below the number; below the bound the
      next `i` stays at most 46337. */
  lemma GuardWithinRange(n: int32, i: int32, wide: bool)
    requires 5 <= i && GuardSquare(i, wide) <= n
    ensures wide || (n < WrapFreeBound && i <= 46337) ==> i * i <= n && i + 2 < n
    ensures n < WrapFreeBound && i <= 46337 && i % 6 == 5 ==> i + 6 <= 46337
  {
    if i <= 46337 {
      assert i * i <= 46337 * 46337 by {
        MultiplyMonotone(i, 46337);
      }
    }
    if wide || (n < WrapFreeBound && i <= 46337) {
      assert i * i <= n;
      assert i + 2 < i * i by {
        MultiplyMonotone(5, i);
      }
    }
  }

  /** Squaring is monotone on non-negative numbers. */
  lemma MultiplyMonotone(a: int, b: int)
    requires 0 <= a <= b
    ensures a * a <= b * b && a * b <= b * b
  {
    assert b * b - a * b == (b - a) * b;
    assert a * b - a * a == a * (b - a);
  }

  /** If no number in [2, i) divides n and i * i > n then n is prime: a
      divisor in [2, n) pairs with a cofactor, and the smaller of the two
      is at most the square root of n. */
  lemma NoDivisorBelowRoot(n: int, i: int)
    requires 2 <= n && 0 < i && i * i > n
    requires forall d :: 2 <= d < i ==> !Divides(d, n)
    ensures IsPrimeNumber(n)
  {
    forall d | 2 <= d < n
      ensures !Divides(d, n)
    {
      if Divides(d, n) {
        var small := SmallDivisor(n, d);
        if i <= small {
          MultiplyMonotone(i, small);
        }
      }
    }
  }

  /** A divisor of n strictly between 1 and n, or its cofactor, is a
      divisor whose square is at most n. */
  lemma SmallDivisor(n: int, d: int) returns (small: int)
    requires 2 <= d < n && Divides(d, n)
    ensures 2 <= small && Divides(small, n) && small * small <= n
  {
    DividesWitness(d, n);
    var e := n / d;
    DividesByCofactor(e, n, d);
    assert 2 <= e;
    small := if d <= e then d else e;
    MultiplyMonotone(small, if d <= e then e else d);
    assert n == d * e;
  }

  /** One iteration: neither `i` nor `i + 2` divides n, `i + 1`, `i + 3`
      and `i + 5` are even, and `i + 4` is a multiple of 3, so nothing in
      [2, i + 6) divides n, and `i + 6` is still at most n. */
  lemma TrialStep(n: int32, i: int32)
    requires 5 <= i <= n && i % 6 == 5 && (n % 6 == 1 || n % 6 == 5)
    requires forall d :: 2 <= d < i ==> !Divides(d, n)
    requires Rem(n, i) != 0 && Rem(n, i + 2) != 0
    ensures i + 6 <= n && (i + 6) % 6 == 5
    ensures forall d :: 2 <= d < i + 6 ==> !Divides(d, n)
  {
    MultipleIsDivisible(i, 1);
    MultipleIsDivisible(i + 2, 1);
    assert i != n && i + 2 != n;
    NextCandidateInRange(n, i);
    var k := i / 6;
    assert !Divides(2, n) && !Divides(3, n);
    forall d | i <= d < i + 6
      ensures !Divides(d, n)
    {
      if d == i + 1 {
        SharedFactor(2, d, n, 3 * k + 3);
      } else if d == i + 3 {
        SharedFactor(2, d, n, 3 * k + 4);
      } else if d == i + 5 {
        SharedFactor(2, d, n, 3 * k + 5);
      } else if d == i + 4 {
        SharedFactor(3, d, n, 2 * k + 3);
      }
    }
  }

  /** A multiple of a non-divisor of n does not divide n. */
  lemma SharedFactor(p: int, d: int, n: int, k: int)
    requires d == p * k && !Divides(p, n)
    ensures !Divides(d, n)
  {
    DividesByCofactor(p, d, k);
    if Divides(d, n) {
      DividesTransitive(p, d, n);
    }
  }

  /** Between two values of `i` the candidate n, which is 1 or 5 more than
      a multiple of 6, is not skipped. */
  lemma NextCandidateInRange(n: int, i: int)
    requires 5 <= i < n && i % 6 == 5 && (n % 6 == 1 || n % 6 == 5) && i + 2 != n
    ensures i + 6 <= n
  {
    var k, m := i / 6, n / 6;
    assert i == 6 * k + 5;
    assert n == 6 * m + n % 6;
  }

  /** The cases of the calculator's unit tests. */
  lemma IsPrimeUnitTestCases()
    ensures IsPrime(2) && IsPrime(3) && IsPrime(17) && IsPrime(29)
    ensures !IsPrime(1) && !IsPrime(4) && !IsPrime(15) && !IsPrime(25)
  {
  }
}
