/** Factorial of the calculator (SampleApp/Calculator.cs): an accumulator
    loop over 32-bit ints, which wraps silently from 13! on. */
module Factorials {
  import opened Outcomes
  import opened Int32

  /** n!, the product 1 * 2 * ... * n, as an unbounded number. */
  function Fact(n: nat): nat {
    if n == 0 then 1 else n * Fact(n - 1)
  }

  /** The largest n whose factorial fits in a 32-bit int. */
  const LargestExactFactorial: nat := 12

  /** Factorial (Calculator.cs) as written: ArgumentException for a
      negative n, 1 for 0 and 1, otherwise the product 2 * 3 * ... * n in
      wrapping 32-bit arithmetic, which is n! itself up to 12!. At
      int.MaxValue the source never returns (see CounterNeverExceedsBound),
      so that input is excluded here. */
  function Factorial(n: int32): (r: Result<int32>)
    requires n < MaxValue
    ensures r.Err? <==> n < 0
    ensures r.Err? ==> r.error.InvalidArgument?
    ensures r.Ok? ==> r.value == Wrap(Fact(n))
    ensures 0 <= n <= LargestExactFactorial ==> r == Ok(Fact(n))
  {
    FactorialCorrected(n)
  }

  /** Factorial with a loop counter that cannot wrap: the same results as
      written below int.MaxValue, and at int.MaxValue the wrapped product
      instead of a loop that never ends. */
  function FactorialCorrected(n: int32): (r: Result<int32>)
    ensures r.Err? <==> n < 0
    ensures r.Err? ==> r.error.InvalidArgument?
    ensures r.Ok? ==> r.value == Wrap(Fact(n))
    ensures 0 <= n <= LargestExactFactorial ==> r == Ok(Fact(n))
  {
    if n < 0 then
      Err(InvalidArgument("Factorial cannot be calculated for negative numbers"))
    else if n == 0 || n == 1 then
      Ok(1)
    else
      FactorialFits(n);
      Ok(FactorialLoop(n, 2, 1))
  }

  /** The accumulator loop over the counters 2..n, multiplying the
      accumulator by each counter in wrapping 32-bit arithmetic. Its
      invariant: the accumulator holds (i - 1)! wrapped to 32 bits. The
      counter is an unbounded integer, so the loop also ends for
      n = int.MaxValue. */
  function FactorialLoop(n: int32, i: int, acc: int32): (r: int32)
    requires 2 <= i <= n as int + 1
    requires acc == Wrap(Fact(i - 1))
    ensures r == Wrap(Fact(n))
    decreases n as int + 1 - i
  {
    if i > n then
      acc
    else
      var prev := Fact(i - 1);
      assert Fact(i) == prev * i;
      WrapOfProduct(prev, i);
      var next := Wrap(acc as int * i);
      assert next == Wrap(Fact(i));
      FactorialLoop(n, i + 1, next)
  }

  /** As written the loop counter is a 32-bit int and the loop runs while
      it is at most n. For n = int.MaxValue that test holds for every
      counter value, and incrementing past int.MaxValue wraps to
      int.MinValue, so the loop never exits. */
  lemma CounterNeverExceedsBound(i: int32)
    ensures i <= MaxValue
    ensures Wrap(i as int + 1) <= MaxValue
    ensures i == MaxValue ==> Wrap(i as int + 1) == MinValue
  {
  }

  /** Factorials grow with their argument. */
  lemma {:induction false} FactMonotone(m: nat, n: nat)
    requires m <= n
    ensures Fact(m) <= Fact(n)
    decreases n - m
  {
    if m < n {
      FactMonotone(m, n - 1);
      assert Fact(n) == n * Fact(n - 1);
      MultiplyAtLeastOne(n, Fact(n - 1));
    }
  }

  /** Multiplying by a positive factor does not shrink a natural number. */
  lemma MultiplyAtLeastOne(k: nat, x: nat)
    requires 1 <= k
    ensures x <= k * x
  {
    assert k * x - x == (k - 1) * x;
  }

  /** Each result is the previous one times the next number, in unchecked
      32-bit arithmetic, as the accumulator is updated in the loop. */
  lemma FactorialStep(n: int32)
    requires 0 <= n < MaxValue - 1
    ensures Factorial(n).Ok? && Factorial(n + 1).Ok?
    ensures Factorial(n + 1).value == Wrap(Factorial(n).value as int * (n + 1))
  {
    var r, next := Factorial(n), Factorial(n + 1);
    assert r.value == Wrap(Fact(n)) && next.value == Wrap(Fact(n + 1));
    assert Fact(n + 1) == Fact(n) * (n + 1);
    WrapOfProduct(Fact(n), n + 1);
  }

  /** Up to 12!, factorials fit in 32 bits. */
  lemma FactorialFits(n: nat)
    ensures n <= LargestExactFactorial ==> Fact(n) <= MaxValue
  {
    if n <= LargestExactFactorial {
      FactMonotone(n, LargestExactFactorial);
      assert Fact(12) == 479001600;
    }
  }

  /** 13! is the first factorial that does not fit: Factorial(13) returns
      13! wrapped to 32 bits. */
  lemma FactorialOverflowsAtThirteen()
    ensures Fact(13) > MaxValue
    ensures Factorial(13) == Ok(1932053504)
  {
    assert Fact(13) == 6227020800;
  }

  /** The cases of the calculator's unit tests. */
  lemma FactorialUnitTestCases()
    ensures Factorial(0) == Ok(1) && Factorial(1) == Ok(1)
    ensures Factorial(3) == Ok(6) && Factorial(5) == Ok(120)
    ensures Factorial(-1).Err? && Factorial(-1).error.InvalidArgument?
  {
  }
}
