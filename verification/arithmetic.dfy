/** The parity test and the two division guards of the calculator
    (SampleApp/Calculator.cs). Doubles are modelled as exact reals: the
    quotients below are the values the source's doubles round. */
module Arithmetic {
  import opened Outcomes
  import opened Int32
  import opened Divisibility

  /** IsEven (Calculator.cs): a zero test of the number's truncating
      remainder by 2, which is zero exactly when 2 divides the number, negative
      numbers and 0 included. */
  function IsEven(n: int32): (r: bool)
    ensures r <==> Divides(2, n)
  {
    Rem(n, 2) == 0
  }

  /** Consecutive numbers have opposite parity. */
  lemma IsEvenAlternates(n: int32)
    requires n < MaxValue
    ensures IsEven(n + 1) <==> !IsEven(n)
  {
  }

  /** Parity does not depend on sign. */
  lemma IsEvenIgnoresSign(n: int32)
    requires n != MinValue
    ensures IsEven(-n) <==> IsEven(n)
  {
    DividesIgnoresSign(2, n);
  }

  /** The cases of the calculator's unit tests. */
  lemma IsEvenUnitTestCases()
    ensures IsEven(2) && !IsEven(3) && IsEven(0) && IsEven(-2) && !IsEven(-3)
  {
  }

  /** Divide (Calculator.cs): DivideByZeroException for a zero divisor,
      otherwise the quotient of the two ints. */
  function Divide(a: int32, b: int32): (r: Result<real>)
    ensures r.Err? <==> b == 0
    ensures r.Err? ==> r.error.DivideByZero?
    ensures r.Ok? ==> r.value * b as real == a as real
  {
    if b == 0 then
      Err(DivideByZero("Cannot divide by zero"))
    else
      Ok(a as real / b as real)
  }

  /** The cases of the calculator's unit tests of Divide. */
  lemma DivideUnitTestCases()
    ensures Divide(15, 3) == Ok(5.0)
    ensures Divide(10, 0).Err? && Divide(10, 0).error.DivideByZero?
  {
  }

  /** Percentage (Calculator.cs): DivideByZeroException for a zero total,
      otherwise what percentage of the total the value is. */
  function Percentage(value: real, total: real): (r: Result<real>)
    ensures r.Err? <==> total == 0.0
    ensures r.Err? ==> r.error.DivideByZero?
    ensures r.Ok? ==> r.value * total == value * 100.0
  {
    if total == 0.0 then
      Err(DivideByZero("Total cannot be zero"))
    else
      Ok((value / total) * 100.0)
  }

  /** The cases of the calculator's unit tests of Percentage. */
  lemma PercentageUnitTestCases()
    ensures Percentage(25.0, 100.0) == Ok(25.0)
    ensures Percentage(50.0, 200.0) == Ok(25.0)
    ensures Percentage(75.0, 150.0) == Ok(50.0)
    ensures Percentage(50.0, 0.0).Err? && Percentage(50.0, 0.0).error.DivideByZero?
  {
  }
}
