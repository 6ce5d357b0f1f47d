# Calculator number theory and statistics, in Dafny

This project models the `Calculator` class of the SampleApp repository
(`SampleApp/Calculator.cs`): its integer number theory (`IsEven`,
`Factorial`, `GreatestCommonDivisor`, `LeastCommonMultiple`, `IsPrime`,
`FibonacciSequence`), its ordering-based statistics (`Median`, `Max`,
`Min`, `Average`), and the guards of `Divide` and `Percentage`.

Every operation is a pure function. An exception the C# code throws becomes
an `Err` value of `Outcomes.Result`, tagged with the exception's kind:

- `InvalidArgument` for `ArgumentException`;
- `DivideByZero` for `DivideByZeroException`;
- `Overflow` for the `OverflowException` that `Math.Abs(int.MinValue)` throws.

The C# `int` is the subset type `Int32.int32`. The source compiles its
arithmetic unchecked, so a sum or product that leaves the 32-bit range is
wrapped by `Int32.Wrap`. C#'s truncating `%` and `/` are `Int32.Rem` and
`Int32.Quot`. A `double` is an exact `real`, without NaN. A C# loop is a
tail-recursive function whose parameters are the loop variables and whose
precondition is the loop invariant.

Each operation is related to an independent definition:

- `Divisibility.Divides`, `IsGcd`, `IsLcm` and `IsPrimeNumber` define
  divisibility, the greatest common divisor, the least common multiple and
  primality declaratively.
- `Factorials.Fact` and `Fibonacci.Fib` are the mathematical sequences.
- `Sorting.IsSorted` with multiset equality says what a sorted copy is.
- `Statistics.IsMaximum` and `IsMinimum` say what a maximum and a minimum are.

Modules follow the source: `Outcomes` (errors), `Int32` (C# `int`
semantics), `Divisibility` (number theory), `Arithmetic` (`IsEven`, `Divide`,
`Percentage`), `Factorials`, `Gcd` (GCD and LCM), `Primes`, `Fibonacci`,
`Sorting` (`OrderBy`) and `Statistics` (`Max`, `Min`, `Median`, `Average`).

## Model

| member | source | states |
|---|---|---|
| Int32.Wrap | SampleApp/Calculator.cs:44 | An unchecked 32-bit result differs from the exact result by a multiple of 2^32 and equals it when the exact result fits |
| Int32.WrapOfSum | SampleApp/Calculator.cs:111 | Adding already-wrapped operands wraps to the same value as wrapping the exact sum |
| Int32.WrapOfProduct | SampleApp/Calculator.cs:44 | Multiplying an already-wrapped factor wraps to the same value as wrapping the exact product |
| Int32.Rem | SampleApp/Calculator.cs:71 | C#'s `%` differs from the dividend by a multiple of the divisor, takes the dividend's sign, is smaller than the divisor in magnitude, and is zero exactly when the divisor divides the dividend |
| Int32.Quot | SampleApp/Calculator.cs:82 | C#'s `/` is the quotient that goes with `%`, exact when the divisor divides, and between 0 and the dividend for a non-negative dividend |
| Int32.Abs | SampleApp/Calculator.cs:65-66 | Math.Abs fails with Overflow exactly for int.MinValue, otherwise returns the non-negative one of x and -x |
| Arithmetic.IsEven | SampleApp/Calculator.cs:28-31 | True exactly when 2 divides the number, negative numbers and zero included |
| Arithmetic.IsEvenAlternates | SampleApp/Calculator.cs:28-31 | Consecutive numbers have opposite parity |
| Arithmetic.IsEvenIgnoresSign | SampleApp/Calculator.cs:28-31 | A number and its negation have the same parity |
| Arithmetic.IsEvenUnitTestCases | SampleApp.Tests/UnitTest1.cs:96-109 | 2, 0 and -2 are even; 3 and -3 are not |
| Arithmetic.Divide | SampleApp/Calculator.cs:20-26 | Fails with DivideByZero exactly for a zero divisor; otherwise the result times the divisor is the dividend |
| Arithmetic.DivideUnitTestCases | SampleApp.Tests/UnitTest1.cs:71-94 | 15 / 3 is 5.0 and 10 / 0 fails with DivideByZero |
| Arithmetic.Percentage | SampleApp/Calculator.cs:117-123 | Fails with DivideByZero exactly for a zero total; otherwise the result times the total is 100 times the value |
| Arithmetic.PercentageUnitTestCases | SampleApp.Tests/UnitTest1.cs:272-291 | 25 of 100 and 50 of 200 are 25 percent, 75 of 150 is 50 percent, and a zero total fails with DivideByZero |
| Factorials.Factorial | SampleApp/Calculator.cs:33-47 | As written, for n below int.MaxValue: fails with InvalidArgument exactly for negative n; otherwise returns n! wrapped to 32 bits, which is n! itself for n up to 12 (1 for 0 and 1) |
| Factorials.FactorialCorrected | SampleApp/Calculator.cs:33-47 | With a counter that cannot wrap, for every int n: fails with InvalidArgument exactly for negative n; otherwise returns n! wrapped to 32 bits, which is n! itself for n up to 12 |
| Factorials.FactorialLoop | SampleApp/Calculator.cs:41-46 | Starting from an accumulator that holds (i-1)! wrapped, the loop ends with n! wrapped |
| Factorials.CounterNeverExceedsBound | SampleApp/Calculator.cs:42 | Every 32-bit counter is at most int.MaxValue, and incrementing int.MaxValue wraps to int.MinValue, so the guard for n = int.MaxValue never becomes false |
| Factorials.FactorialStep | SampleApp/Calculator.cs:42-45 | Each result is the previous one times the next number in unchecked 32-bit arithmetic |
| Factorials.FactorialFits | SampleApp/Calculator.cs:33-47 | Factorials up to 12! fit in a 32-bit int |
| Factorials.FactorialOverflowsAtThirteen | SampleApp/Calculator.cs:44 | 13! does not fit in 32 bits, and Factorial(13) returns it wrapped, 1932053504 |
| Factorials.FactorialUnitTestCases | SampleApp.Tests/UnitTest1.cs:111-133 | 0! = 1! = 1, 3! = 6, 5! = 120, and -1 fails with InvalidArgument |
| Gcd.Euclid | SampleApp/Calculator.cs:68-74 | Euclid's loop on non-negative values yields their greatest common divisor: a non-negative common divisor that every common divisor divides |
| Gcd.EuclidStep | SampleApp/Calculator.cs:70-72 | Replacing (x, y) by (y, x % y) keeps the greatest common divisor |
| Gcd.GreatestCommonDivisor | SampleApp/Calculator.cs:63-75 | Fails with Overflow exactly when an operand is int.MinValue; otherwise returns the greatest common divisor of the two signed operands |
| Gcd.GcdWithZeroOperand | SampleApp/Calculator.cs:63-75 | GCD(a, 0) and GCD(0, a) are both abs(a), so GCD(0, 0) is 0 |
| Gcd.GcdUnitTestCases | SampleApp.Tests/UnitTest1.cs:175-187 | GCD(48, 18) = 6, GCD(56, 42) = 14, GCD(17, 13) = 1, GCD(-12, 8) = 4 |
| Gcd.LcmFromGcd | SampleApp/Calculator.cs:82 | For positive x and y, x * (y / gcd) is a common multiple that divides every common multiple |
| Gcd.LeastCommonMultiple | SampleApp/Calculator.cs:77-83 | Returns 0 when an operand is 0. For nonzero operands it fails with Overflow exactly when an operand or the wrapped product is int.MinValue. It returns the least common multiple whenever the exact product fits in 32 bits |
| Gcd.LcmOverflowCounterexample | SampleApp/Calculator.cs:82 | For 65536 and 65536 the as-written result is 0, although the least common multiple 65536 fits, and the corrected version returns 65536 |
| Gcd.LeastCommonMultipleCorrected | SampleApp/Calculator.cs:77-83 | Dividing before multiplying: 0 for a zero operand, Overflow for int.MinValue, and the least common multiple whenever it fits in 32 bits |
| Primes.IsPrimeWith | SampleApp/Calculator.cs:85-97 | The branches of IsPrime never call a composite prime; they find every prime when the guard's square is exact or the number is below 2147117569; with the wrapping guard they reject int.MaxValue |
| Primes.GuardSquare | SampleApp/Calculator.cs:91 | The guard's square of the candidate: exact when widened or when it fits, otherwise a value in the int range congruent to the true square modulo 2^32 |
| Primes.GuardWrapsAfter46337 | SampleApp/Calculator.cs:91 | The as-written guard's square is exact at the candidate 46337 (2147117569) and negative at the next candidate, 46343 |
| Primes.TrialDivision | SampleApp/Calculator.cs:91-96 | With no divisor of n in [2, i) and i = 5 mod 6, the loop answers true only for primes, finds every prime wherever its guard square is exact, and never accepts int.MaxValue with the wrapping guard |
| Primes.TrialStep | SampleApp/Calculator.cs:91-95 | Testing only i and i + 2 suffices: after a step, no number in [2, i + 6) divides n, and i + 6 is still at most n |
| Primes.NoDivisorBelowRoot | SampleApp/Calculator.cs:91 | A number with no divisor below a bound whose square exceeds it is prime |
| Primes.IsPrime | SampleApp/Calculator.cs:85-97 | As written: true only for primes, exactly the primes below 2147117569, and false for int.MaxValue |
| Primes.IsPrimeCorrected | SampleApp/Calculator.cs:85-97 | With a 64-bit square in the loop guard: true exactly for the primes |
| Primes.IsPrimeUnitTestCases | SampleApp.Tests/UnitTest1.cs:193-209 | 2, 3, 17 and 29 are prime; 1, 4, 15 and 25 are not |
| Fibonacci.FibonacciSequence | SampleApp/Calculator.cs:99-115 | Fails with InvalidArgument exactly for a count that is not positive. Otherwise it returns count terms, term k being Fib(k) wrapped to 32 bits, and exactly Fib(k) for counts up to 47 |
| Fibonacci.FibonacciLoop | SampleApp/Calculator.cs:109-112 | From a prefix of the wrapped Fibonacci numbers, the loop extends it to exactly count wrapped Fibonacci numbers |
| Fibonacci.FibonacciFollowsRecurrence | SampleApp/Calculator.cs:106-111 | The list starts 0, 1, and each later term is the unchecked sum of the two before it |
| Fibonacci.FibFits | SampleApp/Calculator.cs:111 | The first 47 Fibonacci numbers fit in 32 bits |
| Fibonacci.FibonacciWrapsAtFortyEight | SampleApp/Calculator.cs:111 | With 48 terms, the last one, Fib(47), wraps to a negative number |
| Fibonacci.FibonacciUnitTestCases | SampleApp.Tests/UnitTest1.cs:211-231 | The lists for 1, 2, 5 and 8 terms are the expected ones, and counts 0 and -5 fail |
| Sorting.Insert | SampleApp/Calculator.cs:139 | Inserting into an ascending sequence gives an ascending sequence holding exactly one more copy of the value |
| Sorting.SortAscending | SampleApp/Calculator.cs:139 | OrderBy returns an ascending permutation of its input |
| Sorting.SortedPermutationsEqual | SampleApp/Calculator.cs:139 | Two ascending permutations of the same numbers are equal, so the sorted copy is unique |
| Statistics.Max | SampleApp/Calculator.cs:152-158 | Fails with InvalidArgument exactly for no numbers; otherwise returns one of the numbers that none exceeds |
| Statistics.MaxFrom | SampleApp/Calculator.cs:157 | The scan from index i, holding the maximum of the first i numbers, ends with the maximum of all of them |
| Statistics.Min | SampleApp/Calculator.cs:160-166 | Fails with InvalidArgument exactly for no numbers; otherwise returns one of the numbers that none is below |
| Statistics.MinFrom | SampleApp/Calculator.cs:165 | The scan from index i, holding the minimum of the first i numbers, ends with the minimum of all of them |
| Statistics.ExtremesIgnoreOrder | SampleApp/Calculator.cs:152-166 | Max and Min give the same results on any rearrangement of the numbers |
| Statistics.MiddleOf | SampleApp/Calculator.cs:140-149 | The value picked from the sorted copy: an element of it for an odd count; on ascending input it lies between the first and last elements, with the lower half of the elements at most it and the upper half at least it |
| Statistics.Median | SampleApp/Calculator.cs:134-150 | Fails with InvalidArgument exactly for no numbers. Otherwise, for every ascending arrangement of the numbers, it returns the middle element for an odd count and the mean of the two middle elements for an even count |
| Statistics.MedianIgnoresOrder | SampleApp/Calculator.cs:134-150 | The median of any rearrangement of the numbers is the same |
| Statistics.MedianBetweenMinAndMax | SampleApp/Calculator.cs:134-166 | The median lies between Min and Max |
| Statistics.MedianOfSorted | SampleApp/Calculator.cs:139-149 | On ascending input the median is the middle of the input itself |
| Statistics.MedianOddCountTestCase | SampleApp.Tests/UnitTest1.cs:257 | The median of 1, 2, 3, 4, 5 is 3 |
| Statistics.MedianEvenCountTestCase | SampleApp.Tests/UnitTest1.cs:258 | The median of 1, 2, 3, 4 is 2.5 |
| Statistics.MedianSingleTestCase | SampleApp.Tests/UnitTest1.cs:259 | The median of 7 alone is 7 |
| Statistics.Average | SampleApp/Calculator.cs:126-132 | Fails with InvalidArgument exactly for no numbers; otherwise returns the mean, the number that times the count gives the sum, which lies between Min and Max |
| Statistics.SumOfConcat | SampleApp/Calculator.cs:131 | The sum behind the average is additive: the sum of two runs of numbers is the sum of their sums |
| Statistics.SumIgnoresOrder | SampleApp/Calculator.cs:131 | The sum behind the average is the same for any rearrangement of the numbers |
| Statistics.AverageIgnoresOrder | SampleApp/Calculator.cs:126-132 | The average of any rearrangement of the numbers is the same |
| Statistics.AverageUnitTestCases | SampleApp.Tests/UnitTest1.cs:235-254 | The average of 10, 20, 30, 40, 50 is 30, and no numbers fail with InvalidArgument |

## Left out

- `SampleApp/Program.cs` is console I/O around the calculator and is not modelled.
- `Add`, `Subtract` and `Multiply` are single unchecked 32-bit operations. `Int32.Wrap` covers them, and they have no model of their own.
- `Power`, `SquareRoot`, `CalculateCompoundInterest` and the temperature and distance conversions are not modelled. They are floating-point formulas over `Math.Pow` and `Math.Sqrt`.
- Arithmetic.Divide: the result is the exact real quotient. IEEE-754 rounding of `(double)a / b` is not modelled.
- Arithmetic.Percentage: the result is the exact real value. Rounding, infinities and NaN are not modelled.
- Statistics.Average: the result is the exact mean of exact reals. The floating-point rounding of LINQ's summation and division is not modelled, so the order independence that SumIgnoresOrder and AverageIgnoresOrder prove does not hold bit for bit for doubles.
- Statistics.Median: ties and ordering are those of exact reals. NaN, which LINQ `OrderBy` sorts first, is not modelled. The same holds for Max and Min.
- A `null` array and an empty array both become the empty sequence. They throw the same exception in the source.
- Median sorts a copy and leaves the caller's array alone. In the model this holds by construction, because sequences are values; no contract states it.
- Factorials.Factorial: requires n < int.MaxValue. For n = int.MaxValue the C# loop never ends (see Findings), and a total function cannot express a call that does not return. FactorialCorrected covers that input.
- Int32.Abs: the `Overflow` error kind is a third kind beside `InvalidArgument` and `DivideByZero`. `Math.Abs(int.MinValue)` throws `OverflowException`, which is neither of the other two.
- Primes.IsPrime: the model does not prove that 2147483647 (2^31 - 1) is prime. That fact is what makes the result false for it a wrong answer (see Findings); the model proves only that the as-written result is false there. Between 2147117569 and int.MaxValue the as-written result is proved sound but not proved complete.

## Findings

| source | as written | input that shows it | evidently intended | confidence | as-written member | corrected member |
|---|---|---|---|---|---|---|
| SampleApp/Calculator.cs:91 | The guard `i * i <= number` squares in unchecked 32-bit arithmetic. From i = 46343 on, the square wraps past int.MaxValue, so the guard is never false for int.MaxValue. The loop then runs until `i + 2` reaches the number and answers false | 2147483647 (2^31 - 1, a Mersenne prime): IsPrime returns false | Compute the square without wrapping, e.g. `(long)i * i <= number`. IsPrime is then exact on every int | not executed; the primality of 2^31 - 1 is the classical result, not proved here | Primes.IsPrime | Primes.IsPrimeCorrected |
| SampleApp/Calculator.cs:82 | `Math.Abs(a * b)` multiplies before dividing by the GCD, so the unchecked product wraps even when the least common multiple fits | (65536, 65536): the product 2^32 wraps to 0 and the result is 0 instead of 65536 | Divide first, `Math.Abs(a / GreatestCommonDivisor(a, b) * b)`. The result is then the least common multiple whenever that fits | not executed | Gcd.LeastCommonMultiple, Gcd.LcmOverflowCounterexample | Gcd.LeastCommonMultipleCorrected |
| SampleApp/Calculator.cs:42 | The loop counter is a 32-bit int tested with `i <= n`. For n = int.MaxValue the test holds for every counter value, and the increment past int.MaxValue wraps to int.MinValue | 2147483647: Factorial never returns | Let the loop end for every n, e.g. with a 64-bit counter. The result is then n! wrapped to 32 bits, as for every other large n | not executed | Factorials.Factorial, Factorials.CounterNeverExceedsBound | Factorials.FactorialCorrected |
