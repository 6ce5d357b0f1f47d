/** The semantics of C#'s 32-bit `int` that the calculator relies on:
    unchecked wrap-around of `+` and `*`, the truncating `%` and `/`, and
    Math.Abs, which throws on overflow. */
module Int32 {
  import opened Outcomes
  import opened Divisibility

  const MinValue: int := -0x8000_0000
  const MaxValue: int := 0x7fff_ffff
  /** 2^32, the number of distinct 32-bit values. */
  const Modulus: int := 0x1_0000_0000

  type int32 = x: int | -0x8000_0000 <= x <= 0x7fff_ffff

  /** `x` is representable as a C# `int`. */
  predicate InRange(x: int) {
    MinValue <= x <= MaxValue
  }

  /** The two's-complement truncation of an unbounded integer to 32 bits:
      the value an unchecked C# `int` operation produces. */
  function Wrap(x: int): (r: int32)
    ensures (x - r) % Modulus == 0
    ensures InRange(x) ==> r == x
  {
    var m := x % Modulus;
    if m <= MaxValue then m else m - Modulus
  }

  /** Congruent integers wrap to the same 32-bit value. */
  lemma WrapCongruent(x: int, y: int, k: int)
    requires x - y == Modulus * k
    ensures Wrap(x) == Wrap(y)
  {
    assert x == Modulus * (y / Modulus + k) + y % Modulus;
    DivModUnique(x, Modulus, y / Modulus + k, y % Modulus);
  }

  /** What Wrap drops is a whole number of 2^32 steps. */
  lemma WrapQuotient(x: int) returns (k: int)
    ensures x - Wrap(x) == Modulus * k
  {
    k := if x % Modulus <= MaxValue then x / Modulus else x / Modulus + 1;
  }

  /** Wrapping the operands of an unchecked addition does not change the sum. */
  lemma WrapOfSum(x: int, y: int)
    ensures Wrap(Wrap(x) + Wrap(y)) == Wrap(x + y)
  {
    var kx := WrapQuotient(x);
    var ky := WrapQuotient(y);
    WrapCongruent(x + y, Wrap(x) + Wrap(y), kx + ky);
  }

  /** Wrapping a factor of an unchecked multiplication does not change the
      product. */
  lemma WrapOfProduct(x: int, y: int)
    ensures Wrap(Wrap(x) * y) == Wrap(x * y)
  {
    var rx := Wrap(x);
    var k := WrapQuotient(x);
    assert x * y - rx * y == Modulus * (k * y) by {
      assert x - rx == Modulus * k;
    }
    WrapCongruent(x * y, rx * y, k * y);
  }

  /** C#'s `%` on `int`: the remainder of truncating division, which takes
      the sign of the dividend. Only positive divisors occur in the
      calculator. */
  function Rem(a: int, b: int): (r: int)
    requires 0 < b
    ensures Divides(b, a - r)
    ensures 0 <= a ==> 0 <= r < b
    ensures a < 0 ==> -b < r <= 0
    ensures r == 0 <==> Divides(b, a)
  {
    if 0 <= a then
      DividesByCofactor(b, a - a % b, a / b);
      a % b
    else
      DividesByCofactor(b, a + (-a) % b, -((-a) / b));
      DividesIgnoresSign(b, a);
      -((-a) % b)
  }

  /** On a non-negative dividend C#'s remainder is Dafny's Euclidean one. */
  lemma RemOfNonNegative(a: int, b: int)
    requires 0 <= a && 0 < b
    ensures Rem(a, b) == a % b
  {
  }

  /** C#'s `/` on `int`: division truncated toward zero. Only positive
      divisors occur in the calculator. */
  function Quot(a: int, b: int): (q: int)
    requires 0 < b
    ensures a == q * b + Rem(a, b)
    ensures Divides(b, a) ==> q * b == a
    ensures 0 <= a ==> 0 <= q <= a
  {
    if 0 <= a then
      assert a == (a / b) * b + a % b;
      QuotientAtMost(a, b);
      a / b
    else
      assert -a == ((-a) / b) * b + (-a) % b;
      assert a == (-((-a) / b)) * b - (-a) % b;
      -((-a) / b)
  }

  /** Math.Abs on `int`: the magnitude, or an OverflowException for
      int.MinValue, whose magnitude is not an `int`. */
  function Abs(x: int32): (r: Result<int32>)
    ensures r.Ok? <==> x != MinValue
    ensures r.Err? ==> r.error.Overflow?
    ensures r.Ok? ==> 0 <= r.value && (r.value == x || r.value == -x)
  {
    if x == MinValue then Err(Overflow("Negating the minimum value of a twos complement number is invalid."))
    else if x < 0 then Ok(-x)
    else Ok(x)
  }
}
