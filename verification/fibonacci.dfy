/** FibonacciSequence of the calculator (SampleApp/Calculator.cs): a list
    built term by term in 32-bit arithmetic, which wraps silently from the
    48th term on. */
module Fibonacci {
  import opened Outcomes
  import opened Int32

  /** The k-th Fibonacci number, counting from Fib(0) = 0, Fib(1) = 1. */
  function Fib(k: nat): nat {
    if k < 2 then k else Fib(k - 1) + Fib(k - 2)
  }

  /** The largest count whose terms all fit in a 32-bit int: Fib(46) does,
      Fib(47) does not. */
  const LargestExactCount: nat := 47

  /** FibonacciSequence (Calculator.cs): ArgumentException for a count that
      is not positive; otherwise the first `count` Fibonacci numbers, each
      wrapped to 32 bits, and exact for counts up to 47. */
  function FibonacciSequence(count: int32): (r: Result<seq<int32>>)
    ensures r.Err? <==> count <= 0
    ensures r.Err? ==> r.error.InvalidArgument?
    ensures r.Ok? ==> |r.value| == count
    ensures r.Ok? ==> forall k :: 0 <= k < |r.value| ==> r.value[k] == Wrap(Fib(k))
    ensures 0 < count <= LargestExactCount ==>
              r.Ok? && forall k :: 0 <= k < |r.value| ==> r.value[k] == Fib(k)
  {
    if count <= 0 then
      Err(InvalidArgument("Count must be positive"))
    else
      var start: seq<int32> := if count >= 2 then [0, 1] else [0];
      var s := FibonacciLoop(count, start);
      FibFits(count);
      Ok(s)
  }

  /** The loop that, while the list is shorter than count, appends the
      unchecked sum of its last two terms. Its invariant: every term so far
      is the Fibonacci number of its index, wrapped to 32 bits. */
  function FibonacciLoop(count: int32, s: seq<int32>): (r: seq<int32>)
    requires 1 <= |s| <= count && (|s| == 1 ==> count == 1)
    requires forall k :: 0 <= k < |s| ==> s[k] == Wrap(Fib(k))
    ensures |r| == count
    ensures forall k :: 0 <= k < |r| ==> r[k] == Wrap(Fib(k))
    decreases count - |s|
  {
    if |s| >= count then
      s
    else
      var i := |s|;
      var next := Wrap(s[i - 1] as int + s[i - 2]);
      var a, b := Fib(i - 1), Fib(i - 2);
      assert Fib(i) == a + b;
      assert s[i - 1] == Wrap(a) && s[i - 2] == Wrap(b);
      WrapOfSum(a, b);
      assert next == Wrap(Fib(i));
      FibonacciLoop(count, s + [next])
  }

  /** The list starts 0, 1 and each later term is the unchecked 32-bit sum
      of the two before it, the rule the loop body applies. */
  lemma FibonacciFollowsRecurrence(count: int32, k: int) returns (s: seq<int32>)
    requires 2 <= k < count
    ensures FibonacciSequence(count) == Ok(s)
    ensures |s| == count && s[0] == 0 && s[1] == 1
    ensures s[k] == Wrap(s[k - 1] as int + s[k - 2])
  {
    s := FibonacciSequence(count).value;
    WrappedRecurrence(s, k);
  }

  /** In a sequence of wrapped Fibonacci numbers each term from the third on
      is the wrapped sum of the two before it. */
  lemma WrappedRecurrence(s: seq<int32>, k: int)
    requires forall j :: 0 <= j < |s| ==> s[j] == Wrap(Fib(j))
    requires 2 <= k < |s|
    ensures s[0] == 0 && s[1] == 1 && s[k] == Wrap(s[k - 1] as int + s[k - 2])
  {
    assert s[0] == Wrap(Fib(0)) && s[1] == Wrap(Fib(1));
    var a, b := Fib(k - 1), Fib(k - 2);
    assert Fib(k) == a + b;
    assert s[k] == Wrap(a + b);
    assert s[k - 1] == Wrap(a) && s[k - 2] == Wrap(b);
    WrapOfSum(a, b);
  }

  /** Fibonacci numbers do not decrease. */
  lemma {:induction false} FibMonotone(j: nat, k: nat)
    requires j <= k
    ensures Fib(j) <= Fib(k)
    decreases k - j
  {
    if j < k {
      FibMonotone(j, k - 1);
    }
  }

  /** The terms of a sequence of at most 47 terms fit in 32 bits. */
  lemma FibFits(count: int)
    ensures forall k: nat :: k < count <= LargestExactCount ==> Fib(k) <= MaxValue
  {
    forall k: nat | k < count <= LargestExactCount
      ensures Fib(k) <= MaxValue
    {
      FibMonotone(k, 46);
      FibAt46();
    }
  }

  /** Fib(46) = 1836311903 fits in 32 bits; Fib(47) = 2971215073 does not. */
  lemma FibAt46()
    ensures Fib(46) == 1836311903 && Fib(47) == 2971215073
  {
    assert Fib(10) == 55 && Fib(11) == 89;
    assert Fib(20) == 6765 && Fib(21) == 10946;
    assert Fib(30) == 832040 && Fib(31) == 1346269;
    assert Fib(36) == 14930352 && Fib(37) == 24157817;
    assert Fib(42) == 267914296 && Fib(43) == 433494437;
  }

  /** The 48th term is the first to wrap. */
  lemma FibonacciWrapsAtFortyEight()
    ensures FibonacciSequence(48).Ok?
    ensures FibonacciSequence(48).value[47] == 2971215073 - Modulus
  {
    FibAt46();
  }

  /** The cases of the calculator's unit tests. */
  lemma FibonacciUnitTestCases()
    ensures FibonacciSequence(1) == Ok([0])
    ensures FibonacciSequence(2) == Ok([0, 1])
    ensures FibonacciSequence(5) == Ok([0, 1, 1, 2, 3])
    ensures FibonacciSequence(8) == Ok([0, 1, 1, 2, 3, 5, 8, 13])
    ensures FibonacciSequence(0).Err? && FibonacciSequence(-5).Err?
  {
    var five, eight := FibonacciSequence(5).value, FibonacciSequence(8).value;
    assert Fib(2) == 1 && Fib(3) == 2 && Fib(4) == 3;
    assert Fib(5) == 5 && Fib(6) == 8 && Fib(7) == 13;
    assert five == [0, 1, 1, 2, 3];
    assert eight == [0, 1, 1, 2, 3, 5, 8, 13];
  }
}
