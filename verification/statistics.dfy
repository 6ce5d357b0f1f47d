/** The ordering-based statistics of the calculator
    (SampleApp/Calculator.cs): Max, Min, Median and Average.
    A `params double[]` argument is a sequence of reals: a null array and
    an empty one both become the empty sequence, and NaN is not modelled. */
module Statistics {
  import opened Outcomes
  import opened Sorting

  /** `m` is an element of `xs` that no element exceeds. */
  ghost predicate IsMaximum(m: real, xs: seq<real>) {
    m in xs && forall x :: x in xs ==> x <= m
  }

  /** `m` is an element of `xs` that no element is below. */
  ghost predicate IsMinimum(m: real, xs: seq<real>) {
    m in xs && forall x :: x in xs ==> m <= x
  }

  /** Max (Calculator.cs): ArgumentException for no numbers, otherwise the
      largest of them, found as LINQ's Max finds it: keep the first value
      and replace it by every later one that is greater. */
  function Max(xs: seq<real>): (r: Result<real>)
    ensures r.Err? <==> |xs| == 0
    ensures r.Err? ==> r.error.InvalidArgument?
    ensures r.Ok? ==> IsMaximum(r.value, xs)
  {
    if |xs| == 0 then
      Err(InvalidArgument("Cannot find max of empty array"))
    else
      Ok(MaxFrom(xs, 1, xs[0]))
  }

  /** LINQ's Max loop from index `i`, with `best` the maximum of xs[..i]. */
  function MaxFrom(xs: seq<real>, i: nat, best: real): (m: real)
    requires 1 <= i <= |xs| && IsMaximum(best, xs[..i])
    ensures IsMaximum(m, xs)
    decreases |xs| - i
  {
    if i == |xs| then
      assert xs[..i] == xs;
      best
    else
      assert xs[..i + 1] == xs[..i] + [xs[i]];
      MaxFrom(xs, i + 1, if xs[i] > best then xs[i] else best)
  }

  /** Min (Calculator.cs): ArgumentException for no numbers, otherwise the
      smallest of them, found as LINQ's Min finds it. */
  function Min(xs: seq<real>): (r: Result<real>)
    ensures r.Err? <==> |xs| == 0
    ensures r.Err? ==> r.error.InvalidArgument?
    ensures r.Ok? ==> IsMinimum(r.value, xs)
  {
    if |xs| == 0 then
      Err(InvalidArgument("Cannot find min of empty array"))
    else
      Ok(MinFrom(xs, 1, xs[0]))
  }

  /** LINQ's Min loop from index `i`, with `best` the minimum of xs[..i]. */
  function MinFrom(xs: seq<real>, i: nat, best: real): (m: real)
    requires 1 <= i <= |xs| && IsMinimum(best, xs[..i])
    ensures IsMinimum(m, xs)
    decreases |xs| - i
  {
    if i == |xs| then
      assert xs[..i] == xs;
      best
    else
      assert xs[..i + 1] == xs[..i] + [xs[i]];
      MinFrom(xs, i + 1, if xs[i] < best then xs[i] else best)
  }

  /** A sequence has at most one maximum and at most one minimum. */
  lemma ExtremesUnique(xs: seq<real>, m1: real, m2: real)
    ensures IsMaximum(m1, xs) && IsMaximum(m2, xs) ==> m1 == m2
    ensures IsMinimum(m1, xs) && IsMinimum(m2, xs) ==> m1 == m2
  {
  }

  /** Max and Min depend only on which numbers there are, not on their
      order. */
  lemma ExtremesIgnoreOrder(xs: seq<real>, ys: seq<real>)
    requires multiset(xs) == multiset(ys)
    ensures Max(xs) == Max(ys) && Min(xs) == Min(ys)
  {
    assert |xs| == |multiset(xs)| == |multiset(ys)| == |ys|;
    forall x
      ensures x in xs <==> x in ys
    {
      assert x in xs <==> x in multiset(xs);
      assert x in ys <==> x in multiset(ys);
    }
    if |xs| > 0 {
      ExtremesUnique(xs, Max(xs).value, Max(ys).value);
      ExtremesUnique(xs, Min(xs).value, Min(ys).value);
    }
  }

  /** The value Median picks from the sorted copy: the middle element for an
      odd count, the mean of the two middle elements for an even one. */
  function MiddleOf(sorted: seq<real>): (r: real)
    requires |sorted| > 0
    ensures |sorted| % 2 == 1 ==> r in sorted
    ensures IsSorted(sorted) ==> sorted[0] <= r <= sorted[|sorted| - 1]
    ensures IsSorted(sorted) ==>
              (forall k :: 0 <= k < (|sorted| + 1) / 2 ==> sorted[k] <= r) &&
              (forall k :: |sorted| / 2 <= k < |sorted| ==> r <= sorted[k])
  {
    var count := |sorted|;
    if count % 2 == 0 then
      (sorted[count / 2 - 1] + sorted[count / 2]) / 2.0
    else
      sorted[count / 2]
  }

  /** Median (Calculator.cs): ArgumentException for no numbers; otherwise it
      sorts a copy and takes the middle of it, which is the middle of every
      ascending arrangement of the numbers. The caller's sequence is a value
      and cannot be changed. */
  function Median(xs: seq<real>): (r: Result<real>)
    ensures r.Err? <==> |xs| == 0
    ensures r.Err? ==> r.error.InvalidArgument?
    ensures r.Ok? ==>
              forall s :: IsSorted(s) && multiset(s) == multiset(xs) ==>
                |s| == |xs| && r.value == MiddleOf(s)
  {
    if |xs| == 0 then
      Err(InvalidArgument("Cannot calculate median of empty array"))
    else
      var sorted := SortAscending(xs);
      OnlyArrangement(xs, sorted);
      Ok(MiddleOf(sorted))
  }

  /** Every ascending arrangement of `xs` is `sorted`. */
  lemma OnlyArrangement(xs: seq<real>, sorted: seq<real>)
    requires IsSorted(sorted) && multiset(sorted) == multiset(xs)
    ensures forall s :: IsSorted(s) && multiset(s) == multiset(xs) ==>
              |s| == |xs| && s == sorted
  {
    forall s | IsSorted(s) && multiset(s) == multiset(xs)
      ensures |s| == |xs| && s == sorted
    {
      assert |s| == |multiset(s)| == |multiset(xs)| == |xs|;
      SortedPermutationsEqual(s, sorted);
    }
  }

  /** The median depends only on which numbers there are, not their order. */
  lemma MedianIgnoresOrder(xs: seq<real>, ys: seq<real>)
    requires multiset(xs) == multiset(ys)
    ensures Median(xs) == Median(ys)
  {
    assert |xs| == |multiset(xs)| == |multiset(ys)| == |ys|;
    if |xs| != 0 {
      var s := SortAscending(xs);
      assert MiddleOf(s) == Median(xs).value;
      assert MiddleOf(s) == Median(ys).value;
    }
  }

  /** The median lies between the minimum and the maximum. */
  lemma MedianBetweenMinAndMax(xs: seq<real>)
    requires |xs| > 0
    ensures Min(xs).value <= Median(xs).value <= Max(xs).value
  {
    var s := SortAscending(xs);
    var lo, hi := Min(xs).value, Max(xs).value;
    var n := |s|;
    assert |s| == |multiset(s)| == |multiset(xs)| == |xs|;
    forall k | 0 <= k < n
      ensures lo <= s[k] <= hi
    {
      assert s[k] in multiset(s);
      assert s[k] in multiset(xs);
      assert s[k] in xs;
    }
    assert Median(xs).value == MiddleOf(s);
  }

  /** On numbers already in ascending order, the median is their middle. */
  lemma MedianOfSorted(xs: seq<real>)
    requires |xs| > 0 && IsSorted(xs)
    ensures Median(xs) == Ok(MiddleOf(xs))
  {
  }

  /** The calculator's unit test with an odd count. */
  lemma MedianOddCountTestCase()
    ensures Median([1.0, 2.0, 3.0, 4.0, 5.0]) == Ok(3.0)
  {
    var xs := [1.0, 2.0, 3.0, 4.0, 5.0];
    assert IsSorted(xs) && MiddleOf(xs) == 3.0;
    MedianOfSorted(xs);
  }

  /** The calculator's unit test with an even count. */
  lemma MedianEvenCountTestCase()
    ensures Median([1.0, 2.0, 3.0, 4.0]) == Ok(2.5)
  {
    var xs := [1.0, 2.0, 3.0, 4.0];
    assert IsSorted(xs) && MiddleOf(xs) == 2.5;
    MedianOfSorted(xs);
  }

  /** The calculator's unit test with a single number. */
  lemma MedianSingleTestCase()
    ensures Median([7.0]) == Ok(7.0)
  {
    MedianOfSorted([7.0]);
  }

  /** The sum of the numbers, added from first to last. */
  function Sum(xs: seq<real>): real {
    if |xs| == 0 then 0.0 else Sum(xs[..|xs| - 1]) + xs[|xs| - 1]
  }

  /** The sum of two runs of numbers is the sum of their sums. */
  lemma {:induction false} SumOfConcat(xs: seq<real>, ys: seq<real>)
    ensures Sum(xs + ys) == Sum(xs) + Sum(ys)
    decreases |ys|
  {
    if |ys| > 0 {
      var last := |ys| - 1;
      assert (xs + ys)[..|xs + ys| - 1] == xs + ys[..last];
      SumOfConcat(xs, ys[..last]);
    } else {
      assert xs + ys == xs;
    }
  }

  /** The sum depends only on which numbers there are, not their order. */
  lemma {:induction false} SumIgnoresOrder(xs: seq<real>, ys: seq<real>)
    requires multiset(xs) == multiset(ys)
    ensures Sum(xs) == Sum(ys)
    decreases |xs|
  {
    assert |xs| == |multiset(xs)| == |multiset(ys)| == |ys|;
    if |xs| > 0 {
      var init, x := xs[..|xs| - 1], xs[|xs| - 1];
      assert x in multiset(ys);
      var j :| 0 <= j < |ys| && ys[j] == x;
      var rest := SumWithout(ys, j);
      assert xs == init + [x];
      assert multiset(xs) == multiset(init) + multiset{x};
      assert multiset(init) == multiset(xs) - multiset{x} == multiset(rest);
      SumIgnoresOrder(init, rest);
    }
  }

  /** Taking the number at index j out of ys leaves `rest`, whose sum is
      that of ys without it. */
  lemma SumWithout(ys: seq<real>, j: nat) returns (rest: seq<real>)
    requires j < |ys|
    ensures rest == ys[..j] + ys[j + 1..]
    ensures multiset(ys) == multiset(rest) + multiset{ys[j]}
    ensures Sum(ys) == Sum(rest) + ys[j]
  {
    var x := ys[j];
    rest := ys[..j] + ys[j + 1..];
    assert ys == ys[..j] + [x] + ys[j + 1..];
    SumOfConcat(ys[..j] + [x], ys[j + 1..]);
    SumOfConcat(ys[..j], [x]);
    SumOfConcat(ys[..j], ys[j + 1..]);
    assert Sum([x]) == x by { assert [x][..0] == []; }
  }

  /** Average (Calculator.cs): ArgumentException for no numbers, otherwise
      their arithmetic mean: the number that, times the count, gives their
      sum. It lies between their minimum and maximum. */
  function Average(xs: seq<real>): (r: Result<real>)
    ensures r.Err? <==> |xs| == 0
    ensures r.Err? ==> r.error.InvalidArgument?
    ensures r.Ok? ==> r.value * |xs| as real == Sum(xs)
    ensures r.Ok? ==> Min(xs).value <= r.value <= Max(xs).value
  {
    if |xs| == 0 then
      Err(InvalidArgument("Cannot calculate average of empty array"))
    else
      MeanBounds(xs, Min(xs).value, Max(xs).value);
      Ok(Sum(xs) / |xs| as real)
  }

  /** The average depends only on which numbers there are, not their
      order. */
  lemma AverageIgnoresOrder(xs: seq<real>, ys: seq<real>)
    requires multiset(xs) == multiset(ys)
    ensures Average(xs) == Average(ys)
  {
    assert |xs| == |multiset(xs)| == |multiset(ys)| == |ys|;
    SumIgnoresOrder(xs, ys);
  }

  /** The cases of the calculator's unit tests of Average. */
  lemma AverageUnitTestCases()
    ensures Average([10.0, 20.0, 30.0, 40.0, 50.0]) == Ok(30.0)
    ensures Average([]).Err? && Average([]).error.InvalidArgument?
  {
    var xs := [10.0, 20.0, 30.0, 40.0, 50.0];
    assert Sum([10.0]) == 10.0 by { assert [10.0][..0] == []; }
    assert Sum([10.0, 20.0]) == 30.0 by { assert [10.0, 20.0][..1] == [10.0]; }
    assert Sum([10.0, 20.0, 30.0]) == 60.0 by {
      assert [10.0, 20.0, 30.0][..2] == [10.0, 20.0];
    }
    assert Sum([10.0, 20.0, 30.0, 40.0]) == 100.0 by {
      assert [10.0, 20.0, 30.0, 40.0][..3] == [10.0, 20.0, 30.0];
    }
    assert xs[..4] == [10.0, 20.0, 30.0, 40.0];
    assert Sum(xs) == 150.0;
  }

  /** The mean of numbers between lo and hi lies between lo and hi. */
  lemma MeanBounds(xs: seq<real>, lo: real, hi: real)
    requires |xs| > 0
    requires forall x :: x in xs ==> lo <= x <= hi
    ensures lo <= Sum(xs) / |xs| as real <= hi
  {
    SumBounds(xs, |xs|, lo, hi);
    assert xs[..|xs|] == xs;
    QuotientBetween(Sum(xs), |xs| as real, lo, hi);
  }

  /** Dividing by a positive count keeps the bounds per element. */
  lemma QuotientBetween(total: real, count: real, lo: real, hi: real)
    requires 0.0 < count && count * lo <= total <= count * hi
    ensures lo <= total / count <= hi
  {
    var q := total / count;
    assert total == count * q;
    assert count * (q - lo) >= 0.0 && count * (hi - q) >= 0.0;
  }

  /** A sum of k numbers, each between lo and hi, lies between k * lo and
      k * hi. */
  lemma {:induction false} SumBounds(xs: seq<real>, k: nat, lo: real, hi: real)
    requires k <= |xs|
    requires forall x :: x in xs ==> lo <= x <= hi
    ensures k as real * lo <= Sum(xs[..k]) <= k as real * hi
  {
    if k == 0 {
      assert xs[..k] == [];
    } else {
      SumBounds(xs, k - 1, lo, hi);
      assert xs[..k][..k - 1] == xs[..k - 1];
      assert xs[k - 1] in xs;
    }
  }
}
