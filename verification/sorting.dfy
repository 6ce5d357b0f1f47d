/** The ascending sort that Median applies to a copy of its input
    (LINQ's OrderBy on the numbers themselves), as insertion into a sorted sequence. */
module Sorting {

  /** `s` is in ascending order. */
  predicate IsSorted(s: seq<real>) {
    forall i, j :: 0 <= i < j < |s| ==> s[i] <= s[j]
  }

  /** `x` is at most every element of `s`. */
  predicate IsLowerBound(x: real, s: seq<real>) {
    forall y :: y in s ==> x <= y
  }

  /** Inserting into a sorted sequence keeps it sorted and adds exactly the
      inserted value. */
  function Insert(x: real, s: seq<real>): (r: seq<real>)
    requires IsSorted(s)
    ensures IsSorted(r)
    ensures multiset(r) == multiset(s) + multiset{x}
  {
    if |s| == 0 then
      [x]
    else if x <= s[0] then
      SortedBelowHead(x, s);
      PrependSorted(x, s);
      [x] + s
    else
      var rest := Insert(x, s[1..]);
      SortedBelowHead(s[0], s[1..]);
      InsertBelow(s, x, rest);
      PrependSorted(s[0], rest);
      assert s == [s[0]] + s[1..];
      [s[0]] + rest
  }

  /** The head of a sorted sequence, or anything below it, bounds it. */
  lemma SortedBelowHead(x: real, s: seq<real>)
    requires IsSorted(s) && (|s| == 0 || x <= s[0])
    ensures IsLowerBound(x, s)
  {
    forall y | y in s
      ensures x <= y
    {
      var k :| 0 <= k < |s| && s[k] == y;
      assert s[0] <= s[k];
    }
  }

  /** The head of `s` still bounds the result of inserting a larger value
      into the tail of `s`. */
  lemma InsertBelow(s: seq<real>, x: real, rest: seq<real>)
    requires |s| > 0 && s[0] < x && IsLowerBound(s[0], s[1..])
    requires multiset(rest) == multiset(s[1..]) + multiset{x}
    ensures IsLowerBound(s[0], rest)
  {
    assert multiset(s[1..] + [x]) == multiset(rest);
    LowerBoundOfPermutation(s[0], s[1..] + [x], rest);
  }

  /** A lower bound of a sorted sequence can be put in front of it. */
  lemma PrependSorted(x: real, s: seq<real>)
    requires IsSorted(s) && IsLowerBound(x, s)
    ensures IsSorted([x] + s)
  {
    var r := [x] + s;
    forall i, j | 0 <= i < j < |r|
      ensures r[i] <= r[j]
    {
      assert r[j] == s[j - 1] && r[j] in s;
      if i > 0 {
        assert r[i] == s[i - 1];
      }
    }
  }

  /** A lower bound of a sequence bounds every rearrangement of it. */
  lemma LowerBoundOfPermutation(x: real, s: seq<real>, t: seq<real>)
    requires IsLowerBound(x, s) && multiset(s) == multiset(t)
    ensures IsLowerBound(x, t)
  {
    forall y | y in t
      ensures x <= y
    {
      assert y in multiset(t);
      assert y in multiset(s);
      assert y in s;
    }
  }

  /** LINQ's OrderBy keyed on the numbers themselves: the input's elements in ascending order. */
  function SortAscending(xs: seq<real>): (s: seq<real>)
    ensures IsSorted(s)
    ensures multiset(s) == multiset(xs)
  {
    if |xs| == 0 then
      []
    else
      assert xs == [xs[0]] + xs[1..];
      Insert(xs[0], SortAscending(xs[1..]))
  }

  /** A multiset has only one ascending arrangement. */
  lemma {:induction false} SortedPermutationsEqual(s: seq<real>, t: seq<real>)
    requires IsSorted(s) && IsSorted(t) && multiset(s) == multiset(t)
    ensures s == t
    decreases |s|
  {
    assert |s| == |multiset(s)| == |t|;
    if |s| != 0 {
      SameHead(s, t);
      TailMultiset(s);
      TailMultiset(t);
      SortedPermutationsEqual(s[1..], t[1..]);
      assert s == [s[0]] + s[1..] && t == [t[0]] + t[1..];
    }
  }

  /** Two ascending arrangements of one multiset start with the same value,
      its minimum. */
  lemma SameHead(s: seq<real>, t: seq<real>)
    requires IsSorted(s) && IsSorted(t) && multiset(s) == multiset(t)
    requires |s| > 0 && |t| > 0
    ensures s[0] == t[0]
  {
    assert s[0] in multiset(t);
    assert t[0] in multiset(s);
    var i :| 0 <= i < |t| && t[i] == s[0];
    var j :| 0 <= j < |s| && s[j] == t[0];
    assert t[0] <= t[i];
    assert s[0] <= s[j];
  }

  /** Dropping the first element removes it from the multiset. */
  lemma TailMultiset(s: seq<real>)
    requires |s| > 0
    ensures multiset(s[1..]) == multiset(s) - multiset{s[0]}
  {
    assert s == [s[0]] + s[1..];
  }
}
