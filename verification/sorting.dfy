/**
 `sorted(host_needs, reverse=True)` on integers: the host needs, largest
 first. Equal integers cannot be told apart, so stability does not show in
 the result; what does is that the answer is the one and only
 non-increasing rearrangement of the input.
 */
module Sorting {

  predicate NonIncreasing(s: seq<int>)
  {
    forall i, j :: 0 <= i < j < |s| ==> s[i] >= s[j]
  }

  /** Puts `x` in front of the first element it is at least as large as. */
  function Insert(x: int, s: seq<int>): (r: seq<int>)
    requires NonIncreasing(s)
    ensures NonIncreasing(r)
    ensures multiset(r) == multiset(s) + multiset{x}
    ensures |r| == |s| + 1
    ensures forall y :: y in r ==> y == x || y in s
  {
    if s == [] || x >= s[0] then
      [x] + s
    else
      assert s == [s[0]] + s[1..];
      var t := Insert(x, s[1..]);
      assert forall k :: 0 <= k < |t| ==> t[k] in t;
      [s[0]] + t
  }

  function SortDescending(xs: seq<int>): (r: seq<int>)
    ensures NonIncreasing(r)
    ensures multiset(r) == multiset(xs)
    ensures |r| == |xs|
  {
    if xs == [] then
      []
    else
      assert xs == [xs[0]] + xs[1..];
      Insert(xs[0], SortDescending(xs[1..]))
  }

  /** A non-increasing sequence starts with its largest element. */
  lemma HeadIsMaximum(s: seq<int>, x: int)
    requires NonIncreasing(s) && x in multiset(s)
    ensures |s| > 0 && x <= s[0]
  {
    var j :| 0 <= j < |s| && s[j] == x;
  }

  /** Two non-increasing rearrangements of the same values are identical. */
  lemma {:induction false} NonIncreasingPermutationUnique(a: seq<int>, b: seq<int>)
    requires NonIncreasing(a) && NonIncreasing(b)
    requires multiset(a) == multiset(b)
    ensures a == b
  {
    if a != [] {
      assert a[0] in multiset(a);
      HeadIsMaximum(b, a[0]);
      assert b[0] in multiset(b);
      HeadIsMaximum(a, b[0]);
      assert a[0] == b[0];
      assert a == [a[0]] + a[1..];
      assert b == [b[0]] + b[1..];
      assert multiset(a[1..]) == multiset(a) - multiset{a[0]};
      assert multiset(b[1..]) == multiset(b) - multiset{b[0]};
      assert multiset(a[1..]) == multiset(b[1..]);
      NonIncreasingPermutationUnique(a[1..], b[1..]);
    } else {
      assert |b| == |multiset(b)| == |multiset(a)| == 0;
    }
  }

  /** Any non-increasing rearrangement of `xs` is what `SortDescending` returns. */
  lemma SortDescendingIsTheDescendingOrder(xs: seq<int>, ys: seq<int>)
    requires NonIncreasing(ys) && multiset(ys) == multiset(xs)
    ensures SortDescending(xs) == ys
  {
    NonIncreasingPermutationUnique(SortDescending(xs), ys);
  }
}
