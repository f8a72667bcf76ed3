/** `sorted(nums)`: an ascending permutation of the sample. Python's sort
    algorithm is not modelled, only its result, which is unique. */
module Sorting {

  predicate IsSorted(s: seq<real>) {
    forall i, j :: 0 <= i < j < |s| ==> s[i] <= s[j]
  }

  /** `t` with `x` placed before the first element not smaller than it. */
  function Insert(x: real, t: seq<real>): (r: seq<real>)
    requires IsSorted(t)
    ensures IsSorted(r)
    ensures multiset(r) == multiset(t) + multiset{x}
  {
    if |t| == 0 || x <= t[0] then
      PrependSorted(x, t);
      [x] + t
    else
      var rest := Insert(x, t[1..]);
      assert t == [t[0]] + t[1..];
      forall k | 0 <= k < |rest| ensures t[0] <= rest[k] {
        assert rest[k] in multiset(t[1..]) + multiset{x};
      }
      PrependSorted(t[0], rest);
      [t[0]] + rest
  }

  lemma PrependSorted(x: real, t: seq<real>)
    requires IsSorted(t)
    requires forall k :: 0 <= k < |t| ==> x <= t[k]
    ensures IsSorted([x] + t)
  {
  }

  /** An ascending permutation of `s`. */
  function Sort(s: seq<real>): (r: seq<real>)
    ensures IsSorted(r)
    ensures multiset(r) == multiset(s)
    ensures |r| == |s|
  {
    if |s| == 0 then []
    else
      assert s == [s[0]] + s[1..];
      var r := Insert(s[0], Sort(s[1..]));
      assert |r| == |multiset(r)| == |multiset(s)| == |s|;
      r
  }

  /** The first element of an ascending sequence is its least one, so two
      with the same elements start alike. */
  lemma SortedHeads(a: seq<real>, b: seq<real>)
    requires IsSorted(a) && IsSorted(b)
    requires |a| > 0 && multiset(a) == multiset(b)
    ensures |b| > 0 && a[0] == b[0]
  {
    assert a[0] in multiset(b);
    var k :| 0 <= k < |b| && b[k] == a[0];
    assert b[0] in multiset(a);
    var m :| 0 <= m < |a| && a[m] == b[0];
  }

  lemma MultisetTail(s: seq<real>)
    requires |s| > 0
    ensures multiset(s[1..]) == multiset(s) - multiset{s[0]}
  {
    assert s == [s[0]] + s[1..];
  }

  /** Two ascending sequences with the same elements are equal, so "the"
      sorted form of a sample is well defined. */
  lemma {:induction false} SortedUnique(a: seq<real>, b: seq<real>)
    requires IsSorted(a) && IsSorted(b)
    requires multiset(a) == multiset(b)
    ensures a == b
  {
    if |a| == 0 {
      assert |b| == |multiset(b)| == 0;
    } else {
      SortedHeads(a, b);
      MultisetTail(a);
      MultisetTail(b);
      SortedUnique(a[1..], b[1..]);
      assert a == [a[0]] + a[1..] && b == [b[0]] + b[1..];
    }
  }
}
