/** Sums, counts and extremes of a sample: the building blocks the
    statistics are stated with. A sample is a `seq<real>`; Python floats are
    modelled as exact reals. */
module Samples {

  /** The sum of `f` over the sample. Reals are exact, so the order of the
      additions does not matter. */
  function SumOf(s: seq<real>, f: real -> real): real {
    if |s| == 0 then 0.0 else f(s[0]) + SumOf(s[1..], f)
  }

  /** `sum(nums)`. */
  function Sum(s: seq<real>): real {
    SumOf(s, x => x)
  }

  /** The number of elements of `s` that satisfy `p`. */
  function Count(s: seq<real>, p: real -> bool): nat {
    if |s| == 0 then 0 else (if p(s[0]) then 1 else 0) + Count(s[1..], p)
  }

  function AtMost(v: real): real -> bool {
    x => x <= v
  }

  function AtLeast(v: real): real -> bool {
    x => x >= v
  }

  function EqualTo(v: real): real -> bool {
    x => x == v
  }

  /** The smallest element. */
  function Min(s: seq<real>): (m: real)
    requires |s| > 0
    ensures m in s
    ensures forall i :: 0 <= i < |s| ==> m <= s[i]
  {
    if |s| == 1 then s[0]
    else
      var m := Min(s[1..]);
      assert forall i :: 1 <= i < |s| ==> s[i] == s[1..][i - 1];
      if s[0] <= m then s[0] else m
  }

  /** The largest element. */
  function Max(s: seq<real>): (m: real)
    requires |s| > 0
    ensures m in s
    ensures forall i :: 0 <= i < |s| ==> s[i] <= m
  {
    if |s| == 1 then s[0]
    else
      var m := Max(s[1..]);
      assert forall i :: 1 <= i < |s| ==> s[i] == s[1..][i - 1];
      if s[0] >= m then s[0] else m
  }

  lemma {:induction false} SumAppend(a: seq<real>, b: seq<real>, f: real -> real)
    ensures SumOf(a + b, f) == SumOf(a, f) + SumOf(b, f)
  {
    if |a| == 0 {
      assert a + b == b;
    } else {
      SumAppend(a[1..], b, f);
      assert (a + b)[0] == a[0] && (a + b)[1..] == a[1..] + b;
    }
  }

  lemma {:induction false} CountAppend(a: seq<real>, b: seq<real>, p: real -> bool)
    ensures Count(a + b, p) == Count(a, p) + Count(b, p)
  {
    if |a| == 0 {
      assert a + b == b;
    } else {
      CountAppend(a[1..], b, p);
      assert (a + b)[0] == a[0] && (a + b)[1..] == a[1..] + b;
    }
  }

  /** Removing the element at `i` splits the sequence around it. */
  lemma RemoveAt(b: seq<real>, i: nat)
    requires i < |b|
    ensures b == b[..i] + [b[i]] + b[i + 1..]
    ensures multiset(b[..i] + b[i + 1..]) == multiset(b) - multiset{b[i]}
  {
    assert b == b[..i] + [b[i]] + b[i + 1..];
  }

  lemma SumAround(b: seq<real>, i: nat, f: real -> real)
    requires i < |b|
    ensures SumOf(b, f) == SumOf(b[..i] + b[i + 1..], f) + SumOf([b[i]], f)
  {
    RemoveAt(b, i);
    SumAppend(b[..i] + [b[i]], b[i + 1..], f);
    SumAppend(b[..i], [b[i]], f);
    SumAppend(b[..i], b[i + 1..], f);
  }

  lemma CountAround(b: seq<real>, i: nat, p: real -> bool)
    requires i < |b|
    ensures Count(b, p) == Count(b[..i] + b[i + 1..], p) + Count([b[i]], p)
  {
    RemoveAt(b, i);
    CountAppend(b[..i] + [b[i]], b[i + 1..], p);
    CountAppend(b[..i], [b[i]], p);
    CountAppend(b[..i], b[i + 1..], p);
  }

  /** `b` holds `a`'s first element at some index `i`, and what is left of
      both after removing it has the same multiset. */
  lemma MatchFirst(a: seq<real>, b: seq<real>) returns (i: nat)
    requires |a| > 0 && multiset(a) == multiset(b)
    ensures i < |b| && b[i] == a[0]
    ensures multiset(a[1..]) == multiset(b[..i] + b[i + 1..])
  {
    assert a[0] in multiset(b);
    i :| 0 <= i < |b| && b[i] == a[0];
    RemoveAt(b, i);
    assert a == [a[0]] + a[1..];
  }

  /** Sums depend only on the multiset of the sample. */
  lemma {:induction false} SumPermutation(a: seq<real>, b: seq<real>, f: real -> real)
    requires multiset(a) == multiset(b)
    ensures SumOf(a, f) == SumOf(b, f)
  {
    if |a| > 0 {
      var i := MatchFirst(a, b);
      SumPermutation(a[1..], b[..i] + b[i + 1..], f);
      SumAround(b, i, f);
    } else {
      assert |b| == |multiset(b)| == 0;
    }
  }

  /** Counts depend only on the multiset of the sample. */
  lemma {:induction false} CountPermutation(a: seq<real>, b: seq<real>, p: real -> bool)
    requires multiset(a) == multiset(b)
    ensures Count(a, p) == Count(b, p)
  {
    if |a| > 0 {
      var i := MatchFirst(a, b);
      CountPermutation(a[1..], b[..i] + b[i + 1..], p);
      CountAround(b, i, p);
    } else {
      assert |b| == |multiset(b)| == 0;
    }
  }

  /** Every element lies in `[lo, hi]`, so the sum lies in `[n*lo, n*hi]`. */
  lemma {:induction false} SumBounds(s: seq<real>, lo: real, hi: real)
    requires forall i :: 0 <= i < |s| ==> lo <= s[i] <= hi
    ensures |s| as real * lo <= Sum(s) <= |s| as real * hi
  {
    if |s| > 0 {
      SumBounds(s[1..], lo, hi);
    }
  }

  /** A sample of `n` copies of `c` sums to `n*c`. */
  lemma {:induction false} SumConstant(s: seq<real>, c: real)
    requires forall i :: 0 <= i < |s| ==> s[i] == c
    ensures Sum(s) == |s| as real * c
  {
    if |s| > 0 {
      SumConstant(s[1..], c);
    }
  }

  /** A sum of terms that are never negative is zero exactly when every
      term is. */
  lemma {:induction false} SumNonNegative(s: seq<real>, f: real -> real)
    requires forall i :: 0 <= i < |s| ==> f(s[i]) >= 0.0
    ensures SumOf(s, f) >= 0.0
    ensures SumOf(s, f) == 0.0 <==> forall i :: 0 <= i < |s| ==> f(s[i]) == 0.0
  {
    if |s| > 0 {
      SumNonNegative(s[1..], f);
      assert forall i :: 1 <= i < |s| ==> s[1..][i - 1] == s[i];
    }
  }

  /** Whatever satisfies `p` satisfies `q`, so `q` counts at least as many. */
  lemma {:induction false} CountMonotone(s: seq<real>, p: real -> bool, q: real -> bool)
    requires forall i :: 0 <= i < |s| ==> p(s[i]) ==> q(s[i])
    ensures Count(s, p) <= Count(s, q)
  {
    if |s| > 0 {
      CountMonotone(s[1..], p, q);
    }
  }

  /** When every element satisfies `p`, `p` counts them all. */
  lemma {:induction false} CountAll(s: seq<real>, p: real -> bool)
    requires forall i :: 0 <= i < |s| ==> p(s[i])
    ensures Count(s, p) == |s|
  {
    if |s| > 0 {
      CountAll(s[1..], p);
    }
  }
}
