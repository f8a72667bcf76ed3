/** `calcula_media`, `calcula_mediana` and `calcula_variancia`: the mean,
    the median and the sample variance (Bessel's correction, dividing by
    n - 1) of a non-empty sample. */
module Statistics {
  import opened Samples
  import opened Sorting

  /** `calcula_media`: the sum over the count. It lies between the smallest
      and the largest element. */
  function Mean(s: seq<real>): (m: real)
    requires |s| > 0
    ensures Min(s) <= m <= Max(s)
  {
    SumBounds(s, Min(s), Max(s));
    QuotientBounds(Sum(s), |s| as real, Min(s), Max(s));
    Sum(s) / (|s| as real)
  }

  lemma QuotientBounds(x: real, n: real, lo: real, hi: real)
    requires n > 0.0 && n * lo <= x <= n * hi
    ensures lo <= x / n <= hi
  {
    assert (x / n) * n == x;
  }

  /** `calcula_mediana`: the middle element of the sorted sample, or the
      average of the two middle elements when the count is even. */
  function Median(s: seq<real>): (r: real)
    requires |s| > 0
    ensures Min(s) <= r <= Max(s)
  {
    var t := Sort(s);
    var n := |s|;
    SortedWithinBounds(s, t);
    if n % 2 == 1 then t[n / 2] else (t[n / 2 - 1] + t[n / 2]) / 2.0
  }

  /** Every element of a permutation of `s` lies between `s`'s extremes. */
  lemma SortedWithinBounds(s: seq<real>, t: seq<real>)
    requires |s| > 0 && multiset(t) == multiset(s)
    ensures forall k :: 0 <= k < |t| ==> Min(s) <= t[k] <= Max(s)
  {
    forall k | 0 <= k < |t| ensures Min(s) <= t[k] <= Max(s) {
      assert t[k] in multiset(s);
    }
  }

  /** `d**2`. */
  function Square(d: real): real {
    d * d
  }

  /** The mean times the count gives back the sum. */
  lemma MeanScaled(s: seq<real>)
    requires |s| > 0
    ensures Mean(s) * (|s| as real) == Sum(s)
  {
    var total, n := Sum(s), |s| as real;
    QuotientScaled(total, n, Mean(s));
  }

  /** A quotient by `n`, multiplied by `n` again, gives back the dividend. */
  lemma QuotientScaled(x: real, n: real, q: real)
    requires n > 0.0 && q == x / n
    ensures q * n == x
  {
  }

  /** The squared deviation of a value from `m`, `(x - m)**2`. */
  function SquaredDeviation(m: real): real -> real {
    x => Square(x - m)
  }

  /** `calcula_variancia`: the sum of squared deviations from the mean over
      n - 1. The source divides by zero on a one-element sample; the model
      requires two elements. */
  function Variance(s: seq<real>): (v: real)
    requires |s| >= 2
    ensures v >= 0.0
  {
    var m := Mean(s);
    forall i | 0 <= i < |s| ensures SquaredDeviation(m)(s[i]) >= 0.0 {
      SquareZero(s[i], m);
    }
    SumNonNegative(s, SquaredDeviation(m));
    SumOf(s, SquaredDeviation(Mean(s))) / ((|s| - 1) as real)
  }

  /** The mean depends only on the multiset of the sample. */
  lemma MeanPermutation(a: seq<real>, b: seq<real>)
    requires |a| > 0 && multiset(a) == multiset(b)
    ensures |b| == |a| && Mean(a) == Mean(b)
  {
    assert |b| == |multiset(b)| == |multiset(a)| == |a|;
    SumPermutation(a, b, x => x);
  }

  /** Whichever ascending permutation `t` of the sample is taken, the median
      is its middle element for an odd count and the average of its two
      middle elements for an even one. */
  lemma MedianOfSorted(s: seq<real>, t: seq<real>)
    requires |s| > 0
    requires IsSorted(t) && multiset(t) == multiset(s)
    ensures |t| == |s|
    ensures |s| % 2 == 1 ==> Median(s) == t[|s| / 2]
    ensures |s| % 2 == 0 ==> Median(s) == (t[|s| / 2 - 1] + t[|s| / 2]) / 2.0
  {
    SortedUnique(Sort(s), t);
  }

  /** The median depends only on the multiset of the sample: any
      reordering of the input gives the same median. */
  lemma MedianPermutation(a: seq<real>, b: seq<real>)
    requires |a| > 0 && multiset(a) == multiset(b)
    ensures |b| == |a| && Median(a) == Median(b)
  {
    assert |b| == |multiset(b)| == |multiset(a)| == |a|;
    SortedUnique(Sort(a), Sort(b));
  }

  /** In an ascending sequence at least `k + 1` elements are at most the
      `k`-th one. */
  lemma SortedRankBelow(t: seq<real>, k: nat)
    requires IsSorted(t) && k < |t|
    ensures Count(t, AtMost(t[k])) >= k + 1
  {
    var p := AtMost(t[k]);
    var low := t[..k + 1];
    forall i | 0 <= i < |low| ensures p(low[i]) {
      assert low[i] == t[i];
    }
    CountAll(low, p);
    CountAppend(low, t[k + 1..], p);
    assert low + t[k + 1..] == t;
  }

  /** In an ascending sequence at least `|t| - k` elements are at least the
      `k`-th one. */
  lemma SortedRankAbove(t: seq<real>, k: nat)
    requires IsSorted(t) && k < |t|
    ensures Count(t, AtLeast(t[k])) >= |t| - k
  {
    var p := AtLeast(t[k]);
    var high := t[k..];
    forall i | 0 <= i < |high| ensures p(high[i]) {
      assert high[i] == t[k + i];
    }
    CountAll(high, p);
    CountAppend(t[..k], high, p);
    assert t[..k] + high == t;
  }

  /** The median splits the sample in halves: at least half of the
      elements are at most the median and at least half are at least it.
      For an odd count the median is one of the elements. */
  lemma MedianSplitsSample(s: seq<real>)
    requires |s| > 0
    ensures 2 * Count(s, AtMost(Median(s))) >= |s|
    ensures 2 * Count(s, AtLeast(Median(s))) >= |s|
    ensures |s| % 2 == 1 ==> Median(s) in s
  {
    var t := Sort(s);
    var n := |s|;
    var r := Median(s);
    MedianOfSorted(s, t);
    CountPermutation(s, t, AtMost(r));
    CountPermutation(s, t, AtLeast(r));
    if n % 2 == 1 {
      SortedRankBelow(t, n / 2);
      SortedRankAbove(t, n / 2);
      assert t[n / 2] in multiset(s);
    } else {
      var lo, hi := t[n / 2 - 1], t[n / 2];
      assert lo <= r <= hi;
      SortedRankBelow(t, n / 2 - 1);
      SortedRankAbove(t, n / 2);
      CountMonotone(t, AtMost(lo), AtMost(r));
      CountMonotone(t, AtLeast(hi), AtLeast(r));
    }
  }

  /** The mean of a sample whose elements are all `c` is `c`. */
  lemma MeanOfConstant(s: seq<real>, c: real)
    requires |s| > 0
    requires forall i :: 0 <= i < |s| ==> s[i] == c
    ensures Mean(s) == c
  {
    SumConstant(s, c);
  }

  /** A squared deviation is never negative and is zero exactly at `m`. */
  lemma SquareZero(x: real, m: real)
    ensures SquaredDeviation(m)(x) >= 0.0
    ensures SquaredDeviation(m)(x) == 0.0 <==> x == m
  {
    SquareZeroAt(x - m);
  }

  /** A square is never negative and is zero exactly at zero. */
  lemma SquareZeroAt(d: real)
    ensures Square(d) >= 0.0
    ensures Square(d) == 0.0 <==> d == 0.0
  {
    if d != 0.0 {
      SquarePositive(d);
    }
  }

  /** The square of a non-zero number is positive. */
  lemma SquarePositive(d: real)
    requires d != 0.0
    ensures Square(d) > 0.0
  {
    calc {
      Square(d);
    ==
      d * d;
    > { ProductPositive(d); }
      0.0;
    }
  }

  lemma ProductPositive(d: real)
    requires d != 0.0
    ensures d * d > 0.0
  {
  }

  /** A quotient by a positive number is zero exactly when the dividend is. */
  lemma QuotientZero(x: real, n: real)
    requires n > 0.0
    ensures x / n == 0.0 <==> x == 0.0
  {
    assert (x / n) * n == x;
  }

  /** The variance is zero exactly when every element is equal: it is zero
      for a constant sample and positive as soon as two elements differ. */
  lemma VarianceZeroIffConstant(s: seq<real>)
    requires |s| >= 2
    ensures Variance(s) == 0.0 <==> forall i, j :: 0 <= i < |s| && 0 <= j < |s| ==> s[i] == s[j]
  {
    var m := Mean(s);
    var f := SquaredDeviation(m);
    forall i | 0 <= i < |s| ensures f(s[i]) >= 0.0 && (f(s[i]) == 0.0 <==> s[i] == m) {
      SquareZero(s[i], m);
    }
    SumNonNegative(s, f);
    QuotientZero(SumOf(s, f), (|s| - 1) as real);
    if forall i, j :: 0 <= i < |s| && 0 <= j < |s| ==> s[i] == s[j] {
      MeanOfConstant(s, s[0]);
    }
  }

  /** The variance depends only on the multiset of the sample. */
  lemma VariancePermutation(a: seq<real>, b: seq<real>)
    requires |a| >= 2 && multiset(a) == multiset(b)
    ensures |b| == |a| && Variance(a) == Variance(b)
  {
    MeanPermutation(a, b);
    SumPermutation(a, b, SquaredDeviation(Mean(a)));
  }
}
