/** `calcula_moda`: the most frequent values of a sample, listed in the order
    in which `collections.Counter` first meets them, or none at all when every
    value occurs once. */
module Modes {
  import opened Samples

  /** How often `v` occurs in `s`: the count `Counter(nums)` keeps for it. */
  function Freq(s: seq<real>, v: real): nat {
    multiset(s)[v]
  }

  /** The multiplicity `Freq` is the number of elements equal to `v`. */
  lemma {:induction false} FreqCount(s: seq<real>, v: real)
    ensures Freq(s, v) == Count(s, EqualTo(v))
  {
    if |s| > 0 {
      assert s == [s[0]] + s[1..];
      assert multiset(s) == multiset{s[0]} + multiset(s[1..]);
      FreqCount(s[1..], v);
    }
  }

  /** The position of the first occurrence of `v` in `s`. */
  function FirstIndex(s: seq<real>, v: real): (i: nat)
    requires v in s
    ensures i < |s| && s[i] == v && v !in s[..i]
  {
    if s[0] == v then 0 else 1 + FirstIndex(s[1..], v)
  }

  /** The values of `d` are all in `s`, pairwise different, and listed in
      the order of their first occurrence in `s`. */
  predicate InFirstOccurrenceOrder(d: seq<real>, s: seq<real>) {
    (forall k :: 0 <= k < |d| ==> d[k] in s) &&
    forall i, j :: 0 <= i < j < |d| ==> FirstIndex(s, d[i]) < FirstIndex(s, d[j])
  }

  /** The keys of `Counter(nums)`: each value of the sample once, a new key
      appended whenever the scan meets a value it has not seen. */
  function Keys(s: seq<real>): (d: seq<real>)
    ensures forall v :: v in d <==> v in s
    ensures forall i, j :: 0 <= i < j < |d| ==> d[i] != d[j]
  {
    if |s| == 0 then []
    else
      var init := s[..|s| - 1];
      var d := Keys(init);
      assert s == init + [s[|s| - 1]];
      if s[|s| - 1] in d then d else d + [s[|s| - 1]]
  }

  /** A value occurring in a prefix is first met inside that prefix. */
  lemma {:induction false} FirstIndexPrefix(s: seq<real>, n: nat, v: real)
    requires n <= |s| && v in s[..n]
    ensures FirstIndex(s, v) == FirstIndex(s[..n], v)
  {
    if s[0] != v {
      assert s[1..][..n - 1] == s[..n][1..];
      FirstIndexPrefix(s[1..], n - 1, v);
    }
  }

  /** A value that does not occur before position `n` but occurs there is
      first met at `n`. */
  lemma FirstIndexAt(s: seq<real>, n: nat)
    requires n < |s| && s[n] !in s[..n]
    ensures FirstIndex(s, s[n]) == n
  {
  }

  /** The keys of `Counter(nums)` come in order of first occurrence. */
  lemma {:induction false} KeysInOrder(s: seq<real>)
    ensures InFirstOccurrenceOrder(Keys(s), s)
  {
    if |s| > 0 {
      var n := |s| - 1;
      var d := Keys(s[..n]);
      KeysInOrder(s[..n]);
      PrefixInOrder(d, s, n);
      if s[n] !in d {
        AppendInOrder(d, s, n);
      }
    }
  }

  /** The order of first occurrence in a prefix is the order in the whole. */
  lemma PrefixInOrder(d: seq<real>, s: seq<real>, n: nat)
    requires n <= |s| && InFirstOccurrenceOrder(d, s[..n])
    ensures InFirstOccurrenceOrder(d, s)
    ensures forall k :: 0 <= k < |d| ==> FirstIndex(s, d[k]) < n
  {
    forall k | 0 <= k < |d| ensures d[k] in s && FirstIndex(s, d[k]) == FirstIndex(s[..n], d[k]) {
      FirstIndexPrefix(s, n, d[k]);
      assert s[..n][FirstIndex(s[..n], d[k])] == d[k];
    }
  }

  /** A value met for the first time at `n` goes after every value met
      before it. */
  lemma AppendInOrder(d: seq<real>, s: seq<real>, n: nat)
    requires n < |s| && s[n] !in s[..n]
    requires InFirstOccurrenceOrder(d, s)
    requires forall k :: 0 <= k < |d| ==> FirstIndex(s, d[k]) < n
    ensures InFirstOccurrenceOrder(d + [s[n]], s)
  {
    FirstIndexAt(s, n);
    var e := d + [s[n]];
    forall i, j | 0 <= i < j < |e| ensures FirstIndex(s, e[i]) < FirstIndex(s, e[j]) {
      assert e[i] == d[i];
      if j < |d| {
        assert e[j] == d[j];
      }
    }
  }

  /** The largest frequency among `keys`, or 0 when there are none. */
  function MaxFreqOf(keys: seq<real>, s: seq<real>): (m: nat)
    ensures forall k :: 0 <= k < |keys| ==> Freq(s, keys[k]) <= m
    ensures |keys| == 0 ==> m == 0
    ensures |keys| > 0 ==> exists k :: 0 <= k < |keys| && Freq(s, keys[k]) == m
  {
    if |keys| == 0 then 0
    else
      var rest := MaxFreqOf(keys[1..], s);
      assert forall k :: 1 <= k < |keys| ==> keys[k] == keys[1..][k - 1];
      if Freq(s, keys[0]) >= rest then Freq(s, keys[0])
      else
        var k :| 0 <= k < |keys[1..]| && Freq(s, keys[1..][k]) == rest;
        assert keys[k + 1] == keys[1..][k];
        rest
  }

  /** `max(c.values())`: the frequency of the most frequent value. */
  function MaxFreq(s: seq<real>): (m: nat)
    requires |s| > 0
    ensures m >= 1
    ensures forall v :: v in s ==> Freq(s, v) <= m
    ensures exists i :: 0 <= i < |s| && Freq(s, s[i]) == m
  {
    var keys := Keys(s);
    var m := MaxFreqOf(keys, s);
    assert s[0] in keys;
    forall v | v in s ensures Freq(s, v) <= m {
      var k :| 0 <= k < |keys| && keys[k] == v;
    }
    var k :| 0 <= k < |keys| && Freq(s, keys[k]) == m;
    var i :| 0 <= i < |s| && s[i] == keys[k];
    m
  }

  /** `[k for k, v in c.items() if v == f]` over the given keys. */
  function WithFreq(keys: seq<real>, s: seq<real>, f: nat): (r: seq<real>)
    ensures forall v :: v in r <==> v in keys && Freq(s, v) == f
  {
    if |keys| == 0 then []
    else
      var rest := WithFreq(keys[1..], s, f);
      assert keys == [keys[0]] + keys[1..];
      if Freq(s, keys[0]) == f then [keys[0]] + rest else rest
  }

  /** A value is a mode when it occurs at least twice and no value occurs
      more often. */
  predicate IsMode(s: seq<real>, v: real) {
    v in s && Freq(s, v) >= 2 && forall w :: w in s ==> Freq(s, w) <= Freq(s, v)
  }

  /** `calcula_moda`: the values of the largest frequency, in order of first
      occurrence, and no value at all when that frequency is 1. */
  function Mode(s: seq<real>): (r: seq<real>)
    requires |s| > 0
    ensures forall v :: v in r <==> IsMode(s, v)
    ensures r == [] <==> forall v :: v in s ==> Freq(s, v) == 1
  {
    var m := MaxFreq(s);
    if m == 1 then
      forall v | v in s ensures Freq(s, v) == 1 {
        assert v in multiset(s);
      }
      []
    else
      var r := WithFreq(Keys(s), s, m);
      var i :| 0 <= i < |s| && Freq(s, s[i]) == m;
      assert s[i] in r;
      r
  }

  /** Picking from the keys keeps their order of first occurrence. */
  lemma {:induction false} WithFreqInOrder(keys: seq<real>, s: seq<real>, f: nat)
    requires InFirstOccurrenceOrder(keys, s)
    ensures InFirstOccurrenceOrder(WithFreq(keys, s, f), s)
  {
    if |keys| > 0 {
      var tail := keys[1..];
      TailInOrder(keys, s);
      WithFreqInOrder(tail, s, f);
      var rest := WithFreq(tail, s, f);
      if Freq(s, keys[0]) == f {
        forall v | v in rest ensures FirstIndex(s, keys[0]) < FirstIndex(s, v) {
          var t :| 0 <= t < |tail| && tail[t] == v;
          assert keys[t + 1] == v;
        }
        ConsInOrder(keys[0], rest, s);
      }
    }
  }

  /** A value met before every value of a list goes in front of it. */
  lemma ConsInOrder(x: real, d: seq<real>, s: seq<real>)
    requires x in s && InFirstOccurrenceOrder(d, s)
    requires forall v :: v in d ==> FirstIndex(s, x) < FirstIndex(s, v)
    ensures InFirstOccurrenceOrder([x] + d, s)
  {
    var e := [x] + d;
    assert forall k :: 0 < k < |e| ==> e[k] == d[k - 1];
    forall i, j | 0 <= i < j < |e| ensures FirstIndex(s, e[i]) < FirstIndex(s, e[j]) {
      if i == 0 {
        assert e[j] in d;
      }
    }
  }

  /** The modes are listed once each, in order of first occurrence. */
  lemma ModeInOrder(s: seq<real>)
    requires |s| > 0
    ensures InFirstOccurrenceOrder(Mode(s), s)
  {
    KeysInOrder(s);
    WithFreqInOrder(Keys(s), s, MaxFreq(s));
  }

  /** A list in order of first occurrence has no repeated value. */
  lemma OrderedDistinct(d: seq<real>, s: seq<real>)
    requires InFirstOccurrenceOrder(d, s)
    ensures forall i, j :: 0 <= i < j < |d| ==> d[i] != d[j]
  {
  }

  /** Dropping the first value keeps the order of first occurrence. */
  lemma TailInOrder(d: seq<real>, s: seq<real>)
    requires |d| > 0 && InFirstOccurrenceOrder(d, s)
    ensures InFirstOccurrenceOrder(d[1..], s)
    ensures forall v :: v in d[1..] <==> v in d && v != d[0]
  {
    var t := d[1..];
    forall i, j | 0 <= i < j < |t| ensures FirstIndex(s, t[i]) < FirstIndex(s, t[j]) {
      assert t[i] == d[i + 1] && t[j] == d[j + 1];
    }
    forall v ensures v in t <==> v in d && v != d[0] {
      if v in t {
        var k :| 0 <= k < |t| && t[k] == v;
        assert d[k + 1] == v;
      }
      assert d == [d[0]] + t;
    }
  }

  /** The first value of a list in order of first occurrence is the one
      met first in `s`. */
  lemma HeadFirst(d: seq<real>, s: seq<real>, v: real)
    requires |d| > 0 && InFirstOccurrenceOrder(d, s) && v in d
    ensures FirstIndex(s, d[0]) <= FirstIndex(s, v)
  {
    var k :| 0 <= k < |d| && d[k] == v;
  }

  /** Nothing is an element of an empty list. */
  lemma EmptyHasNone(a: seq<real>, x: real)
    requires |a| == 0
    ensures x !in a
  {
  }

  /** Two lists in order of first occurrence in `s` holding the same values
      are the same list. */
  lemma {:induction false} OrderedUnique(a: seq<real>, b: seq<real>, s: seq<real>)
    requires InFirstOccurrenceOrder(a, s) && InFirstOccurrenceOrder(b, s)
    requires forall v :: v in a <==> v in b
    ensures a == b
  {
    if |a| > 0 {
      assert a[0] in a;
      HeadFirst(a, s, b[0]);
      HeadFirst(b, s, a[0]);
      assert a[0] == s[FirstIndex(s, a[0])] == s[FirstIndex(s, b[0])] == b[0];
      TailInOrder(a, s);
      TailInOrder(b, s);
      OrderedUnique(a[1..], b[1..], s);
      assert a == [a[0]] + a[1..] && b == [b[0]] + b[1..];
    } else if |b| > 0 {
      EmptyHasNone(a, b[0]);
    }
  }

  /** Mode(s) is the only list of the modes of `s` in order of first
      occurrence. */
  lemma ModeUnique(s: seq<real>, r: seq<real>)
    requires |s| > 0
    requires InFirstOccurrenceOrder(r, s)
    requires forall v :: v in r <==> IsMode(s, v)
    ensures r == Mode(s)
  {
    ModeInOrder(s);
    OrderedUnique(r, Mode(s), s);
  }

  /** A value at two positions occurs at least twice. */
  lemma RepeatedFreq(s: seq<real>, i: nat, j: nat)
    requires i < j < |s| && s[i] == s[j]
    ensures Freq(s, s[i]) >= 2
  {
    assert s == s[..i] + [s[i]] + s[i + 1..j] + [s[j]] + s[j + 1..];
  }

  /** A value occurring twice sits at two positions. */
  lemma FreqRepeated(s: seq<real>, v: real) returns (i: nat, j: nat)
    requires Freq(s, v) >= 2
    ensures i < j < |s| && s[i] == v && s[j] == v
  {
    assert v in multiset(s);
    i := FirstIndex(s, v);
    assert s == s[..i] + [v] + s[i + 1..];
    assert multiset(s[..i])[v] == 0;
    assert v in multiset(s[i + 1..]);
    var k :| 0 <= k < |s[i + 1..]| && s[i + 1..][k] == v;
    j := i + 1 + k;
  }

  /** There is no mode exactly when all values of the sample are different. */
  lemma ModeEmptyIffDistinct(s: seq<real>)
    requires |s| > 0
    ensures Mode(s) == [] <==> forall i, j :: 0 <= i < j < |s| ==> s[i] != s[j]
  {
    if Mode(s) == [] {
      forall i, j | 0 <= i < j < |s| ensures s[i] != s[j] {
        if s[i] == s[j] {
          RepeatedFreq(s, i, j);
        }
      }
    } else {
      var v :| v in s && Freq(s, v) != 1;
      assert v in multiset(s);
      var i, j := FreqRepeated(s, v);
    }
  }

  /** The modes depend only on the multiset of the sample: a reordering of the
      input has the same modes, though possibly listed in another order. */
  lemma ModePermutation(a: seq<real>, b: seq<real>)
    requires |a| > 0 && multiset(a) == multiset(b)
    ensures |b| > 0 && forall v :: v in Mode(a) <==> v in Mode(b)
  {
    assert |b| == |multiset(b)| == |multiset(a)| == |a|;
    forall v ensures v in a <==> v in b {
      assert v in a <==> v in multiset(a);
      assert v in b <==> v in multiset(b);
    }
  }
}
