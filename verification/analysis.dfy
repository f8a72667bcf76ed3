/** The page's pipeline around the helpers: read the numbers with
    `processa_entrada`, stop on invalid input, then compute the mean, the
    median, the modes and the variance of the numbers read.

    The page computes the variance of any accepted input, and for a single
    number that is a division by zero (`len(nums) - 1` is 0), which Python
    raises as `ZeroDivisionError`. `RunAsWritten` models that behaviour;
    `Run` is the corrected pipeline, which reports no variance for one
    number and computes everything else. Numbers are exact reals here, so
    the `OverflowError` that Python's float `**` raises on a huge deviation
    is not one of the outcomes. */
module Analysis {
  import opened Wrappers
  import opened Parsing
  import opened Samples
  import opened Statistics
  import opened Modes
  import opened Sorting

  /** What the page shows for an accepted input. */
  datatype Report = Report(mean: real, median: real, mode: seq<real>, variance: Option<real>)

  /** How a run of the page ends over exact reals: the "enter valid
      numbers" message and `st.stop()`, an uncaught division by zero, or the
      statistics. */
  datatype Outcome = InvalidInput | DivisionByZero | Computed(report: Report)

  /** The report of an accepted sample, with the sample variance only when
      there are at least two numbers. */
  function Summarize(s: seq<real>): (r: Report)
    requires |s| > 0
    ensures r.variance.Some? <==> |s| >= 2
    ensures r.variance.Some? ==> r.variance.value >= 0.0
    ensures Min(s) <= r.mean <= Max(s)
    ensures Min(s) <= r.median <= Max(s)
    ensures r.mode == [] <==> forall i, j :: 0 <= i < j < |s| ==> s[i] != s[j]
  {
    ModeEmptyIffDistinct(s);
    Report(Mean(s), Median(s), Mode(s), if |s| >= 2 then Some(Variance(s)) else None)
  }

  /** The page as written: the variance divides by `len(nums) - 1` with no
      guard. */
  function RunAsWritten(txt: string, parse: string -> Option<real>): (r: Outcome)
    ensures r == InvalidInput <==> ParseInput(txt, parse) == None
    ensures r == DivisionByZero <==>
      ParseInput(txt, parse).Some? && |ParseInput(txt, parse).value| == 1
  {
    var p := ParseInput(txt, parse);
    if p.None? then InvalidInput
    else if |p.value| - 1 == 0 then DivisionByZero
    else Computed(Report(Mean(p.value), Median(p.value), Mode(p.value), Some(Variance(p.value))))
  }

  /** The corrected page: one number has no sample variance, and the rest of
      the report is still shown. */
  function Run(txt: string, parse: string -> Option<real>): (r: Outcome)
    ensures r != DivisionByZero
    ensures r == InvalidInput <==> ParseInput(txt, parse) == None
    ensures r.Computed? ==> ParseInput(txt, parse).Some?
  {
    var p := ParseInput(txt, parse);
    if p.None? then InvalidInput else Computed(Summarize(p.value))
  }

  /** Wherever the page as written completes, the corrected page shows the
      same report. */
  lemma RunAgrees(txt: string, parse: string -> Option<real>)
    requires RunAsWritten(txt, parse) != DivisionByZero
    ensures Run(txt, parse) == RunAsWritten(txt, parse)
  {
  }

  /** Whitespace around a number is stripped: the text "3, 5" has the two
      tokens "3" and "5". */
  lemma PaddedTokens()
    ensures Fields("3, 5") == ["3", "5"]
  {
    var a, b := "3", " 5";
    assert a + [Comma] + b == "3, 5";
    FieldsAppend(a, b);
    assert !IsSpace(a[0]) && Strip(a) == "3";
    SingleField(a);
    assert IsSpace(b[0]) && b[1..] == "5" && !IsSpace(b[1]);
    assert TrimStart(b) == "5" && Strip(b) == "5";
    SingleField(b);
  }

  /** The text "7" is accepted as the single number 7, and the page as
      written then divides by zero while the corrected page reports it. */
  lemma SingleNumberDividesByZero(parse: string -> Option<real>)
    requires parse("7") == Some(7.0)
    ensures ParseInput("7", parse) == Some([7.0])
    ensures RunAsWritten("7", parse) == DivisionByZero
    ensures Run("7", parse) == Computed(Report(7.0, 7.0, [], None))
  {
    assert !IsSpace("7"[0]);
    SingleField("7");
    assert Strip("7") == "7";
    var p := ParseInput("7", parse);
    assert Fields("7")[0] == "7";
    assert p.Some? && |p.value| == 1 && p.value[0] == 7.0;
    var s := [7.0];
    assert p.value == s;
    assert Min(s) == 7.0 && Max(s) == 7.0;
    var r := Summarize(s);
    assert r.mean == 7.0 && r.median == 7.0 && r.mode == [] && r.variance == None;
  }

  /** The page's default input, `3, 5, 2, 5, 8, 10, 3`. */
  const DefaultNumbers: seq<real> := [3.0, 5.0, 2.0, 5.0, 8.0, 10.0, 3.0]

  /** The mean of the default sample is 36/7. */
  lemma DefaultMean()
    ensures Mean(DefaultNumbers) == 36.0 / 7.0
  {
    DefaultSum();
    assert Mean(DefaultNumbers) == Sum(DefaultNumbers) / 7.0;
  }

  /** The default numbers add up to 36. */
  lemma DefaultSum()
    ensures Sum(DefaultNumbers) == 36.0
  {
  }

  /** The default input in ascending order. */
  const SortedDefault: seq<real> := [2.0, 3.0, 3.0, 5.0, 5.0, 8.0, 10.0]

  lemma DefaultSorted()
    ensures IsSorted(SortedDefault)
  {
  }

  /** `SortedDefault` holds the same numbers as the default input. */
  lemma DefaultPermutation()
    ensures multiset(SortedDefault) == multiset(DefaultNumbers)
  {
    assert multiset(DefaultNumbers) == multiset{3.0, 5.0, 2.0, 5.0, 8.0, 10.0, 3.0};
    assert multiset(SortedDefault) == multiset{2.0, 3.0, 3.0, 5.0, 5.0, 8.0, 10.0};
  }

  /** The median of the default sample is 5, the middle of
      `2, 3, 3, 5, 5, 8, 10`. */
  lemma DefaultMedian()
    ensures Median(DefaultNumbers) == 5.0
  {
    DefaultSorted();
    DefaultPermutation();
    MiddleOfSorted(DefaultNumbers, SortedDefault, 5.0);
  }

  /** For an odd count, the median is the middle of any sorted permutation. */
  lemma MiddleOfSorted(s: seq<real>, t: seq<real>, m: real)
    requires |s| % 2 == 1 && IsSorted(t) && multiset(t) == multiset(s)
    requires |t| == |s| && t[|s| / 2] == m
    ensures Median(s) == m
  {
    MedianOfSorted(s, t);
  }

  /** The modes of the default sample are 3 and 5, each twice, in the order
      they first appear. */
  lemma DefaultModes()
    ensures Mode(DefaultNumbers) == [3.0, 5.0]
  {
    var s, r := DefaultNumbers, [3.0, 5.0];
    DefaultFrequencies();
    DefaultOrder();
    DefaultModeSet();
    ModeUnique(s, r);
  }

  /** 3 and 5 are the modes of the default sample. */
  lemma DefaultModeSet()
    ensures forall v :: v in [3.0, 5.0] <==> IsMode(DefaultNumbers, v)
  {
    DefaultFrequencies();
    forall v ensures v in [3.0, 5.0] <==> IsMode(DefaultNumbers, v) {
      if v != 3.0 && v != 5.0 && v in DefaultNumbers {
        assert Freq(DefaultNumbers, v) == 1;
      }
    }
  }

  /** 3 and 5 occur twice in the default sample, every other value once. */
  lemma DefaultFrequencies()
    ensures Freq(DefaultNumbers, 3.0) == 2 && Freq(DefaultNumbers, 5.0) == 2
    ensures forall v :: v in DefaultNumbers && v != 3.0 && v != 5.0 ==> Freq(DefaultNumbers, v) == 1
  {
    assert multiset(DefaultNumbers) == multiset{3.0, 5.0, 2.0, 5.0, 8.0, 10.0, 3.0};
  }

  /** 3 occurs before 5 in the default sample. */
  lemma DefaultOrder()
    ensures InFirstOccurrenceOrder([3.0, 5.0], DefaultNumbers)
  {
    assert FirstIndex(DefaultNumbers, 3.0) == 0;
    assert FirstIndex(DefaultNumbers, 5.0) == 1;
  }
}
