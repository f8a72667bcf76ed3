# Descriptive statistics of a typed-in list of numbers

This project models the computational core of `estatistica.py`, a small
teaching page that reads a comma-separated list of numbers and shows its
mean, median, modes and sample variance.

- `processa_entrada` splits the text on commas and strips every piece. It
  skips the pieces that are empty once stripped and converts the rest to
  numbers. It gives `None` when nothing is left or when any piece fails to
  convert (`Parsing.ParseInput`).
- `calcula_media` is the sum over the count (`Statistics.Mean`).
- `calcula_mediana` sorts the sample. It takes the middle element for an
  odd count and the average of the two middle elements for an even count
  (`Statistics.Median`, with `Sorting.Sort`).
- `calcula_moda` counts the values in first-occurrence order, the order of
  `collections.Counter`. It keeps those of the highest frequency and gives
  `[]` when that frequency is 1 (`Modes.Mode`, with `Modes.Keys` and
  `Modes.MaxFreq`).
- `calcula_variancia` is the sum of squared deviations from the mean over
  n - 1 (`Statistics.Variance`).
- The page itself stops on invalid input. Otherwise, over exact reals, it
  computes the four statistics, except that one number makes the variance
  divide by zero (`Analysis.RunAsWritten`). The corrected `Analysis.Run`
  reports no variance then. Float overflow, a second way the page can
  crash, is not modelled (see "Left out").

Files:

- `wrappers.dfy` has `Option`. It is used where `processa_entrada` gives
  `None`, and for `parse`, which stands for `float()` and gives `None`
  where `float()` raises.
- `parsing.dfy` has the parser, with Python's `str.split` and `str.strip`.
- `samples.dfy` has sums, counts, minimum and maximum.
- `sorting.dfy` has insertion sort, a functional stand-in for `sorted`.
- `statistics.dfy` has the mean, median and variance.
- `modes.dfy` has the modes.
- `analysis.dfy` has the page's pipeline.

Python's `float(token)` is a parameter `parse: string -> Option<real>`. The
parser's properties hold for every such function. Floats are modelled as
exact reals.

## Model

| member | source | states |
|---|---|---|
| Parsing.ParseInput | estatistica.py:24-31 | The result is a list exactly when at least one non-blank token exists and every token converts. It then has one number per token, in order, and each number is the conversion of its token. Tokens keep input order: the tokens of `a,b` are those of `a` followed by those of `b` (`Parsing.FieldsAppend`). Consequences kept as helpers: the result depends on the text only through its tokens (`Parsing.SameFieldsSameResult`), and one token that fails to convert rejects the whole input (`Parsing.OneBadTokenRejects`). |
| Parsing.FieldsMembers | estatistica.py:26 | A string is a token exactly when it is non-empty and is the stripped form of one of the comma-separated pieces. |
| Parsing.ParseAll | estatistica.py:26 | The conversion succeeds exactly when every token converts, and then gives one value per token, each the conversion of its own token. |
| Parsing.StripSpec | estatistica.py:26 | `strip()` returns a contiguous slice with only whitespace cut from each side. That slice neither starts nor ends with whitespace. It is empty exactly when the text is all whitespace. |
| Parsing.JoinSplit | estatistica.py:26 | Joining the pieces of `split(",")` with commas gives the text back, and no piece contains a comma. |
| Parsing.SplitJoin | estatistica.py:26 | Splitting a comma-join of comma-free pieces gives the same pieces back. |
| Parsing.SplitAppend | estatistica.py:26 | Splitting at one comma gives the pieces of the left part followed by the pieces of the right part. |
| Parsing.SingleField | estatistica.py:26 | A comma-free piece that is not all whitespace gives exactly one token, the piece stripped. With `FieldsAppend` and `BlankInputRejected` this fixes the token list of every text. |
| Parsing.BlankFieldSkipped | estatistica.py:26 | A whitespace-only piece between two commas changes neither the tokens nor the parse result. |
| Parsing.BlankInputRejected | estatistica.py:26-28 | A text of only commas and whitespace has no tokens and is rejected. |
| Sorting.Sort | estatistica.py:49 | The result is sorted, has the same length as the input and is a permutation of it. |
| Sorting.SortedUnique | estatistica.py:49 | Two sorted permutations of the same multiset are equal, so `sorted` has one possible result. |
| Statistics.Mean | estatistica.py:46 | The mean lies between the smallest and the largest number. Multiplied by the count it gives the sum back (helper `Statistics.MeanScaled`). |
| Statistics.MeanPermutation | estatistica.py:46 | Reordering the numbers does not change the mean. |
| Statistics.MeanOfConstant | estatistica.py:46 | The mean of a sample of one repeated value is that value. |
| Statistics.Median | estatistica.py:47-53 | The median lies between the smallest and the largest number. |
| Statistics.MedianOfSorted | estatistica.py:47-53 | For any sorted permutation of the numbers, the median is its middle element when the count is odd, and the average of its two middle elements when the count is even. |
| Statistics.MedianPermutation | estatistica.py:47-53 | Reordering the numbers does not change the median. |
| Statistics.MedianSplitsSample | estatistica.py:47-53 | At least half the numbers are at most the median and at least half are at least the median. For an odd count the median is one of the numbers. |
| Statistics.Variance | estatistica.py:61-63 | The sample variance is never negative. |
| Statistics.VarianceZeroIffConstant | estatistica.py:61-63 | The variance is zero exactly when all the numbers are equal. |
| Statistics.VariancePermutation | estatistica.py:61-63 | Reordering the numbers does not change the variance. |
| Modes.Keys | estatistica.py:55 | The keys of the counter are the distinct values of the sample, each once. |
| Modes.KeysInOrder | estatistica.py:55 | The counter's keys come in order of first occurrence in the sample. |
| Modes.MaxFreq | estatistica.py:56 | The highest frequency is at least 1 and no value occurs more often. Some element occurs exactly that often. |
| Modes.FreqCount | estatistica.py:55 | The count `Counter` keeps for a value is the number of elements equal to it. |
| Modes.Mode | estatistica.py:54-60 | A value is returned exactly when it occurs at least twice and no value occurs more often. The result is empty exactly when every value occurs once. |
| Modes.ModeInOrder | estatistica.py:55-57 | The modes come in order of first occurrence in the sample, so no mode is listed twice (helper `Modes.OrderedDistinct`). |
| Modes.ModeUnique | estatistica.py:54-60 | Any list of exactly the modes in first-occurrence order is the result of `calcula_moda`. |
| Modes.ModeEmptyIffDistinct | estatistica.py:56-59 | There is no mode exactly when all the numbers are pairwise distinct. |
| Modes.ModePermutation | estatistica.py:54-60 | Reordering the numbers does not change which values are modes. |
| Analysis.PaddedTokens | estatistica.py:26 | The text `3, 5` has exactly the two tokens `3` and `5`: the space after the comma is stripped. |
| Analysis.DefaultMean | estatistica.py:46 | On the page's default input `3, 5, 2, 5, 8, 10, 3` the mean is 36/7. |
| Analysis.DefaultMedian | estatistica.py:47-53 | On the default input the median is 5, the middle of `2, 3, 3, 5, 5, 8, 10`. |
| Analysis.DefaultModes | estatistica.py:54-60 | On the default input the modes are `[3.0, 5.0]`, in that order. |
| Analysis.RunAsWritten | estatistica.py:33-37 | The page stops with the error message exactly when the input is rejected. Over exact reals, it divides by zero exactly when one number is read. |
| Analysis.Summarize | estatistica.py:69-72 | The report holds a variance exactly when there are two or more numbers, and that variance is non-negative. The mean and median lie within the sample's range. The mode list is empty exactly when all numbers are distinct. |
| Analysis.Run | estatistica.py:33-37 | The corrected page never divides by zero. It stops with the error message exactly when the input is rejected. |
| Analysis.RunAgrees | estatistica.py:69-72 | Wherever the page as written completes, the corrected page shows the same report. |
| Analysis.SingleNumberDividesByZero | estatistica.py:72 | The text `7` is read as the one number 7. The page as written then divides by zero, and the corrected page reports mean 7, median 7, no mode and no variance. |

## Left out

- `calcula_desvio_padrao` and `calcula_percentil` are left out. They are thin wrappers around the numpy calls `np.sqrt` and `np.percentile`, whose code is not part of this program. `calcula_desvio_padrao` is the square root of `Statistics.Variance`, which is proved non-negative, so the root is always defined.
- The Streamlit page, the pandas data frames, the Plotly histograms, the LaTeX formulas and the number formatting are display only and are left out.
- `float()` itself is left out. It becomes the `parse` parameter, so which strings are numbers, and NaN and infinities, are not modelled.
- IEEE-754 rounding is left out. Sums, quotients and squares are exact.
- Analysis.RunAsWritten: does not model Python's `OverflowError`. The float `**` at estatistica.py:63 raises it when a deviation from the mean exceeds about 1.3e154, for example on the input `1e200, 0`, and the page as written then also crashes at line 72. Over exact reals a square cannot overflow, so `RunAsWritten` reports `Computed` for such inputs and its outcomes cover only the crashes that exact arithmetic has. An overflowing sum in `calcula_media` gives `inf` rather than an exception and is not modelled either.
- Statistics.Variance: requires at least two numbers. The source divides by zero on one number; that case is modelled separately by `Analysis.RunAsWritten`.
- Statistics.Mean, Statistics.Median and Modes.Mode: require a non-empty sample. The page only calls them after `processa_entrada` has rejected the empty list.
- Sorting.Sort: an insertion sort stands in for Python's `sorted`. `Sorting.SortedUnique` shows that any correct sort gives the same list.
- The message at estatistica.py:126-127 says there is no mode because "all numbers appear the same number of times". The code returns no mode only when every number appears once. For `1, 1, 2, 2` it returns `[1.0, 2.0]`. The model follows the code.

## Findings

| source | as written | input that shows it | evidently intended | confidence | as-written member | corrected member |
|---|---|---|---|---|---|---|
| estatistica.py:61-63, 72 | `calcula_variancia` divides by `len(nums) - 1` for every accepted input, and the page calls it unconditionally | `7` (one number): `len(nums) - 1` is 0 and Python raises `ZeroDivisionError`, so the page crashes instead of showing the mean, median and mode | a single number has no sample variance; the page should still show the other statistics | not executed | Analysis.RunAsWritten, Analysis.SingleNumberDividesByZero | Analysis.Run, Analysis.RunAgrees |
