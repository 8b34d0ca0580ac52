# Verified model of the statistics, converter and word-count algorithms

Three small command-line tools each wrap one algorithm in file and console
handling. This project models those algorithms in Dafny and proves what they
compute:

- **Integer conversion** (`4.2/P2/source/convertNumbers.py`). `to_binary` and
  `to_hex` write a signed integer in base 2 and base 16. They divide
  repeatedly, collect the digits least significant first, and reverse them.
  `main` then lays the results out as a table of fixed-width rows. The loops
  are methods (`ConvertNumbers.ToBinary`, `ConvertNumbers.ToHex`,
  `ConvertNumbers.BuildRows`). They are proved against the reference numeral
  `Numerals.Numeral` and its reader `Numerals.ParseNumeral`. The two are shown
  to be inverse: reading back the numeral of any integer gives that integer,
  and every canonical numeral is the numeral of the value it reads as.
- **Order statistics** (`4.2/P1/source/computeStatistics.py`).
  - `insertion_sort` copies its input into an array and sorts the copy in
    place. It is proved ascending and a permutation of the input.
  - `calculate_median` is a function. Lemmas show that it splits the list in
    halves and does not depend on which ascending permutation it is given.
  - `calculate_mode` is a single scan over runs of equal values. Its result
    is the datatype `NoMode | Mode(v)`, in place of the `"#N/A"` string.
- **Word frequencies** (`4.2/P3/source/wordCount.py`).
  - The counting loop of `count_words` runs over a sequence of lines. It is
    proved to produce the frequency table of the tokens of `str.split()`:
    keys, counts and total.
  - `format_results` ranks the words by descending count, ties in ascending
    string order, and emits one padded row per word and a `Grand Total` row.
  - The ranking order is proved to be a strict total order, so exactly one
    listing satisfies it.

Files: `wrappers.dfy` (the `Option` type), `text.dfy` (column padding),
`numerals.dfy` (digits, numerals and their reader), `convert_numbers.dfy`,
`statistics.dfy`, `whitespace.dfy` (`strip` and `split`), `lex_order.dfy`
(string `<`), `word_count.dfy`.

Notes on the code's behaviour:
- Among runs of equal, maximal length, `calculate_mode` keeps the **first**,
  i.e. the smallest value, because both comparisons are a strict `>`
  (`computeStatistics.py:85`, `:91`). The mode of `[1, 1, 2, 2]` is `1`, not
  the largest value `2` (`Statistics.ModeTieKeepsFirst`).
- `calculate_variance` divides by `len(values)`, giving the population
  variance and not the sample variance. It is not part of this model.
- The count column of the word report is right-justified (`:>8`).

## Model

| member | source | states |
|---|---|---|
| ConvertNumbers.ToBinary | 4.2/P2/source/convertNumbers.py:67-85 | the result is the minimal signed base-2 numeral of `number` ("0" for zero, "-" followed by the bits of `-number` for a negative number), and reading it back as a signed base-2 numeral gives `number` |
| ConvertNumbers.ToHex | 4.2/P2/source/convertNumbers.py:88-106 | the result is the minimal signed base-16 numeral of `number`, written with the digits of `HEX_DIGITS` ("0" for zero, "-" followed by the digits of `-number` for a negative number), and reading it back gives `number` |
| ConvertNumbers.Reversed | 4.2/P2/source/convertNumbers.py:84 | the reversed list has the same length, and its element `k` is element `len - 1 - k` of the original |
| ConvertNumbers.BinaryMinimal | 4.2/P2/source/convertNumbers.py:78-85 | for `n > 0` every character of the binary numeral is '0' or '1', the first is '1', and 2^(len-1) <= n < 2^len |
| ConvertNumbers.HexUpperCase | 4.2/P2/source/convertNumbers.py:99-106 | for `n != 0` the hex digits after the optional "-" are upper-case digits of `HEX_DIGITS`, the first is not '0', and 16^(len-1) <= abs(n) < 16^len |
| ConvertNumbers.ColumnsLayout | 4.2/P2/source/convertNumbers.py:152-157 | the four left-justified fields follow each other: each field is whole at its offset, each column is `max(len, width)` wide (6, 12, 28, 10), and the line is the sum of the four widths long |
| ConvertNumbers.HeaderLayout | 4.2/P2/source/convertNumbers.py:152-157 | the header is 56 characters long, with `ITEM`, `NUMBER`, `BINARY` and `HEX` starting at columns 0, 6, 18 and 46 |
| ConvertNumbers.RowColumns | 4.2/P2/source/convertNumbers.py:167-172 | when every field fits its width (6/12/28/10), the row is 56 characters long and each field starts at column 0, 6, 18 or 46 |
| ConvertNumbers.BuildRows | 4.2/P2/source/convertNumbers.py:152-173 | the table is the header followed by one row per input number, in input order, with item index `k + 1`, the number, and its binary and hex numerals |
| Numerals.DigitChar | 4.2/P2/source/convertNumbers.py:31 | the character chosen for a digit value below 16 is the digit that reads back as that value |
| Numerals.HexDigitValue | 4.2/P2/source/convertNumbers.py:31 | the entry of `HEX_DIGITS` at index `d` is the digit whose value is `d`, for each `d` in 0..15 |
| Numerals.MagnitudeDigits | 4.2/P2/source/convertNumbers.py:99-105 | the digits of `n` produced by repeated division are digits of the radix, read back as `n`, and for `n > 0` do not start with '0' |
| Numerals.MagnitudeLength | 4.2/P2/source/convertNumbers.py:79-85 | for `n > 0` the digit string has the minimal length: base^(len-1) <= n < base^len |
| Numerals.NumeralRoundTrip | 4.2/P2/source/convertNumbers.py:67-106 | reading the numeral of any integer back as a signed numeral in the same radix gives that integer |
| Numerals.NumeralZero | 4.2/P2/source/convertNumbers.py:69-70 | the numeral is "0" exactly when the number is zero |
| Numerals.NumeralCanonical | 4.2/P2/source/convertNumbers.py:72-85 | the numeral of every integer is canonical: "0", or an optional "-" and digits that do not start with '0' |
| Numerals.ParseCanonical | 4.2/P2/source/convertNumbers.py:67-106 | every canonical numeral is read successfully, and it is the numeral of the value it reads as |
| Text.LeftJustify | 4.2/P2/source/convertNumbers.py:168-171 | the padded text starts with the whole field, is followed only by spaces, and is `max(len, width)` long, so the field is never truncated |
| Text.RightJustify | 4.2/P3/source/wordCount.py:83 | the padded text ends with the whole field, is preceded only by spaces, and is `max(len, width)` long |
| Statistics.InsertionSort | 4.2/P1/source/computeStatistics.py:43-54 | the result is ascending and has the same multiset as the input; the input itself is a value and does not change |
| Statistics.HoleStart | 4.2/P1/source/computeStatistics.py:47-48 | taking `key` from index `i` of a list whose first `i` elements are ascending leaves a hole at `i` |
| Statistics.HoleShift | 4.2/P1/source/computeStatistics.py:49-51 | the shift loop only moves an element strictly greater than `key`: the elements other than the hole stay ascending, and those right of the hole stay greater than `key` |
| Statistics.HoleFill | 4.2/P1/source/computeStatistics.py:49-52 | when the element left of the hole is at most `key`, or there is none, putting `key` into the hole makes the first `i + 1` elements ascending |
| Statistics.ShiftKeepsMultiset | 4.2/P1/source/computeStatistics.py:50-51 | moving the element at `j` up into the hole keeps the multiset of the list with `key` in the hole |
| Statistics.SortedUnique | 4.2/P1/source/computeStatistics.py:43-54 | two ascending lists with the same multiset are equal, so the sorted output is determined by the input |
| Statistics.Median | 4.2/P1/source/computeStatistics.py:64-71 | the median lies between the two middle elements, at indices `(n - 1) // 2` and `n // 2`, and for odd `n` it is the middle element itself |
| Statistics.MedianBounds | 4.2/P1/source/computeStatistics.py:64-71 | the median of a non-empty ascending list lies between its first and its last element |
| Statistics.MedianSplitsHalves | 4.2/P1/source/computeStatistics.py:64-71 | at least half of the elements are at most the median, and at least half are at least the median |
| Statistics.MedianOfPermutation | 4.2/P1/source/computeStatistics.py:64-71 | two ascending permutations of the same values have the same median |
| Statistics.CalculateMode | 4.2/P1/source/computeStatistics.py:74-98 | a returned value occurs in the list; on sorted input the result is `NoMode` exactly when every value occurs once, and otherwise it is a value of maximal count, the smallest such value |
| Statistics.ScanContinueRun | 4.2/P1/source/computeStatistics.py:82-83 | a value equal to the current one extends the run and keeps the scan invariant |
| Statistics.ScanNewRun | 4.2/P1/source/computeStatistics.py:84-89 | a different value closes the run; the closed run becomes the best only when strictly longer, and the invariant holds for the new run |
| Statistics.ScanEnd | 4.2/P1/source/computeStatistics.py:91-98 | the final check of the last run and the `max_count == 1` test give a result satisfying the mode specification |
| Statistics.ModeUnique | 4.2/P1/source/computeStatistics.py:74-98 | the mode specification admits exactly one result for each list |
| Statistics.ModeTieKeepsFirst | 4.2/P1/source/computeStatistics.py:85-87 | for [1, 1, 2, 2] the result is 1 and not 2 |
| Whitespace.TrimLeft | 4.2/P3/source/wordCount.py:59 | the text left after removing leading whitespace is empty or starts with a non-whitespace character |
| Whitespace.TrimRight | 4.2/P3/source/wordCount.py:59 | the text left after removing trailing whitespace is empty or ends with a non-whitespace character |
| Whitespace.TrimLeftRemovesSpace | 4.2/P3/source/wordCount.py:59 | removing leading whitespace leaves a suffix of the text, and everything removed before it is whitespace |
| Whitespace.TrimRightRemovesSpace | 4.2/P3/source/wordCount.py:59 | removing trailing whitespace leaves a prefix of the text, and everything removed after it is whitespace |
| Whitespace.Strip | 4.2/P3/source/wordCount.py:59 | the stripped text is empty or begins and ends with a non-whitespace character |
| Whitespace.Split | 4.2/P3/source/wordCount.py:65 | every token is non-empty and has no whitespace, and the tokens put together are the non-whitespace characters of the line in order |
| Whitespace.SplitFrom | 4.2/P3/source/wordCount.py:65 | every token is non-empty and has no whitespace, and the tokens put together are the non-whitespace characters of the line in order |
| Whitespace.SplitWord | 4.2/P3/source/wordCount.py:65 | a non-empty run without whitespace is one token |
| Whitespace.SplitSeparated | 4.2/P3/source/wordCount.py:65 | a whitespace character always separates tokens: the tokens of `a + c + b` are those of `a` followed by those of `b` |
| Whitespace.SplitStrip | 4.2/P3/source/wordCount.py:59-65 | stripping a line does not change its tokens |
| Whitespace.BlankIffNoTokens | 4.2/P3/source/wordCount.py:59-65 | a line is empty after stripping exactly when it has no tokens |
| WordCount.LineTokensAreSplit | 4.2/P3/source/wordCount.py:59-65 | the blank-line check and the strip change nothing: a line contributes exactly its `split()` tokens |
| WordCount.TokensAreWords | 4.2/P3/source/wordCount.py:59-65 | every token read from the lines is non-empty and has no whitespace |
| WordCount.AllTokensStep | 4.2/P3/source/wordCount.py:59-65 | a line that is blank after stripping adds no token; any other line adds the tokens of its stripped text |
| WordCount.BlankLinesStep | 4.2/P3/source/wordCount.py:58-63 | reading line `i + 1` reports its number exactly when it is blank after stripping, keeping the reported numbers increasing |
| WordCount.CountTokens | 4.2/P3/source/wordCount.py:67-69 | counting the tokens of a line on top of the table of the tokens before it gives the table and the total of all of them |
| WordCount.CountWords | 4.2/P3/source/wordCount.py:56-71 | the table and the total are those of all tokens of all lines, and the lines reported empty are exactly the blank ones, in increasing order |
| WordCount.CountsAdd | 4.2/P3/source/wordCount.py:69 | counting a token once more adds one to its count, or adds it with count 1, and leaves every other count as it was |
| WordCount.SumAdd | 4.2/P3/source/wordCount.py:68-69 | counting a token once more adds one to the sum of the counts, as `total_words += 1` does to the total |
| WordCount.TallyAdd | 4.2/P3/source/wordCount.py:67-69 | one step of the token loop keeps the table equal to the counts of the tokens seen, with counts summing to the total |
| WordCount.FrequenciesTally | 4.2/P3/source/wordCount.py:67-69 | the table built by counting tokens one by one has the distinct tokens as keys, each counted as often as it occurs, and its counts sum to the number of tokens |
| WordCount.TallyWords | 4.2/P3/source/wordCount.py:67-69 | every key of the final table is a non-empty word without whitespace and has a count of at least 1 |
| WordCount.WordsTally | 4.2/P3/source/wordCount.py:56-71 | for the lines of a file, the keys are exactly the distinct tokens, each key is a non-empty word without whitespace counted as often as it occurs (so at least once), and the counts sum to `total_words` |
| WordCount.MapSumUpdate | 4.2/P3/source/wordCount.py:69 | setting one count changes the sum of the counts by the difference |
| WordCount.OneMoreLine | 4.2/P3/source/wordCount.py:67-69 | a further line adds its own occurrences of each word and leaves every other word's number of occurrences unchanged |
| WordCount.OneMoreLineCounts | 4.2/P3/source/wordCount.py:67-69 | a further line leaves the table entry of every word that is not one of its tokens as it was |
| WordCount.RanksBeforeTransitive | 4.2/P3/source/wordCount.py:79 | the ranking by (descending count, ascending word) is transitive |
| WordCount.RanksBeforeTotal | 4.2/P3/source/wordCount.py:79 | any two distinct words of the table are ranked one way or the other |
| WordCount.RanksBeforeAsymmetric | 4.2/P3/source/wordCount.py:79 | no two words rank before each other, and no word ranks before itself |
| WordCount.FirstRankedExists | 4.2/P3/source/wordCount.py:79 | every non-empty set of words has a first-ranked word |
| WordCount.RankWords | 4.2/P3/source/wordCount.py:79 | the output lists every word of the table once, in ranking order |
| WordCount.RankedUnique | 4.2/P3/source/wordCount.py:79 | exactly one listing of a table is in ranking order, so the order of the report is deterministic |
| WordCount.ResultRowLayout | 4.2/P3/source/wordCount.py:83 | a row starts with the whole word and ends with the whole count, never truncated, and is `max(len(word), 20) + max(len(count), 8)` characters long |
| WordCount.ResultRowFits | 4.2/P3/source/wordCount.py:76-77 | when the word fits 20 columns and the count fits 8, the row is 28 characters long: the word, then spaces only, then the count ending at column 28 |
| WordCount.WordRows | 4.2/P3/source/wordCount.py:81-83 | the loop emits, for each word in the given order, the row of that word and its count in the table |
| WordCount.FormatResults | 4.2/P3/source/wordCount.py:74-86 | there is one row per word, in ranking order, with its count, and then a last `Grand Total` row carrying `total_words`: `len(frequencies) + 1` rows in all |
| WordCount.ExampleSplit | 4.2/P3/source/wordCount.py:65 | the line "a b b c c c" splits into the six tokens a, b, b, c, c, c |
| WordCount.ExampleTokens | 4.2/P3/source/wordCount.py:57-65 | a file with the one line "a b b c c c" yields the tokens a, b, b, c, c, c |
| WordCount.ExampleFrequencies | 4.2/P3/source/wordCount.py:67-69 | counting a, b, b, c, c, c gives a: 1, b: 2, c: 3 |
| WordCount.RankingExample | 4.2/P3/source/wordCount.py:56-79 | a file with the one line "a b b c c c" gives the table a: 1, b: 2, c: 3 with 6 tokens, and the table ranks c, b, a |
| WordCount.TieExample | 4.2/P3/source/wordCount.py:79 | equal counts are ordered alphabetically, not by first appearance |
| LexOrder.Less | 4.2/P3/source/wordCount.py:79 | a string is less than another only when they differ, and a proper prefix is always less than the whole |
| LexOrder.Irreflexive | 4.2/P3/source/wordCount.py:79 | no string is less than itself under Python's string comparison |
| LexOrder.Asymmetric | 4.2/P3/source/wordCount.py:79 | string `<` is asymmetric |
| LexOrder.Transitive | 4.2/P3/source/wordCount.py:79 | string `<` is transitive |
| LexOrder.Total | 4.2/P3/source/wordCount.py:79 | two different strings are ordered one way or the other |

## Left out

- File and console handling is not modelled: `open`, reading lines from a file, `print`, writing the results file, the `sys.argv` and `os.path.isfile` checks, and `get_results_path` in all three tools. `CountWords` takes the file's lines as a sequence, and returns the numbers of the lines it would report as empty instead of printing them.
- Wall-clock timing and the `TIME_ELAPSED_SECONDS` line are not modelled. Neither is the "no valid data" branch of each `main` that prints that line.
- `read_integers` and `read_numbers` are not modelled. They depend on Python's float-literal grammar and IEEE-754 conversion (`float`, `is_integer`, `int`).
- `calculate_mean`, `calculate_variance` and `sqrt_newton` are not modelled. They are floating-point accumulations and a 30-step Newton iteration.
- Statistics values are `real`: exact rationals, not IEEE-754 doubles. `Statistics.Median` computes the mean of the two middle values exactly, without rounding.
- NaN and the infinities are not modelled; every value is finite. The code behaves differently on them. With a NaN in the input the insertion sort's output need not be ascending, because `sorted_values[j] > key` is False whenever either side is NaN (`computeStatistics.py:49`). NaN never equals itself at `computeStatistics.py:82`, so each NaN forms a run of its own in the mode scan. The median of `[-inf, inf]` is `nan` (`computeStatistics.py:71`). The contracts of `Statistics.InsertionSort`, `Statistics.Median` and `Statistics.CalculateMode` hold only for finite values.
- Rendering floats as report text (`MEDIAN`, `MODE`) is not modelled, and neither is the literal `#N/A`.
- Statistics.CalculateMode: for an unsorted list the contract says only that a returned value occurs in the list. The mode specification `IsModeOf` is proved for sorted input, the only input its caller passes (`computeStatistics.py:154-156`).
- WordCount.RankWords: Python's library `sorted` is not modelled. The model takes the first-ranked remaining word in turn. `WordCount.RankedUnique` shows that any correct sort yields the same listing.
- Whitespace is the ASCII set for which `str.isspace()` holds: tab, line feed, vertical tab, form feed, carriage return, 0x1C-0x1F and space. Unicode whitespace above 0x7F, such as U+0085, U+00A0 and U+2028, is not modelled.
- Python's `int` is unbounded and so is Dafny's `int`. No width or wrap-around arises.
