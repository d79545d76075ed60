# Number range summarizer, modelled in Dafny

`NumberRangeSummarizerImpl` turns a comma-delimited list of integers into a
compact summary. The result is sorted, and runs of consecutive values are
collapsed into `first-last`. For example, `"1,3,6,7,8,12,13,14,15,21,22,23,24,31"`
becomes `"1, 3, 6-8, 12-15, 21-24, 31"`. It has two public operations, and
this project models both:

- `collect(String)` handles the input as follows:
  - `null` is rejected with `IllegalArgumentException`.
  - A blank string gives an empty `TreeSet`.
  - Otherwise the string is split at commas and every piece is trimmed.
    Pieces that are then empty are dropped. The rest go through
    `parseInteger`, which is `Integer.parseInt` with its
    `NumberFormatException` rethrown as `IllegalArgumentException`. The values
    are collected into a `TreeSet`.
  - The model is the function `NumberRangeSummarizer.Collect`. The `TreeSet`
    is a strictly ascending `seq<Int32>`.
- `summarizeCollection(Collection<Integer>)` works like this:
  - It returns `""` for `null` or an empty collection.
  - Otherwise it sorts the elements and scans them with a `while` loop over
    `start`. Each step calls `findEndOfRange` (itself a `while` loop) and
    formats the run with `formatRange`. The formatted runs are joined with
    `", "`.
  - Both loops are Dafny methods, `SummarizeCollection` and `FindEndOfRange`.
    They are proved against the specification functions `EndOfRange`, `Runs`,
    `Segments` and `Summary`.
  - Properties of the runs are proved about those functions:
    - each run is maximal;
    - the runs are the unique tiling of the list into maximal runs;
    - the runs partition the list;
    - on strictly ascending input (what `collect` returns), neighbouring runs
      are separated by a gap.

The Java library behaviour the core relies on is in module `JavaLang`:

- 32-bit `int` with wrap-around addition (`AddInt`). The code computes
  `numbers.get(current) + 1` in `int`, and the model keeps the wrap.
  `ContinuesInOrder` shows the wrap can never matter on sorted input.
- `String.trim`, which removes characters up to `' '`.
- `String.split(",")`. The model's split keeps every empty piece,
  including the trailing ones Java's `split` drops (see "Left out").
- `String.join`.
- `Integer.toString`.
- `Integer.parseInt`: an optional `+` or `-`, then ASCII digits, with the
  value inside `int` range.

Module `Sorting` has two parts:

- `stream().sorted()`, modelled as an insertion sort that is proved sorted
  and a permutation of its input.
- `TreeSet.add`.

Module `RangeExpansion` is an independent reader of summaries. It splits at
`,`, trims, and reads `a` or `a-b` as an interval. Two theorems connect it to
the model:

- `SummaryRoundTrip`: the summary of any collection reads back as exactly
  its set of values.
- `CollectThenSummarize`: `collect` followed by `summarizeCollection` keeps
  exactly the values the input's fields denote.

Module `Examples` states, as lemmas, the outputs the repository's tests
expect from these calls:

- every `summarizeCollection` test on a nonempty literal list;
- `collect` on unordered input;
- `collect` on the malformed inputs `"abc"`, `"1,abc,3"` and `"1.5,2"`;
- `collect` followed by `summarizeCollection` on the example of the interface
  documentation and on the unordered input `"8,1,3,2,15,14,13,12"`.

The other tests are stated only through general lemmas, and for some of them
the exact expected string is not stated (see "Left out").

**Empty fields.** The code skips a field that is empty after trimming
(`NumberRangeSummarizerImpl.java:33`), so `collect("1,,3")` returns `{1, 3}`.
The parameterized test at `NumberRangeSummarizerImplTest.java:107` lists
`"1,,3"` among the inputs that must throw. The model follows the code.
`CollectSkipsEmptyField` states the general behaviour and
`Examples.CollectSkipsEmptyToken` states this input's result.

## Model

| member | source | states |
|---|---|---|
| JavaLang.AddInt | src/main/java/com/impact/numberrangesummarizer/NumberRangeSummarizerImpl.java:90 | Java `int` addition: the result is an `int` that agrees with the exact sum modulo 2^32 |
| JavaLang.AddIntExact | src/main/java/com/impact/numberrangesummarizer/NumberRangeSummarizerImpl.java:90 | the `int` sum is the exact sum when that fits in `int`; above `Integer.MAX_VALUE` it is the exact sum minus 2^32, below `Integer.MIN_VALUE` the exact sum plus 2^32 |
| JavaLang.Trim | src/main/java/com/impact/numberrangesummarizer/NumberRangeSummarizerImpl.java:32 | `String.trim`: drops the characters up to `' '` at both ends; its properties are `TrimEmpty`, `TrimInfix` and `TrimTight` |
| JavaLang.TrimInfix | src/main/java/com/impact/numberrangesummarizer/NumberRangeSummarizerImpl.java:32 | what `trim` keeps is one contiguous piece of the input, with only blank characters removed before and after it, and that piece neither begins nor ends with a blank |
| JavaLang.TrimEmpty | src/main/java/com/impact/numberrangesummarizer/NumberRangeSummarizerImpl.java:27 | `trim()` yields the empty string exactly when every character of the input is at most `' '` |
| JavaLang.TrimTight | src/main/java/com/impact/numberrangesummarizer/NumberRangeSummarizerImpl.java:32 | a string whose first and last characters are not blank comes out of `trim` whole, even with blank padding in front |
| JavaLang.Split | src/main/java/com/impact/numberrangesummarizer/NumberRangeSummarizerImpl.java:31 | the model's split at a comma always yields at least one piece and keeps every empty piece, including the trailing ones Java's `split` drops (see "Left out") |
| JavaLang.SplitPieces | src/main/java/com/impact/numberrangesummarizer/NumberRangeSummarizerImpl.java:31 | no piece of a split contains the delimiter |
| JavaLang.Join | src/main/java/com/impact/numberrangesummarizer/NumberRangeSummarizerImpl.java:60 | `String.join`: the parts in order with the separator between neighbours; `JoinSplit`, `SplitJoin` and `RangeExpansion.DecodeSummary` state what it preserves |
| JavaLang.JoinSplit | src/main/java/com/impact/numberrangesummarizer/NumberRangeSummarizerImpl.java:31 | joining the pieces of the model's split with the delimiter gives back the original string, so that split neither loses nor adds a character (Java's `split` also drops trailing empty pieces, see "Left out") |
| JavaLang.SplitJoin | src/main/java/com/impact/numberrangesummarizer/NumberRangeSummarizerImpl.java:31 | splitting a join of delimiter-free parts gives back exactly those parts |
| JavaLang.IntToString | src/main/java/com/impact/numberrangesummarizer/NumberRangeSummarizerImpl.java:107-109 | `Integer.toString`: a `-` for a negative value, then the decimal digits of its magnitude with no leading zero; stated by `IntToStringShape`, `IntToStringDigits` and `ParseIntToString` |
| JavaLang.IntToStringShape | src/main/java/com/impact/numberrangesummarizer/NumberRangeSummarizerImpl.java:107-109 | `Integer.toString` output is nonempty, has a leading `-` exactly for negative values, has only digits after its first character, ends in a digit, and holds no comma and no blank at either end |
| JavaLang.IntToStringDigits | src/main/java/com/impact/numberrangesummarizer/NumberRangeSummarizerImpl.java:107-109 | a non-negative value is written as digits only; a negative one as `-` followed by digits only; in both cases the digits denote the magnitude of the value and begin with `0` only for the value 0 |
| JavaLang.NatToStringValue | src/main/java/com/impact/numberrangesummarizer/NumberRangeSummarizerImpl.java:107-109 | the decimal digits written for a natural number are all digits and denote that number |
| JavaLang.ParseInt | src/main/java/com/impact/numberrangesummarizer/NumberRangeSummarizerImpl.java:72 | `Integer.parseInt` accepts only an optional sign followed by at least one digit; for digit-only text the value is the decimal value of the digits |
| JavaLang.ParseIntUnsigned | src/main/java/com/impact/numberrangesummarizer/NumberRangeSummarizerImpl.java:72 | digits with no sign, or with a leading `+`, are accepted exactly when their value is at most `Integer.MAX_VALUE`, and then give that value |
| JavaLang.ParseIntNegative | src/main/java/com/impact/numberrangesummarizer/NumberRangeSummarizerImpl.java:72 | `-` followed by digits is accepted exactly when the magnitude is at most 2^31, so down to `Integer.MIN_VALUE`, and then gives the negated value |
| JavaLang.ParseIntToString | src/main/java/com/impact/numberrangesummarizer/NumberRangeSummarizerImpl.java:72 | `Integer.parseInt` reads back every `int` written by `Integer.toString`, including `Integer.MIN_VALUE` |
| Sorting.Insert | src/main/java/com/impact/numberrangesummarizer/NumberRangeSummarizerImpl.java:47-49 | inserting into a sorted list keeps it sorted and adds exactly one occurrence of the element |
| Sorting.Sort | src/main/java/com/impact/numberrangesummarizer/NumberRangeSummarizerImpl.java:47-49 | `stream().sorted()` yields an ascending list that is a permutation of the input |
| Sorting.SortedUnique | src/main/java/com/impact/numberrangesummarizer/NumberRangeSummarizerImpl.java:47-49 | two sorted lists with the same multiset are equal, so the result does not depend on the sorting algorithm |
| Sorting.SortOfSorted | src/main/java/com/impact/numberrangesummarizer/NumberRangeSummarizerImpl.java:47-49 | sorting an already sorted list leaves it unchanged |
| Sorting.AddToSet | src/main/java/com/impact/numberrangesummarizer/NumberRangeSummarizerImpl.java:35 | `TreeSet.add` keeps the set strictly ascending, and it then holds the old elements and the new one and nothing else |
| Sorting.StrictlyAscendingUnique | src/main/java/com/impact/numberrangesummarizer/NumberRangeSummarizerImpl.java:35 | a strictly ascending list is determined by the values it holds, so a `TreeSet` is determined by its contents |
| NumberRangeSummarizer.ParseInteger | src/main/java/com/impact/numberrangesummarizer/NumberRangeSummarizerImpl.java:70-77 | `parseInteger` succeeds exactly when `Integer.parseInt` does, with the same value; a failure becomes `IllegalArgumentException` |
| NumberRangeSummarizer.Classify | src/main/java/com/impact/numberrangesummarizer/NumberRangeSummarizerImpl.java:32-34 | a piece is blank exactly when it trims to nothing; it is malformed exactly when it is not blank and `Integer.parseInt` rejects its trimmed text; otherwise it is a number with the value `parseInt` gives |
| NumberRangeSummarizer.ClassifyAll | src/main/java/com/impact/numberrangesummarizer/NumberRangeSummarizerImpl.java:32-34 | trimming and parsing are applied to each piece in turn, one result per piece |
| NumberRangeSummarizer.AddPieces | src/main/java/com/impact/numberrangesummarizer/NumberRangeSummarizerImpl.java:33-35 | the filter-and-collect pipeline yields a strictly ascending set, or fails with `IllegalArgumentException` only |
| NumberRangeSummarizer.AddPiecesSucceeds | src/main/java/com/impact/numberrangesummarizer/NumberRangeSummarizerImpl.java:33-35 | the pipeline fails if and only if some piece is malformed |
| NumberRangeSummarizer.AddPiecesElements | src/main/java/com/impact/numberrangesummarizer/NumberRangeSummarizerImpl.java:33-35 | on success the set holds its former elements plus the value of every number piece, and nothing else |
| NumberRangeSummarizer.Collect | src/main/java/com/impact/numberrangesummarizer/NumberRangeSummarizerImpl.java:22-36 | `collect(null)` throws `IllegalArgumentException`, a blank input gives the empty set, every success is strictly ascending (no duplicates), and every failure is `IllegalArgumentException` |
| NumberRangeSummarizer.CollectSucceeds | src/main/java/com/impact/numberrangesummarizer/NumberRangeSummarizerImpl.java:27-35 | `collect` of a string succeeds if and only if every comma-separated piece trims to nothing or to text `Integer.parseInt` accepts |
| NumberRangeSummarizer.CollectContents | src/main/java/com/impact/numberrangesummarizer/NumberRangeSummarizerImpl.java:27-35 | on success a value is in the result if and only if some piece of the input trims to text that parses to it |
| NumberRangeSummarizer.AddPiecesSkipsBlank | src/main/java/com/impact/numberrangesummarizer/NumberRangeSummarizerImpl.java:33 | a blank piece anywhere in the stream leaves the pipeline's outcome unchanged |
| NumberRangeSummarizer.CollectSkipsEmptyField | src/main/java/com/impact/numberrangesummarizer/NumberRangeSummarizerImpl.java:31-33 | an empty field between two commas is skipped: `collect(a + ",," + b)` equals `collect(a + "," + b)` for all strings `a` and `b` |
| NumberRangeSummarizer.AddPiecesOrderFree | src/main/java/com/impact/numberrangesummarizer/NumberRangeSummarizerImpl.java:33-35 | the order and repetition of the pieces do not matter: pieces with the same members give the same outcome |
| NumberRangeSummarizer.CollectWritten | src/main/java/com/impact/numberrangesummarizer/NumberRangeSummarizerImpl.java:27-35 | for any nonempty list of `int` values, in any order and with repeats, written in decimal and joined with commas, `collect` runs the pipeline over exactly those numbers in that order |
| NumberRangeSummarizer.CollectJoined | src/main/java/com/impact/numberrangesummarizer/NumberRangeSummarizerImpl.java:31-35 | `collect` reads back any strictly ascending list written out in decimal and joined with commas |
| NumberRangeSummarizer.Continues | src/main/java/com/impact/numberrangesummarizer/NumberRangeSummarizerImpl.java:89-90 | the loop condition of `findEndOfRange` on Java `int`; stated by `ContinuesIsIntAddition` and `ContinuesInOrder` |
| NumberRangeSummarizer.ContinuesIsIntAddition | src/main/java/com/impact/numberrangesummarizer/NumberRangeSummarizerImpl.java:89-90 | the run condition is exactly the `int` comparison `numbers.get(i + 1) == numbers.get(i) + 1`, with wrap-around |
| NumberRangeSummarizer.ContinuesInOrder | src/main/java/com/impact/numberrangesummarizer/NumberRangeSummarizerImpl.java:89-90 | on ascending neighbours the run condition is the mathematical successor test, so the wrap never matters on sorted input |
| NumberRangeSummarizer.EndOfRange | src/main/java/com/impact/numberrangesummarizer/NumberRangeSummarizerImpl.java:86-95 | the end of a run lies between its start and the last index |
| NumberRangeSummarizer.EndOfRangeMaximal | src/main/java/com/impact/numberrangesummarizer/NumberRangeSummarizerImpl.java:86-95 | from `start` to the end found, every step is to the successor, and the run cannot be extended: it ends at the last index or before a non-successor |
| NumberRangeSummarizer.EndOfRangeUnique | src/main/java/com/impact/numberrangesummarizer/NumberRangeSummarizerImpl.java:86-95 | any maximal run starting at `start` ends at the index `findEndOfRange` returns |
| NumberRangeSummarizer.FindEndOfRange | src/main/java/com/impact/numberrangesummarizer/NumberRangeSummarizerImpl.java:86-95 | the loop incrementing `current` returns exactly the end of the maximal run from `start` |
| NumberRangeSummarizer.Runs | src/main/java/com/impact/numberrangesummarizer/NumberRangeSummarizerImpl.java:52-58 | every run the scanning loop emits lies within the list, with its start not after its end |
| NumberRangeSummarizer.RunsTile | src/main/java/com/impact/numberrangesummarizer/NumberRangeSummarizerImpl.java:52-58 | the emitted runs are maximal, adjacent and in order, beginning at `start` and ending at the last index |
| NumberRangeSummarizer.RunsUnique | src/main/java/com/impact/numberrangesummarizer/NumberRangeSummarizerImpl.java:52-58 | the emitted runs are the only way to cut the list into consecutive maximal runs |
| NumberRangeSummarizer.RunsPartition | src/main/java/com/impact/numberrangesummarizer/NumberRangeSummarizerImpl.java:52-58 | the runs partition the list: read one after another they give back the list |
| NumberRangeSummarizer.RunsSeparated | src/main/java/com/impact/numberrangesummarizer/NumberRangeSummarizerImpl.java:52-58 | on strictly ascending input neighbouring runs are separated by a gap in the values, so no two could be merged |
| NumberRangeSummarizer.Summary | src/main/java/com/impact/numberrangesummarizer/NumberRangeSummarizerImpl.java:42-61 | what `summarizeCollection` returns; `SummaryEmpty`, `SummarizeCollection` and `RangeExpansion.SummaryRoundTrip` state its properties |
| NumberRangeSummarizer.SummaryEmpty | src/main/java/com/impact/numberrangesummarizer/NumberRangeSummarizerImpl.java:42-61 | the summary is `""` if and only if the collection is `null` or empty |
| NumberRangeSummarizer.SummarizeCollection | src/main/java/com/impact/numberrangesummarizer/NumberRangeSummarizerImpl.java:42-61 | the method with the `start`/`end` loop, adding to `ranges` in place, returns the specified summary: the formatted maximal runs of the sorted list, joined with `", "` |
| NumberRangeSummarizer.FormatRange | src/main/java/com/impact/numberrangesummarizer/NumberRangeSummarizerImpl.java:105-111 | `formatRange`: the value alone for a one-element run, `first-last` otherwise; stated by `RangeExpansion.FormatRangeRoundTrip` and `RangeExpansion.FormatRangeShape` |
| RangeExpansion.SegmentRoundTrip | src/main/java/com/impact/numberrangesummarizer/NumberRangeSummarizerImpl.java:105-111 | for all `int` values `a` and `b`, the text `a` reads back as the interval `[a, a]` and `a-b` as `[a, b]`, even with negative numbers such as `-3--1` |
| RangeExpansion.FormatRangeRoundTrip | src/main/java/com/impact/numberrangesummarizer/NumberRangeSummarizerImpl.java:105-111 | `formatRange` reads back as the interval from the run's first element to its last |
| RangeExpansion.FormatRangeShape | src/main/java/com/impact/numberrangesummarizer/NumberRangeSummarizerImpl.java:105-111 | a formatted run is nonempty, holds no comma and has no blank at either end, so it survives splitting and trimming intact |
| RangeExpansion.DecodeSummary | src/main/java/com/impact/numberrangesummarizer/NumberRangeSummarizerImpl.java:56-60 | joining formatted runs with `", "` reads back as the union of the runs' intervals |
| RangeExpansion.TilingCovered | src/main/java/com/impact/numberrangesummarizer/NumberRangeSummarizerImpl.java:52-58 | maximal runs tiling a sorted list cover exactly its values: every value lies in one, and every integer a run spans is a value |
| RangeExpansion.SummaryRoundTrip | src/main/java/com/impact/numberrangesummarizer/NumberRangeSummarizerImpl.java:42-61 | expanding every segment of the summary of any collection gives exactly the set of its values |
| RangeExpansion.CollectThenSummarize | src/main/java/com/impact/numberrangesummarizer/NumberRangeSummarizerImpl.java:22-61 | `collect` then `summarizeCollection` keeps exactly the numbers the input's fields denote: the summary reads back as that set of `int` values |
| Examples.SummarizeRequirements | src/main/java/com/impact/numberrangesummarizer/NumberRangeSummarizer.java:9-11 | the documented example: `[1,3,6,7,8,12,13,14,15,21,22,23,24,31]` summarizes to `"1, 3, 6-8, 12-15, 21-24, 31"`, the result asserted at NumberRangeSummarizerImplTest.java:130-137 |
| Examples.SummarizeSingle | src/test/java/com/impact/numberrangesummarizer/NumberRangeSummarizerImplTest.java:139-146 | `[5]` summarizes to `"5"` |
| Examples.SummarizePair | src/test/java/com/impact/numberrangesummarizer/NumberRangeSummarizerImplTest.java:148-155 | `[5, 6]` summarizes to `"5-6"` |
| Examples.SummarizeApart | src/test/java/com/impact/numberrangesummarizer/NumberRangeSummarizerImplTest.java:157-164 | `[1, 3, 5]` summarizes to `"1, 3, 5"` |
| Examples.SummarizeNegative | src/test/java/com/impact/numberrangesummarizer/NumberRangeSummarizerImplTest.java:166-173 | `[-3, -2, -1, 1, 2]` summarizes to `"-3--1, 1-2"` |
| Examples.SummarizeMixed | src/test/java/com/impact/numberrangesummarizer/NumberRangeSummarizerImplTest.java:175-182 | `[1, 3, 4, 5, 7, 9, 10]` summarizes to `"1, 3-5, 7, 9-10"` |
| Examples.CollectSorts | src/test/java/com/impact/numberrangesummarizer/NumberRangeSummarizerImplTest.java:114-123 | `collect` of the literal `"3,1,4,1,5,9,2"`, which the lemma shows is the decimal texts of 3, 1, 4, 1, 5, 9, 2 joined with commas, returns `[1, 2, 3, 4, 5, 9]`: sorted, with the repeated 1 kept once |
| Examples.CollectRejectsWord | src/test/java/com/impact/numberrangesummarizer/NumberRangeSummarizerImplTest.java:106-112 | `collect("abc")` throws `IllegalArgumentException` |
| Examples.CollectRejectsInnerWord | src/test/java/com/impact/numberrangesummarizer/NumberRangeSummarizerImplTest.java:106-112 | `collect("1,abc,3")` throws `IllegalArgumentException`, although its other pieces are numbers |
| Examples.CollectRejectsFraction | src/test/java/com/impact/numberrangesummarizer/NumberRangeSummarizerImplTest.java:106-112 | `collect("1.5,2")` throws `IllegalArgumentException`, because `.` is not a digit |
| Examples.CollectThenSummarizeRequirements | src/test/java/com/impact/numberrangesummarizer/NumberRangeSummarizerImplTest.java:218-228 | `collect("1,3,6,7,8,12,13,14,15,21,22,23,24,31")` returns exactly that list, and `summarizeCollection` of the result is `"1, 3, 6-8, 12-15, 21-24, 31"`; the same calls as NumberRangeSummarizerImplTest.java:130-137 |
| Examples.CollectThenSummarizeShuffled | src/test/java/com/impact/numberrangesummarizer/NumberRangeSummarizerImplTest.java:242-252 | `collect("8,1,3,2,15,14,13,12")` returns `[1, 2, 3, 8, 12, 13, 14, 15]`, and `summarizeCollection` of the result is `"1-3, 8, 12-15"` |
| Examples.CollectSkipsEmptyToken | src/main/java/com/impact/numberrangesummarizer/NumberRangeSummarizerImpl.java:31-35 | `collect("1,,3")` returns `[1, 3]`, whereas the test at NumberRangeSummarizerImplTest.java:107 expects it to throw |

## Left out

- I/O: there is none in the core. The interface `NumberRangeSummarizer` has no logic of its own. Its documented example is stated as `Examples.SummarizeRequirements`.
- JavaLang.ParseInt: accepts only the ASCII digits `0`-`9`. Java's `Character.digit` also accepts other Unicode decimal digits, and those inputs are not modelled.
- JavaLang.Split: keeps trailing empty pieces, which Java's `split` drops. Every empty piece is filtered out right after the split, so `collect` gives the same result either way. The regular-expression machinery of `split` is not modelled; the delimiter is a single literal comma.
- Exceptions are reduced to their kind (`IllegalArgumentException`). The message text and the chained `NumberFormatException` are not modelled.
- `null` is modelled as `Option.None`, both for the input string and for the collection.
- The input `Collection<Integer>` is modelled as the sequence of its elements (`seq<Int32>`). `Integer` boxing, `null` elements inside a collection, and the iteration order of particular collection classes are not modelled. Order does not affect the result, because the elements are sorted first.
- Java library internals are modelled by their observable results, not their implementations:
  - the internals of `TreeSet` (a red-black tree), replaced by a strictly ascending sequence;
  - the internals of `ArrayList`, where `ranges` is a growing `seq<string>`;
  - the internals of Streams.
- The exact strings expected by the end-to-end tests at NumberRangeSummarizerImplTest.java:198-214 and 230-240 are not stated. `RangeExpansion.CollectThenSummarize` states only that each summary reads back as the set of values of the input's fields, and both `"1-5"` and `"1, 2, 3, 4, 5"` read back as the same set.
- The `collect` tests at NumberRangeSummarizerImplTest.java:40-99 have no literal lemma each. `NumberRangeSummarizer.CollectJoined` states the result for any strictly ascending list written out and joined with commas. `NumberRangeSummarizer.CollectContents` states which values are in the result for any input, with spaces or repeats. `NumberRangeSummarizer.Collect` states the results for `null` and for blank input.
- The `summarizeCollection` tests on `null` and on an empty collection (NumberRangeSummarizerImplTest.java:184-197) have no literal lemma; they are the two cases of `NumberRangeSummarizer.SummaryEmpty`.
