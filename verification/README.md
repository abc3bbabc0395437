# Merge-insert sort and bitcoin exchange validators, modelled in Dafny

This project models two of the programs in the repository.

- **PmergeMe** (ex02) sorts the positive integers given on its command line. It uses a
  merge-insert scheme:
  1. pair adjacent elements as (smaller, larger);
  2. sort the pairs by their larger element;
  3. seed a main chain with the larger elements;
  4. binary-insert the smaller ones, in the order `buildJacobOrder` gives, then the leftover odd
     element.

  `parseArgs` accepts an argument only if `toIntChecked` does, that is, a decimal number in
  1 .. INT_MAX. The shipped driver does not call `parseArgs` (see Left out).
- **btc** (ex00) reads `date | value` lines. It validates the date (`YYYY-MM-DD`, a real
  Gregorian day) and the number format. It then looks up the exchange rate of that date, or of
  the closest earlier date, in a map ordered like `std::string`. A whitespace-only line is
  skipped silently; every other line ends in exactly one report, chosen by a fixed order of
  checks.

The modules, in dependency order:

| module | file | contents |
|---|---|---|
| `Wrappers` | wrappers.dfy | `Option`, `Result` |
| `Text` | text.dfy | `isspace`, `isdigit`, `trim`, decimal digit strings |
| `SortedSeqs` | sorted_seqs.dfy | sortedness, the reference insertion and insertion sort, index permutations |
| `PmergeParse` | pmerge_parse.dfy | `isAllDigits`, `toIntChecked`, `parseArgs` |
| `InsertionSchedule` | insertion_schedule.dfy | the window construction of `buildJacobOrder`, the full Jacobsthal table |
| `PmergeMe` | pmerge_sort.dfy | pairing, pair sort, `lower_bound`, `binaryInsert`, `buildJacobOrder`, `fordJohnsonSort` |
| `BitcoinExchange` | bitcoin_exchange.dfy | `isLeap`, `isValidDate`, the `parseNumber` format check, `std::string` order, `getRateForDate` |
| `BitcoinMain` | bitcoin_main.dfy | `splitPipe`, the per-line checks, the loop over the input lines |

Modelling choices:

- **Containers.** Containers are `seq<int>`. `std::vector` and `std::deque` are one sequence.
- **Loops.** Most of the source's loops are methods with loop invariants (`toIntChecked`,
  `parseArgs`, the pairing loop, the insertion loops, `isValidDate`, the format loop of
  `parseNumber`, the line loop). The loops of `trim` (`Text.SkipLeading`, `Text.SkipTrailing`) and of `buildJacobOrder`
  (`InsertionSchedule.CountDown`, `CountUp`, `Windows`, `ToZeroBased`,
  `PmergeMe.JacobTableAsWritten`) are recursive functions or sequence comprehensions that
  compute what the loop computes. The results are proved against independent definitions:
  - `SortedSeqs.SortedInsert` and `SortedSeqs.InsertionSort` for the sort;
  - `Text.DecimalValue` for the digit accumulator;
  - `BitcoinExchange.DaysInMonth`, stated month by month, for the `mdays` table;
  - `BitcoinExchange.IsFloorKey` for the map search.
- **`trim`.** It is defined twice in the source, identically (ex00/BitcoinExchange.cpp:10-15 and
  ex00/main.cpp:6-11). It is modelled once, as `Text.Trim`. `isspace` and `isdigit` are those of
  the "C" locale.
- **Characters.** The source works on `char` bytes; the model works on `seq<char>`, reading
  each byte as the character with that code (Latin-1). Nothing is lost: in the "C" locale
  `isspace` and `isdigit` are false for every byte above 127, and `std::string` compares bytes
  as `unsigned char`, which is the order of the codes.
- **`parseArgs`.** Its input is `argv[1] .. argv[argc-1]`. The exception it throws is the
  `Err` of a `Result`, carrying the same message.
- **`std::sort`.** The call with `cmpPairsBySecond` is unstable. `PmergeMe.SortPairsBySecond`
  fixes only what the comparator determines: a permutation ordered by `second`. No proof depends
  on which such permutation it is.
- **`parseNumber`'s conversion.** The `istringstream >> double` conversion is the parameter
  `convert: string -> Option<real>`. The check order of ex00/main.cpp compares the value only
  with 0 and 1000, so a `real` stands for the `double`.
- **The rate map.** `std::map<std::string, double>` is a Dafny `map<string, V>`, ordered by
  `BitcoinExchange.LexLess`. `LexLess` is `std::string` comparison with characters compared by
  code, as `char_traits<char>` does. The ordered search of the map is modelled by a scan of its
  keys.

## Model

| member | source | states |
|---|---|---|
| `Text.IsSpace` | ex00/BitcoinExchange.cpp:12-13 | definition: `std::isspace` of the "C" locale, true for space and the codes 9 to 13 (tab, line feed, vertical tab, form feed, carriage return) |
| `Text.IsDigit` | ex00/BitcoinExchange.cpp:62 | definition: `std::isdigit` of the "C" locale, true for '0' .. '9' only |
| `Text.SkipLeading` | ex00/BitcoinExchange.cpp:12 | the first loop stops at the first non-whitespace character, skipping only whitespace |
| `Text.SkipTrailing` | ex00/BitcoinExchange.cpp:13 | the second loop moves the end left over whitespace only, never below the start |
| `Text.Trim` | ex00/BitcoinExchange.cpp:10-15 | the result is the input minus a whitespace prefix and a whitespace suffix, and has no whitespace at either end |
| `Text.TrimOfTrimmed` | ex00/main.cpp:6-11 | a string with no whitespace at its ends is returned unchanged |
| `Text.TrimIdempotent` | ex00/main.cpp:6-11 | trimming twice equals trimming once |
| `Text.TrimPadded` | ex00/BitcoinExchange.cpp:10-15 | trimming `a + r + b`, with `a` and `b` whitespace and `r` without edge whitespace (possibly empty), gives exactly `r` |
| `Text.TrimEmptyIffAllSpace` | ex00/main.cpp:57 | the trimmed line is empty iff the line is whitespace only |
| `Text.DecimalValue` | ex02/PmergeMe.cpp:16-20 | definition: the value of a digit string read left to right as `acc * 10 + digit`, which is also what `atoi` returns on an all-digit field; `DecimalStringRoundTrip` and `PadDecimalRoundTrip` invert it |
| `Text.DecimalValuePrefix` | ex02/PmergeMe.cpp:17-19 | the accumulator never decreases along the digits, so once it exceeds INT_MAX the whole value does |
| `Text.LeadingZeroIgnored` | ex02/PmergeMe.cpp:18 | a leading '0' does not change the accumulated value |
| `Text.DecimalStringRoundTrip` | ex02/PmergeMe.cpp:16-20 | accumulating the decimal digits of `n` gives back `n` |
| `Text.PadDecimalRoundTrip` | ex00/BitcoinExchange.cpp:64-66 | reading a zero-padded field of `w` digits gives back `n` when `n < 10^w` |
| `SortedSeqs.SortedInsert` | ex02/PmergeMe.cpp:103-107 | the reference insertion is one longer, adds `x` to the multiset, and keeps a sorted sequence sorted |
| `SortedSeqs.InsertAtLowerBound` | ex02/PmergeMe.cpp:105-106 | inserting at the first position whose element is not less than `x` is the reference insertion |
| `SortedSeqs.SortedInsertSplits` | ex02/PmergeMe.cpp:105-106 | in a sorted sequence the reference insertion places `x` after exactly the smaller elements, so before every equal one |
| `SortedSeqs.InsertionSort` | ex02/PmergeMe.cpp:155-201 | the reference sort returns a sorted permutation of its input |
| `SortedSeqs.SortedPermutationUnique` | ex02/PmergeMe.cpp:198-200 | two sorted sequences with the same multiset are equal |
| `SortedSeqs.InsertionSortOfSorted` | ex02/PmergeMe.cpp:155-201 | sorting an already sorted sequence returns it unchanged |
| `SortedSeqs.GatherPermutation` | ex02/PmergeMe.cpp:186-190 | the elements picked through an index permutation form the same multiset as the sequence |
| `SortedSeqs.RangeIsIndexPermutation` | ex02/PmergeMe.cpp:145 | the ascending list `0 .. m-1` lists every index exactly once |
| `PmergeParse.IsAllDigits` | ex02/PmergeMe.cpp:5-10 | true iff the string is non-empty and every character is in '0'..'9' |
| `PmergeParse.ToIntChecked` | ex02/PmergeMe.cpp:12-24 | succeeds iff the token is all digits with value in 1 .. INT_MAX; on success `out` is that value, on failure `out` is untouched |
| `PmergeParse.ParseArgs` | ex02/PmergeMe.cpp:26-42 | succeeds iff every argument is a valid token; then both containers hold the same values, in argument order, and the count is their length; otherwise the message names the first invalid argument |
| `PmergeParse.InvalidTokenMessage` | ex02/PmergeMe.cpp:37 | definition: the message thrown for a rejected token, `Error: invalid token '<token>'`; `ParseArgs` returns it for the first invalid argument |
| `PmergeParse.TokenRoundTrip` | ex02/PmergeMe.cpp:12-24 | every number in 1 .. INT_MAX, written in decimal, is accepted as itself |
| `PmergeParse.LeadingZerosAccepted` | ex02/PmergeMe.cpp:14-23 | a leading zero changes neither acceptance nor value |
| `PmergeParse.ZerosRejected` | ex02/PmergeMe.cpp:21 | a string of zeros of any length is rejected |
| `PmergeParse.OverflowRejected` | ex02/PmergeMe.cpp:19 | any number above INT_MAX, written in decimal, is rejected |
| `InsertionSchedule.CountDown` | ex02/PmergeMe.cpp:135-140 | the inner loop lists `curr, curr-1, ..., prev`, and nothing when `curr < prev` |
| `InsertionSchedule.CountUp` | ex02/PmergeMe.cpp:145 | the tail loop lists `prev, ..., n` in ascending order |
| `InsertionSchedule.Windows` | ex02/PmergeMe.cpp:130-145 | definition: for each table entry from position 2, the window from the entry (clamped at `n`) down to one past the previous window, then the indices after the last window in ascending order; `WindowsListOnce` states what it lists |
| `InsertionSchedule.WindowsListOnce` | ex02/PmergeMe.cpp:130-145 | with a non-decreasing table, the windows and the tail list every index `prev .. n` exactly once |
| `InsertionSchedule.ToZeroBased` | ex02/PmergeMe.cpp:148-151 | definition: each entry decreased by one, with 0 kept at 0; `ToZeroBasedPermutation` states what it yields |
| `InsertionSchedule.ToZeroBasedPermutation` | ex02/PmergeMe.cpp:148-151 | a list of `1 .. n`, each once, becomes an index permutation of `0 .. n-1` |
| `InsertionSchedule.GrowTable` | ex02/PmergeMe.cpp:121-124 | the table loop without the early exit keeps the prefix, stays non-decreasing, ends at a value of at least `n`, and extends a Jacobsthal prefix with Jacobsthal numbers |
| `InsertionSchedule.JacobTable` | ex02/PmergeMe.cpp:117-126 | the table holds the Jacobsthal numbers up to the first one that is at least `n` |
| `InsertionSchedule.JacobsthalOrder` | ex02/PmergeMe.cpp:110-152 | the window construction on the full table is an index permutation of `0 .. n-1` |
| `InsertionSchedule.JacobTableFive` | ex02/PmergeMe.cpp:117-126 | for `n = 5` the full table is `0, 1, 1, 3, 5` |
| `InsertionSchedule.JacobsthalOrderExample` | ex02/PmergeMe.cpp:128-151 | for `n = 5` the full-table schedule is `0, 2, 1, 4, 3` |
| `PmergeMe.MinMaxPair` | ex02/PmergeMe.cpp:95-96 | a pair holds the two adjacent elements, the smaller one first |
| `PmergeMe.CmpPairsBySecond` | ex02/PmergeMe.cpp:78-80 | definition: a pair compares below another iff its larger element is smaller; `SortPairsBySecond` orders by it |
| `PmergeMe.MakePairs` | ex02/PmergeMe.cpp:92-97 | there are `n / 2` pairs (rounded down), each with `first <= second` |
| `PmergeMe.StrayOf` | ex02/PmergeMe.cpp:98 | definition: the last element when the length is odd, otherwise none; `PairUp` and `PairingKeepsElements` relate it to the loop and the multiset |
| `PmergeMe.PairingKeepsElements` | ex02/PmergeMe.cpp:92-98 | the pairs plus the leftover element hold exactly the input's multiset |
| `PmergeMe.SortPairsBySecond` | ex02/PmergeMe.cpp:99 | the pair sort is a permutation of the pairs in which no later pair compares below an earlier one |
| `PmergeMe.PairUp` | ex02/PmergeMe.cpp:90-98 | the pairing loop produces the adjacent (min, max) pairs in order, and keeps the last element aside exactly when the length is odd |
| `PmergeMe.BuildPairsAndSortWrapper` | ex02/PmergeMe.cpp:84-100 | the result is a permutation of the adjacent (min, max) pairs, ordered by `second`; there is a leftover element iff the length is odd, and it is the last element |
| `PmergeMe.LowerBound` | ex02/PmergeMe.cpp:105 | the returned position has every element before it less than `x` and every element from it on not less than `x` |
| `PmergeMe.BinaryInsert` | ex02/PmergeMe.cpp:103-107 | inserting at the `lower_bound` position is the reference insertion: the result is sorted, one longer, with multiset `+ {x}` |
| `PmergeMe.JacobTableAsWritten` | ex02/PmergeMe.cpp:118-126 | the table loop as written stops after at most one push: `0, 1` or `0, 1, 1` |
| `PmergeMe.BuildJacobOrder` | ex02/PmergeMe.cpp:110-152 | the schedule as written is exactly `0, 1, ..., n-1`, an index permutation |
| `PmergeMe.JacobTableStopsEarly` | ex02/PmergeMe.cpp:121-125 | for two or more pending elements the table as written ends at 1, below `n` |
| `PmergeMe.AsWrittenScheduleExample` | ex02/PmergeMe.cpp:110-152 | for five pending elements the schedule is `0, 1, 2, 3, 4`, which differs from the full-table schedule |
| `PmergeMe.InsertScheduled` | ex02/PmergeMe.cpp:182-191 | for any index permutation, the guard `idx < pend.size()` always holds, each pending element after the first is inserted once, and the chain stays sorted |
| `PmergeMe.InsertPending` | ex02/PmergeMe.cpp:176-191 | inserting `pend[0]` and then the rest in the order of either schedule keeps the chain sorted and adds exactly the pending elements |
| `PmergeMe.InsertSmallerElements` | ex02/PmergeMe.cpp:176-196 | after the pending elements and the leftover element are inserted, the chain is sorted and holds all of them |
| `PmergeMe.SeedMainChain` | ex02/PmergeMe.cpp:171-174 | the main chain is the larger elements in pair order, hence ascending; `pend` holds the smaller ones in the same order |
| `PmergeMe.PairsKeepElements` | ex02/PmergeMe.cpp:163-174 | main chain, pending elements and leftover element together are the input's multiset |
| `PmergeMe.CopyBack` | ex02/PmergeMe.cpp:200 | the element-by-element copy leaves the container equal to the main chain |
| `PmergeMe.ScheduleOrder` | ex02/PmergeMe.cpp:110-152 | both insertion orders, as written and corrected, list each pending index once; the one as written is ascending |
| `PmergeMe.MergeInsertSort` | ex02/PmergeMe.cpp:155-201 | with either insertion order, the result equals the reference sort: same length, sorted, a permutation of the input; inputs shorter than 2 are unchanged |
| `PmergeMe.FordJohnsonSort` | ex02/PmergeMe.cpp:155-201 | the result equals the reference sort: it has the same length, is sorted and is a permutation of the input; inputs shorter than 2 are unchanged (with `SortedSeqs.InsertionSortOfSorted`, so is an already sorted input) |
| `PmergeMe.FordJohnsonSortCorrected` | ex02/PmergeMe.cpp:155-201 | with the table loop corrected, so that insertion follows Jacobsthal windows, the result is the same reference sort |
| `BitcoinExchange.IsLeap` | ex00/BitcoinExchange.cpp:55 | definition: divisible by 4 and not by 100, or divisible by 400 (C's `%` and Dafny's agree on a zero remainder); `LeapPeriod`, `LeapExamples` and `YearLength` state its consequences |
| `BitcoinExchange.MonthDays` | ex00/BitcoinExchange.cpp:68 | definition: the `mdays` table, February with 28 days; `MaxDay` compares it with `DaysInMonth` |
| `BitcoinExchange.MaxDay` | ex00/BitcoinExchange.cpp:68-70 | the `mdays` entry, raised to 29 for February of a leap year, is the Gregorian length of the month |
| `BitcoinExchange.LeapPeriod` | ex00/BitcoinExchange.cpp:55 | the leap rule repeats every 400 years |
| `BitcoinExchange.LeapExamples` | ex00/BitcoinExchange.cpp:55 | 2000 and 2024 are leap years; 1900 and 2023 are not |
| `BitcoinExchange.YearLength` | ex00/BitcoinExchange.cpp:68-70 | the month lengths add up to 366 days in a leap year and 365 otherwise |
| `BitcoinExchange.Year` | ex00/BitcoinExchange.cpp:64 | definition: the decimal value of the first four characters of a `YYYY-MM-DD` string, as `atoi` reads an all-digit field; `FormatDateRoundTrip` inverts it |
| `BitcoinExchange.Month` | ex00/BitcoinExchange.cpp:65 | definition: the decimal value of characters 5-6; `FormatDateRoundTrip` inverts it |
| `BitcoinExchange.Day` | ex00/BitcoinExchange.cpp:66 | definition: the decimal value of characters 8-9; `FormatDateRoundTrip` inverts it |
| `BitcoinExchange.IsValidDate` | ex00/BitcoinExchange.cpp:57-73 | accepts iff the string is `YYYY-MM-DD` shaped, the month is 1..12 and the day is 1..days-in-month of that year; anything not so shaped is rejected |
| `BitcoinExchange.FormatDateRoundTrip` | ex00/BitcoinExchange.cpp:64-66 | the year, month and day read from a zero-padded date are the numbers it was written from |
| `BitcoinExchange.ValidFormattedDate` | ex00/BitcoinExchange.cpp:64-72 | a written date is accepted iff its month exists and its day exists in that month of that year |
| `BitcoinExchange.LeapDayAccepted` | ex00/BitcoinExchange.cpp:67-72 | 2000-02-29 is accepted (2000 is divisible by 400) |
| `BitcoinExchange.LeapDayRejected` | ex00/BitcoinExchange.cpp:67-72 | 1900-02-29 is rejected (1900 is divisible by 100 but not by 400) |
| `BitcoinExchange.SignLength` | ex00/BitcoinExchange.cpp:81 | the loop starts at 1 when the text begins with '+' or '-', otherwise at 0 (at most 1, and never past the end) |
| `BitcoinExchange.CheckNumberFormat` | ex00/BitcoinExchange.cpp:78-86 | accepts iff the text is non-empty, has only digits and '.' after an optional leading sign, and has at most one '.' |
| `BitcoinExchange.ParseNumber` | ex00/BitcoinExchange.cpp:75-90 | a field failing the format check after trimming gives no number; one passing it gives whatever the stream conversion gives; the result is `NumberValue` of the field |
| `BitcoinExchange.NumberValue` | ex00/BitcoinExchange.cpp:75-90 | definition: the number a field stands for, the conversion of its trimmed text if that passes the format check and none otherwise; `ParseNumber` is proved to return it |
| `BitcoinExchange.TwoDotsRefused` | ex00/BitcoinExchange.cpp:84 | `1.2.3` is refused |
| `BitcoinExchange.StrayCharactersRefused` | ex00/BitcoinExchange.cpp:78-85 | the empty text, a letter (so no exponent) and a sign after the first position are refused |
| `BitcoinExchange.NumberShapeAccepted` | ex00/BitcoinExchange.cpp:80-86 | a signed decimal passes the format check, and so does the bare `+.` |
| `BitcoinExchange.LexLess` | ex00/BitcoinExchange.hpp:22 | definition: `std::string` less-than, deciding at the first differing character by code, else the shorter string first; the four lemmas below show it is a strict total order |
| `BitcoinExchange.LexLessIrreflexive` | ex00/BitcoinExchange.hpp:22 | no key is ordered before itself |
| `BitcoinExchange.LexLessAsymmetric` | ex00/BitcoinExchange.hpp:22 | two keys are never ordered both ways |
| `BitcoinExchange.LexLessTransitive` | ex00/BitcoinExchange.hpp:22 | the key order is transitive |
| `BitcoinExchange.LexLessTotal` | ex00/BitcoinExchange.hpp:22 | two different keys are ordered one way or the other |
| `BitcoinExchange.DigitsOrder` | ex00/BitcoinExchange.cpp:64-66 | on digit strings of one length, string order is numeric order and string equality is value equality |
| `BitcoinExchange.DateOrderIsChronological` | ex00/BitcoinExchange.cpp:48-51 | on well-shaped dates, string order is calendar order (year, then month, then day) |
| `BitcoinExchange.FloorKeyUnique` | ex00/BitcoinExchange.cpp:48-51 | a date has at most one greatest key not after it |
| `BitcoinExchange.GetRateForDate` | ex00/BitcoinExchange.cpp:43-53 | an exact key gives its rate; otherwise the rate of the greatest key before the date; false iff every key is after the date, and then `rate` is untouched |
| `BitcoinMain.FindBar` | ex00/main.cpp:14 | the first '|' at or after a position, or none iff there is no '|' there |
| `BitcoinMain.SplitPipe` | ex00/main.cpp:13-19 | no fields iff the line has no '|'; otherwise the trimmed text before the first bar and the trimmed text after it |
| `BitcoinMain.SplitPipeJoin` | ex00/main.cpp:14-17 | splitting `date + "|" + value` with no bar in `date` gives back both fields trimmed, even when `value` contains bars |
| `BitcoinMain.WellFormedLine` | ex00/main.cpp:59-71 | definition: the line has a '|', a valid date before it and a number after it, the three checks whose failure reports bad input |
| `BitcoinMain.Classifies` | ex00/main.cpp:57-85 | definition: the report a line deserves, by the check order of the loop body (blank, bad input, not positive, too large, no rate, converted with the floor key's rate) |
| `BitcoinMain.ClassifyLine` | ex00/main.cpp:57-85 | the report follows the check order: blank iff whitespace only; then bad input (no bar, invalid date or no number); then not positive (< 0); then too large (> 1000); then no rate; otherwise converted with the date, the value and the rate of the floor key |
| `BitcoinMain.ClassificationUnique` | ex00/main.cpp:57-85 | each line has exactly one report |
| `BitcoinMain.NonBlank` | ex00/main.cpp:57 | no more lines are kept than given, and every kept line is an input line that is not whitespace only |
| `BitcoinMain.NonBlankConcat` | ex00/main.cpp:56-57 | the kept lines of two consecutive stretches of input are the kept lines of the first followed by those of the second, so input order is kept |
| `BitcoinMain.NonBlankCounts` | ex00/main.cpp:57 | each line that is not whitespace only is kept exactly as often as it occurs; no whitespace-only line is kept |
| `BitcoinMain.NonBlankKeepsEvery` | ex00/main.cpp:57 | every input line that is not whitespace only is among the kept lines |
| `BitcoinMain.ProcessLines` | ex00/main.cpp:56-88 | one report per line that is not whitespace only, in order, none of them blank, each the report its line deserves |

## Left out

- ex01 (the RPN evaluator) is not part of this model. It is floating-point arithmetic on `double`.
- `PmergeMe::buildPairsAndSort` (ex02/PmergeMe.cpp:44-75) is not modelled. It passes a null
  function pointer as the comparator of `std::sort`, and `fordJohnsonSort` never calls it.
- ex02/main.cpp is not modelled. It is a driver that does timing and printing, and it calls
  members the header does not declare (`parseArguments`, `process`), so it never reaches
  `parseArgs` or `fordJohnsonSort`.
- Container genericity is not modelled: the explicit instantiations for `std::vector` and
  `std::deque` (ex02/PmergeMe.cpp:204-207) are one `seq<int>`.
- The stability of the pair sort is not modelled, because `std::sort` does not promise it.
- The number of comparisons is not modelled. The schedule as written is ascending (see Findings),
  so no comparison bound is promised.
- `BitcoinExchange::loadRates` and `hasRates` (ex00/BitcoinExchange.cpp:17-41) are not modelled.
  They read a file and parse `double`s with a stream; the rate map is a parameter instead.
- The `double` conversion of `parseNumber` (ex00/BitcoinExchange.cpp:87-89) is the `convert`
  parameter, not a model of `operator>>`.
- The product `value * rate` and its printing (ex00/main.cpp:86-87) are left out. So are all
  messages written to `std::cout`: the reports carry what the messages print.
- File opening, the argument-count check and the header detection with `seekg`
  (ex00/main.cpp:22-54) are left out, because they are I/O. `ProcessLines` takes the lines after
  the header.
- PmergeParse.ParseArgs: when it throws, the containers keep the values pushed before the
  invalid token. The model returns only the error, because the caller never reads the containers
  after the exception.

## Findings

| source | as written | input that shows it | evidently intended | confidence | as-written member | corrected member |
|---|---|---|---|---|---|---|
| ex02/PmergeMe.cpp:125 | `if (next == J.back()) break;` compares the value just pushed with the last element, which is that value, so the table loop stops after at most one push. For `n >= 2` the table is `0, 1, 1` (for `n = 1` nothing is pushed and it is `0, 1`), the only window is `[1]`, and the schedule is ascending. | `n = 5` pending elements: the schedule is `0, 1, 2, 3, 4`, while the full Jacobsthal table `0, 1, 1, 3, 5` gives `0, 2, 1, 4, 3` | build the table until its last entry covers `n` (comment on line 117) and insert in Jacobsthal windows | not executed | `PmergeMe.JacobTableAsWritten`, `PmergeMe.JacobTableStopsEarly`, `PmergeMe.AsWrittenScheduleExample` | `InsertionSchedule.JacobTable`, `InsertionSchedule.JacobsthalOrder`, `InsertionSchedule.JacobsthalOrderExample`, `PmergeMe.FordJohnsonSortCorrected` |

The defect changes only the order in which elements are inserted, not the sorted result.
`PmergeMe.InsertScheduled` is proved for every index permutation. So both schedules leave the
main chain sorted with the same elements. `PmergeMe.MergeInsertSort` takes the schedule as a
parameter. `PmergeMe.FordJohnsonSort` runs it with the schedule as written, to model the program.
`PmergeMe.FordJohnsonSortCorrected` runs it with the corrected schedule.
