# Commit-trace comparison, golden-log conversion and two test programs

This project models four pieces of sequential logic from the verification
flow of an out-of-order RISC-V core and proves properties of them.

- **Trace normaliser and comparator** (`sim/compare_log.py`).
  - `clean_line` turns a raw log line into no record or into a list of
    lower-case tokens (module `CompareLog`).
  - `compare_files` filters both traces down to their records.
  - It then decides a verdict in three ordered steps:
    a length-deficit check, a fail-fast positional comparison of whole
    records, and a tolerance of at most 10 trailing extra RTL records.
  - The process exit becomes a `Verdict` value.
- **Golden-log converter** (`sim/prog4/gen_commit_log.py`, module `GenCommitLog`).
  - The per-line decision: boot-ROM lines (PC below `0x2000`) are dropped,
    a store wins over a register write, `f` registers move to 32-63, and
    lines with neither effect are omitted.
  - The output format, and the loop that writes the kept lines in input order.
  - Module `CommitReadBack` connects the two scripts. Every line the
    converter writes is read back by `clean_line` as exactly its intended
    record; the padding of `x{idx:<2}` vanishes, so the token is `x<idx>`.
- **Stable merge sort** (`sim/prog1/main.c`, module `Prog1MergeSort`).
  - `merge`, `merge_sort_recursive` and `MergeSort` are written
    imperatively over Dafny arrays, with the scratch buffer `temp`.
  - The copy loop of `main` is modelled too.
  - Each method is proved against the functional merge `MergeBy`.
  - About `MergeBy`, lemmas prove sortedness, permutation, stability and
    that skipping the merge is correct.
- **Euclidean GCD on `uint32_t`** (`sim/prog3/main.c`, module `Prog3Gcd`).
  - `gcd_u32` is a `while` loop over `u32` locals.
  - It is proved to return a common divisor that every common divisor
    divides, with the two zero cases explicit.
  - The call in `main` stores that result.

`options.dfy` holds the `Option` type that stands for Python's `None`.

### Comparison is record by record

Records are compared whole (`sim/compare_log.py:48`), so an RTL record with
one extra trailing field is a mismatch (`CompareLog.TrailingFieldIsMismatch`);
a mismatch reports its 1-based position among the records, printed as
`line i+1`, and both records (`sim/compare_log.py:49-51`). Header, blank and
comment lines are filtered out before that position is counted
(`sim/compare_log.py:36-37`). The `FailMismatch` verdict carries the 0-based
record index `i` and both records.

## Model

| member | source | states |
|---|---|---|
| CompareLog.Strip | sim/compare_log.py:18 | `strip()`: the result is empty exactly when the line is all whitespace; otherwise it starts and ends with a non-blank; stripped text is left unchanged |
| CompareLog.TrimStart | sim/compare_log.py:18 | the leading part of `strip()`: a suffix of the text, all that is cut is whitespace, and the rest starts with a non-blank |
| CompareLog.TrimEnd | sim/compare_log.py:18 | the trailing part of `strip()`: a prefix of the text, all that is cut is whitespace, and the rest ends with a non-blank |
| CompareLog.StripBetweenBlanks | sim/compare_log.py:18 | `strip()` is the infix of the text between a leading and a trailing run of whitespace |
| CompareLog.RemoveUnderscores | sim/compare_log.py:23 | `replace("_", "")`: the result has no `_`, has only characters of the input, and is the input when that has no `_` |
| CompareLog.RemoveUnderscoresCounts | sim/compare_log.py:23 | every character other than `_` occurs in the result as often as in the input, and `_` not at all |
| CompareLog.RemoveUnderscoresAppend | sim/compare_log.py:23 | the removal works character by character: it distributes over concatenation, so order is kept |
| CompareLog.LowerChar | sim/compare_log.py:24 | an upper-case ASCII letter becomes its lower-case letter; every other character is unchanged; whitespace and `_` stay what they were |
| CompareLog.Lower | sim/compare_log.py:24 | `lower()` keeps the length |
| CompareLog.LowerLetters | sim/compare_log.py:24 | the result has no upper-case letter, each upper-case letter is replaced by its lower-case letter at the same position, and every other character is kept |
| CompareLog.LowerIdempotent | sim/compare_log.py:24 | lower-casing twice is lower-casing once |
| CompareLog.Split | sim/compare_log.py:24 | `split()`: every token is non-empty and whitespace-free, and is made of characters of the text |
| CompareLog.SplitJoin | sim/compare_log.py:24 | `split()` inverts `" ".join` on whitespace-free tokens |
| CompareLog.SplitLower | sim/compare_log.py:24 | splitting lower-cased text gives the lower-cased tokens of the text |
| CompareLog.CleanLine | sim/compare_log.py:9-24 | no record exactly for an empty or all-blank line, or stripped text starting with case-sensitive `PC`, `-` or `#`; every token of a record is non-empty, with no whitespace, `_` or upper-case letter |
| CompareLog.CleanLineOfPlainText | sim/compare_log.py:16-24 | stripped text without `_` that does not start with `P`, `-` or `#` normalises to its lower-cased split |
| CompareLog.StripWithNewline | sim/compare_log.py:18 | `strip()` removes a trailing newline with the other whitespace: any text gives the same stripped text with or without it |
| CompareLog.CleanLineWithNewline | sim/compare_log.py:32-33 | the newline `readlines` keeps on each line changes nothing: every line gives the same record, or none, with or without it |
| CompareLog.UnderscoresOnly | sim/compare_log.py:19-24 | a line made only of underscores gives the empty record, not no record |
| CompareLog.CleanLineIdempotent | sim/compare_log.py:18-24 | a non-empty record `t` whose first token does not begin with `-` or `#`: the line `" ".join(t)` gives `t` again |
| CompareLog.JoinedRecordNormalises | sim/compare_log.py:18-24 | the join of any such canonical record normalises back to the record |
| CompareLog.IdempotenceCounterexample | sim/compare_log.py:19-23 | the condition is needed: `"_-1"` gives `["-1"]`, whose join `"-1"` is a separator line and gives no record |
| CompareLog.Records | sim/compare_log.py:32-37 | filtering gives at most one record per line |
| CompareLog.RecordsAppend | sim/compare_log.py:32-37 | filtering a concatenation gives the records of each part in order |
| CompareLog.RecordsAllKept | sim/compare_log.py:32-37 | when every line gives a record there is one record per line, at the same position |
| CompareLog.FirstMismatch | sim/compare_log.py:47-48 | none exactly when the zipped traces agree everywhere; otherwise the smallest index where the records differ |
| CompareLog.Compare | sim/compare_log.py:41-71 | FailShort exactly when RTL is shorter; FailMismatch exactly when some zipped pair differs, at the first differing index with both records; FailExcess and PassWithWarning exactly when golden is a prefix and more than 10, or 1 to 10, records remain, with those counts and records; Pass exactly when the traces are equal; passing exactly when RTL is at least as long, has golden as a prefix and has at most 10 extra records |
| CompareLog.CompareRecords | sim/compare_log.py:39-71 | the three ordered steps with the early-exit loop over the zipped traces return the verdict `Compare` defines |
| CompareLog.CompareFiles | sim/compare_log.py:26-73 | filters both logs with `clean_line` and returns the verdict on their records |
| CompareLog.CompareExitStatus | sim/compare_log.py:41-73 | the script exits with status 0 exactly when RTL is at least as long as golden, has golden as a prefix and has at most 10 extra records; otherwise with status 1 |
| CompareLog.TrailingFieldIsMismatch | sim/compare_log.py:47-52 | an RTL record that only adds a trailing field to the golden record is a mismatch at that index |
| GenCommitLog.HexDigitValue | sim/prog4/gen_commit_log.py:24 | each hexadecimal digit of `int(pc_str, 16)` is worth less than 16 |
| GenCommitLog.HexDigitCase | sim/prog4/gen_commit_log.py:24 | `int(_, 16)` ignores case: a digit and its lower-case form are worth the same |
| GenCommitLog.HexDigitChar | sim/prog4/gen_commit_log.py:24 | a reference digit printer, not in the source, standing for one digit of the simulator's PC field: every value below 16 is printed as a hexadecimal digit that the parse of line 24 reads back as that value |
| GenCommitLog.HexValueBound | sim/prog4/gen_commit_log.py:24 | `n` hexadecimal digits are worth less than `16^n` |
| GenCommitLog.HexDigits | sim/prog4/gen_commit_log.py:24 | a reference printer, not in the source, standing for the simulator's zero-padded PC field, against which the parse of line 24 is round-tripped: it gives exactly `width` hexadecimal digits |
| GenCommitLog.HexRoundTrip | sim/prog4/gen_commit_log.py:24 | `int(_, 16)` inverts printing: a value below `16^width`, printed in `width` digits, reads back as itself |
| GenCommitLog.HexLeadingZero | sim/prog4/gen_commit_log.py:24 | a leading zero digit does not change the value |
| GenCommitLog.LiteralOfPrinted | sim/prog4/gen_commit_log.py:19-24 | `0x` followed by the printed digits of a value is a hexadecimal literal that reads back as that value |
| GenCommitLog.RegIndex | sim/prog4/gen_commit_log.py:45-48 | a register number below 32 maps into 0-63; below 32 exactly for `x` registers; the number is kept modulo 32 |
| GenCommitLog.Decide | sim/prog4/gen_commit_log.py:15-52 | a commit exactly when the base pattern matched, the PC is at least `0x2000` and the line is a store or a register write; the commit keeps PC and instruction; a store (a `mem` match with data) wins; otherwise, a load included, the register write with the remapped index |
| GenCommitLog.DecimalRoundTrip | sim/prog4/gen_commit_log.py:42-50 | the printed register index reads back as that index |
| GenCommitLog.Decimal | sim/prog4/gen_commit_log.py:50 | `str(n)` is a non-empty string of decimal digits without a leading zero |
| GenCommitLog.LeftJustify | sim/prog4/gen_commit_log.py:50 | `{s:<2}`: the text followed by spaces up to the width, never shortened |
| GenCommitLog.Format | sim/prog4/gen_commit_log.py:37-50 | both output formats start with `pc (inst) ` |
| GenCommitLog.CommitOf | sim/prog4/gen_commit_log.py:15-55 | one input line contributes at most one commit |
| GenCommitLog.Commits | sim/prog4/gen_commit_log.py:11-55 | a log gives at most one commit per line |
| GenCommitLog.CommitsOutsideBootRom | sim/prog4/gen_commit_log.py:24-25 | no commit of the converted log has a program counter below `0x2000` |
| GenCommitLog.ParseAndConvert | sim/prog4/gen_commit_log.py:11-55 | the loop writes one line per kept input line, the k-th being the formatted k-th commit followed by a newline, in input order |
| GenCommitLog.CommitsSnoc | sim/prog4/gen_commit_log.py:11-55 | one more input line appends only its own contribution |
| GenCommitLog.CommitsAppend | sim/prog4/gen_commit_log.py:11-55 | the commits of a concatenated log are the commits of each part, in order |
| CommitReadBack.FormatStoreNormalises | sim/prog4/gen_commit_log.py:37 | a store line reads back as `[pc, (inst), mem, addr, data]`, lower-cased |
| CommitReadBack.FormatRegNormalises | sim/prog4/gen_commit_log.py:50 | a register line reads back as `[pc, (inst), x<idx>, value]`, lower-cased, with the index padding gone |
| CommitReadBack.FormatNormalises | sim/prog4/gen_commit_log.py:37-50 | every output line reads back through `clean_line` as exactly its intended record |
| CommitReadBack.FormatPlain | sim/prog4/gen_commit_log.py:37-50 | every output line is non-empty and begins and ends with a non-blank |
| CommitReadBack.FormatWrittenNormalises | sim/prog4/gen_commit_log.py:54-55 | a written line, newline included, reads back through `clean_line` as exactly its intended record |
| CommitReadBack.ConvertLineReadBack | sim/prog4/gen_commit_log.py:15-55 | a line produces output exactly when the base pattern matched, the PC is at least `0x2000` and it is a store or a register write; what it writes, newline included, reads back as the record of the decided commit |
| CommitReadBack.ConvertedLogRecords | sim/prog4/gen_commit_log.py:54-55 | the log written with a newline after each formatted commit, read back, has one record per commit at the same position |
| Prog1MergeSort.MergeBy | sim/prog1/main.c:7-15 | the merge has as many elements as both runs |
| Prog1MergeSort.MergePermutes | sim/prog1/main.c:7-15 | the merge is a permutation of its two runs |
| Prog1MergeSort.MergeSorted | sim/prog1/main.c:7-15 | merging two sorted runs gives a sorted run |
| Prog1MergeSort.MergeOfOrderedRuns | sim/prog1/main.c:27-30 | sorted runs with `a`'s last at most `b`'s first are already their merge, and their concatenation is sorted |
| Prog1MergeSort.MergeStable | sim/prog1/main.c:7-13 | with ties taken from the left run, merging stably sorted runs (the left entirely before the right) gives a stably sorted run |
| Prog1MergeSort.MergeForgetsTags | sim/prog1/main.c:7-13 | the integer merge is the value sequence of the merge of the position-tagged runs |
| Prog1MergeSort.MergeIsStable | sim/prog1/main.c:1-13 | the merge of two adjacent sorted runs is the value sequence of a stable merge: equal elements keep their original order |
| Prog1MergeSort.Mid | sim/prog1/main.c:24 | for `left < right`, `left <= mid < right`, and the left half gets the odd element |
| Prog1MergeSort.MergeStart | sim/prog1/main.c:3-5 | the loop state before the first loop of `merge`: nothing taken yet |
| Prog1MergeSort.TakeLeft | sim/prog1/main.c:8-9 | taking the left head when it is at most the right head, or when the right run is empty, keeps the merge equation |
| Prog1MergeSort.TakeRight | sim/prog1/main.c:10-11 | taking the right head otherwise keeps the merge equation |
| Prog1MergeSort.MergeDrained | sim/prog1/main.c:7-15 | once one run is used up, what was taken followed by the rest of both runs is the merge |
| Prog1MergeSort.MergeHeads | sim/prog1/main.c:7-13 | the first loop of `merge`: `i <= mid+1`, `j <= right+1`, one run used up, `k` equal to `left` plus what was written, `temp[left..k-1]` the prefix of the merge, nothing else in `temp` touched |
| Prog1MergeSort.CopyRun | sim/prog1/main.c:14-15 | the draining loops copy the rest of a run to `temp[k..]` and move `k` by its length, touching nothing else |
| Prog1MergeSort.MergeIntoTemp | sim/prog1/main.c:3-15 | the three loops leave the merge of `arr[left..mid]` and `arr[mid+1..right]` in `temp[left..right]`, and nothing else in `temp` changes |
| Prog1MergeSort.CopyBack | sim/prog1/main.c:17-19 | `arr[left..right]` takes `temp[left..right]`, and nothing else in `arr` changes |
| Prog1MergeSort.Merge | sim/prog1/main.c:2-20 | `arr[left..right]` becomes the merge of its two old runs; only `arr[left..right]` and `temp[left..right]` change |
| Prog1MergeSort.MergedRuns | sim/prog1/main.c:2-19 | the merge of two sorted runs is sorted and a permutation of their concatenation |
| Prog1MergeSort.MergedRange | sim/prog1/main.c:2-19 | a range holding the merge of its two sorted halves is sorted and a permutation of what it held |
| Prog1MergeSort.MergeStep | sim/prog1/main.c:28-30 | whether `merge` is called (`arr[mid] > arr[mid+1]`) or skipped, the range holds the merge of its sorted halves; nothing outside `left..right` changes |
| Prog1MergeSort.SortedHalves | sim/prog1/main.c:25-26 | after both recursive calls both halves are sorted, the range is a permutation of what it held, and nothing outside it changed |
| Prog1MergeSort.MergeSortRecursive | sim/prog1/main.c:22-31 | `arr[left..right]` is sorted and a permutation of its old contents; no cell of `arr` or `temp` outside the range changes |
| Prog1MergeSort.MergeSort | sim/prog1/main.c:33-39 | `arr[0..size-1]` is sorted and a permutation of its old contents; for `size <= 1` the array is unchanged; cells beyond `size` never change |
| Prog1MergeSort.SortAndStore | sim/prog1/main.c:46-50 | the input region is sorted and a permutation; the result region equals it cell by cell for `0..array_size-1`; nothing beyond changes |
| Prog3Gcd.RemainderOfMultiples | sim/prog3/main.c:14 | a common divisor of `a` and `b` divides `a % b` |
| Prog3Gcd.SumOfMultiples | sim/prog3/main.c:14 | a common divisor of `b` and `a % b` divides `a` |
| Prog3Gcd.StepKeepsDivisors | sim/prog3/main.c:13-17 | for `b != 0` the step `a, b := b, a % b` keeps the set of common divisors, so it keeps the gcd |
| Prog3Gcd.DivisorsWithZero | sim/prog3/main.c:10-12 | `x` is the greatest common divisor of `x` and 0 |
| Prog3Gcd.GcdU32 | sim/prog3/main.c:9-19 | `gcd(0, b) == b` and `gcd(a, 0) == a`; the result divides both inputs, every common divisor divides it, and it is at most `max(a, b)`; all values stay `uint32_t`, and `b` decreases at each step |
| Prog3Gcd.GcdUnique | sim/prog3/main.c:9-19 | the properties GcdU32 promises fix the result: two such values are equal |
| Prog3Gcd.GcdIsLargest | sim/prog3/main.c:9-19 | a positive greatest common divisor is at least every common divisor |
| Prog3Gcd.StoreGcd | sim/prog3/main.c:26-30 | the word `_test_start` receives the greatest common divisor of `div1` and `div2`, and nothing beyond it changes |

## Left out

- The file handling of both scripts is not modelled: opening files, `readlines` and writing `commit.log`. The logs are sequences of lines, and the converter's output is a returned sequence.
- Printing is not modelled: colours, messages and the list of ignored lines. `sys.exit` is the returned `Verdict` with its `ExitStatus`.
- The command-line entry points are not modelled: default file names, `FileNotFoundError` handling and the usage message.
- The three regular expressions of `gen_commit_log.py` are not modelled: a line is given by the fields they matched. The hexadecimal groups form a subset type, and the register number arrives already parsed as decimal.
- CompareLog.Lower, CompareLog.LowerChar, CompareLog.LowerLetters: model `str.lower` on ASCII letters only. Python's `str.lower` also maps other Unicode letters; on the hexadecimal logs this model is about, the two agree.
- CompareLog.CleanLineIdempotent: needs an extra condition, that the first token does not start with `-` or `#`. Idempotence does not hold without it (see `CompareLog.IdempotenceCounterexample`).
- Merge's four loops are four methods called in sequence (`MergeHeads`, `CopyRun` twice, `CopyBack`); the loops and their index variables are the same.
- There is no width for C `int` array elements: they are mathematical integers, since the sort only compares them. Indices are unbounded integers; `left + (right - left) / 2` cannot overflow for any valid range.
- Prog1MergeSort.Merge, Prog1MergeSort.MergeSortRecursive: require `arr` and `temp` to be different arrays, as in the source, which allocates `temp` separately.
- The variable-length array `temp` of `MergeSort` is a freshly allocated Dafny array of `size` cells.
- The linker symbols (`array_addr`, `array_size`, `_test_start`, `div1`, `div2`) are arrays and parameters; the `return 0` of both `main` functions is not modelled.
- Prog1MergeSort.SortAndStore: requires the regions at `array_addr` and `_test_start` to be different arrays; they are two distinct linker symbols, and the model does not cover a layout in which the two regions overlap.
- `sim/prog0/boot.c` is not part of this model: it holds RISC-V inline assembly and device register writes, with no sequential logic to state.
- `sim/prog_gen/patch.py` is not part of this model: it is a file rewrite around two regular-expression substitutions.
