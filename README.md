# Iterative vs recursive maximum: a verified model of the comparison demo

The program is a small desktop demo (`algo.py`) that times two ways of
finding the maximum of a list of integers, an iterative loop and a tail
recursion, and logs which one was faster. This project models the logic under
its GUI in Dafny and proves what that logic promises:

* `MaxAlgorithms` (`max_algorithms.dfy`): the two candidates. `FindMaxIterative`
  is a loop that keeps a running maximum. The recursive candidate is split into
  an entry function `FindMaxRecursive` and a helper `MaxFrom` that threads the
  index and the maximum so far. Python's recursion limit becomes an explicit
  call-depth `ceiling`, and a `RecursionError` becomes the typed outcome
  `DepthExceeded` (`Outcomes.Outcome`). Both candidates are proved against an
  independent reference maximum `SeqMax`, and so they agree.
* `NumberText` (`number_text.dfy`): `get_numbers`. It splits the entry text on
  `,` (`Split`), strips Python whitespace from each piece (`Strip`), drops the
  blank pieces (`NonBlank`) and reads each remaining piece with `int()`
  (`ParseInt`). The text is refused with `InvalidNumber` when some piece is not
  an integer, and with `NoNumbers` when no piece is left. The module also has
  `str()` of an integer (`IntToString`) and the text the random-data button
  writes (`GeneratedText`), and proves that the parser reads both back.
* `Statistics` (`statistics.dfy`): `statistics.median` on an odd number of
  samples, which is the middle of the sorted samples. It is proved to be one
  of the samples with at least half plus one of the samples on each side, and
  that property determines it.
* `Comparison` (`comparison.dfy`): `run_comparison` and the export. Each
  candidate is timed `RUNS` = 5 times (`MeasureIterative`, `MeasureRecursive`).
  The clock is replaced by the durations it would have measured, passed in as
  parameters. The winner is chosen by strict `<`, so a tie goes to Recursive
  (`Decide`). A depth failure gives recursive time 0 and winner Failed
  (`Compare`, `ReportOf`). The history table is the class `ExperimentLog`, and
  each accepted run appends exactly one row to it (`RunComparison`). `Export`
  builds the header and then the rows in log order, and reading the exported
  table back gives the rows again (`ExportRoundTrip`).

The recursion limit: the model counts only the frames of the recursive
algorithm itself. The call for index `i` runs at depth `i`, so the deepest
frame is at depth `|data|`, and the run fails exactly when `|data| > ceiling`.
CPython's limit of 3000 (`algo.py:10`, `RECURSION_LIMIT`) also counts the
frames of the GUI callback that is running. The real program therefore fails
somewhat below 3000 elements, and the model's `ceiling` stands for the frames
left to the algorithm.

## Model

| member | source | states |
|---|---|---|
| `MaxAlgorithms.SeqMax` | algo.py:18-33 | The reference maximum of a non-empty sequence: it is an element and no element exceeds it. |
| `MaxAlgorithms.FindMaxIterative` | algo.py:18-23 | For any non-empty data the loop returns an element of the data that is at least every element, equal to the reference maximum. |
| `MaxAlgorithms.DeepestFrameCounts` | algo.py:29-33 | Each frame with an index left calls one more frame one level deeper, the frame past the last index is the deepest, and the first call (index 1 at depth 1) reaches depth `len(data)`. |
| `MaxAlgorithms.MaxFrom` | algo.py:26-33 | The helper fails with DepthExceeded exactly when its deepest frame (one frame per remaining index) is beyond the ceiling. Otherwise it returns a value at least the maximum so far that is either that maximum or an element from `idx` on, and no element from `idx` on exceeds it. |
| `MaxAlgorithms.FindMaxRecursive` | algo.py:26-33 | The recursive candidate fails exactly when the data is longer than the depth ceiling, and otherwise returns the maximum of the data. |
| `MaxAlgorithms.RecursiveAgreesWithIterative` | algo.py:18-33 | The recursive result is DepthExceeded when the data is longer than the ceiling and otherwise Success of the same maximum the iterative candidate returns. |
| `NumberText.JoinWithLayout` | algo.py:41 | `sep.join(parts)` starts with the first part, ends with the last, and is as long as the parts together plus one separator between each two. |
| `NumberText.Split` | algo.py:50 | `split(',')` gives at least one piece, no piece holds the separator, and joining the pieces with the separator gives the text back. |
| `NumberText.SplitJoin` | algo.py:50 | Splitting undoes joining: joining separator-free pieces and splitting again gives the same pieces. |
| `NumberText.Strip` | algo.py:51 | `strip()` gives a slice of the piece with only whitespace cut off before and after it. It is empty exactly when the piece is all whitespace, and otherwise neither starts nor ends with whitespace. |
| `NumberText.StripTrimmed` | algo.py:51 | Stripping leaves a text without whitespace at its ends unchanged and removes one blank in front of it. |
| `NumberText.ParseInt` | algo.py:51 | `int()` of a stripped piece succeeds exactly on an optional sign followed by at least one decimal digit. |
| `NumberText.ParseIntValue` | algo.py:51 | `int()` of a digit string is the digits' value, a `+` in front leaves it unchanged, a `-` negates it and a leading zero leaves it unchanged, which fixes the value of every accepted literal. |
| `NumberText.ParseIntExamples` | algo.py:51 | Typed literals read as `int()` reads them: `+5` as 5, `007` as 7, `-0` as 0 and `-012` as -12. |
| `NumberText.IntToString` | algo.py:40 | `str()` of an integer is the canonical numeral: the digits without a leading zero (`0` for zero), behind a `-` exactly when the integer is negative, and never a `+`. It is non-empty, has no comma and no whitespace at its ends. |
| `NumberText.ParseIntToString` | algo.py:51 | `int()` reads back every integer `str()` writes. |
| `NumberText.NonBlankKeeps` | algo.py:51 | The `if x.strip()` filter keeps at most one text per piece, each a non-empty stripped piece, and keeps nothing exactly when every piece strips to the empty text. |
| `NumberText.NonBlankConcat` | algo.py:51 | The `if x.strip()` filter works piece by piece: filtering two runs of pieces gives the two filtered runs in order, and one piece is kept, stripped, exactly when it is not blank. So every non-blank piece is kept, in order, and nothing else is. |
| `NumberText.Gather` | algo.py:51 | The comprehension succeeds exactly when every piece was read, and then yields one value per piece in order. Otherwise it fails with InvalidNumber. |
| `NumberText.ParseNumbers` | algo.py:47-58 | `get_numbers` accepts exactly when there is at least one non-blank piece and every non-blank piece is an integer. It then returns one integer per non-blank piece, in order, so never an empty list. It refuses with InvalidNumber exactly when some non-blank piece is not an integer, and with NoNumbers exactly when there is no non-blank piece. |
| `NumberText.BlankTextRejected` | algo.py:52-54 | Empty or whitespace-only text is refused with NoNumbers. |
| `NumberText.SplitGenerated` | algo.py:40-41 | Splitting the generated text on `,` gives the first number as `str()` writes it and every later one behind the blank of `", "`. |
| `NumberText.ParseGenerated` | algo.py:38-41 | The text the random-data button writes (`", ".join` of `str()` of the numbers) is read back as exactly those numbers, in order. |
| `NumberText.DefaultEntryAccepted` | algo.py:144 | The start-up entry text `10, 5, 100, 2, 8` is read as the list [10, 5, 100, 2, 8]. |
| `Statistics.SortedCopy` | algo.py:74 | The sorted copy that `statistics.median` takes is ascending and a permutation of the samples. |
| `Statistics.Median` | algo.py:74 | The median of an odd number of samples is one of the samples. At least half of the samples plus one are at most it and as many are at least it (three of five on each side). |
| `Statistics.MedianIsOrderStatistic` | algo.py:85 | A sample with at least half plus one of the samples on each side is the median, so the median is the middle order statistic. |
| `Statistics.MedianExample` | algo.py:74 | The samples 5, 1, 9, 3, 7 reduce to 5. |
| `Comparison.Decide` | algo.py:88-93 | The winner is Iterative exactly when its time is strictly smaller, and Recursive exactly when the recursive time is at most the iterative one, ties included. |
| `Comparison.MeasureIterative` | algo.py:66-74 | Timing the iterative candidate over RUNS injected durations gives the maximum of the data and the median of those durations. |
| `Comparison.MeasureRecursive` | algo.py:76-98 | Timing the recursive candidate gives DepthExceeded and time 0 when the data is longer than the ceiling. Otherwise it gives the same maximum and the median of its durations. |
| `Comparison.Compare` | algo.py:61-98 | One comparison reports the true maximum, the input size and the iterative median. A depth failure gives recursive time 0 and winner Failed. Otherwise the recursive value equals the iterative one, the recursive time is its median and the winner is decided by strict `<`. |
| `Comparison.WinnerMeaning` | algo.py:88-98 | In any report the winner is Failed exactly when the data exceeds the ceiling. It is Iterative exactly when there is no failure and the iterative median is strictly smaller, and Recursive exactly when there is no failure and the recursive median is at most the iterative one. |
| `Comparison.DefaultEntryScenario` | algo.py:61-108 | For the start-up numbers, under any ceiling from 5 frames up to the configured limit of 3000, both candidates find 100, the size is 5 and the winner is not Failed. |
| `Comparison.ExperimentLog.constructor` | algo.py:188 | The history table starts empty. |
| `Comparison.ExperimentLog.Append` | algo.py:108 | Appending adds the row at the end and leaves the earlier rows unchanged. |
| `Comparison.ExperimentLog.Export` | algo.py:113-125 | The exported table is the header row and then one formatted row per log row, in log order. |
| `Comparison.RunComparison` | algo.py:61-108 | Refused text reports the parser's error and leaves the log unchanged. Accepted text reports a comparison of the parsed numbers and appends exactly its row, `(size, iterative ns, recursive ns, winner)`, keeping the earlier rows. |
| `Comparison.WinnerName` | algo.py:88-98 | Each winner's name ("Iterative", "Recursive", "Failed") reads back as that winner. |
| `Comparison.HeaderText` | algo.py:117-122 | The header row is "Input Size", the two median-time columns "over 5" runs, and "Winner", and it cannot be read back as a data row. |
| `Comparison.FormatRecord` | algo.py:123-125 | A row is written as four fields, and they read back as the same record. |
| `Comparison.ExportRoundTrip` | algo.py:113-125 | Reading an exported table back gives the logged rows, in the same order. |

## Left out

- The tkinter GUI: widgets, labels, colours, message boxes, the export button's state and the main loop (algo.py:1-3, 42-44, 90, 93, 99, 102-105, 110, 127-143, 145-187, 189-204). The two message-box texts of `get_numbers` are kept as the two `ParseError` values.
- `time.perf_counter_ns`: the host clock is replaced by injected durations, one per timed run. Nothing is assumed about them, so monotonicity is not modelled.
- `random.randint`: the random list itself is not modelled. Only the text format the generator writes is modelled (`GeneratedText`), for any integers, without its length and value bounds.
- `sys.setrecursionlimit` and CPython's frame accounting: the limit is an explicit `ceiling` on the algorithm's own frames. The frames of the running GUI callback are not counted.
- CSV file writing: the file name, the `csv` module's quoting and line endings, and `os.getcwd` are file I/O. `Export` produces the table of fields the writer receives.
- The Treeview's own storage of the row values, which it may hand back as strings or numbers: the log keeps typed records.
- ParseInt: does not accept underscores between digits or non-ASCII decimal digits, which `int()` accepts. Only an optional sign followed by ASCII digits is accepted.
- ParseInt: has no limit on the number of digits. Python 3.11 and later (and the 3.7.14, 3.8.14, 3.9.14 and 3.10.7 security releases) make `int()` raise ValueError on a decimal text of more than 4300 digits. That limit depends on the interpreter version and on `sys.set_int_max_str_digits`. Such a piece is refused with "Invalid input!" at algo.py:56-58, while `ParseNumbers` accepts it.
- `statistics.median` on an even number of samples, which averages two samples into a float: `Median` requires an odd number, and RUNS = 5.
- The display value `"Error"` shown for a failed recursive result (algo.py:96) is the `DepthExceeded` outcome in the report.
