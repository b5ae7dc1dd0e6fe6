# Frame-rate regression reports, modelled in Dafny

This project models four small scripts used to compare graphics benchmark runs:

- `fps-analysis/report-fps-traces.py` reads two result files of `trace,fps` rows, a "before" run and an "after" run. For each trace it reduces the samples to an average and a population standard deviation. With `--skip-min-max` it first drops one lowest and one highest sample. It then compares the traces the two runs share against a relative threshold. It prints the helped and the hurt traces, the lost and the gained traces, a summary of the totals, and finally the lost/gained counts or "No changes.".
- `deqp/deqp-runner-check-regressions-from-csv.py` reads two deqp-runner result files. For each file it collects the failing, crashing and timing-out tests. It prints the tests that newly entered each category.
- `fps-analysis/fps-summary.py` and `misc/fps-summary.py` print the average, minimum and maximum frame rate of one overlay-layer log. The first finds the `fps` column in a header line and takes an optional sample cap. The second reads the first field of every line that is neither empty nor the header.

The model has one module per concern:

- `Wrappers`: `Option`, `Result`, and the Python exception kinds the scripts can raise.
- `Dicts`: an insertion-ordered dict, a key order plus a map.
- `Text`: `str.split`, `join`, `strip`, `lower`, the string order `sorted` uses, and `str(int)`.
- `Ingest`: `get_results`.
- `Aggregate`: `process_one_result` and `process_results`.
- `ReportFormat`: the number and line formatting helpers.
- `Classify`: the comparison loop of `main`, lost/gained, and sort order.
- `FpsReport`: the printed report and the whole run.
- `DeqpRegressions`: the deqp script.
- `FrameRates`, `FpsSummary`, `MiscFpsSummary`: the two summary scripts.

The loops that build up a value are methods with loop invariants: reading the rows (`GetResults`, `LoadStatus`), processing traces (`ProcessOneResult`, `ProcessResults`), the comparison (`ClassifyRuns`), collecting lost and gained traces (`CollectMissing`), the header scan (`FindFpsColumn`) and the two summary line loops (`Run`). Each is proved equal to a recursive specification function over a prefix of its input. The padding loop of `get_result_string` is the method `GetResultString`, proved equal to the closed form `ResultString`. The loops that only print one line per element (lines 209-211, 217-219, 240-241 and 246-247 of `fps-analysis/report-fps-traces.py`) are the functions `TraceLines` and `NameLines`. The whole runs (`CompareRuns`, `CheckRegressions`) are methods proved equal to the composition of those functions for the whole input. The properties are lemmas about the functions. A Python exception is an `Err` carrying its kind (`ZeroDivisionError`, `ValueError`, `IndexError`). A sequence of printed lines stands for the `print` calls, one element per call.

Behaviour of the code that the model follows, and that a reader might not expect:

- `report-fps-traces.py` skips `.gfxr` / `.trace` traces in the comparison loop (lines 176-181), not when it reads the files. A skipped trace therefore still counts towards LOST and GAINED.
- A compared trace whose before average is 0 raises `ZeroDivisionError` at line 195, which ends the run. The guard in `get_delta` never gets the chance to print a delta without a percentage for it.
- The totals summary is printed only when some trace was helped or hurt (line 256). `--summary-only` suppresses only the per-trace and per-name lines.
- Helped vs hurt compares `[avg, std]` lists element by element (line 201). With a non-negative threshold this reduces to comparing the averages (`HelpedMeansFaster`).
- The two sort keys (lines 207-208 and 215-216) both list the largest relative change first (`LargestChangeFirst`). The branch for a zero before average cannot be taken.
- The population abs/rel statistics are not computed by the code (the FIXME at line 267). They are not modelled.
- `fps-analysis/fps-summary.py` reads every line after the header, including the empty line after a trailing newline. Without a cap, such a log raises (`TrailingNewlineRaises`).
- `misc/fps-summary.py` divides by zero on a log without data lines (`NoSamplesDividesByZero`).
- `deqp-runner-check-regressions-from-csv.py` guards its timeout section by `crash_regressions` (line 54). `CheckRegressions` prints what that code prints; `CheckRegressionsCorrected` prints the report with the timeout section guarded by its own set (see Findings).

## Model

| member | source | states |
|---|---|---|
| Text.JoinSplit | fps-analysis/fps-summary.py:20 | joining the pieces of `split(sep)` with `sep` gives the text back |
| Text.SplitCharPieces | misc/fps-summary.py:19 | splitting on one character yields two or more pieces exactly when the character occurs |
| Text.SplitWithoutSeparator | misc/fps-summary.py:19 | a text without the separator splits into itself alone |
| Text.SplitTrailingSeparator | fps-analysis/fps-summary.py:20 | a text ending in a one-character separator splits into at least two pieces, the last one empty |
| Text.Strip | deqp/deqp-runner-check-regressions-from-csv.py:17 | `strip()` is the input with a run of leading and a run of trailing whitespace cut off, and neither starts nor ends with whitespace |
| Text.StripIdempotent | deqp/deqp-runner-check-regressions-from-csv.py:17-22 | stripping twice is stripping once |
| Text.Lower | deqp/deqp-runner-check-regressions-from-csv.py:17 | `lower()` keeps the length and lower-cases exactly the ASCII capitals |
| Text.SortedNames | deqp/deqp-runner-check-regressions-from-csv.py:44 | `sorted(set)` lists every member exactly once, in strictly increasing code-point order |
| Text.NatToStringRoundTrip | fps-analysis/report-fps-traces.py:29 | the decimal digits of `str(n)` read back as `n` |
| ReportFormat.RoundHalfEven | fps-analysis/report-fps-traces.py:31 | the rounded integer is within one half of its argument, and even when it is exactly one half away |
| ReportFormat.Fixed2 | fps-analysis/report-fps-traces.py:31 | `"{:.2f}"` output is a sign or digit, digits, and a final digit, with no blank |
| ReportFormat.Fixed2RoundTrip | fps-analysis/report-fps-traces.py:31 | a non-negative number printed with two decimals reads back as itself rounded half-even to hundredths, within 0.005 |
| ReportFormat.FormatNum | fps-analysis/report-fps-traces.py:26-31 | `format_num` prints digits and a point only, ending in a digit; it requires `n >= 0` as the source's assert does |
| ReportFormat.FormatNumValue | fps-analysis/report-fps-traces.py:26-31 | a whole number is printed exactly when the fraction is below 0.01, and the printed value is within (n - 0.01, n + 0.005] |
| ReportFormat.FormatPercent | fps-analysis/report-fps-traces.py:10-15 | `<.01%` exactly when 0 < abs(frac) < 0.0001; otherwise the text ends in `%` and has no blank |
| ReportFormat.GetDelta | fps-analysis/report-fps-traces.py:18-23 | empty exactly when either value is zero; otherwise ` (` … `)`, and ` (<.01%)` exactly for a nonzero relative change below 0.0001 |
| ReportFormat.ChangeNumbersOfChange | fps-analysis/report-fps-traces.py:38-39 | the two numbers can be read back out of a `change` text |
| ReportFormat.ChangeRoundTrip | fps-analysis/report-fps-traces.py:38-39 | reading the numbers back out of "before -> after" recovers both values up to `format_num` rounding |
| ReportFormat.AvgStdString | fps-analysis/report-fps-traces.py:34-35 | the (avg , std) text is parenthesized |
| ReportFormat.PaddedShape | fps-analysis/report-fps-traces.py:47-49 | the name field is `max(len(p)+2, 50)` long: the name, `": "`, then blanks only |
| ReportFormat.GetResultString | fps-analysis/report-fps-traces.py:46-53 | the padding loop ends with a field of at least 50 characters starting with the name and `": "`, followed by the change text |
| Ingest.GetResults | fps-analysis/report-fps-traces.py:56-78 | the row loop returns the dict of the row-by-row specification, or its first exception |
| Ingest.FailureSticks | fps-analysis/report-fps-traces.py:62-76 | once a row raises, the whole read raises the same exception |
| Ingest.IngestedOkIff | fps-analysis/report-fps-traces.py:62-76 | reading succeeds exactly when every row has a name and every kept row has a numeric second field |
| Ingest.IngestedContents | fps-analysis/report-fps-traces.py:56-78 | the dict holds exactly the kept traces that occur, each with one sample per row of it, in file order |
| Ingest.IngestedKeys | fps-analysis/report-fps-traces.py:70-76 | the key order lists the kept traces in the order of their first rows (`FirstSeen`) |
| Ingest.AddRowKeepsValid | fps-analysis/report-fps-traces.py:70-76 | reading a row keeps the key order duplicate-free and in step with the entries |
| Aggregate.ProcessOneResult | fps-analysis/report-fps-traces.py:80-99 | the two loops compute min, max, mean and sqrt of the population variance; an empty list divides by zero |
| Aggregate.RunningMinBounds | fps-analysis/report-fps-traces.py:83-90 | the running minimum is at most its start and every sample, and is its start or a sample |
| Aggregate.RunningMaxBounds | fps-analysis/report-fps-traces.py:82-89 | the running maximum is at least its start and every sample, and is its start or a sample |
| Aggregate.MinIsSample | fps-analysis/report-fps-traces.py:83-90 | starting from `sys.float_info.max`, the minimum of frame rates is one of them |
| Aggregate.MaxIsSample | fps-analysis/report-fps-traces.py:82-89 | starting from 0, the maximum of frame rates is one of them |
| Aggregate.MeanBounds | fps-analysis/report-fps-traces.py:92 | the mean of values in [lo, hi] lies in [lo, hi] |
| Aggregate.VarianceNonNegative | fps-analysis/report-fps-traces.py:94-97 | the value passed to `sqrt` is not negative |
| Aggregate.StatsBounds | fps-analysis/report-fps-traces.py:80-99 | for frame rates, min and max are samples, bracket every sample and the mean, and the variance is not negative |
| Aggregate.RemoveFirst | fps-analysis/report-fps-traces.py:111-112 | `list.remove` succeeds exactly when the value occurs, and raises ValueError otherwise |
| Aggregate.RemoveFirstMultiset | fps-analysis/report-fps-traces.py:111-112 | removing takes out exactly one occurrence: one shorter, multiset minus that value |
| Aggregate.MaxSurvives | fps-analysis/report-fps-traces.py:111-112 | after one minimum is removed from three or more samples, a maximum is still present, so the second `remove` cannot raise |
| Aggregate.TrimmingEffect | fps-analysis/report-fps-traces.py:110-114 | with trimming and three or more samples, exactly one min and one max leave the list and the measure is recomputed on the rest; otherwise list and measure are unchanged |
| Aggregate.ProcessResults | fps-analysis/report-fps-traces.py:101-120 | the loop over traces yields, in the same key order, the measures of the specification or its first exception |
| Aggregate.ProcessedOkIff | fps-analysis/report-fps-traces.py:104-118 | processing succeeds exactly when every trace's processing does |
| Aggregate.ProcessedContents | fps-analysis/report-fps-traces.py:104-120 | the result maps exactly the run's traces, each to its own measure |
| Aggregate.ProcessedRunSucceeds | fps-analysis/report-fps-traces.py:101-120 | a run read from a file (every trace has frame rates) never raises, and its averages and deviations are not negative |
| Classify.BaseNameIsLastComponent | fps-analysis/report-fps-traces.py:176 | the path's name is a '/'-free tail of it, preceded by '/' unless it is the whole path |
| Classify.TrimTrailing | fps-analysis/report-fps-traces.py:176 | pathlib drops only trailing '/' and '.' characters, leaving a prefix of the path that ends neither in '/' nor in a "/." component |
| Classify.NameIgnoresTrailing | fps-analysis/report-fps-traces.py:176 | `Path(p + "/")` and `Path(p + "/.")` have the same name as `Path(p)` |
| Classify.SuffixIs | fps-analysis/report-fps-traces.py:176-181 | `Path(p).suffix == ".gfxr"` (or `.trace`) exactly when `Path(p).name` ends with it and has something before it |
| Classify.SelectIn | fps-analysis/report-fps-traces.py:175-204 | a trace is in a group exactly when it is a key of the before run and meets that group's condition |
| Classify.ClassifiedIsClassification | fps-analysis/report-fps-traces.py:175-204 | running the loop step by step equals the group-by-group description: helped, hurt, and four sums |
| Classify.ClassifyRuns | fps-analysis/report-fps-traces.py:166-204 | the comparison loop of `main` computes that classification, or raises ZeroDivisionError |
| Classify.HelpedHurtPartition | fps-analysis/report-fps-traces.py:183-204 | raises exactly when a compared trace has a zero before average; otherwise helped and hurt are disjoint and hold exactly the compared, affected traces whose `[avg, std]` is or is not greater after |
| Classify.HelpedMeansFaster | fps-analysis/report-fps-traces.py:196-204 | with a non-negative threshold, helped means the average rose and hurt means it fell |
| Classify.ThresholdMonotone | fps-analysis/report-fps-traces.py:196 | raising the threshold never adds a trace to helped or hurt, and does not change whether the loop raises |
| Classify.AffectedTotalsBounded | fps-analysis/report-fps-traces.py:192-198 | each affected total lies between 0 and the matching all-runs total |
| Classify.MissingIn | fps-analysis/report-fps-traces.py:230-236 | a name is collected exactly when it is a key of one run and absent from the other |
| Classify.CollectMissing | fps-analysis/report-fps-traces.py:230-232 | each collecting loop produces the missing keys in key order |
| Classify.LostAndGained | fps-analysis/report-fps-traces.py:227-236 | lost and gained are the two missing-key lists |
| Classify.LostGainedSets | fps-analysis/report-fps-traces.py:227-236 | lost is before-only, gained is after-only, and they never share a trace |
| Classify.Insert | fps-analysis/report-fps-traces.py:207-208 | insertion adds exactly the one element |
| Classify.InsertSorted | fps-analysis/report-fps-traces.py:207-208 | inserting into a key-sorted list keeps it sorted |
| Classify.SortBy | fps-analysis/report-fps-traces.py:207-216 | `sort(key=…)` yields a permutation sorted by the key |
| Classify.InsertKeepsOrder | fps-analysis/report-fps-traces.py:207-208 | inserting an element puts it after every element with the same key and keeps their order |
| Classify.SortByStable | fps-analysis/report-fps-traces.py:207-216 | the sort is stable: the elements with any one key keep their relative order |
| Classify.KeyIsNegatedChange | fps-analysis/report-fps-traces.py:207-216 | both sort keys are the negated relative change of a helped or hurt trace |
| Classify.SortByChange | fps-analysis/report-fps-traces.py:207-216 | sorting traces keyed by negated relative change lists them by decreasing relative change |
| Classify.LargestChangeFirst | fps-analysis/report-fps-traces.py:207-216 | with non-negative before averages, the sorted helped and hurt lists each put the largest relative change first |
| FpsReport.TraceLine | fps-analysis/report-fps-traces.py:211 | a per-trace line starts with its heading, followed by the result string |
| FpsReport.TraceLines | fps-analysis/report-fps-traces.py:209-211 | one line per listed trace, in list order |
| FpsReport.NameLines | fps-analysis/report-fps-traces.py:240-241 | one `LOST:` or `GAINED:` line per name, in order |
| FpsReport.SummaryText | fps-analysis/report-fps-traces.py:257-265 | the summary starts with "total " |
| FpsReport.TraceSectionLeads | fps-analysis/report-fps-traces.py:206-221 | every per-trace line is blank or starts with the measurement name |
| FpsReport.NameSectionLeads | fps-analysis/report-fps-traces.py:238-249 | every lost/gained line is blank or starts with L or G |
| FpsReport.ClosingLeads | fps-analysis/report-fps-traces.py:271-276 | the closing is the two counts, "No changes." (exactly when nothing changed), or nothing |
| FpsReport.InReport | fps-analysis/report-fps-traces.py:206-276 | a line is printed exactly when one of the four parts prints it |
| FpsReport.NoChangesIff | fps-analysis/report-fps-traces.py:271-276 | "No changes." is printed exactly when nothing was helped, hurt, lost or gained |
| FpsReport.SummaryIff | fps-analysis/report-fps-traces.py:256-268 | the summary is printed exactly when some trace was helped or hurt |
| FpsReport.TraceListed | fps-analysis/report-fps-traces.py:206-221 | without `--summary-only`, a helped or hurt trace has its line |
| FpsReport.EveryTraceListed | fps-analysis/report-fps-traces.py:206-221 | without `--summary-only`, every helped and every hurt trace has its line |
| FpsReport.EveryNameListed | fps-analysis/report-fps-traces.py:238-249 | without `--summary-only`, every lost and every gained trace has its line |
| FpsReport.SummaryOnlyLines | fps-analysis/report-fps-traces.py:206 | with `--summary-only`, only the summary and closing lines are printed |
| FpsReport.ColumnInRange | fps-analysis/report-fps-traces.py:75 | when `float` yields frame rates, every sample read is in [0, float max] |
| FpsReport.Measures | fps-analysis/report-fps-traces.py:149-152 | reading and processing a file succeeds exactly when every row is well formed; then it holds exactly the kept traces present, with printable measures |
| FpsReport.ReadRun | fps-analysis/report-fps-traces.py:149-152 | `get_results` followed by `process_results` computes those measures |
| FpsReport.ComparisonReportable | fps-analysis/report-fps-traces.py:192-198 | a successful comparison has non-negative totals and only compared traces listed, so `format_num`'s assert holds |
| FpsReport.CompareRuns | fps-analysis/report-fps-traces.py:149-276 | `main` prints the report of the two runs, or raises the first exception |
| FpsReport.RunFails | fps-analysis/report-fps-traces.py:149-195 | a run raises exactly when a row of either file is malformed, or a compared trace has a zero before average |
| DeqpRegressions.AddRow | deqp/deqp-runner-check-regressions-from-csv.py:16-22 | a two-field row adds its stripped test name to the one set its stripped, lower-cased status names; any other row changes nothing |
| DeqpRegressions.LoadStatus | deqp/deqp-runner-check-regressions-from-csv.py:10-24 | the loop computes the three sets of the specification |
| DeqpRegressions.LoadedIsNamed | deqp/deqp-runner-check-regressions-from-csv.py:10-24 | a test is in a status set exactly when some row names it with that status |
| DeqpRegressions.Regressions | deqp/deqp-runner-check-regressions-from-csv.py:37-39 | a test regresses exactly when it is in the category after and not before |
| DeqpRegressions.RegressionsOfRows | deqp/deqp-runner-check-regressions-from-csv.py:33-39 | a regression is a test some after row reports with the status and no before row does |
| DeqpRegressions.AsWrittenHidesTimeouts | deqp/deqp-runner-check-regressions-from-csv.py:54-58 | as written, a timeout regression without a crash regression prints "No timeout regressions" |
| DeqpRegressions.AsWrittenInventsTimeoutHeading | deqp/deqp-runner-check-regressions-from-csv.py:54-56 | as written, a crash regression without timeouts prints a timeout heading and "None" |
| DeqpRegressions.ReportSections | deqp/deqp-runner-check-regressions-from-csv.py:42-58 | each section says "no regressions" exactly when its own category is empty, and otherwise lists that category once each, sorted |
| DeqpRegressions.EmptyJoinIff | deqp/deqp-runner-check-regressions-from-csv.py:44 | a listed section prints "None" exactly when its only test has an empty name |
| DeqpRegressions.AsWrittenAgreesIff | deqp/deqp-runner-check-regressions-from-csv.py:42-58 | the report as written equals the corrected one exactly when the crash and timeout regressions are both empty or both non-empty |
| DeqpRegressions.AsWrittenSections | deqp/deqp-runner-check-regressions-from-csv.py:42-58 | as written, the fail and crash sections are the corrected ones; the timeout section says "No timeout regressions" exactly when there is no crash regression, and otherwise lists the timeout regressions once each, sorted |
| DeqpRegressions.CheckRegressions | deqp/deqp-runner-check-regressions-from-csv.py:26-58 | as written (timeout section guarded by the crash regressions), the script prints the report of the regressions of the two files |
| DeqpRegressions.CheckRegressionsCorrected | deqp/deqp-runner-check-regressions-from-csv.py:26-58 | with the timeout section guarded by its own set, the script prints the corrected report of the regressions |
| FrameRates.SummaryBounds | misc/fps-summary.py:21-43 | the printed min is at most 666, the max at least 0, and every sample and the average lie between them |
| FrameRates.SummaryExtremes | fps-analysis/fps-summary.py:24-25 | the printed min and max are samples or their starting values, and samples when every sample is in [0, 666] |
| FpsSummary.FpsIndex | fps-analysis/fps-summary.py:38-48 | the header index is -1 or a field position |
| FpsSummary.FpsIndexIsFirst | fps-analysis/fps-summary.py:39-44 | the index is that of the first "fps" field, and -1 exactly when there is none |
| FpsSummary.FindFpsColumn | fps-analysis/fps-summary.py:39-44 | the header scan finds that index |
| FpsSummary.Taken | fps-analysis/fps-summary.py:50-51 | at most the available lines are read, at most the cap when it is positive, and fewer only because of the cap |
| FpsSummary.Run | fps-analysis/fps-summary.py:20-68 | the line loop gives the specified outcome: missing header, nothing, the summary, or the first exception |
| FpsSummary.SamplesMeaning | fps-analysis/fps-summary.py:53-59 | reading succeeds exactly when every data line has a numeric fps field, giving one sample per line in order; otherwise the first bad line's exception |
| FpsSummary.PrintedBounds | fps-analysis/fps-summary.py:63-68 | when printed, min is at most 666, max at least 0, and the average lies between them |
| FpsSummary.SampleCount | fps-analysis/fps-summary.py:50-59 | with a positive cap at most that many samples are averaged; otherwise every line after the header is |
| FpsSummary.EmptyLineRaises | fps-analysis/fps-summary.py:54-56 | an empty line has no readable fps value |
| FpsSummary.LastLineEmptyRaises | fps-analysis/fps-summary.py:34-59 | uncapped, a log whose last line is empty raises |
| FpsSummary.TrailingNewlineRaises | fps-analysis/fps-summary.py:20-59 | uncapped, a log ending in a newline raises |
| MiscFpsSummary.DataLines | misc/fps-summary.py:27 | the data lines are exactly the non-empty, non-header lines, in order |
| MiscFpsSummary.Sample | misc/fps-summary.py:28-31 | IndexError exactly when the line has no second field; otherwise ValueError exactly when the first field is not a number, and the sample is that number; never a division by zero |
| MiscFpsSummary.Samples | misc/fps-summary.py:26-37 | reading the lines never divides by zero |
| MiscFpsSummary.Run | misc/fps-summary.py:19-43 | the line loop gives the specified summary or exception |
| MiscFpsSummary.SamplesMeaning | misc/fps-summary.py:26-37 | reading succeeds exactly when every data line is readable, giving one sample per data line in order |
| MiscFpsSummary.DividesByZeroIff | misc/fps-summary.py:39 | the script divides by zero exactly when every line is readable but none is a data line |
| MiscFpsSummary.NoSamplesDividesByZero | misc/fps-summary.py:39 | an empty log and a header-only log divide by zero |
| MiscFpsSummary.PrintedBounds | misc/fps-summary.py:39-43 | when printed, min is at most 666, max at least 0, and the average lies between them |

## Left out

- Regular expressions: an include or exclude pattern is a predicate on the trace name (`Ingest.Pattern`). Compiling with `re.IGNORECASE` and the semantics of `search` are not modelled.
- Floating point: samples and averages are exact reals, not IEEE doubles. `float()` is a parameter (`ParseFloat`) that yields a real or fails with ValueError. NaN, infinities, overflow and the rounding of each operation are not modelled.
- `math.sqrt` is a parameter (`Sqrt`). The report needs only that it is non-negative on non-negative inputs.
- The exact digits Python prints for a float (`repr`) in the two fps-summary scripts are not modelled. Those scripts' outcomes are the three values themselves.
- `str(math.floor(n))` and `"{:.2f}"` in `format_num` are modelled on exact values. The binary representation error of the number being printed is not.
- File I/O, `csv.reader` quoting rules, `argparse`, and `print` are not modelled. A file is its list of rows (or its text), and output is the list of printed texts.
- `FpsReport.CompareRuns` assumes that `float` yields only samples in [0, float max] (`ParsesFrameRates`). Runs with negative samples are not covered. This includes the ordinary ones that print normally, because the negative sample is in a lost, gained, skipped or unaffected trace, or nothing is helped or hurt. It also includes the AssertionError that `format_num` raises on a negative average, deviation or total of a helped or hurt trace. Last, it includes the ValueError that `--skip-min-max` raises at `raw[key].remove(fps_max)` (line 112) for three or more negative samples, because the maximum then stays 0. `Aggregate.MeasureOf` models that path, but no whole-run member reaches it.
- `FpsReport.Measures`, `FpsReport.ReadRun`, `FpsReport.Run` and `FpsReport.RunFails` carry the same assumption and leave out the same runs.
- `Classify.ClassifyRuns` requires every key of the before run to have an entry. Every run read by `Ingest.GetResults` satisfies this (`Ingest.IngestedContents`).
- `Aggregate.ProcessResults` models `raw[key].remove(...)` on values. The trimmed list is computed but not written back into the caller's dict. Nothing reads it afterwards.
- Only the `fps_avg` measurement exists. The loops over `measurements` are modelled as a single pass, and `total_before` starting as the integer 0 is modelled as the real 0.
- `pathlib` is modelled only through `Path(p).name` and `Path(p).suffix` for '/'-separated paths. Trailing '/' separators and `.` components are dropped as pathlib drops them; `..` is kept as a name, and names ending in a dot follow the last-dot rule.
- `str.lower` lower-cases only ASCII letters here. Other Unicode case mappings are not modelled.
- `fps-analysis/run-all-traces.py` and `deqp/run-cts-test-bo-analysis.py` are not part of this model.
- The population abs/rel statistics are not modelled. The code does not compute them (FIXME at line 267 of `fps-analysis/report-fps-traces.py`).

## Findings

| source | as written | input that shows it | evidently intended | confidence | as-written member | corrected member |
|---|---|---|---|---|---|---|
| deqp/deqp-runner-check-regressions-from-csv.py:54 | the timeout section is guarded by `if crash_regressions:` | the after file reports `dEQP-VK.api.smoke.triangle,Timeout`, the before file does not, and there are no crash regressions: the script prints "No timeout regressions" | guard the timeout section by `timeout_regressions`, as the other two sections are guarded by their own sets | high, not executed | DeqpRegressions.AsWrittenHidesTimeouts | DeqpRegressions.ReportSections |
