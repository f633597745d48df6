# Input validation core of the Learning Analytics Processor

This project models, in Dafny, the part of `InputHandlerService` that decides
whether the CSV extracts may be loaded into the temporary store:

- the **header check** of the deprecated `process()` method. The reader must
  return a header row. The row must have at least the file's minimum number of
  cells. Its first cell, trimmed to empty and uppercased, must equal the file's
  key column name. Four files are checked fail-fast, in the order students
  (14 cells, `ALTERNATIVE_ID`), courses (4, `COURSE_ID`), grades (8,
  `ALTERNATIVE_ID`) and usage (4, `ALTERNATIVE_ID`). The first failure is
  rethrown wrapped in a `RuntimeException`;
- the **verify-then-load ordering** of `loadCSVs()`. Every handler's header
  check runs before any handler loads rows into the store. A load result with
  a non-empty failure list is logged. Any exception aborts the run and is
  rethrown wrapped.

Modules, one per concern:

- `Wrappers` (`wrappers.dfy`): `Option`, `Outcome`, `Result`.
- `Text` (`text.dfy`): Java's `String.trim` / `StringUtils.trimToEmpty`, and
  ASCII uppercasing, with a characterisation of trimming and its interaction
  with uppercasing.
- `HeaderCheck` (`header_check.dfy`): the header predicate with its error
  kinds, and the properties of the verdict.
- `ExtractProcess` (`extract_process.dfy`): the four fixed rules and the
  fail-fast sequence of `process()`.
- `CsvLoading` (`csv_loading.dfy`): the two phases of `loadCSVs()` over
  abstract handlers, recorded as a trace of events.

A cell is `Option<string>`, where `None` is a Java `null`. A header is
`Option<seq<Cell>>`, where `None` means the reader returned no row (an empty
file). A bundled extract the classpath lookup cannot find is
`Source.Missing`; wrapping its null stream in a reader throws, so its step
fails. A handler of `loadCSVs()` is data: the outcome of its check and the
outcome of its load. Handler construction is a `Result`, because
`makeCSVHandlers` may throw.

Two places in the source disagree on one constant: the commented-out call at
`InputHandlerService.java:104` asks for 15 columns in the personal extract,
the executable check at line 153 asks for 14; the model follows line 153.

`loadCSVs()` returns nothing. Its per-result log line at
`InputHandlerService.java:99` is what `Loaded(results)` stands for: the
results of every handler, in iteration order.

## Model

| member | source | states |
|---|---|---|
| Text.SkipLeading | src/main/java/org/apereo/lap/services/InputHandlerService.java:153 | the index reached skips only chars at most U+0020 and stops at the first kept char |
| Text.SkipTrailing | src/main/java/org/apereo/lap/services/InputHandlerService.java:153 | the end reached drops only trailing chars at most U+0020 and stops after the last kept char |
| Text.Trim | src/main/java/org/apereo/lap/services/InputHandlerService.java:153 | a trimmed cell is no longer than the input and neither starts nor ends with a char at most U+0020 |
| Text.TrimToEmpty | src/main/java/org/apereo/lap/services/InputHandlerService.java:153 | a null cell becomes the empty string; a present cell is trimmed to a result that trimming leaves unchanged and that is no longer than the cell (see TrimUnique, NullCellActsAsEmpty) |
| Text.TrimUnique | src/main/java/org/apereo/lap/services/InputHandlerService.java:153 | trimming yields exactly the core left after removing a maximal blank prefix and suffix, for any such split |
| Text.TrimIgnoresPadding | src/main/java/org/apereo/lap/services/InputHandlerService.java:153 | blank padding added around a cell does not change its trimmed form |
| Text.TrimIdempotent | src/main/java/org/apereo/lap/services/InputHandlerService.java:153 | trimming an already trimmed cell changes nothing |
| Text.UpperTrimCommute | src/main/java/org/apereo/lap/services/InputHandlerService.java:153 | uppercasing then trimming equals trimming then uppercasing |
| Text.EqualIgnoringCaseUpper | src/main/java/org/apereo/lap/services/InputHandlerService.java:153 | two cells that differ only in ASCII letter case uppercase to the same string |
| Text.UpperIsCaseVariant | src/main/java/org/apereo/lap/services/InputHandlerService.java:153 | uppercasing a cell yields a string that differs from it only in ASCII letter case and holds no lowercase ASCII letter (see EqualIgnoringCaseUpper, UpperIdempotent) |
| Text.UpperIdempotent | src/main/java/org/apereo/lap/services/InputHandlerService.java:153 | uppercasing an uppercased cell changes nothing |
| HeaderCheck.CheckHeader | src/main/java/org/apereo/lap/services/InputHandlerService.java:152-157 | a header fails as missing iff there is no row, as too short iff it has fewer cells than the minimum, on the first-cell read only for an empty row with minimum 0, and a key mismatch names a first cell different from the key |
| HeaderCheck.AcceptsIff | src/main/java/org/apereo/lap/services/InputHandlerService.java:153 | a header is accepted iff it exists, has at least the minimum and at least one cell, and its first cell trimmed to empty and uppercased equals the key |
| HeaderCheck.OnlyFirstCellMatters | src/main/java/org/apereo/lap/services/InputHandlerService.java:153 | two rows of equal length with the same first cell get the same verdict, whatever their other cells hold |
| HeaderCheck.PaddingIrrelevant | src/main/java/org/apereo/lap/services/InputHandlerService.java:153 | blank padding around the first cell never changes the verdict |
| HeaderCheck.CaseIrrelevant | src/main/java/org/apereo/lap/services/InputHandlerService.java:153 | changing the ASCII letter case of the first cell never changes the verdict |
| HeaderCheck.NullCellActsAsEmpty | src/main/java/org/apereo/lap/services/InputHandlerService.java:153 | a null first cell is judged like an empty one and so fails every non-empty key |
| HeaderCheck.FewerColumnsStillAccepted | src/main/java/org/apereo/lap/services/InputHandlerService.java:153 | a header accepted with some minimum is accepted with any smaller minimum |
| HeaderCheck.ExtraColumnsStillAccepted | src/main/java/org/apereo/lap/services/InputHandlerService.java:153 | appending cells to an accepted header keeps it accepted |
| HeaderCheck.AcceptedKeyIsNormal | src/main/java/org/apereo/lap/services/InputHandlerService.java:153 | only a key already trimmed and uppercase can be matched by any header |
| ExtractProcess.RuleFor | src/main/java/org/apereo/lap/services/InputHandlerService.java:153-174 | every fixed rule needs at least 4 cells and names a non-empty key of uppercase letters and underscores |
| ExtractProcess.CheckFile | src/main/java/org/apereo/lap/services/InputHandlerService.java:151-157 | one file's step passes iff its extract exists and its header meets the file's rule; a failure names the file, is a null stream iff the extract is missing, and otherwise carries the header error, never the empty-row index error |
| ExtractProcess.Process | src/main/java/org/apereo/lap/services/InputHandlerService.java:143-185 | the run completes iff all four files pass; files are reached in the order students, courses, grades, usage; every file before the last one reached passed; a failure names the last file reached and carries its header error, never the empty-row index error |
| ExtractProcess.EveryFileInOrder | src/main/java/org/apereo/lap/services/InputHandlerService.java:151-178 | the four steps cover every extract file, so passing them in order means every file passes |
| ExtractProcess.RuleThresholdIsExact | src/main/java/org/apereo/lap/services/InputHandlerService.java:153-174 | with the literal keys `ALTERNATIVE_ID` (students, grades, usage) and `COURSE_ID` (courses) as first cell, a header is accepted iff it has at least 14, 4, 8 and 4 cells respectively |
| CsvLoading.FirstRejected | src/main/java/org/apereo/lap/services/InputHandlerService.java:89-92 | the handler whose check throws first in iteration order: every earlier check passed |
| CsvLoading.FirstLoadFailure | src/main/java/org/apereo/lap/services/InputHandlerService.java:94-95 | the handler whose load throws first in iteration order: every earlier load completed |
| CsvLoading.CheckAll | src/main/java/org/apereo/lap/services/InputHandlerService.java:88-92 | the check phase passes iff every handler's check passes; otherwise it stops with the first failing check's cause; its events are exactly the checks of the handlers up to the stopping one, in order |
| CsvLoading.ChecksHoldNoLoads | src/main/java/org/apereo/lap/services/InputHandlerService.java:88-92 | a trace of checks only, such as the one a failed check leaves, lists no load and no failure log |
| CsvLoading.LoadOne | src/main/java/org/apereo/lap/services/InputHandlerService.java:95-98 | one round of the load loop returns that handler's load and appends exactly its load start, followed by a failure log with the list's size exactly when the load completed with a non-empty list |
| CsvLoading.LoadAll | src/main/java/org/apereo/lap/services/InputHandlerService.java:93-101 | the load phase completes iff no load throws, with every result in order, and its events are then exactly the reference trace of all handlers (each load start followed by its failure log when the list is non-empty); otherwise it rethrows the first failing load's cause after exactly the reference trace of the handlers before it and that handler's load start |
| CsvLoading.LoadsListsLoadEvents | src/main/java/org/apereo/lap/services/InputHandlerService.java:95 | a load event for a handler is in the trace iff that handler is listed among the loads |
| CsvLoading.LogsListsLogEvents | src/main/java/org/apereo/lap/services/InputHandlerService.java:96-98 | a failure-log event for a handler and count is in the trace iff that pair is listed among the logs |
| CsvLoading.ReportingExactly | src/main/java/org/apereo/lap/services/InputHandlerService.java:96-98 | the expected log list before a position holds exactly the handlers whose load result has a non-empty failure list, each with that list's size |
| CsvLoading.LoadStepLists | src/main/java/org/apereo/lap/services/InputHandlerService.java:95-98 | one completed load lists its handler once among the loads, and its failure list with its size among the logs exactly when non-empty |
| CsvLoading.LoadPhaseLists | src/main/java/org/apereo/lap/services/InputHandlerService.java:94-101 | the reference load trace through a handler loads each earlier handler exactly once, in order, and logs exactly the non-empty failure lists of those loads, in order |
| CsvLoading.LoadPhaseShape | src/main/java/org/apereo/lap/services/InputHandlerService.java:94-101 | the reference load trace through a handler holds no check, names only earlier handlers, and puts every failure log directly after its own handler's load start |
| CsvLoading.RunTraceLists | src/main/java/org/apereo/lap/services/InputHandlerService.java:88-101 | a run past the check phase loads each handler up to the last one started exactly once, in order, and logs exactly the non-empty failure lists of the completed loads |
| CsvLoading.RunTraceOrder | src/main/java/org/apereo/lap/services/InputHandlerService.java:88-101 | in a run past the check phase the first events are exactly every handler's check, in order, and no later event is a check, so no load starts before every check has run and passed; every event names an existing handler; every failure log directly follows its own handler's load start |
| CsvLoading.FailuresLoggedExactly | src/main/java/org/apereo/lap/services/InputHandlerService.java:96-98 | in a run past the check phase, a failure list is logged for a handler iff its load completed before the run stopped with a non-empty list, counting that list's size |
| CsvLoading.LoadCsvs | src/main/java/org/apereo/lap/services/InputHandlerService.java:81-120 | a construction failure aborts with no event; a failed check aborts with its cause after exactly the checks of the handlers up to it, in order; a failed load aborts with its cause after exactly every handler's check followed by the reference load trace of the handlers before it and that handler's load start; the run completes iff nothing throws, returning every result in order, after exactly every check followed by the reference load trace of every handler (see RunTraceLists, RunTraceOrder, FailuresLoggedExactly) |

## Left out

- Uppercasing is ASCII only (`a`-`z` to `A`-`Z`). Java's `toUpperCase` follows the default locale and Unicode case mappings, so a few non-ASCII chars (the dotless `ı`, the long `ſ`) can uppercase into ASCII letters there and not here. The reverse also happens: under a Turkish or Azeri default locale Java uppercases `i` to `İ` (U+0130), so a first cell `alternative_id` is rejected there, while the model (and `HeaderCheck.CaseIrrelevant`) accepts it.
- Reading CSV text (OpenCSV's `readNext`) is an external library: the header row is supplied as data. An `IOException` from `readNext` is not modelled; in the source it would fail that file's step and be wrapped like any other exception (`InputHandlerService.java:180-184`).
- Opening classpath resources is I/O: an extract is either present with its header or `Missing`.
- Log messages and exception texts are not modelled. The grades message at `InputHandlerService.java:170` says 4 columns while the check at line 167 uses 8; the model uses 8.
- `copySampleExtractCSVs` and `copySampleCSV` (`InputHandlerService.java:68-137`) only copy files.
- `init` and `destroy` (`InputHandlerService.java:49-63`) are container lifecycle hooks driven by configuration flags.
- The internals of the CSV input handlers (row coercion, inserts, counters, the `ReadResult` invariants) are not part of this model; a handler is the outcome of its two calls.
- The commented-out thresholds at `InputHandlerService.java:104-108` are not executable.
- `KettleJobPipelineProcessor` is a thin wrapper over the Kettle job engine (environment setup, job loading, run and wait); its only own logic is returning the `KETTLE_JOB` tag and swallowing exceptions.
- The iteration order of the handler map is unspecified in the source; the model takes it as the given sequence, the same for both phases.
