# measure-twice, verified

A Dafny model of the parts of measure-twice that hold state, protocols or parsers, with proofs of
what they promise. `dafny verify dfyconfig.toml` checks all of it.

## What is modelled

**The run store** (`Json`, `JsonProofs`, `LineStore`, `RunRows`, `RunHistory`, `Cells`, `Order`,
`Sweep`, `Rescore`, `Session`). A run appends one JSON line per (model, item, sample) cell. The JSON printer and parser
are real functions on code points; the file is a text; a crash cuts an append at any character.
`Sweep` holds the loops of `run` as methods on a file object and a locked budget object, with the
pool's workers reaching the budget in any order. `RunHistory` is the relation between files that any
sequence of runs, crashes, resumes and re-scores can make, and `Sweep.RunIsAStep` and
`Rescore.ScoreIsAStep` tie the methods to it; `Session.PerformAll` performs any list of invocations
and ends in such a history. The central fact, that no strict prefix of a printed
row reads as anything (JSON texts as in section 4 and strings as in section 7 of RFC 8259), is
proved from the parser.

**Verdict extraction and the report** (`Verdict`, `JsonScan`, `Extraction`, `Ladder`,
`PrefixSearch`, `Report`, `Monotonicity`, `LabelMonotonicity`, `PlainText`). The brace scanner, the
masking of parseable objects and the three tiers are loops proved against functions, and `Ladder`
says what those functions mean; what Python brings along (case-insensitive comparison, the
class of word characters, white space, `casefold`, `strip`, `json.loads`) is a record of arbitrary functions, so results hold for any
of them. Only results that need more say so (`Report.Sane`, `LabelMonotonicity.KeysApart`,
`Ladder.KeysStand`); `PlainText.PlainIsSane` and `PlainText.PlainKeysStand` show them on ASCII with
the modelled JSON reader.

**Process supervision** (`Supervision`, `ReleaseBarrier`, `Capabilities`, `Ownership`,
`EvaluatorRun`, `Capture`, `StatusRecord`, `Attribution`). The monitor thread against cleanup, and
the parent against the supervisor, are step relations; a theorem is about every run of them. Every
system call is a step, or a call, with any outcome. Descriptor ownership is imperative: `Table` is
the kernel's table with each descriptor named by the moment it was opened, and its `Close` accepts
only a live one, so that the methods verify at all means nothing is closed twice; a table may be
`reliable`, and then no call fails, which is how the contracts say that nothing is given up
without cause.

**Trees, paths and buffers** (`TreeWalk`, `TreeCopy`, `Paths`, `Glob`, `Worklist`, `DirBuffer`). The
walk, the copy and the worklist take the entries of a directory in an arbitrary order and are proved
equal to recursive meanings; the copy updates its destination in place, path by path; the glob's
dynamic program fills arrays row by row.

## Where the code and its documentation differ

- `RunRow.from_dict` says that a missing or mistyped key raises (`runner.py:209-210`), but its casts
  check nothing. A line is accepted exactly when it is an object with all twelve keys, whatever their
  values (`RunRows.RowLineIs`); on such a line the promise is kept exactly when nothing is mistyped
  (`RunRows.TypePromiseIsKeptExactly`), and `RunRows.MistypedRowReads` is a row that breaks it.
- `_first_recognized_label` calls recognition monotone (`report_html.py:165-166`). For one label it is
  so exactly when the label outlives every object that is completed
  (`LabelMonotonicity.MonotoneExactlyWhenOutliving`), for every label exactly when no top-level object
  parses (`Monotonicity.MonotoneExactlyWithoutObject`), and `{"k": "flag"}` loses `flag` at its closing
  brace (`PlainText.ClosingBraceTakesRecognitionBack`).
- `_classify` has an outcome for a parse failure with exactly one recognized label
  (`report_html.py:256-262`); `Report.OneRecognizedLabelIsTheVerdict` shows that it cannot happen.
- The duplicate check on a task's combined assets (`suite.py:1092-1096`) can never fire once the
  manifest's paths are disjoint: `Worklist.CombinedAssetsAreDistinct`.

## Model

| member | source | states |
|---|---|---|
| `RunHistory.RunStoreIsSafe` | measure_twice/runner.py:364-430 | At every point of every history of runs, crashes at any character of an append, budget aborts, resumes and re-scores, the JSON-lines store reads back to one row per cell, every key in the sweep, and every row durable earlier still in its place with its evidence |
| `RunHistory.HistoryIsSafe` | measure_twice/runner.py:880-1061 | The same for any line format whose rows survive printing and whose cut lines never read |
| `RunHistory.StepIsSafe` | measure_twice/runner.py:364-430 | One invocation, however it ends, keeps a sound store sound and keeps its durable rows |
| `RunHistory.ResumesFinish` | measure_twice/runner.py:982-1061 | Whatever crashes lie between, the rows reach min(sum of the budgets of runs that returned, cells); exactly that many when every run returned |
| `RunHistory.CompletedRunCounts` | measure_twice/runner.py:1052-1061 | A run that returned added exactly min(max_calls, cells without a row) rows |
| `Session.PerformAll` | measure_twice/runner.py:848-1225 | Any list of sweeps, resumes and re-scores performed on one store, with a crash anywhere, is one of its histories: it reads back to one row per cell, and the rows reach min(sum of the budgets of the sweeps that returned, cells) |
| `Session.Perform` | measure_twice/runner.py:848-1225 | One invocation is a step of the history, and a sweep that returned is a completed run |
| `Session.PerformSweep` | measure_twice/runner.py:848-1061 | On a sound store a sweep returns exactly when nothing refuses it and the process lives |
| `JsonProofs.StrictPrefixNeverLoads` | measure_twice/runner.py:203-205 | No strict prefix of a text that reads as one object, array or string reads as anything |
| `JsonProofs.LoadsDumps` | measure_twice/runner.py:203-205 | Printing then reading gives every printable value back |
| `JsonProofs.ValueReadBack` | measure_twice/runner.py:203-205 | The same inside a longer text, which is left untouched |
| `JsonProofs.CharsReadBack` | measure_twice/runner.py:203-205 | Reading a printed string gives it with split surrogate pairs joined |
| `JsonProofs.JoinedIsIdentity` | measure_twice/runner.py:203-205 | So a string survives if and only if it holds no surrogate pair written as two code points |
| `JsonProofs.DumpsIsOneLine` | measure_twice/runner.py:203-205 | Printed values are printable ASCII: never a raw line break |
| `JsonProofs.PrintedCharacters` | measure_twice/runner.py:203-205 | Quotes, backslashes, line ends and characters outside printable ASCII are escaped as `json.dumps` escapes them |
| `JsonProofs.PrintedMembers` | measure_twice/runner.py:203-205 | Members are separated by a comma and a space, |
| `JsonProofs.PrintedName` | measure_twice/runner.py:203-205 | a name is quoted and followed by a colon and a space, |
| `JsonProofs.PrintedElements` | measure_twice/runner.py:203-205 | elements are separated like members, |
| `JsonProofs.PrintedWords` | measure_twice/runner.py:203-205 | and the three words are written as JSON writes them |
| `JsonProofs.ExtendValue` | measure_twice/runner.py:392-393 | A value once read stays as read when text is appended, unless it is a number cut short |
| `JsonProofs.LookupFinds` | measure_twice/runner.py:393-396 | A member of an object with distinct keys is found under its key |
| `LineStore.ReadRows` | measure_twice/runner.py:364-404 | The line loop computes the rows, the torn flag or the corrupt line of the specification |
| `LineStore.RewrittenText` | measure_twice/runner.py:407-417 | The rewrite writes exactly the rows, one terminated line each |
| `LineStore.ReadClean` | measure_twice/runner.py:364-404 | A file of whole rows reads back to them, not torn |
| `LineStore.ReadTorn` | measure_twice/runner.py:364-404 | A cut last line is dropped, or kept when only its newline is missing; either way the file is torn |
| `LineStore.ReadShape` | measure_twice/runner.py:364-404 | Any store a crash can leave reads back to its durable rows |
| `RunRows.RowReadBack` | measure_twice/runner.py:203-224 | A good row read from its own line is the row |
| `RunRows.TornLineNeverReads` | measure_twice/runner.py:203-224 | A row line cut short never reads as a row |
| `RunRows.RowCodecIsFaithful` | measure_twice/runner.py:203-224 | The JSON line of a row has all three properties the store needs |
| `RunRows.RowLineIs` | measure_twice/runner.py:206-224 | A line reads as a row exactly when it is an object with all twelve keys, and each field is the member with its key |
| `RunRows.TypePromiseIsKeptExactly` | measure_twice/runner.py:209-224 | On a line with all keys, the promise of an error exactly for mistyped values is kept if and only if nothing is mistyped |
| `RunRows.MistypedRowReads` | measure_twice/runner.py:209-224 | A row whose sample number is a string is printed and read back |
| `Cells.BuildRow` | measure_twice/runner.py:435-497 | The row's key is its cell's |
| `Cells.RowShape` | measure_twice/runner.py:435-497 | Error first, then the forced zero, then the scored response, field by field |
| `Cells.ScorerMattersExactly` | measure_twice/runner.py:438-441 | The scorer matters exactly for a real response: never for an error or no response |
| `Cells.KeyIsInjective` | measure_twice/runner.py:198-201 | Different cells of a sweep have different resume keys |
| `Cells.DecimalValue` | measure_twice/runner.py:203-205 | A sample number is written in decimal |
| `Cells.PendingAllAre` | measure_twice/runner.py:833-845 | The pending cells are exactly those of the sweep without a row |
| `Cells.PendingAllDistinct` | measure_twice/runner.py:833-845 | They have pairwise different keys when the roster and item ids are distinct |
| `Cells.PendingAllOrdered` | measure_twice/runner.py:839-844 | and come by the model's place in the roster, then by the item's place in the suite, then by sample number |
| `Cells.SweepKeysCount` | measure_twice/runner.py:984 | The sweep has roster x items x samples keys |
| `Cells.PendingCount` | measure_twice/runner.py:983-984 | Pending cells and found rows add up to the whole sweep |
| `Sweep.CallBudget.Consume` | measure_twice/adapters/claude_cli.py:208-216 | One locked check and increment: never past the maximum |
| `Sweep.RowFile.Rewrite` | measure_twice/runner.py:407-417 | Replaces the whole text atomically |
| `Sweep.RowFile.Append` | measure_twice/runner.py:420-429 | Appends one line, or a strict prefix of it when the process dies |
| `Sweep.WriteRow` | measure_twice/runner.py:483-496 | One answered cell becomes one row on disk, or a torn tail |
| `Sweep.SweepSequential` | measure_twice/runner.py:509-540 | The cells called are a prefix of the pending ones, a torn one last: all of them are written when the budget reaches, and exactly the first `remaining` otherwise |
| `Sweep.CallBatch` | measure_twice/adapters/claude_cli.py:620-665 | For every worker order: exactly min(requests, remaining) slots are answered, each with its own call's answer, and that much budget is used |
| `Sweep.WriteWave` | measure_twice/runner.py:575-580 | The rows written are those of the answered slots in input order, and of a prefix of them when the process dies; refused cells stay pending |
| `Sweep.SweepPooled` | measure_twice/runner.py:543-583 | The rows written are all cells before some wave, then cells of that wave in their order: as many as budget was used, all of them when it sufficed, aborted exactly when a cell is left |
| `Order.WavesOfOne` | measure_twice/runner.py:525-540 | Calls one at a time, seen as waves, write exactly a prefix |
| `Order.InOrderPositions` | measure_twice/runner.py:575-580 | Cells in order: what is written earlier comes earlier in a list without repeats |
| `Sweep.SweepModel` | measure_twice/runner.py:994-1039 | One model of the roster, by its own dispatch |
| `Sweep.SweepRoster` | measure_twice/runner.py:989-1042 | Over the roster in order: everything before the last wave is written, in that wave cells in their order, and all pending cells when no sweep stopped |
| `Sweep.Run` | measure_twice/runner.py:848-1061 | A run that returns wrote and spent exactly min(max_calls, pending), wave by wave in the order of the pending cells (a prefix of them when no model is pooled), reports aborted exactly when pending exceeds it, and wrote exactly the pending cells in order otherwise; a run refused by its parameters, its preflight or a corrupt store, or dying early, changes nothing |
| `Sweep.RunIsAStep` | measure_twice/runner.py:848-1061 | Every invocation on a sound store is a step of its history, and one that returns is a completed run |
| `Sweep.TidyExtends` | measure_twice/runner.py:833-845 | Old rows and newly written rows together stay one per cell |
| `Sweep.BuiltRowIsGood` | measure_twice/runner.py:435-497 | Printable surroundings make printable rows |
| `Rescore.ScoreRun` | measure_twice/runner.py:1123-1174 | The scoring loop computes the pointwise re-score; the counts are the numbers of forced-zero rows without an error and of re-scored rows that hold a score; an unknown item aborts before any write |
| `Rescore.ScoreRunBatch` | measure_twice/runner.py:1188-1225 | Whatever the run-level scorer does, an abort leaves the file byte for byte; otherwise its rows are written, and those that hold a score and those force-scored are counted |
| `Rescore.ScoreRowIs` | measure_twice/runner.py:1147-1171 | A row with an error or a forced zero stays as it is, and any other gets its own response scored against the item of its id |
| `Rescore.ScoreKeepsEvidence` | measure_twice/runner.py:1147-1169 | Identity, raw response, error and judge scores never change; error rows and forced zeros do not change at all |
| `Rescore.ScoreIsAStep` | measure_twice/runner.py:1173 | A re-score is a step of the store's history |
| `Rescore.BatchIsAStep` | measure_twice/runner.py:1188-1225 | A run-level scorer that keeps the evidence makes a step of the history |
| `Rescore.RubricKeepsEvidence` | measure_twice/scoring/judge.py:431-470 | The rubric judge keeps identity, response and error |
| `Rescore.RubricRefusesExactly` | measure_twice/scoring/judge.py:431-455 | A run is refused exactly when a row to be judged has no item, or the judges abort or do not answer each such row once |
| `Rescore.WriteBackKeepsEvidence` | measure_twice/scoring/judge.py:457-468 | Writing judgements back leaves error rows and forced zeros alone |
| `Rescore.WriteBackPlaces` | measure_twice/scoring/judge.py:457-468 | Each scoreable row gets the judgement that was made for it, as a `rubric` score with the judges' medians |
| `Rescore.CollectThenScore` | measure_twice/runner.py:435-497 | Collecting then scoring gives the rows of scoring inline |
| `Rescore.CollectThenScoreRow` | measure_twice/runner.py:483-497 | and so for one call |
| `Rescore.RescoreForgetsExactly` | measure_twice/runner.py:1151-1169 | Re-scoring forgets an earlier scorer unless that one answered with the reserved no-response name |
| `Rescore.ScoreIsIdempotent` | measure_twice/runner.py:1123-1174 | Scoring twice with one scorer is scoring once |
| `Rescore.ScoreCommutesWithResume` | measure_twice/runner.py:1123-1174 | Scoring commutes with a later resume |
| `Rescore.ScoreKeepsKeys` | measure_twice/runner.py:1147-1169 | The keys, and so the pending cells, stay the same |
| `Verdict.FindLabels` | measure_twice/scoring/deterministic.py:178-193 | Exactly the distinct labels that stand as whole words, in suite order |
| `Verdict.UniqueLabelIs` | measure_twice/scoring/deterministic.py:196-204 | The unique label is the only label of the list that occurs |
| `Verdict.JsonObjectSpans` | measure_twice/scoring/deterministic.py:120-153 | The scanner loop computes the spans of the specification |
| `Verdict.SpansAreTopLevelObjects` | measure_twice/scoring/deterministic.py:120-153 | The spans are exactly the top-level objects under the scanner's quote and escape state: in bounds, ascending, disjoint, from a depth-zero brace to the first that restores depth zero |
| `JsonScan.WellFormedObjectIsASpan` | measure_twice/scoring/deterministic.py:120-153 | Wherever the scanner is outside strings and objects, a well-formed JSON object that follows is exactly one span |
| `JsonScan.ObjectScan` | measure_twice/scoring/deterministic.py:120-153 | Scanning a well-formed object closes it at its end and not before |
| `Extraction.TextOutsideValidJson` | measure_twice/scoring/deterministic.py:156-175 | The splicing loop computes the masked text |
| `Extraction.OutsideIsMasked` | measure_twice/scoring/deterministic.py:156-175 | Masking character by character: each parseable span becomes one space, every other character stays in order |
| `Ladder.LoweredGetIs` | measure_twice/scoring/deterministic.py:255-257 | A verdict key is answered by the member whose name casefolds to it: of several names the last to appear first, of its values the last; and by nothing when no name does |
| `Ladder.ResolveIs` | measure_twice/scoring/deterministic.py:255-262 | An object resolves to a label exactly when one of its verdict keys is a string that carries that label alone and no key before it in priority resolves |
| `Ladder.LineValueIs` | measure_twice/scoring/deterministic.py:80-85 | A line has a value exactly when it is a verdict key, a colon or an equals sign, and the value, white space between and around |
| `Ladder.ExtractIs` | measure_twice/scoring/deterministic.py:221-282 | The verdict is a label exactly when the first tier that says anything says it and nothing else: top-level objects, then labelled lines, then the text outside parseable objects |
| `Ladder.CollectJson` | measure_twice/scoring/deterministic.py:249-262 | Exactly the labels that some top-level object says, one per object |
| `Ladder.CollectLines` | measure_twice/scoring/deterministic.py:269-274 | Exactly the labels that the value of some line carries alone |
| `Ladder.ResolveObject` | measure_twice/scoring/deterministic.py:255-262 | The key loop: a label is resolved exactly when the object says it |
| `Ladder.ExtractVerdictLabel` | measure_twice/scoring/deterministic.py:221-282 | The result is a label exactly when the ladder of the three tiers says it |
| `Extraction.CollapseIs` | measure_twice/scoring/deterministic.py:207-218 | A tier agrees on a label exactly when something resolved and everything that resolved is it |
| `Extraction.NeverGuesses` | measure_twice/scoring/deterministic.py:221-282 | Two different labels at a tier, with none above it, mean no verdict |
| `Extraction.ExtractDependsOnSet` | measure_twice/scoring/deterministic.py:233-236 | Only the set of labels matters: not their order or repeats |
| `Extraction.VerdictSurvivesProbe` | measure_twice/scoring/deterministic.py:221-282 | A verdict is in the label list, and probing with it alone gives it again |
| `Extraction.ProbeIs` | measure_twice/report_html.py:148-156 | Probing one label answers it or nothing, and answers exactly when some tier carries it |
| `PrefixSearch.CutsAre` | measure_twice/report_html.py:171-172 | The cuts are the end and the places before a character that is not alphanumeric, ascending |
| `PrefixSearch.BinarySearch` | measure_twice/report_html.py:177-183 | The search loop computes the specification's cut |
| `PrefixSearch.FirstRecognizedLabel` | measure_twice/report_html.py:159-186 | Over all labels: the smallest cut found, ties to the earlier label |
| `PrefixSearch.CutIsRecognized` | measure_twice/report_html.py:177-183 | Whatever the text, the search ends at a cut where the label is recognized |
| `PrefixSearch.CutIsLeast` | measure_twice/report_html.py:165-166 | When recognition is monotone over the cuts, it is the least such cut |
| `Report.FirstRecognized` | measure_twice/report_html.py:159-186 | Over the real extractor: of the recognized labels the one with the smallest cut found, ties to the earlier; recognized at that cut always, and the earliest of all when no top-level object parses |
| `Report.FirstIsUnique` | measure_twice/report_html.py:184-186 | Only one label is the first recognized one |
| `Report.FirstIsEarliest` | measure_twice/report_html.py:159-186 | No label of the list is recognized before the cut found, nor at it when it comes earlier |
| `Report.NoObjectRecognition` | measure_twice/scoring/deterministic.py:221-282 | Without a parseable object, a label is recognized exactly when it occurs as a whole word |
| `Report.RecognitionGrows` | measure_twice/report_html.py:165-166 | Without a parseable object, recognition only grows from cut to cut |
| `Report.BraceFreeHasNoObject` | measure_twice/scoring/deterministic.py:120-153 | Text without an opening brace has no object |
| `Report.VerdictIsRecognized` | measure_twice/report_html.py:148-156 | Every verdict is among the recognized labels, so an empty probe set means none |
| `Report.OneRecognizedLabelIsTheVerdict` | measure_twice/report_html.py:256-262 | When exactly one label is recognized it is the verdict |
| `Report.Classify` | measure_twice/report_html.py:192-284 | A scored row reproduces exactly when its verdict and score are the extracted label with 1 or 0, or the parse failure with 0; a cell is correct or wrong exactly when that label is or is not the expected one without case and outer white space, refused or without verdict exactly when there is none, never ambiguous; it lists the recognized labels in the order of the suite, and is recoverable exactly when there is no verdict and the first recognized label is the expected one |
| `Monotonicity.MonotoneExactlyWithoutObject` | measure_twice/report_html.py:165-166 | Recognition of every label is monotone over the cuts if and only if no top-level object of the text parses |
| `Monotonicity.ObjectBreaksMonotonicity` | measure_twice/report_html.py:165-166 | Each parseable top-level object gives a label that is recognized at one cut and not at a later one |
| `LabelMonotonicity.MonotoneExactlyWhenOutliving` | measure_twice/report_html.py:165-166 | For one label: recognition is monotone over the cuts if and only if the label, when recognized just before the closing brace of an object that parses, is recognized at every cut after it |
| `LabelMonotonicity.RecognitionGrowsBetween` | measure_twice/scoring/deterministic.py:221-282 | Between two cuts with no object completed, none of the three tiers loses a label |
| `LabelMonotonicity.ValueGrows` | measure_twice/scoring/deterministic.py:83-85 | A label in the value of a labelled line stays in it when the line goes on |
| `LabelMonotonicity.OutsideGrows` | measure_twice/scoring/deterministic.py:156-175 | Without a completed object the masked text only grows |
| `PlainText.ClosingBraceTakesRecognitionBack` | measure_twice/report_html.py:165-166 | In {"k": "flag"} the label is recognized until the closing brace and not after it |
| `PlainText.PlainIsSane` | measure_twice/scoring/deterministic.py:190-192 | What the results about recognition assume of Python holds on ASCII with the modelled JSON reader |
| `PlainText.CapitalKeyAnswers` | measure_twice/scoring/deterministic.py:255-262 | `{"Verdict": "flag"}` is `flag` |
| `PlainText.VerdictBeforeLabel` | measure_twice/scoring/deterministic.py:76-78 | `{"label": "pass", "verdict": "flag"}` is `flag` |
| `PlainText.LaterSpellingAnswers` | measure_twice/scoring/deterministic.py:255-257 | `{"verdict": "pass", "VERDICT": "flag"}` is `flag` |
| `PlainText.CapitalLineReads` | measure_twice/scoring/deterministic.py:83-85 | `VERDICT = flag` has the value `flag` |
| `PlainText.WholeWordsOnly` | measure_twice/scoring/deterministic.py:181-186 | `Flag.` holds the word `flag`, and `flags` and `unflag` do not |
| `Supervision.GuardNeverUsedAfterClose` | measure_twice/agent_bench/process.py:1302-1342 | In every interleaving, neither thread reads or writes a cgroup control after the guard's descriptors close, and they close once |
| `Supervision.TreeNeverClosedUnderMonitor` | measure_twice/agent_bench/process.py:3258-3284 | The tree root is closed only when the monitor is not alive, and its number is never used after that |
| `Supervision.TerminalTreeIsQuiet` | measure_twice/agent_bench/process.py:3211-3257 | No target process writes the tree from terminal validation on |
| `Supervision.ValidatesExactly` | measure_twice/agent_bench/process.py:3223-3257 | In every run, the step that decides goes on to terminal validation if and only if there is a tracker, the child was reaped before, and, with a guard, its scope was proved empty or collected before |
| `Supervision.DecisionIsNeverSkipped` | measure_twice/agent_bench/process.py:3251-3257 | and no run gets past that point without deciding |
| `Supervision.WholeRunExists` | measure_twice/agent_bench/process.py:3128-3286 | A whole run of a guarded evaluator reaches terminal validation and releases everything |
| `Supervision.TeardownSettlesEverything` | measure_twice/agent_bench/process.py:3128-3286 | At the end the guard is closed and the tree root is closed, or leaked only under a monitor that outlived its join |
| `Supervision.CleanupNeverStuck` | measure_twice/agent_bench/process.py:3128-3286 | Cleanup always has a step of its own or waits for a lock that the monitor can release at once |
| `Supervision.StepKeepsInv` | measure_twice/agent_bench/process.py:1579-1587 | Every step of either thread, of cleanup and of the kernel keeps the invariant |
| `Supervision.UseNeedsOpenGuard` | measure_twice/agent_bench/process.py:1302-1306 | A step through the guard's descriptors needs them open |
| `ReleaseBarrier.ForkComesAfterEveryCheck` | measure_twice/agent_bench/process.py:2643-2740 | With a failure or lost channel at any step, the target is forked only after all checks, in order, and after the release was sent |
| `ReleaseBarrier.KillOnlyReachesTheFreshScope` | measure_twice/agent_bench/process.py:2301-2340 | In the cleanup of a failed start and in the teardown of every run, cgroup.kill is written only through a descriptor matched to the fresh scope |
| `ReleaseBarrier.FinishedNeverKills` | measure_twice/agent_bench/process.py:3223-3250 | Once the guard is closed at the end of teardown nothing is killed any more |
| `ReleaseBarrier.CleanFailureLeavesNothingRunning` | measure_twice/agent_bench/process.py:2577-2627 | A failed start whose cleanup recorded no error leaves no supervisor and no target, then or later |
| `ReleaseBarrier.CancelCannotRecallRelease` | measure_twice/agent_bench/process.py:2853-2861 | A release that arrived although its send failed cannot be recalled by the cancel byte |
| `ReleaseBarrier.StepKeepsInv` | measure_twice/agent_bench/process.py:2029-2054 | Every step of parent, supervisor and kernel keeps the invariant |
| `ReleaseBarrier.ReleaseWasSent` | measure_twice/agent_bench/process.py:260-346 | A release byte in the channel was sent by the parent |
| `ReleaseBarrier.ReleasedExactly` | measure_twice/agent_bench/process.py:260-346 | In every run, the supervisor that reads the barrier can fork the target if and only if a release byte had arrived first: not on a cancel byte, not on a closed channel |
| `ReleaseBarrier.LateLookIsNeverSkipped` | measure_twice/agent_bench/process.py:3223-3240 | No teardown finishes without a look at the scope after the target's exit, unless the scope was found collected |
| `ReleaseBarrier.CleanTeardownLeavesNothingRunning` | measure_twice/agent_bench/process.py:3223-3250 | A teardown without an error leaves no supervisor and no target |
| `ReleaseBarrier.SuccessfulRunExists` | measure_twice/agent_bench/process.py:2643-2740 | A run passes every check, forks, tears down and ends without an error |
| `ReleaseBarrier.FailedRunExists` | measure_twice/agent_bench/process.py:2577-2627 | and another fails its start and undoes it |
| `Capabilities.Capability.Close` | measure_twice/agent_bench/_linux_capabilities.py:484-493 | Idempotent: gives back exactly what is still held |
| `Capabilities.Capability.Abandon` | measure_twice/agent_bench/_linux_capabilities.py:495-509 | The descriptor stays live and is nobody's |
| `Capabilities.Capability.Duplicate` | measure_twice/agent_bench/_linux_capabilities.py:391-424 | A new owner on a new descriptor, or nothing new; it gives up only on a closed capability or a failed call |
| `Capabilities.FromOpenFd` | measure_twice/agent_bench/_linux_capabilities.py:334-355 | Takes the descriptor over, or closes it |
| `Capabilities.Acquire` | measure_twice/agent_bench/_linux_capabilities.py:275-332 | The root descriptor, and the parent directory of a lookup that follows a last symlink, are closed on every path; it gives up only when a call failed |
| `Capabilities.CloseAll` | measure_twice/agent_bench/isolation.py:223-225 | Closes all and gives back exactly what they held |
| `Capabilities.IsAncestor` | measure_twice/agent_bench/_linux_capabilities.py:541-559 | Whatever fails, every parent opened on the way up is closed; an answer is right, and there is none only when a call failed or the climb passes 4096 levels |
| `Ownership.Scratch.AdoptTerminal` | measure_twice/agent_bench/process.py:540-547 | Keeps the tree once, or closes the one it is given |
| `Ownership.Scratch.ReleaseSource` | measure_twice/agent_bench/process.py:578-583 | Idempotent release of the source |
| `Ownership.Scratch.Close` | measure_twice/agent_bench/process.py:585-598 | Gives back everything the scratch still holds |
| `Ownership.FromOwned` | measure_twice/agent_bench/process.py:882-965 | All descriptors end in the request, or, only after a failed call, all that were given and made are closed |
| `Ownership.Request.Drop` | measure_twice/agent_bench/process.py:984-990 | Closes the request's descriptors and the scratch's source |
| `Ownership.Request.Close` | measure_twice/agent_bench/process.py:992-1004 | Does nothing to a consumed request |
| `Ownership.Launch.ValidateOverlapRoots` | measure_twice/agent_bench/isolation.py:408-414 | Comparing the roots leaves nothing open; roots that pass are disjoint, and disjoint ones pass unless a call failed or one lies too deep |
| `Ownership.Launch.ProcessRequest` | measure_twice/agent_bench/isolation.py:492-560 | Duplicates go to a new request and the originals close, and the source roots are disjoint; or nothing of launch, scratch or duplicates stays open. An unused launch with disjoint roots fails only after a failed call |
| `Ownership.Launch.Close` | measure_twice/agent_bench/isolation.py:582-591 | Gives back everything still owned, once |
| `EvaluatorRun.Guard.Close` | measure_twice/agent_bench/process.py:2352-2355 | Closes the kill control and the scope directory |
| `EvaluatorRun.Adopt` | measure_twice/agent_bench/process.py:2003-2027 | Owns both scope descriptors or closes both |
| `EvaluatorRun.ReceiveThree` | measure_twice/agent_bench/process.py:2655-2671 | Any message but the right three descriptors is closed, and those three are taken unless a call fails |
| `EvaluatorRun.CheckReceived` | measure_twice/agent_bench/process.py:2672-2751 | On failure the guard alone may stay; everything else received is closed |
| `EvaluatorRun.Handshake` | measure_twice/agent_bench/process.py:2643-2751 | The guard, one scratch root and one terminal duplicate, or, only after a failed call or with a used scratch, just the guard |
| `EvaluatorRun.Spawn` | measure_twice/agent_bench/process.py:2754-2928 | A running child with its descriptors and, for an evaluator, its scratch root; or, only after a failed call or with a used scratch, nothing but what the scratch gained |
| `EvaluatorRun.Start` | measure_twice/agent_bench/process.py:2754-2928 | The launch capabilities are closed on every path, a tree the request owns stays, and a failed start closes the scratch |
| `EvaluatorRun.Stop` | measure_twice/agent_bench/process.py:3206-3284 | Everything the child added is closed, except a root that is leaked exactly under a live monitor |
| `EvaluatorRun.StopAll` | measure_twice/agent_bench/process.py:3258-3284 | Under a monitor that outlived its join exactly the tree it was given is leaked: the scratch root, or else the tree of the request |
| `EvaluatorRun.RunRequest` | measure_twice/agent_bench/process.py:3429-3457 | A request, with or without a tree of its own, is run and released; only the retained tree of the scratch is added. Without failed calls it does run |
| `EvaluatorRun.RunLaunch` | measure_twice/agent_bench/isolation.py:363-600 | With any call failing anywhere, exactly what launch and scratch owned leaves the table and nothing is closed twice; one descriptor is leaked exactly when an evaluator ran under a monitor that survived; and an unused launch with disjoint roots does run when no call fails |
| `TreeWalk.WalkTree` | measure_twice/agent_bench/_linux_capabilities.py:1454-1516 | On a stable tree it succeeds exactly when every bound holds, whatever the listing order, with the exact totals |
| `TreeWalk.Walker.Visit` | measure_twice/agent_bench/_linux_capabilities.py:1469-1503 | One directory: succeeds exactly when shape and running counts allow |
| `TreeWalk.Walker.VisitChild` | measure_twice/agent_bench/_linux_capabilities.py:1476-1496 | A limit error is raised at the first excess |
| `TreeWalk.TotalsPick` | measure_twice/agent_bench/_linux_capabilities.py:969-1020 | Totals do not depend on which entry is taken first |
| `TreeWalk.Stops` | measure_twice/agent_bench/_linux_capabilities.py:969-982 | One entry too many, badly named or out of shape puts the directory out of shape |
| `TreeWalk.NamesAreOnePartPaths` | measure_twice/agent_bench/_linux_capabilities.py:158-167 | A name the walk takes is a portable path of one part, or one with a colon |
| `TreeCopy.CopyTree` | measure_twice/agent_bench/_linux_capabilities.py:1308-1451 | When it returns, the destination is the source in names, bytes and low nine mode bits, nothing else changed, the usage is the walk's; without call failures it returns exactly when the walk accepts |
| `TreeCopy.Disk.CopyContents` | measure_twice/agent_bench/_linux_capabilities.py:1170-1203 | For every way reads and writes are cut short, the file holds the source's bytes |
| `TreeCopy.Disk.WriteAll` | measure_twice/agent_bench/_linux_capabilities.py:1154-1167 | The whole block is appended or the copy fails |
| `TreeCopy.Copier.CopyDirectory` | measure_twice/agent_bench/_linux_capabilities.py:1341-1434 | The image of every listed entry, and only that |
| `TreeCopy.Copier.CopyFile` | measure_twice/agent_bench/_linux_capabilities.py:1396-1426 | One regular file: counted, created, filled and given its mode |
| `TreeCopy.ImageGrows` | measure_twice/agent_bench/_linux_capabilities.py:1354-1426 | Copying one more entry extends the image by exactly that entry's own |
| `TreeCopy.DirectoryImage` | measure_twice/agent_bench/_linux_capabilities.py:1368-1395 | A directory created, filled and given its mode is the directory's image |
| `TreeCopy.PermissionsAreLowBits` | measure_twice/agent_bench/_linux_capabilities.py:1259 | Exactly the nine permission bits are carried over |
| `Glob.MatchSegments` | measure_twice/agent_bench/suite.py:1171-1189 | The row-by-row dynamic program decides the declarative meaning: some split gives each piece a block it can absorb |
| `Glob.NextRow` | measure_twice/agent_bench/suite.py:1177-1188 | Each row answers for every prefix of the path |
| `Glob.GlobMatches` | measure_twice/agent_bench/suite.py:1166-1189 | Invalid arguments are errors; otherwise the answer is the meaning |
| `Glob.ValidGlobIs` | measure_twice/agent_bench/suite.py:110-121 | A glob is accepted exactly when it is a valid path without brackets whose double stars stand alone between slashes |
| `Glob.SegmentMatchesIsMeaning` | measure_twice/agent_bench/suite.py:1153-1163 | Within one segment: * any run, ? one character, everything else itself |
| `Glob.OneCharacterPatterns` | measure_twice/agent_bench/suite.py:1153-1163 | A star matches every segment, a question mark every one of one character, any other character itself |
| `Glob.PlainPatternIsItself` | measure_twice/agent_bench/suite.py:1153-1163 | A pattern without either matches itself alone |
| `Glob.DoubleStarCell` | measure_twice/agent_bench/suite.py:1179-1182 | ** absorbs zero or more whole segments |
| `Glob.PieceCell` | measure_twice/agent_bench/suite.py:1183-1187 | Every other piece absorbs exactly one segment |
| `Glob.AnyLeads` | measure_twice/agent_bench/suite.py:1192-1199 | Comparing leading parts is being at or below a path |
| `Glob.IsProtectedPath` | measure_twice/agent_bench/suite.py:1192-1199 | Protected exactly when at or below a protected path |
| `Glob.IsChangeAllowed` | measure_twice/agent_bench/suite.py:1202-1209 | Allowed exactly when not protected and some glob means the path |
| `Glob.ProtectionOverridesEveryGlob` | measure_twice/agent_bench/suite.py:1202-1209 | Nothing at or below a protected path is allowed whatever the globs; ** allows exactly the rest |
| `Glob.AlwaysProtected` | measure_twice/agent_bench/suite.py:1192-1199 | Git's files and the tests are protected in every task |
| `Paths.PartsPrefix` | measure_twice/agent_bench/suite.py:1196-1197 | Leading parts agree exactly when one path is at or below the other as text |
| `Paths.SplitJoin` | measure_twice/agent_bench/suite.py:548-549 | Distinct part lists are distinct paths |
| `Paths.ValidPathIs` | measure_twice/agent_bench/suite.py:82-107 | A path is accepted exactly when it has no surrogate, NUL, backslash or colon and no segment that is empty or dots |
| `Worklist.WalkRegularFiles` | measure_twice/agent_bench/suite.py:562-624 | Ends, refuses exactly the unclean trees and invalid paths, opens each directory once for listing, and returns the regular files duplicate-free in path-byte order |
| `Worklist.ColonDirectoryIsRefused` | measure_twice/agent_bench/suite.py:95-96 | A directory named a:b is refused, because it is opened again by its path; a regular file of that name is not |
| `Worklist.ValidJoin` | measure_twice/agent_bench/suite.py:82-107 | Below a valid path, a directory can be opened again exactly when its name has neither a colon nor a backslash |
| `Worklist.BytecodeNames` | measure_twice/agent_bench/suite.py:552-560 | Refused as bytecode are exactly the cache directory and names that end in .pyc or .pyo |
| `Worklist.ByteOrder` | measure_twice/agent_bench/suite.py:621-624 | Ordering paths by code points is ordering them by UTF-8 bytes |
| `Worklist.ListDirectory` | measure_twice/agent_bench/suite.py:586-620 | The entries of one directory, in any order |
| `Worklist.SnapshotIsUnique` | measure_twice/agent_bench/suite.py:621-624 | Two walks of one tree return the same list whatever the listing orders |
| `Worklist.Sort` | measure_twice/agent_bench/suite.py:623 | Ascending by path bytes, the same assets |
| `Worklist.ParentOfJoin` | measure_twice/agent_bench/suite.py:548-549 | A joined path determines its directory |
| `Worklist.OpenKeepsInv` | measure_twice/agent_bench/suite.py:568-576 | Opening a waiting directory by a valid path keeps the account of what is found and what is left; an invalid one refuses a tree that is not clean |
| `Worklist.TakeKeepsInv` | measure_twice/agent_bench/suite.py:586-620 | Taking one entry keeps it too |
| `Worklist.OverlapIsContainment` | measure_twice/agent_bench/suite.py:636-640 | Paths overlap exactly when one is at or below the other |
| `Worklist.CombinedAssetsAreDistinct` | measure_twice/agent_bench/suite.py:1031-1097 | With disjoint manifest paths the prompt, the patch, the seed files and the oracle files are all different assets |
| `Capture.BoundedCapture.Add` | measure_twice/agent_bench/process.py:1060-1071 | For any chunk, the new state is the one the longer stream determines |
| `Capture.AnyOccursAcross` | measure_twice/agent_bench/process.py:1061-1065 | A tail one byte shorter than the longest secret is enough to see every occurrence across chunks |
| `Capture.ReadPipe` | measure_twice/agent_bench/process.py:1080-1098 | Excess is reported exactly when the whole stream passes the limit, and a read error exactly when the stream fails before that; what was read is a whole number of chunks |
| `Capture.LongestIsReached` | measure_twice/agent_bench/process.py:2969 | The reserve is the length of some longest secret |
| `Capture.ChunkingDoesNotMatter` | measure_twice/agent_bench/process.py:1048-1071 | Two captures that saw the same bytes are in the same state |
| `Capture.RenderingKeepsCleanStreams` | measure_twice/agent_bench/process.py:1073-1077 | A stream without a secret is rendered as its own first limit bytes |
| `Capture.SecretIsRedacted` | measure_twice/agent_bench/process.py:1073-1077 | A secret is replaced by `<redacted>` |
| `StatusRecord.RecordRoundTrip` | measure_twice/agent_bench/process.py:66-68 | Packing then unpacking is the identity on all in-range signed fields |
| `StatusRecord.SmallRecord` | measure_twice/agent_bench/process.py:61-68 | The record's bytes: the magic, then each field most significant byte first |
| `StatusRecord.WriteStatus` | measure_twice/agent_bench/process.py:108-123 | However writes are cut, the whole record ends in the pipe |
| `StatusRecord.ReadStatus` | measure_twice/agent_bench/process.py:3060-3125 | However reads are cut, the answer is the stream's meaning, unless the deadline passes |
| `StatusRecord.Exchange` | measure_twice/agent_bench/process.py:3060-3125 | A written record is what is read |
| `StatusRecord.ShortOrForeignIsRejected` | measure_twice/agent_bench/process.py:3103-3117 | A short stream or another magic is never a record |
| `StatusRecord.LargeCountsNeedTheWideField` | measure_twice/agent_bench/process.py:61-66 | A count past 2 GiB fits the eight-byte field and no four-byte one |
| `DirBuffer.ParseBuffer` | measure_twice/agent_bench/_win32_contained.py:355-386 | For every buffer: it ends, reads only inside, never overlaps two records, and yields the buffer's records in order without . and .., each with its name, attributes and identity, a directory exactly when bit 4 of the attributes is set |
| `DirBuffer.ReadRecord` | measure_twice/agent_bench/_win32_contained.py:357-378 | The checks on one record, in order |
| `DirBuffer.ParseSerialized` | measure_twice/agent_bench/_win32_contained.py:355-386 | Parsing a well-laid-out serialization gives back its records, whatever the unused fields and filler, unless one is not UTF-16 or has a zero identity |
| `DirBuffer.ListSerialized` | measure_twice/agent_bench/_win32_contained.py:341-388 | It is listed exactly when every name is UTF-16 and every real entry has an identity; then the entries are its records in order without . and .., a directory exactly when bit 4 of the attributes is set |
| `DirBuffer.DirectoryAndArchive` | measure_twice/agent_bench/_win32_contained.py:36 | Attributes 0x10 are a directory, 0x20 are not |
| `DirBuffer.ValidExactlyWhenEncoded` | measure_twice/agent_bench/_win32_contained.py:363-367 | The names taken are exactly the UTF-16 forms of sequences of characters |
| `Attribution.Tracker.Report` | measure_twice/agent_bench/process.py:1356-1373 | A hard-guard report replaces, a sampled one only fills an empty place |
| `Attribution.Tracker.CheckResources` | measure_twice/agent_bench/process.py:1381-1474 | Nothing once a limit is recorded; otherwise exactly the most authoritative of everything visible: hard events, exhaustion, processes, CPU, memory, the tree; a walk that finds churn is only counted, and only a broken one fails |
| `Attribution.Tracker.CheckSamples` | measure_twice/agent_bench/process.py:1417-1474 | Of the sampled thresholds the first one reached is reported, and the tree is walked only when none is |
| `Attribution.Tracker.ReportCpu` | measure_twice/agent_bench/process.py:1425-1446 | CPU comes from the guard's accounting alone, or from the most ticks ever sampled at once |
| `Attribution.Tracker.FinalGuardObservation` | measure_twice/agent_bench/process.py:1520-1548 | Looks even when a limit is recorded: exactly a hard event, or the guard's CPU excess, is reported |
| `Attribution.Tracker.ValidateTerminalTree` | measure_twice/agent_bench/process.py:1476-1518 | Exhaustion is reported first, then an excess of the strict walk; the run goes on exactly when the tree is fine or over its limit |
| `Attribution.LastHardReportWins` | measure_twice/agent_bench/process.py:1356-1373 | The blame after any reports is the last hard one if there is one |
| `Attribution.FirstSampleStands` | measure_twice/agent_bench/process.py:1356-1373 | and otherwise the first sampled one |
| `Attribution.BlameNeedsReports` | measure_twice/agent_bench/process.py:1356-1373 | Something is blamed exactly when something was reported, and only a report that was made |
| `Attribution.HardBlameIsNeverSampledAway` | measure_twice/agent_bench/process.py:1356-1373 | A hard blame is never overwritten by a sampled one |
| `Attribution.SampledBlameStandsUntilHard` | measure_twice/agent_bench/process.py:1356-1373 | A sampled blame stands until a hard one arrives |
| `Attribution.FinalBlame` | measure_twice/agent_bench/process.py:3331-3400 | Hard-event codes 1 to 4 blame memory, processes, file bytes and file count with their configured ceiling and the observation, over everything reported before; without a code the blame is that of all reports and the final CPU one |
| `Attribution.RenderResult` | measure_twice/agent_bench/process.py:3301-3426 | A run fails exactly on a missing or broken capture or a missing, erroneous, unknown or unconfigured status; otherwise hard-event codes 1 to 4 blame memory, processes, file bytes and file count with their configured ceiling, and without a code the blame is that of every report made and the final CPU one; it ends in resource-limit exactly when blamed, has an exit code exactly when exited, a signal exactly when the code is negative, and never both |

## Left out

- Sweep.Run: an exception out of an adapter call is not modelled as such; what it leaves in the file is what a death before the first character of an append leaves. The preflight -- names, bindings, manifest, receipt, doctor, credential -- is one arbitrary answer (`Config.ready`).
- Sweep.RunIsAStep: strings that hold a surrogate pair written as two code points are excluded (`WritesGoodRows`), because such a string does not survive `json.dumps` and `json.loads`; `json.loads` never produces one.
- LineStore.ReadRows: line ends are `\n` only; reading on a platform that translates other line ends is not modelled, nor is text that is not UTF-8.
- Sweep.RowFile.Append: a process crash cuts an append anywhere, but an operating-system crash that loses flushed lines is not modelled. One process writes a run at a time.
- Rescore.ScoreRun: the scorer is a total function; a scorer that raises leaves the store as an unknown item does. The judges' own calls and parse-failure gate are one arbitrary answer to the rubric scorer.
- Report.Classify: rendered explanations, facets, `_model_totals` and the payload are formatting or plain counting.
- Supervision.TerminalTreeIsQuiet: what the kernel guarantees is assumed as its steps: an empty scope gains no new process, a collected scope was empty, and without a guard the reaped outer PID-namespace owner takes its descendants along.
- Supervision.CleanupNeverStuck: it states that a step exists, not how long it takes; timeouts are steps that may happen, and clocks are not modelled.
- ReleaseBarrier.ForkComesAfterEveryCheck: the file, process and mount calls behind each check are steps with any outcome; their text parsing is not modelled.
- EvaluatorRun.RunLaunch: covers launches as the builders make them, so the request it makes owns no tree of its own; `EvaluatorRun.RunRequest` covers both kinds of request. `build_*_sandbox` and preflight acquisition are not modelled, and closing a live descriptor always succeeds. `_RunningProcess` is a value here because its fields only shrink.
- TreeWalk.WalkTree: the tree does not change during the walk, so the drift checks always pass and are not modelled; recursion is ideal.
- TreeCopy.CopyTree: the identity, time stamp and digest re-checks of source and destination always pass on a stable source and an exclusive destination and are not modelled; overlap of the two roots is checked before and is the caller's here.
- Worklist.WalkRegularFiles: entries are taken in an arbitrary order, which includes the sorted order the code uses; handle identity checks always hold on a stable tree; content is opaque instead of its SHA-256. The walk of `_resolve_contained` down to each directory is the one check of its path.
- DirBuffer.ParseBuffer: one filled buffer; the outer loop that refills it, and the volume half of an identity, are left out. Names stay UTF-16 code units, since strict decoding is one-to-one.
- Glob.SegmentMatches: stands for the compiled regular expression; the `re` engine itself is not modelled.
- StatusRecord.ReadStatus: a blocked or late read is a choice that may happen, instead of a clock.
- Attribution.RenderResult: the Linux path only; the wait status arrives decoded, and elapsed time is left out.
- Json numbers are kept as the text they were written in; float values are never evaluated.
- Network and subprocess adapters, the CLI, HTML and Markdown rendering, the ledger, authoring, context qualification, configuration and receipt validation, exact scoring and suite scores: I/O, formatting or one-branch checks.
- Bubblewrap arguments, environment allowlists, systemd invocation, preflight probing, ctypes and Win32 handle calls: host plumbing, represented as calls with any outcome where a property needs them.
