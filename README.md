# ccx_runner solver-log core, in Dafny

ccx_runner is a desktop front end for the CalculiX finite-element solver. It
starts the solver as a child process and reads the solver's standard output
on a reader thread. The thread turns each line into structured messages: a
new step record, an update of that record, a residual sample, a reset of the
residual plot, and the line itself. It sends them over a channel. On every
frame the user interface drains the channel into three views: the
transcript, the residual plot and the step table. It also filters the
transcript with an AND/OR query, and it keeps the selected `.inp` input file
valid when the file list is refreshed.

This project models that core and proves what it promises:

- `text.dfy` (module `Text`): the Rust string operations the core relies on.
  These are `char::is_whitespace`, `trim`, `split_whitespace`, `split(char)`,
  `split(..).nth(1)`, `starts_with`, `contains`, the case fold and
  `u32::from_str`.
- `solver.dfy` (module `Solver`): the reader thread's per-line state machine
  and its loop, from `src/solver.rs`.
  - `Analyse` classifies a line. `Transition` applies the rules to the
    analysed line. `Step` is the two composed.
  - `Run` folds `Step` over the lines.
  - `ReaderThread` is the loop itself as a method. A send can fail because
    the receiver was dropped, and the loop stops at the first such failure.
- `app.dfy` (module `App`): the consumer side, from `src/app.rs`.
  - `Apply` and `ApplyAll` say what messages do to the views.
  - The class `MainApp` holds the drain loop, the Run and Stop handlers and
    the refresh of the file list.
  - `NormalizeSelection` is the selection rule.
- `filter.dfy` (module `LineFilter`): the AND/OR transcript filter.
- `pipeline.dfy` (module `Pipeline`): the two sides together. After a run it
  proves two things:
  - the transcript is exactly the solver's output;
  - the residual plot is numbered 1, 2, 3, ….
- `wrappers.dfy`: `Option`.

The model follows these details of the code:

- A `STEP` line takes its step number from the *last* whitespace token.
- Every line whose trimmed form starts with `STEP` bypasses the sub-rules,
  even when that token does not parse.
- The `increment ` test is made on the trimmed line, and `ResetResiduals` is
  sent before the four-token check.
- The ` actual total time=` test is made on the untrimmed line.

Inputs the model takes as parameters. The numbers that `str::parse::<f64>`
reads are a parameter `FloatParser` (`string -> Option<real>`). The outcome of
`spawn_process`, the current time and the `.inp` files that `read_dir` lists
are method parameters.

## Model

| member | source | states |
|---|---|---|
| Text.IsWhitespace | src/solver.rs:61 | definition: the characters `char::is_whitespace` accepts, the White_Space set of Unicode |
| Text.StartsWith | src/solver.rs:61 | definition of `str::starts_with`: the text begins with the pattern |
| Text.Contains | src/app.rs:327 | definition of `str::contains`, by recursion on the text; its meaning is stated by `ContainsOccurrence` |
| Text.ContainsOccurrence | src/app.rs:327 | the text contains the pattern exactly when the pattern occurs in it at some offset |
| Text.Trim | src/solver.rs:61 | `str::trim`: the result is the slice of the input that starts after its leading whitespace, what follows it is all whitespace, it has no whitespace at either end, and it is empty exactly when the line is all whitespace |
| Text.TrimAround | src/solver.rs:61 | whitespace around a word whose ends are not whitespace trims to that word |
| Text.TrimStart | src/solver.rs:61 | drops exactly the leading whitespace: the result is a suffix, and what was dropped is all whitespace |
| Text.TrimEnd | src/solver.rs:61 | drops exactly the trailing whitespace: the result is a prefix, and what was dropped is all whitespace |
| Text.LeadingSpace | src/solver.rs:61 | the length of the leading whitespace run: all whitespace, followed by a non-whitespace character or the end |
| Text.TrailingSpace | src/solver.rs:61 | the length of the trailing whitespace run: all whitespace, preceded by a non-whitespace character or the start |
| Text.TokenLength | src/solver.rs:62 | the length of the leading run without whitespace, ended by whitespace or the end |
| Text.SplitWhitespace | src/solver.rs:62 | `split_whitespace`: every token is non-empty and free of whitespace; the tokens are the maximal runs, see `SplitWhitespaceRuns` and `SplitWhitespaceUnique` |
| Text.SplitWhitespaceFirst | src/solver.rs:62 | leading whitespace, a word and then whitespace or the end: the word is the first token and the rest are the tokens of what follows |
| Text.SplitWhitespaceRuns | src/solver.rs:62 | the text is the tokens, in order, interleaved with whitespace gaps, and the gaps between two tokens are not empty |
| Text.SplitWhitespaceUnique | src/solver.rs:62 | any way of writing the text as non-empty whitespace-free words, in order, separated by non-empty whitespace gaps gives exactly the tokens |
| Text.Split | src/solver.rs:97 | `split(char)`: at least one piece, no piece contains the separator, and the pieces joined by it give the text back |
| Text.SplitJoin | src/solver.rs:97 | splitting separator-free pieces joined by the separator gives back the same pieces |
| Text.SplitWithout | src/solver.rs:97 | text without the separator splits into itself alone |
| Text.SplitAfterPiece | src/solver.rs:97 | a separator-free piece followed by the separator splits off as the first piece |
| Text.JoinHead | src/solver.rs:97 | pieces joined by a separator start with the first piece, followed by the separator exactly when there is more than one piece |
| Text.SecondField | src/solver.rs:97 | `split(sep).nth(1)` is present exactly when the separator occurs; it is then the second piece of `split`: the text after the first separator up to the next separator or the end |
| Text.ParseU32 | src/solver.rs:63 | `u32::from_str` succeeds only on a non-empty string of digits with an optional leading `+`, and rejects the lone `+` and any whitespace; its value is that of the digits |
| Text.ParseDigits | src/solver.rs:63 | on a string of digits, with or without a leading `+`, the value is read when it is below 2^32 and rejected otherwise |
| Text.ParseNumeral | src/solver.rs:63 | leading zeros and a leading `+` do not change what is read: a padded numeral of `n` reads as `n` when `n` < 2^32 and is rejected otherwise |
| Text.PaddedDecimal | src/solver.rs:63 | a decimal numeral behind leading zeros is still a string of digits denoting the same number |
| Text.Decimal | src/solver.rs:63 | the decimal numeral of a number is a non-empty string of digits denoting that number |
| Text.ParseDecimal | src/solver.rs:63 | `u32::from_str` reads back the decimal numeral of every 32-bit value |
| Text.WrappingInc | src/solver.rs:94 | `+= 1` on a `u32` (release build) is the successor modulo 2^32 |
| Text.LowerChar | src/app.rs:313 | definition of the case fold of one character: ASCII `A`-`Z` to `a`-`z`, everything else kept; `Lowercase` applies it to every character |
| Text.Lowercase | src/app.rs:313 | the case fold keeps the length |
| Solver.IsHeaderLine | src/solver.rs:61 | definition of the header test: the trimmed line starts with `STEP`, see `HeaderLinesFirst` |
| Solver.HeaderStep | src/solver.rs:62-63 | definition: the last whitespace token of the line, as a `u32`, see `HeaderStepExample` |
| Solver.HeaderStepExample | src/solver.rs:61-63 | `STEP 3` is a header line with step number 3 |
| Solver.IncrementFields | src/solver.rs:82-85 | definition: tokens 1 and 3 as `u32`s when there are at least four tokens, see `IncrementFieldsExample` |
| Solver.IncrementFieldsExample | src/solver.rs:82-85 | the line `increment 7 attempt 2` carries increment 7 and attempt 2 |
| Solver.DigitNumeral | src/solver.rs:63 | a single digit reads as its value |
| Solver.TotalTimeValue | src/solver.rs:97-98 | definition: the trimmed text after the first `=`, as read by the float parser, see `TotalTimeRuleApplies` |
| Solver.ResidualValue | src/solver.rs:104-107 | definition: the first token of the trimmed text after the first `=`, as read by the float parser, see `ResidualRuleApplies` |
| Solver.Classify | src/solver.rs:77-103 | definition of the sub-rule tests in source order; each is stated by one of the `…RuleApplies` lemmas |
| Solver.Analyse | src/solver.rs:61-75 | definition: a header line never reaches the sub-rules, see `HeaderLinesFirst` |
| Solver.FreshRecord | src/solver.rs:64-67 | definition of the record a header opens: the step number with every other field at its default; stated by `HeaderOpensRecord` |
| Solver.IncrementUpdate | src/solver.rs:77-92 | an `increment ` line keeps the step number, zeroes the residual counter and sends `ResetResiduals` first; everything it sends is about the open step |
| Solver.IterationUpdate | src/solver.rs:93-95 | an `iteration ` line keeps the step number and sends only messages about the open step |
| Solver.TotalTimeUpdate | src/solver.rs:96-101 | an ` actual total time=` line keeps the step number and sends only messages about the open step |
| Solver.ResidualUpdate | src/solver.rs:103-123 | a `largest residual force=` line leaves the record as it was and sends only messages about the open step |
| Solver.OpenRecordRules | src/solver.rs:75-132 | no sub-rule changes the open record's step number, and every message a sub-rule sends is about that step |
| Solver.Transition | src/solver.rs:60-137 | each line ends with exactly one `Line` message, which carries that line; a body line never opens or closes the record, and with a record open it keeps the step and sends only messages about that step |
| Solver.Step | src/solver.rs:60-137 | one line: its last message is the line itself, no earlier message is a line, and a body line neither opens nor closes the record |
| Solver.Run | src/solver.rs:58-137 | no lines send nothing and change nothing; otherwise the last message sent is the last line |
| Solver.ReaderThread | src/solver.rs:55-144 | the messages that reach the receiver are exactly `Run`'s messages, cut off where the dropped receiver makes a send fail |
| Solver.SendEach | src/solver.rs:69-72 | the sends for one line, in order (those at src/solver.rs:69, 78, 115, 127 and 135): all are delivered, or the channel takes exactly as many as it can and the first failed send stops the rest |
| Solver.Fold | src/solver.rs:58-137 | definition: a per-line step folded over the lines, left to right, collecting what each sends; stated by `FoldSentSoFar`, `FoldPrefix`, `FoldLast`, `FoldEchoes` and `FoldNumbered` |
| Solver.FoldSentSoFar | src/solver.rs:58-137 | the messages after line `i` extend those of the earlier lines and lead up to those of the whole run |
| Solver.FoldPrefix | src/solver.rs:58-137 | the messages of the first `i` lines are a prefix of the messages of all lines |
| Solver.FoldLast | src/solver.rs:58-137 | a run over the lines is the run over all but the last line, followed by the last line's step |
| Solver.RunPrefix | src/solver.rs:58-137 | in a run, what is sent for the first `i` lines is a prefix of what is sent for all lines |
| Solver.TransitionLines | src/solver.rs:135 | the `Line` messages of one line are exactly that line |
| Solver.LinesOfAppend | src/solver.rs:135 | the lines carried by two runs of messages, one after the other, are the lines of each, concatenated |
| Solver.NoLines | src/solver.rs:135 | messages that are not `Line` messages carry no line |
| Solver.FoldEchoes | src/solver.rs:58-137 | a fold whose every step echoes exactly its own line echoes exactly the input lines |
| Solver.RunEchoesEveryLine | src/solver.rs:135 | the `Line` messages of a run are the input lines, untrimmed, each once and in order |
| Solver.LineWithoutEffect | src/solver.rs:61-75 | `Step` on a line that is not a header line, with no record open, sends only the line and changes nothing; so does a `STEP` line whose last token is not a `u32` |
| Solver.HeaderOpensRecord | src/solver.rs:61-73 | `Step` on a `STEP` line with step number `n` opens a fresh record (all other fields zero), keeps the residual counter and sends `NewStepInfo` and then the line |
| Solver.HeaderLinesFirst | src/solver.rs:61-75 | a line is taken as a header exactly when its trim starts with `STEP`, and its step is the last token parsed |
| Solver.TotalTimeTrimmed | src/solver.rs:96 | a line starting with ` actual total time=` trims to a line starting with `a` |
| Solver.IncrementRuleApplies | src/solver.rs:77 | a line whose trim starts with `increment ` falls under the increment rule, with tokens 1 and 3 as its fields |
| Solver.IterationRuleApplies | src/solver.rs:93 | a line whose trim starts with `iteration ` falls under the iteration rule |
| Solver.TotalTimeRuleApplies | src/solver.rs:96 | a line starting with ` actual total time=` falls under the total-time rule, with the trimmed text after the first `=` as its value |
| Solver.ResidualRuleApplies | src/solver.rs:103 | a line whose trim starts with `largest residual force=` falls under the residual rule, with the first token after the first `=` as its value |
| Solver.IncrementResets | src/solver.rs:77-92 | `Step`, with a record open, on an `increment ` line always sends `ResetResiduals` first and zeroes the counter; only when tokens 1 and 3 parse does it set increment and attempt, zero the iterations and send the record |
| Solver.IterationCounts | src/solver.rs:93-95 | `Step`, with a record open, on an `iteration ` line adds exactly one iteration, changes nothing else and sends the record |
| Solver.TotalTimeUpdates | src/solver.rs:96-101 | `Step`, with a record open, on an ` actual total time=` line sets the total time and sends the record when the value parsed; otherwise it sends only the line |
| Solver.ResidualSampled | src/solver.rs:103-123 | `Step`, with a record open, on a `largest residual force=` line whose value parsed increments the counter before sending, numbers the sample with it under the open step, and sends no record update; otherwise only the line |
| Solver.OtherLineIgnored | src/solver.rs:75-133 | `Step`, with a record open, on a line that no header or sub-rule test picks out sends only the line and changes nothing |
| Solver.SinceLastResetAppend | src/solver.rs:78-81 | the samples since the last reset of two runs of messages, and whether they hold a reset, follow from those of each run |
| Solver.RulesResidualEffect | src/solver.rs:77-123 | each sub-rule clears the residual series and its counter, leaves both alone, or adds exactly the next sample |
| Solver.TransitionResidualEffect | src/solver.rs:60-137 | each line clears the residual series, leaves it alone, or adds exactly the next sample |
| Solver.ResidualsNumberedFromOne | src/solver.rs:77-123 | from the start of a run, the samples since the last reset are numbered 1, 2, 3, … (wrapping at 2^32), and the counter equals their number |
| Solver.FoldNumbered | src/solver.rs:58-137 | a fold from the initial state keeps the series numbered when each of its steps has a residual effect |
| Solver.NumberedExtend | src/solver.rs:108-111 | a numbered series stays numbered under any residual effect |
| App.Apply | src/app.rs:86-97 | definition of the effect of one message on the views; stated by `UpdateReplacesLastRow` and the `ApplyAll…` lemmas |
| App.ApplyAll | src/app.rs:84-111 | definition: the messages applied in queue order; stated by `ApplyAllAppend`, `ApplyAllTranscript`, `ApplyAllResiduals` and `ApplyAllStepRows` |
| App.UpdateReplacesLastRow | src/app.rs:93-97 | `UpdateStepInfo` overwrites the positionally last row of the step table and keeps its length; on an empty table it does nothing |
| App.ApplyAllAppend | src/app.rs:84-111 | draining in two frames has the same effect as draining all the messages in one |
| App.ApplyAllTranscript | src/app.rs:87-89 | the transcript gains exactly the texts of the `Line` messages, in order |
| App.ApplyAllResiduals | src/app.rs:90-91 | the residual plot holds the samples since the last reset, or, with no reset, the old samples followed by the new ones |
| App.ApplyAllStepRows | src/app.rs:92-97 | the step table gains exactly one row per `NewStepInfo`; `UpdateStepInfo` never adds a row; every row before the table's old last row is kept |
| App.TryRecv | src/app.rs:85-110 | `try_recv`: queued messages come first and in order; then `Empty` while the sender lives, and `Disconnected` once it is dropped |
| App.NormalizeSelection | src/app.rs:66-75 | no files gives no selection; otherwise the selection is a listed file; a still-listed selection is kept, otherwise the first file is chosen |
| App.NormalizeSelectionIdempotent | src/app.rs:66-75 | normalising a second time with the same list changes nothing |
| App.MainApp.constructor | src/app.rs:38-55 | a new application shows empty views, runs nothing and has the listed files with the first of them selected |
| App.MainApp.RefreshInpFiles | src/app.rs:57-76 | installs the new file list and normalises the selection; nothing else changes |
| App.MainApp.DrainMessages | src/app.rs:82-111 | every queued message is applied to the views in queue order; `Empty` leaves the run going with the queue emptied; `Disconnected` ends it (not running, no receiver, process or start time); with no receiver nothing happens |
| App.MainApp.HandleMessage | src/app.rs:86-97 | one message is applied in place, exactly as `Apply` says, and nothing else changes |
| App.MainApp.Deliver | src/solver.rs:53-144 | the reader thread's sends (src/solver.rs:69, 78, 115, 127 and 135) arrive behind the queued messages, and the end of its closure drops the sender |
| App.MainApp.RunAnalysis | src/app.rs:248-279 | with no file selected, the transcript gains one notice and nothing else changes; otherwise the views are emptied and a fresh channel opened; a started process is kept, the run is marked running and its sender is alive; a failed start leaves the run stopped, the transcript holding only the failure message and the channel without a sender |
| App.MainApp.StopAnalysis | src/app.rs:222-235 | takes the process handle out and returns it, ends the run (not running, no receiver, start time or process) and keeps the views |
| App.StopTwice | src/app.rs:223 | a second stop finds no process handle to kill |
| LineFilter.Normalize | src/app.rs:313 | `trim` then the case fold: never longer than the piece, and empty exactly when the piece is blank |
| LineFilter.NonEmptyImages | src/app.rs:310-318 | `.map(f).filter(non-empty)`: every image kept is non-empty |
| LineFilter.ImagePositions | src/app.rs:310-318 | the images kept are those at strictly increasing positions, and those positions are exactly the positions of the non-empty images |
| LineFilter.TermsOf | src/app.rs:311-315 | the AND terms of an OR part are all non-empty |
| LineFilter.TermsOfPieces | src/app.rs:311-315 | the AND terms are the trimmed, case-folded `&`-pieces, in order, with exactly the blank pieces dropped |
| LineFilter.PartTerms | src/app.rs:310-316 | definition: the AND terms of the `&`-pieces of one OR part; stated by `ClausesOfParts` and `TermsOfPieces` |
| LineFilter.ClausesOf | src/app.rs:308-318 | every OR clause kept is non-empty and so is each of its terms |
| LineFilter.ClausesOfParts | src/app.rs:308-318 | the OR clauses are the AND terms of the `|`-parts, in order, with exactly the parts without terms dropped |
| LineFilter.Clauses | src/app.rs:308-318 | definition: the clauses of the `|`-parts of the query, see `ClausesOfParts` |
| LineFilter.ClauseMatches | src/app.rs:325-328 | definition: the case-folded line contains every term of the clause; stated by `FilterMembership` |
| LineFilter.LineMatches | src/app.rs:322-328 | definition: some clause matches the case-folded line; stated by `FilterMembership` and `KeptPositions` |
| LineFilter.Keep | src/app.rs:320-330 | never more lines than the transcript; which lines, and in which order, is stated by `KeptPositions` |
| LineFilter.FilterLines | src/app.rs:302-331 | definition of the lines shown; stated by `EmptyQueryShowsAll`, `FilterMembership` and `KeepAppend` |
| LineFilter.EmptyQueryShowsAll | src/app.rs:302-304 | a blank query shows every line, in order |
| LineFilter.KeptPositions | src/app.rs:320-330 | the lines shown are the lines at strictly increasing positions, and those positions are exactly the positions of the matching lines |
| LineFilter.FilterMembership | src/app.rs:302-331 | a line is shown exactly when it is in the transcript and, for a non-blank query, some clause has all of its terms in the case-folded line |
| LineFilter.KeepAppend | src/app.rs:320-330 | filtering a transcript that grew gives the old result followed by the filtered new lines |
| LineFilter.KeepNone | src/app.rs:325 | with no clause, no line matches |
| LineFilter.NoTermsShowsNothing | src/app.rs:308-331 | a non-blank query without a single non-empty term shows no line |
| LineFilter.SeparatorsAloneShowNothing | src/app.rs:308-318 | a query that is a lone bar or a lone ampersand shows no line at all |
| LineFilter.BlankQueries | src/app.rs:308-318 | a lone bar and a lone ampersand are their own trim and have no clause |
| LineFilter.SplitAround | src/app.rs:309 | a lone separator splits into two empty pieces |
| Pipeline.TranscriptIsOutput | src/app.rs:87-89 | once a run's messages are drained, the transcript is exactly the solver's output, line for line |
| Pipeline.PlotNumberedFromOne | src/app.rs:90-91 | once a run's messages are drained, the residual plot is numbered 1, 2, 3, … with the reader's counter as its length |
| Pipeline.WholeRun | src/app.rs:248-279 | a started run whose thread sends everything and ends is finished by the next drain; the views then hold the whole transcript and a numbered residual plot |

## Left out

- Threads, the mpsc `Sender`/`Receiver` and `Arc<Mutex<Child>>` are left out. The channel is a queue of messages plus a flag that says whether the sender still exists. A drain sees the queue as it is when the drain starts; messages that arrive while it runs are not interleaved.
- `spawn_process` and `spawn_reader_thread`'s set-up (src/solver.rs:31-53) are OS process calls. Their outcome is a parameter.
- `BufReader::lines` and the read-error branch (src/solver.rs:58, 139-142) are stream I/O. The input is a sequence of lines that all read successfully.
- `process.kill()` and its printed result (src/app.rs:224-230) are OS calls. `StopAnalysis` returns the handle that would be killed.
- src/config.rs (settings persistence, `default_num_cores`) and src/main.rs (start-up) are not part of this model. `config::save` and the panic on its failure (src/app.rs:244-247) are left out for that reason.
- The `read_dir` half of `refresh_inp_files` and the `.inp` extension test (src/app.rs:58-65) are left out. The list of `.inp` files is an input.
- App.MainApp.RunAnalysis: it does not model the two `unwrap`s on the job name at src/app.rs:249. `file_stem().unwrap().to_str().unwrap()` panics when the selected path has no stem, or when its stem is not valid UTF-8 (a file named `<byte 0xFF>.inp` passes the extension test at src/app.rs:62). These checks run before the channel is made. The abstract `Path` assumes that every selected path has a UTF-8 stem. The job name itself only matters to `spawn_process`.
- The egui and egui_plot rendering, the file dialogs, repaint requests, the elapsed-time label, the number-of-cores field, the view tabs and the `filter_query` text field are user interface. The filter takes the query and the transcript as inputs.
- The `Instant` values are opaque numbers, which are never read here.
- `f64` parsing and values (src/solver.rs:98, 107) are a `FloatParser` parameter and `real`s.
- Text.Lowercase: the case fold is ASCII only. Rust's `to_lowercase` applies Unicode case mapping, which can change a string's length.
- Text.WrappingInc: `+= 1` on the `u32` counters (src/solver.rs:94, 108) is modelled as it behaves in a release build, wrapping at 2^32. A debug build panics instead.
- `Transition`, `IncrementUpdate`, `IterationUpdate`, `TotalTimeUpdate`, `ResidualUpdate` and `OpenRecordRules` take the analysed line, the `LineKind` that `Analyse` computes. The rule lemmas from `LineWithoutEffect` to `OtherLineIgnored` state the same rules on the text of the line through `Step`.
- LineFilter.TermsOf: its own contract says only that terms are non-empty. `TermsOfPieces` states which terms they are.
- LineFilter.ClausesOf: its own contract says only that clauses and terms are non-empty. `ClausesOfParts` states which clauses they are.
- Text.SplitWhitespace: its own contract says only that tokens are non-empty and free of whitespace. `SplitWhitespaceRuns` and `SplitWhitespaceUnique` state which tokens they are.
- App.NormalizeSelection: a `Path` is abstract, and only its equality is used. That equality stands for `PathBuf`'s component-wise comparison: `proj//a.inp` and `proj/a.inp` are equal. The component rules themselves are not modelled.
