# OpenFOAM residual plotter, modelled in Dafny

`plotResidualFromLog.py` reads the log of an OpenFOAM solver run and plots the initial residual of
each solved variable against simulation time with gnuplot. It does this once, writing a PNG, or in
a live mode that re-plots while the solver runs. This project models the three parts of it that
make decisions, and proves what each of them guarantees:

- **The log parser** (`parse_log_file`). Modules `LineClassifier`, `FloatLiteral` and `LogParser`
  cover it.
  - Every line is classified as a time marker (`Time = X` once stripped), a solver report, or
    anything else. A solver report is a token ending in `PCG`, `PBiCGStab`, `PBiCG`, `GAMG`,
    `smoothSolver` or `diagonal`, then a colon, `Solving for <variable>,` and the last
    `Initial residual = <token>` on the line.
  - Both regular expressions are written out over character positions. `LineClassifier` proves
    that a line is classified as a report exactly when it is laid out as one.
  - The parse keeps a pending time step, which is the current time plus one residual per variable.
    The pending step is flushed into the collected time steps and per-variable lists at the next
    time marker and at the end of the log, and only when it holds a residual.
  - Reports for `rho` and reports of the `diagonal` solver are skipped.
  - The loop is the method `LogParser.ParseLogFile`, proved equal to a fold `ParseKinds` over the
    classified lines. The fold is in turn proved equal to a reference definition `Records`, which
    describes the parse by time step instead of by line.
- **The table and script writer** (`write_gnuplot_script`, module `PlotSpec`).
  - Variables named `ILambda_…` are dropped and the rest are sorted. They become the data file's
    columns, with one row per time step. A cell holds the value at that index of the variable's
    list, or `NaN` past its end.
  - Each variable gets one plot clause. The `k`-th variable uses data column `k + 1` and line style
    `((k - 1) mod 8) + 1`.
  - The data file text and the script text are modelled character for character.
- **The live monitor's decision logic** (`live_monitor`, module `LiveMonitor`).
  - Each poll compares the log's size with the last size plotted. When the size changed, the log
    is parsed again. When that parse has time steps, the files are rewritten, gnuplot is started on
    the first plot and again whenever it has died, the script is sent, and the new size is
    recorded.
  - The loop is the method `LiveMonitor.Monitoring` over a finite sequence of polls, proved equal
    to the function `RunMonitor`.

Residuals and times are kept as the text the patterns matched. Python's `float()` is modelled as a
validity check on that text, `FloatLiteral.IsFloatLiteral`: Python's float grammar, after removing
the white space `float()` removes. That is the white space of `str.strip()` except the separators
U+001C to U+001F, which `float()` keeps and then rejects.
`fmt` stands for the `:.6e` rendering of a number.
Variable names are what `(\w+)` matched, so they never hold a blank or a line break; the header
and the script can be split back into them (`PlotSpec.ParsedNamesClean`).

A number that `float()` rejects raises `ValueError` and ends the whole parse; nothing is skipped:

- The model returns an error (`LogParser.ParseError`).
- The monitor's `except Exception` handler then closes gnuplot and leaves the loop.
  `LiveMonitor.ParseErrorStops` states this.

Table rows are aligned by list index, exactly as written at line 88. `PlotSpec.TableMatchesSteps`
shows that this puts each value in its own time step's row whenever every plotted variable is
reported in every step. `PlotSpec.ShiftedValue` gives the two-step log where a value moves up a row.

## Model

Source paths are relative to the repository root; all lines are in
`plotResiduals/plotResidualFromLog.py`.

| member | source | states |
|---|---|---|
| Text.Strip | plotResiduals/plotResidualFromLog.py:29 | `line.strip()` takes a slice of the line, removing white space only, and leaves no white space at either end |
| Text.StripSplit | plotResiduals/plotResidualFromLog.py:29 | a line is its stripped text with white space on either side |
| Text.StripAround | plotResiduals/plotResidualFromLog.py:29 | stripping a text that begins and ends with non-space characters, surrounded by any white space, gives back exactly that text |
| Text.Sorted | plotResiduals/plotResidualFromLog.py:78 | `sorted(keys)` is strictly increasing in code-point order and holds exactly the elements of the set, each once |
| Text.LexTotal | plotResiduals/plotResidualFromLog.py:78 | any two different names are ordered one way or the other |
| Text.LexTransitive | plotResiduals/plotResidualFromLog.py:78 | the order of names is transitive |
| Text.LeastExists | plotResiduals/plotResidualFromLog.py:78 | every non-empty finite set of names has a least element in code-point order |
| Text.NatTextRoundTrip | plotResiduals/plotResidualFromLog.py:123-125 | the decimal text written for a column or style number reads back as that number |
| Text.SplitJoin | plotResiduals/plotResidualFromLog.py:82 | joining pieces that do not contain the separator and splitting the result gives back the pieces |
| FloatLiteral.FloatStrip | plotResiduals/plotResidualFromLog.py:37 | `float()` parses a slice of its argument, removing only its own white space (no U+001C to U+001F), and leaves none of it at either end |
| FloatLiteral.FloatStripAround | plotResiduals/plotResidualFromLog.py:37 | that stripping removes exactly the `float()` white space around a text that begins and ends with other characters |
| FloatLiteral.SeparatorNotStripped | plotResiduals/plotResidualFromLog.py:37 | `float()` rejects `"\x1c1"`: U+001C is not white space to it |
| FloatLiteral.BlankStripped | plotResiduals/plotResidualFromLog.py:37 | `float()` accepts `" 1"` |
| FloatLiteral.DecimalAccepted | plotResiduals/plotResidualFromLog.py:37 | `float()` accepts every decimal literal `[sign] digits [. digits] [e [sign] digits]` with any white space `float()` removes around it |
| FloatLiteral.SignedAccepted | plotResiduals/plotResidualFromLog.py:53 | a signed `floatnumber` that begins and ends with a digit is accepted with any white space `float()` removes around it |
| FloatLiteral.FloatNumberAccepted | plotResiduals/plotResidualFromLog.py:53 | a `number` followed by an optional exponent `e [sign] digits` is a `floatnumber` |
| FloatLiteral.NumberAccepted | plotResiduals/plotResidualFromLog.py:53 | `digits [. digits]` is a `number` and holds no exponent mark |
| LineClassifier.NumEnd | plotResiduals/plotResidualFromLog.py:45 | `[0-9.e+-]+` is greedy: the token is the longest run of those characters |
| LineClassifier.KindSuffix | plotResiduals/plotResidualFromLog.py:45 | the alternation finds a solver name ending the word token exactly when one does |
| LineClassifier.KindSuffixUnique | plotResiduals/plotResidualFromLog.py:45 | no solver name is a suffix of another, so a token ends with at most one of them |
| LineClassifier.LastResidual | plotResiduals/plotResidualFromLog.py:45 | the greedy `.*` stops at the last position of a range where `Initial residual = ` and a token character begin; none is found exactly when the range holds none |
| LineClassifier.TimeLineClassified | plotResiduals/plotResidualFromLog.py:29-30 | white space, `Time = `, a value without a line break that ends in a non-space, and white space, is classified as a time marker with that value |
| LineClassifier.TimeValueShape | plotResiduals/plotResidualFromLog.py:29 | a line the time pattern matches is white space, `Time = `, the value and white space, with a value that has no line break and ends in a non-space |
| LineClassifier.TimeValueEnds | plotResiduals/plotResidualFromLog.py:29 | the matched value ends where the stripped line ends, on a character that is not white space |
| LineClassifier.TimeMarkerShape | plotResiduals/plotResidualFromLog.py:29-30 | conversely, every line classified as a time marker is made of those pieces |
| LineClassifier.NotTimeMarker | plotResiduals/plotResidualFromLog.py:29-45 | a line whose stripped text starts with a word token and a colon is no time marker, so the report pattern decides it |
| LineClassifier.MatchReportAt | plotResiduals/plotResidualFromLog.py:44-47 | the report pattern reaches exactly the positions of a report laid out in the line |
| LineClassifier.MatchReportShape | plotResiduals/plotResidualFromLog.py:44-47 | every match of the report pattern is laid out as a report at the positions it reports |
| LineClassifier.ReportAtClassified | plotResiduals/plotResidualFromLog.py:44-53 | a line laid out as a report is classified as that report, with the variable and residual token it holds |
| LineClassifier.ReportShape | plotResiduals/plotResidualFromLog.py:44-53 | every line classified as a report is laid out as one, and the variable and token are the matched groups |
| LineClassifier.ReportVariableIsWord | plotResiduals/plotResidualFromLog.py:45-52 | the variable of a report is what `(\w+)` matched: non-empty and made of word characters |
| LineClassifier.ReportClassification | plotResiduals/plotResidualFromLog.py:29-53 | a line is classified as a report of a given kind, variable and residual exactly when it is laid out as one |
| LogParser.FlushInto | plotResiduals/plotResidualFromLog.py:33-35 | the loop over `temp_residuals.items()` leaves the same lists as appending the whole step at once |
| LogParser.ParseLogFile | plotResiduals/plotResidualFromLog.py:18-68 | the loop over the lines returns the fold `ParseLog` of the line classification, error included |
| LogParser.LastValueIsLast | plotResiduals/plotResidualFromLog.py:59-60 | the residual kept for a variable comes from a kept report for it that no later kept report for it follows |
| LogParser.FirstMalformed | plotResiduals/plotResidualFromLog.py:37-53 | finds nothing exactly when every token is accepted, and otherwise the first rejected token |
| LogParser.RunComputesView | plotResiduals/plotResidualFromLog.py:27-66 | with well-formed tokens the loop from any state succeeds and, after the last flush, collects what the reference definition collects from that state |
| LogParser.StepError | plotResiduals/plotResidualFromLog.py:37-53 | one line fails exactly when its token is malformed, and the error names that token |
| LogParser.RunError | plotResiduals/plotResidualFromLog.py:37-53 | the loop fails exactly when some token is malformed, and the error names the first one |
| LogParser.ParseKindsSpec | plotResiduals/plotResidualFromLog.py:18-68 | the parse is the error of the first malformed token, or else the time steps of the reference definition appended in order |
| LogParser.RecordsVariables | plotResiduals/plotResidualFromLog.py:33-66 | the time steps hold only variables that some report named, so they are word runs when the reports' are |
| LogParser.ClassifiedVariables | plotResiduals/plotResidualFromLog.py:27-52 | every report among the classified lines of a log names a non-empty word-character variable |
| LogParser.ParsedVariablesAreWords | plotResiduals/plotResidualFromLog.py:18-68 | every variable a successful parse returns is non-empty and made of word characters |
| LogParser.RecordsShape | plotResiduals/plotResidualFromLog.py:32-63 | every time step emitted holds at least one variable and never `rho` |
| LogParser.ParsedShape | plotResiduals/plotResidualFromLog.py:33-66 | one time per emitted step, in order; the variables are those of the steps; each list holds that variable's values in step order, at least one and at most one per time step; no `rho` |
| LogParser.UntilMarker | plotResiduals/plotResidualFromLog.py:27-39 | the lines of a step are the longest stretch without a time marker, and the next line, if any, is one |
| LogParser.SeriesNonEmpty | plotResiduals/plotResidualFromLog.py:34-66 | a variable of some step has at least one value |
| LogParser.ParsedIsFlatten | plotResiduals/plotResidualFromLog.py:18-68 | a successful parse is exactly what the reference time steps collect |
| LogParser.FlattenShape | plotResiduals/plotResidualFromLog.py:33-66 | what steps without `rho` collect: their times in order, their variables, each variable's values in step order, at least one and at most one per step |
| LogParser.AppendAllTimes | plotResiduals/plotResidualFromLog.py:33-64 | appending steps extends the time steps by their times, in order |
| LogParser.AppendAllKeys | plotResiduals/plotResidualFromLog.py:34-66 | appending steps adds exactly their variables to the lists kept |
| LogParser.AppendAllSeries | plotResiduals/plotResidualFromLog.py:34-66 | appending steps extends a variable's list by the values it has in those steps, in order |
| LogProperties.RunAppend | plotResiduals/plotResidualFromLog.py:27 | the loop over two stretches of lines is the loop over the first, then the second from where it stopped, and an error stops it |
| LogProperties.InsertNoOp | plotResiduals/plotResidualFromLog.py:27 | lines that leave every state unchanged can be inserted anywhere without changing the parse |
| LogProperties.ExcludedReportNoOp | plotResiduals/plotResidualFromLog.py:53-57 | a `rho` or `diagonal` report with a valid number leaves the whole state unchanged |
| LogProperties.OtherLineNoOp | plotResiduals/plotResidualFromLog.py:27-60 | a line that is neither marker nor report leaves the state unchanged |
| LogProperties.SkippedLineInvisible | plotResiduals/plotResidualFromLog.py:53-57 | removing such a line from anywhere in the log does not change the parse |
| LogProperties.KeptReportStep | plotResiduals/plotResidualFromLog.py:59-60 | a kept report sets its variable's pending residual and changes nothing else |
| LogProperties.LastReportWins | plotResiduals/plotResidualFromLog.py:59-60 | two reports for one variable in a step have the effect of the second alone |
| LogProperties.RepeatedMarker | plotResiduals/plotResidualFromLog.py:31-38 | a time marker right after another parses as the second one alone |
| LogProperties.TwoMarkersOneReport | plotResiduals/plotResidualFromLog.py:31-66 | `Time = t1`, `Time = t2`, then one kept report parse as exactly one step, under `t2` |
| LogProperties.FlushOne | plotResiduals/plotResidualFromLog.py:63-66 | the final flush of one pending residual into nothing yields one time step and one one-value list |
| LogProperties.RecordsAfterUnmarked | plotResiduals/plotResidualFromLog.py:32-38 | lines before the first time marker belong to no time step |
| LogProperties.FirstMalformedAppend | plotResiduals/plotResidualFromLog.py:37-53 | well-formed lines in front do not change which token is the first malformed one |
| LogProperties.LeadingReportsIgnored | plotResiduals/plotResidualFromLog.py:32-38 | lines before the first time marker, with valid numbers, are never emitted: the log parses as if they were absent |
| LogProperties.ClassifyAllAppend | plotResiduals/plotResidualFromLog.py:27-47 | each line is classified on its own: classifying a log is classifying its parts, in order |
| LogProperties.OtherLogLineInvisible | plotResiduals/plotResidualFromLog.py:27-60 | a log line that is neither a time marker nor a solver report can be removed without changing the parse |
| LogProperties.SeparatorTimeClassified | plotResiduals/plotResidualFromLog.py:29-30 | `line.strip()` keeps U+001C, so the time value of `Time = \x1c1` is `\x1c1` |
| LogProperties.SeparatorTimeRejected | plotResiduals/plotResidualFromLog.py:29-37 | the log line `Time = \x1c1` makes the parse fail on the token `\x1c1`, because `line.strip()` keeps the separator that `float()` rejects |
| LogProperties.ParseLogSpec | plotResiduals/plotResidualFromLog.py:18-68 | the parse of the log's lines in terms of the lines: first malformed token, or else the reference time steps |
| PlotSpec.Columns | plotResiduals/plotResidualFromLog.py:74-78 | the columns are strictly sorted, and are exactly the plotted variables of the parse |
| PlotSpec.FullTable | plotResiduals/plotResidualFromLog.py:88-89 | when every plotted list has one value per time step, no cell is `NaN` |
| PlotSpec.DataFileLines | plotResiduals/plotResidualFromLog.py:80-92 | the data file is the header line, then one line per time step, each ended by a line break |
| PlotSpec.HeaderFields | plotResiduals/plotResidualFromLog.py:82 | the header's space-separated fields are `#`, `Time` and the columns in order |
| PlotSpec.RowFields | plotResiduals/plotResidualFromLog.py:86-92 | a row's space-separated fields are the written time, then the written cells in column order |
| PlotSpec.LinesHaveNoBreak | plotResiduals/plotResidualFromLog.py:82-92 | no header or row line holds a line break, given names and written numbers without one |
| PlotSpec.RowsHaveNoBreak | plotResiduals/plotResidualFromLog.py:86-92 | no row line holds a line break, given written numbers without one |
| PlotSpec.ParsedNamesClean | plotResiduals/plotResidualFromLog.py:45-82 | the variables and columns of a successful parse hold no blank and no line break |
| PlotSpec.ParsedHeaderFields | plotResiduals/plotResidualFromLog.py:18-82 | for a successful parse, splitting the header at blanks gives `#`, `Time` and the columns |
| PlotSpec.ParsedDataFileLines | plotResiduals/plotResidualFromLog.py:18-92 | for a successful parse and a `fmt` that writes no line break, the data file is the header and one line per time step |
| PlotSpec.ParsedClauseMatchesColumn | plotResiduals/plotResidualFromLog.py:18-125 | for a successful parse, the `k`-th clause is titled with header field `k + 1` and plots data column `k + 1`, that variable's cells |
| PlotSpec.ClauseMatchesColumn | plotResiduals/plotResidualFromLog.py:82-125 | the `k`-th clause is titled with header field `k + 1` and plots data column `k + 1`, which is that variable's cell in every row |
| PlotSpec.ClauseInjective | plotResiduals/plotResidualFromLog.py:122-125 | equal clauses for one data file come from the same position and the same variable, so each variable has its own clause |
| PlotSpec.Clauses | plotResiduals/plotResidualFromLog.py:121-125 | one clause per plotted column |
| PlotSpec.ClauseNamesColumn | plotResiduals/plotResidualFromLog.py:82-125 | the `k`-th clause is the one for position `k` and the `k`-th column, whose name is header field `k + 1` |
| PlotSpec.Style | plotResiduals/plotResidualFromLog.py:124 | the line style of a clause is always between 1 and 8 |
| PlotSpec.StyleCycles | plotResiduals/plotResidualFromLog.py:124 | styles repeat every eight variables, and the first eight get styles 1 to 8 |
| PlotSpec.StyleSplit | plotResiduals/plotResidualFromLog.py:107-124 | the style block defines the styles in order, so it holds the definition of every style `s` from 1 to 8 a clause can use |
| PlotSpec.LivePreambleIgnoresOutput | plotResiduals/plotResidualFromLog.py:95-96 | in live mode the output file plays no part in the preamble |
| PlotSpec.BatchPreambleNamesOutput | plotResiduals/plotResidualFromLog.py:97-98 | in batch mode different output files give different preambles |
| PlotSpec.TerminalNamesOutput | plotResiduals/plotResidualFromLog.py:97-98 | the batch terminal line determines the output file |
| PlotSpec.ScriptDependsOnNames | plotResiduals/plotResidualFromLog.py:94-127 | the script depends on the parse only through the plotted names, not on times or values |
| PlotSpec.SameColumns | plotResiduals/plotResidualFromLog.py:74-78 | two parses with the same plotted names have the same columns |
| PlotSpec.SamePlottedKeys | plotResiduals/plotResidualFromLog.py:74 | two parses with the same plotted names keep the same variables |
| PlotSpec.SeriesFull | plotResiduals/plotResidualFromLog.py:34-66 | a variable reported in every step has one value per step, the `i`-th from step `i` |
| PlotSpec.TableMatchesSteps | plotResiduals/plotResidualFromLog.py:33-91 | when every plotted variable is reported in every step, row `i` holds step `i`'s time and the values reported in step `i` |
| PlotSpec.ShiftedValue | plotResiduals/plotResidualFromLog.py:88 | a variable first reported in step 2 of 2 has that value in row 0 and `NaN` in row 1 |
| LiveMonitor.Monitoring | plotResiduals/plotResidualFromLog.py:147-215 | the loop produces the events and the error of `RunMonitor` from the initial variables |
| LiveMonitor.PollOnce | plotResiduals/plotResidualFromLog.py:154-198 | one pass of the loop body computes `PollStep`: the new variables and events, or the parse error with the process untouched |
| LiveMonitor.SendPlot | plotResiduals/plotResidualFromLog.py:166-196 | the refresh part of the body computes `Refreshed` |
| LiveMonitor.UnchangedSizeIdle | plotResiduals/plotResidualFromLog.py:154-156 | an unchanged size causes no parse and no event, and changes nothing |
| LiveMonitor.NoDataKeepsSize | plotResiduals/plotResidualFromLog.py:160-198 | a changed log without time steps changes nothing, so `last_size` stays and the next poll parses again |
| LiveMonitor.ParseErrorStops | plotResiduals/plotResidualFromLog.py:160-215 | a log that does not parse ends the loop with that error, after closing the process |
| LiveMonitor.RefreshOnData | plotResiduals/plotResidualFromLog.py:156-196 | a changed log with time steps is refreshed for its parse |
| LiveMonitor.Refresh | plotResiduals/plotResidualFromLog.py:166-196 | the files are written; a process is started on the first plot; exactly one process gets the script, the running one if alive and a fresh one otherwise; `last_size` becomes the size |
| LiveMonitor.StepConsistent | plotResiduals/plotResidualFromLog.py:147-198 | after every poll a process exists exactly when the first plot is done, and process names only grow |
| LiveMonitor.RefreshConsistent | plotResiduals/plotResidualFromLog.py:166-196 | a refresh keeps that relation and never lowers the next process name |
| LiveMonitor.RefreshProtocol | plotResiduals/plotResidualFromLog.py:166-196 | the events of one refresh follow the protocol from the old variables to the new ones |
| LiveMonitor.StepProtocol | plotResiduals/plotResidualFromLog.py:154-198 | so do the events of one pass of the loop |
| LiveMonitor.MonitorProtocol | plotResiduals/plotResidualFromLog.py:152-215 | every run starts processes under consecutive names, sends scripts only to the latest one, and closes only the latest one, as the last event |
| LiveMonitor.MonitoringProtocol | plotResiduals/plotResidualFromLog.py:147-215 | the monitoring loop from its start follows that protocol |
| LiveMonitor.ShutdownProtocol | plotResiduals/plotResidualFromLog.py:203-215 | what the handlers do follows the protocol: at most one close, and only of the latest process |
| LiveMonitor.IdleRun | plotResiduals/plotResidualFromLog.py:154-208 | polls that all see the plotted size cause nothing but the shutdown |
| LiveMonitor.LiveScriptAnyOutput | plotResiduals/plotResidualFromLog.py:166 | the live script does not depend on the output file left at its default |
| LiveMonitor.SameLiveScript | plotResiduals/plotResidualFromLog.py:166 | the live script is the same for two parses with the same plotted names |
| LiveMonitor.CommandsDependOnNames | plotResiduals/plotResidualFromLog.py:179-193 | the commands sent after two parses with the same plotted names are the same: new data reaches gnuplot through the data file only |

## Left out

- File I/O is left out: opening and reading the log, writing `residuals.dat` and `plot_residuals.gp`, and reading the script back. The log is a sequence of lines, each with its line break if it has one. The files are the texts `PlotSpec.DataFile` and `PlotSpec.Script`, and `LiveMonitor.Files` and `LiveMonitor.Commands` give them for an event.
- `os.path.join`, `abspath` and `dirname` are left out. The data file's path as the script names it is the parameter `dataPath`.
- Number formatting with `:.6e` is left out. It is the parameter `fmt`, applied to the matched token. Floating-point values are never computed.
- `float()` is modelled as a check on the token's text, not as a conversion. Non-ASCII digits, which Python also accepts, are left out. `\w` is modelled as ASCII letters, digits and `_`; Python's Unicode word characters are not part of this model.
- Process control is replaced by events (`Spawned`, `Fed`, `Closed`): `Popen`, writing to and flushing standard input, `terminate`, `wait`. Whether `poll()` finds the process running is an input of each poll.
- `time.sleep`, `time.strftime` and every `print` are left out. They do not affect the state.
- The endless loop is modelled as a finite sequence of polls. Its end stands for `KeyboardInterrupt`.
- An `Exception` raised other than by parsing is left out, for example `getsize` on a missing file.
- The model reads the size and the lines in one poll, so a log that grows between `getsize` and the parse is not modelled.
- Events carry the parse instead of the written texts. The texts follow from the parse through `Files` and `Commands`.
- `main` is left out: argument parsing, `--interval`, exit codes, and the one-shot batch path that calls the parser and the writer once.
- MonitorProtocol: events name processes by the order in which they were started. Process identity beyond that is not modelled.
