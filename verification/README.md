# Process monitor: pipeline tokeniser, signal names and exec-failure hints

This project is a Dafny model of the pure core of `monitor`, the process-monitor utility in
`A/Assignment1.c`. The monitor is started as `monitor cmd args… [! cmd args…]…`. It copies
its arguments (without the program name) into a command vector and treats every argument
that is exactly `"!"` as a pipe between two commands. Then it does one of three things:

- With no pipe, it runs the vector directly.
- With exactly one pipe, it splits the vector at that pipe into a producer half and a
  consumer half.
- With two or more pipes, it cuts the vector into a table of segments, one row per
  command of the chain.

When a child it waits for is killed by a signal, the monitor reports the signal number and
a name. For the direct command and the stages of a chain the name comes from a fixed table
(`sigcodeConv`). For the producer of a single pipe it comes from the C library's
`strsignal`. When `execvp` returns, so the command could not be started, the process that
called it (a child, or the monitor itself for the consumer of a single pipe) prints a hint that depends on the first character of the program word. The producer of a single
pipe is the exception: there the parent prints the hint after waiting, whenever the
producer exited with a non-zero code, whether or not it started.

The model is split into modules that follow those pieces:

- `Tokens` (`tokens.dfy`) holds the pipe token, the pipe count (the number of `"!"`
  tokens, read as a multiset multiplicity), and the scan for the first pipe. It has the counting loop of `commandWithPipe` and the dispatch scan of `do_cmd`.
- `Segments` (`segments.dfy`) holds segmentation at pipes (`Split`) and its inverse
  (`Join`), plus the single-pipe split at the first `"!"`.
- `Argv` (`argv.dfy`) models argument vectors as the cells written so far: `Arg(s)` for a
  string, `Null` for a null pointer. `ExecArgs` models what `execvp` reads from such a
  vector. This module also has the single-pipe buffers and the 100 × 100 multi-pipe table.
- `Signals` (`signals.dfy`) holds `sigcodeConv` and its inverse.
- `ExecErrors` (`exec_errors.dfy`) holds the exec-failure hint rule and the single-pipe producer's hint, as written and corrected.
- `Monitor` (`monitor.dfy`) holds `main` (building the command vector), `do_cmd` and
  `commandWithPipe` (choosing the plan and building every vector handed to `execvp`).
- `Scenarios` (`scenarios.dfy`) works concrete command lines through the model.
- `Wrappers` (`wrappers.dfy`) holds `Option`.

Conventions:

- A C buffer is modelled by its written prefix, in index order. Reading past the written
  prefix before reaching a null pointer has no defined result. `ExecArgs` returns `None`
  in that case.
- The global `command` array is zero-initialised, so its unused cells are null pointers.
- Fixed capacities are preconditions, because the source does not check them:
  - the 1000-cell `command` array (`MaxArgs`);
  - the `mulcmd[100][100]` table (`FitsTable`).

## Model

| member | source | states |
|---|---|---|
| Tokens.PipeCount | A/Assignment1.c:73-78 | the number of `"!"` tokens never exceeds the number of tokens, and it is zero exactly when no token is `"!"` |
| Tokens.CountPipes | A/Assignment1.c:73-78 | the counting loop returns exactly the number of tokens equal to `"!"` |
| Tokens.FirstPipe | A/Assignment1.c:84-86 | the scan stops at a `"!"` with no `"!"` before it, or runs to the end exactly when there is no `"!"` |
| Tokens.ScanForPipe | A/Assignment1.c:325-330 | the pipe handler is entered exactly when the pipe count is at least one, and the scan stops at the first `"!"` |
| Segments.SplitShape | A/Assignment1.c:195-205 | cutting at pipes yields exactly pipe count + 1 segments, and none of them contains `"!"` |
| Segments.JoinSplit | A/Assignment1.c:195-205 | joining the segments with `"!"` reproduces the original token vector |
| Segments.SplitJoin | A/Assignment1.c:195-205 | splitting the `"!"`-join of one or more pipe-free segments (empty ones included) gives back exactly those segments |
| Segments.SplitAppendPlain | A/Assignment1.c:198-205 | appending pipe-free tokens only extends the last segment |
| Segments.SplitSnocPipe | A/Assignment1.c:199-203 | one more `"!"` closes the current segment and opens an empty one |
| Segments.SplitSnocToken | A/Assignment1.c:204 | one more ordinary token is appended to the current segment |
| Segments.PipeFreeIsOneSegment | A/Assignment1.c:195-205 | a vector without `"!"` is a single segment |
| Segments.JoinPipeCount | A/Assignment1.c:195-205 | the join of n pipe-free segments holds exactly n − 1 pipes |
| Segments.SplitAtFirstPipe | A/Assignment1.c:84-96 | left ++ `["!"]` ++ right is the vector, the left half has no `"!"`, the right half has length argnum − 1 − j, and with one pipe the right half has no `"!"` either |
| Segments.SplitAtFirstPipeUnique | A/Assignment1.c:84-86 | any pipe-free prefix followed by `"!"` is the left half of the single-pipe split |
| Segments.OnePipeHalvesAreSegments | A/Assignment1.c:81-96 | with exactly one pipe, the two halves are the two segments of the vector |
| Segments.SplitPrefixGrows | A/Assignment1.c:198-205 | during the left-to-right build, closed segments are final and the open segment is a prefix of its final value |
| Argv.ExecArgs | A/Assignment1.c:122 | `execvp` reads a defined argument list exactly when a null lies in the written cells, and the list stops right before the first null |
| Argv.ExecArgsReadsPrefix | A/Assignment1.c:122 | every argument read is the string written in the cell at the same position |
| Argv.ExecArgsTerminated | A/Assignment1.c:346 | reading a vector of tokens followed by a null gives back exactly those tokens |
| Argv.FillPipeHalves | A/Assignment1.c:84-96 | `outputBuf` holds the tokens before the first `"!"` and `inputBuf` the tokens after it, together one cell fewer than the vector, and no null is written into either |
| Argv.CopyCells | A/Assignment1.c:88-95 | the copy loop writes exactly the `count` tokens starting at `from`, and no null, so the copy has no defined `execvp` read |
| Argv.TerminatedHalves | A/Assignment1.c:88-96 | corrected single-pipe buffers: `execvp` reads exactly the left half and exactly the right half |
| Argv.TableWriteInBounds | A/Assignment1.c:195-205 | when the segments fit the 100 × 100 table, every cell the loop writes lies inside it |
| Argv.PrefixPipe | A/Assignment1.c:199-202 | a `"!"` read by the table loop closes the current row's segment and opens an empty one |
| Argv.PrefixToken | A/Assignment1.c:204 | any other token read by the table loop is appended to the current row's segment |
| Argv.RowsMatchPipe | A/Assignment1.c:199-202 | writing a null into the current row and moving to the next keeps the rows equal to the segments read so far |
| Argv.RowsMatchToken | A/Assignment1.c:204 | writing a token into the current row keeps the rows equal to the segments read so far |
| Argv.RowsMatchReadBack | A/Assignment1.c:195-205 | rows that match the segments read back as those segments, except the open last row, which has no defined read; fitting segments give rows inside the table |
| Argv.FillTable | A/Assignment1.c:195-205 | the table has pipe count + 1 rows within 100 × 100; every row but the last is its segment plus a null and reads back as that segment; the last row has no null |
| Argv.TerminatedTable | A/Assignment1.c:195-205 | corrected table: every row, the last included, reads back as its segment |
| Signals.SignalName | A/Assignment1.c:32-68 | a name is defined exactly for codes 1..31, and each such name starts with "SIG" |
| Signals.CodeFrom | A/Assignment1.c:32-68 | a code found by searching upward from `from` lies in `from`..31 and carries the given name |
| Signals.SignalCode | A/Assignment1.c:32-68 | a code found for a name is one whose table entry is that name |
| Signals.CodeFromFinds | A/Assignment1.c:32-68 | an upward search from any code at or below `sig` finds `sig` by its name |
| Signals.SignalCodeRoundTrip | A/Assignment1.c:32-68 | every code 1..31 is recovered from its printed name |
| Signals.SignalLabel | A/Assignment1.c:32-68 | corrected `sigcodeConv`: the table name for 1..31, otherwise "Unknown signal code", which is no code's name |
| ExecErrors.Classify | A/Assignment1.c:347-353 | the test on the word's first byte gives "No such file or directory" exactly when the word names a path (non-empty, first character '.' or '/'), otherwise "Not a basic linux command"; an empty word, whose first byte is the terminating NUL, gets the latter |
| ExecErrors.ClassifyFirstCharOnly | A/Assignment1.c:246-252 | two words with the same first character get the same hint |
| ExecErrors.QualifiedWordIsPath | A/Assignment1.c:289-295 | any word prefixed with "./" or "/" gets the missing-file hint |
| ExecErrors.HintLines | A/Assignment1.c:173-179 | the printed lines determine the hint: the debug-hint line appears exactly for the missing-file hint, and that hint is the only one printed as two lines |
| ExecErrors.PrintedHintForWord | A/Assignment1.c:346-353 | a word given by path prints "No such file or directory" followed by the debug-hint line; any other word prints "Not a basic linux command" alone |
| ExecErrors.ProducerHint | A/Assignment1.c:139-150 | for the single-pipe producer, a hint is printed exactly when the producer exited (not when a signal killed it) with a non-zero code, and it is the hint for its program word |
| ExecErrors.ChildStatus | A/Assignment1.c:122-126 | the parent sees exit code 1 exactly for a producer whose `execvp` failed (it calls `exit(1)`) or that ran and returned 1; a producer that ran ends with its own status |
| ExecErrors.RanProducerGetsStartHint | A/Assignment1.c:139-150 | a producer that ran and exited with code 1 gets the same hint as one that failed to start: the start-failure hint for its word |
| ExecErrors.StartHintAgrees | A/Assignment1.c:139-150 | corrected producer hint (exactly when `execvp` failed): it differs from the hint as written exactly for producers that ran and exited with a non-zero code |
| Monitor.WrittenTokensIsRead | A/Assignment1.c:346 | the tokens before the first null of a vector are what `execvp` reads whenever that read is defined |
| Monitor.TokensOfArgs | A/Assignment1.c:386-390 | tokens written into cells and followed only by nulls read back unchanged |
| Monitor.CommandArray | A/Assignment1.c:386-390 | the global command array has 1000 cells and holds the tokens; `execvp` reads exactly the tokens when fewer than 1000 were copied, otherwise it reads past the array |
| Monitor.FullCommandUnterminated | A/Assignment1.c:384-391 | with 1000 arguments the `command` array holds all of them and no null, so `execvp` has no defined read |
| Monitor.TerminatedCommandArray | A/Assignment1.c:384-391 | corrected `command` array of 1001 cells: `execvp` reads exactly the arguments, up to 1000 of them |
| Monitor.StartMonitor | A/Assignment1.c:384-391 | the monitor exits exactly when there is no argument besides the program name; otherwise the program name followed by the command vector is the argument list |
| Monitor.DoCmd | A/Assignment1.c:321-330 | the plan is direct, one-pipe or chain exactly for 0, 1 or at least 2 pipes, and it has one argument vector per segment, holding exactly that segment's tokens; `execvp` reads the direct vector as the command when it has fewer than 1000 tokens (otherwise the read is undefined), has no defined read of either single-pipe half or of the last chain row, and reads every other chain row as its segment |
| Monitor.CommandWithPipe | A/Assignment1.c:70-205 | with one pipe the plan is the two halves and with more it is the segment table; either way one argument vector per segment, holding exactly that segment's tokens; `execvp` has no defined read of either half or of the last row, and reads every other row as its segment |
| Monitor.ChainStages | A/Assignment1.c:195-205 | each row of the segment table holds the tokens of its segment, the unterminated last row included |
| Monitor.IntendedPlan | A/Assignment1.c:321-330 | corrected plan: the same choice of plan for 0, 1 or at least 2 pipes, with one vector per segment, each reading back as its segment, for up to 1000 tokens |
| Monitor.IntendedStagesAreSegments | A/Assignment1.c:321-330 | the corrected plan writes the same tokens into each vector as the plan `do_cmd` builds: exactly the segments |
| Scenarios.SinglePipeUnterminated | A/Assignment1.c:84-96 | for `ls ! wc` the halves are `ls` and `wc`; the as-written producer vector has no defined read, and the corrected one reads `ls` |
| Scenarios.ChainLastUnterminated | A/Assignment1.c:195-205 | `ls ! sort ! wc` has three segments; the unterminated last row has no defined read, and a terminated one reads `wc` |
| Scenarios.EmptySegmentsKept | A/Assignment1.c:195-205 | a leading, doubled or trailing `"!"` gives empty segments, which are kept |
| Scenarios.RealTimeSignalUnnamed | A/Assignment1.c:32-68 | code 34 has no table name and the corrected label is "Unknown signal code"; 9 is "SIGKILL" and 15 is "SIGTERM" |

## Left out

- Process and I/O plumbing is not modelled: `fork`, `execvp`, `pipe`, `dup2`, opening, closing and removing `temp4pipes.txt`, `wait4`, and `signal(SIGINT, SIG_IGN)`. These are operating-system effects. Of `execvp`, only the reading of its argument vector is modelled (`ExecArgs`).
- Exit-status decoding is not modelled: `WIFEXITED`, `WEXITSTATUS`, `WIFSIGNALED`, `WTERMSIG` and `strsignal` are C library macros and calls. `ExecErrors.ProducerHint` takes the decoded status as `Exited(code)` or `Signaled(sig)`. The single-pipe producer's signal name from `strsignal` is not modelled.
- Timing and resource reports are not modelled: `gettimeofday`, the real-time print, and the `rusage` user/system times, page faults and context switches. These values come from the operating system, and the real-time print is a floating-point conversion.
- Printed text is not modelled, except the hint lines. The "Process with id", "terminated with returned status", "interrupted by the signal" and "monitor experienced an error" lines are not modelled.
- The sequential running of the chain stages through the temporary file is not modelled, beyond the order of the table rows.
- The threaded Jacobi solver with its semaphore barrier in `A/Assignment 2.c` is not part of this model. It is concurrency and floating-point arithmetic, and it does not belong to the monitor.
- Monitor.StartMonitor: requires at least the program name (`argc >= 1`). With `argc == 0`, the source would compute `argnum = -1` and pass an empty vector on.
- Monitor.StartMonitor: requires at most 1000 arguments after the program name, because the source copies into the 1000-cell `command` array without checking.
- Argv.FillTable: requires the segments to fit the `mulcmd[100][100]` table (at most 100 segments; every segment but the last has at most 99 tokens; the last has at most 100), because the source writes without checking. Writes outside the table are undefined behaviour and are not modelled.
- An empty segment or empty half is kept, as in the source. Its program word is then a null or uninitialised pointer, which `execvp` and the hint rule dereference. That dereference is not modelled: `ExecErrors.Classify` takes a string.
- Monitor.CommandWithPipe: requires at least one pipe. The source's fall-through for a pipe count of 0 (no return value) is not modelled, because `do_cmd` calls `commandWithPipe` only after finding a "!".

## Findings

| source | as written | input that shows it | evidently intended | confidence | as-written member | corrected member |
|---|---|---|---|---|---|---|
| A/Assignment1.c:84-96 | `outputBuf` and `inputBuf` receive the tokens on each side of the pipe but no null pointer after them; both are passed to `execvp` (lines 122 and 166), which reads uninitialised cells | `monitor ls ! wc` | each half ends with a null pointer | not executed; high | Argv.FillPipeHalves, Scenarios.SinglePipeUnterminated | Argv.TerminatedHalves |
| A/Assignment1.c:195-205 | the loop writes a null only when it meets a `"!"`, so the last row `mulcmd[pipnum]` is never terminated; it is passed to `execvp` at line 287 | `monitor ls ! sort ! wc` | the last row also ends with a null pointer | not executed; high | Argv.FillTable, Scenarios.ChainLastUnterminated | Argv.TerminatedTable |
| A/Assignment1.c:32-68 | `return "Unknown signal code"` sits in `case 31` after that case's `return`, so it cannot run; any other code falls off the end of a non-void function, and its result is used at lines 270, 311 and 369 | a child killed by signal 34 (the first real-time signal on Linux) | a `default` case returning "Unknown signal code" | not executed; high | Signals.SignalName, Scenarios.RealTimeSignalUnnamed | Signals.SignalLabel |
| A/Assignment1.c:384-391 | `command` (line 28) has 1000 cells and `main` copies up to `argc - 1` arguments into it; with 1000 arguments no null follows them, and `execvp` at line 346 reads past the array | `monitor` followed by 1000 arguments without `"!"` | a null after the last argument (one more cell) | not executed; medium | Monitor.CommandArray, Monitor.FullCommandUnterminated | Monitor.TerminatedCommandArray |
| A/Assignment1.c:139-150 | the parent prints the start-failure hint for the producer whenever it exited with a non-zero code, but a failed `execvp` and a program that ran and returned 1 both exit with code 1 | `monitor grep x ! wc` where `grep` finds no match | the hint only when `execvp` failed, as every other command has it | not executed; medium | ExecErrors.ProducerHint, ExecErrors.RanProducerGetsStartHint | ExecErrors.StartHint, ExecErrors.StartHintAgrees |

`Monitor.IntendedPlan` puts the corrected vectors together into the plan `do_cmd` evidently meant to build.
