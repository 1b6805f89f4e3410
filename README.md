# msh job control, modelled in Dafny

msh is a small interactive shell written in C (`msh.c`). It expands `$?`, `$$`
and `$SHELL` in each input line. It splits the line on `|` into stages and each
stage on blanks into words. It runs `exit`, `cd`, `fg` and `bg` itself and
forks a child for every other stage, wiring neighbouring stages together with
pipes. It then either waits for the stages or records the last one as a
background job. Its job table is a fixed array of 20 entries. Each entry holds a
pid, a command text and a state, Running or Stopped. A `SIGCHLD` handler reaps
background children that exited or were killed, announces them as `Done` and
takes them out of the table.

The model has two layers:

- **Values.** Modules `Jobs`, `Control`, `Pipeline` and `Expansion` hold
  functions that say what each operation does to the shell's state. That state
  is the job table, `foreground_pid` and `last_exit_status`. Lemmas about these
  functions state what msh promises:
  - the table keeps distinct pids and stays within capacity;
  - `fg` and `bg` move exactly one job;
  - only the last stage's status counts;
  - the reaper announces exactly the jobs it removes;
  - the started stages form a chain of pipes;
  - `$?` expansion and `atoi` read a printed number back.
- **Imperative code.** The class `Shell.Shell` keeps the table in an
  `array<Job>` with a count, as msh does. Each C function is a method with the
  same loops, proved to leave the state the value-level function prescribes.
  The two `strtok` passes are methods over a character buffer
  (`CStrings.Strtok`, `CStrings.CollectTokens`, `Pipeline.SplitLine`). They
  write NULs into the line exactly as the C library does. That is how the model
  shows what text the job table really records.

Everything the kernel answers is a parameter (`Control.Kernel`, a `StatusWord`,
a batch of `Report`s): the result of `chdir`, `pipe` and `fork`, the statuses
`waitpid` stores, and the children the `SIGCHLD` handler reaps.

## Model

| member | source | states |
|---|---|---|
| Shell.Shell.constructor | msh.c:18-31 | At start-up the table is empty, there is no foreground pid and `$?` is 0; the shell's pid and path are the given ones. |
| Shell.Shell.AddJob | msh.c:36-46 | With room, the entry is appended and everything before it is kept. A full table is left as it is. A Running entry is announced as `[count] pid`, nothing else is announced. The foreground pid and `$?` do not change. |
| Shell.Shell.RemoveJob | msh.c:49-60 | The table becomes `Removed(old table, pid)`: the first entry holding the pid is deleted and the rest keep their order. An untracked pid changes nothing. |
| Shell.Shell.ShiftLeft | msh.c:53-55 | The inner shift loop leaves entries `0..i-1` and `i+1..` of the old table, in order, in the first `count-1` cells. |
| Shell.Shell.FindJobByPid | msh.c:63-68 | Returns the least index holding the pid, or -1 exactly when no entry holds it. |
| Jobs.IndexOf | msh.c:63-68 | The result is -1 iff the pid is untracked. Otherwise it holds the pid and no earlier entry does. |
| Jobs.RemovedShiftsLeft | msh.c:49-60 | Deleting a tracked pid shortens the table by one. Entries before it stay in place, later ones move one place left. An untracked pid leaves the table unchanged. |
| Jobs.RemovedMultiset | msh.c:49-60 | Deleting takes exactly one entry with that pid out of the multiset of entries, or nothing when the pid is untracked. |
| Jobs.RemovedForgetsPid | msh.c:49-60 | With distinct pids, no entry holds the pid after deletion and pids stay distinct. |
| Jobs.AppendedKeepsDistinct | msh.c:36-46 | Appending an untracked pid keeps pids distinct. |
| Shell.Shell.ReapOne | msh.c:97-115 | For one reaped child: a report about the foreground pid is ignored. A tracked background job that exited or was killed is announced `\n[i]+  Done\t\tcmd\n` and removed. Any other report changes nothing. |
| Shell.Shell.HandleSigchld | msh.c:91-117 | After a batch of reports, handled in order, the table is `AfterReports` of the old one and the notices are exactly `DoneNotices`. The foreground pid and `$?` do not change. |
| Jobs.ReportEndsJob | msh.c:103-108 | A terminal report for a background pid leaves no entry for it. |
| Jobs.AfterReportShrinks | msh.c:103-108 | Handling a report only deletes entries, and keeps pids distinct. |
| Jobs.AfterReportsShrinks | msh.c:96-116 | A whole batch only deletes entries, and keeps pids distinct. |
| Jobs.AfterReportsNeverAdds | msh.c:96-116 | Reaping never brings an untracked pid into the table. |
| Jobs.AfterReportsReapsAll | msh.c:96-116 | Every background pid reported as exited or killed anywhere in the batch is gone afterwards. |
| Jobs.ForegroundReportsIgnored | msh.c:97-100 | Reports about the foreground pid leave the table untouched. |
| Jobs.DoneNoticesCount | msh.c:104-107 | The number of `Done` notices plus the entries left equals the entries before: a notice is printed for each removal. |
| Jobs.ReportNoticeNames | msh.c:103-107 | A `Done` notice names the job it ends, by its 1-based index and its command. That report shrinks the table by one. |
| WaitStatus.AtMostOneOutcome | msh.c:105 | A status word satisfies at most one of `WIFEXITED`, `WIFSIGNALED` and `WIFSTOPPED`. |
| WaitStatus.DecodeEncode | msh.c:384-388 | The macros decode the word the kernel builds for an exit, a kill or a stop as exactly that change. An exit gives back its code and a kill its signal, with `WEXITSTATUS` 0. |
| Shell.Shell.ExecCd | msh.c:121-132 | Without an argument it prints the complaint and changes nothing. Otherwise `$?` becomes 0 when `chdir` succeeds and 1 when it fails. |
| Shell.Shell.ExecJobs | msh.c:145-152 | Prints one line `[i] Running/Stopped cmd [pid]` per entry, in table order, and exits with 0. |
| Jobs.ListingIndex | msh.c:146-149 | Line `i` of the listing has one line per entry and starts with `[`, followed by a number that reads back as `i+1`. |
| Shell.Shell.ExecFg | msh.c:154-195 | The state and message are `FgEffect`: refuse an empty table or a missing pid; otherwise take the job out and echo its command. A stop re-appends it as Stopped; anything else makes `WEXITSTATUS` the new `$?`. The foreground pid ends as -1. |
| Shell.Shell.SelectTarget | msh.c:160-165 | Picks the last entry by default, or the entry holding `atoi(args[1])`, or -1. |
| Control.Target | msh.c:160-165 | Without an argument the target is the last entry. With one, it is the index of an entry holding `atoi(args[1])`, or -1 exactly when no entry holds that pid. |
| Shell.Shell.Resume | msh.c:172-194 | The state after `fg` on a known target is `Resumed`. |
| Shell.Shell.TakeForeground | msh.c:172-179 | Before the wait, the target leaves the table (`Removed`), its pid becomes the foreground pid, and its pid and command are kept for the echo and the wait. |
| Shell.Shell.AwaitForeground | msh.c:186-194 | After the wait there is no foreground pid. A job that stopped again is appended as Stopped and `$?` is kept; otherwise the table is kept and `$?` becomes `WEXITSTATUS`. |
| Control.FgStoppedRequeues | msh.c:172-191 | When the resumed job stops again, the table is the old one without it, followed by the job as Stopped with the same pid and command. The table stays sound and `$?` is kept. |
| Control.FgFinishedForgets | msh.c:172-194 | When the resumed job does not stop, it leaves the table for good. The table stays sound and `$?` is its exit status. |
| Control.FgDefaultStopKeepsOrder | msh.c:160-191 | `fg` without an argument on a job that stops again only marks the last entry Stopped. |
| Control.FgRefusedChangesNothing | msh.c:154-170 | A refused `fg` changes no state and prints `no current jobs` or `job not found`. |
| Shell.Shell.ExecBg | msh.c:197-219 | The state and message are `BgEffect`: refuse an empty table, a missing pid or a Running job; otherwise mark the job Running and print `[i]+ cmd &`. |
| Shell.Shell.Continue | msh.c:215-217 | On a known target the state is `Continued`: only that entry's state changes, to Running. |
| Control.BgResumesOne | msh.c:197-217 | `bg` keeps every pid, command, the foreground pid and `$?`. It either changes nothing, or the new table is the old one with only the Stopped target's state replaced by Running, so one job fewer is Stopped. It changes the table iff the target exists and is Stopped. |
| Control.BgKeepsSound | msh.c:197-217 | `bg` keeps the table sound. |
| Control.StoppedCountUpdate | msh.c:216 | Replacing one entry changes the Stopped count by the difference of the two states. |
| Shell.Shell.ExpandLine | msh.c:433 | The line passed on is the expansion under the shell's own `$?`, pid and path. |
| Expansion.ExpandVariables | msh.c:223-256 | The cursor loop over a zeroed `MAX_CMD_LEN` buffer produces exactly `Expand` of the line. |
| Expansion.NextPiece | msh.c:229-252 | One loop turn consumes a non-empty stretch of the line and writes what that stretch expands to. |
| Expansion.Append | msh.c:234-251 | Copying at the destination cursor appends the piece and moves the cursor past it. |
| Expansion.SourcesOfPieces | msh.c:228-253 | The stretches the loop consumes spell the line: nothing is skipped or read twice. |
| Expansion.ExpandByPieces | msh.c:228-253 | The expansion is the values of those stretches, in order. |
| Expansion.ExpandPlain | msh.c:250-251 | A line without `$` is unchanged. |
| Expansion.ExpandPlainPrefix | msh.c:250-251 | A stretch without `$` is copied as it is, whatever follows. |
| Expansion.ExpandExitCode | msh.c:231-236 | `$?` becomes the last exit status in decimal. |
| Expansion.ExpandShellPid | msh.c:237-242 | `$$` becomes the shell's pid in decimal. |
| Expansion.ExpandShellPath | msh.c:243-246 | `$SHELL` becomes the shell's path. |
| Expansion.ExpandLoneDollar | msh.c:247-249 | A `$` before anything else, or at the end, is kept and the next character is read normally. |
| Numerals.AtoiOfDecimal | msh.c:163 | `atoi` of a printed number followed by a non-digit gives the number back, so the pid `jobs` prints selects that job in `fg`/`bg`. |
| Numerals.DecimalInjective | msh.c:42 | Distinct numbers print differently. |
| Jobs.AddNoticeNamesPid | msh.c:42 | On the same table, two jobs announced with the same `[n] pid` notice have the same pid: distinct pids give distinct notices. |
| Numerals.DigitsValueOfDigits | msh.c:233 | The digits `%d` prints read back as the number. |
| Pipeline.FirstIndex | msh.c:262-263 | `strchr` finds the first occurrence, or -1 exactly when there is none. |
| Pipeline.Assignment | msh.c:262-268 | For `PS1...=value` the name and value passed to `setenv` are the text before and after the first `=`; the name starts with `PS1` and holds no `=`. |
| Pipeline.StripAmpersand | msh.c:271-277 | Only a final `&` marks the line background, and it is removed; the rest of the line is kept. |
| Pipeline.SplitLine | msh.c:279-308 | The two `strtok` passes give exactly the words of each of the first 64 `|`-stages, and the C string `line` then holds `JobText`. |
| Pipeline.SplitWords | msh.c:303-307 | Splitting one stage on blanks gives its fields, and writes only inside that stage. |
| CStrings.Strtok | msh.c:282 | One `strtok` call skips delimiters, returns the token start or NULL, and writes one NUL after the token. |
| CStrings.CollectTokens | msh.c:282-286 | The tokenising loop stores the first `limit` tokens. Each is afterwards its own C string, and the buffer changes only inside the string being split. |
| CStrings.FieldsAreWords | msh.c:303-307 | Every token is non-empty and holds no delimiter. |
| CStrings.FieldsConcat | msh.c:303-307 | The tokens glued together are the input with its delimiters removed. |
| CStrings.FieldsCount | msh.c:303-307 | There are no more tokens than characters. |
| Pipeline.JobTextIsFirstWord | msh.c:386-397 | The text `add_job` records for a line is its first word, preceded only by `|`s and blanks. |
| Pipeline.JobTextOfSleep | msh.c:397 | `sleep 5 &` is recorded as `sleep`. |
| Pipeline.ParentBuiltinOf | msh.c:312-327 | The shell runs a command itself iff the line has one stage and its first word is `exit`, `cd`, `fg` or `bg`. |
| Pipeline.ChildProgramOf | msh.c:329-361 | The child runs `pwd` or `jobs` itself when that is the first word; otherwise it runs `execvp` with the stage's words. |
| Pipeline.PipeConnects | msh.c:338-343 | Stage `k` writes `pipefd[2k+1]` and stage `k+1` reads `pipefd[2k]`, the two ends of pipe `k`. |
| Pipeline.SlotOwner | msh.c:288-343 | Each of the `2(n-1)` descriptors the shell opens is used by exactly one stage. |
| Pipeline.SlotsInRange | msh.c:288-343 | No stage uses a descriptor slot outside those opened. |
| Pipeline.InputSlot | msh.c:338-340 | Stage `i` reads a pipe iff it is not the first. |
| Pipeline.OutputSlot | msh.c:341-343 | Stage `i` writes a pipe iff it is not the last. |
| Shell.Shell.ExecutePipeline | msh.c:260-399 | The new state and outcome of an expanded line are `LineEffect`: an assignment, a built-in run by the shell, or the stages forked. |
| Shell.Shell.RunBuiltin | msh.c:312-327 | `exit`, `cd`, `fg` and `bg` on a one-stage line have `BuiltinEffect`. |
| Shell.Shell.RunStages | msh.c:288-398 | Pipes, forks, then the wait or the background entry, as `StagesEffect`. |
| Shell.Shell.StartStages | msh.c:299-371 | The fork loop starts exactly the stages before the first failing `fork`, each with its program and pipe slots. It reports the failure. A single foreground stage becomes the foreground pid. |
| Shell.Shell.WaitStages | msh.c:379-392 | After waiting for every stage, the state is `AfterWait` of the last stage's status. |
| Control.FirstFailure | msh.c:333-364 | The number of stages started is the length of the prefix of successful forks. |
| Control.LineKeepsSound | msh.c:260-399 | Every line keeps the table within capacity with distinct pids, given that `fork` hands out pids not in the table. |
| Control.BackgroundLineTracksLastStage | msh.c:393-398 | When the table has room, a background line whose stages all started appends the last stage's pid as Running, under the line's job text, and announces `[n] pid`. `$?` and the foreground pid do not change. |
| Control.OnlyLastStageCounts | msh.c:379-392 | The statuses of the stages before the last one never influence the result. |
| Control.ForegroundLineStatus | msh.c:379-392 | After a foreground line there is no foreground pid. `$?` changes iff the last stage exited normally, to its exit status. The table grows only when the last stage stopped. |
| Control.FailedLineChangesNothing | msh.c:288-364 | A line whose `pipe` or `fork` fails leaves the state unchanged. |
| Control.StartedStagesChain | msh.c:333-366 | The started stages form a chain: the first reads the terminal, the last writes it, and each neighbouring pair shares a pipe. Every pid is positive, and each external child runs its own stage's words. |

## Left out

- Operating-system calls (`chdir`, `pipe`, `fork`, `waitpid`, `kill`, `dup2`, `close`, `execvp`, `setenv`, `getenv`, `getcwd`, `readlink`, `getpid`) are not performed. Their answers are parameters, and the model records what the shell asks for (`Launch`, `Assigned`) rather than doing it.
- Signals and concurrency: the `SIGCHLD` handler is modelled as a method run on a given batch of reports. Its interleaving with the main loop is not modelled, in particular that it can reap a pipeline's children before the foreground wait does. The `SIGINT` and `SIGTSTP` handlers only print and are not modelled.
- Output streams: messages and notices are returned as strings, and the model does not tell `stdout` from `stderr`. The `cd` complaint (`Control.NoArgument`), which msh writes to `stderr`, is returned like the other messages. `Job list full!`, the `perror` messages, the prompt (re)printing, and the newline before a stopped job is recorded are not modelled.
- The main loop (`fgets`, newline stripping, skipping empty lines) is not modelled. `ExecutePipeline` starts from an expanded, non-empty line without NUL.
- `exec_pwd` runs in a child and depends only on `getcwd`. The model only records that the child runs it (`PrintDir`).
- `kill(pid, SIGCONT)` in `fg` and `bg` is not modelled. The status `fg`'s wait reports is a parameter.
- Integers are unbounded. The 32-bit wrap of `int`/`pid_t` and `atoi`'s undefined overflow are not modelled. Status words are the 16 bits the wait macros read.
- Shell.Shell.AddJob: `strncpy` into a 1024-byte field is not modelled. Lines are shorter than 1024 characters, so the copy never truncates.
- Expansion.ExpandVariables: requires the expansion to fit the 1024-character buffer. A longer one overflows the C buffer, which is undefined behaviour.
- Control.Handles: lines the shell handles only with undefined behaviour are excluded. These are an empty stage (`arg_count == 0` is skipped, leaving `pids` partly unset), a line with no stage at all, a stage with 64 or more words (which overruns `arg_tokens`), and `fork` returning 0, which is the child's side.
- Shell.Shell.StartStages: the shell splits stage `i` just before forking it; the model splits all stages first. No fork or built-in reads the buffer in between, so nothing observable differs.
- Shell.Shell.ExecJobs: the `jobs` built-in runs in a forked child; the model returns the listing and the exit code and leaves the shell's state alone.
- The job text differs from the documented example, whose `Done` notice shows `sleep 5 &`. The table records the C string `line` after `strtok` has written NULs into it, which is the first word of the first stage (`sleep`, not `sleep 5 &`). The model follows the code (`Pipeline.JobText`, `Pipeline.JobTextOfSleep`).
