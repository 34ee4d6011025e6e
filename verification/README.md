# lleh — a verified model of a small Unix shell's command engine

The shell reads one line at a time. It cuts the line into commands at `;`,
ignores everything from the first `#`, newline or string terminator on, and
splits each command into whitespace-separated words. The commands go into a
first-in first-out list. The shell then runs the list dry:
- `exit` asks the shell to stop once the line has been handled;
- `mode` shows or stages the execution mode (sequential or parallel);
- any other command starts a program.

A program's name is first tried as given, then as `dir/name` for each
directory listed on the first line of the configuration file. In sequential
mode the shell waits for each program before taking the next command. At the
end of the line it waits for every child, then either stops or puts the
staged mode in force for the next line.

The model has one module per part of the engine:

- `Tokenizer` (tokenizer.dfy): `tokenify`. The specification `Tokens` reads
  the maximal runs of non-whitespace characters off at their start
  positions. `MarkTokens` is the backward pass, which records each run's
  length at its start in an array. `Tokenify` is that pass followed by the
  forward copy loop, and is proved to return exactly `Tokens`.
- `Queue` (queue.dfy): the linked command list as a class holding a
  sequence of token lists, with `Append`, `Pop`, `Free` and `Head`.
- `Splitter` (commands.dfy): `commandify`. `Commands` is the specification:
  the tokens of each `;`-separated segment before the first stop character,
  with empty segments dropped. The method `Commandify` is the i/j scanning
  loop and is proved to append exactly `Commands(s)` to the queue.
- `CommandLaws` (command_laws.dfy): what the splitting promises. It covers
  the split/join round trip, comments being ignored, order under `;`, blank
  segments, and the shape of every command.
- `Modes` (modes.dfy): `mode_set` as a pure decision that returns the next
  mode and what the command prints.
- `PathSearch` (path_search.dfy): the child's path-search loop, over an
  abstract existence test `present`.
- `ShellLoop` (shell.dfy): one cycle of `main` and the loop over cycles. The
  pure functions `Dispatch` (one line's commands) and `Session` (a run over
  lines) are the specifications. The class `Shell` holds the variables
  `main` updates (`parallel_mode`, `next_parallel_mode`, `exit_flag`, the
  list), and its methods are proved against those functions.

C strings are `seq<char>`. `CLength` plays the part of `strlen`. The
scanner treats the end of the sequence like the terminator. `isspace` is
the C-locale one: space and `'\t'` to `'\r'`.

This revision is simpler than a full job-control shell:
- It has no background-job records: no `jobs`, `pause`
  or `resume` (main.c:243-248 are commented out) and never blocks `exit` or
  `mode` while children run.
- The end of each line is a blocking wait for all children (main.c:291).
- A command whose name is found nowhere is not skipped. The child still
  calls `execv` on the bare name (main.c:272-278), so the model records a
  launch with `found == false` and `argv[0]` unchanged.

In one place the model departs from the code: a line is trimmed by removing
its newline, not by dropping the character before the first NUL as
main.c:224-225 does (see "Findings" and "Left out").

## Model

| member | source | states |
|---|---|---|
| Tokenizer.CLength | main.c:40 | the length is the index of the first NUL, or the whole string when there is none |
| Tokenizer.RunLen | main.c:50-57 | the run starting at k has no whitespace and ends at whitespace or at the end of the string |
| Tokenizer.BackwardStep | main.c:50-56 | one backward step: the pending run length grows by one on a non-space and restarts after a token start |
| Tokenizer.MarkTokens | main.c:43-62 | after the backward pass, the flag array holds each token's length at its start and 0 elsewhere, and the count is the number of token starts |
| Tokenizer.Tokenify | main.c:39-84 | the result is exactly the maximal non-whitespace runs of the string up to its first NUL, in order, and there are as many as token starts |
| Tokenizer.CopyTokens | main.c:64-79 | given the marks of the backward pass, the forward pass copies out exactly the tokens, in order |
| Tokenizer.NextStart | main.c:71 | the skip over unmarked positions stops at the next token start, passing no token |
| Tokenizer.CountStartsCountsTokens | main.c:44-56 | the number of tokens equals the number of token starts (maximal runs) |
| Tokenizer.TokensWellFormed | main.c:70-77 | every token is non-empty and contains no whitespace |
| Tokenizer.TokensFromLine | main.c:75 | every character of a token is a character of the line |
| Tokenizer.BlankHasNoTokens | main.c:44-79 | an empty or all-whitespace string has no tokens |
| Tokenizer.WordIsOneToken | main.c:48-77 | a non-empty string without whitespace is exactly one token, itself |
| Tokenizer.TokensSplitAtSpace | main.c:50-53 | tokens never span whitespace: the tokens of a, a space, then b are those of a followed by those of b |
| Tokenizer.ConcatTokens | main.c:48-77 | concatenating the tokens gives the line's non-whitespace characters in order |
| Queue.CommandQueue.constructor | main.c:215 | the list starts empty |
| Queue.CommandQueue.Head | main.c:235 | the head command is the first entry and is not empty |
| Queue.CommandQueue.Append | main.c:119-138 | an empty token list leaves the list unchanged; otherwise exactly one entry is added at the tail and earlier entries stay |
| Queue.CommandQueue.Pop | main.c:156-165 | on a non-empty list it returns true and removes exactly the head; on an empty list it returns false and changes nothing |
| Queue.CommandQueue.Free | main.c:150-152 | popping until failure leaves the list empty |
| Splitter.Stop | main.c:94-102 | scanning stops at the first '#', newline or NUL, or at the end |
| Splitter.SegmentTokens | main.c:95-97 | a segment before the stop holds no NUL, so tokenizing it gives its tokens; a segment that is not tokenized has none |
| Splitter.ScanStep | main.c:94-103 | reading one character advances the segment start and the closed segments as the scan over the whole line does |
| Splitter.Commandify | main.c:90-105 | the queue afterwards is its old entries followed by the commands of the line: one per `;`-segment before the stop that has tokens, in order |
| CommandLaws.SplitJoin | main.c:94-101 | rejoining the segments with ';' gives back the line, and no segment holds a ';' |
| CommandLaws.JoinSplit | main.c:94-101 | segments without ';' are recovered by splitting their join |
| CommandLaws.PrefixPastStop | main.c:94-102 | cutting a line anywhere at or after its first stop character leaves its commands unchanged |
| CommandLaws.CommentIgnored | main.c:94-102 | whatever follows the first '#', newline or NUL does not change the commands |
| CommandLaws.CommandsAppend | main.c:94-100 | for a line without stop characters before a ';', the commands of a;b are those of a followed by those of b |
| CommandLaws.SingleCommand | main.c:94-97 | a line with no ';' and no stop character gives its tokens as one command, or nothing when blank |
| CommandLaws.NothingButBlanks | main.c:95-97 | a line of whitespace and ';' only, such as ";;", gives no command |
| CommandLaws.CommandsWellFormed | main.c:94-97 | every command is non-empty and every word is non-empty, without whitespace, ';', '#', newline or NUL |
| Modes.NamedMode | main.c:182-189 | "sequential" and "s" name sequential mode, "parallel" and "p" parallel mode, nothing else names a mode |
| Modes.ModeSet | main.c:168-194 | no argument shows the current mode; more than one argument, or one unknown argument, reports it; in those cases the mode stays; one recognised argument selects the mode it names, silently |
| Modes.SelectIsAbsolute | main.c:182-189 | `mode <name>` selects the named mode whatever the current one, and repeating it changes nothing |
| Modes.ChangeNeedsOneName | main.c:168-194 | the mode changes exactly when there is one argument naming the other mode |
| PathSearch.Candidates | main.c:256-268 | the paths tried are the name, then dir/name for each directory in order |
| PathSearch.FirstExisting | main.c:259-261 | the index found is of an existing path with none before it, and none is found only when no path exists |
| PathSearch.Resolve | main.c:256-276 | the command is the first existing candidate and found is true, or the bare name and found is false when no candidate exists |
| PathSearch.ExistingNameIsKept | main.c:259-261 | a name that exists as given is used unchanged |
| PathSearch.FirstDirectoryWins | main.c:259-275 | otherwise the result is dir/name for the first directory where it exists |
| PathSearch.NotFoundKeepsName | main.c:259-276 | with no directories, or none holding the name, the name is left unchanged and nothing is found |
| ShellLoop.Start | main.c:251-278 | a started program keeps its arguments and runs under the given mode; its name becomes the path the search settles on, and it counts as found exactly when some candidate exists, in which case that path exists; otherwise the name is kept |
| ShellLoop.Dispatch | main.c:234-290 | an exit asked for stays asked for through the rest of the line |
| ShellLoop.TrimsAgreeOnWholeLines | main.c:223-226 | when the character before the first NUL is a newline, trimming as the code does queues the same commands as the untrimmed line and as the corrected trim |
| ShellLoop.TrimAsWrittenStopsAtNul | main.c:224-225 | the code counts the line only up to its first NUL, so "ab\0c\n" is queued as "a", where the corrected trim queues "ab" |
| ShellLoop.TrimKeepsCommands | main.c:224-226 | removing the newline does not change the commands queued |
| ShellLoop.TrimAsWrittenLosesCharacter | main.c:224-226 | a final line "ls" without a newline is queued as "l" by the code as written, and as "ls" after the corrected trim |
| ShellLoop.OneWordLine | main.c:226 | a one-word line queues one command of that word |
| ShellLoop.LineCommands | main.c:223-230 | every command a cycle runs is non-empty |
| ShellLoop.Session | main.c:217-299 | a run over n lines ends after between 1 and n + 1 cycles |
| ShellLoop.ParsePath | main.c:27-35 | the search directories are the tokens of the configuration's first line, or none without it |
| ShellLoop.Shell.constructor | main.c:198-215 | the shell starts with an empty list, sequential mode, nothing staged and no exit pending |
| ShellLoop.Shell.Execute | main.c:235-289 | the head command is run as one dispatch step and popped |
| ShellLoop.Shell.Drain | main.c:234-290 | the list is emptied, and the flags, launches and notices become those of dispatching the queued commands in order |
| ShellLoop.Shell.Cycle | main.c:218-298 | one cycle: the launches and notices are the cycle's dispatch; the shell stops exactly when it asks for an exit; otherwise the staged mode is put in force and the list is empty |
| ShellLoop.Shell.Run | main.c:217-299 | running over the given lines produces the launches, notices and number of cycles of the session |
| ShellLoop.LaunchesUseCycleMode | main.c:234-298 | every program a cycle starts runs under the mode in force when the cycle began, even after a `mode` command on the same line |
| ShellLoop.ExitRequested | main.c:228-296 | a cycle ends the shell exactly when input ended, an exit was pending, or some command of the line is `exit` |
| ShellLoop.NoModeCommandKeepsStaged | main.c:239-298 | without a `mode` command the staged mode stays as it was |
| ShellLoop.LastModeCommandWins | main.c:239-298 | the staged mode is what the line's last `mode` command decides, judged against the mode in force for the cycle |
| ShellLoop.LaunchesAreThePrograms | main.c:234-290 | the programs started are exactly the commands that are not built-ins, in order |
| ShellLoop.ExitRunsTheRest | main.c:234-296 | an `exit` does not cut the line short: the commands after it still start, and the shell then stops |
| ShellLoop.SequentialWithoutModeCommands | main.c:210-298 | when no line holds a `mode` command, every program runs sequentially |
| ShellLoop.RunsToEndOfInput | main.c:223-296 | without an `exit` on any line, the shell reads every line and stops at the end of input |

## Left out

- Process control (`fork`, `execv`, `wait`, `waitpid` and the reaping loop at main.c:291) is outside the model. A started program is a `Launch` record. The record holds the argument vector, whether the path was found, and the mode, which decides whether the shell waited for that child.
- The file system is outside the model. `stat` becomes the predicate `present`, which is fixed for a cycle and for a run.
- Reading input and the configuration file is outside the model. This covers `fgets`, `fopen`, the `shell-config` existence check and the 1024- and 1000-byte buffer limits. A cycle takes the line read (or `None` at the end of input), and startup takes the configuration's first line.
- Output is recorded, not printed. The prompt and `error_print_tokens` are left out. What `mode` prints is kept as `Notice` values.
- The child's failure path after a failed `execv` (main.c:278-283) is left out. That path prints, frees and exits the child.
- Memory management (`malloc`, `free`, `strndup`, `free_tokens`) is left out. This includes `free_tokens` on a missing search list at exit (main.c:294).
- ShellLoop.TrimAsWritten: takes only lines with at least one character before the first NUL, because on a line starting with a NUL byte the code writes before the buffer.
- ShellLoop.Shell.Cycle: trims the line with the corrected `Trim` of the Findings row, not as main.c:224-225 does; the two queue the same commands whenever the character before the first NUL is a newline (`TrimsAgreeOnWholeLines`), and differ on a last line without a newline, a line cut at 1023 bytes, or a line holding a NUL byte.
- ShellLoop.LineCommands: takes the commands of the line under the corrected trim, as `Cycle` does.
- ShellLoop.Session: runs each line through `LineCommands`, so it follows the corrected trim too.
- ShellLoop.Shell.Run: follows the corrected trim, through `Cycle`.
- Background jobs are left out: `jobs`, `pause`, `resume` and the `process` record at list.h:11-16. They are commented out or unused in this revision.
- Integer widths are not modelled. Token lengths and counts are bounded by the 1024-byte line, so the `int` counters of `tokenify` cannot overflow.

## Findings

| source | as written | input that shows it | evidently intended | confidence | as-written member | corrected member |
|---|---|---|---|---|---|---|
| main.c:224-225 | the character just before the first NUL of every line read (its last character) is overwritten with the terminator | a final line `ls` with no trailing newline before end of input is run as `l` | remove only the trailing newline | high; not executed | ShellLoop.TrimAsWrittenLosesCharacter | ShellLoop.TrimKeepsCommands |
