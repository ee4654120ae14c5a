# myShell in Dafny

A model of myShell, a small interactive Unix shell written in C (`main.c`).
For each line typed at the prompt, the shell:

- splits the line into arguments. Runs of spaces separate arguments. Double quotes switch a "path" mode in which spaces are kept. The quotes themselves are dropped.
- treats a final `&` as a request to run in the background.
- runs one of:
  - the builtins `exit` and `cd`, which print the shell's pid first;
  - the `jobs` listing, which reaps finished background jobs and prints running ones;
  - an external program, whose pid is printed. A background job is recorded in a fixed table of 512 slots with a high-water mark `lastJ`. When the mark reaches the end, the table is compacted.

The project has four modules:

- `tokenizer.dfy` (`Tokenizer`): the line scan of `parseLine`.
  - The scan itself is imperative over the `'#'`-terminated buffer: `SkipBlanks`, `CopyArgument` into a fixed `array<char>`, and `Tokenize`.
  - `ScanFrom`, `SplitFrom` and `Tokens` are the pure specification it is proved against.
  - Background-marker stripping, then properties of the scan: it stops at the first `'#'`, the characters arguments may contain, and round trips from a line laid out from words back to those words, quoted spans included.
- `jobs.dfy` (`JobTable`): the job table as values.
  - Slots, the live jobs they hold, reaping with a poll oracle, and the stable compaction `compressJobs` is meant to perform.
  - What `compressJobs` actually does to the mark.
  - The line the listing prints for a job, built by the source's printing loop (`FormatJob`).
- `directory.dfy` (`Directory`): the one-slot directory history of `cd`, over a file system given as a set of existing directories and an optional `HOME`.
- `shell.dfy` (`Interpreter`): command classification, and the class `Shell`.
  - `Shell` holds the globals `jobs[]` (a fixed `array<Slot>`), `lastJ` and `curDir`, plus the process's working directory.
  - Its methods change that state: insertion, the compaction (as intended and as written), the listing with reaping, `cd`, launching a program, and the dispatch of one parsed line.
  - `Insert` compacts the table as `compressJobs` is meant to, and the dispatcher uses it. `InsertAsWritten` runs `compressJobs` as the code has it (see "## Findings").

What the operating system answers is an input of type `Env`: the shell's pid, what `fork` returns, whether `waitpid` reports a job finished, which directories exist, and `HOME`. Output to stdout and stderr is returned as a sequence of strings.

## Model

| member | source | states |
|---|---|---|
| Tokenizer.Content | main.c:167 | the scan sees exactly the text before the first `'#'`, which `readLine` (main.c:141) writes as end marker |
| Tokenizer.SkipFrom | main.c:174-176 | skipping ends at or after the start, on a non-space or at the end of the text |
| Tokenizer.SkipOver | main.c:174-176 | from a run of exactly `n` spaces followed by a non-space or the end, skipping ends just past the run: it stops at the first non-space |
| Tokenizer.ScanFrom | main.c:180-189 | an argument ends at a space outside path mode (or the end); it never holds a `"`, and a non-blank start makes progress |
| Tokenizer.SplitFrom | main.c:167-201 | the scan yields no argument exactly when nothing is left to read |
| Tokenizer.SkipBlanks | main.c:197-199 | the skip loop over the buffer stops where `SkipFrom` says, never past the `'#'` |
| Tokenizer.CopyArgument | main.c:178-192 | the copy loop fills `arg` with exactly the argument `ScanFrom` reads (quotes flip path mode and are not copied, spaces kept only in path mode), NUL-terminated within `ARG_MAX`, and stops where it does |
| Tokenizer.Tokens | main.c:166-201 | the arguments of a line are the scan of its text before the first `'#'`; there are none exactly when that text is empty |
| Tokenizer.Tokenize | main.c:166-201 | the whole scan produces exactly `Tokens(line)`, never reading past the first `'#'` and storing at most `ARGS_MAX` arguments |
| Tokenizer.StripBackground | main.c:203-209 | the background flag is set exactly when the last argument is `"&"`; that argument alone is removed, otherwise the vector is unchanged |
| Tokenizer.Request | main.c:203-209 | the request is the scanned vector with a final `&` removed, and its background flag is set exactly when the last scanned argument is `&` |
| Tokenizer.ParseLine | main.c:153-209 | the scan followed by the marker check yields exactly `Request(line)` |
| Tokenizer.ContentStopsAtSentinel | main.c:167 | text after the first `'#'` does not change what is scanned |
| Tokenizer.TokensStopAtSentinel | main.c:167-201 | text after the first `'#'` does not change the arguments |
| Tokenizer.EmptyLineNoArguments | main.c:167 | an empty line yields no argument (argc is 0) |
| Tokenizer.BlankLineOneEmptyArgument | main.c:167-194 | a line of spaces yields exactly one empty argument |
| Tokenizer.SplitAvoids | main.c:180-189 | no argument holds a quote or a character missing from the text; with no quote in the text, no argument holds a space |
| Tokenizer.TokensClean | main.c:180-189 | no argument ever holds `"` or `'#'`; with no quote on the line, no argument holds a space |
| Tokenizer.TokensOfLayout | main.c:173-200 | words without `"` or `'#'` are written as is when plain and in quotes otherwise. Separated by one or more spaces, after any leading spaces and with a `'#'` at the end, they read back as exactly those words in order |
| Tokenizer.TokensOfPlainLayout | main.c:173-200 | non-empty words without space, `"` or `'#'`, joined by one or more spaces (leading and trailing spaces allowed), read back as exactly those words |
| Tokenizer.QuotingRoundTrip | main.c:180-189 | rendered words joined by single spaces read back exactly; a quoted span keeps its spaces and loses its quotes |
| Tokenizer.QuotedSpanExample | main.c:180-189 | `echo "a b" c#` gives `["echo", "a b", "c"]` |
| Tokenizer.ForegroundLine | main.c:173-209 | plain words joined by spaces read back as those words, and run in the foreground when the last is not `&` |
| Tokenizer.BackgroundMarker | main.c:203-209 | plain words followed by a standalone `&` run in the background with exactly those words |
| Tokenizer.StripMarker | main.c:203-209 | stripping a vector ending in `&` gives the rest with the background flag set |
| Tokenizer.BackgroundExample | main.c:203-209 | `sleep 5 &` runs `["sleep", "5"]` in the background, `sleep 5` in the foreground |
| JobTable.Live | main.c:28 | the jobs the slots hold, in slot order: never more jobs than slots |
| JobTable.LiveMembers | main.c:28 | a job is live exactly when some slot holds it |
| JobTable.LiveAppend | main.c:28 | the live jobs of two tables side by side are those of each, in order |
| JobTable.Running | main.c:227-240 | the jobs still running after a poll: never more than were polled |
| JobTable.RunningMembers | main.c:227-230 | a job survives the poll exactly when it was there and its process is not finished |
| JobTable.RunningIdempotent | main.c:227-240 | a second poll with the same outcome removes nothing more |
| JobTable.ReapSlot | main.c:228-240 | a slot keeps its job exactly when the job's process is not finished, and otherwise becomes empty |
| JobTable.Reaped | main.c:227-240 | the table keeps its size; every slot keeps a running job and is cleared otherwise |
| JobTable.LiveReaped | main.c:227-240 | clearing the slots of finished jobs leaves exactly the running jobs, in slot order |
| JobTable.FirstEmpty | main.c:107-110 | the index of the first empty slot: every slot below it holds a job |
| JobTable.Compacted | main.c:92-112 | the compaction as intended keeps the number of slots (its content is stated by `CompactedKeepsJobs`) |
| JobTable.CompactedKeepsJobs | main.c:92-112 | the intended compaction keeps the table size and the live jobs in order, with the jobs at the front and only empty slots from the new mark on |
| JobTable.LiveBelowMark | main.c:227 | when no job sits at or above the mark, the jobs below it are all the jobs |
| JobTable.Visible | main.c:227 | the jobs the listing reaches for a mark: none for a mark below 1, all live jobs for a mark at the end of the table, never more than the live jobs |
| JobTable.CompressAsWrittenLosesJob | main.c:92-112 | whenever the table holds a job, the mark `compressJobs` sets leaves fewer jobs below it than the table holds |
| JobTable.FillAsWrittenHidesJobs | main.c:297-309 | when the last slot is filled on a table whose slot 0 was reaped, `compressJobs` as written sets the mark to -1: the listing reaches no job although the table holds the new one |
| JobTable.CompressExample | main.c:92-112 | `[A, NULL, B]`: as written the mark becomes 0 and no job is listed; the intended compaction gives `[A, B, NULL]` with two jobs |
| JobTable.CompactionOrderExample | main.c:92-112 | `[A, NULL, B, NULL, C]` compacts to `[A, B, C, NULL, NULL]` with mark 3 |
| JobTable.LiveInsert | main.c:303-304 | storing a job at the mark of a table with nothing at or above it appends the job to the live jobs |
| JobTable.ListingStep | main.c:227-254 | one more slot adds one printed line exactly when its job is running |
| JobTable.Decimal | main.c:245 | `%d` of a pid is a non-empty string of decimal digits |
| JobTable.DecimalValue | main.c:245 | the printed digits denote the pid |
| JobTable.Listing | main.c:227-254 | the listing prints one line per job, in order |
| JobTable.JobLine | main.c:245-252 | the line printed for a job is longer than its pid and a space, and ends in a newline |
| JobTable.FormatJob | main.c:245-252 | the printing loop writes the pid, a space, each argument but the last followed by a space, the last argument and a newline |
| JobTable.JobLineReadsBack | main.c:245-252 | a printed job line whose arguments are plain words, without its newline, reads back through the shell's own scan as the pid followed by the arguments |
| Directory.ChangeTo | main.c:41 | `chdir` moves to the target exactly when it is an existing directory, otherwise the working directory stays |
| Directory.CdStep | main.c:38-60 | `-` prints the remembered directory, keeps it and changes to it; `~` remembers the old working directory and changes to `HOME` when it is set; a regular argument remembers the old working directory and changes to it; an error is reported exactly for a regular argument that is not a directory |
| Directory.CdDashGoesBack | main.c:40-44 | `cd -` goes to the remembered directory when it exists, and otherwise stays put |
| Directory.CdDashTwice | main.c:40-44 | two consecutive `cd -` land in the same place, the remembered directory when it exists, and leave the remembered directory as it was |
| Directory.CdThenDash | main.c:40-59 | after a successful `cd d`, `cd -` returns to the directory `cd d` started from |
| Directory.CdFailure | main.c:53-59 | a regular `cd` to a missing directory stays put, remembers the old working directory and prints `CD Error` on stderr |
| Directory.CdHome | main.c:47-51 | `cd ~` goes to `HOME` when it names a directory, and stays put when `HOME` is unset |
| Interpreter.Classify | main.c:212-263 | `exit` and `cd` select the builtins, `jobs` the listing, and every other name the launcher |
| Interpreter.LookupBuiltin | main.c:212-224 | the builtins loop finds the position of the name in `{"exit", "cd"}`, or runs off the table, agreeing with `Classify` |
| Interpreter.Shell.Valid | main.c:28-29 | the invariant the model keeps: 512 slots, `0 <= lastJ <= 512`, and no job at or above `lastJ` |
| Interpreter.Shell.constructor | main.c:330-334 | the shell starts with a newly allocated empty table, mark 0 and an empty `curDir` |
| Interpreter.Shell.Compress | main.c:92-112 | the compaction as intended: the slots become the live jobs in order followed by empty slots, and the mark becomes the number of live jobs |
| Interpreter.Shell.CompressAsWritten | main.c:92-112 | `compressJobs` as written: every slot stays as it was and `lastJ` becomes one below the first empty slot |
| Interpreter.Shell.Insert | main.c:297-309 | the job lands in the slot at the old mark and the mark moves up by one, with every other slot unchanged. The intended compaction runs exactly when the mark reaches `MAX_JOBS`. Either way the job joins the end of the live jobs |
| Interpreter.Shell.InsertAsWritten | main.c:297-309 | the job lands in the slot at the old mark and the mark moves up by one; when it reaches `MAX_JOBS`, `compressJobs` as written keeps every slot and sets the mark one below the first empty slot, -1 when slot 0 is empty |
| Interpreter.Shell.ListAndReap | main.c:226-255 | slots of finished jobs are cleared, the mark and the slots from it on are untouched, the remaining jobs are exactly the running ones, and one line is printed per running job in slot order |
| Interpreter.Shell.PollBelowMark | main.c:227-254 | the loop polls every slot below the mark in order, leaves the slots from the mark on alone, and prints one line per running job |
| Interpreter.Shell.Poll | main.c:228-254 | one slot: a finished job is cleared, a running one printed, no other slot changes |
| Interpreter.Shell.Cd | main.c:38-60 | the working directory, `curDir` and the output change exactly as `CdStep` says |
| Interpreter.Shell.Run | main.c:272-321 | the parent prints the child's pid. A background job is stored in the slot at the old mark and the mark moves up by one, or, when that fills the table, the table is compacted as intended; either way the job joins the end of the live jobs. A foreground job leaves the table and mark alone, and a failed fork prints `Fork Error` |
| Interpreter.Shell.Execute | main.c:153-264 | one line: `exit` prints the pid and exits; `cd` prints the pid and moves as `CdStep` says; `jobs` reaps every slot as `Reaped` says, keeps the mark and lists the running jobs; anything else is launched, a background job landing at the old mark with the mark moved up by one, or compacted as intended when that fills the table |

## Left out

- `readLine` (main.c:119-146): reading stdin and growing the buffer. The line it returns, ending in `'#'`, is the input of `ParseLine` and `Execute`.
- The prompt loop of `main` (main.c:335-340) is not modelled. Each command is one call of `Execute`.
- Process creation, `execvp` and its `System call Error` message in the child, and the blocking `waitpid` for a foreground job are operating-system effects. `fork`'s answer and the poll are inputs.
- The poll `waitpid(pid, NULL, WNOHANG != 0)` is an oracle `finished`. The flag argument evaluates to 1, which is `WNOHANG`, so the call does not block. An error return also counts as finished. One listing uses one oracle.
- `malloc`, `free` and the `Bad Malloc` paths (main.c:156-159, 168-171) are not modelled: Dafny has no manual deallocation. So `exitCommand` (main.c:67-79) is modelled only as the shell exiting. Its freeing loop, which stops before slot 0, is not modelled.
- The out-of-bounds NULL-initialisation loops (main.c:162-164, 332-334): the model's arrays start empty.
- Tokenizer.Tokenize: the vector is a `seq<string>` rather than the `ARGS_MAX`-slot `char**`. Neither `ARGS_MAX` nor `ARG_MAX` is checked by the code, so fitting within them (`Fits`) is a precondition.
- Tokenizer.ParseLine: a line with nothing before its `'#'` is excluded by its precondition. The code reads `argv[-1]` for it.
- Interpreter.Shell.Execute: excludes three inputs by precondition:
  - a line that is only `&`, where the code passes `argv[0] == NULL` to `strcmp`;
  - `cd` without an argument, where the code passes `argv[1] == NULL` to `strcmp` before its NULL test (main.c:40, 47);
  - a background job when the mark is at 512. With the intended compaction this happens when all 512 slots hold live jobs: there is no free slot, and the code has no check for a full table. The code as written never gets there, because its mark falls back to at most 511 (see "## Findings").
- Interpreter.Shell.Insert: when the mark reaches `MAX_JOBS` it runs the intended compaction, where main.c:307-308 runs `compressJobs` as written. What the code does there is `InsertAsWritten`, whose later states (a mark of -1, jobs left above the mark) break `Valid` and are not followed further.
- Interpreter.Shell.Run: records a background job through `Insert`, so it compacts as intended when the table fills.
- Interpreter.Shell.Execute: launches through `Run`, so it compacts as intended when the table fills.
- Interpreter.Classify: a `char` is one byte of the line, and the line is taken to hold no NUL byte. The code compares and prints arguments as C strings, which end at the first NUL. So for `exit` followed by a NUL and more text, the code runs the `exit` builtin while the model launches a program.
- Tokenizer.Tokenize: `ARG_MAX` counts bytes, while `Fits` counts characters. The bound is exact only when each character of the line is one byte.
- Directory.CdStep: the file system is a set of directory names that `chdir` takes as they are. Relative paths and their resolution are not modelled, and neither are `getcwd`'s `MAX_PATH` limit and `usleep`.
- Interpreter.Shell.CompressAsWritten: the scratch slot `copy[MAX_JOBS]` is taken as NULL. The code leaves it uninitialised and instead stores NULL at `copy[MAX_JOBS + 1]`, out of bounds (main.c:94).
- Interpreter.Shell.Compress: empties every slot from the new mark on, where a minimal patch of the code would leave stale job addresses there.
- Process ids and `lastJ` are unbounded integers; `int` overflow is not modelled.
- Output is a sequence of strings, one per `printf`/`fprintf` line. Interleaving with the child's output is not modelled.

## Findings

| source | as written | input that shows it | evidently intended | confidence | as-written member | corrected member |
|---|---|---|---|---|---|---|
| main.c:92-112 | `compressJobs` advances the write index `j` with `i`, so every slot is copied back to where it was. The restore loop stops at the first NULL, and `lastJ` becomes one below it. | A full table whose slot 1 was reaped, `[A, NULL, B, ...]`. `lastJ` becomes 0: no job is listed any more and the next background job overwrites A. A full table whose slot 0 was reaped: `lastJ` becomes -1, no job is listed, and the next background job is stored at `jobs[-1]` (main.c:303), outside the table. With no NULL slot at all, `lastJ` becomes 511 and the next job overwrites the last one. | Stable compaction as the "Garbage collector" comment says: live jobs moved to the front in order, `lastJ` set to their count. | high, not executed | Interpreter.Shell.CompressAsWritten, Interpreter.Shell.InsertAsWritten, JobTable.CompressAsWrittenLosesJob, JobTable.FillAsWrittenHidesJobs, JobTable.CompressExample | Interpreter.Shell.Compress, JobTable.CompactedKeepsJobs, JobTable.CompactionOrderExample |
