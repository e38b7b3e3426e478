# CUPS job-queue core of the HP P1102w diagnostic tool, in Dafny

The diagnostic tool manages one CUPS queue, `HP_LaserJet_Professional_P1102w`.
This project models the part of the tool that is logic rather than widgets or process I/O:

- **Text helpers:**
  - `trim_copy`;
  - `strip_ansi`, the escape-sequence stripping state machine;
  - `shell_escape`, the single-quote escaping in the dev file.
- **Listing parser:** `parse_lpstat_jobs` with its timestamp helper `parse_datetime_from_line`. Together they turn `lpstat -o -l` output into an ordered list of print-job records.
- **`CupsClient`**, working over an injected command runner:
  - `get_jobs` with its fallback command;
  - `cancel_job`, `cancel_all`, `cancel_all_from_user`, `pause_queue`, `resume_queue`;
  - the queue-disabled test;
  - the friendly-name lookup;
  - the recoverable-reason hint.
- **Age and highlight rules** (`fmt_age`): a job's age as text and minutes, and when a row is highlighted.
- **Auto-recovery assessment** in `check_cups_status`.
- **`QueueDialog` as a state machine:**
  - the rows, the status line, the two spin-button settings and the refresh timer;
  - `refresh`, `apply_highlight_only` / `apply_age_highlight` and `restart_timer`;
  - the confirm-gated actions.

The repository holds the tool in two editions: `HP_P1102w_Printer_Diagnostic_Tool.cpp` (release) and `HP_P1102w_Printer_Diagnostic_Tool_dev.cpp` (dev).
One model covers both, with a parameter `Config.Edition = Release | Dev` wherever they differ:

- **Date parser.** The dev date parser drops one trailing `,` from the day and year tokens.
- **Cancel command.** The dev `cancel_job` quotes the id with `shell_escape`. The release one puts it between single quotes unchanged.
- **`fmt_age`.**
  - Release reports 0 minutes for an unknown time and clamps negative ages to 0.
  - Dev reports -1 and does not clamp. The dev `refresh` clamps when it stores the row instead.
- **Dialog.** The dev dialog has no "cancel all jobs" action, and it highlights through `apply_age_highlight` after building the rows.

The command runner is a function `run(log, cmd)`. It maps the commands already issued and the new command to that command's output, so replies may depend on what was done before. `CupsClient` records every command it issues in `issued`. Each method states the commands it appends and what it returns in terms of the runner. The clock is a parameter `now` in seconds. The local-time conversion of a parsed timestamp is a function `localTime` held by the dialog.

Modules:

- `wrappers.dfy`:
  - `Wrappers` (Option);
  - `Config` (edition, queue name);
  - `Seqs` (mapping over sequences).
- `text.dfy`, module `Text`:
  - `trim_copy`, `find`, `getline` splitting and `>>` tokenising;
  - lower-casing, decimal digits.
- `ansi.dfy`, module `Ansi`: `strip_ansi`, and the control-sequence-aware stripping it evidently intends.
- `shell.dfy`, module `Shell`: `shell_escape`, and a POSIX-shell reader of quoted words that checks both quotings.
- `timestamps.dfy`, module `Timestamps`: `parse_datetime_from_line`.
- `lpstat.dfy`, module `Lpstat`: `parse_lpstat_jobs`, its loop proved equal to a block grammar of the listing.
- `cups.dfy`, module `Cups`: the `CupsClient` class and the functions specifying it.
- `age.dfy`, module `Age`:
  - `fmt_age` and the highlight rule;
  - a reader of age texts proving the texts mean what they say.
- `recovery.dfy`, module `Recovery`: `check_cups_status` and its three-way assessment.
- `queue_view.dfy`, module `QueueView`: the `QueueDialog` class.

## Model

| member | source | states |
|---|---|---|
| Text.Trim | HP_P1102w_Printer_Diagnostic_Tool.cpp:61-66 | the result has no leading or trailing whitespace (C-locale `isspace`), is no longer than the input, and is empty exactly when the input is all whitespace |
| Text.TrimCopy | HP_P1102w_Printer_Diagnostic_Tool.cpp:61-66 | the erase-front and pop-back loops compute `Trim` |
| Text.TrimIsMiddle | HP_P1102w_Printer_Diagnostic_Tool.cpp:61-66 | the trimmed text is the slice of the input starting at the returned index, and only whitespace lies before and after that slice |
| Text.TrimIdempotent | HP_P1102w_Printer_Diagnostic_Tool.cpp:61-66 | trimming twice is trimming once |
| Text.TrimOfTrimmed | HP_P1102w_Printer_Diagnostic_Tool.cpp:61-66 | a text with no whitespace at either end is left unchanged |
| Text.FindFrom | HP_P1102w_Printer_Diagnostic_Tool.cpp:137 | `find` returns the first position at or after the start where the pattern occurs, or nothing when there is none |
| Text.ContainsIff | HP_P1102w_Printer_Diagnostic_Tool.cpp:170-171 | `find(...) != npos` holds exactly when the pattern occurs somewhere |
| Text.LinesHaveNoNewline | HP_P1102w_Printer_Diagnostic_Tool.cpp:280 | no line `getline` yields contains a newline |
| Text.LinesRoundTrip | HP_P1102w_Printer_Diagnostic_Tool.cpp:280 | joining the lines with newlines gives back the text, with a final newline added if it had none |
| Text.TokensShape | HP_P1102w_Printer_Diagnostic_Tool.cpp:217-219 | `>>` never yields an empty token, and yields none exactly when the text is all whitespace |
| Text.TokensIgnoreTrailingSpace | HP_P1102w_Printer_Diagnostic_Tool.cpp:217-219 | trailing whitespace does not change the tokens |
| Text.TokensOfTrim | HP_P1102w_Printer_Diagnostic_Tool.cpp:291-296 | the trimmed status has the same tokens as the untrimmed rest of the header |
| Text.TokensOfUnwords | HP_P1102w_Printer_Diagnostic_Tool.cpp:218-219 | non-empty words without whitespace, joined by spaces, are read back by `>>` as exactly those words, in order |
| Text.Lower | HP_P1102w_Printer_Diagnostic_Tool.cpp:152-153 | no upper-case ASCII letter is left, every other character is kept, and each character of the result is the input's character up to case |
| Text.LowerIdempotent | HP_P1102w_Printer_Diagnostic_Tool.cpp:152-153 | lower-casing twice is lower-casing once |
| Text.ContainsLowerIff | HP_P1102w_Printer_Diagnostic_Tool.cpp:150-160 | searching the lower-cased text for a lower-case pattern finds it exactly when the original text holds the pattern in any letter case |
| Text.Decimal | HP_P1102w_Printer_Diagnostic_Tool.cpp:497-505 | `std::to_string` of a natural number gives digits with no leading zero that spell the number |
| Ansi.StripAnsi | HP_P1102w_Printer_Diagnostic_Tool.cpp:69-85 | the byte loop with its `in_escape` flag computes `StripFrom(input, false)` |
| Ansi.StripRemovesEsc | HP_P1102w_Printer_Diagnostic_Tool.cpp:69-85 | the output never holds byte 0x1B |
| Ansi.StripNoLonger | HP_P1102w_Printer_Diagnostic_Tool.cpp:69-85 | the output is never longer than the input |
| Ansi.StripKeepsPlainText | HP_P1102w_Printer_Diagnostic_Tool.cpp:69-85 | input without ESC comes back unchanged |
| Ansi.EscapeSequenceDropped | HP_P1102w_Printer_Diagnostic_Tool.cpp:75-80 | after ESC, bytes are dropped up to and including the first byte in '@'..'~', and what follows is copied as if nothing came before |
| Ansi.BracketEndsSequence | HP_P1102w_Printer_Diagnostic_Tool.cpp:75-80 | as written, `ESC[31mX` strips to "31mX" |
| Ansi.ControlSequenceRemoved | HP_P1102w_Printer_Diagnostic_Tool.cpp:69-85 | with `ESC [` read as a control-sequence introducer, `ESC[31mX` strips to "X" |
| Ansi.ControlSequenceDropped | HP_P1102w_Printer_Diagnostic_Tool.cpp:69-85 | the corrected stripping drops a whole control sequence: introducer, parameters and final byte |
| Ansi.StripCsiRemovesEsc | HP_P1102w_Printer_Diagnostic_Tool.cpp:69-85 | the corrected stripping keeps the original's promises: no ESC in the output, no growth, plain text unchanged |
| Shell.ShellEscape | HP_P1102w_Printer_Diagnostic_Tool_dev.cpp:163-172 | the output is a quote, then each character with `'` replaced by `'"'"'` and every other character copied in order, then a quote |
| Shell.ShellQuoteRoundTrip | HP_P1102w_Printer_Diagnostic_Tool_dev.cpp:163-172 | a POSIX shell reads the escaped word back as exactly the original id, whatever characters it holds |
| Shell.EscapedBodyReadsBack | HP_P1102w_Printer_Diagnostic_Tool_dev.cpp:166-169 | inside single quotes, the escaped body and the closing quote read back as the original text |
| Shell.PlainQuoteReadsBack | HP_P1102w_Printer_Diagnostic_Tool.cpp:183-184 | the release quoting `'id'` reads back as the id when the id has no single quote |
| Shell.PlainQuoteBreaksOnQuote | HP_P1102w_Printer_Diagnostic_Tool.cpp:183-184 | for the id `a'b` the release quoting does not read back, while the dev quoting does |
| Timestamps.MonthNumber | HP_P1102w_Printer_Diagnostic_Tool.cpp:208-215 | a month abbreviation Jan..Dec has number 1..12, in that order |
| Timestamps.GetTime | HP_P1102w_Printer_Diagnostic_Tool.cpp:232-241 | the read succeeds exactly when the day, the year and the clock fields have their shapes; the month, day and year are kept, and hour, minute and second are the values the time's digits spell (second 0 in the `%H:%M` form), within 0..23, 0..59 and 0..60 |
| Timestamps.HalfDay | HP_P1102w_Printer_Diagnostic_Tool.cpp:243-254 | "AM" maps hour 12 to 0, "PM" adds 12 except to 12, any other token changes nothing, and only the hour changes |
| Timestamps.DropComma | HP_P1102w_Printer_Diagnostic_Tool_dev.cpp:275-276 | a token ending in ',' loses exactly that comma; any other token is kept as it is |
| Timestamps.DateTimeAt | HP_P1102w_Printer_Diagnostic_Tool.cpp:221-254 | a window gives a time only at a month token with index i ≥ 1, i+2 below the token count and a ':' in token i+2, and keeps that month |
| Timestamps.DateTimeAtParsed | HP_P1102w_Printer_Diagnostic_Tool.cpp:232-254 | a window whose fields read as `parsed` yields `parsed` with the AM/PM correction of the next token |
| Timestamps.FirstWindowWins | HP_P1102w_Printer_Diagnostic_Tool.cpp:221-263 | the returned index is the first window that yields a time and the answer is that window's reading; it equals the token count exactly when the search finds nothing |
| Timestamps.ParseDateTimeFromLine | HP_P1102w_Printer_Diagnostic_Tool.cpp:207-264 | the token loop returns the first window's reading |
| Timestamps.TryWindow | HP_P1102w_Printer_Diagnostic_Tool.cpp:222-254 | one pass of the loop body computes `DateTimeAt` for its window |
| Timestamps.HalfDayCorrection | HP_P1102w_Printer_Diagnostic_Tool.cpp:243-254 | "PM" with hour ≠ 12 adds 12, "AM" with hour 12 gives 0, other tokens leave the time as read |
| Timestamps.MinutesOnlyFallback | HP_P1102w_Printer_Diagnostic_Tool.cpp:235-241 | a time with no seconds field is read by the `%H:%M` fallback, with seconds 0 |
| Timestamps.EditionsAgreeWithoutCommas | HP_P1102w_Printer_Diagnostic_Tool_dev.cpp:262-313 | without trailing commas on the day and year tokens, the two editions read the same time |
| Timestamps.TrailingCommaOnDay | HP_P1102w_Printer_Diagnostic_Tool_dev.cpp:275 | a day written "5," is rejected by the release edition and read without its comma by the dev edition |
| Timestamps.TrailingCommaOnYear | HP_P1102w_Printer_Diagnostic_Tool_dev.cpp:275-276 | a year written "2024," is rejected by the release edition and read without its comma by the dev edition |
| Timestamps.StampReadBack | HP_P1102w_Printer_Diagnostic_Tool.cpp:218-254 | a text starting "day Mon year HH:MM[:SS]", with any words after it, is read back in either edition as the date and clock its digits spell, with the AM/PM correction from the next word |
| Timestamps.EveningStamp | HP_P1102w_Printer_Diagnostic_Tool.cpp:218-254 | the words "5 Jan 2024 10:00:00 PM", joined by spaces, are read as 22:00:00 on 5 January 2024 |
| Lpstat.ParseLpstatJobs | HP_P1102w_Printer_Diagnostic_Tool.cpp:266-308 | the line loop returns `Records(Lines(text))`, the jobs of the listing's header-and-continuation blocks |
| Lpstat.ParseLine | HP_P1102w_Printer_Diagnostic_Tool.cpp:280-303 | one pass of the loop body keeps `jobs`, `current` and `active` in step with the line state machine |
| Lpstat.FlushCurrent | HP_P1102w_Printer_Diagnostic_Tool.cpp:274-278 | `flush` appends the open job exactly when one is active with a non-empty id, then resets `current` and `active` |
| Lpstat.ReadHeader | HP_P1102w_Printer_Diagnostic_Tool.cpp:285-296 | a header line gives the job `HeaderJob` describes |
| Lpstat.AppendContinuation | HP_P1102w_Printer_Diagnostic_Tool.cpp:297-302 | a continuation line adds its trimmed, non-empty text to the file label, after " \| " if the label is not empty |
| Lpstat.ParseMatchesBlocks | HP_P1102w_Printer_Diagnostic_Tool.cpp:266-308 | the state machine run over the whole listing closes exactly the listing's blocks, in order |
| Lpstat.RunIdle | HP_P1102w_Printer_Diagnostic_Tool.cpp:280-306 | with no job open, the loop closes the reference blocks after those it already has |
| Lpstat.RunOpen | HP_P1102w_Printer_Diagnostic_Tool.cpp:280-306 | with a job open, the loop extends it with the leading continuation lines, closes it, and then closes the reference blocks |
| Lpstat.HeaderHasJobId | HP_P1102w_Printer_Diagnostic_Tool.cpp:275 | a header's job id is never empty, so the `!job_id.empty()` test in `flush` always passes |
| Lpstat.OneBlockPerHeader | HP_P1102w_Printer_Diagnostic_Tool.cpp:280-306 | there is exactly one block per header line, in listing order, and a block holds only continuation lines after its header |
| Lpstat.OneRecordPerHeader | HP_P1102w_Printer_Diagnostic_Tool.cpp:266-308 | there is one record per header line, in listing order; the k-th record carries the k-th header's id, user, status and timestamp, and a non-empty id |
| Lpstat.HeaderFields | HP_P1102w_Printer_Diagnostic_Tool.cpp:288-296 | a header's tokens are the job id, then the user, then the status tokens; a one-token header gives an empty user and status |
| Lpstat.TokensOfHeader | HP_P1102w_Printer_Diagnostic_Tool.cpp:288-289 | `ls >> job_id >> user` takes the first two tokens and leaves the rest of the line |
| Lpstat.BlankLineSeparates | HP_P1102w_Printer_Diagnostic_Tool.cpp:281 | a blank line closes the open record: the listings before and after it parse independently |
| Lpstat.HeaderLineSeparates | HP_P1102w_Printer_Diagnostic_Tool.cpp:285-287 | a header line also closes the open record |
| Lpstat.OrphanContinuationsDropped | HP_P1102w_Printer_Diagnostic_Tool.cpp:297 | indented lines with no record open produce nothing |
| Lpstat.FileLabelOfBlock | HP_P1102w_Printer_Diagnostic_Tool.cpp:297-302 | a header with its continuation lines is one record whose file label is the trimmed fragments joined by " \| " |
| Lpstat.SplitAtBoundary | HP_P1102w_Printer_Diagnostic_Tool_dev.cpp:180-234 | where the second part starts with a line that is not a continuation, the two parts parse independently and in order |
| Lpstat.JobsOfShape | HP_P1102w_Printer_Diagnostic_Tool_dev.cpp:180-234 | each block becomes exactly one job, in order |
| Cups.CancelCommandNamesJob | HP_P1102w_Printer_Diagnostic_Tool_dev.cpp:134-137 | the shell reads the word after `cancel` back as the job id: always in dev, and in release whenever the id has no single quote |
| Cups.EditionsCancelAlike | HP_P1102w_Printer_Diagnostic_Tool.cpp:183-184 | for ids without a single quote both editions issue the same command |
| Cups.QueryJobsCommands | HP_P1102w_Printer_Diagnostic_Tool.cpp:174-181 | `get_jobs` issues the not-completed listing, then the plain listing exactly when the first reply says "Unknown option" or "invalid option"; the jobs are parsed from the last reply |
| Cups.CancelsInListingOrder | HP_P1102w_Printer_Diagnostic_Tool.cpp:191-194 | the cancels for a listing are the cancels for its parts, in order; a job gives one cancel of its id when the user matches, and none otherwise |
| Cups.OneCancelPerOwnedJob | HP_P1102w_Printer_Diagnostic_Tool.cpp:191-194 | exactly one cancel per job the user owns, and none exactly when no listed job is theirs |
| Cups.FirstNotIn | HP_P1102w_Printer_Diagnostic_Tool.cpp:141 | `find_first_not_of` gives the first position whose character is outside the set, or nothing |
| Cups.LastNotIn | HP_P1102w_Printer_Diagnostic_Tool.cpp:142 | `find_last_not_of` gives the last position whose character is outside the set, or nothing |
| Cups.TrimDescription | HP_P1102w_Printer_Diagnostic_Tool.cpp:139-143 | the trimmed description is never longer than the text after "Description:", and is empty only when that text is |
| Cups.DescriptionTrimmed | HP_P1102w_Printer_Diagnostic_Tool_dev.cpp:86-91 | a description with a visible character becomes the contiguous slice left after leading spaces and tabs and trailing spaces, tabs, CR and LF are removed; an all-blank one is returned untrimmed |
| Cups.FriendlyNameSource | HP_P1102w_Printer_Diagnostic_Tool_dev.cpp:79-97 | the name is the non-empty description of the first line that has one, and the queue name only when no line has one |
| Cups.MatchReasonPriority | HP_P1102w_Printer_Diagnostic_Tool.cpp:150-168 | the reported reason is needle k exactly when the text holds needle k and none before it; nothing is reported exactly when it holds none |
| Cups.ReasonFoundInAnyCase | HP_P1102w_Printer_Diagnostic_Tool.cpp:150-168 | the hint is needle k exactly when the printer's long state holds needle k in any letter case and no needle before it; it is nothing exactly when the state holds none in any case |
| Cups.CupsClient.Exec | HP_P1102w_Printer_Diagnostic_Tool.cpp:121-122 | a command is appended to the log and answered by the runner |
| Cups.CupsClient.PrinterStateRaw | HP_P1102w_Printer_Diagnostic_Tool.cpp:124-126 | issues `lpstat -p "<queue>" 2>&1` and returns its output |
| Cups.CupsClient.PrinterLongRaw | HP_P1102w_Printer_Diagnostic_Tool.cpp:128-130 | issues `lpstat -l -p "<queue>" 2>&1` and returns its output |
| Cups.CupsClient.FriendlyName | HP_P1102w_Printer_Diagnostic_Tool.cpp:132-148 | the line loop returns `FriendlyNameOf` of the long state's lines, after one command |
| Cups.CupsClient.LineDescription | HP_P1102w_Printer_Diagnostic_Tool.cpp:137-144 | the loop body gives the trimmed text after the first "Description:" of a line |
| Cups.CupsClient.HasRecoverableReasonHint | HP_P1102w_Printer_Diagnostic_Tool.cpp:150-168 | returns the first needle found in the lower-cased long state, after one command |
| Cups.CupsClient.QueueDisabled | HP_P1102w_Printer_Diagnostic_Tool.cpp:170-172 | true exactly when the state text contains "disabled" |
| Cups.CupsClient.GetJobs | HP_P1102w_Printer_Diagnostic_Tool.cpp:174-181 | returns the jobs and leaves the log as `QueryJobs` says |
| Cups.CupsClient.CancelJob | HP_P1102w_Printer_Diagnostic_Tool_dev.cpp:134-137 | appends exactly the edition's cancel command for the id |
| Cups.CupsClient.CancelAll | HP_P1102w_Printer_Diagnostic_Tool.cpp:187-189 | appends `cancel -a 2>&1` |
| Cups.CupsClient.CancelAllFromUser | HP_P1102w_Printer_Diagnostic_Tool_dev.cpp:143-149 | the listing commands, then one cancel per job the user owns, in listing order |
| Cups.CupsClient.CancelOwned | HP_P1102w_Printer_Diagnostic_Tool_dev.cpp:146-148 | the loop appends `Cancels(jobs, user)` |
| Cups.CupsClient.PauseQueue | HP_P1102w_Printer_Diagnostic_Tool.cpp:196-198 | appends the `cupsdisable` command |
| Cups.CupsClient.ResumeQueue | HP_P1102w_Printer_Diagnostic_Tool.cpp:200-202 | appends the `cupsenable` command |
| Age.MinutesBetween | HP_P1102w_Printer_Diagnostic_Tool.cpp:489-490 | whole minutes truncated toward zero: 60m ≤ d < 60(m+1) for d ≥ 0, and the mirror bounds below 0 |
| Age.AgeText | HP_P1102w_Printer_Diagnostic_Tool.cpp:495-505 | the age text is "<1m" exactly below one minute and otherwise starts with a digit; it is never "unknown" |
| Age.FmtAge | HP_P1102w_Printer_Diagnostic_Tool.cpp:481-506 | "unknown" exactly when there is no timestamp; otherwise the text describes the stored minutes, which are the age itself when it is not negative; release stores 0 for an unknown time and never a negative age, dev stores -1 for an unknown time (HP_P1102w_Printer_Diagnostic_Tool_dev.cpp:531-549) |
| Age.ReadAgeOfText | HP_P1102w_Printer_Diagnostic_Tool.cpp:495-505 | every age text is in the form `fmt_age` prints (numbers without leading zeros, minutes below 60, hours below 24) and reads back as what it was written for: "<1m" below a minute, exactly m below a day, the hour it falls in from a day on |
| Age.ReadAgeOnlyOfText | HP_P1102w_Printer_Diagnostic_Tool.cpp:495-505 | every text in that form is the age text of the least age its reading allows: the reader accepts nothing `fmt_age` cannot print |
| Age.OnlyTextOfItsAge | HP_P1102w_Printer_Diagnostic_Tool.cpp:495-505 | a text that reads as the age text of m does is that age text, so the reading pins the exact text ("05m" or "1h 75m" never stand for 5 or 135 minutes) |
| Age.DecimalOfDigits | HP_P1102w_Printer_Diagnostic_Tool.cpp:496-505 | a digit string without a leading zero is the `std::to_string` text of its value |
| Age.ReadCompound | HP_P1102w_Printer_Diagnostic_Tool.cpp:500-505 | "{a}h {b}m" and "{a}d {b}h" with numbers in normal form read back as the reader's reading of their two numbers |
| Age.ReadMinutes | HP_P1102w_Printer_Diagnostic_Tool.cpp:496 | "{m}m" reads back as m for 1 to 59 minutes |
| Age.EditionsShowTheSameAge | HP_P1102w_Printer_Diagnostic_Tool_dev.cpp:531-549 | both editions show the same text, and store the same non-negative minutes in the row |
| Age.DevSentinelIsAmbiguous | HP_P1102w_Printer_Diagnostic_Tool_dev.cpp:532-533 | dev's -1 for an unknown time equals the minutes of a job stamped a minute ahead of the clock |
| Age.HighlightRule | HP_P1102w_Printer_Diagnostic_Tool.cpp:520-521 | threshold 0 flags nothing; with a threshold a row is flagged exactly when its age reaches it, inclusively |
| Age.RowMinutes | HP_P1102w_Printer_Diagnostic_Tool_dev.cpp:563-565 | the dev row never stores negative minutes; a non-negative age, and every release age, is stored as it is |
| Age.Highlighted | HP_P1102w_Printer_Diagnostic_Tool.cpp:520-521 | with no threshold nothing is highlighted, and an age under one minute never is |
| Recovery.Advise | HP_P1102w_Printer_Diagnostic_Tool.cpp:1239-1249 | eligible exactly when the queue is empty and a reason matched, with that reason; "jobs present" exactly when the queue is not empty; "reason unrecognized" otherwise |
| Recovery.StatusOf | HP_P1102w_Printer_Diagnostic_Tool.cpp:1219-1258 | idle exactly when the state text holds "idle"; disabled exactly when it holds "disabled" and not "idle"; otherwise unknown, keeping the text; only a disabled queue leads to more than the one state query |
| Recovery.CheckCupsStatus | HP_P1102w_Printer_Diagnostic_Tool.cpp:1219-1258 | the status and the log are those of `StatusOf`, and the result is true exactly when the queue is idle |
| Recovery.IdleWins | HP_P1102w_Printer_Diagnostic_Tool.cpp:1223-1226 | a state text containing "idle" is idle even if it also says "disabled", and nothing more is asked |
| Recovery.EligibleMeans | HP_P1102w_Printer_Diagnostic_Tool.cpp:1227-1241 | an eligible outcome comes only from a disabled, non-idle queue with an empty listing, and names one of the three reasons that the long state holds |
| Recovery.EligibleWhen | HP_P1102w_Printer_Diagnostic_Tool.cpp:1227-1241 | a disabled, non-idle queue with an empty listing whose long state holds any reason is eligible, with the first reason in priority order |
| Recovery.JobsBlockRecovery | HP_P1102w_Printer_Diagnostic_Tool.cpp:1242-1244 | a listing with jobs is reported as skipped, whatever the reasons say |
| Recovery.QueriesChangeNothing | HP_P1102w_Printer_Diagnostic_Tool.cpp:1240 | no command the check issues is a pause, a resume or a cancel |
| Recovery.CheckIssuesOnlyQueries | HP_P1102w_Printer_Diagnostic_Tool.cpp:1219-1258 | the check appends the state command, and for a disabled queue the listing and the long state; all are queries |
| QueueView.TimerFor | HP_P1102w_Printer_Diagnostic_Tool_dev.cpp:574-584 | no timer for a period ≤ 0, else one timer with that period |
| QueueView.RowOf | HP_P1102w_Printer_Diagnostic_Tool.cpp:538-553 | a row shows its job's id, user, status and file; "unknown" and 0 minutes exactly for a job with no time; otherwise the job's age at the refresh, counted as 0 when the stamp lies ahead of the clock, and the age text of those minutes; flagged exactly when a threshold is set and reached, so a dated job is flagged exactly when its own age reaches the threshold |
| QueueView.EditionsShowTheSameRow | HP_P1102w_Printer_Diagnostic_Tool_dev.cpp:563-565 | the release and dev editions write the same row for every job |
| QueueView.RefreshShowsListing | HP_P1102w_Printer_Diagnostic_Tool.cpp:530-556 | after a refresh there is one row per listed job, in listing order; the status line describes the trimmed state; only the state and the listing were asked for |
| QueueView.StatusSummary | HP_P1102w_Printer_Diagnostic_Tool.cpp:508-515 | the status line is at least the head, and ends with the state in parentheses when the state is not empty |
| QueueView.SummaryShowsState | HP_P1102w_Printer_Diagnostic_Tool.cpp:508-515 | the status line starts "DISABLED / PAUSED" exactly when the state says "disabled", and quotes the state when it is not empty |
| QueueView.Rehighlight | HP_P1102w_Printer_Diagnostic_Tool.cpp:517-528 | re-flagging keeps every row and every field but the flag, which then follows the threshold |
| QueueView.RehighlightTwice | HP_P1102w_Printer_Diagnostic_Tool.cpp:517-528 | re-flagging twice is re-flagging with the last threshold |
| QueueView.RehighlightMatchesRefresh | HP_P1102w_Printer_Diagnostic_Tool_dev.cpp:486-516 | re-flagging a refresh's rows against a new threshold gives the rows a refresh with that threshold would build, without a new listing |
| QueueView.RefreshedIs | HP_P1102w_Printer_Diagnostic_Tool.cpp:530-556 | what a refresh shows for a given listing result |
| QueueView.QueueDialog.constructor | HP_P1102w_Printer_Diagnostic_Tool.cpp:340-407 | the dialog opens with threshold 10, period 5 and one 5-second timer, after one refresh |
| QueueView.QueueDialog.SetStatusLine | HP_P1102w_Printer_Diagnostic_Tool.cpp:508-515 | the status line is the summary of the trimmed state, after one command |
| QueueView.QueueDialog.Refresh | HP_P1102w_Printer_Diagnostic_Tool_dev.cpp:551-572 | the dialog shows `Refreshed` of the log before it; dev builds unflagged rows and flags them afterwards to the same result; the settings are unchanged |
| QueueView.QueueDialog.AppendRows | HP_P1102w_Printer_Diagnostic_Tool.cpp:537-553 | the loop appends one row per job, in order |
| QueueView.QueueDialog.ApplyHighlightOnly | HP_P1102w_Printer_Diagnostic_Tool.cpp:517-528 | the rows are re-flagged in place, with nothing asked and nothing else changed |
| QueueView.QueueDialog.RestartTimer | HP_P1102w_Printer_Diagnostic_Tool.cpp:558-567 | any timer is dropped, and one is connected with the spin's period when it is positive |
| QueueView.QueueDialog.SetRefreshSeconds | HP_P1102w_Printer_Diagnostic_Tool.cpp:403 | changing the period restarts the timer |
| QueueView.QueueDialog.SetAgeThreshold | HP_P1102w_Printer_Diagnostic_Tool.cpp:404 | changing the threshold re-flags the rows |
| QueueView.QueueDialog.Tick | HP_P1102w_Printer_Diagnostic_Tool.cpp:562-565 | the timer's callback refreshes and keeps the timer |
| QueueView.QueueDialog.CancelSelected | HP_P1102w_Printer_Diagnostic_Tool_dev.cpp:593-613 | with no selection or a declined confirmation nothing changes; otherwise one cancel of the selected id, then a refresh |
| QueueView.QueueDialog.CancelAllFromUser | HP_P1102w_Printer_Diagnostic_Tool_dev.cpp:615-637 | with no selection, an empty user or a declined confirmation nothing changes; otherwise the user's cancels, then a refresh |
| QueueView.QueueDialog.CancelAllJobs | HP_P1102w_Printer_Diagnostic_Tool.cpp:619-627 | declined changes nothing; confirmed issues `cancel -a`, then refreshes |
| QueueView.QueueDialog.PauseQueue | HP_P1102w_Printer_Diagnostic_Tool_dev.cpp:639-647 | declined changes nothing; confirmed issues `cupsdisable`, then refreshes |
| QueueView.QueueDialog.ResumeQueue | HP_P1102w_Printer_Diagnostic_Tool_dev.cpp:649-657 | declined changes nothing; confirmed issues `cupsenable`, then refreshes |

## Left out

- Process I/O: `execute_command` and `popen`. The command runner is a function of the command log and the command. Command outputs are arbitrary.
- ANSI stripping of command output inside `execute_command` (the `m_strip_global` / `m_strip_hplip` switches). `strip_ansi` itself is modelled. Where it is applied is I/O plumbing.
- `std::mktime`, the time zone and DST. The parser stops at a broken-down date and time, and the dialog converts it with a given function `localTime`. A `mktime` failure, which makes the source try the next window, is not modelled: the conversion is total.
- Timestamps.GetTime: `std::get_time` is simplified to the following shapes. Locale-dependent and other field widths are not modelled.
  - a 1–2 digit day from 1 to 31;
  - an English three-letter month;
  - a 4-digit year;
  - an `HH:MM[:SS]` time whose fields have two digits, with hour ≤ 23, minute ≤ 59 and second ≤ 60;
  - characters after the last field are ignored.
- `system_clock::now()`: the clock is the parameter `now`. The `(int)` narrowing of the minutes is not modelled; integers are unbounded.
- Age.FmtAge: the out-parameter and the returned text are one `Age` value.
- Recovery.CheckCupsStatus:
  - the dev edition runs the state command through `execute_command` directly, not through the client. The command text is the same, so both are modelled through the client's runner;
  - the dev null check on `m_cups` is not modelled, since the client always exists here;
  - the `try`/`catch` around the assessment is not modelled, because the model has no exceptions;
  - the printed messages and the buffer append of the unknown status are not modelled.
- QueueView.QueueDialog: the following are not modelled:
  - widgets, colours and the column layout (release colours all cells of a flagged row; dev colours only the Age cell through a cell-data function);
  - `queue_draw`;
  - the log callbacks;
  - the message dialog. `confirm_action` becomes the boolean `confirm`. The selection becomes an optional row index.
  - Glib scheduling. The timer is its period or nothing, and `Tick` stands for one firing.
- QueueView.QueueDialog.CancelAllJobs requires the release edition, because the dev dialog has no such action.
- The spin-button ranges (0..3600 seconds, 0..1440 minutes) are preconditions of the two setting handlers, because the widgets cannot produce other values.
- Config persistence, export to file, log viewing, the wake timer, port and ping checks, wake commands and the whole GTK main window (`main.cpp` included) are not part of this model. They are I/O wrappers with no logic of the core.
- The `print_*` output of every method is not modelled.

## Findings

| source | as written | input that shows it | evidently intended | confidence | as-written member | corrected member |
|---|---|---|---|---|---|---|
| HP_P1102w_Printer_Diagnostic_Tool.cpp:75-80 | `strip_ansi` ends an escape sequence at the first byte in '@'..'~'. That range includes '[' (0x5B), so the `ESC [` introducer of a control sequence already ends it, and the sequence's parameters and final byte are copied to the output | `ESC[31mX` (a colour change, then X) strips to "31mX" | the whole control sequence is dropped, so `ESC[31mX` strips to "X" | not executed | Ansi.BracketEndsSequence | Ansi.ControlSequenceRemoved |
