# A verified model of unitpm's core logic

unitpm is a process manager: a daemon that starts, stops, scales and logs processes, and a command line that
talks to it. Its input and output are thin; between them sit log readers and writers, a rate limiter, log
rotation, calendar arithmetic, process-tree walks, a framed request loop, a process registry, a table printer and
a manifest format. This project models those parts in Dafny and proves what they promise for every input, every
run and every order of iteration.

Each file models one component. Code that changes state step by step is a class or a method with loops, proved
against a specification function; the theorems are lemmas about those functions.

| file | models |
|---|---|
| `LogEntries.dfy`, `LogFollow.dfy`, `LogTail.dfy`, `LogMerge.dfy` | the batch reader of a log, the line-at-a-time follower, the reader of the last entries, and the reorder heap of the merged view |
| `LogWriter.dfy`, `LogStamps.dfy` | the daemon's timestamping writer, its banners, and the readers' recognition of both |
| `LogRoundTrip.dfy` | the writer and the three readers together |
| `Rotation.dfy` | rotation of a log through its numbered archives |
| `RateLimit.dfy` | the token bucket per user with lazy refill and eviction |
| `Calendar.dfy`, `Decimal.dfy`, `Timestamps.dfy` | the five copies of the date conversions; writing and parsing of RFC 3339 timestamps |
| `ProcTree.dfy` | the three walks over the process tree and the totals over it |
| `IpcServer.dfy` | the bounded line reader and the request loop of a connection |
| `Registry.dfy` | scaling a group of processes, and resolving a selector to a process |
| `Table.dfy` | column widths, wrapping and printing of tables |
| `Tokenizer.dfy`, `Manifest.dfy` | the command tokenizer, export of specifications to a manifest and conversion back |
| `Text.dfy`, `Collections.dfy` | functions on strings and sequences shared by the others |

What a reader might not expect, because the code differs from its comments or from the obvious law:

- The stop walk emits parents before their children, although its comment announces the deepest first
  (`internal/daemon/manager/stop.rs:168-187`), and the tree listing is breadth first, although its comment says
  depth first (`internal/metrics/proctree.rs:225-252`). `WalkDescendants` and `GetProcessTree` state the code's order.
  None of the walks ends if the root is its own descendant; that is exactly the condition (`WalkDiverges`,
  `LevelWalkDiverges`).
- The follower drops continuation lines that follow a banner or an idle poll, which the batch reader keeps. The two
  agree exactly when there are none (`FollowerMatchesBatch`).
- Asked for the last n entries, the tail reader can return the end of a record as its first entry, exactly when
  the window it stops at, which the lengths of the records and n determine, cuts a record and holds n entries with
  the cut one (`TailReturnsLastEntries`, `FragmentReturned`).
- The daemon writes log timestamps in UTC and the readers take them for local time, so they read back as written
  exactly where the local offset is zero; west of UTC entries lie in the future, and a follower that waits for
  their time holds them back (`StampRoundTrip`, `StampOffByZone`).
- Short ids are computed for the listed processes only; one that an unlisted process shares is ambiguous to the
  daemon (`ShortIdsResolve`, `FilteredListAmbiguous`).
- The server answers a last request even without its newline (`StreamAnswered`).
- With delayed compression and `keep` 1, two generations survive (`Retained`, used by `EveryRunRetains`).
- Eviction of idle buckets is observable when the idle window does not refill a bucket; then the admission bound
  holds with the larger rate `capacity / 300 s` (`UnobservableExactly`, `AdmissionBound`).
- The delay of the merge loop is 200 ms, but is subtracted in whole seconds and so is zero
  (`internal/cli/commands/logs/follow.rs:333-335`); the model keeps the cutoff of each flush a parameter. With the
  current second as cutoff, an entry read after a flush of its own second can come out of order
  (`SameSecondOvertaken`).
- Years beyond 32 bits wrap in the written timestamps, and then do not read back (`AuditRoundTrip`, `ApplyRoundTrip`).
- Export loses more than it seems to. It does not quote the words of a command, so only words that need no quoting
  come back (`CommandSafeExactly`); it drops the arguments of an entry point (`EntryArgumentsLost`), the shell flag and
  the mode of a log section, which the start command always sets (`StartLogsChange`), and every setting that a manifest
  has no place for; and a retry number, delay or backoff written as zero or empty comes back as the default, since the
  daemon takes an absent one for ten retries and two seconds (`RestartRoundTrip`). `ExportRoundTrip` is the exact
  condition, `ExportKeeps` what comes back in any case.
- The daemon passes its lifecycle banners through the timestamping writer, so that each of their lines gets a timestamp
  in front. The readers never see a banner in such a log: they show three entries (`BannerShownAsLines`). A banner is
  recognised only where it stands in a log by itself (`BannerIsRecord`).
- The readers trim leading white space, so that indented lines are shown without their indentation
  (`IndentationLost`).
- A sink that fails in a write loses the lines taken from the buffer for it (`SinkConserves`).
- A cell without a word to wrap at can break the alignment of a table (`AlignedExactly`).

## Model

| member | source | states |
|---|---|---|
| `LogEntries.ReadEntries` | internal/cli/commands/logs/entry.rs:193-238 | the reader's loop over an index, with the last entry edited in place, computes the parse of the lines of its input, with the next sequence number |
| `LogEntries.FoldLines` | internal/cli/commands/logs/entry.rs:212-235 | unstamped lines that open no banner fold into the last entry, all of them, in order |
| `LogEntries.ParseBlock` | internal/cli/commands/logs/entry.rs:167-238 | a stamped line or a complete banner with its continuations adds exactly its one entry, whatever was read before and follows |
| `LogEntries.ParseInvertsFlatten` | internal/cli/commands/logs/entry.rs:193-238 | parsing the lines of any well-formed log gives one entry per record, numbered consecutively |
| `LogEntries.ReadInvertsLogText` | internal/cli/commands/logs/entry.rs:193-238 | reading the text of any well-formed log gives one entry per record: its time, the tag, the rest of its stamped line without leading white space, or its three banner lines, and its continuations, joined by newlines in order, and its number |
| `LogEntries.ContinuationsJoin` | internal/cli/commands/logs/entry.rs:222-224 | folded lines are appended to the body one after another, each behind a newline, and change nothing else |
| `LogEntries.EntryHolds` | internal/cli/commands/logs/entry.rs:120-136 | time, tag, body, number and stamp flag of the entry of a record, in terms of its lines |
| `LogEntries.ParseNumbers` | internal/cli/commands/logs/entry.rs:193-238 | whatever the input, entries carry the tag and are numbered one after another, and the reader goes on from there |
| `LogFollow.Follower.FlushBannerAsContinuation` | internal/cli/commands/logs/follow.rs:226-236 | an abandoned banner becomes continuation lines of the pending entry, if there is one |
| `LogFollow.Follower.HandleLine` | internal/cli/commands/logs/follow.rs:238-271 | the new banner buffer, pending entry and sequence number after a line, and the entry it displaces |
| `LogFollow.Follower.OnEvent` | internal/cli/commands/logs/follow.rs:141-222 | one pass of the loop: a line read or an idle poll |
| `LogFollow.ChompReturn` | internal/cli/commands/logs/follow.rs:157-162 | a line loses its newline and a carriage return before it, and nothing else |
| `LogFollow.Follower.Follow` | internal/cli/commands/logs/follow.rs:123-224 | the whole run is the fold of the single passes |
| `LogFollow.FollowBlock` | internal/cli/commands/logs/follow.rs:141-271 | for every state between records and every pacing with idle polls, a record makes the follower emit exactly one entry and leaves no banner open |
| `LogFollow.FollowLog` | internal/cli/commands/logs/follow.rs:141-271 | over a whole log, one entry per record, in order, numbered from the start number |
| `LogFollow.FollowerMatchesBatch` | internal/cli/commands/logs/follow.rs:141-271 | refinement: on every well-formed log the follower emits as many entries as the batch reader and ends with the same number; the outputs are equal if and only if no continuation follows a banner or an idle poll |
| `LogFollow.FollowedHolds` | internal/cli/commands/logs/follow.rs:238-271 | time, tag, body, number and stamp flag of what the follower makes of a record |
| `LogFollow.FollowUnstamped` | internal/cli/commands/logs/follow.rs:141-236 | for all unstamped lines that make no banner, rules and middles among them, the pending entry gets all of them in order, but for at most two that may still become a banner |
| `LogFollow.AbandonedBannersFold` | internal/cli/commands/logs/follow.rs:226-236 | banners that are begun and not completed are continuation lines of the record before, for the follower as for the batch reader |
| `LogTail.ReadLastNEntries` | internal/cli/commands/logs/entry.rs:243-295 | the loop that grows its window computes the specified run |
| `LogTail.WindowLines` | internal/cli/commands/logs/entry.rs:257-270 | seeking anywhere and dropping the partial line leaves a suffix of the lines of the file |
| `LogTail.Resynchronises` | internal/cli/commands/logs/entry.rs:193-238 | a parse begun at any line of a readable log reads at most one fragment and then exactly the entries of the following records; readable (`Readable`) is well-formed, with no banner middle that looks like a stamped line and no lines after a banner that complete another one with its second rule |
| `LogTail.TailReturnsLastEntries` | internal/cli/commands/logs/entry.rs:243-295 | on every readable log the result is the last n entries of the full parse, numbers aside, if and only if the window where the reader stops does not cut a record while holding exactly n entries; otherwise only the first entry differs, and has no timestamp; the window is computed from the lengths of the lines of the records and n alone (`StopAt`) |
| `LogTail.TailNumbers` | internal/cli/commands/logs/entry.rs:243-295 | whatever the file, at most n entries are returned, with the tag, numbered one after another up to where the reader goes on |
| `LogTail.FragmentHeadless` | internal/cli/commands/logs/entry.rs:225-234 | a fragment is an entry without time that holds its lines joined by newlines |
| `LogTail.ShapeSaysWhere` | internal/cli/commands/logs/entry.rs:254-270 | for every window, the lengths of the records say how many records begin in it and whether it cuts one |
| `LogTail.OneLineNeverCut` | internal/cli/commands/logs/entry.rs:254-270 | no window cuts a log whose records are single lines |
| `LogTail.FragmentReturned` | internal/cli/commands/logs/entry.rs:243-295 | the exception exists: a long stamped line with a short continuation, asked for one entry, returns the continuation |
| `LogMerge.EntryHeap.Push` | internal/cli/commands/logs/follow.rs:86-93 | the heap holds one more entry |
| `LogMerge.EntryHeap.Peek` | internal/cli/commands/logs/follow.rs:97-99 | a least entry by timestamp and number, absent exactly when the heap is empty |
| `LogMerge.EntryHeap.Flush` | internal/cli/commands/logs/follow.rs:315-325 | what leaves and what stays are what was held; what leaves is sorted and up to the cutoff, what stays is beyond it |
| `LogMerge.FollowMerge` | internal/cli/commands/logs/follow.rs:284-331 | for every run of arrivals and flushes, output and heap together are exactly the arrivals, and every entry that passes the filter is printed or held as often as it arrived, and no other is printed; what is printed is sorted by timestamp and number if and only if no printed entry arrives after a flush has printed a greater one |
| `LogMerge.TimelySuffices` | internal/cli/commands/logs/follow.rs:301-326 | if cutoffs never decrease and nothing arrives behind the last cutoff, whatever is printed is sorted |
| `LogMerge.SameSecondOvertaken` | internal/cli/commands/logs/follow.rs:333-335 | two entries of one second, the one with the smaller number read after a flush at that second, come out of order |
| `LogMerge.KeptSorted` | internal/cli/commands/logs/follow.rs:321-324 | the filter only leaves entries out and keeps their order |
| `LogWriter.TimestampWriter.Write` | internal/daemon/manager/logwriter.rs:202-228 | the new buffer, what the sink received and the result, for a write of any bytes and a sink that may fail after any number of bytes |
| `LogWriter.LinesConcat` | internal/daemon/manager/logwriter.rs:207-223 | cutting a text anywhere and completing the rest later gives the same lines |
| `LogWriter.WriteConserves` | internal/daemon/manager/logwriter.rs:202-228 | one write neither loses nor invents a byte and leaves no newline and at most 1 MiB in the buffer |
| `LogWriter.RunConserves` | internal/daemon/manager/logwriter.rs:202-228 | over every sequence of writes, output without prefixes and forced newlines, followed by the buffer, is the input |
| `LogWriter.SinkConserves` | internal/daemon/manager/logwriter.rs:224-226 | with a sink that can fail, what it received as whole lines, followed by the buffer, is the input if and only if no write failed that had something to send |
| `LogWriter.SinkGrows` | internal/daemon/manager/logwriter.rs:224-226 | the bytes in the sink grow by what each write sends |
| `LogWriter.LinesIndependentOfSplit` | internal/daemon/manager/logwriter.rs:202-228 | the lines emitted are the lines of the input, however it was cut into writes, if and only if no write left an overlong unterminated tail; a forced cut always shows |
| `LogStamps.LocalFormatSane` | internal/cli/commands/logs/entry.rs:117-162 | no rule line and no empty line carries a timestamp, which is what the theorems on log readers ask of the line format |
| `LogStamps.StampRoundTrip` | internal/daemon/manager/logwriter.rs:50-70 | the timestamp, written in UTC and read as local time, reads back as the second minus the local offset found for it, and so as the second it was written at if and only if that offset is zero |
| `LogStamps.StampOffByZone` | internal/cli/commands/logs/entry.rs:36-62 | in a zone of fixed offset every timestamp reads back off by the offset |
| `LogStamps.FourDigitYearExactly` | internal/daemon/manager/logwriter.rs:54-70 | the second from which on the year no longer fits the four characters that the readers take |
| `LogStamps.FieldsRead` | internal/cli/commands/logs/entry.rs:36-62 | any fields in the places of a timestamp, whatever is between them, are read as that local time exactly when month, day, hour, minute and second are in range, and refused otherwise |
| `LogStamps.TooShort` | internal/cli/commands/logs/entry.rs:120-162 | which characters of a line or of a banner middle are read as its timestamp, and how long it must be |
| `LogStamps.LoggedLineIsRecord` | internal/daemon/manager/logwriter.rs:202-228 | every line of text with the timestamp in front opens a record of the readers, at the time that the timestamp is read as |
| `LogStamps.BannerIsRecord` | internal/daemon/manager/logwriter.rs:22-48 | the three lines that `write_banner` produces, for any event and detail, would by themselves be a complete banner to the readers, at the time that the timestamp is read as, with a middle that cannot be taken for a stamped line |
| `LogStamps.BannerLayout` | internal/daemon/manager/logwriter.rs:25-48 | event, detail, fill and timestamp of the middle line of a banner, 80 characters wide where there is room for four fill characters, between two rules of 80 |
| `LogRoundTrip.BatchShows` | internal/cli/commands/logs/entry.rs:193-238 | the batch reader shows one entry per record of the writer, with its text without leading white space and the time its timestamp is read as |
| `LogRoundTrip.ReadersShowOutput` | internal/daemon/manager/logwriter.rs:202-228 | for every run of writes: if no record ends in a carriage return, the batch reader and the follower, with idle polls anywhere, show exactly one entry per record, with its trimmed text and its time, and the tail reader exactly the last n of them; the text is shown as printed if and only if no record begins with white space; the records are the lines of the output if and only if no write left an overlong unterminated tail |
| `LogRoundTrip.IndentationLost` | internal/cli/commands/logs/entry.rs:133-134 | the entries show the text of the records if and only if none is indented |
| `LogRoundTrip.BannerWritten` | internal/daemon/manager/process.rs:316-325 | writing a banner adds three records, each with a timestamp in front, the first behind what was left in the buffer |
| `LogRoundTrip.BannerShownAsLines` | internal/daemon/manager/lifecycle.rs:75-79 | after any run of writes, a banner passed to the writer is shown by all three readers as three stamped entries of one line each, not as a banner |
| `Rotation.LogDir.RotateChain` | internal/daemon/manager/rotate.rs:107-159 | the descending loop of renames, the compression, the copy and the truncation, any of which may fail, compute the specified directory |
| `Rotation.LogDir.RotateNow` | internal/daemon/manager/rotate.rs:90-105 | rotation happens exactly when the log exists, is not exempt as empty, and is large or old enough; else nothing changes |
| `Rotation.SizeLimitKept` | internal/daemon/manager/rotate.rs:90-105 | after every check a log with a size limit is below it, saved first if it was not |
| `Rotation.AgeLimitKept` | internal/daemon/manager/rotate.rs:90-105 | from the age limit on a check empties the log, saved first, unless it is empty and exempt |
| `Rotation.NotDueUntouched` | internal/daemon/manager/rotate.rs:90-105 | a log below its limits, or without any, or empty and exempt, is not touched |
| `Rotation.RotationIsShift` | internal/daemon/manager/rotate.rs:107-159 | from any directory, gaps included, the contents of every slot afterwards: a shift of the archives below `keep` |
| `Rotation.EveryRunRetains` | internal/daemon/manager/rotate.rs:90-159 | after any run of appends and rotations from nothing: generations and live log spell out all that was written; slot i holds the i-th newest generation, up to the number retained; in delay mode exactly the newest is plain; no other archive exists |
| `Rotation.NothingLost` | internal/daemon/manager/rotate.rs:107-159 | the generations, oldest first, and the live log are everything written, in order |
| `Rotation.SurvivesFaults` | internal/daemon/manager/rotate.rs:107-159 | whatever steps fail and however partial copies are, the live log is emptied only with its contents complete in the newest archive; in delay mode the previous newest generation survives too |
| `RateLimit.RateLimiter.MaybeSweep` | internal/ipc/transport/ratelimit.rs:133-141 | every 1024th call removes exactly the buckets last filled before the idle window |
| `RateLimit.RateLimiter.Allow` | internal/ipc/transport/ratelimit.rs:84-118 | the answer and the new state of the limiter, as specified; what the answers amount to over a run is bounded from above by `AdmissionBound` and from below by `DeniedOnlyWhenSpent` |
| `RateLimit.TokensStayInRange` | internal/ipc/transport/ratelimit.rs:84-118 | in every run, even with a clock that jumps, every bucket holds between zero and `capacity` tokens |
| `RateLimit.RunsAgree` | internal/ipc/transport/ratelimit.rs:84-141 | bisimulation: if the idle window refills a bucket, the limiter and one that never evicts answer every call of every run alike, for all users interleaved |
| `RateLimit.SweepObserved` | internal/ipc/transport/ratelimit.rs:84-141 | if it does not, there is a run that tells them apart |
| `RateLimit.UnobservableExactly` | internal/ipc/transport/ratelimit.rs:84-141 | eviction is unobservable if and only if capacity is at most 300 s of refill |
| `RateLimit.AdmissionBound` | internal/ipc/transport/ratelimit.rs:84-141 | in every run with a clock that never goes back, in any window [s, t], a user is admitted at most capacity + rate x (t - s + 1 ms) times; the rate is the refill rate exactly when eviction is unobservable |
| `RateLimit.DeniedOnlyWhenSpent` | internal/ipc/transport/ratelimit.rs:84-118 | the converse: in every such run a request at t is denied only if for some s <= t the user was admitted before it, from s on, more than capacity - 1 + refill x (t - s - 1 ms) times |
| `RateLimit.SlackIsExact` | internal/ipc/transport/ratelimit.rs:84-118 | for every slack below a millisecond there is a limiter with unobservable eviction, a run and a window in which it admits more than capacity + refill x (t - s + slack): the millisecond is exact |
| `Calendar.DaysFollowTheCalendar` | internal/cli/format/time.rs:189-197 | day numbers start at 1970-01-01 and grow by one from each date to the next by the Gregorian rules |
| `Calendar.DaysIncrease` | internal/cli/format/time.rs:189-197 | day numbers are ordered as dates are |
| `Calendar.CivilFromDaysInverts` | internal/daemon/audit/audit.rs:201-220 | every day number, negative ones too, gives a valid date with that number |
| `Calendar.DaysInvert` | internal/cli/commands/apply/mod.rs:269-282 | every valid date comes back from its day number |
| `Calendar.CopiesAgree` | internal/cli/commands/logs/entry.rs:64-79 | on 32-bit fields the checked copy agrees with the others and does not overflow, if and only if the date is not in the first two months of the least year |
| `Timestamps.SplitTz` | internal/cli/format/time.rs:154-169 | the scan finds the first timezone character after the first two and reads the offset |
| `Timestamps.SplitSeconds` | internal/cli/format/time.rs:37-53 | seconds and nanoseconds of the field, the fraction padded by a loop |
| `Timestamps.ParseRfc3339` | internal/cli/format/time.rs:16-66 | the parser with its running total, on every string |
| `Timestamps.ParseFields` | internal/cli/format/time.rs:16-66 | any date, time, fraction of any length and suffix `Z`, `+hh:mm` or `-hh:mm` (section 5.6 of RFC 3339) is read as its second in UTC, the offset subtracted, plus one exactly if the fraction begins with five or more |
| `Timestamps.AuditRoundTrip` | internal/daemon/audit/audit.rs:184-220 | parsing the audit timestamp (date-time of section 5.6 of RFC 3339) returns the second, plus one exactly from half a second on, if and only if the year fits 32 bits |
| `Timestamps.ApplyRoundTrip` | internal/cli/commands/apply/mod.rs:252-282 | parsing the timestamp of `apply` returns the second, under the same condition |
| `Timestamps.StampFields` | internal/daemon/audit/audit.rs:184-199 | where date, time and the nine digits of the nanoseconds stand in the written timestamps, and their values |
| `Timestamps.SuffixRequired` | internal/cli/format/time.rs:149-169 | a timestamp without a `T` or without a timezone suffix is refused |
| `Timestamps.NegativeYearRejected` | internal/cli/format/time.rs:16-24 | a date with a negative year has a piece too many and is refused |
| `ProcTree.TakeSnapshot` | internal/metrics/proctree.rs:39-60 | a process is in the child list of another exactly if its entry names that as its parent, each once |
| `ProcTree.FindDescendants` | internal/metrics/proctree.rs:211-223 | the walk ends and returns the root and exactly its descendants, each once |
| `ProcTree.WalkDescendants` | internal/daemon/manager/stop.rs:172-188 | the depth-first walk ends and returns exactly the proper descendants, each once and after its parent |
| `ProcTree.GetProcessTree` | internal/metrics/proctree.rs:228-254 | every process reached through readable ones is listed once with its true depth, depths never decrease, and nothing else is listed |
| `ProcTree.WalkDiverges` | internal/metrics/proctree.rs:211-223 | if the root is its own descendant, neither the breadth-first nor the depth-first worklist is ever empty, so the condition of the walks is exact |
| `ProcTree.LevelWalkDiverges` | internal/metrics/proctree.rs:228-254 | the same for the levelled walk and cycles of readable processes |
| `ProcTree.OneDepth` | internal/metrics/proctree.rs:228-254 | a process has one depth only |
| `ProcTree.Collect` | internal/metrics/proctree.rs:168-181 | ticks and memory summed over the readable processes |
| `ProcTree.TotalsAdd` | internal/metrics/proctree.rs:168-181 | the totals are sums: they add up over lists, and one process counts for what it used, or for nothing if unreadable |
| `ProcTree.TotalsIgnoreOrder` | internal/metrics/proctree.rs:168-181 | the sums do not depend on the order of the processes |
| `ProcTree.WalksTotalTheSame` | internal/metrics/proctree.rs:160-223 | any two walks of the same tree, in whatever order children were listed, sum to the same |
| `IpcServer.BoundedLineReader.ReadLine` | internal/ipc/transport/server_loop.rs:127-154 | however the stream is cut into chunks, the result is the next message of its bytes, or that it is too long, and what is left is the rest |
| `IpcServer.HandleConnection` | internal/ipc/transport/server_loop.rs:21-106 | the replies written are the specified function of the bytes of the stream alone; what they say is `RepliesEchoIds` |
| `IpcServer.RequestsAnswered` | internal/ipc/transport/server_loop.rs:41-106 | well-formed messages are answered one by one, in order, whatever follows |
| `IpcServer.StreamAnswered` | internal/ipc/transport/server_loop.rs:41-106 | one reply per good message, in order; then a last request without newline is answered too, or an oversized or unparsable line, with newline or without, gets exactly one error, or nothing is said; nothing after that is answered |
| `IpcServer.EveryStream` | internal/ipc/transport/server_loop.rs:127-154 | every stream of bytes, whatever its ending, is such a sequence of good messages and one such end, so the theorems on streams cover all of them |
| `IpcServer.RepliesEchoIds` | internal/ipc/transport/server_dispatch.rs:18-98 | for every stream, the k-th reply answers the k-th request, those without newline included, by its id: with exactly what the handler returned for it if the limiter, the version, the command and the handler agree, and otherwise with the code of the first of them that does not; after an oversized or unparsable line there is one more reply, an error with an empty id |
| `Registry.Manager.StartWithSpec` | internal/daemon/manager/manager.rs:100-126 | a process is added exactly when the limit is readable and not reached, its id is free and it starts; the first of these that fails is reported and nothing changes |
| `Registry.Manager.Delete` | internal/daemon/manager/manager.rs:154-160 | the process is gone, all others are as before |
| `Registry.Manager.ScaleSnapshot` | internal/daemon/manager/manager.rs:293-327 | for every order of iteration, the instances of the group, each once, those without a number first |
| `Registry.NumberedExactly` | internal/daemon/manager/manager.rs:309-316 | a name is a numbered instance if and only if it is the base, a dash and a number of 32 bits in digits, a plus sign in front allowed |
| `Registry.NextFree` | internal/daemon/manager/manager.rs:262-268 | the search for a name ends and finds the smallest number not taken |
| `Registry.Manager.Grow` | internal/daemon/manager/manager.rs:257-285 | names created are the smallest free numbers, distinct and in order; each new process is a copy of the template under its new name, with an empty environment where that has none; failure of a start keeps what was started |
| `Registry.Manager.Scale` | internal/daemon/manager/manager.rs:210-291 | for every registry and order of iteration, success leaves exactly `target` instances and every other process as it was; a plain instance goes only if all numbered ones do; the names reported as deleted are those of the processes gone, one for each; at the target already, nothing changes; and the exact state after every error |
| `Registry.ResolveFromCandidates` | internal/daemon/manager/helpers.rs:90-105 | none, the one, or ambiguous, by the set of candidates |
| `Registry.ResolveId` | internal/daemon/manager/manager.rs:351-381 | the outcome for a selector is a function of the registry, the same for every order of iteration; which one is said by the four members below |
| `Registry.QualifiedNamePicks` | internal/daemon/manager/manager.rs:352-361 | `namespace:name` finds a process if and only if it is the only one with that namespace and name, tells that there is none if and only if there is none, and otherwise is ambiguous and names all of them |
| `Registry.WholeIdFound` | internal/daemon/manager/manager.rs:362-364 | a whole id finds its process, whatever else begins with it or is named so |
| `Registry.IdPrefixPicks` | internal/daemon/manager/manager.rs:365-373 | else the ids that begin with the selector decide in the same way, if there are any |
| `Registry.NamePicks` | internal/daemon/manager/manager.rs:374-380 | and else the processes of that name |
| `Registry.ShortIdLen` | internal/cli/commands/list/mod.rs:237-257 | the least length from 8 on at which all ids differ, if there is one up to 36 |
| `Registry.ShortIdsResolve` | internal/cli/commands/list/mod.rs:237-257 | the length found for any list of processes separates them, and a short id resolves to its process if and only if no unlisted process shares it; always when the whole registry is listed |
| `Registry.PrefixResolves` | internal/daemon/manager/manager.rs:351-381 | the first characters of an id resolve to its process if and only if no other id in the registry begins with them, and are ambiguous otherwise |
| `Registry.FilteredListAmbiguous` | internal/cli/commands/list/mod.rs:115-133 | a listing of one namespace can show an ambiguous short id: two ids with the same first eight characters, one of them listed |
| `Table.StripAnsi` | internal/cli/format/mod.rs:111-128 | the scan removes the escape sequences |
| `Table.SequenceInvisible` | internal/cli/format/mod.rs:111-128 | an escape sequence, from the escape character to the first letter, is not visible, and the text around it is |
| `Table.Widest` | internal/cli/table/mod.rs:116-126 | the first of the widest columns above the minimum, if any |
| `Table.Shrink` | internal/cli/table/mod.rs:108-133 | shrinking ends, never widens, levels fairly; a table that had to shrink and fits fits exactly; one that does not fit has only columns of minimal width |
| `Table.CalculateWidths` | internal/cli/table/mod.rs:85-134 | the same, from the natural widths of headers and cells under the caps |
| `Table.WrapText` | internal/cli/table/wrap.rs:14-66 | the wrapping loop computes the greedy filling |
| `Table.WrappedGreedily` | internal/cli/table/wrap.rs:14-66 | a cell of words that fit is wrapped to lines of consecutive words, one space between two, each line ending only where the next word does not fit |
| `Table.LongWordApart` | internal/cli/table/wrap.rs:32-45 | a word wider than the column stands apart from what is before and after it |
| `Table.ChunksFull` | internal/cli/table/wrap.rs:68-89 | the pieces of a long word make it up, and all but the last are as wide as the column |
| `Table.SplitLongWord` | internal/cli/table/wrap.rs:68-89 | a long word is cut into full pieces and a last one |
| `Table.WrapKeepsAndFits` | internal/cli/table/wrap.rs:14-89 | wrapping keeps every visible character but white space, in order; the visible lines fit if and only if the text is narrow enough or has a word |
| `Table.Render` | internal/cli/table/mod.rs:74-181 | for every table and terminal, rows of any length: the widths are the fitted ones and the lines are the borders, the header and the rows laid out in them |
| `Table.RowShows` | internal/cli/table/mod.rs:158-181 | every printed line of a row shows, at the place of each column, the visible text of that line of the wrapped cell and spaces, between a space and the rule; there are as many lines as the tallest cell has |
| `Table.ColumnShowsCell` | internal/cli/table/mod.rs:158-181 | over the lines of a row each column shows exactly the visible characters of its cell but white space, in order |
| `Table.BorderRuled` | internal/cli/table/mod.rs:136-156 | a border is its left corner, and over every column the rule and a crossing, the last one the right corner |
| `Table.TableShows` | internal/cli/table/mod.rs:74-83 | between its borders the table shows in every column the header and then the cells of all rows, from the top down |
| `Table.RowFits` | internal/cli/table/mod.rs:158-181 | the lines of a row as long as the header look as wide as the table if and only if its cells keep to their columns |
| `Table.RaggedRowFits` | internal/cli/table/mod.rs:158-181 | a row of another length does so if and only if it is shorter, on one line, and a cell sticks out by just what the missing columns take |
| `Table.AlignedExactly` | internal/cli/table/mod.rs:74-181 | all printed lines, borders included, have the same visible width, colour escapes in headers and cells not counted, if and only if every header and cell is narrow enough or has a word to wrap at and rows are as long as the header, or make up for missing columns as said above |
| `Tokenizer.Tokenize` | internal/manifest/tokenize.rs:20-81 | the loop computes the specified scan, errors included |
| `Tokenizer.TokenizeInverts` | internal/manifest/tokenize.rs:20-81 | any list of words, each quoted in any mixture of styles and separated by any white space, is read back as its non-empty words |
| `Tokenizer.OutcomeRead` | internal/manifest/tokenize.rs:20-81 | the outcome for words and gaps, and the exact error for a quote without end, a backslash at the end and a bad escape, wherever they stand |
| `Tokenizer.EveryInput` | internal/manifest/tokenize.rs:20-81 | every text is of one of these forms, so the outcome is known for every input |
| `Tokenizer.JoinSafeExactly` | internal/manifest/tokenize.rs:20-81 | words joined by spaces are read back if and only if each is non-empty and free of white space and quotes |
| `Tokenizer.NoTokens` | internal/manifest/tokenize.rs:20-81 | there is no token exactly in a text of white space and empty quotes |
| `Tokenizer.CommandSafeExactly` | internal/manifest/tokenize.rs:108-115 | with the wrapper that falls back to splitting at white space, words joined by spaces are read back if and only if each is non-empty and free of white space and quotes, or the words are nothing but empty quotes and hold no white space |
| `Manifest.Export` | internal/cli/commands/export/mod.rs:61-126 | the loop exports exactly the specifications of the namespace, in order, and nothing if there are none |
| `Manifest.InNamespaceHave` | internal/cli/commands/export/mod.rs:61-71 | the specifications exported are those of the namespace |
| `Manifest.InNamespaceInOrder` | internal/cli/commands/export/mod.rs:61-71 | and they are exported in order, each as often as it occurs |
| `Manifest.ToAppSpecs` | internal/manifest/convert.rs:23-33 | the nested loop yields every application in order, once per instance, or the first invalid command |
| `Manifest.InstancesInOrder` | internal/manifest/convert.rs:23-33 | each application has as many specifications as instances, at least one, behind those of the applications before it, and there are no others; or the first application with an invalid command is named |
| `Manifest.ConvertedFields` | internal/manifest/convert.rs:38-103 | an application's own namespace wins over the file's and that over the default; its other fields come over, empty and zero ones absent |
| `Manifest.ExecRoundTrip` | internal/manifest/convert.rs:38-74 | what is executed comes back, empty fields absent, if and only if it runs without a shell and is an entry point without arguments, or a command whose words need no quoting or are nothing but empty quotes, without fields of the other kind |
| `Manifest.SameRuns` | internal/daemon/manager/spawn.rs:124-160 | specifications that are the same up to empty fields run the same program with the same arguments |
| `Manifest.EntryArgumentsLost` | internal/cli/commands/export/mod.rs:92-95 | an entry point with arguments never comes back the same, and what then runs differs |
| `Manifest.LogsLost` | internal/manifest/convert.rs:105-143 | what is left of any log section; by the rule of the log setup, output still goes to files, or still does not, if and only if paths are set exactly when it goes to files |
| `Manifest.StartLogsChange` | internal/cli/commands/start/finalize.rs:54-81 | the log section of the start command comes back without its mode, so that output sent along with the daemon's own then goes to files |
| `Manifest.ExportKeeps` | internal/manifest/convert.rs:38-173 | of every specification whose manifest converts: names, directory, environment, log settings but the mode, a restart section that names its policy, up to zeros, and entry and runtime come back |
| `Manifest.ExportRoundTrip` | internal/manifest/convert.rs:38-173 | exporting and converting back gives the same specification, up to empty fields, if and only if it is exportable: what is executed comes back, a log section has no mode and sets something else, a restart section names its policy and holds no zero or empty field, and nothing is set that a manifest has no place for |
| `Manifest.NamespaceRoundTrip` | internal/cli/commands/export/mod.rs:61-119 | exporting a namespace and converting the file gives the same specifications, in order, if and only if each of them is exportable |

## Left out

- Bytes beyond ASCII: text is a sequence of one-byte characters, so slicing inside a multi-byte character, wide characters and Unicode white space are not modelled.
- Timestamps.ParseRfc3339: fields of so many digits that the sums overflow 64 bits.
- LogStamps.StampRoundTrip: is for years up to 9999; later timestamps are longer than the 19 characters that the readers take.
- Lines that end in a carriage return, which the follower strips and the batch reader keeps: well-formed logs have none.
- Partial lines that the follower reads before their newline arrives: every read delivers a whole line.
- Overflow of 64-bit counters and sums; widths of 32 bits are modelled where years, numbers of instances and parsed fields use them.
- RateLimit.UnobservableExactly: its exact condition is for whole-number capacities, the only ones the daemon configures; for any other capacity `RunsAgree` gives the one direction.
- RateLimit.RateLimiter.Allow: tokens are exact reals, so floating-point rounding does not occur, the clock is taken inside the lock, and it is past the idle window when a sweep subtracts the window from it.
- Empty lines, which the batch reader drops and the follower folds into the pending entry: well-formed logs have none.
- IpcServer.BoundedLineReader.ReadLine: read timeouts and interrupted reads end the stream like any other read error.
- IpcServer.HandleConnection: write timeouts and failed writes, which end the connection early, and replies that cannot be encoded do not occur.
- The texts of error messages.
- JSON, YAML and gzip codecs, system calls, timezone data and UUIDs are parameters or lossless by construction.
- Writers that append while a rotation copies and truncates: a rotation runs alone.
- The standard library's heap and hash map: the heap is a multiset with some least element, a map is visited in an arbitrary order.
- LogMerge.FollowMerge: the threads that feed the heap are modelled by the order of arrivals, which is arbitrary.
- The one-shot merge of several files, wait-for-file and rendering of log entries, which are sorting and printing.
- ProcTree.GetProcessTree: command names of processes, and changes of readability during one walk; which processes are readable is fixed.
- CPU percentages and formatting of numbers and durations.
- Registry.Manager.Scale: which process is the template depends on the order of iteration, so only that it is an instance of the group is stated; signalling the deleted processes is not modelled.
- Table.AlignedExactly: is about cells whose escape sequences are complete; a newline inside a cell counts as one character, and borders are printed without their colour.
- Registry.ResolveId: the message for an ambiguous selector lists the candidates in the order of iteration; the result has their set.
- Table.SplitLongWord: words are free of escape sequences, as wrapping strips them before splitting.
- Manifest.ExportRoundTrip: identifiers, versions and creation times, which are made anew, are not part of the model, nor is validation of manifests.
- Signalling and supervision of processes, the file watcher, the updater, sandboxing, completion and help texts, which are system calls or user interface.
