# ToolSmith, verified

ToolSmith is an MCP server: it reads JSON-RPC 2.0 requests line by line, runs tools for them on a pool
of threads, edits and reads files by hashed lines, drives script plugins in child processes and native
plugins in its own, renders skill templates into prompts and shell commands, and limits the rate of its
HTTP clients. This project models its stateful and its text-processing cores in Dafny and proves what
they promise.

`dafny verify dfyconfig.toml` checks everything.

## The parts

- **Hashed-line editor** (`Lines`, `LineHash`, `Hashline`, `Hunks`, `HunkApply`, `ReadCommand`,
  `EditCommand`, `EditRequests`, `PageReader`, `EditLaws`). `Hunks` says what a batch of hunks means: every hunk is checked against
  the original lines and all ranges are replaced at once. `HunkApply.ApplyHunks` sorts, checks, erases,
  inserts and renumbers bottom-up in place, and is proved to succeed exactly on the acceptable batches
  and to give exactly that replacement. The hash is 32-bit FNV-1a (section 2 of draft-eastlake-fnv) cut
  to sixteen bits; its low half evolves on its own by bijections, so a change of one byte of a line's
  normal form is always noticed. `EditRequests` says what an anchor and a request are, `PageReader` reads
  pages back from their bytes, and `EditLaws` ties reading and editing together.
- **Thread pool** (`ThreadPool`). Workers, submitters and Shutdown callers as interleaved steps, with
  pending notifications and spurious wake-ups; safety over all runs, and a measure that shows the drain
  ends.
- **Transport** (`JsonRpc`, `TransportSteps`, `TransportAnswers`, `TransportInFlight`, `TransportLaws`,
  `TransportVerdicts`, `TransportIds`, `TransportWitness`, `StdioTransport`). The reader thread and the pool
  threads of tools/call share the initialized flag, the map of requests in flight and the output. Sections
  4.1 and 5 of JSON-RPC 2.0 are the answer rules; `TransportVerdicts` states them on the members of the
  messages, with the numbers of section 5.1.
- **Line framing** (`SubprocessPipe`). One buffered line reader over chunks of any size, timeouts and the
  child's exit, what each poll finds being an input, and the two loops that collect a process's output with
  it.
- **Rate limiter** (`RateLimiter`). A token bucket per client, on 64-bit words, with the times of the
  calls as inputs.
- **Plugin adapters** (`NativePluginAdapter`, `StdioMCPAdapter`). A circuit breaker over atomic accesses
  in any interleaving, and a client that spawns, greets and asks one child at a time.
- **Skills** (`SkillTemplate`, `SkillFill`, `SkillShell`, `YamlFrontmatter`, `YamlRoundTrip`,
  `YamlDocument`, `YamlLines`). Cleaning
  and filling in templates, quoting for the shell against a lexer for sections 2.2 and 2.3 of the
  POSIX.1-2017 Shell Command Language, and the frontmatter parser against a printer.
- **Base64** (`Base64`). The example plugin's encoder against a strict decoder.

Code that works by changing state is a class or a method with loops, proved against a function; the
laws are lemmas about that function. In the concurrent parts a step is one critical section or one
atomic access, each method of the class is one step, and the laws hold for every sequence of steps.

## Where the code and its words differ

The model follows the code.

- `SanitizeVariable` is there to strip both template marks, but a `{{` can remain
  (`SkillTemplate.OpeningMarkSurvives`; exactly when, in `SkillTemplate.SanitizedMarks`).
- A limit below sixty a minute starves a client that retries every second, because each poll restarts
  the clock and loses the fraction (`RateLimiter.StarvesFromStart`). A limit of zero gives every client
  one free second, for nearly 2^64 requests, and nothing after it (`RateLimiter.ZeroLimitExact`).
- A tools/call whose arguments are neither an object nor null gets no answer at all
  (`TransportWitness.IllTypedCallUnanswered`; exactly when, in `TransportLaws.IllTypedNeverAnswered`),
  nor does one whose answer cannot be dumped as UTF-8 or whose tool throws something that is not a
  std::exception (`TransportLaws.AnsweredOnce`).
- Requests in flight are kept by the string form of their id, so the ids 1 and "1" collide
  (`TransportWitness.SharedKeyLosesEntry`; exactly when, in `TransportInFlight.ErasureLosesSharedKey` and
  `InsertionSharesKey`).
- A cancellation can reach a tool after the call it was meant for has ended, because the lock is released
  between lookup and hand-over (`TransportWitness.CancelAfterAnswer`; exactly when, in
  `TransportIds.CancelReachesHolder`).
- `next_line` counts from one and `offset` from zero: passing one as the other skips a line
  (`Hashline.PagesTile`).
- Deleting every line of a file writes a lone line feed, which reads back as one empty line
  (`EditLaws.EditedFileReadsBack`).
- `m_Initialized` survives the child it was set for when the next child's handshake fails. If that
  handshake was only late, and the next request is written and answered, that request is given the
  handshake's reply (`StdioMCPAdapter.LateGreetingMispairs`; exactly when, in `StdioMCPAdapter.AllPairedIff`); if it was
  never written or got a bad line, the flag is wrong but the replies stay paired.
- A quoted value is meant to be a single literal token, but a placeholder that stands between quotes of
  the template is not (`SkillShell.QuotedPlaceholderSplits`; exactly when, in
  `SkillShell.LiteralByParity`).
- The transport over lines puts `_requestId` into the payload (src/server/StdioTransport.cpp:268-278) and
  the native adapter reads it at the top level of the request, so its cancellations never take effect
  there and the marks only grow (`NativePluginAdapter.EmptyIdsNeverCancelled`). The HTTP path hands a
  client's request on whole (src/core/ProtocolHandler.cpp:49), so an id may arrive, but it never cancels
  (`NativePluginAdapter.NoCancelNoneCancelled`). For callers that do both, which neither path does on its
  own, a mark set after its call has ended cancels the next call with that id
  (`NativePluginAdapter.MarkHitsNextCall`).

## Model

| member | source | states |
|---|---|---|
| `Lines.SplitUnlines` | src/core/Hashline.cpp:32-50 | Printing lines and splitting at line feeds gives the same lines back if and only if none ends in a carriage return; otherwise each comes back without one |
| `Lines.RawLinesExact` | src/core/Hashline.cpp:36-48 | Cutting at line feeds loses nothing: the pieces, each followed by a line feed, are the text, with one more line feed exactly when it did not end in one |
| `Lines.SplitStripsRaw` | src/core/Hashline.cpp:40-41 | The lines are those pieces with one carriage return taken off each end |
| `Lines.SplitAfterLines` | src/core/Hashline.cpp:36-48 | Splitting works front to back: printed lines come out first, whatever follows |
| `LineHash.NormalizeLine` | src/core/Hashline.cpp:9-18 | The loops over the bytes compute the normal form |
| `LineHash.NormalizedTrims` | src/core/Hashline.cpp:11-16 | The normal form is the line with tabs as spaces, less all blanks at both ends and nothing else |
| `LineHash.TrimUnique` | src/core/Hashline.cpp:14-16 | That description has one answer |
| `LineHash.NormalizeIdempotent` | src/core/Hashline.cpp:9-18 | Normalizing twice is normalizing once |
| `LineHash.FnvLowHalf` | src/core/Hashline.cpp:22-28 | The low sixteen bits of 32-bit FNV-1a are a sixteen-bit fold of their own (multiplier 403), for every state and text |
| `LineHash.StepInjective` | src/core/Hashline.cpp:24-25 | One step of the fold is one-to-one in the state and in the byte (403 has the inverse 17563 modulo 65536) |
| `LineHash.FoldSeesOneByte` | src/core/Hashline.cpp:22-26 | From any state, two texts of equal length that differ in one byte end in different states |
| `LineHash.Hex4Injective` | src/core/Hashline.cpp:27-29 | Different sixteen-bit values print to different anchors |
| `LineHash.Hash` | src/core/Hashline.cpp:20-30 | The 32-bit loop and the four printed digits are the sixteen-bit fold (basis 0x9DC5) of the normal form |
| `LineHash.HashIgnoresNormalization` | src/core/Hashline.cpp:20-21 | A line and its normal form have the same anchor |
| `LineHash.HashDetectsOneByte` | src/core/Hashline.cpp:20-30 | Lines whose normal forms differ in exactly one byte at equal length have different anchors |
| `LineHash.KnownHashes` | src/core/Hashline.cpp:9-30 | The anchors of three lines, blanks and a tab among them, digit by digit |
| `Hashline.ParseFile` | src/core/Hashline.cpp:32-50 | The scan over the bytes returns the split of the content, numbered from 1, each line with its hash |
| `Hashline.ParsePrint` | src/core/Hashline.cpp:32-50 | Printed texts parse back to the same texts, renumbered and rehashed, if and only if none ends in a carriage return |
| `Hashline.FormatRead` | src/core/Hashline.cpp:52-75 | The page is the rows from the offset on, at most the limit (PageReader says what a row is); truncated says whether lines are left and nextLine names the first of them |
| `Hashline.PagesTile` | src/core/Hashline.cpp:60-65 | A page and the page at nextLine - 1 print together one page of both lengths; the page at nextLine itself skips the line named |
| `Hashline.WalkPrintsAll` | src/core/Hashline.cpp:52-75 | Paging to the end prints every line from the offset on, once and in order, for every page length |
| `ReadCommand.Read` | src/commands/CoreTools.cpp:189-216 | A page is given exactly when the file is no binary, the limit positive and the offset in the file: 200 lines unless another length up to 500 is asked for, and as many as are left; each refusal has its own error |
| `PageReader.DecimalExact` | src/core/Hashline.cpp:68 | A line number is printed in decimal digits of its value, without a zero in front |
| `PageReader.PageReads` | src/core/Hashline.cpp:66-71 | A page reads back: cut at its line feeds and each row at its first bar, it gives the number, the four hash bytes and the text of every line, and without hashes the number and the text |
| `PageReader.FilePageReads` | src/core/Hashline.cpp:52-75 | So does every page of every file: its rows are the lines asked for, in order, numbered from one, each with the hash of its text |
| `PageReader.AnchorOfRow` | src/core/Hashline.cpp:68 | Number, colon and hash copied out of the bytes of a row are an anchor of its line |
| `Hunks.AcceptablePermuted` | src/core/Hashline.cpp:86-125 | Whether a batch is acceptable does not depend on the order of its hunks |
| `Hunks.ReplacePermuted` | src/core/Hashline.cpp:88-161 | Nor does its result |
| `Hunks.ReplaceLayout` | src/core/Hashline.cpp:104-161 | Length of the result; every line outside all ranges is at its old place plus the growth above it; every range is its content, whole |
| `Hunks.SurvivorPlaced` | src/core/Hashline.cpp:153-157 | Where one surviving line stands in the result |
| `Hunks.ContentPlaced` | src/core/Hashline.cpp:127-157 | Where the content of one hunk stands in the result |
| `HunkApply.SortByStart` | src/core/Hashline.cpp:88-95 | By start line, either way: the result is sorted and a permutation |
| `HunkApply.FindOverlap` | src/core/Hashline.cpp:96-102 | Adjacent pairs suffice: no adjacent overlap in start order means every earlier range ends above every later one |
| `HunkApply.Inserted` | src/core/Hashline.cpp:127-151 | The byte loop builds the lines of the split content with their hashes |
| `HunkApply.CheckHunk` | src/core/Hashline.cpp:106-125 | The checks pass exactly when the hunk is well formed, in the copy and its anchors match it; the error says which check failed |
| `HunkApply.Splice` | src/core/Hashline.cpp:153-160 | Erase, insert and renumber on the working copy |
| `HunkApply.ChecksOriginal` | src/core/Hashline.cpp:109-125 | Checking the mutated copy bottom-up is checking the original file |
| `HunkApply.OverlapRefused` | src/core/Hashline.cpp:96-102 | A batch refused for overlap has overlapping ranges |
| `HunkApply.SpliceExtends` | src/core/Hashline.cpp:104-161 | One splice extends the finished part of the simultaneous replacement upwards: the loop invariant |
| `HunkApply.AcceptedInOrder` | src/core/Hashline.cpp:92-125 | A batch that passes all checks one by one is acceptable as a whole |
| `HunkApply.Join` | src/core/Hashline.cpp:163-171 | The texts joined by line feeds |
| `HunkApply.ApplyHunks` | src/core/Hashline.cpp:84-172 | Succeeds if and only if the batch is acceptable for the original lines; then the content is the original with all ranges replaced at once. A failure gives no content and an error that is true of the original: no hunks first, then overlap (for ranges that do not run backwards, exactly when two meet), then the failing check of a hunk below which all pass |
| `EditCommand.ParseAnchor` | src/commands/CoreTools.cpp:253-260 | An anchor has a positive line and a hash of four bytes |
| `EditCommand.AnchorRoundTrip` | src/commands/CoreTools.cpp:253-260 | An anchor printed for a line reads back as that line |
| `EditRequests.NumberExact` | src/commands/CoreTools.cpp:256 | What std::stoi reads: blanks, perhaps a sign, at least one digit, anything after them; the digits have that decimal value, within 32 bits |
| `EditRequests.AnchorExact` | src/commands/CoreTools.cpp:253-260 | A text is an anchor exactly when such a positive number stands before its first colon and four bytes behind it, and then it names that line and hash |
| `EditRequests.RequestExact` | src/commands/CoreTools.cpp:249-268 | A request parses to a hunk if and only if its content is given and is the content of the hunk, its start is an anchor of the start, and its end is empty and there is no end line, or is an anchor of the end |
| `EditRequests.ParsesExact` | src/commands/CoreTools.cpp:247-269 | The same for lists |
| `EditRequests.FaultExact` | src/commands/CoreTools.cpp:261-266 | Which of the three errors a request has: the start is no anchor, else the end is given and is none, else the content is missing |
| `EditRequests.FirstFault` | src/commands/CoreTools.cpp:248-267 | A list of requests has the error of the first one at fault |
| `EditRequests.BinaryExact` | src/commands/CoreTools.cpp:53-57 | Binary is a zero among the first 8192 bytes |
| `EditCommand.ParseRequests` | src/commands/CoreTools.cpp:248-269 | Every request parses, in order, or the error is that of the first that does not |
| `EditCommand.EditTarget.constructor` | src/commands/CoreTools.cpp:243-245 | The file as it was read |
| `EditCommand.EditTarget.Execute` | src/commands/CoreTools.cpp:233-278 | All or nothing: the edit goes through if and only if the request is well formed and acceptable, and then the file is the simultaneous replacement; otherwise every byte stays and the error is that of the first failing stage, no hunks, binary file, request at fault, batch refused, and true |
| `EditLaws.EditedFileReadsBack` | src/core/Hashline.cpp:126-171 | The written file parses to exactly the edited lines, renumbered and rehashed, if and only if a line is left and no text ends in a carriage return |
| `EditLaws.EditThenRead` | src/commands/CoreTools.cpp:270-275 | The same for every accepted edit of every file |
| `EditLaws.ReadThenEdit` | src/commands/CoreTools.cpp:248-272 | With anchors copied out of the bytes of a page of an unchanged file, any batch of disjoint ranges of its rows, in any order, goes through, as the hunks of those lines |
| `EditLaws.WishesWritten` | src/core/Hashline.cpp:104-171 | and the file written is the old lines with the new ones in place of those ranges, byte for byte |
| `EditLaws.OneByteMakesStale` | src/core/Hashline.cpp:114-118 | A start line changed in one byte of its normal form since it was seen makes the batch refused |
| `EditLaws.OneByteMakesEndStale` | src/core/Hashline.cpp:119-125 | So does such a change of the line a longer range ends at |
| `ThreadPool.InvInit` | src/core/ThreadPool.cpp:3-21 | The invariants hold of a new pool of any size |
| `ThreadPool.InvStep` | src/core/ThreadPool.cpp:7-37 | Every step of every thread, spurious wake-ups included, keeps all invariants |
| `ThreadPool.InvRun` | src/core/ThreadPool.cpp:7-37 | So does every run |
| `ThreadPool.FifoAndConserved` | src/core/ThreadPool.cpp:10-17 | In every interleaving tasks start in the order accepted, and every accepted task is queued, running or finished, exactly once |
| `ThreadPool.QueueIsServed` | src/core/ThreadPool.cpp:12-15 | No lost wake-up: a non-empty queue has a worker awake or a notification on its way |
| `ThreadPool.NothingAcceptedAfterStop` | include/core/ThreadPool.h:40-44 | Once stopping, nothing is accepted any more, in any run |
| `ThreadPool.AcceptedIsSubmitted` | include/core/ThreadPool.h:34-47 | In every run of a pool of n threads the tasks accepted are those submitted before the first stop, in that order; there are n workers, one if n is zero |
| `ThreadPool.SubmittedAllRan` | src/core/ThreadPool.cpp:30-38 | So once all workers have left, exactly those have run, each once |
| `ThreadPool.JoinedMeansAllRan` | src/core/ThreadPool.cpp:30-38 | When all workers have left, exactly the accepted tasks have run, each once |
| `ThreadPool.DrainDecreases` | src/core/ThreadPool.cpp:8-17 | After stopping every step of the pool brings the end nearer |
| `ThreadPool.DrainProgresses` | src/core/ThreadPool.cpp:8-17 | and while a worker is left there is a step to make |
| `ThreadPool.DrainEnds` | src/core/ThreadPool.cpp:30-38 | So draining ends after boundedly many steps, with every accepted task run |
| `ThreadPool.WorkerPool.constructor` | src/core/ThreadPool.cpp:3-21 | At least one worker, an empty queue |
| `ThreadPool.WorkerPool.Submit` | include/core/ThreadPool.h:34-47 | Refused with nothing changed once stopping, else queued at the back with a notification due |
| `ThreadPool.WorkerPool.SendNotifyOne` | include/core/ThreadPool.h:45 | notify_one wakes one sleeper if there is one |
| `ThreadPool.WorkerPool.WakeUp` | src/core/ThreadPool.cpp:12 | A spurious wake-up |
| `ThreadPool.WorkerPool.TakeTurn` | src/core/ThreadPool.cpp:11-15 | The critical section: wait, leave, or take the front task |
| `ThreadPool.WorkerPool.TaskReturns` | src/core/ThreadPool.cpp:17 | A running task ends |
| `ThreadPool.WorkerPool.SendNotifyAll` | src/core/ThreadPool.cpp:35 | notify_all wakes every sleeper |
| `ThreadPool.WorkerPool.Shutdown` | src/core/ThreadPool.cpp:30-38 | Stops and then runs steps of the workers, in any order, until all have left; it returns, and then every task accepted before has run once |
| `StdioTransport.Transport.constructor` | src/server/StdioTransport.cpp:33-51 | Not initialized, nothing in flight |
| `StdioTransport.Transport.TestRunning` | src/server/StdioTransport.cpp:83 | The head of the read loop |
| `StdioTransport.Transport.ReadLine` | src/server/StdioTransport.cpp:83-126 | The loop body: which lines are answered at once with which error, which start a call, which end the loop by an exception |
| `StdioTransport.Transport.DispatchMessage` | src/server/StdioTransport.cpp:141-192 | The order of the branches and the error codes |
| `StdioTransport.Transport.HandleCancelNotification` | src/server/StdioTransport.cpp:789-800 | The lookup under the lock |
| `StdioTransport.Transport.ForwardCancel` | src/server/StdioTransport.cpp:802-805 | The cancellation goes to the tool if it is still registered |
| `StdioTransport.Transport.CheckCall` | src/server/StdioTransport.cpp:158-268 | The checks of a call in front of its tool |
| `StdioTransport.Transport.InsertEntry` | src/server/StdioTransport.cpp:270-273 | The entry is made before the tool starts |
| `StdioTransport.Transport.ToolEnds` | src/server/StdioTransport.cpp:280-281 | By a result, a std::exception or anything else thrown |
| `StdioTransport.Transport.EraseEntry` | src/server/StdioTransport.cpp:283-312 | Either erasure, and the one after the other when the result is ill formed |
| `StdioTransport.Transport.SendAnswer` | src/server/StdioTransport.cpp:114-117 | Sent only with an id; an answer that cannot be dumped is lost |
| `StdioTransport.Transport.RequestStop` | src/server/StdioTransport.cpp:133-135 | The flag the loop head tests |
| `StdioTransport.Transport.PushNotification` | src/server/StdioTransport.cpp:137-139 | A message without an id, at any time, from any thread |
| `StdioTransport.Transport.SendMessage` | src/server/StdioTransport.cpp:838-842 | One message at a time is appended to the output |
| `StdioTransport.Transport.Outside` | src/server/StdioTransport.cpp:133-139 | Any number of notifications and calls of Stop from other threads |
| `StdioTransport.Transport.Run` | src/server/StdioTransport.cpp:60-131 | A run of the steps, with the calls going on beside the reader in any order, notifications and Stop at any time; it comes to its end, and when it returns everything due has been said |
| `TransportAnswers.CallsOkStep` | src/server/StdioTransport.cpp:141-312 | Every step keeps: no tool reached and no result or internal error said unless initialized and well formed |
| `TransportAnswers.BalancedStep` | src/server/StdioTransport.cpp:83-126 | Every step keeps: ids answered plus ids still owed are the ids due |
| `TransportAnswers.ReaderOkStep` | src/server/StdioTransport.cpp:83-131 | Every step keeps: the reader is inside at most one call without an id, and leaves its loop only at the end of input or after Stop |
| `TransportLaws.AnsweredOnce` | src/server/StdioTransport.cpp:83-131 | In every interleaving Run throws if and only if a step of the reader or of a call without an id failed; when it returns, the answers written are those due, each once under its own id, if and only if no step of a call with an id failed |
| `TransportLaws.AllAnswered` | src/server/StdioTransport.cpp:83-131 | For input with string methods and object or null arguments, with handlers and tools that throw nothing but std::exceptions and answers that can be dumped: Run never throws, and when it returns every request with an id has exactly one answer, and notifications none |
| `TransportLaws.CleanRunReturns` | src/server/StdioTransport.cpp:60-131 | Such a session that nobody stops returns after at most 12 steps a line and two more, with every line read and every request answered |
| `TransportLaws.HandlersNeedInitialize` | src/server/StdioTransport.cpp:157-190 | What a handler on the reader thread does, tools/call_batch and its tools included, makes a difference if and only if the session is initialized and the line asks for such a handler |
| `TransportLaws.ServedRefused` | src/server/StdioTransport.cpp:157-160 | Before that the request is refused and nothing else happens |
| `TransportLaws.VerdictsDelivered` | src/server/StdioTransport.cpp:114-117 | The output holds, for every answered call, its own verdict under its own id |
| `TransportVerdicts.ReaderReplies` | src/server/StdioTransport.cpp:83-192 | What the reader answers to a line itself, from its members, the flag and its handler: -32700, -32600, -32601, a result, what the handler gives, or nothing |
| `TransportVerdicts.ReaderDoes` | src/server/StdioTransport.cpp:83-192 | What else a line does: initialize raises the flag, tools/call starts a call with the id, key and parameters of the line |
| `TransportVerdicts.ReaderGoes` | src/server/StdioTransport.cpp:83-192 | Where the reader goes: into a call without an id, on to hand over a cancellation whose request is in flight, out of Run, or back to its test |
| `TransportVerdicts.OutputExact` | src/server/StdioTransport.cpp:83-139 | In every run the output is what its steps say, in their order, and nothing else: the reader's answers, notifications, answers of calls; and the tools are handed the cancellations of its steps |
| `TransportVerdicts.VerdictFromSteps` | src/server/StdioTransport.cpp:157-312 | In every run a call is answered -32600 before an initialize, -32602 for no name or an unknown tool, a result exactly for a result that can be read, -32603 for a std::exception or an unreadable result; and it is dropped for three reasons only |
| `TransportVerdicts.EndDecides` | src/server/StdioTransport.cpp:280-312 | The end a run gives a tool, wherever it stands in the run, decides the answer of its call |
| `TransportVerdicts.StopEndsReading` | src/server/StdioTransport.cpp:83-135 | Nothing but Stop clears the flag, and then at most the line about to be read is read |
| `TransportVerdicts.CallsFromLines` | src/server/StdioTransport.cpp:83-119 | In every run the session is initialized exactly when an initialize has been read, and the calls are those of the tools/call lines read, in order |
| `TransportLaws.IllTypedNeverAnswered` | src/server/StdioTransport.cpp:247-268 | A call is dropped for its arguments if and only if the session is initialized, the tool known and the arguments neither an object nor null |
| `TransportLaws.NoToolBeforeInitialize` | src/server/StdioTransport.cpp:157-167 | In no interleaving is a tool reached, or anything but a parse error or an invalid request answered, before an initialize request was read; a result or an internal error comes only from a tool the call names |
| `TransportInFlight.SoundStep` | src/server/StdioTransport.cpp:270-312 | Every step keeps: each entry belongs to a call of that tool under that id |
| `TransportInFlight.ErasureLosesSharedKey` | src/server/StdioTransport.cpp:283-286 | An erasure leaves the other calls their entries if and only if none of them shares its key |
| `TransportInFlight.InsertionSharesKey` | src/server/StdioTransport.cpp:270-273 | An insertion leaves the other calls their entries if and only if every one that shares its key runs the same tool |
| `TransportInFlight.NumberAndStringShareKey` | src/server/StdioTransport.cpp:267 | The ids 1 and "1" share a key |
| `TransportIds.InFlightExact` | src/server/StdioTransport.cpp:267-313 | When calls that run at the same time have different keys, in every interleaving and on every way out the map is exactly the calls between insertion and completion; an id may come back once its call is over |
| `TransportIds.DistinctIdsExact` | src/server/StdioTransport.cpp:267-313 | In particular when no id comes back at all, and then entries left behind stay too |
| `TransportLaws.NothingInFlightAtReturn` | src/server/StdioTransport.cpp:128-130 | When Run returns an entry is left only by a tool that threw something other than a std::exception |
| `TransportIds.CancelAimsAtRunning` | src/server/StdioTransport.cpp:789-800 | A cancellation goes on only to a tool that a call holds under that id; and to the running one, whenever there is one and calls that run at the same time have different keys |
| `TransportIds.HoldsUntilErased` | src/server/StdioTransport.cpp:270-312 | A call that holds an entry holds it until its own erasure and never again, over every run |
| `TransportIds.CancelReachesHolder` | src/server/StdioTransport.cpp:795-805 | The lock is released before the hand-over: the call looked up still holds its entry then if and only if it made no erasure in between |
| `TransportIds.CancelsStayAimed` | src/server/StdioTransport.cpp:802-805 | Every cancellation handed over names a call that was made of that tool under that id |
| `TransportWitness.IllTypedCallUnanswered` | src/server/StdioTransport.cpp:247-268 | For all ids and tools: after an initialize, a call whose arguments are neither an object nor null is left unanswered when Run returns |
| `TransportWitness.SharedKeyLosesEntry` | src/server/StdioTransport.cpp:267-286 | A number and a string of the same digits in flight: the first call to end takes the entry of the other, which runs on |
| `TransportWitness.CancelAfterAnswer` | src/server/StdioTransport.cpp:795-805 | A cancellation is handed to its tool after the call it was looked up for has ended and been answered |
| `TransportLaws.RunEnds` | src/server/StdioTransport.cpp:60-131 | Every run of the transport is bounded by its remaining work, and until Run is over there is a step to make that does not fail |
| `SubprocessPipe.Pipe.constructor` | src/plugins/SubprocessPipe.cpp:93-94 | An empty buffer in front of what the child writes |
| `SubprocessPipe.Pipe.AppendStdout` | src/plugins/SubprocessPipe.cpp:115-120 | One read of at most 4096 bytes of what is there: those bytes move to the buffer, in order |
| `SubprocessPipe.Pipe.TakeLine` | src/plugins/SubprocessPipe.cpp:98-105 | A line exactly when a line feed is buffered: the first line of everything pending, less one carriage return |
| `SubprocessPipe.Pipe.TakeRemainder` | src/plugins/SubprocessPipe.cpp:107-113 | What is left without a line feed, if anything |
| `SubprocessPipe.Pipe.ReadLine` | src/plugins/SubprocessPipe.cpp:93-139 | For all chunkings, timeouts and exits: a line comes if and only if before some poll a line feed has been read, or a poll with nothing to read finds the child dead and text is left; it is the first line of what was pending, a call without one loses nothing, and a line without its line feed comes only after the exit, last |
| `SubprocessPipe.BufferedLineComes` | src/plugins/SubprocessPipe.cpp:122-123 | A line already buffered is delivered by every call that polls at all |
| `SubprocessPipe.NoLineMeans` | src/plugins/SubprocessPipe.cpp:122-138 | A call gives no line if and only if nothing is left, or at every poll no line feed has been read and the poll reads bytes or finds the child alive |
| `SubprocessPipe.PollReads` | src/plugins/SubprocessPipe.cpp:115-126 | A poll that finds bytes reads them, up to 4096, until all are read |
| `SubprocessPipe.Pipe.AppendLines` | src/commands/CoreTools.cpp:97-104 | Lines taken plus lines pending are the lines there were; it ends when a call gives nothing or the cap is passed, and has all of them, to the last byte of the child, if its calls find the child dead and the cap is not passed |
| `SubprocessPipe.Pipe.Collect` | src/commands/CoreTools.cpp:118-138 | The same over rounds: every line of the child if some round that is reached finds it dead, the last one after the loop included |
| `RateLimiter.Limiter.constructor` | src/security/RateLimiter.cpp:3-4 | No buckets |
| `RateLimiter.Limiter.AllowRequest` | src/security/RateLimiter.cpp:6-31 | The new bucket and the verdict; all other buckets untouched |
| `RateLimiter.Limiter.Reset` | src/security/RateLimiter.cpp:33-36 | All buckets are gone |
| `RateLimiter.TokensBounded` | src/security/RateLimiter.cpp:10-28 | After any calls of any clients no bucket holds more than the limit |
| `RateLimiter.RefreshPaid` | src/security/RateLimiter.cpp:17-24 | A refresh pays for the tokens it adds out of the seconds it uses up |
| `RateLimiter.WindowBound` | src/security/RateLimiter.cpp:6-31 | Over any stretch of at most W seconds of any run a client is allowed at most limit + floor(W * limit / 60) requests |
| `RateLimiter.ClientsIndependent` | src/security/RateLimiter.cpp:10-16 | What a client is allowed depends on its own calls alone |
| `RateLimiter.RefreshKeeps` | src/security/RateLimiter.cpp:20-24 | Without wrap-around a refresh takes no token and never passes the limit |
| `RateLimiter.IdleMinuteRestores` | src/security/RateLimiter.cpp:20-29 | After sixty idle seconds the next requests pass, as many as the limit, whatever other clients do in between |
| `RateLimiter.BurstAfterIdle` | src/security/RateLimiter.cpp:17-30 | Exactly how many of n requests at once pass: the tokens held and floor(seconds * limit / 60) for the whole seconds since the last refill, up to the limit |
| `RateLimiter.NewClientPasses` | src/security/RateLimiter.cpp:10-14 | So do the first requests of a client not seen before |
| `RateLimiter.PollingStarves` | src/security/RateLimiter.cpp:17-24 | An empty bucket polled at any period of a second or more never recovers if and only if the whole seconds of a period times the limit are below 60 |
| `RateLimiter.StarvesFromStart` | src/security/RateLimiter.cpp:6-31 | From a new limiter: a client that spends its allowance at once and retries at such a period gets nothing more under the same condition, and only then |
| `RateLimiter.ZeroLimitExact` | src/security/RateLimiter.cpp:10-31 | With limit zero, from a new limiter: a call is allowed if and only if it is the client's first or comes less than a second after it, while the 2^64 - 1 tokens last |
| `RateLimiter.ZeroLimitLeaks` | src/security/RateLimiter.cpp:12 | A limit of zero lets the first request through and leaves 2^64 - 1 tokens |
| `NativePluginAdapter.ActiveCountsExecuting` | src/plugins/NativePluginAdapter.cpp:69-102 | In every interleaving the counter is the number of calls inside the plugin, on all exits |
| `NativePluginAdapter.AccessDecides` | src/plugins/NativePluginAdapter.cpp:34-135 | In any run, how a call ends: turned away if and only if a shutdown was requested, three faults are counted or eight calls are inside when it looks; a fault when the plugin threw or took too long; cancelled for a mark; else answered; and what each ending does to the count and the marks |
| `NativePluginAdapter.MarksExact` | src/plugins/NativePluginAdapter.cpp:19-22 | An id is marked exactly when a cancellation for it came and no call was reported cancelled for it since |
| `NativePluginAdapter.TrippedForGood` | src/plugins/NativePluginAdapter.cpp:44-53 | Tripped with no call past the check that could clear it, the breaker stays tripped over every run and turns every later call away |
| `NativePluginAdapter.InFlightRearms` | src/plugins/NativePluginAdapter.cpp:104-133 | A call in flight that is not marked cancelled can clear a tripped breaker |
| `NativePluginAdapter.TurnedAwayStays` | src/plugins/NativePluginAdapter.cpp:34-136 | A call that has ended stays as it ended |
| `NativePluginAdapter.ThreeFaultsDisable` | src/plugins/NativePluginAdapter.cpp:44-133 | In every run of calls one after another, marks and a shutdown coming at any time: the count is the streak of faults since the last answer, and the plugin is called if and only if there was no shutdown and that streak is below three, so never again after three |
| `NativePluginAdapter.MarkStays` | src/plugins/NativePluginAdapter.cpp:104-113 | A cancellation mark stays until a call with that id, perhaps a later one, is reported cancelled for it |
| `NativePluginAdapter.EmptyIdsNeverCancelled` | src/plugins/NativePluginAdapter.cpp:32-32 | When no request carries an id at its top level, as the transport over lines builds them, no call of any run is reported cancelled and no mark is ever taken away |
| `NativePluginAdapter.NoCancelNoneCancelled` | src/plugins/NativePluginAdapter.cpp:104-113 | Nor is one when nobody cancels, as over HTTP, whatever ids the requests carry |
| `NativePluginAdapter.MarkedCallCancelled` | src/plugins/NativePluginAdapter.cpp:104-113 | A marked call that passes the checks and whose plugin returns is reported cancelled and the mark is gone |
| `NativePluginAdapter.MarkHitsNextCall` | src/plugins/NativePluginAdapter.cpp:19-22 | For a caller that both passes ids and cancels: cancelled after its answer, a call makes the next one with its id end as cancelled |
| `NativePluginAdapter.Plugin.constructor` | src/plugins/NativePluginAdapter.cpp:15-17 | No faults, no calls, no marks |
| `NativePluginAdapter.Plugin.CancelRequest` | src/plugins/NativePluginAdapter.cpp:19-22 | The id is marked |
| `NativePluginAdapter.Plugin.Stop` | src/plugins/NativePluginAdapter.cpp:24-26 | The flag is set |
| `NativePluginAdapter.Plugin.Access` | src/plugins/NativePluginAdapter.cpp:34-135 | One atomic access of one call |
| `NativePluginAdapter.Plugin.Execute` | src/plugins/NativePluginAdapter.cpp:28-136 | A whole call alone: a run of the steps; the plugin is called if and only if there was no shutdown and the streak of faults is below three; only faults and answers move the count |
| `StdioMCPAdapter.Client.constructor` | include/plugins/StdioMCPAdapter.h:50-55 | No child yet |
| `StdioMCPAdapter.Client.EnsureRunning` | src/plugins/StdioMCPAdapter.cpp:35-99 | Whether a greeted child is there, and the new state: respawn counted, flag raised only by a handshake that succeeds |
| `StdioMCPAdapter.Client.SendRequest` | src/plugins/StdioMCPAdapter.cpp:101-184 | One exchange: the result and the new state on every way out, a failed write or read lowering the flag |
| `StdioMCPAdapter.Client.Close` | src/plugins/StdioMCPAdapter.cpp:206-212 | The child and the flag are dropped |
| `StdioMCPAdapter.AtMostThreeChildren` | src/plugins/StdioMCPAdapter.cpp:39-47 | Over any run at most three children are spawned |
| `StdioMCPAdapter.UsableAsks` | src/plugins/StdioMCPAdapter.cpp:101-184 | With a running child behind the flag none is spawned; the request goes to it under the next id, and a failed write or a missing reply lowers the flag |
| `StdioMCPAdapter.UnusableRespawns` | src/plugins/StdioMCPAdapter.cpp:35-184 | Otherwise one is spawned and greeted, if spawning works and fewer than three were; a request then written and answered gets its own reply; without a greeted child nothing is sent |
| `StdioMCPAdapter.PairedIffBalanced` | src/plugins/StdioMCPAdapter.cpp:138-175 | A reply is that of the request just sent if and only if the child owed nothing before |
| `StdioMCPAdapter.MispairedIff` | src/plugins/StdioMCPAdapter.cpp:138-175 | A request is given another's reply if and only if it is written to a running, initialized child that owes one, and a line comes in time |
| `StdioMCPAdapter.EvenIff` | src/plugins/StdioMCPAdapter.cpp:45-92 | A step makes the child owe a reply while the flag is up if and only if a handshake under the flag of a dead child was written and no line came in time |
| `StdioMCPAdapter.AllPairedIff` | src/plugins/StdioMCPAdapter.cpp:35-184 | Over runs of any length all replies are paired if and only if no such late handshake is followed at once by a request that is written and answered |
| `StdioMCPAdapter.PairedThroughout` | src/plugins/StdioMCPAdapter.cpp:35-184 | Over every run without a late handshake under a standing flag all replies are paired; handshakes that were never written or got a bad line do no harm |
| `StdioMCPAdapter.LateMispairs` | src/plugins/StdioMCPAdapter.cpp:66-71 | Right after a late one, the next request that is written and answered is given the reply to that handshake |
| `StdioMCPAdapter.TruthfulIff` | src/plugins/StdioMCPAdapter.cpp:45-92 | A step makes the flag lie if and only if a handshake fails while the flag of a dead child is still up |
| `StdioMCPAdapter.TruthfulPairs` | src/plugins/StdioMCPAdapter.cpp:101-184 | While the flag tells the truth every reply is paired |
| `StdioMCPAdapter.TruthfulThroughout` | src/plugins/StdioMCPAdapter.cpp:35-184 | Over every run without a failed handshake under a standing flag the flag tells the truth |
| `StdioMCPAdapter.CalmRunsPaired` | src/plugins/StdioMCPAdapter.cpp:35-184 | In particular when no child exits between calls |
| `StdioMCPAdapter.LateGreetingMispairs` | src/plugins/StdioMCPAdapter.cpp:66-71 | A run in which a late greeting is taken for the reply to the next request |
| `SkillTemplate.SanitizeVariable` | src/skills/SkillEngine.cpp:120-131 | Both find-and-erase loops end, in one pass over each mark |
| `SkillTemplate.HalveIsParity` | src/skills/SkillEngine.cpp:124-129 | That pass cuts every maximal run of a brace to its parity |
| `SkillTemplate.SanitizedMarks` | src/skills/SkillEngine.cpp:120-131 | No "}}" remains; a "{{" remains if and only if two odd runs of "{" stand in the value with an even number of "}" between them and otherwise only even runs of "{" |
| `SkillTemplate.OpeningMarkSurvives` | src/skills/SkillEngine.cpp:121-129 | One value for which "{{" remains |
| `SkillTemplate.Interpolate` | src/skills/SkillEngine.cpp:133-157 | The iterator loop gives the segment-wise value of the template |
| `SkillTemplate.SegmentsPrint` | src/skills/SkillEngine.cpp:135-154 | Cutting a template into segments loses nothing |
| `SkillTemplate.InterpolatesSegmentwise` | src/skills/SkillEngine.cpp:141-154 | A template printed from literals and placeholders is filled in place by place; what is put in is never scanned again |
| `SkillFill.MatchExact` | src/skills/SkillEngine.cpp:135 | A placeholder is two braces, one or more letters, digits or underscores, and two braces, and nothing else is one |
| `SkillFill.FillLeftmost` | src/skills/SkillEngine.cpp:141-154 | The leftmost placeholder becomes its cleaned value, or stays when the variable is not given; the text before it stays, the text behind it is filled in turn |
| `SkillFill.FillNothing` | src/skills/SkillEngine.cpp:149-151 | With no variable the template asks for, filling gives the template back |
| `SkillTemplate.StaticRenderPrompt` | src/skills/SkillEngine.cpp:110-118 | The first required variable not given is the error; else the template is filled |
| `SkillShell.ShellEscape` | src/skills/SkillToolAdapter.cpp:29-36 | The loop gives the value in single quotes, each quote in it closed, escaped and opened again |
| `SkillShell.SanitizeEscapeCommute` | src/skills/SkillToolAdapter.cpp:85-97 | Cleaning a quoted value is quoting the cleaned value, for every value |
| `SkillShell.EscapedReads` | src/skills/SkillToolAdapter.cpp:29-36 | Read by the shell, a quoted value adds exactly its own characters to the word it stands in |
| `SkillShell.EscapedIsOneWord` | src/skills/SkillToolAdapter.cpp:29-36 | and on its own is one word |
| `SkillShell.LiteralByParity` | src/skills/SkillToolAdapter.cpp:15-38 | Behind any text of plain characters, blanks and quoted parts, every value is one literal piece if and only if the number of quotes before it is even; if it is odd the value is read as shell text |
| `SkillShell.QuotedPlaceholderSplits` | src/skills/SkillToolAdapter.cpp:15-38 | A value between quotes of the template comes apart |
| `SkillShell.EscapeVariables` | src/skills/SkillToolAdapter.cpp:85-91 | Strings are quoted, other values kept |
| `SkillShell.BuildCommand` | src/skills/SkillToolAdapter.cpp:83-103 | The first missing required variable and an empty result are errors, exactly then; otherwise the command is the template filled with the quoted values |
| `SkillShell.ShellSeesIntendedWords` | src/skills/SkillToolAdapter.cpp:83-105 | Whatever strings, numbers, booleans and nulls the variables hold, and with any single-quoted text around the placeholders, the shell sees as many words as the template meant, each placeholder contributing its cleaned value |
| `SkillShell.CommandKeepsItsShape` | src/skills/SkillToolAdapter.cpp:83-105 | The same for the command built from a printed template |
| `YamlFrontmatter.ReadLine` | src/skills/YamlFrontmatter.cpp:97-137 | The branches for one line |
| `YamlFrontmatter.ReadLines` | src/skills/YamlFrontmatter.cpp:89-137 | The line loop is the fold over the split text |
| `YamlFrontmatter.ParseYamlFrontmatter` | src/skills/YamlFrontmatter.cpp:62-139 | The parser meets its specification, errors included |
| `YamlRoundTrip.UnquoteShown` | src/skills/YamlFrontmatter.cpp:13-22 | A quoted or bare scalar loses its quotes and nothing else |
| `YamlRoundTrip.KeyLineNext` | src/skills/YamlFrontmatter.cpp:115-136 | A line is cut at its first colon, so later ones stay in the value |
| `YamlRoundTrip.EntryFold` | src/skills/YamlFrontmatter.cpp:97-137 | The lines of an entry add its text, list or map under its key, whatever came before |
| `YamlRoundTrip.EntriesAll` | src/skills/YamlFrontmatter.cpp:97-137 | The lines of distinct entries add all of them |
| `YamlLines.TrimExact` | src/skills/YamlFrontmatter.cpp:6-11 | Trimming takes the blanks at both ends and nothing else |
| `YamlLines.UnquoteExact` | src/skills/YamlFrontmatter.cpp:13-22 | One pair of equal quotes around the trimmed text is taken off |
| `YamlLines.SilentAnywhere` | src/skills/YamlFrontmatter.cpp:97-114 | Blank lines, comments, and lines without a colon that are no list items, put in anywhere, change nothing |
| `YamlLines.ItemLineExact` | src/skills/YamlFrontmatter.cpp:103-111 | A list item at any depth is added to the list of the key above it, a new list if that key holds something else; without a key it is lost |
| `YamlLines.KeyLineExact` | src/skills/YamlFrontmatter.cpp:113-135 | A line with a colon: an entry of the map of the key above it when indented under a key without a value, and otherwise a field or a new key |
| `YamlLines.ParseExact` | src/skills/YamlFrontmatter.cpp:62-88 | Which files have a frontmatter, which have none or an unclosed one, and that the first line of dashes ends it |
| `YamlLines.BodyExact` | src/skills/YamlFrontmatter.cpp:83-87 | The rest of the closing line is no part of the body |
| `YamlDocument.FindClosingLines` | src/skills/YamlFrontmatter.cpp:77-81 | The first line of dashes after the first line closes the frontmatter |
| `YamlDocument.ParseDocument` | src/skills/YamlFrontmatter.cpp:62-139 | Lines between two lines of dashes are read one by one, and the body comes back less the breaks in front of it |
| `YamlDocument.ParsePrinted` | src/skills/YamlFrontmatter.cpp:62-139 | Parsing undoes printing: the same keys with the same texts, lists and maps, the body whole unless it opens with a line break, for both line endings alike |
| `YamlDocument.SkipBreaksKeeps` | src/skills/YamlFrontmatter.cpp:86-87 | A body is kept whole if and only if it does not open with a line break |
| `YamlDocument.BomIgnored` | src/skills/YamlFrontmatter.cpp:65-71 | A byte order mark in front changes nothing |
| `Base64.Encode` | plugins/example-plugin/src/example-plugin.cpp:61-77 | The loop over groups of three gives the encoding |
| `Base64.EncodeGroup` | plugins/example-plugin/src/example-plugin.cpp:65-74 | One round, padding included |
| `Base64.DecodeEncode` | plugins/example-plugin/src/example-plugin.cpp:58-77 | Decoding by section 4 of RFC 4648 undoes the encoder on every byte string |
| `Base64.EncodeDecode` | plugins/example-plugin/src/example-plugin.cpp:58-77 | Whatever the strict decoder takes is the encoding of what it gives |
| `Base64.EncodedShape` | plugins/example-plugin/src/example-plugin.cpp:64-75 | Length 4 * ceil(n / 3), only characters of the alphabet, and the right padding |
| `Base64.SymbolCodes` | plugins/example-plugin/src/example-plugin.cpp:58-59 | The 64 characters, by their codes |
| `Base64.SextetsSpell` | plugins/example-plugin/src/example-plugin.cpp:65-74 | The 24 bits of a group, first byte first, are those of its four symbols, first symbol first |
| `Base64.KnownEncodings` | plugins/example-plugin/src/example-plugin.cpp:61-77 | Two examples of section 10 of RFC 4648 |

## Left out

- JSON text: parsing and dumping are not modelled. A line is empty, malformed or a JSON value, and numbers, arrays and objects carry the text they are dumped to.
- Handlers on the reader thread other than tools/call (lists, prompts, resources, tools/call_batch): each is one step that answers or throws, so the tools run by a batch are not in the map of requests in flight, as in the code.
- Resource subscriptions: the watcher thread and its two maps. Its notifications are PushNotification steps; no freedom from deadlock is claimed there.
- ThreadPool inside the transport: a call starts at any time after it was submitted. The pool's own order and size are the subject of ThreadPool, and the shared pool is not stopping while Run reads.
- Memory order: m_Initialized is a plain bool read by pool threads; the model reads and writes it atomically.
- HunkApply.SortByStart: stands for std::sort, which is modelled by one sort; the laws hold for every sorted permutation.
- Integers: line numbers and counts are unbounded in the editor (files are assumed to have fewer lines than an int holds); std::stoi has its 32-bit range. size_t wrap-around is modelled in RateLimiter.
- RateLimiter.WindowBound: needs a limit of at least one (for zero see RateLimiter.ZeroLimitExact) and calls in time order.
- RateLimiter.IdleMinuteRestores: needs elapsed seconds times the limit to fit in 64 bits, and so do NewClientPasses and the polling laws.
- ReadCommand.Read: without path resolution and without the 32 KiB cut on long results; a limit that is not an integer is not modelled.
- EditCommand.EditTarget.Execute: without path resolution, the checks for a regular file and errors of reading and writing it.
- SubprocessPipe.Pipe.Collect: without StripAnsi on the result and without the text appended on cancellation; killing the child is its exit.
- NativePluginAdapter: that at most eight calls are inside at once is not claimed, because the check and the increment are separate accesses; a call that finds eight inside is turned away.
- StdioMCPAdapter.Client.SendRequest: without the map for Cancel and Cancel itself, which takes the two mutexes in the opposite order; requests built by ExecuteAsync never carry "_requestId" where that map looks for it. The content of a reply is not modelled.
- StdioMCPAdapter.Client.Close: without the shutdown flag, which only ExecuteAsync looks at.
- StdioMCPAdapter.PairedIffBalanced: for a child that answers each request with one line, in order.
- SkillShell.ShellSeesIntendedWords: for templates of plain words, blanks and single-quoted text with the placeholders outside the quotes, and for values that are strings, numbers, booleans or null; arrays and objects go into the command unquoted, as they are dumped. Double quotes, expansions and operators in a template are not modelled. The same holds for CommandKeepsItsShape. Windows quoting is left out, and so is a NUL in a value, which cuts the command short in popen.
- SkillTemplate: the word characters of the regular expression are those of the C locale, and a dumped value is given as text.
- YamlDocument.ParsePrinted: a printed frontmatter has no comments or blank lines, for which see YamlLines.SilentAnywhere; the typed getters over the fields are left out.
- Base64.Encode: the plugin's own JSON helpers are left out.
- File watching, plugin discovery and loading, HTTP, path jails, search, shell and git tools, the C API: input and output, or no law beyond their bodies.
