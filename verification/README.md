# Verified model of the hub and its agents

This project models the parts of the repository whose behaviour goes beyond a single function, and proves properties of
them in Dafny. `dafny verify dfyconfig.toml` checks everything.

- **Wire codec.** `Wire` follows the Protocol Buffers Encoding specification (sections "Base 128 Varints", "Message
  Structure", "Length-Delimited Records", "Packed Repeated Fields", "Last One Wins"); `FieldLoop` is the loop every
  generated reader runs, with laws for arbitrary bytes; `MessageFields`, `HubMessages` and `MemoryMessages` are the
  messages; `HubLaws` holds round trips, merging and unknown fields, and `HubBits`, `WireNumbers` and `WireValues` say
  the same on the bits and bytes; `HubCodec` holds the readers and writers as they run, with an advancing position and a
  growing buffer. Strings are byte strings and floats are bit patterns.
- **Concurrent machinery.** Each stretch of code between two awaits (or under a lock) is one atomic step, and a run is
  any list of steps. `PatchManager` heals files behind backups; `Broadcaster` fans messages out to bounded channels, and
  `BroadcastCredit` tells from the events alone who is given what; `RunParallel` is the worker loop over a shared index;
  `TaskWorker` is the background worker with the hub's task table and the reports in between, `TaskRounds` what a turn
  of it does and where everything stays, and `TaskReports` what those reports decide; `CircuitBreaker`, `TaskWorkerPool`
  and `ParityDaemon` are what their names say. In each, a class whose fields the methods change is tied, step by step,
  to the step function that the theorems are about.
- **Indexes and normalisers.** `DependencyGraph`, `IntegrationPairs`, `DependencyLaws` and `IntegrationLaws` are the
  import graph, its ranking and its pairs (`StableOrder` is the stable sort, `DoubleProduct` the number of slots in
  doubles); `MarkdownText`, `MarkdownHeadings`, `MarkdownStructure`, `MarkdownLaws`, `MarkdownLines`, `MarkdownLayout`
  and `MarkdownRefiners` are the structure normaliser, what it makes of lines and blanks, and its two implementations;
  `Similarity`, `MemoryRetrieval` and `MemoryLaws` are the memory table; `VetoEngine` is the path scan that replaces
  splitting.
- **State and arithmetic.** `StabilityLedger` and `LedgerLaws` are the ledger over whole runs and field by field;
  `Scoring`, `ScoringLaws`, `Scorecard` and `ScorecardLaws` are the health score over the reals, before rounding.

What the theorems assume, because the code depends on it: heals in flight are on distinct targets that exist and have no
stale `.bak`; the function given to `runParallel` does not throw; the task worker is started once; a directory walk
meets each file once. Where a promise of the code fails, a lemma gives the input or the run and another the exact
condition under which it holds: shared targets (`RunsAreHonouredExactly`), too little concurrency (`CompletesExactly`,
`NeverStallsExactly`), late reports (`RunsOnceExactly`), overtaken reports (`FinishedRowExactly`), other calls in flight
when the circuit trips (`CooldownHoldsExactly`), packed embeddings of 2^31 bytes (`MemoryRoundTripExact`), clashing
headings and unusual white space (`HeadingsDistinctExactly`, `IdempotentExactly`), bars in file names
(`ReportedExactly`), references that meet a disparity (`CountsSinceHealed`, `DisparityOfReferenceIsUncounted`), and
files that cannot be read (`PurityExceedsExactly`).

## Model

| member | source | states |
|---|---|---|
| HubLaws.StatusRoundTrip | src_local/proto/hub.ts:893-931 | A written status response, with its nested update and its repeated processes, reads back as itself, but for the sign of zeros and for unknown fields that one side does not keep; which doubles these are, HubBits says on the bits |
| HubLaws.StatusRoundTripExact | src_local/proto/hub.ts:893-931 | It reads back as exactly itself if and only if no double is -0 and both sides keep every unknown list, at every depth |
| HubLaws.MemoryRoundTripExact | src_local/proto/hub.ts:2615-2686 | A memory entry survives if and only if its packed embedding is shorter than 2^31 bytes and both sides keep its unknown fields: the writer accepts up to 2^32 bytes, the reader takes the length as an int32 |
| HubLaws.StatusConcat | src_local/proto/hub.ts:893-917 | For arbitrary bytes, whatever follows a readable message is read as if into that message |
| HubLaws.StatusMergeLaw | src_local/proto/hub.ts:893-931 | Two written messages back to back read as the merge of the two: last non-default scalar, concatenated processes, the nested update merged recursively |
| HubLaws.MemoryMergeLaw | src_local/proto/hub.ts:2615-2686 | The same for memory entries, whose embeddings concatenate |
| HubBits.WrittenProcessArrives | src_local/proto/hub.ts:1037-1082 | On the bits: of a written process read into any in hand, a double with any bit set below its sign replaces the one in hand and the two zeros leave it; a string or pid that is not the default replaces, and unknown fields that both sides keep are appended |
| HubBits.WrittenHealthArrives | src_local/proto/hub.ts:960-1011 | The same for a health update, whose processes are appended, each as a new one |
| HubBits.WrittenStatusArrives | src_local/proto/hub.ts:893-931 | The same for a status response, whose update is merged into the one in hand, or into a new one |
| HubBits.BothStatusesArrive | src_local/proto/hub.ts:893-931 | Of two written status responses back to back the second arrives, bit by bit, on top of what arrived of the first |
| HubBits.WrittenMemoryArrives | src_local/proto/hub.ts:2615-2686 | Of a written memory entry read into any in hand, each text that is not empty replaces, and the embedding is appended |
| HubBits.StatusSurvivesExactly | src_local/proto/hub.ts:893-931 | A status response reads back as exactly itself if and only if no double at any depth is 0x8000000000000000 and no unknown list at any depth is given up by either side |
| HubBits.ProcessOnTheWire | src_local/proto/hub.ts:1065-1082 | The bytes of a process: its tags, in the order of the schema, and what is left out |
| HubBits.HealthOnTheWire | src_local/proto/hub.ts:991-1011 | The bytes of a health update |
| HubBits.StatusOnTheWire | src_local/proto/hub.ts:918-931 | The bytes of a status response |
| HubBits.MemoryOnTheWire | src_local/proto/hub.ts:2656-2686 | The bytes of a memory entry |
| HubBits.FloatsOnTheWire | src_local/proto/hub.ts:2676-2681 | Each float of a packed embedding takes its own four bytes, in order |
| HubBits.WireTypeIsIgnored | src_local/proto/hub.ts:893-906 | A reader goes by the number of a field it knows, whatever wire type the tag gives; only an embedding is read by its wire type |
| HubLaws.KeepingUnknownsIsInvisible | src_local/proto/hub.ts:893-917 | For arbitrary bytes, a reader that keeps unknown fields at any depth sees the same known fields as one that drops them, and fails on the same bytes |
| HubLaws.KeepingUnknownsIsInvisibleToMemory | src_local/proto/hub.ts:2615-2655 | The same for memory entries |
| MessageFields.DroppedUnknownIsIgnored | src_local/proto/hub.ts:907-913 | For any message: a reader that drops unknown fields reads past a complete one between arbitrary bytes as if it were not there |
| HubLaws.InterleavedUnknownIsIgnored | src_local/proto/hub.ts:907-913 | So for the status response |
| HubLaws.InterleavedUnknownIsIgnoredByMemory | src_local/proto/hub.ts:2645-2651 | For the memory entry |
| HubLaws.InterleavedUnknownIsIgnoredByHealth | src_local/proto/hub.ts:980-986 | For the health update, read into any update in hand |
| HubLaws.InterleavedUnknownIsIgnoredByProcess | src_local/proto/hub.ts:1054-1060 | For the process, read into any process in hand |
| HubLaws.InterleavedUnknownIsInvisible | src_local/proto/hub.ts:907-913 | A reader that keeps unknown fields holds the same known fields of the status response, or fails, with and without it |
| HubLaws.InterleavedUnknownIsInvisibleToMemory | src_local/proto/hub.ts:2645-2651 | The same for the memory entry |
| HubLaws.ThrowingReaderRejectsUnknown | src_local/proto/hub.ts:907-910 | A reader told to throw rejects the message at the first unknown field, wherever it stands |
| HubMessages.ReadsProcessInfo | src_local/proto/hub.ts:1037-1082 | Reading a written process into one in hand merges the two, field by field |
| HubMessages.ReadsHealth | src_local/proto/hub.ts:960-1011 | Reading a written health update into one in hand merges the two and appends its processes |
| HubMessages.ReadsStatus | src_local/proto/hub.ts:893-931 | Reading a written status into one in hand merges the two, the optional update recursively |
| MemoryMessages.ReadsMemory | src_local/proto/hub.ts:2615-2686 | Reading a written entry into one in hand merges the two |
| MemoryMessages.ReadsChunks | src_local/proto/hub.ts:2638-2644 | However a sender splits an embedding into packed and single floats, the receiver holds the same list |
| MemoryMessages.LongEmbeddingIsLost | src_local/proto/hub.ts:2639-2641 | With a packed length of 2^31 bytes or more the reader fails or holds fewer floats than were written |
| FieldLoop.ReadFieldsConcat | src_local/proto/hub.ts:893-917 | The loop of every generated reader treats a concatenation as one message after the other, for arbitrary bytes |
| FieldLoop.ReadNestedExact | src_local/proto/hub.ts:904-906 | A sub-message read stops exactly where its announced length ends |
| FieldLoop.ReadFieldsAgree | src_local/proto/hub.ts:893-917 | Two readers whose field arms agree up to what they remember agree on whole messages |
| MessageFields.ReadsUnknowns | src_local/proto/hub.ts:1078-1081 | A written unknown list is appended to the one in hand when both sides keep unknown fields, and ignored otherwise |
| Wire.VarintRoundTrip | src_local/proto/hub.ts:1043-1047 | A base-128 varint reads back as written, whatever bytes follow |
| Wire.Int32RoundTrip | src_local/proto/hub.ts:1070-1071 | An int32, negative ones as ten bytes, reads back as written |
| Wire.TagRoundTrip | src_local/proto/hub.ts:1067-1068 | A field tag reads back as its number and wire type |
| Wire.DelimitedRoundTrip | src_local/proto/hub.ts:1067-1068 | A length-delimited record reads back as written |
| Wire.SkipLocal | src_local/proto/hub.ts:1058 | Skipping a value, groups included, looks at no byte beyond it |
| WireValues.SkipsExactly | src_local/proto/hub.ts:1058 | Skipping any value, nested groups included, followed by any bytes, leaves exactly those bytes |
| WireNumbers.VarintExactly | src_local/proto/hub.ts:1070-1071 | Every number is written in groups of seven bits, low ones first, each byte but the last marked, and without a last group of zeros |
| WireNumbers.VarintReadsExactly | src_local/proto/hub.ts:1046-1047 | Any bytes up to an unmarked one within the limit are read as that number, and skipped as one value |
| WireNumbers.EndlessVarintFails | src_local/proto/hub.ts:1046-1047 | A varint that does not end within the limit is an error |
| WireNumbers.LowBitsExactly | src_local/proto/hub.ts:1046-1047 | Of a longer number the low 32 bits count, in two's complement where a sign is expected |
| WireNumbers.TagsExactly | src_local/proto/hub.ts:1040 | A tag gives a field number and a wire type; number 0 and wire types 6 and 7 are errors |
| WireNumbers.FixedExactly | src_local/proto/hub.ts:1073-1077 | A float or double is written with its low byte first |
| WireNumbers.FixedReadsExactly | src_local/proto/hub.ts:1048-1053 | And read so |
| HubCodec.ReadProcessInfo | src_local/proto/hub.ts:1037-1064 | The reading loop, with an advancing position and a message updated field by field, does what the field loop function says |
| HubCodec.ReadHealthUpdate | src_local/proto/hub.ts:960-990 | The same for the health update with its pushed processes |
| HubCodec.ReadStatusResponse | src_local/proto/hub.ts:893-917 | The same for the status response with its optional update read into the one in hand |
| HubCodec.ReadEmbedding | src_local/proto/hub.ts:2638-2644 | The float loop bounded by an int32 length, and the single-float arm, push exactly the specified floats |
| HubCodec.ReadMemoryEntry | src_local/proto/hub.ts:2615-2655 | The same for the memory entry |
| HubCodec.WriteProcess | src_local/proto/hub.ts:1065-1082 | The writer refuses if and only if a length is not a uint32, and otherwise appends exactly the wire form of the message |
| HubCodec.WriteHealthUpdate | src_local/proto/hub.ts:991-1011 | The same with each process forked and joined |
| HubCodec.WriteStatusResponse | src_local/proto/hub.ts:918-931 | The same with the optional update forked and joined |
| HubCodec.WriteMemoryEntry | src_local/proto/hub.ts:2656-2686 | The same with the packed embedding forked and joined |
| PatchManager.QuietRunLeavesConfirmedHealsOnly | src_local/engines/healing/patch_manager.ts:9-47 | In every interleaving of heals on distinct, existing targets without stale backups each finished heal left what it reported, and once none is in flight the disk is the original one with exactly the confirmed contents in place |
| PatchManager.RunKeepsInvariant | src_local/engines/healing/patch_manager.ts:9-47 | In every reachable state a heal in flight has its original in its backup, a finished one has no backup, and no other path has changed |
| PatchManager.RunsAreHonouredExactly | src_local/core/orchestrator.ts:268-281 | All interleavings honour every result if and only if heals that share a target would all write what is there already; for heals that change their files, if and only if the targets are distinct |
| PatchManager.SharedTargetLosesOriginal | src_local/engines/healing/patch_manager.ts:13-16 | Two heals of one file have a run after which both report failure and the disk differs from the original by the first content in place of the file: the original is gone |
| PatchManager.FailedHealRestoresExactly | src_local/engines/healing/patch_manager.ts:30-47 | A heal that fails its audit restores the disk if and only if the target existed and there was no stale backup |
| PatchManager.FailedWriteRestoresExactly | src_local/engines/healing/patch_manager.ts:18-47 | The exact condition under which a write that throws leaves no trace |
| PatchManager.ConfirmedHealTouchesTargetOnly | src_local/engines/healing/patch_manager.ts:26-29 | A confirmed heal changes its target only, if and only if there was no stale backup |
| PatchManager.BegunExactly | src_local/engines/healing/patch_manager.ts:9-23 | What the stretch up to the audit leaves of target, backup and every other path, and what it reports, for each way in which the rename and the write can go |
| PatchManager.EndedExactly | src_local/engines/healing/patch_manager.ts:24-47 | The same after the audit: confirmed when the audit is clean and the backup, if any, could be removed; otherwise the target is what the backup holds, if there is one; no backup stays behind |
| PatchManager.Healer.ApplyUntilAudit | src_local/engines/healing/patch_manager.ts:9-23 | Backing up and writing, with a write that throws reverted at once, is the first atomic stretch |
| PatchManager.Healer.ValidateAndSettle | src_local/engines/healing/patch_manager.ts:24-40 | Keeping or reverting after the audit, also when it throws, is the second |
| PatchManager.Healer.Revert | src_local/engines/healing/patch_manager.ts:42-47 | Reverting puts the backup back if there is one |
| Broadcaster.EveryClientSeesSubsequence | src_native/hub/main.go:537-551 | In every run, what a client has received followed by its buffer is an ordered, duplicate-free part of what was published since it registered, and its buffer is within its capacity |
| Broadcaster.SeenOnlyGrows | src_native/hub/main.go:542-548 | No step takes back or reorders what a client has received or what its channel holds |
| Broadcaster.OfferMissesExactlyWhenSlow | src_native/hub/main.go:543-547 | A client that has missed nothing misses the offered message if and only if it is busy with a full buffer |
| BroadcastCredit.OfferExactly | src_native/hub/main.go:543-547 | Whatever a client of a reachable state has missed before: an offer gives it the message last published if its reader waits or its buffer has room, and otherwise changes nothing; no other client notices |
| BroadcastCredit.GivenExactly | src_native/hub/main.go:537-551 | In every run from the start, who is registered, what each client has read and what its channel holds follow from the events alone: a message is given exactly while the client has been given fewer than the receives it has started plus its capacity |
| Broadcaster.AttentiveClientMissesNothing | src_native/hub/main.go:537-551 | A client that is never slow has seen every message since it joined |
| Broadcaster.OffersCommute | src_native/hub/main.go:542-548 | Offers to different clients commute with each other and with receives in between |
| Broadcaster.OwnEventsDecide | src_native/hub/main.go:542-548 | In a round with receives in between, what becomes of a client depends on its own offers and receives only |
| Broadcaster.RoundOrderIsInvisible | src_native/hub/main.go:542-548 | Two ways through the client map, with receives in between, in which each client has the same offers and receives in the same order end in the same state |
| Broadcaster.Hub.Broadcast | src_native/hub/main.go:540-549 | One round over the client map, in any order, offers the message once to each client, and ends the same |
| Broadcaster.Hub.OfferTo | src_native/hub/main.go:543-547 | The select with an empty default is the offer step |
| Broadcaster.Hub.RegisterClient | src_native/hub/main.go:581-587 | Registration adds an empty channel under the lock |
| Broadcaster.Hub.UnregisterClient | src_native/hub/main.go:1515-1519 | Leaving removes the channel under the lock |
| Broadcaster.Hub.ReceiveNext | src_native/hub/main.go:1531-1537 | A receive takes the oldest buffered message or blocks |
| RunParallel.EveryRun | src_local/engines/maintenance/sys_perf_architect_service.ts:246-259 | In every interleaving, overload sleeps included, items are handed out once each and in order, no two calls share an item, the index overshoots by fewer than the number of workers, and the run is over within two stretches per worker and per item |
| RunParallel.RunEndsWithMap | src_local/engines/maintenance/sys_perf_architect_service.ts:261-264 | A run stops only with every worker done, and then the results are fn of every item, in place |
| RunParallel.CallsInFlightAreBounded | src_local/engines/maintenance/sys_perf_architect_service.ts:241-262 | At no moment are more calls in flight than the dynamic concurrency allows, or than there are items |
| RunParallel.CompletesExactly | src_local/engines/maintenance/sys_perf_architect_service.ts:235-265 | Every run that has stopped holds fn of every item if and only if there are no items, or the concurrency asked for is positive, or the load raises it to one |
| RunParallel.StepUsesUp | src_local/engines/maintenance/sys_perf_architect_service.ts:247-258 | Every stretch of every worker uses up some of what is left |
| RunParallel.StretchExactly | src_local/engines/maintenance/sys_perf_architect_service.ts:246-259 | What one stretch does to the index, the results, the calls and the worker: an overloaded check claims nothing, and any other check, like the end of the sleep, claims the next item or finds none |
| RunParallel.Executor.ClaimNext | src_local/engines/maintenance/sys_perf_architect_service.ts:254-256 | The claim after the bound check |
| RunParallel.Executor.LoopCheck | src_local/engines/maintenance/sys_perf_architect_service.ts:247-252 | The bound check and the sleep before the claim |
| RunParallel.Executor.StoreAndContinue | src_local/engines/maintenance/sys_perf_architect_service.ts:256-258 | The result is stored at the claimed index and the worker goes round its loop |
| TaskWorker.InFlightIsBounded | src_local/engines/maintenance/sys_perf_architect_service.ts:385-398 | In every run, whatever happens to the reports, tasks in flight never exceed the maximum although the limit changes while a fetch is awaited |
| TaskWorker.NeverPendingAgain | src_native/hub/main.go:1303-1310 | A task that has left PENDING never returns to it, even when reports are lost or overtaken |
| TaskWorker.PausedWorkerFetchesNothing | src_local/engines/maintenance/sys_perf_architect_service.ts:380-391 | A paused worker asks for nothing until a health score above 60, and starts no more than what it had asked for before the pause, also when the pause arrives while a fetch is awaited |
| TaskWorker.EachTaskRunsOnce | src_local/engines/maintenance/sys_perf_architect_service.ts:435-476 | With reports delivered in order and RUNNING landing before the next query, each task runs at most once and its row ends with the status of its outcome |
| TaskWorker.LateRunningReportRunsTwice | src_local/engines/maintenance/sys_perf_architect_service.ts:437 | A poll that overtakes the RUNNING report starts a task twice |
| TaskWorker.OvertakenReportSticks | src_local/engines/maintenance/sys_perf_architect_service.ts:470 | A COMPLETED report that overtakes the RUNNING one: a run after which nothing is in flight, all reports have arrived, and the row of the finished task says RUNNING |
| TaskReports.RunsOnceExactly | src_local/engines/maintenance/sys_perf_architect_service.ts:390-397 | For any order and loss of reports: when no reply is waiting, every task was started at most once if and only if no query of the run found one that was started already |
| TaskReports.RowHoldsLastReport | src_native/hub/main.go:1303-1310 | In every run each row holds the status of the last report on it that arrived, and PENDING if none did |
| TaskReports.FinishedRowExactly | src_local/engines/maintenance/sys_perf_architect_service.ts:435-476 | Where no task was started twice, the row of a finished task says how it ended if and only if its final report arrived and its RUNNING report did not arrive after it |
| TaskReports.FinishedRowSaysHow | src_local/engines/maintenance/sys_perf_architect_service.ts:435-476 | In terms of the events: the row of a task that ended says COMPLETED if its last end was a success and FAILED if it threw, if and only if that report arrived and no RUNNING report arrived after it |
| TaskReports.OutcomeIsLastFlag | src_local/engines/maintenance/sys_perf_architect_service.ts:470-474 | In every run the outcome of a task is that of the last event that ended it |
| TaskReports.FinishExactly | src_local/engines/maintenance/sys_perf_architect_service.ts:415-476 | The end of a run records and reports COMPLETED or FAILED by its flag and takes away that run only |
| TaskRounds.NothingGetsLost | src_local/engines/maintenance/sys_perf_architect_service.ts:390-476 | In every run each submitted task has one row, each started run is in flight or has ended, and each report sent is on its way, has arrived or was lost |
| TaskRounds.RoundStartsOldest | src_local/engines/maintenance/sys_perf_architect_service.ts:385-398 | A round starts the oldest pending tasks, as many as there is room for under its load, and reports RUNNING on each |
| TaskRounds.PauseExactly | src_local/engines/maintenance/sys_perf_architect_service.ts:354-425 | A halt pauses, only a health score above 60 ends the pause, and only a start and a stop decide whether the worker runs |
| TaskRounds.LeftExactly | src_local/engines/maintenance/sys_perf_architect_service.ts:378-412 | The loop is left at its head only and only after a stop; neither a pause nor a failed fetch ends it |
| TaskRounds.FailedFetchIsRetried | src_local/engines/maintenance/sys_perf_architect_service.ts:407-411 | After a failed fetch the worker sleeps and goes on, with everything else as it was |
| TaskRounds.LeftForGood | src_local/engines/maintenance/sys_perf_architect_service.ts:378-379 | A worker that has left its loop never starts a task again |
| TaskWorker.PendingFromIsPending | src_native/hub/main.go:1128-1147 | The query gives distinct pending tasks, oldest first, no more than asked for |
| TaskWorker.PendingFromIsOldest | src_native/hub/main.go:1128-1147 | A pending task is left out only when as many older ones as asked for were found |
| TaskWorker.TaskStore.EnqueueTask | src_native/hub/main.go:1120-1126 | A new task is pending |
| TaskWorker.TaskStore.GetPendingTasks | src_native/hub/main.go:1128-1147 | The row loop gives what the query asks for |
| TaskWorker.TaskStore.UpdateTask | src_native/hub/main.go:1303-1310 | An update sets the status of its row and of no other |
| TaskWorker.Worker.ContinueLoop | src_local/engines/maintenance/sys_perf_architect_service.ts:378-391 | The head of the loop: leave, sleep while paused, or fetch no more than the room left |
| TaskWorker.Worker.StartWorker | src_local/engines/maintenance/sys_perf_architect_service.ts:373-378 | Starting enters the loop |
| TaskWorker.Worker.FetchPending | src_local/engines/maintenance/sys_perf_architect_service.ts:391 | The query sees the table as it is while the worker awaits the reply |
| TaskWorker.Worker.RunFetchedTasks | src_local/engines/maintenance/sys_perf_architect_service.ts:393-397 | Each task of the reply is counted, reported RUNNING and started |
| TaskWorker.Worker.FinishTask | src_local/engines/maintenance/sys_perf_architect_service.ts:415-422 | The end of a task is reported and uncounted |
| TaskWorker.Worker.OnHealthCheck | src_local/engines/maintenance/sys_perf_architect_service.ts:362-367 | A health score above 60 resumes a paused worker |
| CircuitBreaker.ClosedExactlyBelowThreshold | src_local/core/hub_manager_grpc.ts:146-184 | With any number of overlapping calls the circuit is closed if and only if fewer than five failures are counted, and a failure while half-open reopens it |
| CircuitBreaker.CountsFailuresSinceClose | src_local/core/hub_manager_grpc.ts:163-173 | The counter holds the failures since the last close, however many successes came in between |
| CircuitBreaker.NoStartDuringCooldown | src_local/core/hub_manager_grpc.ts:146-155 | After a trip no operation starts for 30000 ms unless a call already in flight succeeds |
| CircuitBreaker.CooldownHoldsExactly | src_local/core/hub_manager_grpc.ts:146-184 | A failure that trips the circuit stops every operation for 30000 ms, whatever happens in them, if and only if the failed call was the only one in flight |
| CircuitBreaker.LateSuccessEndsCooldown | src_local/core/hub_manager_grpc.ts:163-168 | Such a late success does end the cooldown and clears the counter |
| CircuitBreaker.HeldBackExactly | src_local/core/hub_manager_grpc.ts:147-155 | In every run a call is held back if and only if the circuit is open and the last failure is at most 30000 ms ago; a call through an open circuit makes it half-open |
| CircuitBreaker.CooldownEnds | src_local/core/hub_manager_grpc.ts:147-170 | When no call has failed since a failure that left the circuit open, a call more than 30000 ms later is let through, half-open if the circuit was still open, and a success then closes it with a clean counter |
| CircuitBreaker.Breaker.Begin | src_local/core/hub_manager_grpc.ts:147-155 | The admission of a call |
| CircuitBreaker.Breaker.Succeeded | src_local/core/hub_manager_grpc.ts:163-170 | The success of a call |
| CircuitBreaker.Breaker.Failed | src_local/core/hub_manager_grpc.ts:171-183 | The failure of a call |
| TaskWorkerPool.EveryRun | src_local/core/task_worker_pool.ts:24-80 | In every reachable state the cap holds, queued ids are distinct, critical tasks stand first, accepted tasks are exactly the queued, active and finished ones, ordinary tasks begin in order, and with a cap of at least one a running pool with work queued has an active worker |
| TaskWorkerPool.NeverStallsExactly | src_local/core/task_worker_pool.ts:53-56 | No run leaves a running pool with work queued and no active worker, if and only if the cap is at least one |
| TaskWorkerPool.StoppedPoolBeginsNothing | src_local/core/task_worker_pool.ts:48-56 | A stopped pool begins nothing until it is started again |
| TaskWorkerPool.ActiveGrowsByWakes | src_local/core/task_worker_pool.ts:24-80 | In every run the active workers grow by at most one for each task offered and each start |
| TaskWorkerPool.RestartWakesOneWorker | src_local/core/task_worker_pool.ts:42-46 | A restart wakes a single worker, and until the next offer or start the queue is worked off one task at a time |
| TaskWorkerPool.OfferExactly | src_local/core/task_worker_pool.ts:24-61 | A task is turned away if and only if its id is queued; otherwise a running pool below its cap begins work in that step, on the task itself if it is critical or alone and else on the head of the queue, and any other pool queues it, in front if it is critical |
| TaskWorkerPool.WorkGoesOn | src_local/core/task_worker_pool.ts:42-80 | The worker of an ended task, and a start below the cap, take up the head of the queue |
| TaskWorkerPool.Pool.Submit | src_local/core/task_worker_pool.ts:24-40 | Enqueueing rejects a queued id, puts critical tasks in front, and looks for a free worker |
| TaskWorkerPool.Pool.StartPool | src_local/core/task_worker_pool.ts:42-46 | Starting looks for a free worker |
| TaskWorkerPool.Pool.StopPool | src_local/core/task_worker_pool.ts:48-51 | Stopping only clears the flag |
| TaskWorkerPool.Pool.TakeNext | src_local/core/task_worker_pool.ts:53-61 | Up to its await the pool takes at most one task |
| TaskWorkerPool.Pool.Complete | src_local/core/task_worker_pool.ts:73-79 | After its await the worker is freed and looks for the next task, whether the task threw or not |
| ParityDaemon.EveryRun | src_local/core/parity_daemon.ts:29-69 | In every run arrivals are the processed files, the one in hand and the backlog in that order, and a waiting file has processing under way or a timer armed |
| ParityDaemon.ChangesAreKept | src_local/core/parity_daemon.ts:31-35 | In every run the changed files, in order of change, are those processed, the one in hand and those that wait |
| ParityDaemon.WorkBeginsExactly | src_local/core/parity_daemon.ts:44-69 | An idle daemon takes up the first waiting file at once on a change or a timer, a busy one goes on, and the end of processing arms one timer if a file waits |
| ParityDaemon.EveryFileIsProcessed | src_local/core/parity_daemon.ts:44-69 | Whatever else arrives and throws, a file has been processed in its turn after a bounded number of scheduler steps, and until then there is a step to take |
| ParityDaemon.Daemon.OnChange | src_local/core/parity_daemon.ts:31-36 | A changed agent file joins the backlog |
| ParityDaemon.Daemon.TakeFromBacklog | src_local/core/parity_daemon.ts:44-48 | One file at a time is taken up |
| ParityDaemon.Daemon.FinishFile | src_local/core/parity_daemon.ts:63-68 | The end of processing arms a timer if files wait |
| ParityDaemon.Daemon.OnTimer | src_local/core/parity_daemon.ts:66 | A timer takes up the next file |
| DependencyGraph.Graph.Build | src_local/engines/diagnostics/audit_code_guardian_service.ts:136-205 | The graph built in place holds for each file its imports, its importers, both counts and the hub flag; the candidates, pairs and isolated modules are the specified ones |
| DependencyGraph.Graph.AddImport | src_local/engines/diagnostics/audit_code_guardian_service.ts:168-178 | One import entry is recorded at both ends |
| DependencyGraph.Graph.FindStrongestPairs | src_local/engines/diagnostics/audit_code_guardian_service.ts:207-248 | The three passes over mutual imports, hubs and leading imports give the specified pairs, of which IntegrationLaws says which must be there and in which order |
| DependencyGraph.Graph.MostImported | src_local/engines/diagnostics/audit_code_guardian_service.ts:186-188 | The modules with importers, by descending fan-in, ties in walk order |
| DependencyGraph.HubExactly | src_local/engines/diagnostics/audit_code_guardian_service.ts:182-184 | The listed hubs are exactly the known files that are imported at least four times |
| DependencyGraph.E2ECount | src_local/engines/diagnostics/audit_code_guardian_service.ts:190 | A twentieth of the files, rounded up, and at least one |
| DoubleProduct.CeilIsExact | src_local/engines/diagnostics/audit_code_guardian_service.ts:190 | Rounding up the product with the double nearest to 0.05, itself rounded to a double, is rounding up the exact twentieth |
| DependencyLaws.SlotsAreTheDoubles | src_local/engines/diagnostics/audit_code_guardian_service.ts:190 | So the number of slots is the one the code computes with doubles |
| DependencyLaws.TransposedExactly | src_local/engines/diagnostics/audit_code_guardian_service.ts:168-178 | A file is among the importers of another exactly as often as it imports it |
| DependencyLaws.ImportersAreKnown | src_local/engines/diagnostics/audit_code_guardian_service.ts:168-178 | Only files of the tree that do import the target are listed as its importers |
| DependencyLaws.ImportersInWalkOrder | src_local/engines/diagnostics/audit_code_guardian_service.ts:168-178 | Importers are listed as the walk met them |
| DependencyLaws.TotalFanIn | src_local/engines/diagnostics/audit_code_guardian_service.ts:168-178 | The total fan-in is the number of import entries that name a file of the tree |
| DependencyLaws.IsolatedExactly | src_local/engines/diagnostics/audit_code_guardian_service.ts:193-195 | The isolated modules are exactly the files that import something and that nobody imports |
| DependencyLaws.IsolatedInWalkOrder | src_local/engines/diagnostics/audit_code_guardian_service.ts:193-195 | Once each, as the walk met them |
| DependencyLaws.NoOutsiderRanksHigher | src_local/engines/diagnostics/audit_code_guardian_service.ts:186-191 | No file outside the end-to-end candidates is imported more often than one inside |
| DependencyLaws.SlotsAreFilled | src_local/engines/diagnostics/audit_code_guardian_service.ts:186-191 | Candidates are imported at all, and a slot stays empty only when every imported file has one |
| DependencyLaws.RankedByFanIn | src_local/engines/diagnostics/audit_code_guardian_service.ts:186-191 | Candidates and hubs stand by descending fan-in, equal ones as the walk met them, and none twice |
| IntegrationPairs.NoPairTwice | src_local/engines/diagnostics/audit_code_guardian_service.ts:207-248 | No unordered pair is reported twice |
| IntegrationPairs.StrongestPairs | src_local/engines/diagnostics/audit_code_guardian_service.ts:247 | At most twenty pairs are reported |
| IntegrationPairs.MutualBeforeDerived | src_local/engines/diagnostics/audit_code_guardian_service.ts:211-245 | Every reported mutual import comes before every pair derived from a hub |
| IntegrationPairs.MutualIsReported | src_local/engines/diagnostics/audit_code_guardian_service.ts:211-222 | A mutual import whose names hold no bar is reported, or all twenty slots are taken by mutual imports |
| IntegrationPairs.ReportedExactly | src_local/engines/diagnostics/audit_code_guardian_service.ts:211-247 | For any names, while there is room, every mutual import is reported if and only if no two different mutual imports share a key |
| IntegrationPairs.BarLosesMutualImport | src_local/engines/diagnostics/audit_code_guardian_service.ts:215 | With bars in file names two different mutual imports share a key and at most one is reported |
| IntegrationPairs.EveryPairHasAReason | src_local/engines/diagnostics/audit_code_guardian_service.ts:211-245 | Every reported pair is mutual, or two hubs, or one of the first three imports of one of the ten strongest hubs |
| IntegrationLaws.Stages | src_local/engines/diagnostics/audit_code_guardian_service.ts:211-245 | The pairs before the cut: mutual imports, then imports among hubs, then first imports of the ten strongest hubs; every pair of each kind is there, but for keys that are there already |
| IntegrationLaws.HubPairIsReported | src_local/engines/diagnostics/audit_code_guardian_service.ts:224-234 | An import of a hub by a hub, with names free of bars, is reported, or all twenty slots hold mutual imports and imports among hubs |
| IntegrationLaws.LeadIsReported | src_local/engines/diagnostics/audit_code_guardian_service.ts:236-245 | Each of the first three imports of the ten strongest hubs, with names free of bars, is reported, or all twenty slots are taken |
| IntegrationLaws.StagesInOrder | src_local/engines/diagnostics/audit_code_guardian_service.ts:211-245 | Mutual imports come before imports among hubs, and those before the remaining pairs |
| IntegrationLaws.StageInOrder | src_local/engines/diagnostics/audit_code_guardian_service.ts:211-245 | Within each stage pairs stand in the order of their first modules, by walk or by rank, and pairs of one module in the order of its imports |
| IntegrationLaws.MutualFacesForward | src_local/engines/diagnostics/audit_code_guardian_service.ts:211-222 | A mutual import is reported from the module that the walk met first |
| StableOrder.OrderIsOrder | src_local/engines/diagnostics/audit_code_guardian_service.ts:188 | The ranking lists every position once, higher scores first, equal ones in place |
| StableOrder.OrderIsUnique | src_native/hub/main.go:1095-1097 | There is only one such ranking, so nothing depends on how it is sorted |
| MarkdownLaws.RefineKeepsContent | src_local/engines/reporting/markdown_structure_agent.ts:18-48 | Code, headings and text survive in order; headings are only cleaned and labelled by their earlier occurrences |
| MarkdownLaws.CodeIsVerbatim | src_local/engines/reporting/markdown_structure_agent.ts:50-61 | Fenced lines, fences included, are copied verbatim and in order |
| MarkdownLaws.RefineIsSpaced | src_local/engines/reporting/markdown_structure_agent.ts:42-70 | Outside code no two blank lines are adjacent and none comes first; every heading is first or after a blank, and last or before one |
| MarkdownLayout.BlanksKeptExactly | src_local/engines/reporting/markdown_structure_agent.ts:42-70 | For every document: between two consecutive items of the result a blank line stands if and only if one stood there in the input or one of the two is a heading; none stands before the first; and the result ends with one if and only if it has content and the input ends with one |
| MarkdownLayout.RefineToIsLaidOut | src_local/engines/reporting/markdown_structure_agent.ts:18-70 | The same after every line read, with the blank line that a padded heading has been given ahead |
| MarkdownLayout.LinesAreRead | src_local/engines/reporting/markdown_structure_agent.ts:29-61 | A line is told by its first characters after leading white space: a fence anywhere; and outside code a heading, blank, or text |
| MarkdownLines.CodeStays | src_local/engines/reporting/markdown_structure_agent.ts:50-61 | The lines that are fences or between them are the same in the result, in order |
| MarkdownLines.TextStays | src_local/engines/reporting/markdown_structure_agent.ts:42-45 | Each line of text is in the result, in order, without the white space at its end and otherwise as it was |
| MarkdownLines.HeadingsAreNumbered | src_local/engines/reporting/ui_ux_architect_service.ts:52-62 | Each heading is in the result, in order, trimmed and without trailing punctuation; if earlier ones are the same it is numbered, in decimal, by how many of them there are up to it |
| MarkdownLaws.HeadingsDistinctExactly | src_local/engines/reporting/ui_ux_architect_service.ts:52-62 | The emitted headings are pairwise distinct if and only if no cleaned heading reads like a version that another one occurs often enough to be given |
| MarkdownLaws.UnversionedHeadingsStayDistinct | src_local/engines/reporting/ui_ux_architect_service.ts:52-62 | They are distinct when no cleaned heading already ends in a version suffix |
| MarkdownLaws.IdempotentExactly | src_local/engines/reporting/markdown_structure_agent.ts:18-27 | A second pass changes nothing if and only if the headings do not clash and, cleaned, end in no white space unknown to the cleaning |
| MarkdownLaws.PlainIdempotentExactly | src_local/engines/reporting/markdown_structure_agent.ts:18-27 | With white space limited to what the cleaning knows, a second pass changes nothing if and only if the headings do not clash |
| MarkdownLaws.NoBreakSpaceNeedsTwoPasses | src_local/engines/reporting/ui_ux_architect_service.ts:53 | A no-break space before a full stop makes a heading that the second pass changes |
| MarkdownHeadings.DistinctExactly | src_local/engines/reporting/ui_ux_architect_service.ts:52-62 | Labelled headings are distinct if and only if there is no clash |
| MarkdownHeadings.FixedExactly | src_local/engines/reporting/ui_ux_architect_service.ts:52-62 | Deduplicating changes nothing if and only if there is nothing to deduplicate |
| MarkdownHeadings.RepeatsAreNumbered | src_local/engines/reporting/ui_ux_architect_service.ts:52-62 | The number of a repeated heading reads, as a decimal, as the count of equal headings up to it |
| MarkdownStructure.RefineToIsFaithful | src_local/engines/reporting/markdown_structure_agent.ts:18-70 | After every line: the state of the fences, the counts of the headings, the content and the layout are those of the lines read |
| MarkdownRefiners.MarkdownStructureAgent.ExecuteRefinement | src_local/engines/reporting/markdown_structure_agent.ts:18-27 | The first implementation computes the normaliser |
| MarkdownRefiners.MarkdownStructureAgent.ProcessLine | src_local/engines/reporting/markdown_structure_agent.ts:29-48 | One line of it |
| MarkdownRefiners.MarkdownStructureAgent.ApplyHeaderLogic | src_local/engines/reporting/markdown_structure_agent.ts:63-71 | A heading with its blank lines |
| MarkdownRefiners.MarkdownStructureProcessor.Process | src_local/engines/reporting/ui_ux_architect_service.ts:81-99 | The second implementation computes the same |
| MarkdownRefiners.MarkdownStructureProcessor.HandleHeader | src_local/engines/reporting/ui_ux_architect_service.ts:114-123 | A heading with its blank lines |
| MarkdownRefiners.DeduplicateHeader | src_local/engines/reporting/ui_ux_architect_service.ts:52-62 | The heading to emit and the counts afterwards |
| MarkdownRefiners.ApplyHeaderPadding | src_local/engines/reporting/ui_ux_architect_service.ts:64-69 | A blank line follows a heading if a line with content does |
| MarkdownRefiners.Agree | src_local/engines/reporting/ui_ux_architect_service.ts:72-99 | The two implementations agree on every document |
| Similarity.CauchySchwarz | src_native/hub/main.go:1030-1037 | Over the reals the square of the dot product is at most the product of the norms |
| Similarity.CosineInRange | src_native/hub/main.go:1026-1042 | Every similarity lies between -1 and 1 |
| Similarity.SelfSimilarity | src_native/hub/main.go:1026-1042 | An embedding other than the zero vector has similarity 1 with itself |
| Similarity.CosineExactly | src_native/hub/main.go:1026-1042 | The similarity times both lengths is the dot product; it is 0 when the dimensions differ or a length vanishes |
| Similarity.CosineSimilarity | src_native/hub/main.go:1026-1042 | The accumulator loop computes the cosine |
| MemoryRetrieval.BlobRoundTrip | src_native/hub/main.go:1006-1010 | The little-endian blob decodes to the embedding that was stored |
| MemoryLaws.BlobExactly | src_native/hub/main.go:1006-1010 | Each float of a stored embedding takes its own four bytes, in order |
| MemoryLaws.FetchedIsRecent | src_native/hub/main.go:1055-1062 | On the rows of the table: a query sees rows of its agent only, each once, later ones first and those of one second as stored; and a row of the agent is left out only when the limit, or a thousand with an embedding, is reached by rows that come before it |
| MemoryLaws.ScoreExactly | src_native/hub/main.go:1086-1089 | The score of an entry is 1 when it or the query has no embedding, 0 when their lengths differ or one is all zeros, and otherwise the sum of products over the product of the lengths |
| MemoryRetrieval.ReplyIs | src_native/hub/main.go:1094-1103 | The reply is the first min(limit, count) entries of the ranking of the latest thousand, and a negative limit panics |
| MemoryRetrieval.ReplyIsRanked | src_native/hub/main.go:1095-1097 | Higher scores come first and equal ones stay in recency order |
| MemoryRetrieval.NoBetterEntryIsOmitted | src_native/hub/main.go:1095-1102 | A fetched entry left out scores no higher than any returned one, and at equal score it is older |
| MemoryRetrieval.PlainEntryIsOutrankedByNone | src_native/hub/main.go:1086-1089 | An entry without an embedding is left out only when the reply is full of newer entries that score 1 too |
| MemoryRetrieval.RememberedIsRetrieved | src_native/hub/main.go:1055-1057 | Without a query text, what was remembered comes back unchanged, right behind the more recent rows of its agent, if and only if the limit is negative or exceeds their number |
| MemoryRetrieval.MemoryTable.Remember | src_native/hub/main.go:1003-1019 | Remembering adds one row that holds the entry column by column, or none when the id is taken |
| MemoryRetrieval.MemoryTable.Retrieve | src_native/hub/main.go:1044-1110 | The scan, the scoring and the cut give the specified reply, made of the rows that MemoryLaws.FetchedIsRecent describes |
| StabilityLedger.UpdateIs | src_local/engines/healing/resilience_healing_architect_service.ts:35-113 | An update acts on each file on its own: a reported file that is not gold gains exactly its findings in count and history, an unreported one is healed unless it is a reference or strategic |
| StabilityLedger.UpdateDependsOnFindingsPerFile | src_local/engines/healing/resilience_healing_architect_service.ts:56-64 | Only the findings on each file matter, not how those on different files are interleaved |
| LedgerLaws.HealedExactly | src_local/engines/healing/resilience_healing_architect_service.ts:95-113 | A file without findings is healed, its count cleared, its history and data kept, unless it is a reference, healed already or strategic |
| LedgerLaws.GoldExactly | src_local/engines/healing/resilience_healing_architect_service.ts:73-93 | A gold file with findings gains the entry of a reference if it has none, and else keeps its own |
| LedgerLaws.FoundExactly | src_local/engines/healing/resilience_healing_architect_service.ts:73-85 | Any other file with findings is unstable, or stays a reference, and each finding is counted and noted in order |
| LedgerLaws.DisparityExactly | src_local/engines/healing/resilience_healing_architect_service.ts:131-143 | Which fields a disparity changes, and that it changes no other entry |
| StabilityLedger.EveryRun | src_local/engines/healing/resilience_healing_architect_service.ts:35-143 | In every run an entry is healed if and only if its count is zero, no count exceeds its history, and references are never counted |
| StabilityLedger.CountsSinceHealed | src_local/engines/healing/resilience_healing_architect_service.ts:35-143 | An entry has a number as its count if and only if it was not created gold since it was last absent or healed, and the number is that of its findings and disparities since it was last healed, cleared or removed |
| StabilityLedger.NeverGoldIsCounted | src_local/engines/healing/resilience_healing_architect_service.ts:73-93 | A file that is never gold is always counted |
| StabilityLedger.StrategicNeverHeals | src_local/engines/healing/resilience_healing_architect_service.ts:109-113 | The strategic entry is never healed |
| StabilityLedger.ReferencesAfterUpdate | src_local/engines/healing/resilience_healing_architect_service.ts:73-93 | An update changes no reference status and gives it only to a new entry of a reported gold file |
| StabilityLedger.DisparityOfReferenceIsUncounted | src_local/engines/healing/resilience_healing_architect_service.ts:131-143 | A reference that meets a disparity stays without a number as its count if and only if every later update reports its file and nothing removes its entry |
| StabilityLedger.LedgerService.UpdateLedger | src_local/engines/healing/resilience_healing_architect_service.ts:35-47 | Maintenance, findings and healing make one update |
| StabilityLedger.LedgerService.PerformMaintenance | src_local/engines/healing/resilience_healing_architect_service.ts:49-54 | Outside the project itself the skills entry is removed |
| StabilityLedger.LedgerService.ProcessAuditResults | src_local/engines/healing/resilience_healing_architect_service.ts:56-64 | The findings are recorded in order and their files collected |
| StabilityLedger.LedgerService.UpdateFileStatus | src_local/engines/healing/resilience_healing_architect_service.ts:73-85 | One finding |
| StabilityLedger.LedgerService.TryMarkReference | src_local/engines/healing/resilience_healing_architect_service.ts:87-93 | A gold file gains an entry if it has none |
| StabilityLedger.LedgerService.DetectHealedFiles | src_local/engines/healing/resilience_healing_architect_service.ts:95-107 | Every healable entry is healed, in whatever order the keys come |
| StabilityLedger.LedgerService.ClearLedger | src_local/engines/healing/resilience_healing_architect_service.ts:115-125 | Clearing keeps the references |
| StabilityLedger.LedgerService.RegisterDisparity | src_local/engines/healing/resilience_healing_architect_service.ts:131-143 | A disparity adds one to the count, the history and the status |
| Scoring.TotalWithinCeiling | src_local/core/governance/scoring_engine.ts:74-88 | The total lies between zero and the ceiling of the compliance level |
| Scoring.TotalWithoutAlerts | src_local/core/governance/scoring_engine.ts:7-22 | Without alerts the total is the sum of the components, unless that exceeds 100 |
| Scoring.FullMarksExactly | src_local/core/governance/scoring_engine.ts:28-72 | When each component has its full points: every file tested, observed, documented; average complexity one; no high alert; no high or medium alert |
| ScoringLaws.SharesExactly | src_local/core/governance/scoring_engine.ts:28-45 | 35 points for the tested files, 10 for the observed and 10 for those of a known purpose, in proportion to all files |
| ScoringLaws.DeductionsExactly | src_local/core/governance/scoring_engine.ts:33-51 | Purity and security lose one and a half points for each unit of complexity above one and five for each high alert, never below zero |
| ScoringLaws.TotalExactly | src_local/core/governance/scoring_engine.ts:69-109 | Compliance points and ceiling by the numbers of high and medium alerts, and the penalty off what is left |
| ScoringLaws.CountsExactly | src_local/core/governance/scoring_engine.ts:47-67 | Every alert with a severity counts once, as high, medium or low by its spelling in any case |
| Scoring.OrderOfAlerts | src_local/core/governance/scoring_engine.ts:47-51 | The order of the alerts does not matter |
| Scoring.AnotherAlertNeverHelps | src_local/core/governance/scoring_engine.ts:47-88 | One more alert, wherever it is put, never raises the total |
| Scoring.AlertCounts.CategoriseAlert | src_local/core/governance/scoring_engine.ts:53-67 | An alert is counted by its severity |
| Scoring.CalcSecurity | src_local/core/governance/scoring_engine.ts:47-51 | The counting loop gives the counts and the security component |
| Scoring.CalculateHealth | src_local/core/governance/scoring_engine.ts:7-22 | The engine computes the specified score |
| Scorecard.TotalIsSumOfComponents | src_local/engines/diagnostics/code_scorecard.ts:132-170 | The scorecard total is exactly the sum of its six components and at most 100, however many files could not be read |
| Scorecard.FilesAreCounted | src_local/engines/diagnostics/code_scorecard.ts:145-162 | There are no more entries than files, and no more than the complexity sum |
| Scorecard.PurityExceedsExactly | src_local/engines/diagnostics/code_scorecard.ts:164-169 | Purity exceeds its fifteen points if and only if the complexities sum up to less than the number of files, and never when every file can be read |
| Scorecard.UnreadableRaisesPurity | src_local/engines/diagnostics/code_scorecard.ts:164-169 | A single file that cannot be read does it |
| ScorecardLaws.FoundExactly | src_local/engines/diagnostics/code_scorecard.ts:86-108 | Found are exactly the source files that are reached from the root without passing through an ignored directory |
| ScorecardLaws.ListedInOrder | src_local/engines/diagnostics/code_scorecard.ts:97-105 | They are listed entry by entry |
| ScorecardLaws.ComplexityExactly | src_local/engines/diagnostics/code_scorecard.ts:126-129 | A file has a complexity of one, and one more for a branch in every fifty lines, at least fifty being counted |
| ScorecardLaws.AverageExactly | src_local/engines/diagnostics/code_scorecard.ts:145-169 | The average is the sum over the readable files divided by all files, and one without any |
| ScorecardLaws.MeasuredExactly | src_local/engines/diagnostics/code_scorecard.ts:145-161 | What is measured of each readable file, under its path with forward slashes |
| ScorecardLaws.OnlyReadableIsMeasured | src_local/engines/diagnostics/code_scorecard.ts:145-161 | And that there is no other entry |
| Scorecard.Collector.Walk | src_local/engines/diagnostics/code_scorecard.ts:88-106 | The walk that stops at the limit collects the first files of the whole walk |
| Scorecard.CollectSourceFiles | src_local/engines/diagnostics/code_scorecard.ts:86-108 | The first source files of the tree, up to the limit |
| Scorecard.CollectScorecardMetrics | src_local/engines/diagnostics/code_scorecard.ts:132-170 | The measuring loop gives the specified metrics |
| Scorecard.ComputeScorecard | src_local/engines/diagnostics/code_scorecard.ts:184-205 | The score of those metrics, its verdict, and whether the scope was empty |
| VetoEngine.IsIgnoredPath | src_local/core/governance/veto_engine.ts:25-41 | The single scan says what splitting on both separators and looking up each segment says |
| VetoEngine.JoinedIsIgnored | src_local/core/governance/veto_engine.ts:25-41 | A joined path is ignored if and only if either part is |
| VetoEngine.SeparatorsAreAlike | src_local/core/governance/veto_engine.ts:30 | Swapping separators changes nothing |
| VetoEngine.SegmentIsIgnored | src_local/core/governance/veto_engine.ts:17-20 | The segments that are ignored; with the law on joined paths this decides every path |
| VetoEngine.ShouldVeto | src_local/core/governance/veto_engine.ts:69-87 | Each reason is given exactly when none before it applies |

## Left out

- ScanResponse, FileMetadata and EmbedResponse: their generated readers and writers have the same shape as the messages modelled.
- Custom `readUnknownField` and `writeUnknownFields` callbacks: only throw, drop and keep are modelled.
- UTF-8 decoding of strings (they are byte strings) and the bit patterns that a NaN loses on the way.
- Which error is thrown: a failed read or write is `None` or `ok == false`, and the state after it is unspecified.
- Aliasing of the `target` message: messages are values, so an update in place of a shared message is not captured.
- Failures of the file system other than those of the first rename, the write, the audit and the removal of the backup: a revert that throws rejects the heal, which is not modelled.
- JSON decoding and the filters of WatchHealth and WatchEvents after a message has been received.
- Broadcaster.EveryClientSeesSubsequence: a reader that leaves while a message waits in its channel discards it; what is left in a closed channel is not modelled.
- RunParallel.RunEndsWithMap: `fn` is total; a rejected call would reject the whole run and leave the other workers running.
- TaskWorker.EachTaskRunsOnce: for runs with ordered and lossless reports; `TaskReports.RunsOnceExactly` and `TaskReports.FinishedRowExactly` treat all runs.
- Two worker loops: `start` is called once; a stop followed by a quick start leaves two loops alive, which is not modelled.
- A task whose type is unknown ends without awaiting anything and reports before the next task of its reply is started; the model reports it after.
- Ties in `created_at` and in memory timestamps: rows of the same second are taken in the order in which they were stored, which SQLite does not promise. Result texts are left out.
- Priorities other than critical in the worker pool, which the code does not distinguish.
- The files of the parity daemon that the registry calls siblings, and the comparison itself.
- Extracting imports with a regular expression and resolving them against the file system: a file comes with the list of files its imports resolve to, or with none when it cannot be read.
- Lines that are `undefined` in the normaliser: a list of strings has none.
- Similarity.CosineInRange: over the reals, with an exact square root; rounding and infinite or undefined floats are not modelled.
- A blob in the memory table that `Remember` did not write; its whole floats are decoded and the rest is ignored.
- DependencyLaws.SlotsAreTheDoubles: for fewer than 2^32 files, more than a JavaScript map can hold.
- MemoryRetrieval.RememberedIsRetrieved: without a query text; the time stamp is the row's own and unknown fields are not stored.
- Loading and saving the ledger: a NaN count is saved as null, and after a restart null plus one is one.
- File names that are keys of `Object.prototype`, which plain objects used as maps would find.
- Alerts that are `null`, on which the engine throws, and severities outside ASCII, none of which lowers to a known word.
- Rounding of scores to two decimals.
- Reading test files to find out which modules are tested, and the regular expressions for telemetry, documentation and branches: a file comes with these facts.
- `shouldSkip`, technical terms and the other keyword checks of the veto engine: no property beyond reading them.
- gRPC, HTTP and SSE framing, SQLite, git, process spawning, logging, prompts, telemetry sampling and the user interfaces.
