# Verified model of the knowledge and dialogue backend

This project models the stateful algorithms of the backend in Dafny and proves what they are for.
`dafny verify dfyconfig.toml` checks all of it.

Code that changes things step by step is a class or a method with loops, proved against a
specification function; query expressions and arithmetic are functions; transactions, callers of
the request governor and the life of the attachment store are state machines whose steps
interleave freely. Beside each specification function stand lemmas that say, in the fields of the
rows, records or nodes alone, what an operation changes and what it leaves. Times and token amounts
are exact reals, or whole microseconds where the source stores a timestamp. A clock reading, a random
draw, a generated id, a stream's behaviour and the answer of a cost estimator are parameters. A
database is a finite map, a commit is one step, and a lock is held until commit or rollback. A hash is
an injective constructor.

| Files | What they model |
|---|---|
| `RequestGovernance`, `GovernedCalls` | the token bucket and the bounded semaphore, alone and shared by any number of callers |
| `TransientRetry`, `ChatStream` | the retry session with its backoff budget, and the streaming adapter that retries only before the first activity |
| `AttachmentStorage`, `AttachmentRecovery`, `AttachmentRuns`, `AttachmentAnswers`, `AttachmentDurability`, `AttachmentIsolation`, `AttachmentService` | the attachment store over an abstract disk: operations, crashes between any two disk effects, restarts, whole lives, every answer by the fields of record and caller, and one subject's view |
| `KeysetPaging` | the two-tier conversation list and the task list |
| `ConversationHistory`, `ContextBuilder` | history pages, the loop that loads a history, and the choice of the model context |
| `ConversationWrites`, `ConversationRuns`, `ConversationEffects`, `HistoryDuringWrites` | messages, events, pins and deletions as concurrent transactions, their whole runs, their effects and serial order, and a history loaded beside them |
| `VersionLabels`, `KnowledgeVersions`, `VersionRaces` | unique labels, version lines and activation, and saves that overlap |
| `OcrPacing`, `TenderDocx`, `TenderBlocks`, `MergeLoop` | the OCR request slots, the DOCX range reader and renderer with their output node by node, the merge rounds |
| `Outcomes`, `Text`, `FiniteSets`, `Instants` | shared results, Python string operations, counting, instants in windows |

Five places where the code does not do what one would expect are stated exactly:

- A payload whose name ends in `.part` is accepted, but no read and no restart ever finds it
  (`StageThenRead` and `RestartExact` are equivalences; `PartNameIsAccepted` is the example).
- A failed staging changes the store if and only if the upload passes the checks on name and media
  type, its id is free, its content is copied, and its file name is blank: then `AttachmentRef` raises
  outside the `try` blocks, and the payload directory stays until the next cleanup (`FailedStaging`;
  `BlankNameLeavesPayload` is the example).
- Nothing locks a knowledge document while a save reads it, numbers its version and inserts. A save is
  refused by the unique constraint if a version was committed after it read the greatest number, and
  breaks the version line if and only if it is accepted although one was committed after it read the
  document (`StaleReadBreaksLine`; `TwoSavesForkTheLine` is the example).
- A page of a history is read with two statements. A deletion that commits between those of the last
  page makes the loading loop return the full pages before it as if they were everything (`LoadHistory`,
  `LoadDuringWrites`; `TruncatedByDeletion` is the example).
- Merge batches of one never shrink the list, so with two chunks or more the merge loop does not end;
  in every other case it does (`LoopEndsIff`; `TwoChunksInBatchesOfOne` is the example).

## Model

| member | source | states |
|---|---|---|
| `RequestGovernance.RefillComposes` | app/infrastructure/llm/request_governance.py:91-100 | refilling at t1 and then at t2 equals refilling once at t2, so the lazy bucket is the continuous one |
| `RequestGovernance.DelayIsExact` | app/infrastructure/llm/request_governance.py:101-104 | the delay of a refused poll is positive, at most 60/rpm, and a lone later poll is granted iff the delay has passed |
| `RequestGovernance.RefusedPollsInvisible` | app/infrastructure/llm/request_governance.py:73-89 | after any polls, the refilled bucket is that of the granted polls alone |
| `RequestGovernance.RefusedPollsDoNotMatter` | app/infrastructure/llm/request_governance.py:73-104 | dropping refused polls changes neither the next outcome nor the next bucket |
| `RequestGovernance.GrantedIffConforming` | app/infrastructure/llm/request_governance.py:91-104 | from a full bucket, polls at given instants are all granted iff every stretch of k of them spans the time needed for k minus burst tokens |
| `RequestGovernance.ConformingWindow` | app/infrastructure/llm/request_governance.py:91-104 | such instants number at most burst plus rate times length in any closed window |
| `RequestGovernance.GrantedIffWithinRate` | app/infrastructure/llm/request_governance.py:73-104 | the same in the numbers of the settings: polls are all granted iff every stretch of k spans at least (k − burst)·60/rpm seconds |
| `RequestGovernance.LlmRequestGovernor.TakeTokenOrDelay` | app/infrastructure/llm/request_governance.py:91-104 | one pass through the token lock: new bucket, and grant or delay |
| `RequestGovernance.LlmRequestGovernor.AcquireTokenAlone` | app/infrastructure/llm/request_governance.py:73-80 | an undisturbed caller sleeps at most once, and is granted within 60/rpm plus its own overshoot |
| `RequestGovernance.LlmRequestGovernor.TryAcquireSlot` | app/infrastructure/llm/request_governance.py:69 | one non-blocking acquire takes a slot iff one is free; the shared callers poll with the same step |
| `RequestGovernance.LlmRequestGovernor.ReleaseSlot` | app/infrastructure/llm/request_governance.py:48-60 | a release beyond the initial value is an error and changes nothing |
| `GovernedCalls.LedgerStep` | app/infrastructure/llm/request_governance.py:40-71 | every step of every caller keeps free slots plus held slots equal to the concurrency, and every caller holding one slot inside the context manager and none outside |
| `GovernedCalls.RateStep` | app/infrastructure/llm/request_governance.py:73-104 | every step keeps the bucket tight with respect to the attempts logged so far |
| `GovernedCalls.PermitLedger` | app/infrastructure/llm/transient_retry.py:80-90 | in every interleaving, with failure or cancellation anywhere: free slots plus the slots callers hold is max_concurrency, nothing is over-released, a caller that backs off holds none, and no caller begins more than max_attempts attempts |
| `GovernedCalls.AttemptsInAnyWindow` | app/infrastructure/llm/openai_compatible_chat_adapter.py:96-136 | provider attempts, retries included, number at most burst + rpm/60·(t−s) in any window of any run |
| `GovernedCalls.PollsGrantedExactly` | app/infrastructure/llm/request_governance.py:62-104 | in every interleaving a token is granted iff the new attempt keeps every stretch of attempts up to it within burst plus rpm/60 per second, and a slot is taken iff the callers hold fewer than max_concurrency |
| `GovernedCalls.SettledForGood` | app/infrastructure/llm/openai_compatible_chat_adapter.py:102-136 | a caller that has shown activity, succeeded or been cancelled never begins another attempt |
| `GovernedCalls.NoAttemptAfterwards` | app/infrastructure/llm/openai_compatible_chat_adapter.py:102-136 | after the step that shows activity, or leaves by success or cancellation, the caller neither backs off nor begins another attempt |
| `GovernedCalls.AttemptsBounded` | app/infrastructure/llm/transient_retry.py:80-90 | in any interleaving a caller begins at most max_attempts attempts |
| `GovernedCalls.NeverStuck` | app/infrastructure/llm/openai_compatible_chat_adapter.py:102-136 | a caller that has not ended can always move on |
| `TransientRetry.BackoffRange` | app/infrastructure/llm/transient_retry.py:205-217 | a backoff delay lies between the capped exponential and a quarter more, and within the cap |
| `TransientRetry.DelayRange` | app/infrastructure/llm/transient_retry.py:205-217 | no delay is negative or above both caps |
| `TransientRetry.DelaysNondecreasing` | app/infrastructure/llm/transient_retry.py:205-217 | without Retry-After, the next delay is never shorter, whatever the two jitter draws |
| `TransientRetry.BackoffDoubles` | app/infrastructure/llm/transient_retry.py:205-217 | without Retry-After the wait starts at the base, doubles with each attempt up to the maximum, and grows by a quarter in proportion to the clipped draw |
| `TransientRetry.RetryAfterHeeded` | app/infrastructure/llm/transient_retry.py:205-209 | a 429 with a usable Retry-After waits for the smaller of it and its maximum; no other status uses the header |
| `TransientRetry.LastAttemptFacts` | app/infrastructure/llm/transient_retry.py:156-203 | the attempt that ends the call is unique, everything slept before it fits the budget, and one permitted attempt means no sleep |
| `TransientRetry.SleptWithinBudget` | app/infrastructure/llm/transient_retry.py:156-203 | as long as retries are granted the total sleep is within the budget |
| `TransientRetry.LlmTransientRetrySession.RetryDelay` | app/infrastructure/llm/transient_retry.py:156-203 | a retry is granted iff the failure is retryable, attempts are left and the budget covers the delay |
| `TransientRetry.LlmTransientRetrySession.RetryAfterFailure` | app/infrastructure/llm/transient_retry.py:131-139 | the session adds exactly the granted delay to what it has waited |
| `TransientRetry.Execute` | app/infrastructure/llm/transient_retry.py:80-90 | the operation runs up to its last attempt and no further, that attempt decides, and the line after the loop is not reached |
| `TransientRetry.RetriedExactly` | app/infrastructure/llm/transient_retry.py:31-57 | an attempt is followed by another iff it failed with 408, 429 or 500-599, or without status by a timeout or a lost connection, and attempts and budget remain |
| `TransientRetry.NonRetryableStops` | app/infrastructure/llm/transient_retry.py:31-57 | a failure with any other status, or an unknown one without status, ends the call no later than at that attempt |
| `ChatStream.FirstActivityExact` | app/infrastructure/llm/openai_compatible_chat_adapter.py:164-188 | activity is found iff an active response arrives before the deadline, and the verdict never comes later than the timeout |
| `ChatStream.FirstActivityChunk` | app/infrastructure/llm/openai_compatible_chat_adapter.py:173-188 | the waiting loop computes that first activity |
| `ChatStream.DecidedInTime` | app/shared/config.py:459-470 | first activity or final failure comes within timeout·attempts plus the budget, without the budget term for a single attempt |
| `ChatStream.Stream` | app/infrastructure/llm/openai_compatible_chat_adapter.py:96-150 | what is delivered is one attempt's responses from its first active one on, or nothing and the failure; the for-else is not reached; the published bound holds |
| `ChatStream.AwaitFirstActivity` | app/infrastructure/llm/openai_compatible_chat_adapter.py:102-136 | the retry loop stops at the last attempt the session allows, with the accounted time |
| `ChatStream.DeliveredFromFirstActive` | app/infrastructure/llm/openai_compatible_chat_adapter.py:102-138 | a stream delivers its last attempt's chunks less exactly those before the first active one, and ends as that attempt ends; no earlier attempt showed activity; it delivers nothing iff the last did not either |
| `ChatStream.FailureReason` | app/infrastructure/llm/openai_compatible_chat_adapter.py:173-188 | without activity an attempt fails as it broke, as an empty response if it closed in time, and otherwise with a timeout after exactly the timeout |
| `ChatStream.StreamRetriesExactly` | app/infrastructure/llm/openai_compatible_chat_adapter.py:102-136 | an attempt is followed by another iff it showed no activity, timed out or broke with a transient failure, and attempts and budget remain; an empty response is not retried |
| `ChatStream.SilenceTakesTheTimeout` | app/shared/config.py:459-470 | silent attempts cost the whole timeout each, so that with one attempt the published bound is attained |
| `ChatStream.ActivityDecidesOnArrival` | app/infrastructure/llm/openai_compatible_chat_adapter.py:102-118 | a first attempt that shows activity decides when that response arrives |
| `AttachmentStorage.CleanupComposes` | app/infrastructure/filesystem/attachment_storage.py:256-277 | cleaning up at t1 and then at t2 is cleaning up at t2 |
| `AttachmentStorage.BaseNameIsSafe` | app/infrastructure/filesystem/attachment_storage.py:94-100 | the name taken from a path passes the check a restart makes of it |
| `AttachmentStorage.BaseNameOfPath` | app/infrastructure/filesystem/attachment_storage.py:94 | the name of a path is its last component, whatever slash or dot component follows |
| `AttachmentStorage.FlattenInOrder` | app/infrastructure/filesystem/attachment_storage.py:113-129 | the stored content is the chunks in order, each where the ones before it end |
| `AttachmentStorage.FailedStaging` | app/infrastructure/filesystem/attachment_storage.py:105-149 | a staging fails and changes the store iff the upload passes the screen, its id is free, its copy succeeds and its name is blank; the next cleanup undoes any failed staging |
| `AttachmentRuns.BlankNameLeavesPayload` | app/infrastructure/filesystem/attachment_storage.py:126-137 | a one-byte upload named by one blank fails and leaves its payload directory |
| `AttachmentStorage.Configured` | app/infrastructure/filesystem/attachment_storage.py:61-76 | a configuration results iff size limit and retention are positive and some media type is not blank |
| `AttachmentStorage.ConfiguredLimits` | app/infrastructure/filesystem/attachment_storage.py:51-76 | limits are those of the settings in bytes and microseconds; a media type is accepted iff an allowed one is the same but for letter case and surrounding blanks |
| `AttachmentRecovery.ManifestRoundTrip` | app/infrastructure/filesystem/attachment_storage.py:297-358 | a manifest gives back the very record it was written for |
| `AttachmentRecovery.VerifiedPart` | app/infrastructure/filesystem/attachment_storage.py:376-400 | of any part of a finished directory, verified content is read iff the payload is there under a readable name |
| `AttachmentRecovery.RestoredExactly` | app/infrastructure/filesystem/attachment_storage.py:279-295 | any directory a crash can leave is restored iff it is whole, unexpired and readable, and then as the original |
| `AttachmentRecovery.RestartIsQuiet` | app/infrastructure/filesystem/attachment_storage.py:279-295 | a restart from any such disk holds complete originals only and removes every other directory |
| `AttachmentRecovery.RestartExact` | app/infrastructure/filesystem/attachment_storage.py:279-295 | with no operation cut off, a restart exposes exactly the available, unexpired attachments whose name does not end in .part |
| `AttachmentRecovery.ApplyIsQuiet` | app/infrastructure/filesystem/attachment_storage.py:81-277 | every operation leaves available records with complete directories, ended ones with none, and unowned directories without manifest |
| `AttachmentRecovery.CrashIsSound` | app/infrastructure/filesystem/attachment_storage.py:105-151 | cut off anywhere, an operation leaves parts of original directories only |
| `AttachmentRecovery.CrashConsistency` | app/infrastructure/filesystem/attachment_storage.py:105-151 | a crash at any point and a restart leave every attachment complete or gone; only available ones and the staged one can be there, and those the operation was not removing are |
| `AttachmentRuns.RunKeeps` | app/infrastructure/filesystem/attachment_storage.py:81-295 | over whole lives with crashes, also during restarts, the store stays quiet and the disk restorable |
| `AttachmentRuns.DeadForever` | app/infrastructure/filesystem/attachment_storage.py:244-295 | an attachment without available record and without manifest never becomes available again |
| `AttachmentRuns.DeliveredExactly` | app/infrastructure/filesystem/attachment_storage.py:187-242 | a read or consumption delivers, and delivers the original, iff an available, unexpired attachment of the same subject, staged without conversation or in the caller's, has this id and a readable name |
| `AttachmentRuns.StageThenRead` | app/infrastructure/filesystem/attachment_storage.py:376-400 | staging and then reading gives back the upload, unless its name ends in .part, which then reads as missing |
| `AttachmentRuns.PartNameIsAccepted` | app/infrastructure/filesystem/attachment_storage.py:94-109 | staging accepts such a name |
| `AttachmentRuns.EndedIsDead` | app/infrastructure/filesystem/attachment_storage.py:200-276 | what is consumed, discarded, due, or reported as ended has no available record and no manifest left |
| `AttachmentRuns.OverForGood` | app/infrastructure/filesystem/attachment_storage.py:187-277 | and so no later step delivers it, across crashes and restarts |
| `AttachmentRuns.ExpiredWhileDown` | app/infrastructure/filesystem/attachment_storage.py:279-295 | an attachment that is due when the process restarts is never delivered afterwards |
| `AttachmentRuns.ConsumedOnce` | app/infrastructure/filesystem/attachment_storage.py:214-242 | a consumption that delivers an attachment is the last delivery of it |
| `AttachmentRuns.DeliveredIsOriginal` | app/infrastructure/filesystem/attachment_storage.py:360-400 | whatever is delivered was uploaded under that id earlier by the same subject, without a conversation or in the same one, and is that upload |
| `AttachmentAnswers.CleanupEffect` | app/infrastructure/filesystem/attachment_storage.py:256-277 | cleanup marks what is due as expired, removes its directory and every directory without record, and reports how many went |
| `AttachmentAnswers.HiddenAnswer` | app/infrastructure/filesystem/attachment_storage.py:360-374 | a call on an attachment of another subject or conversation is answered as if there were none, and does nothing |
| `AttachmentAnswers.VisibleAnswer` | app/infrastructure/filesystem/attachment_storage.py:187-242 | the answer to a read or consumption of a visible attachment, and the status it has afterwards: consumed, expired, missing or still available |
| `AttachmentAnswers.DiscardAnswer` | app/infrastructure/filesystem/attachment_storage.py:244-254 | a discard by a caller the attachment admits forgets it, in whatever state |
| `AttachmentAnswers.StagingAnswer` | app/infrastructure/filesystem/attachment_storage.py:81-151 | the errors of a staging in the order of its checks, and the record and files of a successful one |
| `AttachmentAnswers.OutOfScope` | app/infrastructure/filesystem/attachment_storage.py:360-374 | in any run, a caller of another subject, or outside the conversation it was staged in, is told there is none, and record and directory stay as they are |
| `AttachmentAnswers.CrashLosesNothingElse` | app/infrastructure/filesystem/attachment_storage.py:187-295 | cut off anywhere, a call loses no available, readable, unexpired attachment but the one it was consuming or discarding |
| `AttachmentAnswers.RestartOnAnyDisk` | app/infrastructure/filesystem/attachment_storage.py:279-341 | whatever lies on the disk, a restart offers exactly the attachments with a well-formed, unexpired manifest and one payload file of the recorded size and hash |
| `AttachmentDurability.PreservedRun` | app/infrastructure/filesystem/attachment_storage.py:187-295 | over any calls, crashes, stops and restarts, a readable attachment stays offered, or complete on disk, until it is due or consumed or discarded by a caller it admits |
| `AttachmentDurability.StagedIsDelivered` | app/infrastructure/filesystem/attachment_storage.py:81-295 | so what has been staged is delivered, as uploaded, to the next such caller, whatever others did and wherever the process crashed in between |
| `AttachmentIsolation.ForeignCall` | app/infrastructure/filesystem/attachment_storage.py:360-374 | a call of another subject leaves a subject's records and directories alone |
| `AttachmentIsolation.OwnCall` | app/infrastructure/filesystem/attachment_storage.py:360-374 | a subject's own call has the outcome and effect its own share determines |
| `AttachmentIsolation.ShareOfRestart` | app/infrastructure/filesystem/attachment_storage.py:279-295 | what a restart keeps of a share depends on that share and the time |
| `AttachmentIsolation.OnlyOwnCallsMatter` | app/infrastructure/filesystem/attachment_storage.py:187-277 | a subject observes the same when every call of the others is taken out of the run |
| `AttachmentIsolation.ToldInOrder` | app/infrastructure/filesystem/attachment_storage.py:187-277 | a subject's observations are the answers to its own calls in order, each at the store of that moment |
| `AttachmentIsolation.PurgedIsOwn` | app/infrastructure/filesystem/attachment_storage.py:360-374 | the purged run is the restarts and the subject's own calls, in order |
| `AttachmentService.FilesystemAttachmentStorage.Open` | app/infrastructure/filesystem/attachment_storage.py:41-79 | bad settings are refused; otherwise the storage starts with the restored store |
| `AttachmentService.FilesystemAttachmentStorage.constructor` | app/infrastructure/filesystem/attachment_storage.py:78-79 | with a valid configuration, the restored store, and every disk state on the way |
| `AttachmentService.FilesystemAttachmentStorage.ReadVerifiedContent` | app/infrastructure/filesystem/attachment_storage.py:383-400 | the content of the one payload file, if size and hash match |
| `AttachmentService.FilesystemAttachmentStorage.RemoveDirectory` | app/infrastructure/filesystem/attachment_storage.py:402-409 | files go one by one in any order, then the directory; true iff it was there |
| `AttachmentService.FilesystemAttachmentStorage.CleanupExpired` | app/infrastructure/filesystem/attachment_storage.py:256-277 | equals the cleanup specification, and returns how many directories went |
| `AttachmentService.FilesystemAttachmentStorage.Stage` | app/infrastructure/filesystem/attachment_storage.py:81-151 | equals the staging specification, error cases included, through states a crash may leave |
| `AttachmentService.FilesystemAttachmentStorage.CopyPayload` | app/infrastructure/filesystem/attachment_storage.py:113-129 | the chunk loop's error or the payload in place, with its size and digest |
| `AttachmentService.FilesystemAttachmentStorage.WriteManifest` | app/infrastructure/filesystem/attachment_storage.py:343-358 | the manifest appears whole under its final name, or the directory is gone |
| `AttachmentService.FilesystemAttachmentStorage.Read` | app/infrastructure/filesystem/attachment_storage.py:187-212 | equals the read specification; a damaged attachment becomes missing |
| `AttachmentService.FilesystemAttachmentStorage.Consume` | app/infrastructure/filesystem/attachment_storage.py:214-242 | equals the consume specification; status first, then the directory, then the content is handed out |
| `AttachmentService.FilesystemAttachmentStorage.Discard` | app/infrastructure/filesystem/attachment_storage.py:244-254 | equals the discard specification, whatever the record's status |
| `KeysetPaging.TasksAreOneTier` | app/infrastructure/persistence/repositories/task_repository.py:163-205 | the task list is the conversation list on a table without pins |
| `KeysetPaging.NextSelection` | app/infrastructure/persistence/repositories/conversation_list_read_repository.py:32-81 | the next cursor selects exactly the rows the page did not reach |
| `KeysetPaging.WalkIsSortedList` | app/infrastructure/persistence/repositories/conversation_list_read_repository.py:21-81 | following the cursors returns the owner's rows, pinned first, then newest first, then by greater id, each once, in the needed number of pages |
| `KeysetPaging.PagesNeededIsLeast` | app/infrastructure/persistence/repositories/conversation_list_read_repository.py:54-58 | that number is ceil(n/limit), one for an empty list |
| `KeysetPaging.PagesAreFull` | app/infrastructure/persistence/repositories/conversation_list_read_repository.py:54-81 | every page but the last holds exactly the limit and its last key as cursor; the last has none |
| `KeysetPaging.OnePage` | app/infrastructure/persistence/repositories/conversation_list_read_repository.py:32-58 | a page lists a row once if its key lies after the cursor and not beyond the page, else not at all |
| `KeysetPaging.UntouchedRowListedOnce` | app/infrastructure/persistence/repositories/conversation_list_read_repository.py:21-81 | whatever happens to other rows between the pages, a row whose key stays put is listed exactly once by a completed walk |
| `KeysetPaging.TaskWalkIsSortedList` | app/infrastructure/persistence/repositories/task_repository.py:163-205 | following the task cursors returns the owner's tasks by (updated_at, id) descending, each once, in the needed number of pages |
| `KeysetPaging.UntouchedTaskListedOnce` | app/infrastructure/persistence/repositories/task_repository.py:163-205 | whatever happens to other tasks between the pages, one that is not updated is listed exactly once |
| `ConversationHistory.RecentIsSuffix` | app/infrastructure/persistence/repositories/conversation_history_read_repository.py:73-106 | the recent read returns the last messages up to the cut, in order |
| `ConversationHistory.PageAfterPrefix` | app/infrastructure/persistence/repositories/conversation_history_read_repository.py:34-71 | the page after the first m messages holds the next ones, and says truly whether more follow |
| `ConversationHistory.PageExtendsPrefix` | app/platform/dialogue/application/agent_continuation.py:197-210 | a page extends a prefix of the log to a longer one or to all of it, with a strictly larger cursor |
| `ConversationHistory.LoadHistory` | app/platform/dialogue/application/agent_continuation.py:194-210 | with appends and deletions falling between the statements: exactly what the last page's query saw in the needed number of pages, or, if the conversation was deleted after that page had found it, the full pages before; the cursor check never fires |
| `ConversationHistory.TruncatedByDeletion` | app/infrastructure/persistence/repositories/conversation_history_read_repository.py:42-59 | more than one page of messages, deleted between the two statements of the second page: the first page is returned as everything |
| `HistoryDuringWrites.WritesAreAppending` | app/infrastructure/persistence/repositories/conversation_write_repository.py:159-210 | what successive statements see of any run of writes only grows or disappears, and is numbered 1..n |
| `HistoryDuringWrites.LoadedIsGapless` | app/platform/dialogue/application/agent_continuation.py:194-210 | a history loaded beside any run is 1..m without a gap, and everything committed when the last page was selected unless the conversation was just deleted |
| `HistoryDuringWrites.LoadDuringWrites` | app/platform/dialogue/application/agent_continuation.py:194-210 | the loading loop beside any run returns such a history, or not-found when the conversation does not exist |
| `HistoryDuringWrites.LoadedIsAppended` | app/platform/dialogue/application/agent_continuation.py:194-210 | a history that no deletion cut off is exactly what committed appends had brought by then, in commit order, field by field |
| `ContextBuilder.GreedyIsLongest` | app/platform/conversation/application/context_builder.py:45-63 | the loop finds the longest affordable run of newest messages, and fails iff the newest alone is over budget |
| `ContextBuilder.BuildSelectsLongestSuffix` | app/platform/conversation/application/context_builder.py:30-71 | build returns that suffix in order, each message with its id, role, content and sequence, with exact cost and omission counts |
| `ContextBuilder.Build` | app/platform/conversation/application/context_builder.py:30-71 | the method computes the specified context or error |
| `ContextBuilder.BuildErrors` | app/platform/conversation/application/context_builder.py:45-96 | the request is invalid iff a message is of another conversation or its sequence not positive and increasing; the estimator is, iff the loop meets a negative cost |
| `ContextBuilder.CostAddsUp` | app/platform/conversation/application/context_builder.py:45-63 | the cost of a context is its messages' costs added up |
| `ContextBuilder.SelectNewest` | app/platform/conversation/application/context_builder.py:45-63 | the reverse loop, for any cost function; a negative cost is an error |
| `ContextBuilder.ValidateRequest` | app/platform/conversation/application/context_builder.py:73-96 | accepts iff all messages belong to the conversation and their positive sequences increase |
| `ContextBuilder.WindowIsTransparent` | app/infrastructure/persistence/repositories/conversation_history_read_repository.py:73-106 | building from a recent window of at least max_messages gives the messages, cost or error of the full history up to the cut |
| `ConversationWrites.NextKeeps` | app/infrastructure/persistence/repositories/conversation_write_repository.py:108-210 | every step of every transaction keeps the numbering, the pin cap and the truth of what lock holders have read |
| `ConversationWrites.SequencesAreDense` | app/infrastructure/persistence/repositories/conversation_write_repository.py:175-210 | in every interleaving messages, and separately events, are numbered exactly 1..n |
| `ConversationWrites.PinCap` | app/infrastructure/persistence/repositories/conversation_write_repository.py:108-157 | in every interleaving no owner has more pins than the limit, even if lock hashes collide |
| `ConversationWrites.WritesAreCommits` | app/infrastructure/persistence/repositories/conversation_write_repository.py:108-210 | only a creation or a committing step changes the database, so rejections and rollbacks change nothing |
| `ConversationWrites.LogsGrow` | app/infrastructure/persistence/repositories/conversation_event_repository.py:42-55 | one step lets the logs of a surviving conversation grow at the end only |
| `ConversationRuns.RunLogsGrow` | app/infrastructure/persistence/repositories/conversation_write_repository.py:159-210 | in any run that creates a conversation once, a later state that knows it extends the logs of an earlier one |
| `ConversationWrites.CommittedMessage` | app/infrastructure/persistence/repositories/conversation_write_repository.py:175-210 | a message that commits is the last row, numbered one more |
| `ConversationWrites.EventCommitsIffStillNext` | app/infrastructure/persistence/repositories/conversation_event_repository.py:42-55 | save_event commits iff its number is still the next one, even if the earlier lock was lost, else changes nothing |
| `ConversationWrites.KeptLockKeepsNumber` | app/platform/dialogue/application/agent_invocation.py:300-310 | with the lock kept from next_event_sequence on, the number stays the next one |
| `ConversationWrites.RepinSucceeds` | app/infrastructure/persistence/repositories/conversation_write_repository.py:134-137 | once a transaction holds a row that is already as it wants it, whatever the others do, even at the limit, it can only commit or be rolled back, can always commit, and writes nothing |
| `ConversationRuns.RefusedPinChangesNothing` | app/infrastructure/persistence/repositories/conversation_write_repository.py:139-157 | in any run, no step of a refused pin wrote anything, and at the refusal its owner held exactly the limit |
| `ConversationWrites.PinRefusedIffAtLimit` | app/infrastructure/persistence/repositories/conversation_write_repository.py:108-157 | a new pin is refused iff the owner is at the limit, and then nothing changes |
| `ConversationWrites.NoDeadlock` | app/infrastructure/persistence/repositories/conversation_write_repository.py:108-210 | while a transaction is active, some active transaction can advance |
| `ConversationWrites.RowHolderAdvances` | app/infrastructure/persistence/repositories/conversation_write_repository.py:108-210 | whoever waits for a row waits for a transaction that can advance |
| `ConversationEffects.CommitEffect` | app/infrastructure/persistence/repositories/conversation_write_repository.py:108-210 | in any run, the step that commits a job writes exactly what was asked: one more row with the next number, the conversation pinned as asked and below the limit, or the conversation and both logs gone |
| `ConversationEffects.RefusalExplained` | app/infrastructure/persistence/repositories/conversation_write_repository.py:108-210 | any other end writes nothing, and at that step the conversation was missing or another owner's, the owner held exactly the limit, the event number was stale, or the transaction was aborted |
| `ConversationEffects.RunsAreSerial` | app/infrastructure/persistence/repositories/conversation_write_repository.py:108-210 | every interleaving leaves the database of its committed writes done one after the other in commit order, each allowed when its turn came |
| `ConversationEffects.MessagesAreAppends` | app/infrastructure/persistence/repositories/conversation_write_repository.py:175-210 | the messages of a conversation are what committed appends brought since its creation, none lost, none added, in commit order |
| `ConversationEffects.WaitsExactlyForLocks` | app/infrastructure/persistence/repositories/conversation_write_repository.py:108-210 | a transaction waits iff another holds the advisory lock, or the row that is there, which its next statement asks for |
| `ConversationEffects.AtMostSixStatements` | app/infrastructure/persistence/repositories/conversation_write_repository.py:108-210 | no transaction executes more than six statements, whatever gets in between |
| `ConversationEffects.JobAsRequested` | app/infrastructure/persistence/repositories/conversation_write_repository.py:108-210 | a transaction does the job it was begun with |
| `VersionLabels.CandidatesDiffer` | app/infrastructure/persistence/repositories/policy_persistence_gateway.py:939-958 | different suffixes give different labels |
| `VersionLabels.Pigeonhole` | app/infrastructure/persistence/repositories/policy_persistence_gateway.py:939-958 | labels in use bound the suffixes that can be taken |
| `Text.DecimalStandsFor` | app/infrastructure/persistence/repositories/policy_persistence_gateway.py:953-958 | the suffix of a label is its number in digits without leading zero |
| `VersionLabels.EnsureUniqueVersionLabel` | app/infrastructure/persistence/repositories/policy_persistence_gateway.py:939-958 | the search ends at the stripped label or its least free suffix, at most one more than the labels in use; it fails iff the label is blank |
| `KnowledgeVersions.KnowledgeStore.SaveDocumentVersion` | app/infrastructure/persistence/repositories/policy_persistence_gateway.py:88-147 | a save adds one version and moves the latest pointer, or fails and changes nothing |
| `KnowledgeVersions.KnowledgeStore.NextNumber` | app/infrastructure/persistence/repositories/policy_persistence_gateway.py:886-937 | one more than the greatest number of the document, from one |
| `KnowledgeVersions.KnowledgeStore.ActivateVersion` | app/infrastructure/persistence/repositories/knowledge_publication_repository.py:22-57 | equals the activation specification, error cases included |
| `KnowledgeVersions.SaveOutcome` | app/infrastructure/persistence/repositories/policy_persistence_gateway.py:88-147 | a save fails for a missing target, a blank label, a file the document has, or a missing embedding, in this order; without target it goes to the document of that name and category |
| `KnowledgeVersions.SaveEffect` | app/infrastructure/persistence/repositories/policy_persistence_gateway.py:847-958 | it adds one draft with the next number, a new label made of the requested one and the latest version as predecessor, and changes nothing else but the latest pointer |
| `KnowledgeVersions.ActivationEffect` | app/infrastructure/persistence/repositories/knowledge_publication_repository.py:22-57 | an activation succeeds iff the version is the existing document's; it becomes current and active, the previous current one superseded, and nothing else changes |
| `KnowledgeVersions.ActivationSwitches` | app/infrastructure/persistence/repositories/knowledge_publication_repository.py:41-50 | in any run, activating a version makes it the only active one of its document and supersedes the one that was |
| `KnowledgeVersions.SaveKeeps` | app/infrastructure/persistence/repositories/policy_persistence_gateway.py:886-937 | a save keeps version lines, the one active version and distinct labels |
| `KnowledgeVersions.ActivateKeeps` | app/infrastructure/persistence/repositories/knowledge_publication_repository.py:22-57 | so does an activation |
| `KnowledgeVersions.RunKeeps` | app/infrastructure/persistence/repositories/policy_persistence_gateway.py:106-147 | so does every run of saves, failed saves and activations |
| `KnowledgeVersions.VersionChain` | app/infrastructure/persistence/repositories/policy_persistence_gateway.py:886-937 | following previous_version_id from the latest version visits all n versions numbered n..1 and ends at the only initial one |
| `KnowledgeVersions.ActiveIffCurrent` | app/infrastructure/persistence/repositories/knowledge_publication_repository.py:41-50 | a version is active iff it is its document's current one, at most one is, and labels do not repeat |
| `KnowledgeVersions.NothingRepeats` | sql/001_kb_policy_schema.sql:79-82 | after any run no document shares name and category with another, and no version of a document its number, label or file |
| `VersionRaces.InsertOutcome` | sql/001_kb_policy_schema.sql:79-82 | an insert is accepted only with the next number, and then keeps the line iff nothing was committed since it read the document |
| `VersionRaces.InsertEffect` | app/infrastructure/persistence/repositories/policy_persistence_gateway.py:886-937 | an insert is refused iff its number, label or file is taken or a chunk has no embedding; else it adds exactly the version as read |
| `VersionRaces.UninterruptedIsWhole` | app/infrastructure/persistence/repositories/policy_persistence_gateway.py:847-937 | with nothing in between, the steps of a save are one whole save |
| `VersionRaces.NothingRepeatsInRaces` | sql/001_kb_policy_schema.sql:79-82 | in any race, also after a line has been broken, no version of a document repeats a number, label or file |
| `VersionRaces.StaleReadBreaksLine` | app/infrastructure/persistence/repositories/policy_persistence_gateway.py:886-937 | in any race of overlapping saves with whole lines so far, an insert is refused if a version was committed after it read the maximum, and breaks the line iff it is accepted although one was committed after it read the document |
| `VersionRaces.TwoSavesForkTheLine` | app/infrastructure/persistence/repositories/policy_persistence_gateway.py:847-937 | two overlapping saves from the empty store, both accepted, after which the document has no version line |
| `OcrPacing.RequestSlots.ReserveRequestSlot` | app/infrastructure/ocr/tencent_ocr.py:401-425 | the reservation of one slot; none for a non-positive interval |
| `OcrPacing.ScheduleIsPaced` | app/infrastructure/ocr/tencent_ocr.py:410-425 | instants are at least one interval apart in lock order, and nobody starts before asking or before the next free instant |
| `OcrPacing.ScheduleIsEarliest` | app/infrastructure/ocr/tencent_ocr.py:410-425 | no spacing schedule starts any request earlier |
| `OcrPacing.WindowBound` | app/infrastructure/ocr/tencent_ocr.py:410-425 | a window of length T holds at most floor(T/interval)+1 instants |
| `TenderDocx.IterDocumentBlocks` | app/infrastructure/documents/tender_docx.py:275-318 | the reader's loop yields the blocks of the nodes with text, with their order and ids |
| `TenderDocx.ReadingIsContents` | app/infrastructure/documents/tender_docx.py:275-318 | read blocks carry the kind, text and rows of the nodes with text, in order |
| `TenderBlocks.BlocksOfNodes` | app/infrastructure/documents/tender_docx.py:275-318 | a paragraph has a block iff its text is not blank, a table iff some cell is not, no other node has one; ids, order, paragraph numbers, stripped text and cells are the node's |
| `TenderBlocks.ContentOfNode` | app/infrastructure/documents/tender_docx.py:300-318 | the text of a table is its rows with a nonblank cell, their stripped cells and then the rows joined by bars |
| `TenderBlocks.JoinParts` | app/infrastructure/documents/tender_docx.py:305 | a join is its parts in order with one separator between each two |
| `TenderDocx.SelectionSpansSlice` | app/infrastructure/documents/tender_docx.py:339-356 | a selection succeeds iff both boundaries are known and in order, and holds exactly the blocks of the slice between them |
| `TenderDocx.Rendered` | app/infrastructure/documents/tender_docx.py:194-272 | a rendering succeeds iff both boundaries are known and in order |
| `TenderDocx.RenderOutput` | app/infrastructure/documents/tender_docx.py:194-272 | the copying and appending loops produce that rendering: the skeleton, or the selection's error |
| `TenderDocx.RereadSkeleton` | app/infrastructure/documents/tender_docx.py:194-272 | reading a skeleton back gives two heading blocks, exactly the chosen blocks, then a title and a placeholder for each missing title |
| `TenderDocx.EveryTitleIsCovered` | app/infrastructure/documents/tender_docx.py:194-272 | every requested nonblank title is copied text or gets a placeholder |
| `TenderDocx.RangeCopiedInPlace` | app/infrastructure/documents/tender_docx.py:236-247 | after the heading a rendering continues with exactly the nodes between the boundaries that are no section properties, with and without text, in order |
| `TenderDocx.SectionPropertiesOnceAtEnd` | app/infrastructure/documents/tender_docx.py:224-260 | a rendering has section properties iff the body has, once, as its last node, and they are the first of the body |
| `TenderBlocks.RenderErrors` | app/infrastructure/documents/tender_docx.py:339-351 | a rendering is refused for a missing boundary, an unknown one, or boundaries in the wrong order, each exactly then |
| `TenderBlocks.SkeletonExactly` | app/infrastructure/documents/tender_docx.py:194-272 | a rendering node by node: three heading nodes, the copied nodes, a bold title and a placeholder for each title that is neither blank nor copied, and the section properties |
| `MergeLoop.MergeRound` | tools/tender_mvp.py:106-131 | the batch loop computes the round |
| `MergeLoop.RoundFacts` | tools/tender_mvp.py:106-131 | a round keeps the leaves in order, adds one call per batch, and halves the list for batches of two or more |
| `MergeLoop.LoopMergesFullBatches` | tools/tender_mvp.py:105-131 | a round of the loop merges batches of exactly the requested size, and the last the rest |
| `MergeLoop.ResultsLeft` | tools/tender_mvp.py:105-131 | after k rounds n divided by size^k, rounded up, results are left |
| `MergeLoop.RoundsNeeded` | tools/tender_mvp.py:105-131 | the loop has ended after k rounds iff n <= size^k |
| `MergeLoop.MergeAll` | tools/tender_mvp.py:103-133 | for all inputs, followed for any number of rounds: still running, or one tree over all chunks in order with no batch above the limit after at most 2n−2 calls, or the error of an empty list or a zero step; after n rounds it still runs iff n >= 2 and batches hold one |
| `MergeLoop.LoopEndsIff` | tools/tender_mvp.py:105-131 | the loop ends iff there is at most one chunk or batches do not hold exactly one, and then within n rounds |
| `MergeLoop.SingletonRoundsStall` | tools/tender_mvp.py:105-131 | any number of rounds in batches of one leaves as many results as there were chunks |
| `MergeLoop.TwoChunksInBatchesOfOne` | tools/tender_mvp.py:105-131 | two chunks in batches of one never end |

## Left out

- HTTP routes, schemas, assemblers, MCP glue, the frontend and the composition root: wiring and field copying.
- Provider SDKs, SQL execution, JSON, XML and zip parsing, embeddings, keyword scoring and vector distance.
- Task, workflow, dispatcher and knowledge-retrieval internals; the task event page has the query shape of the history page.
- Rounding of floats, and a Retry-After header that is not a finite number.
- RequestGovernance.LlmRequestGovernor.TakeTokenOrDelay: a clock that runs backwards is modelled as the code treats it, but the window and delay theorems need a clock that does not.
- GovernedCalls.PermitLedger: does not cover an exception raised by the wait logging between taking a slot and entering the try block; the retry decision is any decision within max_attempts, as TransientRetry says which.
- ChatStream.Stream: cancellation by the consumer in mid-stream appears in the permit ledger only; a response at the very instant of the deadline counts as arrived.
- ChatStream.DecidedInTime: waits for the governor and the closing of a stream are not accounted, as the published setting does not count them.
- AttachmentStorage: threads racing in the storage object (it has no lock), removal that fails silently, tampering with the directory by others, symbolic links, lower-casing of media types beyond a to z.
- AttachmentRuns.ConsumedOnce: generated ids are assumed never to repeat; a collision with a directory on disk is modelled as the error it is.
- AttachmentIsolation.OnlyOwnCallsMatter: restarts fall between calls there; crashes inside calls are the subject of AttachmentRecovery and AttachmentRuns.
- AttachmentService.FilesystemAttachmentStorage.Read: updating the status field of a shared record object is an update of the record map, so aliasing of record objects is not captured.
- KeysetPaging: a change of the walked row's own key between pages; it may then be listed twice or not at all.
- ConversationHistory.LoadHistory: needs the history to be bounded while it is read; against an endless stream of appends the loop need not end.
- ConversationHistory.RecentIsSuffix: is about what its message query sees; a deletion between the two statements of the recent read yields an empty window.
- ConversationWrites: isolation levels other than READ COMMITTED, stale attributes of the ORM session, topic summaries, timestamps.
- KnowledgeVersions.VersionChain: saves of one document are serialised there; VersionRaces says what happens when they overlap.
- VersionRaces.StaleReadBreaksLine: the insert and the commit of a save are one step, which is what the unique constraints make of concurrent inserts of one number.
- KnowledgeVersions.KnowledgeStore.SaveDocumentVersion: of blocks, sections and chunks only the missing embedding that makes the save fail.
- TenderDocx: heading levels and paths, styles, template flags, page breaks inside paragraphs, and the check of the archive.
