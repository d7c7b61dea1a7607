# Agent runtime: storage, reload, delivery and limits

A Dafny model of the parts of the agent runtime whose correctness is hardest to see from the code: the storage
protocols, the transactional configuration, streaming delivery and approvals, and a few algorithms with exact
specifications. Code that updates objects in place is modelled by classes and loops, each proved against a function or
a predicate; the theorems are about those functions, over every input, every history or every interleaving.

| file | what it models |
|---|---|
| `Sessions.dfy`, `MemoryState.dfy`, `MemoryBackend.dfy`, `MemoryProperties.dfy`, `MemoryRecords.dfy` | the in-process store: step functions, the class with its loops, what holds over histories, and what each record tells about its past |
| `PostgresCas.dfy`, `PostgresRetry.dfy`, `PostgresDeletion.dfy` | read, conditional UPDATE and bounded retry of many concurrent writers, what the retry is good for, and deletions |
| `RedisState.dfy`, `RedisBackend.dfy`, `RedisProperties.dfy`, `RedisRecords.dfy`, `RedisSessions.dfy` | the atomic scripts over keys and index sets, their refinement of the in-process store, single records, and the session cap |
| `Approvals.dfy`, `ApprovalOrigins.dfy`, `ApprovalRunner.dfy` | first decision wins, and who may run a tool; where every decision comes from; the runner's calls as methods |
| `Documents.dfy`, `ConfigMerge.dfy`, `ConfigDiff.dfy`, `Reload.dfy`, `ReloadOutcomes.dfy` | tier merge with provenance, leaf diff, classification, transactional swap; which setting is in which class, and what becomes of a candidate |
| `EditDistance.dfy` | the one-row dynamic programme behind path suggestions |
| `StreamProtocol.dfy`, `StreamOutcomes.dfy`, `StreamResponse.dfy` | producer and consumer over a bounded queue, and the idempotency record: the machine, how its runs end, and the generator as a method |
| `McpNames.dfy` | collision-safe tool names and their lookup |
| `OutputLimit.dfy` | UTF-8 safe cutting, token budget, truncation of tool output |
| `Metrics.dfy` | label-set cap, counters and histograms |
| `RateLimit.dfy` | the fixed-window limiter |
| `Chunking.dfy` | newline normalization and overlapping chunks |
| `History.dfy` | history pruning and context-window trimming |
| `Basics.dfy` | Option, Result and one lemma on least elements |

Concurrency is a state machine over the steps between two suspension points, with steps of all parties interleaved
freely. Time is an integer or real passed in, hashes and identifiers are injective values, text is a sequence of Unicode
scalar values, floating-point amounts are reals, and token estimates are natural numbers.

Where the code and what is said about it differ, the model follows the code:

- Admission in process is described as leaving no window where session or run exists alone. It is all-or-nothing only
  while callers never revive a terminal run (`MemoryProperties.RevivalBreaksAdmission`); on Redis a refused admission
  keeps the session it made (`RedisProperties.RefusedAdmissionKeepsNewSession`).
- The session id pattern also accepts one final newline, since its end anchor matches before it.
- The Redis sweep judges staleness by the index score, which updates do not move, so it can fail a fresh run.
- A run that ends while the stream queue is full loses its end marker, and its record is expired although everything
  was delivered. A response closed while its tail is being sent leaves the record in progress.
- The guard of a resume looks for a run with the request id of the resume, and clients choose request ids: an approval can
  be reported as approved although its tool never ran (`Approvals.ClaimedResumeEndsWithoutRun`).
- The session cap on Redis counts index entries by age. It never refuses when the time to live is zero, and a session
  that is written to outlives its entry (`RedisSessions.ZeroTtlRefusesNothing`, `RedisSessions.OutlivedEntryMakesRoom`).
- On Postgres a session that is deleted and created anew while a mutation is between its read and its UPDATE can get the
  deleted events back (`PostgresDeletion.DeletedEventsComeBack`).
- At the instant of expiry a manual decision is accepted in process and turned away by Postgres.
- A document of exactly one chunk's width gives a second chunk when there is an overlap.

The theorems on classification ask for configurations that have their sections, as validation ensures. Without that a
section that turned into null would count as a live change (`Reload.NullSectionSlipsThrough`).

## Model

| member | source | states |
|---|---|---|
| `MemoryBackend.Backend.CreateSession` | app/storage/memory.py:67-98 | closed and malformed ids are refused without effect; otherwise a missing session is made and an existing one is left as it is |
| `MemoryBackend.SessionIdsExactly` | app/storage/model.py:20-32 | a session id is one to 128 letters, digits, underscores and dashes, or such a one and a newline |
| `MemoryBackend.Backend.MutateSession` | app/storage/memory.py:105-133 | missing session and stale revision are refused; otherwise events are appended, usage is added key by key and the revision rises by one |
| `MemoryBackend.Backend.DeleteSession` | app/storage/memory.py:153-171 | the cascade, with its loops over runs and idempotency records: refused for a nonterminal run, else session, runs, records, fence and fence counter go |
| `MemoryState.SortTerminals` | app/storage/memory.py:474 | the terminal runs of a session, each once, none older than one before it |
| `MemoryBackend.Backend.EnforceRunCapacity` | app/storage/memory.py:471-480 | the eviction loop removes runs from the front of the age order while the session is at its cap, and reports whether there is room |
| `MemoryBackend.Backend.CreateRun` | app/storage/memory.py:179-208 | the order of the checks: missing session, existing run, capacity; eviction happens even when the run is then refused |
| `MemoryBackend.Backend.AdmitRun` | app/storage/memory.py:210-256 | session first, run second: the new state and the reply are those of the step function, under an eviction order the backend computed; closed and malformed ids are refused without effect |
| `MemoryBackend.Backend.UpdateRun` | app/storage/memory.py:263-292 | any status is accepted, absent fields keep their value, and the update time always moves |
| `MemoryBackend.Backend.CreateIdem` | app/storage/memory.py:302-329 | an existing record is returned, a full session refuses, otherwise the record is added with its expiry |
| `MemoryBackend.Backend.ExpireIdem` | app/storage/memory.py:356-364 | the record is removed, and a missing one is reported as absent |
| `MemoryBackend.Backend.AcquireFence` | app/storage/memory.py:404-428 | a live fence denies; otherwise the counter rises by one and the fence carries it |
| `MemoryBackend.Backend.ReleaseFence` | app/storage/memory.py:447-456 | only the holder's token releases |
| `MemoryBackend.Backend.Sweep` | app/storage/memory.py:368-400 | the four loops one after the other compute one simultaneous step: sessions are judged before runs are reconciled |
| `MemoryProperties.EvictRemovesOldest` | app/storage/memory.py:474-480 | eviction removes a block from the front of the age order and stops as soon as there is room |
| `MemoryProperties.StepKeepsInvariant` | app/storage/memory.py:153-364 | no operation of a caller that never revives a terminal run breaks the invariant |
| `MemoryProperties.ReachableInvariant` | app/storage/memory.py:153-400 | in every reachable state each nonterminal run has its session and no session exceeds its run cap |
| `MemoryProperties.AdmissionRefusedExactly` | app/storage/memory.py:210-256 | in any state: a new run is refused if and only if nonterminal runs alone fill the cap, and the refusal leaves no trace if and only if the session existed and had no terminal run |
| `MemoryProperties.AdmissionAllOrNothing` | app/storage/memory.py:210-256 | under the invariant: session and run both present, with at most one, oldest, terminal run evicted and nothing else touched, or refused with the state unchanged |
| `MemoryProperties.AdmissionAfterAnyHistory` | app/storage/memory.py:210-256 | the whole of it, eviction and frame included, after every well-behaved history |
| `MemoryProperties.RevivalBreaksAdmission` | app/storage/memory.py:282-283 | the caller's obligation is needed: a history, well-behaved but for one last update that revives a terminal run, after which a refused admission leaves a new session behind |
| `MemoryProperties.DeleteSessionLeavesNothing` | app/storage/memory.py:153-171 | refused if and only if a nonterminal run exists; otherwise nothing of the session remains and nothing of another session moves |
| `MemoryProperties.SweepSparesLiveRuns` | app/storage/memory.py:368-400 | no pass changes a nonterminal run within its time to live or deletes the session of a nonterminal run |
| `MemoryProperties.OneSweepSufficesExactly` | app/storage/memory.py:368-400 | a second pass at the same time is idle if and only if the first freed no session by reconciling a run (and, for a negative time to live, interrupted none) |
| `MemoryProperties.TwoSweepsSuffice` | app/storage/memory.py:368-400 | from every state three passes at one time equal two |
| `MemoryProperties.OneSweepMayNotSuffice` | app/storage/memory.py:368-400 | a state reached by one admission in which only the second pass collects the session |
| `MemoryProperties.IdemStaysWithinCap` | app/storage/memory.py:302-329 | in every reachable state no session holds more idempotency records than its cap |
| `MemoryProperties.FenceIsExclusive` | app/storage/memory.py:404-428 | a fence is refused if and only if another one lives; a granted one carries the number after the session's counter, leaves all other fences alone, and denies everyone exactly until it expires |
| `MemoryProperties.FenceNumbersNeverFall` | app/storage/memory.py:404-428 | no operation but deleting the session takes the fencing counter back |
| `MemoryProperties.LaterFenceHasHigherNumber` | app/storage/memory.py:404-428 | of any two fences granted for a session, with any history that does not delete it in between, the later one has the higher number |
| `MemoryProperties.OnlyTheHolderReleases` | app/storage/memory.py:447-456 | a fence goes away if and only if the token is the holder's, and the next one can then be had at once |
| `MemoryRecords.MutationAcceptedExactly` | app/storage/memory.py:105-133 | a mutation is accepted if and only if the session is there with exactly the expected revision; a refusal says which of the two failed and changes nothing; an accepted one adds events and usage, sets flag and time, and touches nothing else |
| `MemoryRecords.CreatedExactly` | app/storage/memory.py:84-98 | a new session has revision 1, the given events, no usage, no flag and the current time; an existing one is left alone |
| `MemoryRecords.SessionTellsItsHistory` | app/storage/memory.py:105-133 | over any history in which the session stays, its record is the first one plus every mutation accepted since, once and in order: the revision counts them, events and usage add them up, flag and time are the last ones given |
| `MemoryRecords.OneMutationPerRevision` | app/storage/memory.py:120-124 | of two mutations with the same expected revision at most one is accepted, whatever happens in between, as long as the session stays |
| `MemoryRecords.RemadeSessionStartsAgain` | app/storage/memory.py:105-133 | it must stay: deleted and made anew, the session accepts the same expected revision a second time |
| `MemoryRecords.UpdatedExactly` | app/storage/memory.py:263-292 | an update gives a run the status and outcome it names, keeps the rest, and touches no other run |
| `MemoryRecords.UpdatesAddUp` | app/storage/memory.py:263-292 | two updates in a row are one, in which the second is preferred field by field |
| `MemoryRecords.SessionsLiveExactly` | app/storage/memory.py:368-400 | the sweep keeps a session if and only if it is within its time to live, has none, is fenced or has a run that is not over |
| `MemoryRecords.RunsLiveExactly` | app/storage/memory.py:368-400 | within its time to live a run is left alone; after it one that is over is dropped and any other fails as interrupted |
| `MemoryRecords.IdemCreatedExactly` | app/storage/memory.py:302-329 | a new record is refused if and only if the session is at its cap, and otherwise expires after its time to live; an existing one is left alone |
| `MemoryRecords.IdemLivesExactly` | app/storage/memory.py:302-400 | over any history that names neither the record nor its session's deletion, the record is there if and only if no sweep came at or after its expiry |
| `PostgresCas.StoredRecordIsTheLog` | app/storage/postgres_backend.py:423-483 | after every interleaving of any number of calls the stored events are the committed deltas in commit order, usage is their sum, flag and time are the last ones committed, and revision and column are the start plus the number of commits |
| `PostgresCas.ReturnedCallsAreLinearized` | app/storage/postgres_backend.py:442-482 | a call that returned is in the log exactly once, on base e, e+1 or e+2, with its own delta, and returned the record of that commit |
| `PostgresCas.OtherCallsHaveNoEffect` | app/storage/postgres_backend.py:448-483 | a call that ended in a conflict, found no row or has not ended is not in the log |
| `PostgresCas.LostRaceMeansOtherCommit` | app/storage/postgres_backend.py:466-482 | a conditional UPDATE that matches no row lost to another call that committed on the same base |
| `PostgresCas.ReplayTotals` | app/storage/postgres_backend.py:456-465 | replaying a log appends every delta once, adds every usage once, counts every commit once and keeps the last flag and time |
| `PostgresCas.PlayIsReplay` | app/storage/memory.py:105-133 | calls on consecutive revisions, played one after the other against the in-process backend, are all accepted, give the replayed record and touch no other session |
| `PostgresCas.LogReplaysInMemory` | app/storage/postgres_backend.py:423-483 | after every interleaving the log, played one call at a time against an in-process backend that holds the inserted record, is accepted throughout and leaves exactly the record of the table |
| `PostgresCas.ExecKeepsInvariant` | app/storage/postgres_backend.py:442-483 | the table invariant, which says what each phase of a call means for the log, holds after every run of steps |
| `PostgresCas.Table.Select` | app/storage/postgres_backend.py:443-453 | the read of one attempt: missing row, stale baseline or merged record |
| `PostgresCas.Table.CompareAndSet` | app/storage/postgres_backend.py:153-157 | the UPDATE: matches if and only if the revision column is the expected one, and is the step of the machine |
| `PostgresCas.Table.MutateSession` | app/storage/postgres_backend.py:423-483 | the retry loop itself, with arbitrary steps of others at every await: it returns the record only when its commit is in the log, else reports the conflict or the missing session |
| `PostgresRetry.LostRaceIsRetried` | app/storage/postgres_backend.py:442-483 | an UPDATE that matches no row is tried again from the revision that it tried to write, as long as fewer than three races are lost; the third is a conflict; nothing is written |
| `PostgresRetry.UndisturbedAttempt` | app/storage/postgres_backend.py:442-479 | an attempt that nobody comes between returns if and only if the row has the expected revision, and then the row is what it returned; it conflicts on any other revision and reports a missing row |
| `PostgresRetry.AcceptedAfterLostRaces` | app/storage/postgres_backend.py:442-482 | for none, one and two lost races a run, from the start, in which the call is then accepted, on the revision the last winner left |
| `PostgresRetry.ThirdLostRaceIsAConflict` | app/storage/postgres_backend.py:482-483 | a run, from the start, in which the call loses a third race and gives up |
| `PostgresDeletion.ExplainedExactly` | app/storage/postgres_backend.py:423-483 | over every run in which sessions are also deleted, the log of the row that is there explains it all along if and only if every UPDATE that matched wrote onto the record that was in the row |
| `PostgresDeletion.NoneInFlightIsExplained` | app/storage/postgres_backend.py:506-522 | that is so whenever no deletion falls between a call's read and its UPDATE |
| `PostgresDeletion.StaleWriteExactly` | app/storage/postgres_backend.py:153-157 | for a session deleted and inserted anew in between it fails if and only if the new row has the expected revision and is not, but for its time, the record that was read |
| `PostgresDeletion.DeletedEventsComeBack` | app/storage/postgres_backend.py:423-483 | a run, from the start, in which an empty new session ends up with the deleted one's events |
| `RedisBackend.Store.CreateRun` | app/storage/redis_backend.py:1041-1071 | CREATE_RUN with its counting, sorting and eviction loops |
| `RedisBackend.Store.EnsureSession` | app/storage/redis_backend.py:972-986 | the first half of ADMIT_RUN: pruning the owner's session index by score, refusing at maxSessions, creating the key and its index entry |
| `RedisBackend.Store.AdmitRun` | app/storage/redis_backend.py:962-1014 | ADMIT_RUN as written, from the session check to the index entry |
| `RedisBackend.Store.DeleteSession` | app/storage/redis_backend.py:1016-1035 | DELETE_SESSION: the scan for a nonterminal run, then deletion through the two indexes |
| `RedisBackend.Store.CreateIdem` | app/storage/redis_backend.py:1073-1086 | CREATE_IDEM with its counting loop, which drops index members whose key is gone |
| `RedisBackend.Store.ExpireIdem` | app/storage/redis_backend.py:1088-1093 | EXPIRE_IDEM removes the key and its index entry |
| `RedisBackend.Store.SweepRuns` | app/storage/redis_backend.py:1134-1184 | SWEEP_RUNS as nested loops over indexes and due members computes one simultaneous step |
| `RedisBackend.SweepIndex` | app/storage/fakes.py:426-453 | one index of the sweep, member by member |
| `RedisBackend.KeepExisting` | app/storage/redis_backend.py:991-997 | the loop that drops index members whose key is gone leaves exactly the members that have one |
| `RedisProperties.EvictLoopRefinesEvict` | app/storage/redis_backend.py:1007-1012 | the script's eviction loop, which recounts through the index, does to the run map what the in-process loop does |
| `RedisProperties.CreateRunRefinesMemory` | app/storage/fakes.py:240-274 | CREATE_RUN refines the in-process creation |
| `RedisProperties.AdmitRunRefinesMemory` | app/storage/fakes.py:305-360 | ADMIT_RUN refines the in-process admission unless maxSessions refuses first |
| `RedisProperties.IndexCountIsTrueCount` | app/storage/redis_backend.py:991-997 | when every key is in its index, the count taken through the index is the true count |
| `RedisProperties.StepKeepsInvariant` | app/storage/redis_backend.py:962-1093 | every script, update and expiry keeps: every existing key is in its session's index, and no cap is exceeded |
| `RedisProperties.ReachableInvariant` | app/storage/redis_backend.py:962-1184 | the invariant holds after every sequence of steps |
| `RedisProperties.DeleteSessionLeavesNothing` | app/storage/redis_backend.py:1016-1035 | busy if and only if a nonterminal run exists; a success leaves no run and no idempotency key of the session and every other key as it was |
| `RedisProperties.DeleteAfterAnyHistory` | app/storage/fakes.py:214-232 | the whole of it after every history: missing, busy, or deleted with all its keys and no other |
| `RedisProperties.RefusedAdmissionKeepsNewSession` | app/storage/redis_backend.py:972-1010 | unlike the in-process one, a refused admission keeps the session it made: when it refuses, and when the session is new, exactly |
| `RedisProperties.RefusedAdmissionIsReached` | app/storage/redis_backend.py:972-1010 | a history after which that happens: the session key ran out of time under an unfinished run |
| `RedisProperties.SetKeepsIndexExactly` | app/storage/redis_backend.py:474-498 | the SET of an update leaves every key in its index if and only if the run is still listed; a deletion, an eviction or a sweep after the GET takes it off |
| `RedisProperties.SplitUpdateEscapesIndex` | app/storage/redis_backend.py:474-498 | an update whose GET and SET straddle a DELETE_SESSION brings the key back outside the index, and once the session is made anew a deletion that succeeds leaves it behind |
| `RedisProperties.SweepMayInterruptFreshRun` | app/storage/redis_backend.py:1149-1175 | a history after which the sweep fails a run that was updated one second before, because its index score is old |
| `RedisProperties.SweepSparesFreshRunsExactly` | app/storage/redis_backend.py:1149-1175 | every nonterminal run within its time to live is spared if and only if none of them has a due score |
| `RedisRecords.IdemRefinesMemory` | app/storage/redis_backend.py:1073-1093 | when every key is in its index, CREATE_IDEM and EXPIRE_IDEM do to the records what the in-process backend does, with the same answers |
| `RedisRecords.SessionRefusedExactly` | app/storage/redis_backend.py:972-986 | a session is refused if and only if it is not there and its owner has as many recent index entries as the cap; a refusal makes nothing |
| `RedisRecords.SessionMadeExactly` | app/storage/redis_backend.py:981-986 | otherwise it is made with revision 1, empty, and listed with its owner at the current time |
| `RedisRecords.NewRunIsListed` | app/storage/redis_backend.py:1013-1014 | a new run is stored as given and listed with its session at its score |
| `RedisRecords.AddedIndexIsExact` | app/storage/redis_backend.py:989-1014 | adding a run, even one that is refused, leaves the session's index with exactly the runs that there are |
| `RedisRecords.CreatedIndexIsExact` | app/storage/redis_backend.py:1073-1086 | so does creating a record for the index of records, with the new one at its expiry |
| `RedisRecords.DeletionUnlists` | app/storage/redis_backend.py:1027-1035 | a deletion takes the session off its owner's list and its own two lists away, and leaves every other entry |
| `RedisRecords.SweptExactly` | app/storage/redis_backend.py:1149-1175 | of the runs whose score is due one that is over is dropped if and only if it is old itself, any other fails as interrupted, and no other run is touched |
| `RedisRecords.SweptEntryExactly` | app/storage/redis_backend.py:1149-1175 | what the sweep leaves in the index: entries that are not due as they are, no entry without its run, and a failed run at its own age |
| `RedisSessions.CreationKeepsListedExactly` | app/storage/redis_backend.py:975-983 | a creation leaves every session in its owner's index if and only if it drops the entry of none that is still there |
| `RedisSessions.SessionsStayWithinCap` | app/storage/redis_backend.py:962-986 | over every history in which no creation drops the entry of a session that is there, no owner has more sessions than the cap |
| `RedisSessions.ZeroTtlRefusesNothing` | app/storage/redis_backend.py:975-980 | with a time to live of zero any number of sessions of one owner can be created, whatever the cap |
| `RedisSessions.OutlivedEntryMakesRoom` | app/storage/redis_backend.py:975-986 | with any other a session that outlives its index entry makes room for one too many |
| `Approvals.MemoryStore.DecideApproval` | app/storage/memory.py:560-582 | only a pending record is decided, an expired one only by a timeout; nothing else changes |
| `Approvals.MemoryStore.ExpireApprovals` | app/storage/memory.py:584-593 | the loop times out exactly the overdue pending records and lists them |
| `Approvals.DecidedIsFinalInMemory` | app/storage/memory.py:560-593 | a decided record is never changed by a later decision or sweep |
| `Approvals.DecidesExactlyInMemory` | app/storage/memory.py:560-582 | a decision wins if and only if the record is pending and not past its time, or it is a timeout; the record then carries what was asked for, and nothing else moves |
| `Approvals.ExpiresExactlyInMemory` | app/storage/memory.py:584-593 | exactly the pending records past their time become timed out |
| `Approvals.BackendsDisagreeOnlyAtExpiry` | app/storage/postgres_backend.py:127-131 | the UPDATE's condition differs from the guard before it only for a manual decision at the very instant of expiry |
| `Approvals.StepKeepsInvariant` | app/storage/postgres_backend.py:1053-1116 | one step of any decision, sweep or reconciler keeps: revision 1 while pending and 2 once decided, no call entitled to run a tool it should not, and the guard of a resume is up only because its tool ran or because a client's own run has its request id |
| `Approvals.FirstDecisionWins` | app/storage/postgres_backend.py:1053-1116 | in every interleaving of reads and UPDATEs each approval leaves pending at most once and never changes afterwards |
| `Approvals.OnlyEntitledToolsRun` | app/engine/runner.py:564-786 | in every interleaving a tool is run only for an approval that is approved, or timed out under the allow policy with the matching generation |
| `Approvals.GuardEndsResumeExactly` | app/engine/runner.py:621-641 | the guard ends a resume if and only if its request id is taken in the session; the tool never ran then only if a client took it |
| `Approvals.ClaimedResumeEndsWithoutRun` | app/engine/runner.py:621-641 | a run, from the start, in which an approval is approved, its resume ends and the tool never ran |
| `ApprovalOrigins.EveryDecisionWasAskedFor` | app/engine/runner.py:564-786 | in every interleaving each record is as created, or is what some step asked for: a client's decision at the record's generation, a stale one at any other generation, the cancellation of its run, or a timeout past its time; all but timeouts come before its time |
| `ApprovalOrigins.ApprovedByAClient` | app/engine/runner.py:581-602 | an approved record was approved by a client, at its generation and before its time |
| `ApprovalOrigins.EveryRunWasWanted` | app/engine/runner.py:564-786 | in every interleaving each tool was run because a client approved it in time at its generation, or because a sweep under the allow policy and at its generation found it overdue |
| `ApprovalOrigins.UndisturbedResume` | app/engine/runner.py:581-607 | a client's decision that nobody comes between: the record says what was asked for, or is stale at another generation, and the tool is run if and only if it was approved and the request id of the resume is free |
| `ApprovalOrigins.UndisturbedExpiry` | app/engine/runner.py:735-751 | an overdue record times out, and its tool is run if and only if the policy allows it and the generation is its own |
| `ApprovalOrigins.UndisturbedReconcile` | app/engine/runner.py:753-783 | the reconciler ends a pending record of another generation as stale without running its tool, and runs that of an approved one |
| `ApprovalOrigins.UndisturbedCancel` | app/protocol/routes/approvals.py:143-152 | the deletion of its run cancels a pending record, without running its tool |
| `ApprovalOrigins.GivingUpRunsNothing` | app/engine/runner.py:642-666 | a call whose tool or session is missing ends without a run, and no other call is touched |
| `ApprovalRunner.Runner.DecideApproval` | app/storage/postgres_backend.py:1053-1094 | read, check and conditional UPDATE with arbitrary steps of others in between: the decision wins if and only if the row matches when the call takes its last step; then it is what the record carries, else the call leaves the table alone |
| `ApprovalRunner.Runner.ResumeApproval` | app/engine/runner.py:564-607 | what the caller is told, exactly, by the state of the first read and that of the decision: nothing for an unknown approval or a lost decision, stale for another generation, else the decision; approved whenever the tool is available, and then the tool has run for this approval, now or in an earlier resume, unless a client used the request id of the resume for a run of its own |
| `ApprovalRunner.Runner.DecideAndResume` | app/engine/runner.py:594-607 | the decision and what follows it: no answer if and only if it lost; one that won is answered with itself, and an approval whose tool is available is run |
| `ApprovalRunner.Runner.ExecuteResume` | app/engine/runner.py:609-697 | the guard on the request id of the resume, the lookup of tool and session, the tool and the run record: it ends because the tool ran, because the request id is taken (by an earlier resume or a client), or because tool or session is missing |
| `ApprovalRunner.Runner.FollowTimeout` | app/engine/runner.py:735-751 | one overdue row: it is no longer pending past its time afterwards, and with the tool available it counts as allowed if and only if the timeout won, under the allow policy and with the matching generation; then the tool has run unless a client took the request id of the resume |
| `EditDistance.NextRow` | app/config/resolver.py:184-190 | one pass of the inner loop turns the row for a prefix into the row for the next prefix, in place |
| `EditDistance.Dist` | app/config/resolver.py:181-191 | the one-row algorithm returns the cost of a cheapest script |
| `EditDistance.DistanceIsCheapest` | app/config/resolver.py:181-191 | some edit script reaches the distance and none is cheaper |
| `EditDistance.DistanceIsMetric` | app/config/resolver.py:181-191 | zero if and only if equal, symmetric, and the triangle inequality |
| `EditDistance.Compose` | app/config/resolver.py:181-191 | two scripts that meet in the middle merge into one that costs no more than both |
| `ConfigMerge.ApplyTier` | app/config/resolver.py:94-117 | the recursive loop over items computes the merge, and relabels exactly the paths at which the tier writes a scalar or null |
| `ConfigMerge.Resolve` | app/config/resolver.py:496-524 | the fold over the tiers: merged document and provenance of every path |
| `ConfigMerge.EffectMeaning` | app/config/resolver.py:94-117 | what a tier does at a path, read off its document: sets it, opens a section, or removes it by a null or scalar at it or above it |
| `ConfigMerge.MergeAt` | app/config/resolver.py:94-117 | at every path the merge gives what the tier's effect says, and keeps the rest |
| `ConfigMerge.LastTouchDecides` | app/config/resolver.py:496-524 | over any list of tiers the last one that touches a path decides alone what is there |
| `ConfigMerge.SurvivingLeafNamesItsTier` | app/config/resolver.py:110-117 | the provenance of every surviving leaf names exactly the tier that set it |
| `ConfigDiff.ChangedPaths` | app/watcher/reload.py:105-119 | the recursive walk lists a path if and only if it is a first difference below sections that both documents have |
| `ConfigDiff.DiffIsFirstDifferences` | app/watcher/reload.py:110-116 | the recursive diff and the reader's view of a first difference agree |
| `ConfigDiff.DiffIsComplete` | app/watcher/reload.py:105-119 | at or above every path where readers see a difference there is a reported path |
| `ConfigDiff.DiffEmptyIffSame` | app/watcher/reload.py:105-119 | the list is empty if and only if the documents are equal, absent read as null |
| `ConfigDiff.OverwriteAt` | app/watcher/reload.py:105-119 | what overwriting a set of reported paths gives at each path |
| `ConfigDiff.DiffSuffices` | app/watcher/reload.py:105-119 | overwriting the old document at exactly the reported paths gives the new one |
| `ConfigDiff.DiffIsMinimal` | app/watcher/reload.py:105-119 | at no proper subset of them does it |
| `Reload.ClassifyChange` | app/watcher/reload.py:80-102 | restart-required wins over component rebuild wins over live snapshot |
| `Reload.ClassifiedExactly` | app/watcher/reload.py:80-119 | on configurations of the schema's shape: sent to a restart if and only if some restart-required path reads differently, applied live only if no rebuild-class path does |
| `Reload.SectionsMakeShape` | app/watcher/reload.py:53-97 | having the seven sections that the prefixes reach into is enough to be of that shape |
| `Reload.NullSectionSlipsThrough` | app/watcher/reload.py:80-119 | the shape is needed: a whole section turned into null is classified as live although a restart-required leaf is gone |
| `ReloadOutcomes.InClassExactly` | app/watcher/reload.py:80-102 | a path is in a class if and only if its dotted form continues one of the prefixes |
| `ReloadOutcomes.ClassIsInherited` | app/watcher/reload.py:80-102 | what is below a path of a class is in the class |
| `ReloadOutcomes.ClassesByKey` | app/watcher/reload.py:53-102 | the two classes key by key: the listed settings, keys that begin with a listed one, and all that is below them; for paths whose first key has no dot |
| `ReloadOutcomes.SectionsAreClassified` | app/watcher/reload.py:53-97 | everything below k8s needs a restart, everything below llm and tools a rebuild |
| `ReloadOutcomes.OutcomeExactly` | app/watcher/reload.py:168-275 | each of the six outcomes if and only if: by the candidate, by which class of settings reads differently, and by how the build goes |
| `ReloadOutcomes.OutcomeAfterAnyHistory` | app/watcher/reload.py:168-275 | the same after every history of attempts, with restart settings compared to those of the boot and rebuild settings to those the components were built from |
| `Reload.OneAttempt` | app/watcher/reload.py:168-275 | an outcome that is not applied changes nothing; an applied one raises the generation by one, relabels the components and loses no key |
| `Reload.EveryHistoryIsSafe` | app/watcher/reload.py:168-275 | over every history of attempts: restart-required leaves keep their boot value, the components were built from a configuration that agrees with the live one on every rebuild-class leaf, no component key is lost, and the generation counts the applied outcomes |
| `Reload.Manager.constructor` | app/watcher/reload.py:135-148 | generation 1 and the two labels written into the shared dictionary |
| `Reload.Manager.ApplyTier8` | app/watcher/reload.py:168-275 | the method, field by field, is the step of that state machine |
| `Reload.CarryOver` | app/watcher/reload.py:263-265 | retired components survive unless replaced |
| `StreamProtocol.ExecKeepsInvariant` | app/protocol/routes/chat.py:510-561 | delivery, record and counting invariants hold in every interleaving of producer, consumer, timeout and disconnect |
| `StreamProtocol.ConsumedIsPrefix` | app/protocol/routes/chat.py:510-561 | what was consumed is a prefix of what the run yielded and the queue is never over its bound |
| `StreamProtocol.RecordFollowsTheMarker` | app/protocol/routes/chat.py:713-720 | the idempotency record is completed only if the end marker was reached and every yielded event consumed, and then holds the whole text; it is expired on every exit that did not reach the marker |
| `StreamProtocol.InProgressOnlyIfClosedInTail` | app/protocol/routes/chat.py:722-788 | a response that reached the end marker leaves its record in progress if and only if it was closed in its tail |
| `StreamProtocol.ConsumerStopsWithinQueuePlusOne` | app/protocol/routes/chat.py:542-561 | from the step with which the producer goes, over every continuation, a consumer that has not stopped has begun at most the remaining queue length plus one further iterations |
| `StreamProtocol.ConsumerTakesFewSteps` | app/protocol/routes/chat.py:542-561 | and over every continuation it takes at most four steps to an iteration before it stops |
| `StreamProtocol.ConsumerStopsInTime` | app/protocol/routes/chat.py:542-561 | each step of the consumer brings it closer to stopping |
| `StreamProtocol.ConsumerCanAlwaysMove` | app/protocol/routes/chat.py:543-555 | the consumer is never stuck |
| `StreamProtocol.EndOnFullQueueNeverCompletes` | app/protocol/routes/chat.py:524-529 | a run that ends on a queue without room loses its end marker, if and only if the queue is full, and then never counts as completed however much is delivered |
| `StreamProtocol.DeliveredYetExpired` | app/protocol/routes/chat.py:524-529 | such a run from the start: everything is delivered, nobody gives up, and the record expires |
| `StreamOutcomes.CompletedExactly` | app/protocol/routes/chat.py:556-561 | in every interleaving a response counts as completed if and only if the consumer took the end marker while the slow-consumer flag was down |
| `StreamOutcomes.RecordToldByHistory` | app/protocol/routes/chat.py:713-788 | the idempotency record of a response that is over, by what happened: the whole text if and only if the marker was taken and the tail sent, in progress if and only if the marker was taken and the response closed in its tail, else expired |
| `StreamOutcomes.EventsAreShown` | app/protocol/routes/chat.py:562-685 | in every interleaving the chunks on the wire are those of the consumed events that the mode shows, in order |
| `StreamOutcomes.TailTellsWhy` | app/protocol/routes/chat.py:543-561 | the reason that the tail reports: the client was found gone, or else the producer gave up on it, or else none; each exactly if it happened |
| `StreamOutcomes.TailWaitsForTheRun` | app/protocol/routes/chat.py:543-561 | a response does not cut a run short: in its tail the run was over or given up by the producer, unless the client was found gone |
| `StreamOutcomes.SlowClientGetsOneMore` | app/protocol/routes/chat.py:683-685 | once the slow-consumer flag is up at most one more chunk goes out, and none if one is being sent |
| `StreamOutcomes.DeliverableExactly` | app/protocol/routes/chat.py:510-788 | for any mode and any queue of at least one event, the runs that can be delivered in full and recorded as completed are exactly those that ask for no approval |
| `StreamResponse.Response.Produce` | app/protocol/routes/chat.py:510-529 | the producer task, one step at a time, updating queue and slow-consumer flag |
| `StreamResponse.Response.PutMarkerAndGo` | app/protocol/routes/chat.py:524-529 | the end marker goes in only if there is room |
| `StreamResponse.Response.Cleanup` | app/protocol/routes/chat.py:687-720 | the finally block: the producer is cancelled, and the record released unless the end was reached |
| `StreamResponse.Response.TakeItem` | app/protocol/routes/chat.py:548-561 | taking an item, waiting for one, and giving up the wait |
| `StreamResponse.Response.TakeTurn` | app/protocol/routes/chat.py:543-685 | one iteration of the loop, from the disconnect poll to the chunk, as steps of the machine |
| `StreamResponse.Response.Stream` | app/protocol/routes/chat.py:542-788 | the whole generator, loop, cleanup and tail: it takes exactly the steps of the machine that the turns it meets tell, ends with the producer gone, and is completed if and only if it took the end marker while the slow flag was down; then the record has the whole text, or stays in progress if closed in the tail, else it expires |
| `McpNames.RenameCollisionSafe` | app/engine/mcp/filtering.py:29-55 | terminates and chooses for each raw name the first candidate not in use; all results are pairwise distinct |
| `McpNames.FindFree` | app/engine/mcp/manager.py:192-198 | the suffix search ends, because distinct suffixes give distinct names, and gives the first free candidate |
| `McpNames.CandidatesDiffer` | app/engine/mcp/manager.py:192-197 | raw name, prefixed name and suffixed names are pairwise different, through injectivity of decimal notation |
| `McpNames.Manager.RecomputeFinals` | app/engine/mcp/manager.py:178-203 | every server's names are assigned on top of those of the servers before it |
| `McpNames.FinalNamesAreDistinct` | app/engine/mcp/manager.py:178-203 | all final names are pairwise distinct, within a server and across servers |
| `McpNames.EarlierServersAreIndependent` | app/engine/mcp/manager.py:178-203 | a longer configuration keeps the names of the servers it starts with |
| `McpNames.OneServerIsRename` | app/engine/mcp/filtering.py:29-55 | renaming one list is the one-server case of the global renaming |
| `McpNames.Manager.LookupTool` | app/engine/mcp/manager.py:208-217 | the first server and position whose final name matches |
| `McpNames.LookupInvertsExactlyOnPrefixes` | app/engine/mcp/manager.py:208-217 | looking up every final name gives its server and raw name if and only if each server's filtered names are a prefix of its raw names |
| `McpNames.LookupExactly` | app/engine/mcp/manager.py:208-217 | nothing is found if and only if the name is nowhere; otherwise the server and raw name of the first place where it is |
| `McpNames.DecimalReadsBack` | app/engine/mcp/manager.py:192-198 | the suffix is the decimal notation of its number, without leading zeros |
| `McpNames.FourAlike` | app/engine/mcp/filtering.py:29-55 | four tools of one name: the name, the server in front, and then suffixes 2 and 3 |
| `OutputLimit.CodepointPrefix` | app/engine/limits.py:122-132 | the loop on a shrinking budget gives the longest code-point prefix that fits |
| `OutputLimit.LongestFitIsLongest` | app/engine/limits.py:122-132 | no longer prefix fits, and there is only one such prefix |
| `OutputLimit.LongestFitInBytes` | app/engine/limits.py:122-132 | in bytes: the cut never splits a code point and every later cut within the limit would (UTF-8 by section 3 of RFC 3629) |
| `OutputLimit.EncodingReadsBack` | app/engine/limits.py:122-132 | the bytes that are counted are UTF-8: a reader that insists on the shortest form (section 3 of RFC 3629) gets back exactly the scalar values of the text |
| `OutputLimit.OnlyTextIsRead` | app/engine/limits.py:122-132 | and nothing but the bytes of some text can be read |
| `OutputLimit.RunLimiter.ReserveOutput` | app/engine/limits.py:82-98 | the prefix of a delta that fits what is left, the bytes counted, and when the limit flag is set |
| `OutputLimit.RunLimiter.ObserveUsage` | app/engine/limits.py:107-113 | usage is added once, missing usage is marked, and passing the budget is remembered |
| `OutputLimit.RunLimiter.ConvertText` | app/engine/runner.py:848-856 | over the pieces of one event: nothing empty is emitted, and the emitted text continues the longest prefix of the whole text |
| `OutputLimit.RunLimiter.Run` | app/engine/runner.py:173-212 | over all events: the emitted text is the longest prefix that fits of the text of the events used, the flag says whether it was cut, every event used but the last left room and tokens for another call and the last one did not unless it was the last of all, and without a budget the text is the longest prefix of all the model had to offer |
| `OutputLimit.UsedUpToTheFirstStop` | app/engine/runner.py:207-212 | what that number of events means |
| `OutputLimit.FitContinues` | app/engine/limits.py:82-98 | cutting piece by piece is cutting the whole |
| `OutputLimit.RunGivesLongestPrefix` | app/engine/runner.py:848-856 | the step from the events that were used to all events |
| `OutputLimit.GoingOnWouldSkipText` | app/engine/limits.py:82-98 | a caller that went on after a cut would emit text that is no prefix |
| `OutputLimit.TruncateCodepointSafe` | app/engine/mcp/filtering.py:64-83 | text that fits is kept; otherwise the longest prefix that leaves room for the marker, or a cut marker; the result fits if and only if the limit is not negative |
| `Metrics.CardinalityGuard.Admit` | app/observability/metrics.py:58-72 | the guard keeps exactly the first label sets of each metric up to the cap and warns about exactly the metrics that have more |
| `Metrics.AdmittedSize` | app/observability/metrics.py:58-72 | all label sets up to the cap, never more than the cap |
| `Metrics.DecidedAtFirstSight` | app/observability/metrics.py:58-72 | a label set is kept or dropped for good when it first appears |
| `Metrics.Registry.Add` | app/observability/metrics.py:105-110 | every kept counter is the sum of everything added for its label set |
| `Metrics.Registry.Record` | app/observability/metrics.py:135-145 | every kept histogram has the count, the sum and, for each bound, the number of its observations at most that bound |
| `Metrics.IncrementBuckets` | app/observability/metrics.py:140-143 | the loop over the bounds |
| `Metrics.BucketsNeverDecrease` | app/observability/metrics.py:135-145 | buckets over ascending bounds are nondecreasing and never above the count |
| `Metrics.DefaultBucketsAscend` | app/observability/metrics.py:27-46 | the default bounds ascend |
| `Metrics.NoLaterObservationIsLost` | app/observability/metrics.py:135-145 | a label set once kept loses no later observation, whatever arrives in between |
| `RateLimit.FixedWindowLimiter.AllowCall` | app/protocol/ratelimit.py:25-42 | the decision, the new bucket and the retry time of one call |
| `RateLimit.FixedWindowLimiter.PruneBuckets` | app/protocol/ratelimit.py:51-56 | the loop drops exactly the buckets of earlier minutes |
| `RateLimit.PassedPerMinute` | app/protocol/ratelimit.py:25-42 | for nondecreasing clock readings, in every minute exactly the first calls of a key pass, up to the limit (a limit below one works as one) |
| `RateLimit.AtMostTwiceInAnyWindow` | app/protocol/ratelimit.py:25-42 | no 60 seconds see more than twice the limit |
| `RateLimit.TwiceIsReached` | app/protocol/ratelimit.py:25-42 | for every limit a run in which twice as many calls pass within one second |
| `RateLimit.PruneIsInvisible` | app/protocol/ratelimit.py:51-56 | pruning in any state changes no later decision |
| `RateLimit.RetryAfterIsExact` | app/protocol/ratelimit.py:32-41 | after a denial the next call of the key passes if and only if the announced whole seconds have gone by |
| `RateLimit.ClockBackCountsAfresh` | app/protocol/ratelimit.py:36-38 | with a clock that steps back a minute can be counted afresh |
| `Chunking.TwoPassesAreOneScan` | app/engine/rag.py:34-36 | the two replacement passes are one left-to-right scan |
| `Chunking.NormalizedIsFixed` | app/engine/rag.py:34-36 | normalized text has no CR and is not changed again; text is left alone if and only if it has no CR |
| `Chunking.ChunkText` | app/engine/rag.py:39-56 | invalid parameters raise, exactly; otherwise the chunks of the normalized text |
| `Chunking.Slide` | app/engine/rag.py:52-56 | the loop of sliding windows |
| `Chunking.ChunkCount` | app/engine/rag.py:50-56 | as many chunks as length over step, rounded up |
| `Chunking.ChunksRestoreText` | app/engine/rag.py:50-56 | the first step of every chunk, put together, is the text |
| `Chunking.ChunksAreNonempty` | app/engine/rag.py:50-56 | no chunk is empty or wider than asked |
| `Chunking.ChunksOverlap` | app/engine/rag.py:50-56 | what a chunk has beyond its step begins the next chunk |
| `Chunking.ExactFitIsOneChunk` | app/engine/rag.py:39-45 | a document of exactly one chunk's width gives one chunk if and only if there is no overlap |
| `History.PruneHistory` | app/engine/context.py:21-42 | raises if and only if the pending message alone is over the byte limit; otherwise the longest suffix within both history bounds, pending message included |
| `History.TrimToContextWindow` | app/engine/context.py:45-74 | raises if and only if the reserve or the pending message leaves no room; otherwise the longest suffix within the token budget, or everything when there is no window |
| `History.BoundsCompose` | app/engine/context.py:21-74 | one bound after the other is both bounds at once |
| `History.EitherOrder` | app/engine/context.py:21-74 | pruning and trimming in either order keep the same messages: the longest suffix that meets all three bounds |

## Left out

- Order among equally old terminal runs: the source takes dictionary order, the model any order that puts older runs first.
- Counters that a sweep returns, fence renewal, finishing an idempotency record, event truncation, and all read-only queries.
- The usage and iteration fields of a run, creation times, and the Redis scripts for fences and approvals.
- Postgres outside `mutate_session`, the deletion of its row and approvals; truncation of a session during a call, and a stored record that does not parse.
- Redis: the script that mutates a session, except that a session key may outlive its index entry.
- Redis: expiry by PEXPIREAT is a separate step that may happen at any time; an update's GET and SET are one step; the keys are split by kind.
- Equality of the Redis and in-process sweeps, which are different functions.
- MemoryBackend.Backend.CreateSession: the id that is made up when none is given, and the returned record.
- MemoryBackend.Backend.UpdateRun: iteration count and usage of a run.
- MemoryBackend.Backend.Sweep: the statistics.
- RedisBackend.Store.DeleteSession: the fence keys, which the scripts for runs never read.
- ConfigDiff.ChangedPaths: which paths are listed, not the sorted order of the list.
- OutputLimit.RunLimiter.ObserveUsage: an empty usage report counts as a missing one, and the two marks for a passed budget, which are always set together, are one.
- OutputLimit.RunLimiter.ConvertText: only the text pieces of an event.
- OutputLimit.RunLimiter.Run: the deadline and the iteration limit, which may end a run earlier.
- RedisBackend.Store.SweepRuns: takes the cutoff, which the script computes as the time less the time to live, and does not model the scan cursor or the counters.
- Update in place and aliasing of nested dictionaries in the tier merge, and of records inside the tables: both are values.
- ApprovalRunner.Runner.FollowTimeout: one row of the reconciler; its loops over rows, and its second pass over approved records, are steps of the machine in Approvals.dfy only.
- StreamResponse.Response.Stream: what happens at each suspension is given as a finite list of turns, and the response is closed when they run out.
- Dots inside configuration keys (a path is a list of keys, dotted only for classification), lists as anything but opaque leaves, tier files and environment binding, the relabelling of environment leaves, and the finalization of defaults.
- Selecting the three closest paths, and stripping names before they are compared.
- Reload: validation, building and health checks are a given outcome; concurrent reloads, closing of retired components, and the live update of the run cap and rate limit.
- ReloadOutcomes.ClassesByKey: paths whose first key has a dot; InClassExactly covers those by their dotted form.
- Reload.NullSectionSlipsThrough: one family of inputs; that the classification is exact on all configurations with their sections is ClassifiedExactly.
- Stream: the queue bound is at least one event, of the chunks on the wire only which events have one is modelled, the run is an arbitrary sequence of events, the producer is cancelled only by the consumer's cleanup, and storage failures while the record is finished are not modelled.
- Approvals: how often an approved tool runs (the guard is a check followed by an act), the run record written for a denied or stale approval, and the checkpoint.
- Tool filtering by allow and deny lists, of which only that it drops names is used, and renaming of attached tools.
- Output: lone surrogates, the deadline, the iteration limit, and the tool calls, errors and approvals inside an event.
- Gauges, descriptions, text rendering, and the lock of the registry (each call is one step).
- RateLimit.PassedPerMinute: the limit is fixed over the run, so a live change of it is not modelled.
- HTTP routing, the model, tool and cluster clients, tokens and keys, telemetry export, files, the file backend, schema generation and scripts.
