# A verified model of the OmniLyzer deployment control plane

This Dafny project models the transactional part of the deployment control
plane under `deployment/`: protocols of many steps that have to keep their
invariant when any step fails, stops half way or meets another process. It
states what the code promises about whole runs, and proves it for every input,
every failure and every place a process can stop.

`dafny verify dfyconfig.toml` checks everything.

## How failures and crashes are modelled

* Code that works step by step is a class whose methods change its fields; every
  command, read and callback ends nondeterministically: it returns, raises an
  ordinary exception, or is interrupted (`Wrappers.Outcome`). Where a statement
  is about success, a constant `faultless` (of a host `smooth`, of a service manager
  `calm`) switches off failures from outside.
* A crash is a stop after any atomic filesystem step. Such classes keep a ghost
  log `reached` of every state they pass through, and the contracts speak of
  every state in the log, not only of the last one.
* Concurrent brokers and executors are a transition system over atomic actions
  (`ReplayProtocol`), with store operations that may commit and still be
  reported as unavailable.
* SHA-256 is an abstract injective function and gzip is lossless. Clocks,
  randomness, OIDC, Sigstore, TLS, Docker and systemd appear only through what
  their answers may be.

## Files

| file | what it models |
|---|---|
| `Wrappers.dfy` | optional values and call outcomes |
| `AuditChain.dfy`, `AuditAppend.dfy`, `AuditSink.dfy`, `AuditRun.dfy` | the hash-chained audit log: acceptance, one append, every crash point, whole runs |
| `ReplayStore.dfy`, `ReplayGuard.dfy`, `ReplayProtocol.dfy` | the replay store, the class over it, and all interleavings of brokers and executors |
| `FirstInstall.dfy`, `PrivilegedExecutor.dfy` | the first install of a slot with its time budget, and sequences of requests |
| `Publication.dfy` | atomic publication of several files, its private copies, restore, interrupted writes, and the journal and result beside them |
| `ServiceUnits.dfy`, `ServiceRecovery.dfy` | three service units, and resume with recovery |
| `RegistryTransition.dfy` | the registry configuration transition with its own marker and recovery |
| `SourceNames.dfy`, `SourceAudit.dfy`, `SourceInstall.dfy`, `SourceSelection.dfy` | which files make a source generation, the recursive audit of a tree, staging and undoing it exactly, reading the legacy files and installing over them |
| `Ustar.dfy`, `SourceArchive.dfy` | the ustar format, and the archive that is accepted only if it is its own re-encoding |
| `EvidenceArchive.dfy` | the bounded streaming reader of the signed release evidence |
| `Decimals.dfy`, `JsonNumber.dfy`, `JsonGrammar.dfy`, `JsonText.dfy`, `CanonicalJson.dfy`, `CanonicalOrder.dfy` | canonical JSON: number scanner and its grammar, writer, reader, round trip and gate, and the order of keys |
| `Ingress.dfy`, `Admission.dfy` | the closed HTTPS ingress, the bounded document in a body, and the product router; what they let in, stated on the input alone |
| `Pumps.dfy` | the two bounded pumps around a child process |

## What the proofs found in the code

* **Audit timestamps.** The sink never checks a caller's timestamp. An append
  whose rotation name does not sort last still succeeds
  (`AuditSink.FilesystemAuditSink.Append`), and every later append is then
  refused. `AuditAppend.AppendAcceptedIff` gives the exact condition;
  `AuditRun.EarlierDayIsFatal` reaches that state from an empty directory in three
  appends, for any event of an earlier day; `AuditRun.RunStaysAccepted` shows
  strictly later timestamps are enough, and `AuditRun.RunAcceptedIff` that a run is
  accepted exactly if every rotation on the way took the last name.
* **Audit ids.** The validator knows only retained ids: an id is accepted exactly if
  none of the retained events has it (`AuditRun.IdAdmittedIff`). With one event a
  day, the id of the first is let in again on the seventeenth day
  (`AuditRun.DroppedIdReturns`).
* **Crash windows of the audit log.** Exactly two kinds of stop make later appends
  refuse: a torn line, and a compressed copy beside its source.
* **Replay identities.** Cleanup makes an identity consumable again under a later
  expiry (`ReplayStore.LongerRetentionResurrects`); single use therefore needs one
  fixed expiry for each token identity.
* **Store outages.** `ReplayUnavailableError` is a subclass of `ReplayError`
  (`deployment/identity.py:56-61`), so the promotion broker and the executor report
  an unavailable store as a rejection. `deployment/README.md:1477` calls that an
  unavailable failure; the model follows the code.
* **Interrupted first install.** After an interrupt the stop is issued but its
  result is dropped: neither a confirmed stop nor a marker is promised
  (`deployment/analytics_first_install.py:434-438`). A `Stop` may also be issued
  although `up` never began, because the cleanup duty is set before the work
  timeout is asked.
* **Stable broker.** `require_stable_broker` can pass on a single look, if that
  look is slow enough to use up the whole second
  (`ServiceRecovery.StableSeesTwiceUnlessSlow`).
* **Lost interrupts.** `stop_and_confirm` passes an interrupt on if and only if a
  state check was interrupted, or a stop was interrupted and all three units were
  then confirmed stopped; otherwise the interrupt becomes an ordinary failure
  (`ServiceRecovery.AnalyticsServiceControl.StopAndConfirm`). An interrupt during
  the cleanup of `_capture_command` is never passed on (`Pumps.Capture.Run`).
* **Torn recovery.** A recovery that stops inside one of the installed files leaves a
  `.resume-recovery-next` behind, and so does one that stops inside its own journal
  `recovery-audit.json` or the public result: `recovery_temporaries` looks at those
  as well. From then on every further recovery is refused and changes nothing
  (`Publication.TornIsFinal`). The journal is written at every checkpoint and after
  every command, so every recovery that succeeds has passed through such a state
  (`Publication.Disk.Recover`).
* **Cut copies.** A first run that stops while it makes its private copies cannot
  be recovered from; no installed file has changed then
  (`Publication.RepairCrashIsRecoverableIff`). From every other stop a recovery gets
  through (`Publication.ChainIsRecoverableIffUntorn`).
* **Partial restore copy.** A registry recovery that stopped while writing
  `restore.json` can never be completed by a later recovery; it always takes the
  stop path (`RegistryTransition.Registry.RecoverOrStop`). An external writer that
  ignores the lock can be overwritten only between the last check and the rename.
* **Interrupted staging.** A directory or file made just before an interrupt, and
  not yet listed, keeps the staging tree from being removed.
* **Archive names.** A path of a slash and exactly a hundred characters loses the
  slash in the ustar fields (`SourceArchive.KeptIff`); no approved path is like that.
* **Surrogates.** A string holding a split surrogate pair does not survive the
  canonical JSON round trip (`CanonicalJson.RoundTripIffGood`); no decoded request
  holds one.

## Model

| member | source | states |
|---|---|---|
| `AuditChain.ChainDeterminesContent` | deployment/audit.py:412-433 | two accepted chains of equal length with the same final digest are the same record by record |
| `AuditChain.TamperingIsDetected` | deployment/audit.py:499-519 | no other history of the same length has the same final digest: changing or reordering records breaks the chain or changes the digest |
| `AuditChain.RetainedTailIsDetermined` | deployment/audit.py:499-519 | after retention dropped the oldest files, the final digest still fixes every retained record |
| `AuditChain.InsertPosition` | deployment/audit.py:473-483 | a new name takes the one place in the sorted listing that keeps it sorted |
| `AuditChain.NameLessIff` | deployment/audit.py:546-549 | file names sort by the instant of their last record, then by tag, a plain file before its compressed form |
| `AuditAppend.FilesStayReadable` | deployment/audit.py:485-497 | every file after an append is within the bound the reader enforces |
| `AuditAppend.RotatingAppendHistory` | deployment/audit.py:546-602 | a rotating append gives the old records less whole dropped rotations, plus the new record |
| `AuditAppend.AppendKeepsAccepted` | deployment/audit.py:554-602 | from an accepted history a fresh event whose rotation name sorts last leads to an accepted history; a rotation leaves at most fourteen files |
| `AuditAppend.MisorderedNameIsFatal` | deployment/audit.py:546-552 | a rotation name that does not sort last leads to a history the validator refuses |
| `AuditAppend.AppendAcceptedIff` | deployment/audit.py:554-602 | the history after a completed append is accepted if and only if no rotation happened or its name sorts last |
| `AuditAppend.AppendKeepsListed` | deployment/audit.py:521-552 | an append that finds no name taken leaves the names distinct and sorted |
| `AuditAppend.NewFileIff` | deployment/audit.py:579-602 | the record goes into the current file exactly if that is empty, or the newest record is of the event's day and the line still fits the threshold; otherwise it begins a new file |
| `AuditAppend.NewFileIs` | deployment/audit.py:521-552 | a new file makes the old one the newest rotation, named after its last record; before it come the newest of the others, compressed, fourteen files at most |
| `AuditSink.RepeatedFileIsRefused` | deployment/audit.py:521-544 | a compressed copy beside its source makes the validator refuse |
| `AuditSink.AcceptsIff` | deployment/audit.py:454-519 | accepted are exactly the directories of whole files within the bounds whose records form one chain, from no predecessor unless a rotation comes first, without a repeated id |
| `AuditSink.PackedIsAccepted` | deployment/audit.py:521-544 | a directory stopped between two compressions or removals is accepted with the old records less a prefix |
| `AuditSink.OpenedIsAccepted` | deployment/audit.py:588-600 | an empty new current file leaves the history accepted and unchanged |
| `AuditSink.RenamedCrashStates` | deployment/audit.py:546-552 | every state inside rotation and delayed compression is a listed crash state |
| `AuditSink.WriteCrashStates` | deployment/audit.py:588-600 | every state of the write is the old history, the new one, or a torn line |
| `AuditSink.FilesystemAuditSink.ScanFile` | deployment/audit.py:499-519 | one file of the validator loop: refused exactly when the chain, the ids or the lines so far are unsound |
| `AuditSink.FilesystemAuditSink.ValidateHistory` | deployment/audit.py:499-519 | returns a result if and only if the history is accepted, with its last digest, its ids and its last day |
| `AuditSink.FilesystemAuditSink.CompressOne` | deployment/audit.py:521-544 | one file becomes its compressed form, through exactly one state with both; without faults it fails exactly if the compressed name is taken |
| `AuditSink.FilesystemAuditSink.CompressDelayed` | deployment/audit.py:521-544 | every rotation but the new one compressed, then the oldest dropped down to fourteen; every state on the way accounted for; without faults it fails exactly for a plain file whose compressed name is taken |
| `AuditSink.FilesystemAuditSink.DropOldest` | deployment/audit.py:521-544 | removes from the front until the retention is met |
| `AuditSink.FilesystemAuditSink.Rotate` | deployment/audit.py:546-552 | the current file under its rotation name, then compression and retention; all intermediate states; without faults it succeeds exactly if the new name is free and no plain rotation has its compressed form beside it |
| `AuditSink.FilesystemAuditSink.WriteRecord` | deployment/audit.py:588-600 | exactly one record appended, or a prefix of its line |
| `AuditSink.FilesystemAuditSink.Append` | deployment/audit.py:554-602 | without faults it completes exactly for an appendable event that finds no name taken, in any order of timestamps; it begins a new file if and only if the day differs from the newest record's or the line does not fit, and then the files are exactly these; a refused event changes nothing; a stop anywhere leaves the old or new history less a prefix, or one of the two refusing windows, and nothing else |
| `AuditRun.InOrderSortsLast` | deployment/audit.py:546-552 | strictly later timestamps make the next rotation name sort last |
| `AuditRun.NamesAreFree` | deployment/audit.py:521-552 | as long as no two records would give one name, no append finds a name taken |
| `AuditRun.LaterAppend` | deployment/audit.py:554-602 | an append of a later event finds no name taken and keeps the directory accepted and in time order |
| `AuditRun.RunStaysAccepted` | deployment/audit.py:554-602 | any run of appends with increasing timestamps stays accepted, holds a tail of the admitted events, and at most fourteen rotations |
| `AuditRun.AcceptedRunIsTail` | deployment/audit.py:554-602 | any run, in any order of timestamps: as long as the history is accepted it is exactly the newest part of the admitted events, under distinct sorted names |
| `AuditRun.RunAcceptedIff` | deployment/audit.py:546-602 | a run from an empty directory leaves an accepted history if and only if every rotation an admitted event caused took the last name |
| `AuditRun.IdAdmittedIff` | deployment/audit.py:499-519 | after an accepted run an event within the width limit is admitted if and only if none of the retained events, the last ones admitted, has its id |
| `AuditRun.DroppedIdReturns` | deployment/audit.py:521-602 | seventeen events on successive days, the last with the id of the first, are all admitted |
| `AuditRun.EarlierDayIsFatal` | deployment/audit.py:554-602 | from an empty directory an event, one of an earlier day and one of another day are all admitted, and the history is then refused |
| `AuditRun.RefusedForever` | deployment/audit.py:499-519 | a history the validator refuses is never changed by any later run |
| `AuditRun.RepeatedIdWasDropped` | deployment/audit.py:499-519 | over any run, when an event whose id was admitted before is admitted again, the earlier record is no longer among the retained ones |
| `ReplayStore.ConsumedOnce` | deployment/replay_sqlite.py:362-402 | no run of operations lets a consumed identity be consumed again under the same or an earlier retention |
| `ReplayStore.LongerRetentionResurrects` | deployment/replay_sqlite.py:362-402 | under a later retention it can be: the concrete run |
| `ReplayStore.AttemptConsumedOnce` | deployment/replay_sqlite.py:386-402 | after a consume for a run and attempt no run of operations lets any identity be consumed for them under the same or an earlier retention |
| `ReplayStore.ClaimedRun` | deployment/replay_sqlite.py:72 | over every run a claimed run and attempt keeps a row retained as long, or that retention lies behind the watermark |
| `ReplayStore.OneEachRun` | deployment/replay_sqlite.py:72 | in every store reached from the empty one no two rows share run and attempt |
| `ReplayStore.BurnedRun` | deployment/replay_sqlite.py:607-624 | over every run an identity stays on record or its retention lies behind the watermark |
| `ReplayStore.SpentRun` | deployment/replay_sqlite.py:422-442 | once begun, an identity never becomes beginnable again |
| `ReplayStore.BegunOnce` | deployment/replay_sqlite.py:404-442 | one identity is begun at most once over any run |
| `ReplayGuard.SQLiteReplayGuard.Consume` | deployment/replay_sqlite.py:362-402 | the row inserted whole beside the rows neither expired nor over, and the watermark advanced, or nothing changed; reported as done only if committed; without faults a replay exactly for a passed retention or a kept row with the identity or with both run and attempt, unavailable exactly for a clock behind by more than 30 s or no room left |
| `ReplayGuard.SQLiteReplayGuard.Move` | deployment/replay_sqlite.py:422-442 | one forward transition of exactly the bound row, or nothing changed; without faults done exactly for a row with the same hash, run and attempt in the state before, and not yet expired if it is to begin |
| `ReplayGuard.SQLiteReplayGuard.BeginExecution` | deployment/replay_sqlite.py:404-411 | consumed to executing, within the retention |
| `ReplayGuard.SQLiteReplayGuard.FinishExecution` | deployment/replay_sqlite.py:413-420 | executing to finished |
| `ReplayProtocol.StepKeeps` | deployment/analytics_promotion_broker.py:211-240 | every action of every broker and executor, and every crash, keeps the protocol invariant |
| `ReplayProtocol.RunKeeps` | deployment/analytics_executor.py:191-242 | so does every interleaving of any number of them |
| `ReplayProtocol.SingleUse` | deployment/analytics_promotion_broker.py:211-240 | for each identity at most one transport send and at most one deploy start |
| `ReplayProtocol.SuccessHistory` | deployment/analytics_executor.py:191-242 | a success answer is preceded in order by consumption, begin, deploy start, a clean return and the finish of exactly that request hash |
| `ReplayProtocol.SuccessIsReachable` | deployment/analytics_executor.py:191-242 | with nobody else about, every request bound to its token has a run to its success answer |
| `ReplayProtocol.OnlyConsumedIsUsed` | deployment/broker.py:293-354 | what is sent and what is deployed under one identity is the same request |
| `ReplayProtocol.AllIsOfToken` | deployment/analytics_promotion_broker.py:150-240 | whatever is consumed, sent, begun, deployed, finished or answered is of the workflow run and attempt its token was issued for |
| `FirstInstall.AnalyticsFirstInstallOperation.WorkTimeout` | deployment/analytics_first_install.py:183-188 | a command gets its own limit or what is left of the deadline, and none once it has passed |
| `FirstInstall.AnalyticsFirstInstallOperation.PrivateReady` | deployment/analytics_first_install.py:345-371 | at most twelve probes, none past the deadline, and success only after one |
| `FirstInstall.AnalyticsFirstInstallOperation.StopFirstSlot` | deployment/analytics_first_install.py:373-392 | one stop within 75 s; a confirmed one found the slot not running; on a host that answers every stop is confirmed |
| `FirstInstall.AnalyticsFirstInstallOperation.Install` | deployment/analytics_first_install.py:394-433 | `up` only for an absent slot; the checks passed are a prefix of the one script; the request is recorded exactly on success |
| `FirstInstall.AnalyticsFirstInstallOperation.DeployAnalytics` | deployment/analytics_first_install.py:394-446 | work within 570 s and cleanup within 75 s; success passed every check in order; after an ordinary failure the slot is stopped or a marker says it may not be; when everything is in order and answered within a second, it succeeds exactly for an absent slot |
| `FirstInstall.AnalyticsFirstInstallOperation.RollbackFirstAnalytics` | deployment/analytics_first_install.py:448-469 | stops only for the request this object completed |
| `PrivilegedExecutor.AnalyticsPrivilegedExecutor.StopUnfinishedFirstInstall` | deployment/analytics_executor.py:123-133 | an unconfirmed stop of the own request is always marked, unless interrupted |
| `PrivilegedExecutor.AnalyticsPrivilegedExecutor.ExecutePrivate` | deployment/analytics_executor.py:135-245 | the whole effect of one request on slot, markers and store, within the 720 s response window; success means finished for exactly this binding; when nothing goes wrong it succeeds exactly for an admitted request, an absent slot and an identity that can begin and finish |
| `PrivilegedExecutor.OthersKeepSpent` | deployment/replay_sqlite.py:362-442 | no operation of another process makes a begun request able to begin again |
| `PrivilegedExecutor.ExistingSlotIsLeftAlone` | deployment/analytics_first_install.py:293-298 | once the container exists no later request, in this process or a new one, starts or stops anything |
| `PrivilegedExecutor.CompletedSlotIsKept` | deployment/analytics_executor.py:211-239 | a slot completed for one request keeps its owner and is never halted by a later one |
| `PrivilegedExecutor.OnlyOneSucceeds` | deployment/analytics_executor.py:135-245 | over a whole history from an empty host at most one request succeeds |
| `Publication.Disk.AtomicFile` | deployment/analytics_task014_resume.py:104-133 | the target replaced or untouched; without faults it succeeds exactly if the expected bytes are live and no temporary is there; otherwise nothing changes; every state on the way |
| `Publication.Disk.Persist` | deployment/analytics_task014_resume.py:793-798 | the journal or the result written again as a whole, through a state with its temporary; nothing else changes |
| `Publication.Disk.PublishOne` | deployment/analytics_task014_resume.py:685-698 | one file of a publication, already right or replaced, and the checkpoint after it; every state on the way, the journal's included |
| `Publication.Disk.PublishIdentityFiles` | deployment/analytics_task014_resume.py:685-698 | any third value refuses before the first write; success sets exactly the wanted files; every state is a prefix, with the journal in any state; without faults it succeeds exactly if every live file is a known one, no file still to change has a temporary, and the journal can be written |
| `Publication.PublishableIff` | deployment/analytics_task014_resume.py:685-698 | a publication gets through exactly from the old bytes, a restore from the old or the new ones, with no temporary of its direction where a write is needed or at its journal |
| `Publication.Disk.PreserveTemporaries` | deployment/analytics_task014_resume.py:701-719 | an interrupted write moves to evidence, never over existing evidence, and is never lost; without faults it fails exactly if such evidence exists |
| `Publication.Disk.Recover` | deployment/analytics_task014_resume.py:765-841 | refused before anything changes for cut private copies, an unknown live value, or a leftover recovery temporary of a file, a journal or the result; success restores every file, and has always passed through a state from which no recovery gets through; without faults it succeeds exactly if the copies are right, every live file is old or new, no such temporary is left and no needed evidence name is taken |
| `Publication.RecoverableIff` | deployment/analytics_task014_resume.py:765-778 | a recovery gets through exactly with complete copies, every live file old or new, no recovery temporary at a file, a journal or the result, and no interrupted source write over evidence |
| `Publication.Disk.Conclude` | deployment/analytics_task014_resume.py:832-841 | what follows a restore: any number of audited commands, the checkpoint, the outcome and the result, with every state on the way |
| `Publication.Disk.Retain` | deployment/analytics_task014_resume.py:779-791 | the private copies, written one by one; without faults they are complete exactly if nothing private was there; every state on the way |
| `Publication.WithinStaysMixed` | deployment/analytics_task014_resume.py:685-698 | a publication stopped anywhere leaves every file old or new |
| `Publication.ForwardLeavesPrefix` | deployment/analytics_task014_resume.py:685-698 | a forward run stopped anywhere leaves a prefix new and the rest old |
| `Publication.ForwardCrashIsRecoverable` | deployment/analytics_task014_resume.py:765-813 | every state a publication over complete copies can stop in, its journal's included, can be recovered from |
| `Publication.RepairCrashIsRecoverableIff` | deployment/analytics_task014_resume.py:765-841 | a state a first run stopped in, inside the copies, the publication or its own restore, can be recovered from if and only if the copies were complete and no restore stopped inside a file; before the copies are complete no installed file has changed |
| `Publication.RestoreCrashIsRecoverableIffUntorn` | deployment/analytics_task014_resume.py:477-499 | a state a recovery stopped in can be recovered from if and only if it did not stop inside a file, a journal or the result |
| `Publication.ChainStaysMixed` | deployment/analytics_task014_resume.py:804-813 | after any such first run and any chain of stopped recoveries each file is old or new, and no other installed file has changed |
| `Publication.ChainIsRecoverableIffUntorn` | deployment/analytics_task014_resume.py:477-499 | after any such chain the next recovery gets through if and only if the copies were complete and nothing was stopped inside a file of a restore, a journal or the result of a recovery |
| `Publication.TornIsFinal` | deployment/analytics_task014_resume.py:477-499 | after any other stop, every later recovery leaves all files as they are |
| `Publication.RecoveredExactly` | deployment/analytics_task014_resume.py:804-813 | one completed restore after any such chain brings back exactly the installed files of the start |
| `Publication.RestoreIsIdempotent` | deployment/analytics_task014_resume.py:804-813 | restoring what is restored changes no installed file |
| `ServiceUnits.SnapshotIffListenerFirst` | deployment/analytics_service_recovery.py:223-251 | one-by-one stop checks are a snapshot if and only if the listener is read before the executor |
| `ServiceRecovery.AnalyticsServiceControl.RequireStopped` | deployment/analytics_service_recovery.py:223-234 | returns exactly if every look was answered and found its unit stopped, and then all three are stopped together; interrupted exactly if a look was; stopped means not running, not changing, without a job, and, the socket apart, without a main process |
| `ServiceRecovery.AnalyticsServiceControl.StopAndConfirm` | deployment/analytics_service_recovery.py:236-251 | all three stops are issued in order whatever fails; success is a confirmed stop; an interrupt is passed on if and only if a look was interrupted, or a stop was and the looks confirmed all three stopped |
| `ServiceRecovery.AnalyticsServiceControl.ReloadAndVerify` | deployment/analytics_service_recovery.py:262-273 | success means everything stopped, and the loaded configuration is what the files say and what is expected |
| `ServiceRecovery.AnalyticsServiceControl.Start` | deployment/analytics_service_recovery.py:275-282 | one start issued; success was seen active |
| `ServiceRecovery.AnalyticsServiceControl.RequireStableBroker` | deployment/analytics_service_recovery.py:284-298 | the same running process and the expected runtime in every look, until a second has passed |
| `ServiceRecovery.LooksAreBounded` | deployment/analytics_service_recovery.py:284-298 | at most eleven looks |
| `ServiceRecovery.StableSeesTwiceUnlessSlow` | deployment/analytics_service_recovery.py:284-298 | the broker is seen twice exactly if the first look did not use up the second |
| `ServiceRecovery.AnalyticsServiceControl.Forward` | deployment/analytics_service_recovery.py:318-343 | the passed events are a prefix of the one happy script, and only a full one returns |
| `ServiceRecovery.AnalyticsServiceControl.Recover` | deployment/analytics_service_recovery.py:344-356 | the stops come first and always; restore only after a confirmed stop and only if publication was entered |
| `ServiceRecovery.AnalyticsServiceControl.ResumeAnalytics` | deployment/analytics_service_recovery.py:301-365 | every run is ready on the new generation, or stopped with the old one restored and verified, or handed over, or passes an interrupt on after the same recovery; when nothing goes wrong, ready exactly if the files can be published and configure the units as expected, and otherwise the old files are live again and the old configuration decides between stopped and handed over; the files, journal included, are in a state whose recovery `Publication` decides |
| `ServiceRecovery.StartsComeLate` | deployment/analytics_service_recovery.py:318-343 | over every run no start precedes the verification, the broker follows the probe, and a recovery starts nothing |
| `ServiceRecovery.ThereAndBack` | deployment/analytics_service_recovery.py:350-354 | a forward publication and a restore, both stopped anywhere, leave each file old or new; a complete restore gives the old files |
| `RegistryTransition.Registry.Read` | deployment/analytics_registry_stream_transition.py:44-59 | the whole content, exactly from a file of the right owner, mode and size |
| `RegistryTransition.Registry.ReadBlocks` | deployment/analytics_registry_stream_transition.py:49-53 | the bounded loop reads the whole file, or more than the maximum, whatever pieces the reads give |
| `RegistryTransition.Registry.Write` | deployment/analytics_registry_stream_transition.py:91-99 | the exact file, new, or a partial one of known shape; every state on the way |
| `RegistryTransition.Registry.PutBack` | deployment/analytics_registry_stream_transition.py:198-207 | success exactly when the old configuration is live or the restore copy is absent or complete |
| `RegistryTransition.Registry.Recover` | deployment/analytics_registry_stream_transition.py:183-209 | from every state a stop leaves: the old configuration live and the service on it, or unchanged, or refused; without faults, refused exactly for an incomplete restore copy or a dead service |
| `RegistryTransition.Registry.RecoverOrStop` | deployment/analytics_registry_stream_transition.py:231-234 | a refused recovery takes the stop path |
| `RegistryTransition.Registry.Prepare` | deployment/analytics_registry_stream_transition.py:235-239 | the marker appears only over complete and exact backups, in every state on the way, whatever others do to the configuration |
| `RegistryTransition.Registry.CutOver` | deployment/analytics_registry_stream_transition.py:240-248 | the new configuration replaces the one just checked, or something raced with the check |
| `RegistryTransition.Registry.Settle` | deployment/analytics_registry_stream_transition.py:249-257 | the bytes found decide, even when the flag was lost: without faults unchanged, recovered or stopped exactly by the flag, the live configuration and the restore copy |
| `RegistryTransition.Registry.Transition` | deployment/analytics_registry_stream_transition.py:225-257 | every state reached is recoverable, every report is true, no unknown configuration is replaced except in the race window, and without faults it installs exactly when the preflight conditions hold |
| `RegistryTransition.WritingRestoreIsSound` | deployment/analytics_registry_stream_transition.py:200-204 | a restore copy stopped at any byte leaves a recoverable state |
| `SourceNames.JoinedParts` | deployment/analytics_isolated_source_install.py:270-274 | splitting a path loses nothing |
| `SourceNames.LessIff` | deployment/analytics_isolated_source_install.py:245 | one name sorts before another exactly if it is a proper prefix or has the smaller character where they first differ |
| `SourceNames.ByDepth` | deployment/analytics_isolated_source_install.py:270-275 | every directory once, by depth and then by name, each after those above it |
| `SourceNames.Sorted` | deployment/analytics_isolated_source_install.py:245 | every name once, in Python's order |
| `SourceInstall.LastIsEmpty` | deployment/analytics_isolated_source_install.py:327-334 | removed in reverse order of creation, each directory is empty when its turn comes |
| `SourceInstall.LaidIsExact` | deployment/analytics_isolated_source_install.py:277-321 | what the two loops lay down is exactly the selected entries and their ancestors |
| `SourceInstall.ExactIsCompatible` | deployment/analytics_isolated_source_install.py:277-321 | an exact tree exists only for entries none of which lies under another |
| `SourceInstall.ExactAccounts` | deployment/analytics_isolated_source_install.py:358-371 | an exact tree can be taken down by its own entries alone |
| `SourceInstall.ReviewedParent.WriteAll` | deployment/dev_host_provisioning_mechanics.py:367-373 | all the bytes after any number of partial writes |
| `SourceInstall.ReviewedParent.MakeDirectories` | deployment/analytics_isolated_source_install.py:277-287 | all directories, parents before children; on failure the list accounts for everything made |
| `SourceInstall.ReviewedParent.WriteFiles` | deployment/analytics_isolated_source_install.py:289-317 | all files with exact bytes and mode; on failure the list accounts for everything made |
| `SourceAudit.VerifyApplication` | deployment/dev_host_provisioning_mechanics.py:541-614 | the recursive scan and the closing comparison of what was found pass, without faults, exactly for the exact tree of files within the limit |
| `SourceAudit.ScanDirectory` | deployment/dev_host_provisioning_mechanics.py:552-611 | the scan of one directory, with everything below it: passing means everything found fits, and all of it was found; failing means something below does not fit |
| `SourceAudit.FoundIsExact` | deployment/dev_host_provisioning_mechanics.py:613-614 | what fits everywhere and was found in full is exactly the snapshot |
| `SourceInstall.ReviewedParent.Undo` | deployment/analytics_isolated_source_install.py:327-334 | success removed exactly what was listed, and there was nothing else; a failure leaves a part of the tree, unchanged, with everything that was not listed |
| `SourceInstall.ReviewedParent.StageNewGeneration` | deployment/analytics_isolated_source_install.py:248-336 | a fresh generation of seventy files of mode 0644 in directories of mode 0755 and nothing else, or nothing; what an interrupt leaves holds nothing but the generation's own names; without faults it stages exactly the stageable selections |
| `SourceInstall.StageableIff` | deployment/analytics_isolated_source_install.py:264-326 | stageable are exactly the files of at most 1 MiB whose names have no empty or dotted part and of which none is a directory above another |
| `SourceInstall.ReviewedParent.RemoveVerifiedStage` | deployment/analytics_isolated_source_install.py:339-374 | a tree the audit refuses is not touched; an exact one is removed; a failure leaves a part of it, unchanged |
| `SourceInstall.ReviewedParent.Publish` | deployment/analytics_isolated_source_install.py:409-435 | the published name appears whole and exact or not at all; a failed rename restores the parent exactly |
| `SourceSelection.SeventyIffFiveShared` | deployment/analytics_isolated_source_install.py:239-244 | 43 old and 32 reviewed files make 70 exactly when five names are shared |
| `SourceSelection.CanonicalUnique` | deployment/analytics_isolated_source_install.py:245 | a dict has exactly one sorted listing |
| `SourceSelection.ReviewAndCombine` | deployment/analytics_isolated_source_install.py:216-245 | the one sorted listing of the old files with the updates over them, exactly when the old files are the 43 approved ones by hash, the updates are 32, the names 70 and the size at most 12 MiB |
| `SourceSelection.ReadLegacySources` | deployment/analytics_isolated_source_install.py:149-213 | without faults the 43 old files are read exactly if each is there with its mode, size and hash below public directories and all fit the limit |
| `SourceSelection.Install` | deployment/analytics_isolated_source_install.py:377-435 | what is published is the reviewed updates over the files of the original tree, which is only read; a refusal or an undo leaves the published name as it was; without faults it refuses exactly for a taken name or files that are not approved or do not combine |
| `Ustar.EncodeDecodes` | deployment/analytics_source_archive.py:110-132 | a written header reads back: octal fields, checksum, padding |
| `Ustar.EncodeIs` | deployment/analytics_source_archive.py:110-132 | every byte of a written header by its offset: texts, octal digits, the magic, and a checksum that is the sum of the block with its own field counted as blanks |
| `Ustar.WrittenIs` | deployment/analytics_source_archive.py:110-132 | every member at a multiple of 512 with its header, its data and zeros behind it, then at least two zero blocks up to a whole record |
| `Ustar.WrittenIff` | deployment/analytics_source_archive.py:271-274 | the format allows exactly one byte string for given members, the one that is written |
| `Ustar.ArchiveReads` | deployment/analytics_source_archive.py:110-132 | reading back an archive gives exactly its members |
| `SourceArchive.ArchiveBytes` | deployment/analytics_source_archive.py:110-132 | the loop writes exactly the encoding of manifest and entries, or refuses a name or size the format cannot hold, or the total size; in what it writes every file has mode 0644, no owner, no time and its content at its place, and the length is whole records |
| `SourceArchive.EncodedIs` | deployment/analytics_source_archive.py:110-132 | every file is at its offset in the archive, with the header bytes a file of a source archive has |
| `SourceArchive.KeptIff` | deployment/analytics_source_archive.py:110-132 | prefix and name field give every storable name back but one kind: a slash before exactly a hundred characters |
| `SourceArchive.EncodedReadsBack` | deployment/analytics_source_archive.py:110-132 | what is written reads back as the same entries |
| `SourceArchive.EncodedInjective` | deployment/analytics_source_archive.py:110-132 | two lists of entries have the same bytes exactly if they store the same names and payloads, and are equal when the names come back |
| `SourceArchive.ReadMembers` | deployment/analytics_source_archive.py:208-215 | at most one member too many is read, and all of them if there are fewer |
| `SourceArchive.VerifySourceArchive` | deployment/analytics_source_archive.py:192-275 | accepted are exactly the byte strings that are, offset by offset, the archive of a manifest with the expected hash and of 32 approved, described, really changed files; the result is their contents |
| `SourceArchive.GenuineIff` | deployment/analytics_source_archive.py:192-275 | genuine means: a manifest of the expected hash describing 32 files, each approved, of mode 0644, of 1 byte to 1 MiB, of the described hash and changed if shared, and the bytes are their archive by the format |
| `SourceArchive.AtMostOneAuthorized` | deployment/analytics_source_archive.py:223-270 | one manifest hash and commit stand for at most one manifest and one content |
| `SourceArchive.AtMostOneAccepted` | deployment/analytics_source_archive.py:192-275 | for one manifest hash and commit at most one byte string is accepted |
| `SourceArchive.NothingMayFollow` | deployment/analytics_source_archive.py:271-274 | nothing may follow an accepted archive |
| `EvidenceArchive.BoundedStream.Read` | deployment/analytics_signed_release_consumer.py:111-133 | a piece, nothing only at the end of an intact stream; an error only for a broken or oversized stream |
| `EvidenceArchive.BoundedStream.ReadFile` | deployment/analytics_signed_release_consumer.py:164-181 | the chunks of one file add up to exactly its bytes |
| `EvidenceArchive.BoundedStream.Drain` | deployment/analytics_signed_release_consumer.py:182-186 | everything behind the tar end is counted: passes exactly for an intact stream within the limit |
| `EvidenceArchive.ReadMembers` | deployment/analytics_signed_release_consumer.py:150-181 | the member loop: reaches the end with everything collected, or the archive is not acceptable |
| `EvidenceArchive.Extract` | deployment/analytics_signed_release_consumer.py:136-191 | accepted are exactly the archives that hold each of the files once, regular and within its limit, in any order, in an intact stream within the limit; the result is the kept files and the hashes of the others; of the archives a tar writer makes it takes exactly those whose members are the closed names, once each, regular, not empty, and within 4 or 128 MiB |
| `EvidenceArchive.WalkArchive` | deployment/analytics_signed_release_consumer.py:150-181 | the walk over a written archive finds exactly its members, whatever their sizes |
| `EvidenceArchive.ArchiveTaken` | deployment/analytics_signed_release_consumer.py:136-191 | a written archive is accepted if and only if it holds every name once within its limit, and it gives back the contents and hashes of its members |
| `EvidenceArchive.TotalFits` | deployment/analytics_signed_release_consumer.py:159-163 | the sizes add up to no more than the stream holds |
| `EvidenceArchive.LookUp` | deployment/analytics_signed_release_consumer.py:178-181 | under each name the result holds that member's bytes or their hash |
| `EvidenceArchive.OrderDoesNotMatter` | deployment/analytics_signed_release_consumer.py:136-191 | the result depends only on the multiset of members |
| `Decimals.CanonicalIsDecimal` | deployment/broker_https_ingress.py:132-135 | the decimal form of a length is the only one without leading zeros |
| `Ingress.FullMeansDistinct` | deployment/broker_https_ingress.py:101-107 | six headers that cover the six names repeat none |
| `Ingress.DistinctMeansFull` | deployment/broker_https_ingress.py:128-131 | six different required names are all of them: the closing key-set test cannot fail |
| `Ingress.CollectHeaders` | deployment/broker_https_ingress.py:109-131 | succeeds exactly for the six required headers with clean values, in any order and letter case |
| `Ingress.Parse` | deployment/broker_https_ingress.py:91-145 | a request is taken if and only if it is acceptable, with exactly the tokens and body it carries |
| `Ingress.AcceptedOnce` | deployment/broker_https_ingress.py:91-145 | at most one request can be taken from given input |
| `Ingress.OrderDoesNotMatter` | deployment/broker_https_ingress.py:91-145 | acceptance does not depend on header order |
| `Admission.LowerIs` | deployment/broker_https_ingress.py:122 | in a header name the 26 capitals become small letters and nothing else changes |
| `Admission.AcceptedIff` | deployment/broker_https_ingress.py:76-145 | accepted is exactly a POST of 1 to 4096 bytes to the one path with six headers, found by name in any letter case, clean, with the host, content type and length they must have and three credentials of printable ASCII without commas |
| `Ingress.RoutesExactly` | deployment/analytics_broker_router.py:92-142 | over all bodies: Analytics gets exactly the canonical forms of valid schema-2 requests that name it, the canary exactly the canonical schema-1 documents without a product, nobody anything else |
| `Ingress.NonCanonicalReachesNobody` | deployment/analytics_broker_router.py:92-142 | a body that is not the canonical form of a document reaches no operation |
| `Ingress.ReadsExactly` | deployment/jwks.py:77-142 | a document is read from exactly the canonical bodies within the bounds, and it is the one they carry |
| `Admission.AdmissibleIff` | deployment/jwks.py:77-142 | admissible is exactly an object of at most 40 members and 100 values, the list of all of them within four levels, with strings, keys and arrays within their lengths and every float as written |
| `Ingress.Dispatch` | deployment/broker_https_ingress.py:147-176 | at most one operation is called, the one the bytes of the body select, with exactly what was accepted; 202 exactly for a reply within 64 KiB, 403 for a rejection or when nobody is called, 503 for everything else |
| `JsonText.CharsRead` | deployment/policy.py:133-134 | every string without a split surrogate pair reads back from its escaped form |
| `JsonText.CharIs` | deployment/policy.py:133-134 | printable ASCII but quote and backslash stands for itself, seven characters have a short escape, every other one is `\u` with four lower-case digits, or two of them for a surrogate pair |
| `JsonText.ReadIsWhole` | deployment/analytics_execution.py:303-304 | no string that is read holds a split surrogate pair |
| `JsonNumber.ScanTake` | deployment/analytics_execution.py:303-304 | what is scanned as a number is one by itself, with the same sign, integer, fraction and exponent |
| `JsonNumber.ScanAppend` | deployment/analytics_execution.py:303-304 | a number is scanned whole whatever may follow it in canonical text |
| `JsonGrammar.LiteralIff` | deployment/analytics_execution.py:303-304 | a text is scanned as a float exactly if it is a sign, an integer without leading zeros, and a fraction or an exponent with digits |
| `CanonicalJson.ValueReads` | deployment/policy.py:133-134 | a value in canonical form reads back and the reader stops right after it |
| `CanonicalJson.RoundTrip` | deployment/analytics_execution.py:275-282 | decoding an encoded value gives it back |
| `CanonicalJson.ValueIsGood` | deployment/analytics_execution.py:294-304 | what is decoded has whole strings and no repeated key at any depth |
| `CanonicalJson.RoundTripIffGood` | deployment/analytics_execution.py:275-282 | the round trip succeeds if and only if strings are whole and dicts in key order |
| `CanonicalJson.AcceptsExactly` | deployment/analytics_execution.py:284-315 | the gate accepts exactly the canonical forms of valid requests |
| `CanonicalOrder.BeforeIff` | deployment/policy.py:133-134 | one key comes before another exactly if it is a proper prefix or has the smaller code where they first differ |
| `CanonicalOrder.AcceptedInOrder` | deployment/analytics_execution.py:275-315 | in an accepted value every object, at any depth, has its keys in that order |
| `CanonicalOrder.UnsortedIsRefused` | deployment/analytics_execution.py:275-315 | an object written with its keys in any other order is refused, as whatever value |
| `CanonicalOrder.Specimen` | deployment/analytics_execution.py:275-282 | the whole canonical text of one value, and that it reads back |
| `CanonicalJson.BytesInjective` | deployment/analytics_execution.py:275-282 | two requests with one canonical form are one request |
| `Pumps.CosignProcess.Handle` | deployment/blob_verifier.py:88-100 | one ready stream: what was sent stays a prefix of the blob, what was counted was read |
| `Pumps.CosignProcess.Pump` | deployment/blob_verifier.py:74-102 | every exit is by the deadline; success is strictly before it and means every stream finished within its limit; when nothing goes wrong and there is time for as many waits as there are bytes to move and streams, success means exactly that the output is within the limits |
| `Pumps.CosignProcess.Run` | deployment/blob_verifier.py:57-140 | success means the whole blob was delivered in order and all output counted; every path makes each of the five cleanup attempts once and ends within 30 s and the two reaping waits; an interrupt anywhere is passed on, and nothing else is; when nothing goes wrong and there is time, it succeeds exactly for output within the limits |
| `Pumps.Capture.Handle` | deployment/analytics_service_recovery.py:92-103 | what is kept is what was read, cut at the limit, and the excess is an error |
| `Pumps.Capture.Drain` | deployment/analytics_service_recovery.py:82-110 | every exit is by the deadline; success means both streams were read to their end and kept whole; when nothing goes wrong and there is time, exactly for output within the limit |
| `Pumps.Capture.Run` | deployment/analytics_service_recovery.py:69-147 | what is kept is always a prefix of what the child wrote, all of it on success; each of the four cleanup attempts is made once; the timeout, a nap and the reaping wait bound it; an interrupt is passed on exactly if it came before the cleanup; when nothing goes wrong and there is time, it succeeds exactly for output within the limit |

## Left out

- SHA-256, gzip, OIDC, Sigstore and TLS: foreign code; an injective hash, a lossless compression and yes-or-no answers stand for them.
- systemd, Docker, sockets and process spawning: only unit state, slot state, bytes and elapsed time are modelled, behind nondeterministic operations.
- File ownership, links and inode fingerprints: represented only where a branch of the registry transition or of the staging depends on mode or owner; elsewhere such a check is one that may fail.
- Schema, page and inode checks of the SQLite store: each is one failure that leaves the store unchanged and reports it unavailable.
- Field-by-field comparison with pinned release, profile and compose constants: a single predicate (`valid`, `describe`) stands for each.
- `target` of the registry transition: its one-field JSON change is an abstract function that changes the bytes; the JSON text itself is not computed.
- The Git pump of `deployment/application_manifest.py` and `stream_delta`: they would repeat the pump of `Pumps`.
- Preflight and inspection reports, the PostgreSQL bootstrap, command-line entry points, composition and immutability of classes: wiring, constants or printing.
- ReplayProtocol.Step: one action is atomic; SQLite's transaction and the execution gate are what makes it so.
- SourceArchive.ArchiveBytes: names are ASCII, as every approved path is. The device fields of a regular file, which the format leaves open, are zero bytes.
- EvidenceArchive.Extract: the reading of one header block is a parameter, stated for the ustar reading where written archives are meant, and the ten names are two disjoint sets. Extension members (long names, pax records, sparse files) count as members that are not regular and are refused, where Python applies them to the next member; a pax record naming one of the ten files is therefore outside the model. What the broken end of a compressed stream still delivers is left open.
- Ustar.Decode: accepts fewer spellings of a number than Python's reader does; the final comparison of the verifier refuses all of those anyway.
- CanonicalJson.ReadNumber: a float is kept as the text it was read from; how Python would write it again is the parameter `canon` of `Ingress`. Python's limits on recursion depth and on digits are not modelled.
- Ingress.Route: the comparison of a request's fields with the reviewed source is the parameter `valid`.
- Pumps.Child.Select: every wait takes at least one microsecond, and the code between two waits takes no time.
- ServiceRecovery.AnalyticsServiceControl.ResumeAnalytics: `prepare` and `restore` are the publication of `repair_identity`; the other callbacks are calls that return, fail or are interrupted, and every one writes the journal as an audited command does. The public result is written in `Publication.Disk.Conclude` only.
- Publication.Disk.Retain: the private directory counts as there once it holds a file; in the source an empty one already stops a second run.
- Publication.Disk.Persist: the journal's limits of 1024 records and 8 MiB are failures from outside; its text is left open.
- SourceAudit.VerifyApplication: the optional staging name that may stand beside the tree is absent, as the installer calls it.
- AuditRun.AcceptedRunIsTail: assumes that the twelve digits of a hash in a rotation name tell hashes apart; where two would be equal, `AuditSink` says when the append fails.
- SourceInstall.ReviewedParent.RemoveVerifiedStage: is stated for the entries of the staging that preceded it, which is how the source calls it.
