# net-desk: a verified model

net-desk manages Windows computers: a Node server with a MySQL database, an agent service and a manager
service on every computer, and browsers for the administrators. This project models the parts in which
state, interleaving or arithmetic decide whether the system is right, and proves what those parts promise.
`dafny verify dfyconfig.toml` checks everything.

Code that changes things in place is modelled by classes and loops that are proved against functions;
protocols with several parties are state machines over events, and their theorems hold after every sequence
of events. An event that cannot happen leaves the state as it is, so every sequence is a run.

| file | what it models |
|---|---|
| `Common.dfy`, `Sorting.dfy`, `Strings.dfy` | shared datatypes; the stable sort; the JavaScript string operations the services use |
| `AgentJobs.dfy`, `AgentJobsService.dfy` | the table of remote commands and the services over it |
| `JobProtocol.dfy`, `JobRuns.dfy`, `JobDelivery.dfy`, `JobRace.dfy` | server, agents, lossy replies and administrator as one state machine, with the poll as one step or as SELECT and UPDATE |
| `AgentScheduler.dfy`, `Starvation.dfy`, `UpdateCheckRun.dfy` | the agent's main loop; what activities that throw do to the later ones; a run in which a failing update check starves the inventory |
| `DirectorySync.dfy`, `ManagerInstall.dfy` | copying and deleting directory trees against locks; the manager's install command and mailbox |
| `DbCleanup.dfy` | removal of ghost references |
| `Metadata.dfy`, `MetadataCells.dfy`, `MetadataStore.dfy` | read back, merge and rewrite of computer metadata; what is stored, column by column |
| `VncRelay.dfy`, `RelayDelivery.dfy`, `RelayClose.dfy` | the relay's session map; who receives what; whose close event ends which entry |
| `VncSessions.dfy` | the stored screen-control sessions and the services over them |
| `ScreenControl.dfy`, `ScreenUpdates.dfy`, `ScreenFallback.dfy`, `WebrtcSignaling.dfy` | stored sessions, relay and WebRTC signaling map together, under every interleaving of handlers and of database statements that land or fail; the signaling handlers |
| `Regression.dfy`, `Trend.dfy` | least squares and the disk-fill projection |
| `Domains.dfy`, `DnsLogs.dfy` | flagged-domain matching; aggregation of DNS queries and bulk seeding |
| `Ports.dfy`, `PortScan.dfy` | the port list and the bounded pool of probes |
| `PingHistory.dfy` | the ping loop, the status history and its periods |
| `Semver.dfy`, `Releases.dfy` | version order, update selection, download and reporting |
| `Ipv4.dfy`, `Ipv4Texts.dfy` | addresses as 32-bit numbers; free addresses of a site; which texts are addresses |
| `RequestMetrics.dfy` | the sliding window of requests |

## What was found

Some promises do not hold of the code as it is. For each there is a condition that says exactly when it is
kept, and a run or an input that breaks it.

- A cancelled job can still be sent and executed, and a finished one reopened, because the UPDATE of a poll
  has no status guard. This happens exactly when the job is finished between a poll's SELECT and its UPDATE
  (`JobRuns.TerminalIsLeftExactlyWhen`, `JobRace.CancelledJobIsSentAndExecuted`). Still, no job is ever
  executed twice (`JobDelivery.EveryJobRunsAtMostOnce`).
- A job can have two accepted results: exactly when, after one of them, a poll that had listed the job before
  marks it, and another checked result arrives before the job is finished or deleted
  (`JobRace.TwoResultsExactlyWhen`, `JobRace.OverlappingPollsTakeTwoResults`).
- A viewer can be told to fall back to RFB although nothing was stored, because the notice follows also when
  the service throws: there is one announcement for each finished update of the session, so all are backed
  exactly when none failed (`ScreenFallback.EveryNoticeHasItsUpdate`), and a run has a viewer that was told with
  nothing stored exactly when one is told after a failed update and before any has landed
  (`ScreenFallback.RunHasUnbackedNoticeExactlyWhen`, `ScreenFallback.NoticeWithoutAStoredFallback`).
- A stored fallback can be left without its bridge job, because UPDATE and INSERT are two statements: exactly
  when such an INSERT failed (`ScreenFallback.FallbackHasItsBridgeExactlyWhen`,
  `ScreenFallback.FallbackWithoutItsBridge`).
- A finalised relay entry can leave its session neither ended nor about to be: exactly when every end update
  issued for it failed (`ScreenUpdates.FinalisedEntryEndsItsSession`, `ScreenUpdates.FinalisedWithoutEnd`).
- The close event of a socket can finalise an entry that the socket is not in: exactly when a later connection
  of the session opened that entry or took the socket's place in it (`RelayClose.StaleCloseExactlyWhen`,
  `RelayClose.RunHasStaleCloseExactlyWhen`, `RelayClose.StaleCloseEndsTheNewEntry` for a finished entry,
  `RelayClose.ReplacedViewerEndsTheEntry` for a replaced socket).
- Falling back from WebRTC to RFB is called harmless to repeat; for the row it is, but each call starts one
  more bridge job, also for a session that has ended (`VncSessions.EveryFallbackStartsABridge`,
  `VncSessions.RepeatedFallback`).
- In the agent's loop only the jobs poll and the update check can end in an exception, the other activities
  catch their own. If a fault that is over does not come back, the two, being due, starve the inventory exactly
  when one of them keeps throwing; the update check alone does so exactly when it keeps throwing, even if its
  fault comes and goes (`Starvation.PollAndUpdateStarveInventoryExactlyWhen`,
  `Starvation.UpdateCheckStarvesInventoryExactlyWhen`, `UpdateCheckRun.BrokenUpdateCheckStarvesInventory`).
- The mailbox command is called single-shot; it runs at every readable look until one deletes the file, so at
  most once exactly when some look deletes the file between any two that read it
  (`ManagerInstall.AtMostOnceExactlyWhen`, `ManagerInstall.LockedFileRunsTwice`).
- An install whose staging directory is the install directory itself reports success over an emptied tree. A
  successful copy is the staged tree exactly when the staging directory does not contain the install directory
  or was empty (`ManagerInstall.Manager.InstallFiles`, `ManagerInstall.InstalledOverItself`).
- The clean-up can itself make a metadata pointer dangle, and never repairs one that does: a pointer dangles
  afterwards exactly when it was set and its target was missing or is removed
  (`DbCleanup.DanglesExactlyWhen`, `DbCleanup.CleanUpMakesAPointerDangle`, `DbCleanup.DanglingPointerSurvives`).
- A patch of metadata that omits `CPU.LogicalCPUs` resets it to null: `mapMeta` reads `cpuLogicalCPus`, the
  repository selects `cpuLogicalCpus` (`Metadata.FrameHoldsExactlyWhen`, `Metadata.RenamingLosesLogicalCpus`).
- Re-sending a batch of DNS queries is called idempotent; its counts are added again
  (`DnsLogs.ResendIsIdleExactlyWhenEmpty`, `DnsLogs.ResentBatchIsCountedTwice`).
- A ping tick that fails after its status update loses the changes it saw. An entry's history alternates
  afterwards exactly when an even number of its changes is lost between any two recorded ones
  (`PingHistory.HistoryAlternatesExactlyWhen`, `PingHistory.FailedTickBreaksExactlyWhen`,
  `PingHistory.LostChangeBreaksTheHistory`).
- Flagged bare top-level names, and names of more than six labels, do not match the domains below them
  (`Domains.FastMatchMissesExactly`, `Domains.TopLevelIsMissed`).
- `service/README.md` describes backup and rollback of an install; the code has none, and the model follows
  the code.

## Model

| member | source | states |
|---|---|---|
| AgentJobs.AgentJobsTable.FindPendingJobsForAgent | backend/repositories/agentJobs.repo.js:233-251 | the listing is exactly the agent's pending jobs, each once, oldest first |
| AgentJobs.AgentJobsTable.MarkJobsSent | backend/repositories/agentJobs.repo.js:280-290 | every listed row becomes sent whatever its status was; no other row changes |
| AgentJobs.AgentJobsTable.CompleteJob | backend/repositories/agentJobs.repo.js:292-302 | a result is stored exactly if the row is sent, and the count says whether it was; the row is then completed or failed as the report says, with the report's own fields, and no other row changes |
| AgentJobs.AgentJobsTable.CancelJob | backend/repositories/agentJobs.repo.js:268-278 | only a pending or sent row is cancelled, and the count says whether it was |
| AgentJobs.AgentJobsTable.CancelActiveJobsInBatch | backend/repositories/agentJobs.repo.js:253-266 | exactly the unfinished jobs of the batch are cancelled and counted |
| AgentJobs.AgentJobsTable.DeleteJobsForAgent | backend/repositories/agentJobs.repo.js:339-342 | exactly the agent's rows go, and they are counted |
| AgentJobsService.UniqueKeepsEveryIdOnce | backend/services/agentJobs.service.js:46-47 | deduplication keeps every requested agent, once |
| AgentJobsService.UniqueKeepsTheOrder | backend/services/agentJobs.service.js:46-47 | and keeps the order of first occurrences |
| AgentJobsService.BatchSplitsTheTargets | backend/services/agentJobs.service.js:54-77 | every requested agent is either created for, exactly if it is known, active and, where asked, online, or skipped with the first reason that applies, exactly once |
| AgentJobsService.BatchAddsOneRowPerAgent | backend/services/agentJobs.service.js:69-76 | a batch adds one fresh pending row per eligible agent and touches no other row |
| AgentJobsService.Service.CreateBatchJob | backend/services/agentJobs.service.js:46-80 | the loop yields the batch entry and one fresh pending row for each requested agent that is known, active and, where asked, online, reported with that agent and the row's own id; every other row stays |
| AgentJobsService.Service.CreateJob | backend/services/agentJobs.service.js:23-41 | an unknown or inactive agent is an error that changes nothing; otherwise one fresh pending row |
| AgentJobsService.Service.CancelJob | backend/services/agentJobs.service.js:104-114 | not found, conflict for a finished job, or the job is cancelled and returned |
| AgentJobsService.Service.CancelBatchJobs | backend/services/agentJobs.service.js:95-102 | an unknown batch is an error; otherwise the number cancelled, which may be 0 |
| AgentJobsService.Service.ClearJobs | backend/services/agentJobs.service.js:132-140 | the agent's rows are removed and counted, or the agent is unknown |
| AgentJobsService.Service.PollJobs | backend/services/agentJobs.service.js:142-150 | an undisturbed poll returns the pending jobs, marks exactly those, and leaves none pending |
| AgentJobsService.Service.SubmitJobResult | backend/services/agentJobs.service.js:152-194 | a result is taken only from the job's own agent and only while the job is sent; every error leaves the table alone; the job is failed exactly if the report says so, or does not say and has a non-zero exit code, and carries the report's fields; the fallback is asked exactly for such a failure of a start_webrtc_bridge job with a session |
| JobProtocol.ServeIsReadThenMark | backend/services/agentJobs.service.js:142-150 | a poll in one step is its SELECT followed at once by its UPDATE |
| JobProtocol.SubmitIsCheckThenWrite | backend/services/agentJobs.service.js:152-178 | the two steps of a result, one right after the other, take it exactly as the service does |
| JobProtocol.OtherStepsMean | backend/services/agentJobs.service.js:23-140 | creating, cancelling and clearing in the machine do what the services do |
| JobProtocol.EveryRunIsSound | backend/services/agentJobs.service.js:142-194 | in every run: a listing holds only jobs of its own agent, an agent runs only what it was answered, a sent row was handed to its agent, and a completed or failed row is explained by an accepted result of its own agent with that verdict |
| JobRuns.FinishedIsAbsorbing | backend/repositories/agentJobs.repo.js:253-302 | while polls are one step, a completed, failed or cancelled row never changes again |
| JobRuns.TerminalIsLeftExactlyWhen | backend/repositories/agentJobs.repo.js:233-302 | a run takes a job out of a terminal status if and only if the job is finished between the SELECT and the UPDATE of a poll that listed it |
| JobRuns.LeavingIsFinishedInsidePoll | backend/repositories/agentJobs.repo.js:280-290 | whenever a terminal status is left, it is by the UPDATE of a poll that listed the job before it was finished |
| JobRuns.FinisherInsidePoll | backend/services/agentJobs.service.js:142-194 | what finishes the job inside the poll is a cancellation, or a result accepted after a second poll was answered with the job |
| JobDelivery.EveryJobRunsAtMostOnce | backend/services/agentJobs.service.js:142-194 | in every run, however polls split, overlap, get lost or come late, no job is executed twice, nor by two agents |
| JobDelivery.NothingHappensTwice | backend/services/agentJobs.service.js:142-194 | with one poll of an agent in the server at a time, no job is listed by two polls, and none has two accepted results |
| JobDelivery.OneStepPollsAreApart | backend/services/agentJobs.service.js:142-150 | polls that are one step are one at a time, so all of the above holds of them |
| JobDelivery.FinishedByItsOwnAgent | backend/services/agentJobs.service.js:152-194 | a completed or failed job was answered to, executed by and reported by its own agent, and is failed exactly if that report says so, or does not say and has a non-zero exit code |
| JobDelivery.LostReplyIsNeverRepeated | backend/services/agentJobs.service.js:142-150 | with one poll at a time, after a lost reply its jobs are never listed or run again; the rows stay sent until cancelled or deleted |
| JobRace.CancelledJobIsSentAndExecuted | backend/repositories/agentJobs.repo.js:268-290 | a run in which a cancelled job becomes sent again and is executed |
| JobRace.OverlappingPollsTakeTwoResults | backend/services/agentJobs.service.js:142-178 | a run without any cancellation in which one job gets two accepted results |
| JobRace.TwoResultsExactlyWhen | backend/services/agentJobs.service.js:142-178 | a job has two accepted results if and only if, after one of them, a poll that had listed the job before marks it, and another checked result arrives with the row still there and nothing having finished it since |
| JobRace.OnlyACancellationCanBeLost | backend/services/agentJobs.service.js:142-178 | with one poll at a time, a terminal status is left only after an administrator's cancel between the poll's two halves |
| AgentScheduler.RunAsync | service/Netdesk.Agent.Service/AgentWorker.cs:90-154 | the loop with its seven timestamps, reading the clock anew in each test, runs in each iteration what the trace of the theorems says |
| AgentScheduler.FirstDueIsFirst | service/Netdesk.Agent.Service/AgentWorker.cs:101-139 | the chain picks the first due activity, and none exactly if none is due |
| AgentScheduler.PickedExactlyWhen | service/Netdesk.Agent.Service/AgentWorker.cs:97-139 | an iteration runs activity i if and only if the agent is enrolled, i has not run yet or its interval has passed since it ended, and neither holds of an earlier one |
| AgentScheduler.RunsExactlyWhen | service/Netdesk.Agent.Service/AgentWorker.cs:90-154 | the same for whole runs of the loop, in terms of what it has run so far: the agent has been enrolled by then, i's interval has passed since it last completed, and no earlier one's has |
| AgentScheduler.RunsAgain | service/Netdesk.Agent.Service/AgentWorker.cs:97-154 | after a completed run an activity does not run before its interval has passed, and does within L iterations from then if the quotas and throws of the earlier ones add up to less than L |
| AgentScheduler.RunsWithinQuota | service/Netdesk.Agent.Service/AgentWorker.cs:97-154 | in any L iterations an activity runs at most ceil(L/d) times, d the fewest iterations that make up its interval, and once more for every time it threw |
| AgentScheduler.NoStarvation | service/Netdesk.Agent.Service/AgentWorker.cs:97-154 | a due activity runs within L iterations whenever the quotas of those before it and the times they throw add up to less than L |
| AgentScheduler.DefaultsServeEveryoneWithinElevenTicks | service/Netdesk.Agent.Common/Configuration/AgentSettings.cs:23-35 | with the default intervals and a start every 5 seconds, everything due runs within 11 iterations in which nothing before it throws |
| Starvation.ThrowingStarvesExactlyWhen | service/Netdesk.Agent.Service/AgentWorker.cs:99-145 | if one activity alone throws and its interval outlasts the iterations that the others can fill, then, being due, it starves a later due one forever if and only if every one of its runs throws |
| Starvation.ThrowersStarveExactlyWhen | service/Netdesk.Agent.Service/AgentWorker.cs:99-145 | if a set of earlier, due activities throws and each that completes once throws no more, they starve a due activity forever if and only if one of them throws in every run |
| Starvation.PollAndUpdateStarveInventoryExactlyWhen | service/Netdesk.Agent.Service/AgentWorker.cs:109-139 | with the default intervals, under the same hypotheses: jobs poll and update check starve the due inventory if and only if one of them keeps throwing |
| Starvation.UpdateCheckStarvesInventoryExactlyWhen | service/Netdesk.Agent.Service/AgentWorker.cs:130-139 | with the default intervals: a due update check starves the due inventory if and only if it keeps throwing |
| UpdateCheckRun.BrokenUpdateCheckStarvesInventory | service/Netdesk.Agent.Common/Update/UpdateManager.cs:79-93 | an endless run in which nothing but the update check throws and the inventory, due from the start, is never sent |
| DirectorySync.FileSystem.CopyFileWithRetry | service/Netdesk.Agent.Manager/DirectorySync.cs:76-100 | it succeeds exactly if the source is a file, the target no directory, and one of eight attempts works with those before it only locked; one sleep fewer than attempts; only the target changes; success means an exact copy; the statement after the loop is unreachable |
| DirectorySync.FileSystem.CopyDirectoryRecursive | service/Netdesk.Agent.Manager/DirectorySync.cs:60-74 | for any two paths: terminates and changes nothing outside the target; of directories apart, it succeeds exactly if nothing is in the way, every directory may be made and the last file copied, it fails only for a path that does not fit, a refused directory, or a file given up after a fatal or eight locked attempts, and success means that the target is the overlay in which source entries win; a directory is never copied into itself, and onto itself exactly if there are only directories in and above it |
| DirectorySync.FileSystem.DeleteDirectoryWithRetry | service/Netdesk.Agent.Manager/DirectorySync.cs:36-58 | an absent directory is left alone; otherwise it succeeds exactly if one of eight attempts works, those before it are only locked, and none of these has removed the directory itself; success removes exactly the subtree, failure only part of it |
| DirectorySync.OverlayIntoAbsentIsACopy | service/Netdesk.Agent.Manager/DirectorySync.cs:60-74 | into an absent directory the result is a tree equal to the source |
| DirectorySync.OverlayIsUnique | service/Netdesk.Agent.Manager/DirectorySync.cs:60-74 | the overlay and the untouched outside determine the whole tree |
| DirectorySync.OverlayTwiceIsOnce | service/Netdesk.Agent.Manager/DirectorySync.cs:60-74 | copying the same source again changes nothing |
| ManagerInstall.Manager.InstallFiles | service/Netdesk.Agent.Manager/ManagerWorker.cs:643-679 | for any two paths and all answers of locks and service control: StopFailed exactly if the stop was refused; FilesFailed exactly if it was not, and the delete or the copy failed; StartFailed or Success by the answer to the start; a failed stop changes no file, a failed delete or copy attempts no start; nothing outside the install directory changes; if the copy went through, the installed tree equals the staged one if and only if the staging directory does not contain the install directory or was empty |
| ManagerInstall.InstalledOverItself | service/Netdesk.Agent.Manager/ManagerWorker.cs:655-668 | installing a directory over itself leaves it empty, a copy only of an empty one |
| ManagerInstall.Manager.ControlService | service/Netdesk.Agent.Manager/ManagerWorker.cs:569-612 | stop and start succeed exactly if there is nothing to do or the request is granted, a restart if both are; a successful stop leaves the service stopped, a successful start or restart leaves it running, a refusal leaves it as the last answer says, any other action does nothing |
| ManagerInstall.Mailbox.Dequeue | service/Netdesk.Agent.Manager/ManagerWorker.cs:538-567 | the command is handed out if it can be read, and the file is gone if it can be deleted |
| ManagerInstall.Mailbox.LookAgain | service/Netdesk.Agent.Manager/ManagerWorker.cs:500-567 | looking again and again handles the command as often as the count of the theorems says, and leaves the file exactly if no look deletes it |
| ManagerInstall.HandledUntilDeleted | service/Netdesk.Agent.Manager/ManagerWorker.cs:500-567 | a command runs once for each readable look up to and including the first that deletes the file |
| ManagerInstall.AtMostOnceExactlyWhen | service/Netdesk.Agent.Manager/ManagerWorker.cs:534-567 | it runs at most once if and only if some look deletes the file between any two that read it |
| ManagerInstall.RunsExactlyWhen | service/Netdesk.Agent.Manager/ManagerWorker.cs:538-567 | it runs at all if and only if some look reads the file that none has deleted before |
| ManagerInstall.SingleShotExactlyWhen | service/Netdesk.Agent.Manager/ManagerWorker.cs:534-567 | it runs exactly once if and only if both hold |
| ManagerInstall.LockedFileRunsTwice | service/Netdesk.Agent.Manager/ManagerWorker.cs:538-567 | two looks at a file that can be read and not deleted run it twice |
| DbCleanup.RelationshipsAreParentsFirst | backend/repositories/dbCleanup.repo.js:9-30 | no relation in the list deletes from a table that an earlier one, or it itself, uses as parent |
| DbCleanup.OnePassLeavesNoOrphans | backend/repositories/dbCleanup.repo.js:72-82 | one pass in such an order leaves no orphan of any relation |
| DbCleanup.RemovedIsTheLeastClosedSet | backend/repositories/dbCleanup.repo.js:72-82 | the removed rows are the least set that contains every orphan and every child of a removed row |
| DbCleanup.NaiveEndsWhereOnePassEnds | backend/repositories/dbCleanup.repo.js:72-82 | any one-by-one clean-up that ends clean ends where the single pass ends |
| DbCleanup.SecondRunIsIdle | backend/repositories/dbCleanup.repo.js:72-95 | after one run the audit is zero everywhere, and a second run changes nothing and reports neither a deletion nor a repaired pointer |
| DbCleanup.ReportAccountsForEveryRow | backend/repositories/dbCleanup.repo.js:75-82 | the reported deletions add up to the rows that are missing |
| DbCleanup.DanglesExactlyWhen | backend/repositories/dbCleanup.repo.js:72-95 | after a clean-up a metadata_id dangles if and only if it was set and its target was missing or is one of the removed rows |
| DbCleanup.CleanUpMakesAPointerDangle | backend/repositories/dbCleanup.repo.js:72-95 | a database in which no pointer dangles until the clean-up removes its target |
| DbCleanup.DanglingPointerSurvives | backend/repositories/dbCleanup.repo.js:52-61 | a metadata_id that points to a missing row is neither found nor repaired |
| DbCleanup.Database.AuditGhostReferences | backend/repositories/dbCleanup.repo.js:37-70 | per relation the number of rows that name no row of the parent table and, unless the column is nullable, none at all; and the number of pairs of an entry without metadata_id and a metadata row of its own |
| DbCleanup.Database.CleanGhostReferences | backend/repositories/dbCleanup.repo.js:72-95 | afterwards every row refers to a stored one where it must, a row is gone only because it named nothing it had to or what it named is not there, no cell changed but the metadata_id of an entry that had none, which is now that of one of its own metadata rows, every entry with such a row has one, these are counted, and the deletions of each table are reported |
| DbCleanup.Database.FixPointers | backend/repositories/dbCleanup.repo.js:84-92 | exactly the entries with a missing pointer get one of their own metadata rows, and they are counted |
| Metadata.NormIsStable | backend/services/metadata.service.js:141-259 | normalising a stored value once more changes nothing |
| Metadata.UpsertIsNormal | backend/services/metadata.service.js:141-259 | whatever the body, what is stored is normal in every column and child row |
| MetadataCells.UpsertStores | backend/services/metadata.service.js:141-259 | for each of the 24 columns the field it comes from: a text without the white space around it and NULL if nothing is left, a number given for a text as its numeral, a date as parsed or NULL, a number as given, NULL for what is absent; and the same for every row of the four child tables, one row per item in order |
| Metadata.PatchChangesOnlyWhatItNames | backend/services/metadata.service.js:307-324 | a named column gets the named value, every other keeps its own, except CPU.LogicalCPUs |
| Metadata.PatchReplacesOnlyTheListsItHas | backend/services/metadata.service.js:307-324 | an absent child list keeps its rows, a present one replaces them |
| Metadata.FirstPatchIsStored | backend/services/metadata.service.js:307-324 | on a computer without metadata the patch alone is stored |
| Metadata.FrameHoldsExactlyWhen | backend/services/metadata.service.js:47-99 | the frame is kept if and only if the patch names CPU.LogicalCPUs or it was null |
| Metadata.RenamingLosesLogicalCpus | backend/services/metadata.service.js:47-99 | a computer with eight logical processors loses the number to a patch that only names the computer |
| Metadata.PatchTwiceIsPatchOnce | backend/services/metadata.service.js:307-324 | patching twice with one body is patching once |
| Metadata.DisjointPatchesCommuteButForLogicalCpus | backend/services/metadata.service.js:307-324 | patches of different columns commute, except that the later one resets CPU.LogicalCPUs |
| Metadata.DisjointPatchesCommuteOnLists | backend/services/metadata.service.js:307-324 | a child list that not both patches name ends the same in either order |
| MetadataStore.ReplaceRows | backend/repositories/metadata.repo.js:326-402 | after the rewrite a computer has exactly the new child rows; no other computer's change |
| MetadataStore.Store.UpsertMetadataForIpEntry | backend/services/metadata.service.js:141-259 | the computer's one row, found or new, and its child rows hold, column by column, what an upsert of the body stores; no other computer's rows change, and the pointer is set exactly for a new row |
| MetadataStore.Store.PatchMetadataForIpEntry | backend/services/metadata.service.js:307-324 | reading back, merging and rewriting stores the patched data and touches no other computer |
| MetadataStore.Store.LoadMetadataById | backend/services/metadata.service.js:101-106 | what is read back is the stored row and its child rows, as mapMeta shows them |
| MetadataStore.MergeBodies | backend/services/metadata.service.js:312-323 | the two merge loops compute the merged body |
| VncRelay.EveryRunIsConserved | backend/ws/vncRelay.js:68-112 | for any order and repetition of events: entries made equal live ones plus finalised ones, none is finalised twice, every live entry has exactly one armed timer and no other timer is armed, and an entry's sockets belong to its session and side |
| RelayDelivery.EverySocketSeesItsOwnSession | backend/ws/vncRelay.js:170-201 | what a socket receives is an in-order subsequence of what the other side of its own session sent |
| RelayDelivery.CurrentSocketHearsEverything | backend/ws/vncRelay.js:170-201 | a socket that is open and in its entry has missed nothing of that since any earlier moment |
| RelayDelivery.EveryOpenSocketIsAccounted | backend/ws/vncRelay.js:68-83 | a socket that is still open is the one in its session's live entry, or a later connection has taken its place |
| RelayDelivery.EverySocketWasLetIn | backend/ws/vncRelay.js:152-206 | every socket of every run was let in: an agent's only for its own session, a viewer's only with a valid token for a stored one |
| VncRelay.TimerEndsItsOwnEntry | backend/ws/vncRelay.js:104-112 | a timer finalises exactly the entry it was armed for |
| RelayClose.StaleCloseExactlyWhen | backend/ws/vncRelay.js:174-203 | in every run the close event of a socket finalises an entry it is not in if and only if a later connection of its session opened that entry or took its place there; the socket is then closed or replaced |
| RelayClose.RunHasStaleCloseExactlyWhen | backend/ws/vncRelay.js:174-203 | a run has such an event if and only if some close event comes after its connection was superseded |
| RelayClose.StaleCloseEndsTheNewEntry | backend/ws/vncRelay.js:174-203 | a run in which the late close event of a finished entry's socket finalises the entry made by a reconnect |
| RelayClose.ReplacedViewerEndsTheEntry | backend/ws/vncRelay.js:180-206 | a run in which the close event of a replaced viewer ends the entry and closes the viewer that replaced it |
| VncRelay.RelayServer.CloseEntry | backend/ws/vncRelay.js:68-83 | removes the entry, disarms its timer, closes its two sockets; without an entry nothing happens |
| VncRelay.RelayServer.GetOrCreate | backend/ws/vncRelay.js:104-112 | one entry with one armed timer per session, made only if there is none |
| VncRelay.RelayServer.OnAgentUpgrade | backend/ws/vncRelay.js:152-177 | only the session's own agent is attached, as the new agent socket of the session's entry, which is made with a timer if there was none; nothing else changes, and nobody else changes anything |
| VncRelay.RelayServer.OnViewerUpgrade | backend/ws/vncRelay.js:180-206 | only a valid viewer of a stored session is attached, in the same way, as the new viewer socket |
| VncRelay.RelayServer.OnMessage | backend/ws/vncRelay.js:170-201 | the message is added to what the other side's current socket has received, if that is open, and nothing else changes |
| VncSessions.RowsAreIndependent | backend/repositories/vncSessions.repo.js:32-58 | a session's row is the outcome of its own updates, whatever happens to others |
| VncSessions.EndedIsAbsorbing | backend/repositories/vncSessions.repo.js:32-58 | no sequence of attach, fallback and end changes an ended session |
| VncSessions.EndAndTransport | backend/repositories/vncSessions.repo.js:32-58 | a session has ended if and only if an end was asked; its type is RFB if and only if it started so or a fallback came before the first end, so it never returns to WebRTC |
| VncSessions.ActiveExactlyWhenAttached | backend/repositories/vncSessions.repo.js:32-58 | a live session is active if and only if its agent has attached since its last fallback |
| VncSessions.EveryFallbackStartsABridge | backend/services/vncSessions.service.js:88-100 | each fallback asked of a stored session adds exactly one start_vnc_bridge job, also when the row no longer changes |
| VncSessions.BridgesOfASession | backend/services/vncSessions.service.js:37-56 | over its whole life a session gets one bridge of the kind it started with and one RFB bridge per fallback |
| VncSessions.RepeatedFallback | backend/services/vncSessions.service.js:88-100 | any number of fallbacks in a row leaves the row of the first, and one job for each |
| VncSessions.SessionStore.StartVncSession | backend/services/vncSessions.service.js:14-58 | forbidden, not found or bad request in that order, changing nothing; otherwise a pending session of the type the flag and the agent's tier call for, and one bridge job of that type for this agent and session |
| VncSessions.SessionStore.EndVncSession | backend/services/vncSessions.service.js:74-81 | not found, or the session is ended and returned |
| VncSessions.SessionStore.FallbackVncSessionToRfb | backend/services/vncSessions.service.js:88-100 | as far as no statement fails: a session that has not ended is on RFB and pending, and its own agent gets one RFB bridge job, also if it has ended; an unknown session is no error |
| ScreenControl.RelayRunsAlone | backend/ws/vncRelay.js:125-213 | inside the whole system the relay runs as it does alone, so its theorems hold there |
| ScreenUpdates.RowsAreWhatLanded | backend/repositories/vncSessions.repo.js:32-58 | whatever is in flight or fails, the rows are the outcome of the updates that have landed, so the row theorems hold in every run |
| ScreenUpdates.StatementsAreConserved | backend/services/vncSessions.service.js:37-100 | every statement issued has landed, failed or is in flight, and only one of these |
| ScreenUpdates.UpdatesAreAskedFor | backend/ws/vncRelay.js:68-186 | in every run each update of a session is issued exactly as often as it is asked for: activation when its own agent connects, end on request or with its relay entry, fallback after a failed bridge job or a "failed" message |
| ScreenControl.SignalingIsSound | backend/ws/webrtcSignaling.js:53-79 | the signaling map keeps the relay's guarantees, also while the server itself posts |
| ScreenControl.SignalingHearsEverything | backend/ws/webrtcSignaling.js:184-233 | a current signaling socket has received every forwardable message and every announcement for its session, in order, and nothing else |
| ScreenUpdates.EndedForGood | backend/repositories/vncSessions.repo.js:40-58 | once the stored session has ended its row is final, whatever is attached, in flight or asked for |
| ScreenUpdates.EndingExactlyWhen | backend/ws/vncRelay.js:85-101 | a session has ended, or that update is on its way, if and only if not every end update issued for it failed |
| ScreenUpdates.FinalisedEntryEndsItsSession | backend/ws/vncRelay.js:68-102 | once a relay entry has been finalised, by either side or the timer, an end update has been issued; the session has ended or is about to if and only if not all of them failed |
| ScreenUpdates.FinalisedWithoutEnd | backend/ws/vncRelay.js:85-101 | a run in which the entry is finalised and its session is neither ended nor about to be |
| ScreenUpdates.EndedOnlyWhenAsked | backend/ws/vncRelay.js:85-86 | nothing but an end request or a finalised relay entry ends a session |
| ScreenFallback.ToldMeansSettled | backend/ws/webrtcSignaling.js:165-193 | behind every viewer that was told to fall back, other than by its agent's own text, there is an update of its session that has landed or failed |
| ScreenFallback.EveryNoticeHasItsUpdate | backend/ws/webrtcSignaling.js:184-193 | the announcements of a session, made, due or waiting for the job, are as many as its finished fallback updates; so each has a stored fallback behind it if and only if no update failed |
| ScreenFallback.RunHasUnbackedNoticeExactlyWhen | backend/ws/webrtcSignaling.js:184-193 | a run has such a viewer if and only if an announcement reaches one after the session's update failed and before any landed |
| ScreenFallback.NoticeWithoutAStoredFallback | backend/ws/webrtcSignaling.js:184-193 | a run in which the viewer is told while its session is still a WebRTC one |
| ScreenFallback.FallbackHasItsBridgeExactlyWhen | backend/services/vncSessions.service.js:88-100 | the fallback bridges of a session, those in flight and those that failed are as many as its stored fallbacks; so each has its bridge or will if and only if no INSERT failed |
| ScreenFallback.StoredFallbackMovesTheRow | backend/repositories/vncSessions.repo.js:50-58 | once a fallback is stored its session is on RFB or over |
| ScreenFallback.FallbackWithoutItsBridge | backend/services/vncSessions.service.js:92-98 | a run in which the session is on RFB, the viewer is told to dial, and no RFB bridge has been or will be started |
| WebrtcSignaling.FallbackIsItsSteps | backend/ws/webrtcSignaling.js:184-233 | in any run, the steps of a "failed" message that nothing interrupts leave exactly what the source's handler leaves, whichever statement fails |
| WebrtcSignaling.ForwardingIsOneStep | backend/ws/webrtcSignaling.js:195-233 | any other message is one step that leaves what the handler leaves |
| WebrtcSignaling.Signaling.TriggerFallback | backend/ws/webrtcSignaling.js:184-193 | row and job as far as no statement fails, then in any case "fallback" to the viewer and "stop" to the agent |
| WebrtcSignaling.Signaling.HandleAgentMessage | backend/ws/webrtcSignaling.js:195-213 | "failed" falls back; other JSON changes nothing but the viewer's open socket, which receives it as it came; anything else changes nothing |
| WebrtcSignaling.Signaling.HandleViewerMessage | backend/ws/webrtcSignaling.js:215-233 | "failed" falls back; anything else changes nothing but the agent's open socket, which receives it as it came |
| Regression.LinearRegressionSlope | backend/utils/trendAnalysis.js:9-22 | the loop computes covariance over spread, and 0 when there is no spread |
| Regression.LeastSquares | backend/utils/trendAnalysis.js:7-22 | the slope, with the line through the mean point, minimises the sum of squared residuals over all lines |
| Regression.LeastSquaresIsUnique | backend/utils/trendAnalysis.js:7-22 | unless all times are equal, no other line is as good |
| Regression.ExactOnALine | backend/utils/trendAnalysis.js:9-22 | on points of one line the slope is that line's |
| Regression.RisingSlope | backend/utils/trendAnalysis.js:9-22 | on data that never falls over time the slope is never negative |
| Trend.ReadingsInOrder | backend/utils/trendAnalysis.js:24-30 | the rows are in time order, each as often as it was |
| Sorting.SortIsStable | backend/utils/trendAnalysis.js:24-30 | readings at the same time keep their order |
| Trend.OrderDoesNotMatter | backend/utils/trendAnalysis.js:24-66 | the projection is the same for every order of rows with distinct times |
| Trend.ProjectionIsActionable | backend/utils/trendAnalysis.js:36-66 | a projection starts from the latest value, below the threshold, with a positive slope and a whole number of days between 0 and the horizon, over which the trend makes up the gap to within half a day's growth |
| Trend.ProjectsExactlyWhen | backend/utils/trendAnalysis.js:36-66 | there is a projection exactly then, over the points in days since the first reading, with the latest value, the slope and the rounded days |
| Trend.ComputeThresholdProjection | backend/utils/trendAnalysis.js:36-66 | the early returns and the loop's slope give that projection or none; there is one exactly for enough readings with a value, the latest below the threshold, a rising slope, and the threshold reached within the horizon |
| Domains.FastMatchIsSuffixMatch | backend/repositories/dnsLogs.repo.js:21-30 | the six-way EXISTS holds if and only if a flagged domain equals the queried one, or has two to six labels and the queried one ends in a dot and it |
| Domains.FastMatchMissesExactly | backend/repositories/dnsLogs.repo.js:4-30 | it differs from "equal to or below a flagged domain" exactly when every flagged domain above has one label or more than six |
| Domains.EveryTailIsFound | backend/repositories/dnsLogs.repo.js:24-28 | whatever follows a dot is what SUBSTRING_INDEX returns for its number of labels |
| Domains.TopLevelIsMissed | backend/repositories/dnsLogs.repo.js:21-30 | a flagged bare top-level name does not match the domains below it |
| DnsLogs.UpsertAggregates | backend/repositories/dnsLogs.repo.js:39-68 | for every key: earliest first sighting, latest last sighting and the sum of counts of what was stored and what came, and no key from nowhere |
| DnsLogs.BatchOrderDoesNotMatter | backend/repositories/dnsLogs.repo.js:39-68 | batches with the same rows, in whatever order, leave the same table |
| DnsLogs.ResendIsIdleExactlyWhenEmpty | backend/repositories/dnsLogs.repo.js:32-38 | sending a batch again changes nothing if and only if it adds to no key's count |
| DnsLogs.ResentBatchIsCountedTwice | backend/repositories/dnsLogs.repo.js:32-68 | a batch of three queries, sent twice, is stored as six |
| DnsLogs.SeedingOnlyAdds | backend/repositories/dnsLogs.repo.js:203-224 | seeding never overwrites or removes, and adds exactly the listed domains, with the reason of the first row |
| DnsLogs.InsertIgnoreConcat | backend/repositories/dnsLogs.repo.js:214-222 | inserting in pieces is inserting at once |
| DnsLogs.DnsTables.BulkInsertFlaggedDomains | backend/repositories/dnsLogs.repo.js:210-224 | the chunk loop's result is that of one statement, and the count is the growth of the table |
| Ports.ParsePorts | backend/services/ipAddresses.service.js:57-92 | never empty, strictly ascending, within 1..65535, and exactly the ports asked for, or all if none is |
| Ports.AddSegment | backend/services/ipAddresses.service.js:64-84 | a segment adds exactly the ports it names: a clamped range in either direction, or one valid port |
| PortScan.EveryRunIsSound | backend/services/ipAddresses.service.js:198-220 | for every order of completion: at most the allowed number of probes, exactly that many while ports wait, every port waiting, probed or answered exactly once, and resolved if and only if all have left |
| PortScan.ResolvesAfterEveryProbe | backend/services/ipAddresses.service.js:203-220 | some probe is always running until the scan resolves, which is after exactly two events per port |
| PortScan.ResolvedIsComplete | backend/services/ipAddresses.service.js:203-229 | at the end there is one result per port |
| PortScan.AnswerIsTheOpenPorts | backend/services/ipAddresses.service.js:198-230 | the answer is the open ports of the list in ascending order, whatever the concurrency and the order of completion |
| PortScan.NoRoomNeverResolves | backend/services/ipAddresses.service.js:203-208 | with no room for a probe a scan never starts and never resolves |
| PortScan.Scanner.DoKick | backend/services/ipAddresses.service.js:204-219 | the loop starts probes until the pool is full or the queue empty, and resolves only when both are done |
| PingHistory.HistoryAlternatesExactlyWhen | backend/utils/pingService.js:36-162 | over any ticks, failed or not: an entry's history alternates if and only if an even number of its changes is lost between any two recorded ones, and its newest row is its status if and only if an even number is lost since |
| PingHistory.RunIsConsistentExactlyWhen | backend/utils/pingService.js:36-162 | the entry is consistent, time of last change included, if and only if besides no lost change since was stamped |
| PingHistory.RunsStayConsistent | backend/utils/pingService.js:36-162 | over ticks without failures every entry's history alternates, and its newest row is the entry's status and time of last change |
| PingHistory.FailedTickBreaksExactlyWhen | backend/utils/pingService.js:103-149 | a tick that fails after the status update breaks that for an entry if and only if its status changed and it has history |
| PingHistory.LostChangeBreaksTheHistory | backend/utils/pingService.js:103-149 | an entry whose change to offline is lost contradicts its newest row, and then has two online rows in a row |
| PingHistory.OneRowPerChange | backend/utils/pingService.js:91-101 | a tick writes one history row per changed entry and none for the others |
| PingHistory.UptimeIsGaplessExactlyWhen | backend/services/ipStatusHistory.service.js:8-45 | over any ticks: if an even number of changes is lost between any two recorded ones, each period for any limit ends where the next begins and has the other status, and only then if all rows are read; the open period has the current status if and only if there is no row or an even number is lost since |
| PingHistory.NoRowsOnePeriod | backend/services/ipStatusHistory.service.js:8-21 | without history there is one open period of the current status since the last change, or none if there was no change |
| PingHistory.PeriodAt | backend/services/ipStatusHistory.service.js:23-33 | the i-th newest period runs from the i-th newest change to the one after it |
| PingHistory.PingService.DoTick | backend/utils/pingService.js:36-162 | select, probe, compare, update all, stamp and record the changed ones, as far as the tick gets |
| Semver.CompareMeans | backend/utils/semver.js:1-16 | 0 if and only if the zero-padded lists are equal, otherwise the difference at the first place where they are not |
| Semver.ComponentsMean | backend/utils/semver.js:1-7 | the components are the integers that the parts between the dots begin with, 0 where there is none |
| Semver.EmptyVersionIsZero | backend/utils/semver.js:2-7 | an empty version is 0 |
| Semver.VersionsAreOrdered | backend/utils/semver.js:1-16 | a total preorder: reflexive, antisymmetric, transitive, also strictly |
| Semver.CompareVersions | backend/utils/semver.js:1-16 | the index loop computes that comparison |
| Releases.OfferIsMaximal | backend/services/agentReleases.service.js:171-201 | what is offered is active, targeted, of the right runtime, strictly newer, and no such release is newer still |
| Releases.NothingOfferedExactlyWhen | backend/services/agentReleases.service.js:171-201 | nothing is offered if and only if no active targeted release is strictly newer |
| Releases.OfferCanBeDownloaded | backend/services/agentReleases.service.js:256-280 | every offer passes the download's check in the same state, also for an agent without groups |
| Releases.DownloadsExactlyWhen | backend/services/agentReleases.service.js:256-280 | a download succeeds exactly for the stored, active release of that id that is aimed at the agent or was forced on it |
| Releases.OneUpdateIsEnough | backend/services/agentReleases.service.js:320-334 | after the offer is reported as installed nothing more is offered |
| Releases.RoundMeans | backend/services/agentReleases.service.js:320-334 | a round whose offer is installed leaves the agent with the offered version, any other leaves it as it was |
| Releases.UpdatesNeverGoBack | backend/services/agentReleases.service.js:171-201 | however releases change between checks, updates never lower an agent's version |
| Releases.BestIsMaximal | backend/services/agentReleases.service.js:183-186 | the scan keeps a candidate that none beats, the latest upload among equals |
| Releases.CandidatesConcat | backend/repositories/agentReleases.repo.js:120-197 | the candidates keep the order of the releases |
| Releases.CheckForUpdateService | backend/services/agentReleases.service.js:171-201 | the scan offers nothing exactly if no active release aimed at one of the agent's groups, or at "rest" if it has none, and built for its tier is newer than what the agent reports, 0.0.0 if nothing; what it offers is such a release, and none is newer still |
| Ipv4.NumberRoundTrip | backend/utils/ip.js:13-27 | every 32-bit number survives the way to text and back |
| Ipv4.QuadRoundTrip | backend/utils/ip.js:13-27 | every canonical quad survives the way to a number and back |
| Ipv4Texts.AddressExactlyWhen | backend/utils/ip.js:4-27 | a text is an address exactly if, up to white space around it, it is four numerals up to 255 with dots between them, and then it stands for the number with these octets |
| Ipv4.ReduceFour | backend/utils/ip.js:24-26 | the reduction has the positional value of the octets although the shift is signed |
| Ipv4.ShiftStaysCongruent | backend/utils/ip.js:24-26 | each signed shift is right modulo 2^32 |
| Ipv4.OrderIsOctetOrder | backend/utils/ip.js:17-27 | numeric order is octet order |
| Ipv4.SiteRange | backend/services/ipAddresses.service.js:31-38 | the two sites have 510 and 2046 usable addresses |
| Ipv4.FreeIn | backend/services/ipAddresses.service.js:309-312 | the loop lists exactly the unoccupied addresses of the range, ascending, and their number and the occupied ones make up the range |
| Ipv4.FreeIpAddressesService | backend/services/ipAddresses.service.js:297-320 | an unknown site is an error; otherwise that list, with freeIps.length + occupiedCount = total |
| RequestMetrics.Metrics.PruneOld | backend/utils/requestMetrics.js:14-19 | what is retained is exactly the part of the whole log inside the window |
| RequestMetrics.Metrics.RecordRequest | backend/utils/requestMetrics.js:9-12 | the request joins the log, and what is retained is still exactly the window |
| RequestMetrics.Metrics.GetLiveRequestStats | backend/utils/requestMetrics.js:31-76 | for every window up to 5 minutes all figures are those of the whole log: requests per minute, their mean duration, the share of failed ones in percent to one decimal, the percentiles of the last five minutes, and the top routes |
| RequestMetrics.TopRoutesAreTheBusiest | backend/utils/requestMetrics.js:57-66 | the listed routes have their own requests' figures, each once, at most fifteen, busiest first, and no route left out is busier than one listed |
| RequestMetrics.AggregateByRoute | backend/utils/requestMetrics.js:48-56 | the loop gives every route the count, time and errors of its own requests |
| RequestMetrics.PerRouteAddsUp | backend/utils/requestMetrics.js:48-56 | the per-route counts add up to the requests of the window |
| RequestMetrics.PercentilesRise | backend/utils/requestMetrics.js:21-46 | p95 <= p99, and so for any two percentages |
| RequestMetrics.RankCoversItsShare | backend/utils/requestMetrics.js:21-25 | at least p percent of the retained requests took no longer than the value at the rank of p |
| RequestMetrics.StatsAreSane | backend/utils/requestMetrics.js:68-75 | the error rate is between 0 and 100, and the average between the shortest and the longest duration |
| RequestMetrics.StatsAreFigures | backend/utils/requestMetrics.js:31-76 | each figure is that of its requests, rounded to the nearest |
| Strings.SplitOfJoin | backend/utils/ip.js:6-24 | splitting what was joined gives the pieces back |
| Strings.JoinOfSplit | backend/utils/ip.js:6-24 | and joining what was split gives the text back, with no separator in a piece |
| Strings.TrimStrips | backend/utils/strings.js:1-5 | trim removes the white space at both ends, all of it and nothing else |
| Strings.SpaceMeans | backend/utils/strings.js:1-5 | white space is the characters 9 to 13, 32, 160 and 65279 |
| Strings.StrippedIsUnique | backend/utils/strings.js:1-5 | there is only one way to do that |
| Strings.ParseIntMeans | backend/utils/semver.js:1-7 | parseInt gives the value of the digits after white space and a sign, and NaN exactly if there are none |
| Strings.NumberOfDecimal | backend/utils/ip.js:13-25 | a number's numeral has its value and no leading zero |

## Left out

- JobProtocol: `submitJobResultService` is two steps there, its guards and its guarded UPDATE; the final read of the row is part of the second.
- JobProtocol: executing a command and sending its result are one step, and a result may then arrive late, never, or any number of times.
- AgentScheduler: which exception an activity throws; that it throws is part of the iteration.
- Starvation.ThrowersStarveExactlyWhen: several activities whose faults come back after a completed run; for one such activity `Starvation.ThrowingStarvesExactlyWhen` covers that too.
- DirectorySync: file attributes, links and the order in which the operating system lists a directory; paths are limited in length, as on Windows, which is why copying a directory into itself ends.
- DirectorySync.FileSystem.CopyDirectoryRecursive: of a source inside its own target that exists it promises only what stays unchanged, because earlier copies may overwrite the source.
- ManagerInstall: killing processes and unloading the WinDivert driver, which only ever log; reporting the result to the server.
- MetadataStore: two patches of one computer at the same time; each service call runs to its end.
- Metadata: lower-case and alias keys of a body, JSON booleans and nested objects as scalars, and MySQL's own conversions; date parsing is a parameter.
- ScreenControl: a statement lands or fails as a whole, and a lookup is part of the statement it comes before; the audit log of signaling messages and the activity log.
- ScreenControl: authentication; a connection carries the agent it was authenticated as, or whether its token was valid.
- ScreenControl: a signaling message from an agent that is the JSON text null makes the handler throw; it is modelled as not forwarded.
- VncSessions: the columns started_at and ended_at, and the shared password that is returned with a new session.
- VncRelay: binary and text frames are not distinguished, and buffers are not limited.
- Regression: floating-point rounding; all arithmetic is over reals.
- Trend: parsing of `recordedAt`; a row carries its instant.
- Domains: collations; domains are compared as exact strings.
- PortScan: what a probe does; its verdict is part of the event. The check that the address is private is not modelled.
- PingHistory: changes to the entries by administrators between ticks, and two history rows of one entry with the same time.
- PingHistory: the schedule of ticks and the limit on concurrent pings.
- Semver: version components beyond the 53 bits of a double.
- Releases: upload, signing, package files on disk, and the age limit of a force-reinstall job, which appears as a flag.
- Ipv4: `isPrivateIPv4`, a single regular expression.
- The manager's own job tables and services, which repeat the agent job protocol.
- Express routing, validation of request bodies, sessions of the web interface, and all reporting, export and analytics queries.
- Real sockets, TLS, WMI, the registry and screen capture; their outcomes are parameters or arbitrary choices.
