# Verified models of the Lite agent's state machines

The Lite agent is a node agent written in Go. Most of it talks to the operating system and to a server. This
project models the parts that carry state across many calls, restarts or messages, and proves what they keep over
every run, every arrival order and every date.

| Part | Modules | Source |
|---|---|---|
| Traffic accounting with a monthly reset | `Calendar`, `Traffic`, `NetStatic` | `utils/utils.go`, `monitoring/netstatic/static.go` |
| Reassembly of uploads | `Upload`, `UploadOrder`, `FileManager` | `terminal/file_manager.go` |
| Crash-safe task log and result reporting | `TaskLog`, `TaskLogFile`, `TaskServer`, `RecoveryPool` | `tasklog/tasklog.go`, `server/task.go` |
| Leases, cancellation and revocation | `McpLeases`, `McpRegistry` | `server/mcp.go` |
| Configuration revisions, event window, acknowledgements | `Text`, `RuntimeConfig`, `ConfigDelivery`, `EventWindow`, `AckList` | `server/runtime_config.go`, `server/runtime_config_delivery.go`, `server/websocket.go` |
| Disk totals, version order, file frames | `DiskDevice`, `Versions`, `FileFrame` | `monitoring/unit/disk.go`, `update/update.go`, `terminal/file_frame.go` |

## How the models are built

Each part has a specification on values: functions where the code is deterministic, relations where it is not (map
iteration order, failing saves, failing posts, threads that interleave between critical sections). The imperative
code is a class or a method with loops whose contract ties it to that specification, and the theorems are proved
about the specification: an invariant of one step, then a statement about whole runs.

- **Traffic.** A network interface (NIC) is accounted for on its own. `Traffic` compares coarse buckets plus cache
  with the plain log of sampled deltas; `NetStatic.NetStatic` keeps every NIC of the package in step with it and
  its query returns the sum of the log since the last reset. Sums are unsigned and wrap at 2^64, so no assumption
  about overflow is needed.
- **Uploads.** `Upload.Run` is any sequence of chunks and one or more closings, with any pattern of failing writes.
  Chunks are told apart by tokens, so that "answered exactly once" can be said.
- **Task log.** Memory and disk are two maps. A step carries the choices that map order makes. Crashes with a
  reopening, failing saves and uploads are events of the run.
- **Leases.** Every critical section of the mutex is one step; cancel functions that were collected are in flight
  until they are called; a watcher reads, unlocks and only then compares.
- **Delivery.** `ConfigDelivery` splits the processing of a configuration into its separate stores, between which
  uploads snapshot, post and clear. `EventWindow` and `AckList` take the operations of all loops in the order in
  which they get the mutex.

## What the proofs found

Properties that do not hold of the code as it stands are stated with their exact condition, and the input that breaks
them is given beside it.

- A flush keeps the traffic of a reset that is current or still to come if and only if it is stamped at or after that
  reset or its samples hold nothing from it on (`Traffic.FlushKeepsEveryReset`). The save ticker can lie behind a
  sample, so the traffic since the last reset is exact if and only if nothing was flushed late for it
  (`Traffic.TrafficSinceReset`; input: `Traffic.LateSampleCrossesReset`). An older reset keeps its traffic exactly when
  the cache held nothing from before it (`Traffic.FlushMovesOlderTraffic`).
- While the clock is below the preserved span a purge drops everything (`Traffic.EarlyPurgeDropsAll`). In January 1970
  the query since a reset of 1969 reports nothing (`Traffic.EarlyResetReportsNothing`).
- The size check of an upload chunk is the real comparison exactly when the end of the chunk fits 64 bits; a chunk
  at a huge offset is parked although it can never be written (`Upload.SizeCheckExactly`,
  `Upload.OverflowingChunkIsParked`). The session invariant holds all the same.
- A saved `Finish` leaves the log above its capacity exactly when the protected entries, with the new one, exceed it
  (`TaskLog.FinishExceedsCapacityExactly`; input: `TaskLog.FinishCanExceedCapacity`); `Begin` turns an unknown task away
  exactly when protected entries fill the log (`TaskLog.LogFullExactly`). Both hold as long as no droppable entry without
  an id confuses the search for a victim.
- A saved result is pending if and only if its entry had not been acknowledged before, because the entry keeps that mark:
  a result saved over an acknowledged entry is not reported again when its one upload fails
  (`TaskLog.SavedResultIsPendingExactly`).
- The empty task id, which no caller in the repository passes, is the one id without crash safety: loading skips it
  (`TaskLog.EmptyIdCanStartTwice`), and an acknowledged entry under it can stop the search for a victim early
  (`TaskLogFile.OldestDroppable`).
- A watcher expires a lease whose deadline lies ahead exactly when, after it looked, the lease was given a deadline past
  the clock it compared with, or was dropped and brought back without any deadline
  (`McpLeases.EarlyExpiryExactly`; input: `McpLeases.RenewedLeaseCanExpire`).
- Revoking a lease again can shorten how long it is remembered (`McpLeases.RevokingAgainShortensExactly`), and
  registering a registered task keeps the tables in step exactly when no other lease holds its run
  (`McpLeases.ReplacingKeepsIndexExactly`).
- A failed configuration leaves the settings alone but can move the reset clock of network accounting
  (`RuntimeConfig.FailedApplyKeepsClockExactly`; input: `RuntimeConfig.FailedApplyMovesClock`). The next report repairs the
  clock if and only if a reset day is in force (`RuntimeConfig.ReportRepairsFailureExactly`);
  `ConfigDelivery.ClockDriftsExactly` says over any run when clock and settings are out of step.
- A refused event is marked and forgotten again. A full window has then lost its oldest id
  (`EventWindow.ForgetUndoesMarkExactly`). Some refused events are not forgotten, so their redelivery is acknowledged
  although nothing was done (`EventWindow.RefusedEventIsRetriedExactly`): an unversioned configuration that could not be
  applied is one of them. When a duplicate arrives after the first delivery was answered, the request of that delivery
  decides whether the event was really accepted (`EventWindow.DuplicateIsAcceptedExactly`). A duplicate that arrives
  before is acknowledged although the first delivery may still be refused (`EventWindow.GapIsUndecided`; input:
  `EventWindow.DuplicateInTheGap`).
- An id that is added for acknowledgement again while a post that confirmed it waits for its clear is swept by that clear
  (`AckList.EveryAckIsHeld`; input: `AckList.ReaddedIdIsSwept`).
- Legacy tags reorder the 2.1 line, which the comment on `compareVersions` says; the exact extent includes ties
  such as 2.1.70 with 2.1.7 (`Versions.ThreePartIsSemVerExactly`).

## Model

| member | source | states |
|---|---|---|
| Calendar.ActualResetIsScheduled | utils/utils.go:80-88 | The computed instant is the configured day of that month, or its last day when the month is shorter, for any month number, across year ends and leap days. |
| Calendar.LastResetIsGreatest | utils/utils.go:19-40 | The last reset instant is a scheduled reset at or before the given instant, and no scheduled reset lies between the two. |
| Calendar.LastResetIsMonotone | utils/utils.go:19-40 | Time only moves the last reset forward. |
| Calendar.LastResetReads | utils/utils.go:19-40 | Read in the zone of its rule the last reset shows the configured time of day, midnight when the clock is out of range, on the configured day, or on the last day of a month that is too short. |
| Calendar.ClockFields | utils/utils.go:42-66 | The second of the day splits back into the three numbers of a clock in range; any other clock means midnight. |
| Calendar.ZonesShiftResets | utils/utils.go:19-40 | A zone shifts the resets by its offset, an eastern one to earlier instants. |
| Calendar.CivilMonths | utils/utils.go:80-88 | The months have their civil lengths, February by the rule of 4, 100 and 400 years. |
| Calendar.KnownMonths | utils/utils.go:80-88 | Four months begin where history puts them, among them those around 28 February 1900 and 29 February 2000. |
| Calendar.GregorianCycle | utils/utils.go:80-88 | The calendar repeats after 146097 days. |
| Calendar.ResetsAreSpaced | utils/utils.go:80-88 | Resets of consecutive months are 28 to 31 days apart, whatever the clamping. |
| Calendar.PreservationIsTight | monitoring/netstatic/static.go:198-216 | Keeping records for a span reaches back to the last reset for every rule and instant if and only if the span is at least 31 days less one second; the default of 31 days is enough. |
| Traffic.FlushKeepsEveryReset | monitoring/netstatic/static.go:255-320 | For any samples: a flush keeps the traffic seen from a reset that is current or still to come if and only if it is stamped at or after the reset, or the samples hold nothing from the reset on. |
| Traffic.TimelyFlushKeepsEveryReset | monitoring/netstatic/static.go:255-320 | A flush that is not stamped before its samples moves no traffic across such a reset. |
| Traffic.FlushMovesOlderTraffic | monitoring/netstatic/static.go:285-320 | Seen from an older reset the flushed records agree with the samples if and only if no sampled traffic lies before that reset. |
| Traffic.LateSampleCrossesReset | monitoring/netstatic/static.go:351-360 | The input, for every rule and every reset after 1970: a byte sampled at the reset and flushed with a stamp one second earlier is in the log of the new cycle, and the query does not report it. |
| Traffic.LogTelescopes | monitoring/netstatic/static.go:218-253 | While a counter only grows, the logged deltas add up to its growth since the first reading. |
| Traffic.LogIsRises | monitoring/netstatic/static.go:218-253 | For any readings and from any instant on, the log adds up to the rises between consecutive readings taken from then on; a fall counts nothing. |
| Traffic.RestartIsNoTraffic | monitoring/netstatic/static.go:218-224 | Across a restart of the counters the log adds up to the growth before it and the growth after it. |
| Traffic.WindowIsDifference | monitoring/netstatic/static.go:503-541 | A query window is what lies from its start on without what lies after its end; a zero leaves a side open. |
| Traffic.KeepHas | monitoring/netstatic/static.go:202-209 | A record survives the filter if and only if it is stamped at or after the cutoff. |
| Traffic.UnscheduledFlush | monitoring/netstatic/static.go:269-332 | Without a reset day a flush makes one record of all samples, stamped with the flush. |
| Traffic.RunStamps | monitoring/netstatic/static.go:226-320 | When nothing is stamped after now, no stored or cached stamp lies after it, and the remembered counters and the cache are those of the reference. |
| Traffic.TimelyIsNotLate | monitoring/netstatic/static.go:255-267 | Flushes that are not stamped before an earlier sample are late for no reset. |
| Traffic.RunAgreesWithLog | monitoring/netstatic/static.go:198-332 | After any run of samples, flushes and purges, buckets plus cache agree with the plain log from a reset that is current or still to come if and only if no traffic was flushed late for it. |
| Traffic.TrafficSinceReset | monitoring/netstatic/static.go:503-541 | The traffic queried since the last reset is the traffic of the plain log since that reset if and only if nothing was flushed late for it, however often it was flushed and purged. |
| Traffic.RecentClocksQualify | utils/utils.go:19-40 | From the end of January 1970 on, the last reset is not before 1970, for every rule. |
| Traffic.EarlyResetReportsNothing | monitoring/netstatic/static.go:503-541 | A last reset before 1970 wraps to a start in the future, and the query reports nothing. |
| Traffic.EarlyPurgeDropsAll | monitoring/netstatic/static.go:198-216 | Before the clock has passed the preserved span, the cutoff wraps and a purge drops every record. |
| NetStatic.AggregateByReset | monitoring/netstatic/static.go:285-320 | One pass over the samples yields at most two records: the traffic before the boundary, stamped before it, and the rest. |
| NetStatic.SumTraffic | monitoring/netstatic/static.go:322-332 | Without a boundary the samples become one record with their sums, or none when both are zero. |
| NetStatic.KeepFrom | monitoring/netstatic/static.go:202-209 | The purge filter keeps exactly the records stamped at or after the cutoff, in order. |
| NetStatic.AddTotals | monitoring/netstatic/static.go:516-539 | A summing loop adds the range total of every NIC to what was reported before, in any map order. |
| NetStatic.EventsAreTimed | monitoring/netstatic/static.go:226-267 | Operations stamped by now give every NIC events stamped by now. |
| NetStatic.ReadingsConcat | monitoring/netstatic/static.go:226-253 | The readings of a NIC are taken one by one, in their order. |
| NetStatic.OneReading | monitoring/netstatic/static.go:99-109 | A reading counts for a NIC if it is its own and the configured list is empty or names the NIC. |
| NetStatic.UnlistedIsNeverSampled | monitoring/netstatic/static.go:99-109 | A NIC that a non-empty list leaves out is never sampled in any run. |
| NetStatic.PassesAreTimely | monitoring/netstatic/static.go:335-366 | When no flush is stamped before an earlier sampling pass, no NIC has a late flush. |
| NetStatic.NetStatic.SampleOnce | monitoring/netstatic/static.go:226-253 | A sampling pass steps every allowed NIC by its readings in order and leaves the others alone. |
| NetStatic.NetStatic.FlushCache | monitoring/netstatic/static.go:255-267 | A flush appends the aggregate of every NIC's cache to its records and empties the cache. |
| NetStatic.NetStatic.PurgeExpired | monitoring/netstatic/static.go:198-216 | A purge keeps of every NIC the records from the cutoff on. |
| NetStatic.NetStatic.GetTotalTrafficBetween | monitoring/netstatic/static.go:503-541 | The query reports, for every NIC, records and cache summed over the range; absent NICs are zero. |
| NetStatic.NetStatic.TotalSinceReset | monitoring/unit/net.go:234-240 | The monthly total of every NIC equals its plain sample log since the last reset if and only if nothing was flushed late for it; operations in order are never late. |
| Upload.AcceptKeeps | terminal/file_manager.go:1208-1261 | Every chunk keeps the file as long as `received`, equal to the hashed bytes and within the declared size; `received` is never a parked offset; the file only grows, and not once it is closed. |
| Upload.AcceptRefuses | terminal/file_manager.go:1187-1225 | Each refusal with its error, in the order of the checks: empty, over 1 MiB, behind the file, past the declared size. A chunk without an offset stands where the file ends. |
| Upload.AcceptTakes | terminal/file_manager.go:1226-1252 | A chunk that fits is parked, unless its place is taken or eight are parked, or it continues the file, unless the write fails or the file is closed. |
| Upload.DrainSays | terminal/file_manager.go:1239-1250 | Every answer of the drain loop is true of a parked chunk: the file holds it up to the reported length, or its write failed, which only the last answer can say. |
| Upload.AcceptSays | terminal/file_manager.go:1208-1252 | The same for a whole call, whose first answer is about its own chunk. |
| Upload.SizeCheckExactly | terminal/file_manager.go:1216-1222 | The size check decides the real comparison if and only if the end of the chunk does not overflow. |
| Upload.OverflowingChunkIsParked | terminal/file_manager.go:1216-1232 | A chunk at the largest offset is parked in a session that expects one byte. |
| Upload.DrainAnswers | terminal/file_manager.go:1239-1250 | Draining answers exactly the parked chunks it removes, each once. |
| Upload.AcceptAnswers | terminal/file_manager.go:1208-1252 | One call answers only its own chunk and parked ones, each once, and a chunk is answered or parked but never both. |
| Upload.UploadSafety | terminal/file_manager.go:1179-1261 | In every reachable session the invariant holds and every chunk ever submitted is answered exactly once or still parked. |
| Upload.ClosedFileIsFinal | terminal/file_manager.go:1263-1322 | After the file is closed no racing chunk changes it. |
| UploadOrder.DeliveryPrefix | terminal/file_manager.go:1208-1252 | Until the window first overflows the session holds exactly what was delivered; from then on some answer is an error. |
| UploadOrder.OrderIndependence | terminal/file_manager.go:1208-1252 | For any cut and any order of delivery, all answers are successes if and only if never more than 8 chunks wait, and then the file is whole, nothing is parked and every chunk has one answer. |
| FileManager.UploadState.AcceptChunk | terminal/file_manager.go:1187-1252 | The loop that writes and drains computes the specified session and answers. |
| FileManager.AccountsWithout | terminal/file_manager.go:1086-1105 | Forgetting a session lowers the exact counters by one session and its bytes, and neither goes below zero. |
| FileManager.EqualFoldByCharacter | terminal/file_manager.go:1284 | Two texts are equal up to case if and only if they are equally long and each character is the same or the other case of the same letter. |
| FileManager.FileManager.ForgetUpload | terminal/file_manager.go:1086-1105 | The clamps to zero never fire: the counters stay the number of sessions and the sum of their sizes. |
| FileManager.FileManager.StartUpload | terminal/file_manager.go:1107-1162 | A session starts exactly under the stated limits of 2 sessions and 2 GiB, empty and open; the counters stay exact, and a refusal names the first cause in the order of the checks. |
| FileManager.FileManager.UploadChunk | terminal/file_manager.go:1179-1206 | A chunk changes only its own session, as specified. |
| FileManager.FileManager.FinishUpload | terminal/file_manager.go:1263-1307 | Publication succeeds exactly when size, checksum and disk agree, where a checksum agrees character by character with the digest or has the capital of its letter; it publishes exactly the declared number of bytes, a failure names its cause, and the session is forgotten and closed either way. |
| FileManager.FileManager.CancelUpload | terminal/file_manager.go:1309-1322 | Cancelling forgets and closes one session and leaves the others alone. |
| FileManager.FileManager.Close | terminal/file_manager.go:150-173 | Closing drops every session, closes every file unchanged and clears the counters. |
| TaskLog.StepKeepsAgreement | tasklog/tasklog.go:58-159 | What is in memory is on disk up to a repeated acknowledgement whose save failed, and what only disk holds may be dropped; every call, failed save and restart keeps this. |
| TaskLog.StepKeepsTrack | tasklog/tasklog.go:58-159 | Until it has ended and been acknowledged, a begun entry stays in memory and on disk in the right state. |
| TaskLog.GoneMeansDone | tasklog/tasklog.go:90-159 | Once begun, an entry is missing from memory, or may be dropped, only after it ended and an acknowledgement of it was saved. |
| TaskLog.NeverStartedTwice | tasklog/tasklog.go:90-118 | Between two successful begins of one id in any run the entry of the first ended, an acknowledgement of it was saved, only after both was the entry missing from memory, and then by age or capacity. |
| TaskLog.EmptyIdCanStartTwice | tasklog/tasklog.go:210-215 | The input behind the one excluded id: loading skips the empty id, so it can begin twice without an acknowledgement. |
| TaskLog.NoResultIsLost | server/task.go:138-310 | A begun task stays in both copies, identical and unacknowledged, until an upload for it succeeds; once ended it is a pending report in both. |
| TaskLog.SavedResultIsPendingExactly | tasklog/tasklog.go:120-142 | A saved result, the first or a later one of its id, is pending if and only if its entry had not been acknowledged. |
| TaskLog.SavedResultIsHeld | tasklog/tasklog.go:120-186 | Such a result stays pending in memory and on disk with its exit code, its times and the first 256 bytes of its summary, through failed saves and restarts, until another result of the id or an acknowledgement is saved. |
| TaskLog.SomeResultIsHeld | tasklog/tasklog.go:120-186 | Some result of the id stays pending in both copies until an acknowledgement of the id is saved. |
| TaskLog.LeavesByAgeOrCapacity | tasklog/tasklog.go:264-298 | In every step an entry leaves memory only if it was acknowledged, or has no state the agent writes, and only because the time since it finished, or else started, exceeds the retention at a clock of the step, or the log exceeded its capacity. |
| TaskLog.OldestLeaveFirst | tasklog/tasklog.go:279-314 | What leaves without having aged started no later than anything droppable that stays. |
| TaskLog.SavedLogIsRecent | tasklog/tasklog.go:264-277 | After a saved call everything in the log is running, unreported, or within the retention. |
| TaskLog.BeginAnswers | tasklog/tasklog.go:90-110 | A begin is refused for what the log knows, and the answer tells the state of the task. |
| TaskLog.BeginWrites | tasklog/tasklog.go:111-118 | A begun task is in both copies as running since its begin, with nothing reported. |
| TaskLog.ReopenWrites | tasklog/tasklog.go:58-88 | A restart turns what was running into an interrupted entry with exit code -1 and leaves every other entry as it was. |
| TaskLog.DefaultLogRemembersForADay | tasklog/tasklog.go:17-20 | With the default limits a task that finished within a day is not begun again while the log holds at most 256 entries. |
| TaskLog.SavedLogIsBounded | tasklog/tasklog.go:219-288 | After every successful save the log fits its capacity or holds only protected entries, unless an acknowledged entry without an id confuses the search for a victim. |
| TaskLog.LogFullExactly | tasklog/tasklog.go:104-110 | An unknown task is turned away when protected entries alone fill the log, and only then unless a droppable entry without an id confuses the search for a victim. |
| TaskLog.FinishExceedsCapacityExactly | tasklog/tasklog.go:120-142 | A saved result leaves the log above its capacity when the protected entries, with this one, exceed it, and only then unless a droppable entry without an id confuses the search for a victim. |
| TaskLog.FinishCanExceedCapacity | tasklog/tasklog.go:120-142 | The input: a result for an unknown task is added to a log of protected entries. |
| TaskLogFile.OldestDroppable | tasklog/tasklog.go:300-314 | The victim is unprotected and started no later than any other; none is returned exactly when all are protected, unless an entry without an id may be dropped itself. |
| TaskLogFile.EvictDownTo | tasklog/tasklog.go:279-286 | Eviction ends, drops only unprotected entries and only as many as needed, each started no later than every droppable entry kept. |
| TaskLogFile.Log.PruneLocked | tasklog/tasklog.go:264-288 | Pruning drops what has aged and then evicts, and reports whether anything changed. |
| TaskLogFile.Log.Begin | tasklog/tasklog.go:90-118 | One begin step of the run, with the outcome and the existing entry it returns. |
| TaskLogFile.Log.Finish | tasklog/tasklog.go:120-142 | One finish step; a failed save restores the previous entry. |
| TaskLogFile.Log.Ack | tasklog/tasklog.go:144-159 | One acknowledgement step; a failed save takes the mark back. |
| TaskLogFile.Log.PendingReports | tasklog/tasklog.go:173-186 | Exactly the finished or interrupted entries that are not acknowledged. |
| TaskLogFile.OpenWrites | tasklog/tasklog.go:68-86 | Opening has nothing to write exactly when nothing aged, nothing was running and the log fits or is all protected. |
| TaskLogFile.Log.Open | tasklog/tasklog.go:58-88 | One restart step: an entry without an id is skipped, aged entries go, running ones become interrupted; it fails exactly when there is something to write and the save fails. |
| TaskServer.PendingUntilUploaded | server/task.go:138-310 | Of a live log: an unreported result is pending in memory and on disk. |
| TaskServer.Report | server/task.go:174-179 | Acknowledgement follows only a successful upload. |
| TaskServer.AcceptTask | server/task.go:196-248 | A task may run exactly if this call began it; a refused begin with an unreported result is followed by one upload that says what the entry says and, if that succeeds, an acknowledgement; the event is acknowledged unless the log is full or was not saved. |
| TaskServer.FinishTask | server/task.go:276-310 | Up to five attempts to persist this result and exit code, then one upload of both in any case, then an acknowledgement only after both succeeded. |
| TaskServer.RecoverPendingReports | server/task.go:138-194 | With one worker: every result pending at the start gets an upload attempt that says what its entry says, in any order, and exactly the uploads of this pass that succeed are acknowledged, each right after its own. |
| RecoveryPool.StepKeepsPlaces | server/task.go:138-194 | Every result of a pass is in exactly one place: queued, with one worker, reported, or dropped by a cancellation. |
| RecoveryPool.WorkersReportOnce | server/task.go:138-194 | With any number of workers, any interleaving and a cancellation at any time: the reporting discipline holds, no result is uploaded twice by the pass, and in the end each was uploaded once or dropped by the cancellation. |
| RecoveryPool.ArrivedIsAcknowledged | server/task.go:138-194 | A result that arrived is acknowledged by the worker that sent it before that worker does anything else. |
| RecoveryPool.AckingHasArrived | server/task.go:138-194 | A worker acknowledges only a result that it has sent with success. |
| RecoveryPool.CancelledStartsNoUpload | server/task.go:138-194 | After a cancellation only the uploads under way at that moment are made. |
| McpLeases.StepKeepsInv | server/mcp.go:227-387 | Runs and leases index each other exactly, expired runs have their cancel function called or in flight, and every lease has a watcher, under any interleaving in which no task id is registered while another lease holds a run of it. |
| McpLeases.RegisterExactly | server/mcp.go:293-319 | A run is turned away, and its cancel function taken, if and only if its lease or its task is remembered past its clock; otherwise it is in both tables and the deadline of its lease only moves later. |
| McpLeases.RefusedRunIsCancelled | server/mcp.go:300-304 | Over any run: the cancel function of a run that is turned away is called or in flight from then on. |
| McpLeases.UnregisterExactly | server/mcp.go:321-332 | The run leaves both tables and nothing else changes. |
| McpLeases.ExpireExactly | server/mcp.go:368-387 | The lease goes, exactly its runs become expired, and exactly the cancel functions of those that were not yet expired are taken. |
| McpLeases.CancelMarkExactly | server/mcp.go:227-241 | A cancellation is remembered for thirty minutes, drops what has run out and takes the cancel function of its own run only. |
| McpLeases.RevokeMarkExactly | server/mcp.go:507-527 | A revocation is remembered for two hours or until the later deadline of the lease; what has run out goes, and of the rest only what would run out first, when 4096 others stay. |
| McpLeases.RenewExactly | server/mcp.go:243-263 | A renewal changes the deadline of its lease alone, only to a later one, and not while the lease is remembered as revoked. |
| McpLeases.WatchLookExactly | server/mcp.go:343-351 | A watcher ends, and its lease goes, exactly when nothing is left to watch. |
| McpLeases.WatchDecideExactly | server/mcp.go:352-366 | A watcher expires its lease exactly if the deadline it has read is not in the future. |
| McpLeases.AskExactly | server/mcp.go:542-556 | Asking forgets the answer exactly when it has run out. |
| McpLeases.ReplacingKeepsIndexExactly | server/mcp.go:305-317 | Registering a task keeps the tables indexing each other if and only if no other lease holds a run of that id. |
| McpLeases.RevokedLeaseStaysStopped | server/mcp.go:265-387 | After a lease expired, and while every registration finds it remembered, all its registered runs stay expired and cancelled and none is added. |
| McpLeases.CancelledTaskStaysStopped | server/mcp.go:227-241 | A cancelled operation stays stopped while every registration finds it remembered, whether it ran already or registers later. |
| McpLeases.CancellationIsRemembered | server/mcp.go:529-540 | A cancellation is remembered for thirty minutes through any run. |
| McpLeases.CancelledTaskIsStopped | server/mcp.go:227-241 | A cancelled operation is stopped for thirty minutes under any interleaving. |
| McpLeases.RevocationLasts | server/mcp.go:542-556 | A revocation survives every other step before it runs out. |
| McpLeases.RevocationOverflow | server/mcp.go:507-527 | A further revocation forgets it only in favour of 4096 others that last at least as long. |
| McpLeases.RevokingAgainShortensExactly | server/mcp.go:265-276 | A second revocation shortens the memory if and only if it lasts longer than two hours from now and the lease is no longer held with a deadline that late. |
| McpLeases.RevocationIsRemembered | server/mcp.go:265-279 | A revocation is remembered for two hours, or until the later deadline of the lease, if the leases remembered as long and the later revocations of others stay below 4096 together and it is not revoked again for a shorter time. |
| McpLeases.RevokedLeaseIsStopped | server/mcp.go:265-387 | A complete revocation stops every registered run of the lease for two hours, or until its later deadline, under any interleaving with the same exceptions. |
| McpLeases.DeadlineSince | server/mcp.go:243-263 | The deadline of a lease in terms of what registrations and renewals gave it since it is held. |
| McpLeases.EarlyExpiryExactly | server/mcp.go:341-387 | A watcher that expires a lease looked and compared before; the deadline lies ahead of the compared clock if and only if the lease was given one past that clock since the look, or was brought back after it and given none. |
| McpLeases.RenewedLeaseCanExpire | server/mcp.go:341-366 | The input: a run in which a renewed lease expires although its deadline lies ahead. |
| McpRegistry.Cap | server/mcp.go:516-526 | The eviction loop keeps the 4096 entries that last longest, ties in map order. |
| McpRegistry.McpRegistry.Register | server/mcp.go:293-319 | One register step; the run is admitted exactly if it has a task id and neither its lease nor its task is remembered, and the cancel function of a run that is turned away is taken. |
| McpRegistry.McpRegistry.Unregister | server/mcp.go:321-332 | One unregister step on both tables. |
| McpRegistry.McpRegistry.Renew | server/mcp.go:243-263 | One renew step: a deadline only moves later, and not for a revoked lease. |
| McpRegistry.McpRegistry.RevokeMark | server/mcp.go:270-276 | The first critical section of a revocation. |
| McpRegistry.McpRegistry.Expire | server/mcp.go:368-387 | One expire step; exactly the collected cancel functions become in flight. |
| McpRegistry.McpRegistry.CancelMark | server/mcp.go:232-235 | The critical section of a cancellation. |
| McpRegistry.McpRegistry.WatchLook | server/mcp.go:343-351 | One look of a watcher, which removes an empty lease and ends. |
| RuntimeConfig.FailedApplyKeepsClockExactly | server/runtime_config.go:130-152 | A failed request leaves the settings; it leaves the reset clock if and only if it was invalid or asked for the same clock. |
| RuntimeConfig.FailedApplyMovesClock | server/runtime_config.go:134-143 | A request that fails although it moves the reset clock. |
| RuntimeConfig.RequestsCombine | server/runtime_config.go:63-157 | Two accepted requests, one after the other, leave the settings of their combination, which is valid itself. |
| RuntimeConfig.AcceptedRequestByField | server/runtime_config.go:63-157 | After success every setting that the request names has its value, text trimmed, and the others are as before. |
| RuntimeConfig.TextsOfAcceptedFit | server/runtime_config.go:68-121 | What an accepted request names is within the stated limits, field by field. |
| RuntimeConfig.RefusedForAReason | server/runtime_config.go:68-152 | A request within all limits is refused only because network accounting does not stop, for reset day 0, or does not start, list or configure; the reset clock has its new values then. |
| RuntimeConfig.NetworkIsAskedExactly | server/runtime_config.go:130-152 | After success network accounting has accepted, and the clock is the new one, if and only if one of the five network settings changed. |
| RuntimeConfig.OtherSettingsNeedNoNetwork | server/runtime_config.go:130-133 | A request that names no network setting is never refused by network accounting. |
| RuntimeConfig.ClockInStepExactly | monitoring/unit/net.go:229-231 | For each of the two writers of the reset clock, when clock and settings are in step after it: a report, an accepted and a failed request. |
| RuntimeConfig.ReportRepairsFailureExactly | monitoring/unit/net.go:229-231 | After a failed request and the next report they are in step if and only if a reset day is in force, the request was invalid or it asked for the same clock. |
| ConfigDelivery.ClockDriftsExactly | server/runtime_config.go:130-157 | Over any run they are out of step if and only if a config broke them apart and neither a report nor a config has repaired them since. |
| RuntimeConfig.ValidateText | server/runtime_config.go:159-168 | Text is accepted, trimmed of Unicode white space, exactly if its UTF-8 form is short enough and has no NUL, CR or LF. |
| RuntimeConfig.RuntimeState.Validate | server/runtime_config.go:63-125 | Validation succeeds exactly if every given field is valid, and yields the overlay of the current settings without storing it. |
| RuntimeConfig.RuntimeState.Apply | server/runtime_config.go:126-157 | All or nothing for the settings, with the error cases and what happens to the reset clock. |
| ConfigDelivery.LatestResultIsHeld | server/runtime_config_delivery.go:23-118 | In every reachable state applied never exceeds processed, and when no config is being processed the latest revision's result waits or was posted with success. |
| ConfigDelivery.DeliveredMeansSent | server/basicInfo.go:94-112 | A result counts as delivered only if an upload that held exactly this result was posted with success. |
| ConfigDelivery.ClearTakesItsOwn | server/runtime_config_delivery.go:106-118 | The waiting result changes only when it is cleared after its own delivery or replaced by a newer revision, although the clear compares only three fields. |
| ConfigDelivery.PublishIsNeverRejected | server/runtime_config_delivery.go:86-94 | The guard against older results never fires. |
| ConfigDelivery.RevisionsIncrease | server/runtime_config_delivery.go:23-59 | Versioned configs are taken up in strictly increasing order of revision. |
| ConfigDelivery.SettingsChangeOnlyBySuccess | server/runtime_config_delivery.go:31-41 | Settings change only by a valid config that succeeded, to exactly its overlay. |
| ConfigDelivery.StartExactly | server/runtime_config_delivery.go:23-41 | A newer revision is applied and taken up, an older one changes nothing, and a config without a revision leaves no result. |
| ConfigDelivery.PublishedTellsWhatHappened | server/runtime_config_delivery.go:40-59 | Every published result tells revision, event, success and cleaned error of a config that came before it and was newer then. |
| ConfigDelivery.UploadDelivers | server/basicInfo.go:94-112 | An upload that runs to its end delivers the result that was waiting when it began, and that result waits no longer, whatever happens in between. |
| ConfigDelivery.ClearExactly | server/runtime_config_delivery.go:106-118 | The clear takes the waiting result if and only if it has the revision, event and success of the one sent. |
| ConfigDelivery.HandledExactly | server/runtime_config_delivery.go:23-59 | A config that is not newer moves nothing; a newer one sets the counters and, unless a still newer result waits, its own result. |
| ConfigDelivery.LastAnswerIsFirstOther | server/basicInfo.go:94-112 | What decides an upload is the first answer that does not ask for the state again. |
| ConfigDelivery.StepsMakeHandled | server/runtime_config_delivery.go:23-59 | The separate critical sections compose to what the method computes when nothing interleaves. |
| Text.SanitizedIsLongestStart | server/runtime_config_delivery.go:65-84 | A reported error has no control characters, fits 512 bytes of UTF-8, and is the longest such start of the cleaned message. |
| Text.TrimIsInner | server/runtime_config.go:159-160 | Trimming cuts exactly the runs of Unicode white space at both ends. |
| Text.ByteLengthAdds | server/runtime_config.go:161 | The length of a text is the sum of the UTF-8 widths of its characters. |
| Text.PrintableAdds | server/runtime_config_delivery.go:65-75 | Cleaning drops control characters one by one and keeps the others in place. |
| Text.Sanitize | server/runtime_config_delivery.go:65-84 | The two loops compute that error. |
| ConfigDelivery.Delivery.Process | server/runtime_config_delivery.go:23-59 | One call: stale revisions touch nothing, others update the counters and publish their result with the cleaned error; false only for a failed unversioned config. |
| ConfigDelivery.Delivery.UploadState | server/basicInfo.go:94-112 | One upload with the uploads that replies ask for nested in it: what was sent is cleared, the config of the last reply is applied unless it is stale, and its newer result stays. |
| EventWindow.WithoutKeepsGood | server/websocket.go:342-355 | Forgetting removes exactly that id and keeps a list without duplicates. |
| EventWindow.ForgetUndoesMarkExactly | server/websocket.go:323-355 | Marking and forgetting a new id restores the window if and only if it was not full; else the oldest id is gone. |
| EventWindow.RunsKeepGood | server/websocket.go:323-355 | After any run the list has no duplicates and at most 512 ids. |
| EventWindow.MarkedIsRejected | server/websocket.go:323-340 | An id marked and not forgotten is rejected while fewer than 512 further new ids have been accepted. |
| EventWindow.WindowIsExact | server/websocket.go:323-340 | Without forgetting, the id is known if and only if fewer than 512 new ids followed. |
| EventWindow.RefusedEventIsRetriedExactly | server/websocket.go:425-551 | Whatever came in between, a refused event runs again on redelivery exactly if its method forgets it or the window has lost it. |
| EventWindow.EntryOf | server/websocket.go:323-355 | In any interleaving an id in the window was put there by a delivery that has not forgotten it. |
| EventWindow.DuplicateIsAcceptedExactly | server/websocket.go:425-551 | When a duplicate arrives and the delivery that entered its event is no longer running, that delivery was accepted if and only if its request is not one of those that are refused for good. |
| EventWindow.GapIsUndecided | server/websocket.go:425-448 | While that delivery is running, both its acceptance and a refusal that forgets the event can still follow. |
| EventWindow.DuplicateInTheGap | server/websocket.go:425-448 | The input: a duplicate is acknowledged between mark and forget, and then the first delivery is refused. |
| EventWindow.AcknowledgedEventIsNotRerun | server/websocket.go:425-551 | An acknowledged event is not run again while fewer than 512 other new events are accepted. |
| EventWindow.AnswersExactly | server/websocket.go:429-551 | Every method acknowledges its event, forgets it, or refuses it for good, and exactly one of these; which one follows from the method, its parameters and the word of the callee. |
| EventWindow.SeenEvents.MarkSeen | server/websocket.go:323-340 | The set equals the list's elements, and the answer says whether the id was new. |
| EventWindow.SeenEvents.ForgetSeen | server/websocket.go:342-355 | The loop removes the id from set and list. |
| EventWindow.SeenEvents.Conclude | server/websocket.go:429-551 | The second critical section of a delivery: answer and forgetting of its method. |
| EventWindow.SeenEvents.Process | server/websocket.go:425-551 | A delivery that nothing interleaves: a duplicate is acknowledged without running; otherwise answer and window are those of its method. |
| AckList.KeptKeepsOrder | server/websocket.go:295-312 | Clearing drops every sent id, and every other occurrence stays, in the same order. |
| AckList.EveryAckIsHeld | server/websocket.go:195-252 | Every id added is still listed, or was swept after that by the clear of a post whose snapshot held it and which succeeded after the add, or had arrived when it was added. |
| AckList.ReaddedIdIsSwept | server/websocket.go:208-214 | The input behind the last case: an id added again before the clear of the post that confirmed it. |
| AckList.ListedWasAdded | server/websocket.go:289-321 | Nothing is listed or sent for acknowledgement that was not added. |
| AckList.AckIds.Add | server/websocket.go:314-321 | Appends to the slice, growing its array when full; the empty id is ignored. |
| AckList.AckIds.Clear | server/websocket.go:295-312 | Filtering in place leaves exactly the kept ids at the front of the same array. |
| DiskDevice.MergeIsFirstBest | monitoring/unit/disk.go:58-75 | Merging keeps the first of the best samples of a subvolume: its smallest quota, or without a quota its largest total. |
| DiskDevice.DeviceIsFirstBest | monitoring/unit/disk.go:44-75 | After any arrivals every subvolume holds one of its own samples, the first of the best. |
| DiskDevice.BestIsUnique | monitoring/unit/disk.go:81-101 | The choice does not depend on the order in which the map is walked. |
| DiskDevice.BestRepresentsDevice | monitoring/unit/disk.go:81-101 | The chosen usage is one sample, and it is the closed form: the largest unlimited subvolume, else the largest of the smallest quotas. |
| DiskDevice.BestArrivedFirst | monitoring/unit/disk.go:92-98 | Of the samples that can stand for the device the chosen one arrived first. |
| DiskDevice.DeviceTotalIgnoresOrder | monitoring/unit/disk.go:44-101 | The same samples in any order, with any repetition, give the same total. |
| DiskDevice.PhysicalDevice.Add | monitoring/unit/disk.go:44-53 | Adding a sample keeps the map the merge of all samples so far. |
| DiskDevice.PhysicalDevice.Totals | monitoring/unit/disk.go:81-101 | The two loops return the total and used of the first sample that can stand for the device, zeros when there is none. |
| Versions.PreOrderIsStandard | update/update.go:168-172 | Pre-releases compare as section 11 of Semantic Versioning 2.0.0 says. |
| Versions.CompareIsReference | update/update.go:134-183 | Less means the first differing number or the pre-release is less; equal means the same numbers and pre-release; swapping flips the sign. |
| Versions.CompareChains | update/update.go:134-173 | The order is transitive, strictly when one step is strict. |
| Versions.LegacyIsFourPart | update/update.go:175-183 | A legacy three-part tag equals the four-part tag that splits its patch. |
| Versions.OtherTagsByNumbers | update/update.go:134-183 | Every other tag compares by the four numbers it spells, the last zero when it has three, and then by its pre-release. |
| Versions.ThreePartIsSemVerExactly | update/update.go:131-183 | Three-part tags compare as semantic versions except exactly in the stated cases of the 2.1 line. |
| Versions.UpdatesClimb | update/update.go:186-188 | Every later version of a chain of updates is newer than every earlier one. |
| Versions.FindAsset | update/update.go:213-222 | The asset found has the first wanted name that the release has; none is returned only if no name is there. |
| Versions.SelectLatestStable | update/update.go:258-290 | The earliest listed maximum of the releases that are neither draft nor pre-release and parse, with its asset; none exactly when there is no such release. |
| Versions.UpdateOfferedExactly | update/update.go:186-290 | An update is offered if and only if some such release comes after the running version in the reference order. |
| FileFrame.UploadRoundTrip | terminal/file_frame.go:24-87 | Every valid upload frame is recovered from its bytes. |
| FileFrame.DownloadRoundTrip | terminal/file_frame.go:41-104 | Every valid download frame is recovered from its bytes. |
| FileFrame.UploadReencodes | terminal/file_frame.go:67-87 | Bytes that parse as an upload are the encoding of a valid frame. |
| FileFrame.DownloadReencodes | terminal/file_frame.go:89-104 | Bytes that parse as a download are the encoding of a valid frame. |
| FileFrame.KindsAreDisjoint | terminal/file_frame.go:20-114 | No bytes parse as both kinds, and what parses carries the magic. |
| FileFrame.UploadLayout | terminal/file_frame.go:24-39 | Where every byte of an upload frame stands: magic, kind 1, both ids after their lengths, the offset with its most significant byte first, the payload. |
| FileFrame.DownloadLayout | terminal/file_frame.go:41-52 | The same for a download frame. |
| FileFrame.EncodeUpload | terminal/file_frame.go:24-39 | Encoding fails exactly on an invalid id; otherwise the result parses back to what was given. |
| FileFrame.EncodeDownload | terminal/file_frame.go:41-52 | The same for a download frame. |

## Left out

- Zones with daylight saving time, `time.LoadLocation` and the scanning of clock strings: a rule has a fixed offset and an already scanned clock. Instants are whole seconds and the preserved span is a number of seconds.
- `NetStatic.KeepFrom`: filters a sequence, so that the reuse of the slice's array (`kept := arr[:0]`) is not modelled; record lists are values held in a map.
- `Traffic.TrafficSinceReset`: is proved for purges after the preserved span has passed since 1970, a last reset not before 1970, and a fixed clock and NIC list within a run; the lemmas beside it show what happens on earlier clocks.
- Loading and saving `net_static.json`, and `SetNewConfig`, `Clear` and `ForceReplaceRecord` in netstatic, which discard or replace data on purpose.
- `FileManager.FileManager.FinishUpload`: takes the digest as a function of the bytes to lower-case hexadecimal; base64, target paths and the rename itself are answers of the environment.
- `FileManager.FileManager.StartUpload`: takes a fresh upload id; removal of temporary files, downloads and the other file operations are thin wrappers over the file system.
- A failed write of a chunk is taken to write nothing.
- Task summaries are byte strings, so that they are cut at 256 bytes; cutting inside a character and what its JSON form then holds are not modelled.
- `TaskLogFile.Log.Open`: a failed opening yields no log; reading and the JSON form of the file are not modelled, and the retention limit is a number.
- `TaskLog.NeverStartedTwice`: is about ids that are not empty, as is `TaskLog.NoResultIsLost`; `TaskLog.EmptyIdCanStartTwice` shows that the empty one has to be excluded.
- `TaskServer.RecoverPendingReports`: runs its jobs one after the other and is not cancelled; several workers and cancellation are the subject of `RecoveryPool`. Back-off times and an absent task log are left out.
- `McpRegistry.McpRegistry.Register`: promises its invariant unless another lease holds a run of the same task id, which `McpLeases.ReplacingKeepsIndexExactly` shows to be needed; ids are already trimmed and cancel functions exist.
- Cancel functions of a lease are called one by one in `McpLeases`; what the cancelled command does is outside the model, as is `terminal.CloseMCPFileSession`.
- `RuntimeConfig.RuntimeState.Apply`: which of several invalid fields is reported is not stated; the clock parser, the zone database and network accounting answer as the environment says; strings are valid UTF-8.
- `ConfigDelivery.Delivery.Process`: leaves out the signal that asks for an upload. Revisions start at zero after a restart, as in the code.
- Binding of event parameters and the work behind each method in `EventWindow` are arguments; the task and lease methods are modelled in their own modules.
- Network, gzip, WebSocket keep-alive, ping, DNS, process execution and terminals: foreign calls without core logic.
- Parsing of version strings, and `selectLatestSnapshotRelease`: releases carry what their tag parses to.
- Mount discovery, btrfs probing and the sum over custom mount points in `monitoring/unit/disk.go`: samples are given.
