# GuardianPI: verified model of the agents' stateful core

The project models the parts of GuardianPI that keep state over long runs, and proves what they
keep, lose and promise.

* **Store and forward in the edge agent** (`FileNames`, `Directory`, `Fifo`, `DiskQueues`,
  `SenderModel`, `EdgeAgent`). Events are batched, POSTed and, when a POST fails, spilled to a
  directory of files named by a nanosecond timestamp. The model goes down to decimal numerals and
  Go's string order, shows that the file names implement a first-in first-out queue, and then
  proves conservation, order, exact draining and delivery for every outcome of every POST.
  `EdgeAgent.Sender` and `DiskQueues.DiskQueue` are classes with the fields and loops of the Go
  code; their methods are proved against the functions that the theorems are about.
* **The Python agent's telemetry buffer** (`TelemetryBuffer`): a trimmed list whose flush is split
  at its await, so that any number of flushes interleave with queueing.
* **The Redis rate limiter** (`RateLimiter`), **the network monitor** (`NetworkMonitor`), **the
  WebSocket connection manager** (`WebSocketHub`), **the file-integrity monitor**
  (`FileIntegrity`) and **the detection engine** (`DetectionEngine`).

What is outside a program is a parameter: how POST number n ends, the readings of the clock, the
sizes of bodies, which sends fail, what other tasks do during an await, the contents of the disk,
and the detection rules' matchers. Every theorem holds for all of them, with one condition where a
theorem needs the disk queue to be a FIFO: its clock is a finite sequence of readings whose file
names are listed in the order of the readings. Increasing readings with one number of digits are
such a clock (`DiskQueues.IncreasingClockIsGood`), and the condition is necessary: the runs on a
directory are those of a FIFO if and only if the clock meets it (`DiskQueues.FifoExactly`). It is
finite because infinitely many increasing readings with one number of digits do not exist.

Where the code does something other than its comments say, the code is followed:

* The disk queue is called a FIFO. It is one exactly when file names are listed in the order of
  writing; `FileNames.NamesFollowTime` gives the exact condition on timestamps,
  `LaterFileListedFirst` a pair that a device without a battery-backed clock can write. For every
  clock, a run loses no item if and only if no write finds its file name taken
  (`DiskQueues.RunConservesExactly`), and the byte bound holds (`DiskQueues.RunBytesBounded`).
* The telemetry buffer logs that the oldest events are dropped. Around a flush that puts its
  events back newer events may be dropped first; `TelemetryBuffer.TrimsOldestExactly` gives the
  exact condition on the run. Its limit of a hundred events holds throughout a run exactly when
  every completed flush finds room for what it puts back (`WithinLimitExactly`,
  `FlushWithinLimit`), and an outage exceeds any bound (`OutageGrows`).
* The rate limiter is called a sliding window. It does keep every window within the limit
  (`RateLimiter.SlidingWindowBound`), but denied calls extend the wait. Compared with a log that
  counts the calls it has admitted itself, it allows nothing that the log refuses
  (`NeverLooserThanLog`); `AgreesWithLogExactly` says for how long the two decide alike, and
  `StricterThanLog` shows a client that is never served again while the log serves it in every
  window.
* The detection engine means to report each match once per process. Its alert key uses
  `string(rune(pid))`, which maps every number that is no Unicode scalar value to U+FFFD, and its
  record of alerts is never cleared, although process numbers are reused.
  `DetectionEngine.AlertKeysCollide` gives the exact collisions. `AllReportedExactly` says when
  every matched rule and process number is reported, and `EveryReportSentExactly` when every report
  that a match makes is sent; `SecondProcessMissed` and `ReusedNumberMissed` show processes that are
  never reported.

## Model

| member | source | states |
|---|---|---|
| `FileNames.FileNameOrder` | edge-agent/internal/queue/queue.go:35-36 | For any two timestamps, string order of the file names in terms of the numbers, whatever their digit counts |
| `FileNames.NamesFollowTime` | edge-agent/internal/queue/queue.go:66-80 | An earlier file is listed before a later one iff the numerals have equal length or the earlier number is at most the leading digits of the later |
| `FileNames.LaterFileListedFirst` | edge-agent/internal/queue/queue.go:35-35 | A file written half a minute after 1970 and one written after the clock was set to 2023 are listed against the order of time |
| `FileNames.FileNameInjective` | edge-agent/internal/queue/queue.go:35-36 | Two timestamps share a file name iff they are equal |
| `FileNames.IsGpiSuffix` | edge-agent/internal/queue/queue.go:74-74 | The extension test accepts exactly the names that end in ".gpi" |
| `Fifo.EvictCountShortest` | edge-agent/internal/queue/queue.go:97-109 | The evicted prefix is the shortest that brings the total within the limit, or everything when none does; no other length qualifies |
| `Fifo.EvictAll` | edge-agent/internal/queue/queue.go:97-109 | When entries that are counted but not removable exceed the limit, every queued file is removed |
| `Fifo.BytesBounded` | edge-agent/internal/queue/queue.go:28-58 | Over every run of enqueues and dequeues the queued bytes stay within the limit plus the largest item, because room is made before the write |
| `Fifo.BytesBoundMet` | edge-agent/internal/queue/queue.go:32-37 | That bound is reached |
| `DiskQueues.EvictKeepsSuffix` | edge-agent/internal/queue/queue.go:82-110 | After `enforceLimit` the listing and the contents are a suffix of the old ones in unchanged order, and other entries are untouched |
| `DiskQueues.EvictReachesLimit` | edge-agent/internal/queue/queue.go:82-110 | The directory total is within the limit afterwards, or no queued file is left |
| `DiskQueues.PutAppends` | edge-agent/internal/queue/queue.go:35-37 | A written file becomes the last of the queue iff its name is listed after all others |
| `DiskQueues.PutAppendsItem` | edge-agent/internal/queue/queue.go:35-37 | An item the queue does not hold comes out last iff its file name is listed after all others |
| `DiskQueues.PutLosesNothing` | edge-agent/internal/queue/queue.go:35-37 | A write adds its item and loses none iff the file name was not taken; a taken file name loses the earlier item, a subdirectory the new one |
| `DiskQueues.RunConservesExactly` | edge-agent/internal/queue/queue.go:28-58 | For every run and clock no item is invented, and all items are queued, handed out or evicted iff no write finds its file name taken |
| `DiskQueues.DistinctReadingsKeepAll` | edge-agent/internal/queue/queue.go:28-58 | Readings that never repeat, in whatever order, lose no item |
| `DiskQueues.NamesExactly` | edge-agent/internal/queue/queue.go:72-77 | The queue holds exactly the regular files whose names end in ".gpi" |
| `DiskQueues.ForeignEntriesStay` | edge-agent/internal/queue/queue.go:28-110 | Over every run subdirectories and files of other names are neither removed nor changed nor handed out |
| `DiskQueues.OversizedEntryEmptiesQueue` | edge-agent/internal/queue/queue.go:82-110 | One such entry above the limit, a subdirectory by its reported size, makes eviction remove every queued file |
| `DiskQueues.PutBytes` | edge-agent/internal/queue/queue.go:35-37 | A write adds at most the size of its item, also when it overwrites a file |
| `DiskQueues.EarlierStampsAreReady` | edge-agent/internal/queue/queue.go:62-80 | A directory of files whose timestamps are listed before the clock's meets the condition of the runs below |
| `DiskQueues.IncreasingClockIsGood` | edge-agent/internal/queue/queue.go:35-35 | Increasing readings with one number of digits list their file names in order |
| `DiskQueues.ApplyRefines` | edge-agent/internal/queue/queue.go:28-58 | One enqueue or dequeue on files is the same operation on the sequence of contents |
| `DiskQueues.RunRefinesFifo` | edge-agent/internal/queue/queue.go:28-58 | Every run on the directory is the run of the abstract FIFO with eviction |
| `DiskQueues.TwoWritesInOrder` | edge-agent/internal/queue/queue.go:28-58 | After any number of dequeues on an empty directory, two different items written one after the other come out in order iff the first reading's name is listed before the second's |
| `DiskQueues.FifoExactly` | edge-agent/internal/queue/queue.go:28-58 | For every clock, given two different items of which one fits the limit: all runs from an empty directory are the runs of the FIFO iff file names are listed in the order of the readings |
| `DiskQueues.RunBytesBounded` | edge-agent/internal/queue/queue.go:28-58 | Over every run on the directory and every clock, also with repeated or decreasing readings, the queued bytes stay within the limit plus the largest item |
| `DiskQueues.SortStringsSorts` | edge-agent/internal/queue/queue.go:78-78 | Sorting distinct names gives a strictly sorted sequence |
| `DiskQueues.DiskQueue.ListFiles` | edge-agent/internal/queue/queue.go:66-80 | Returns exactly the regular files with extension ".gpi", sorted |
| `DiskQueues.DiskQueue.Size` | edge-agent/internal/queue/queue.go:61-64 | The number of queued items |
| `DiskQueues.DiskQueue.TotalSize` | edge-agent/internal/queue/queue.go:83-90 | The loop computes the sum over all entries, in whatever order they come |
| `DiskQueues.DiskQueue.EnforceLimit` | edge-agent/internal/queue/queue.go:82-110 | The loop with its running total removes exactly the shortest sufficient oldest-first prefix |
| `DiskQueues.DiskQueue.Enqueue` | edge-agent/internal/queue/queue.go:28-38 | Evicts, then writes; fails only on a directory of that name; appends when its name is listed last |
| `DiskQueues.DiskQueue.Dequeue` | edge-agent/internal/queue/queue.go:41-58 | Removes and returns the oldest item, or nothing when there is none |
| `SenderModel.RunConserves` | edge-agent/cmd/agent/main.go:165-198 | For every run and all POST outcomes, initial and received events equal, as multisets, those in the batch, accepted, queued and evicted |
| `SenderModel.RunRecords` | edge-agent/cmd/agent/main.go:182-183 | The received sequence is the arrivals in order |
| `SenderModel.ShutdownConserves` | edge-agent/cmd/agent/main.go:173-180 | Shutdown leaves no batch, puts it at the end of the queue as a bare array without a POST, and loses nothing |
| `SenderModel.SessionsConserve` | edge-agent/cmd/agent/main.go:56-64 | Over any number of processes on one directory, each with its own configuration, every event is accepted, on disk or evicted between two of them |
| `SenderModel.RunKeepsBatched` | edge-agent/cmd/agent/main.go:169-197 | At every loop head the batch is below the batch size, every batch sent has 1 to batch-size events, and batches sent followed by the current one are the received sequence |
| `SenderModel.TickSendsBatch` | edge-agent/cmd/agent/main.go:189-193 | After a tick the batch is empty and everything received has been sent |
| `SenderModel.RunKeepsCarried` | edge-agent/cmd/agent/main.go:200-214 | Every batch sent is one envelope with the events in order of arrival, and that envelope is accepted, queued or evicted |
| `SenderModel.ReceivesSendFullBatches` | edge-agent/cmd/agent/main.go:182-187 | Without a tick only full batches are sent, and there is one POST for each |
| `SenderModel.RunBytesBounded` | edge-agent/cmd/agent/main.go:165-230 | Over every run of the sender and after shutdown, the queue is what is left of the initial one or its bytes are at most the limit and its newest body |
| `SenderModel.RunKeepsStamps` | edge-agent/cmd/agent/main.go:200-206 | Whatever is accepted, queued or evicted was there initially or carries this agent's device number and the time of one of its POSTs |
| `SenderModel.RunKeepsAcksEarned` | edge-agent/cmd/agent/main.go:208-214 | Nothing counts as delivered that no POST was answered for with a status below 400 |
| `SenderModel.AnswerDecides` | edge-agent/cmd/agent/main.go:217-230 | A status below 400 takes the oldest body off the queue for good; any other status or failure accepts nothing and makes it the newest |
| `SenderModel.TickIsExact` | edge-agent/cmd/agent/main.go:189-195 | A tick POSTs the batch, whose envelope is delivered or queued last by the status, and then drains |
| `SenderModel.OneTickDeliversAll` | edge-agent/cmd/agent/main.go:189-195 | When every POST succeeds one tick delivers the batch and then the queue, in order, and leaves both empty |
| `SenderModel.DrainIsExact` | edge-agent/cmd/agent/main.go:217-230 | The first k bodies are accepted in order; then the queue is empty, or body k went to the back behind the rest, less an evicted prefix that is empty iff the rest fits |
| `SenderModel.DeliveryDespiteRejections` | edge-agent/cmd/agent/main.go:217-230 | If the server always refuses p bodies of a queue that fits and always takes the others, p+1 drains deliver those exactly once, in order, and leave the refused ones rotated by one |
| `SenderModel.IdleTicksDeliver` | edge-agent/cmd/agent/main.go:189-195 | The same for p+1 ticks of the running sender with nothing arriving |
| `EdgeAgent.Sender.Post` | edge-agent/internal/transport/transport.go:67-95 | A POST succeeds iff the request was made and answered, the answer was read and its status is below 400; nothing else changes |
| `EdgeAgent.Sender.Store` | edge-agent/cmd/agent/main.go:211-211 | Writing a body to the files is enqueueing it in the model, and the clock condition survives |
| `EdgeAgent.Sender.Take` | edge-agent/cmd/agent/main.go:219-222 | Taking the oldest file is taking the head of the model's queue |
| `EdgeAgent.Sender.SendBatch` | edge-agent/cmd/agent/main.go:200-215 | The method on real fields and files is the model's batch step |
| `EdgeAgent.Sender.DrainQueue` | edge-agent/cmd/agent/main.go:217-230 | The loop terminates with the queue length as measure and equals the model's drain |
| `EdgeAgent.Sender.Handle` | edge-agent/cmd/agent/main.go:182-195 | A receive or a tick is the model's step |
| `EdgeAgent.Sender.Flush` | edge-agent/cmd/agent/main.go:173-180 | Cancellation is the model's shutdown |
| `EdgeAgent.Sender.RunSender` | edge-agent/cmd/agent/main.go:165-198 | The whole loop is the model's run followed by shutdown; it conserves events and ends with an empty batch |
| `TelemetryBuffer.TelemetrySender.QueueEvent` | agent/telemetry/sender.py:24-36 | Appends and trims; afterwards at most a hundred events, the newest among them |
| `TelemetryBuffer.TelemetrySender.BeginFlush` | agent/telemetry/sender.py:40-44 | Takes all events and leaves the buffer empty |
| `TelemetryBuffer.TelemetrySender.CompleteFlush` | agent/telemetry/sender.py:48-78 | Puts the events back as often as the outcome does, with cancellation and exceptions before the response and on closing the client |
| `TelemetryBuffer.RunConserves` | agent/telemetry/sender.py:24-78 | Over every interleaving, with clean outcomes, queued events equal those in the buffer, in flight, accepted and trimmed |
| `TelemetryBuffer.CompleteConserves` | agent/telemetry/sender.py:66-78 | Completing a flush conserves events iff a response was followed by no exception on closing, or a failed request by no cancellation on closing |
| `TelemetryBuffer.QueueAllKeepsLast` | agent/telemetry/sender.py:33-36 | Queueing keeps the last hundred of what was there and came since, so trims remove a prefix |
| `TelemetryBuffer.SinceFlush` | agent/telemetry/sender.py:33-78 | After a flush that puts nothing back the buffer is the last hundred of the events queued since it began, and an accepted flush has delivered what was there |
| `TelemetryBuffer.OutcomeDecides` | agent/telemetry/sender.py:66-78 | Status 202 alone is an acceptance; every other response and every exception puts the events behind the newer ones, a refusal with an exception on closing twice, a cancellation not |
| `TelemetryBuffer.FlushOrder` | agent/telemetry/sender.py:43-78 | Every flush, however it ends, yields the newer events followed by what it puts back; with nothing interleaved it is the identity iff it puts the events back exactly once or had none; it trims only what the newer events push out |
| `TelemetryBuffer.FlushCuts` | agent/telemetry/sender.py:33-78 | What a flush and the queueing around it drop and keep: one cut through the newer events, those put back and the latest |
| `TelemetryBuffer.TrimsOldestExactly` | agent/telemetry/sender.py:33-78 | Over a flush and what is queued during and after it, every dropped event is older than every kept one iff nothing is put back, or once and nothing was queued during the flush, or a hundred events follow it, or nothing is dropped |
| `TelemetryBuffer.WithinLimitExactly` | agent/telemetry/sender.py:34-78 | The buffer stays within a hundred events throughout a run iff every completed flush finds room for what it puts back |
| `TelemetryBuffer.FlushWithinLimit` | agent/telemetry/sender.py:34-78 | One flush stays within the limit iff what it puts back, once or twice, fits beside the events queued meanwhile |
| `TelemetryBuffer.OutageGrows` | agent/telemetry/sender.py:34-36 | n failed flushes with a hundred events each leave 100(n+1) events in the buffer |
| `RateLimiter.RedisManager.CheckRateLimit` | backend/app/core/redis.py:45-62 | INCR then EXPIRE on one key, the verdict and the remaining count; other keys are untouched |
| `RateLimiter.AllowedExactly` | backend/app/core/redis.py:45-62 | A call is allowed iff fewer than the maximum precede it since the last silent gap of a full window |
| `RateLimiter.SlidingWindowBound` | backend/app/core/redis.py:52-62 | For every history, every half-open window of the configured length contains at most the maximum of allowed calls |
| `RateLimiter.LogWindowBound` | backend/app/core/redis.py:52-52 | The log that the docstring promises, counting the calls it admitted itself, holds at most the maximum in every window |
| `RateLimiter.NeverLooserThanLog` | backend/app/core/redis.py:52-62 | The limiter allows nothing that this log would refuse |
| `RateLimiter.AgreesWithLogExactly` | backend/app/core/redis.py:52-62 | Limiter and log decide the first n calls alike iff each of these has fewer than the maximum before it in its streak, or its streak began within the window, or nothing is ever allowed |
| `RateLimiter.DecidedByOwnCountExactly` | backend/app/core/redis.py:55-62 | A call is decided by the number of calls the limiter itself allowed in the window iff the same condition holds for it |
| `RateLimiter.NoneAllowedStillDenies` | backend/app/core/redis.py:55-62 | Once the allowed calls of a streak are older than the window the limiter still refuses, with none of its own allowed calls in the window |
| `RateLimiter.LogServesEveryWindow` | backend/app/core/redis.py:52-52 | Whenever a window has passed since some call, the log has admitted a later one |
| `RateLimiter.StricterThanLog` | backend/app/core/redis.py:55-62 | A client that keeps calling within the window is refused for ever after its first calls, while the log admits one of its calls in every window |
| `RateLimiter.SteadyClientStarves` | backend/app/core/redis.py:55-62 | A client that keeps calling within the window has exactly its first calls up to the maximum allowed |
| `RateLimiter.RemainingIsExact` | backend/app/core/redis.py:60-62 | Without a gap exactly as many further calls are allowed as remained |
| `RateLimiter.RunHolds` | backend/app/core/redis.py:55-58 | After any interleaving of keys the store holds each key's own streak and expiry |
| `RateLimiter.SilenceReopens` | backend/app/core/redis.py:55-58 | After more than a window without a call on its key, a call counts as the first, whatever happened on other keys |
| `RateLimiter.NoSilenceContinues` | backend/app/core/redis.py:55-58 | Within the window of the last call on its key, a call adds one to the streak |
| `RateLimiter.DecisionPerKey` | backend/app/core/redis.py:55-62 | Each call is decided by the calls on its own key alone |
| `NetworkMonitor.NetworkMonitor.DetectAnomalies` | agent/monitors/network_monitor.py:20-76 | History, known addresses and the list of alerts after a scan; a denied scan changes nothing |
| `NetworkMonitor.NetworkMonitor.DetectSpike` | agent/monitors/network_monitor.py:27-38 | The history part: push, trim and the spike test |
| `NetworkMonitor.NetworkMonitor.AnalyseConnections` | agent/monitors/network_monitor.py:40-62 | The loop computes the new addresses, the distinct remote ports and the port alerts |
| `NetworkMonitor.AlertsExactly` | agent/monitors/network_monitor.py:32-74 | A scan raises exactly these alerts: a spike with count and average by the arithmetic test; a listed local port with each established remote address; more than 30 distinct remote ports; more than 20 new addresses |
| `NetworkMonitor.NextScan` | agent/monitors/network_monitor.py:20-76 | What one call promises is the next step of a run of scans |
| `NetworkMonitor.PushAllIsWindow` | agent/monitors/network_monitor.py:27-30 | The history is the last sixty counts |
| `NetworkMonitor.SpikeStops` | agent/monitors/network_monitor.py:27-38 | In every run, from the 21st scan at one count on no spike alert is returned, whatever came before and between |
| `NetworkMonitor.AtMostTwentySpikes` | agent/monitors/network_monitor.py:27-38 | In every run a count held at one level returns at most twenty spike alerts |
| `NetworkMonitor.TwentySpikesReached` | agent/monitors/network_monitor.py:27-38 | After sixty idle scans every count above 50 returns exactly twenty |
| `NetworkMonitor.KnownIsSeen` | agent/monitors/network_monitor.py:42-60 | The known addresses are those of connections with status ESTABLISHED in some scan |
| `NetworkMonitor.NewSetsDisjoint` | agent/monitors/network_monitor.py:57-60 | An address is new in at most one scan |
| `NetworkMonitor.KnownWasNew` | agent/monitors/network_monitor.py:57-60 | The new addresses of all scans together are the known set |
| `NetworkMonitor.BurstsExactly` | agent/monitors/network_monitor.py:70-74 | A scan raises a burst alert iff at least 21 addresses are new in it, and the alert gives their number |
| `NetworkMonitor.BurstsAmortised` | agent/monitors/network_monitor.py:40-74 | Over every run 21 times the number of burst alerts is at most the number of distinct established addresses |
| `WebSocketHub.TaskIsItsHistory` | backend/app/api/v1/websocket.py:44-54 | In every interleaving a broadcast has attempted a prefix of the snapshot it began with, and its dead list is the failed sends |
| `WebSocketHub.FinishedBroadcast` | backend/app/api/v1/websocket.py:44-60 | A finished broadcast attempted every member of its snapshot exactly once and no other socket |
| `WebSocketHub.MembershipIsExact` | backend/app/api/v1/websocket.py:31-60 | A socket is in a channel iff it was added and since then neither disconnected nor removed by a broadcast to which it failed |
| `WebSocketHub.LeaveAllMembers` | backend/app/api/v1/websocket.py:56-60 | Cleaning up removes exactly the dead sockets, from that channel only |
| `WebSocketHub.ActiveCountChanges` | backend/app/api/v1/websocket.py:62-64 | A connect adds one to the active count unless the socket was there; a disconnect takes one if it was |
| `WebSocketHub.ConnectionManager.ConnectSocket` | backend/app/api/v1/websocket.py:33-36 | The locked section of connect, creating the channel when it is missing |
| `WebSocketHub.ConnectionManager.DisconnectSocket` | backend/app/api/v1/websocket.py:40-41 | The locked section of disconnect, which creates no channel |
| `WebSocketHub.ConnectionManager.Targets` | backend/app/api/v1/websocket.py:46-47 | The snapshot lists every member once |
| `WebSocketHub.ConnectionManager.Broadcast` | backend/app/api/v1/websocket.py:44-60 | With any locked sections of other tasks during its awaits, the members at the start are attempted once each and the final channels are theirs less the failed sockets |
| `WebSocketHub.BroadcastIsItsSteps` | backend/app/api/v1/websocket.py:44-60 | After any trace, one call of the broadcast method does to the channels what its snapshot, sends and cleanup do as steps of the whole system |
| `WebSocketHub.ConnectionManager.ActiveCount` | backend/app/api/v1/websocket.py:62-64 | The number of pairs of a channel and a socket in it |
| `FileIntegrity.FileIntegrityMonitor.InitializeBaseline` | agent/monitors/file_integrity.py:54-60 | The loop and the save |
| `FileIntegrity.FileIntegrityMonitor.CheckFiles` | agent/monitors/file_integrity.py:63-89 | Baseline, saved file and report after a check |
| `FileIntegrity.UpdatedIsTarget` | agent/monitors/file_integrity.py:69-85 | The hash of every path after a check, in closed form, even with duplicate paths and odd loaded values |
| `FileIntegrity.AgreesWithDisk` | agent/monitors/file_integrity.py:69-85 | After a check the baseline agrees with the disk on every readable monitored path |
| `FileIntegrity.ReplayGivesUpdated` | agent/monitors/file_integrity.py:69-85 | Replaying the reported changes over the old baseline gives the new one |
| `FileIntegrity.ReportsExactly` | agent/monitors/file_integrity.py:69-85 | What a check reports, kind by kind, from the old baseline and the disk alone: deleted, new and modified, with the hashes |
| `FileIntegrity.ReportedExactly` | agent/monitors/file_integrity.py:77-85 | A path is reported as new or modified iff its hash in the baseline changes |
| `FileIntegrity.ReportedOnce` | agent/monitors/file_integrity.py:77-85 | No path is reported as new or modified twice in one check |
| `FileIntegrity.ModifiedHashes` | agent/monitors/file_integrity.py:81-84 | A modified report carries the old baseline's hash and the disk's, and they differ |
| `FileIntegrity.ChecksConverge` | agent/monitors/file_integrity.py:63-89 | A second check on an unchanged disk changes nothing and reports exactly the deleted files |
| `FileIntegrity.FirstCheckSettles` | agent/monitors/file_integrity.py:65-67 | The first check makes the baseline equal the disk and reports nothing, and a second one reports nothing |
| `FileIntegrity.CheckSynced` | agent/monitors/file_integrity.py:48-52 | For each write outcome, exactly when the saved file still reloads to the baseline in memory |
| `FileIntegrity.RestartsAreInvisible` | agent/monitors/file_integrity.py:40-89 | Restarting the monitor at any boundaries changes no later report and no later state, when writes succeed |
| `DetectionEngine.RunDetectionEngine` | edge-agent/internal/detector/detector.go:163-213 | The nested loops compute the report sequence of the model |
| `DetectionEngine.AlertKeysCollide` | edge-agent/internal/detector/detector.go:178-178 | Alert keys are equal iff the rules are and the process numbers are equal or both replaced by U+FFFD |
| `DetectionEngine.RunExact` | edge-agent/internal/detector/detector.go:163-213 | Over any number of scans keys are reported at most once, and exactly when their rule matched |
| `DetectionEngine.ReportedAtMostOnce` | edge-agent/internal/detector/detector.go:163-213 | Each rule and process number is reported at most once |
| `DetectionEngine.ReportedExactly` | edge-agent/internal/detector/detector.go:176-210 | A rule and a process number that is its own code point are reported iff the matcher held in some scan |
| `DetectionEngine.ReportsAreMade` | edge-agent/internal/detector/detector.go:176-210 | Every report is the one that some match of a rule on a process makes |
| `DetectionEngine.ReportContents` | edge-agent/internal/detector/detector.go:188-206 | Every report carries the id and severity of a rule that matched, its name and the process name as title, and the number and command line of that process |
| `DetectionEngine.ReportsAreMatches` | edge-agent/internal/detector/detector.go:176-210 | Every report names a rule and a process number that matched together |
| `DetectionEngine.AllReportedExactly` | edge-agent/internal/detector/detector.go:163-213 | Every rule and process number that matched together is reported iff no rule matched two different process numbers with one alert key |
| `DetectionEngine.EveryReportSentExactly` | edge-agent/internal/detector/detector.go:163-213 | Every report that a match makes is sent iff no two matches make different reports with one alert key |
| `DetectionEngine.SecondProcessMissed` | edge-agent/internal/detector/detector.go:178-181 | Processes 55296 and 55297 match a rule and the second is never reported |
| `DetectionEngine.ReusedNumberMissed` | edge-agent/internal/detector/detector.go:168-181 | A matching process whose number an earlier matching process had is never reported, though no two process numbers collide |
| `DetectionEngine.ReplacedShareOneReport` | edge-agent/internal/detector/detector.go:178-178 | All replaced process numbers share at most one report per rule; it names one that matched, and is given if any did |

## Left out

- HTTP, TLS and JSON: a body is a value with an arbitrary size, and each POST ends in an arbitrary way; a POST that the server handled but that returned an error counts as refused, as it does for the agent. Encoding errors, which the agent ignores, are not modelled.
- Failing reads, writes and removals in the queue directory, symbolic links, and 64-bit overflow of sizes: file operations succeed, except that writing onto a subdirectory fails.
- Timestamps before 1970, whose names would begin with a minus sign.
- Events still in the channel when the agent is cancelled, and producers blocked on it.
- The heartbeat loop and device registration of the edge agent: plumbing.
- Encryption and the message format of the Python agent: an exception there is an outcome of the request that raised.
- Redis itself: only INCR and EXPIRE in one transaction; the millisecond of expiry is left open either way. Keys that hold something other than a counter, and a server clock that steps back, are not modelled.
- Floating-point rounding in the connection average: it is taken as a real number.
- The sockets' handshake and receive loops: connecting begins where the handshake was accepted, and asyncio tasks interleave only at their awaits.
- Changes of files during one file-integrity check, and a baseline file that holds JSON other than an object of strings and nulls. A torn write counts as a file that does not parse.
- The detection rules' matchers and the formatting of events: each matcher is an arbitrary predicate.
- Anomaly and risk scores, alert pipeline, quarantine, firewall, USB tracking, console, mobile app and infrastructure.
