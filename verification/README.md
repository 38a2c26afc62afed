# wmux: a verified model

wmux is a daemon that keeps terminal sessions alive behind pseudo-terminals. Its
guarantees rest on small stateful protocols. This project models them in Dafny and
proves what they promise, for every input, every run or every interleaving. Check it
with `dafny verify dfyconfig.toml`.

## How the model is organised

| component | files |
|---|---|
| output pipeline: recycled buffer, watermarks, batcher | `Backpressure`, `Pipeline`, `BatcherObject` |
| command lifecycle: OSC scanner, rows, tracker, writer, crash recovery | `Text`, `Osc`, `OscStream`, `RowTracking`, `Lifecycle`, `CommandService`, `WriterProtocol`, `CommandWriter`, `CrashRecovery`, `Persistence`, `Lifetimes` |
| client and daemon: RPC, frames, history, event bus, attachments, reaper | `Rpc`, `Wire`, `HistoryStream`, `ControlChannel`, `EventBus`, `EventDelivery`, `BusObject`, `Attachments`, `AttachRaces` |
| terminal text: Strip, ToHTML, scrollback rendering | `Ansi`, `AnsiHtml`, `SgrLaws`, `CssLaws`, `Scrollback`, `ScrollbackStyles`, `TerminalText` |
| history quota | `Eviction` |

Objects that update fields are classes whose methods are proved against functions on
values. Concurrent code is a transition system: each section under a mutex, each
channel operation and each wake-up is one step, timers may fire at any time, and the
theorems quantify over all sequences of enabled steps. The classes `Writer`, `Batcher`
and `Bus` carry the same sections as methods and are proved to take exactly those steps.

Text is a `string` with one character per byte; other data are bytes.

## Findings

Where a promise of the code or its comments holds only under a condition, the code is
modelled as it is, a concrete failing case is given and the exact condition is proved.

- Watermarks: Create fills in each missing watermark on its own, so a HighWatermark below
  2 MiB without a LowWatermark leaves a session with low above high.
- Row counter: the comment at internal/daemon/service.go:979-981 speaks of all bytes ever
  scanned; chunks without an OSC result are not counted.
- OSC scanner: a sequence split over two chunks is lost, and an open one swallows what follows.
- RPC: a caller queued on the mutex, or one begun while Close runs, can get the reply of an
  earlier request that timed out; and after a timeout the next call waits for the late reply
  without any timeout.
- History: a lost connection reads as a normal end; a closed but unread history leaves its frames
  for the next request and, if they do not fit into the channel, blocks every later response and
  event; a queued response to another request can be taken for the answer.
- Event bus: subscribing to a closed bus and unsubscribing closes a channel twice.
- Attachments: attaching elsewhere without detaching leaves an attachment that keeps its session
  from being reaped; the halves of attach and detach lie under different locks, and a tick works
  from an earlier listing, so an attached session can be killed as detached.
- Pipeline: between the removal of a session and the stop of its batcher, output is still buffered
  that nobody can read any more. Stop asks and closes in two operations, and a process that exits
  while it is being killed lets two calls close the same channel.
- Command history: a session created anew under an old id does not read the old file, and its
  first save replaces it.
- ANSI: Strip and ToHTML end a CSI sequence at different bytes when it contains a byte outside the
  syntax of section 5.4 of ECMA-48; an empty SGR parameter is skipped instead of resetting.
- Scrollback: a default-styled blank between a styled cell and another shown cell is written under
  the style of the first, so a background colour runs on into it.

## Model

| member | source | states |
|---|---|---|
| `Backpressure.Buffer.Write` | internal/session/backpressure.go:49-92 | appends to the FIFO contents, pauses at the high watermark, keeps `data`, `inFlight`, `spare` on distinct arrays and every loan intact, and reuses the spare array without allocating when it fits |
| `Backpressure.Buffer.Read` | internal/session/backpressure.go:94-135 | returns all contents in order, leaves the buffer empty, resumes by the gauge, and records the drained slice as a loan that `Valid` keeps readable |
| `Backpressure.Buffer.ReadN` | internal/session/backpressure.go:137-182 | returns the first n bytes and keeps the rest; a partial read is a private copy that moves no array of the chain, a full one is a drain |
| `Backpressure.Buffer.Reclaim` | internal/session/backpressure.go:49-58 | an empty buffer takes the spare array back; nothing else changes |
| `Backpressure.Buffer.HandOver` | internal/session/backpressure.go:94-105 | rotates data to inFlight to spare without losing the previous loan |
| `Backpressure.Buffer.CheckResume` | internal/session/backpressure.go:201-205 | unpauses exactly below the low watermark and leaves the contents alone |
| `Backpressure.LoanEndsAtSecondWrite` | internal/session/backpressure.go:49-58 | the loan is no longer than promised: a slice kept past the first Write after the next full drain is overwritten |
| `Backpressure.HysteresisKept` | internal/session/backpressure.go:49-63 | over every run of writes and reads: not paused implies below high, paused implies at or above low |
| `Backpressure.HysteresisExactly` | internal/session/backpressure.go:201-205 | that holds of all runs if and only if 0 < high and low <= high |
| `Backpressure.FullDrainResumesExactly` | internal/session/backpressure.go:94-108 | every full drain of a non-empty buffer unpauses it if and only if low is positive |
| `Backpressure.SessionHysteresisExactly` | internal/session/service.go:185-193 | with the defaults filled in one by one, a session has the hysteresis if and only if its effective low does not exceed its effective high; HighWatermark 1024 alone breaks it |
| `Pipeline.BytesAreConserved` | internal/session/service.go:533-547 | in every interleaving, reads after a pause check that has become stale and ReadOutput calls that outlive the map entry included, the bytes read from the PTY are the delivered ones, then buffer, batch in transit, batcher and chunk in hand, in order; so what is delivered is always a prefix |
| `Pipeline.NoLostWakeup` | internal/session/batcher.go:83-105 | whenever the pending bytes reach a positive threshold and the batcher is not stopped, a token is queued, an Add is about to signal, or the loop has woken, in spite of the non-blocking send on a one-place channel |
| `Pipeline.AddSignalsExactly` | internal/session/batcher.go:83-95 | an Add asks for a flush if and only if the bytes then pending reach a positive threshold |
| `Pipeline.PausedStopsReading` | internal/session/service.go:540-546 | backpressure: while the buffer is paused and the reader has asked, no byte is read in any interleaving until somebody drains it |
| `Pipeline.EveryRun` | internal/session/batcher.go:127-168 | every interleaving keeps conservation, wake-up and the watermark hysteresis together |
| `Pipeline.DeliverableExactly` | internal/session/service.go:505-515 | in every reachable state every byte read so far can still be delivered if and only if it has been, or the session is listed or a ReadOutput has found it, and no byte waits for a batcher loop that has exited |
| `Pipeline.EverythingCanBeDelivered` | internal/session/batcher.go:127-168 | a schedule of flushes, lookups and reads that delivers it |
| `Pipeline.UnlistedDeliversNothing` | internal/session/service.go:295-305 | after the map entry is gone and the last ReadOutput that found it has read, nothing more is delivered, although the batcher may still run |
| `Pipeline.StrandedOutput` | internal/session/service.go:295-305 | a byte read just before the session leaves the map is never delivered in any continuation |
| `Pipeline.OneReadPerLookup` | internal/session/service.go:505-515 | a ReadOutput call reads the buffer at most once |
| `Pipeline.StopIsSafeExactly` | internal/session/batcher.go:115-125 | in a run `done` is closed at most once if and only if no two Stop calls are between check and close together |
| `Pipeline.PanicsExactly` | internal/session/batcher.go:117-125 | the Stop calls in progress close it a second time exactly when there are two of them, or one after a close |
| `Pipeline.KillAndExitCloseTwice` | internal/session/service.go:295-310 | a process that exits while it is being killed: Kill and waitLoop both find the channel open and both close it |
| `BatcherObject.Batcher.AddLocked` | internal/session/batcher.go:83-95 | appends under the lock and asks for a flush exactly if the threshold is positive and the buffer has reached it |
| `BatcherObject.Batcher.Send` | internal/session/batcher.go:89-105 | the non-blocking send leaves exactly one token: the Signal and FlushNow steps |
| `BatcherObject.Batcher.StopChecks` | internal/session/batcher.go:117-121 | the check of Stop: the call goes on exactly if the channel has not been closed yet |
| `BatcherObject.Batcher.StopCloses` | internal/session/batcher.go:121-124 | the close of Stop, whatever happened since the check |
| `BatcherObject.Batcher.Drain` | internal/session/batcher.go:149-168 | takes all pending bytes, or nothing from an empty batch: the DrainBatch step |
| `Lifecycle.HandleKeepsValid` | internal/cmdlifecycle/service.go:182-229 | a command is current exactly while the state is CommandRunning, and the history stays within its bound |
| `Lifecycle.HistoryIsWindow` | internal/cmdlifecycle/service.go:262-269 | over every run the shifted history is the newest maxHistory entries of everything appended, earlier contents included |
| `Lifecycle.HandleHistory` | internal/cmdlifecycle/service.go:182-229 | one marker appends to the history exactly the commands it reports as Finished |
| `Lifecycle.RestoredIsWindow` | internal/cmdlifecycle/service.go:292-311 | restoring gives an idle tracker with the newest maxHistory of the saved history followed by the in-flight command closed as daemon_restart |
| `Lifecycle.EventsAlternate` | internal/cmdlifecycle/service.go:182-258 | over every run Started and Finished strictly alternate and each Finished has the StartRow and StartedAt of its Started |
| `Lifecycle.TrackerFollowsMarkers` | internal/cmdlifecycle/service.go:182-258 | from an idle start the events with all their times, rows, exit codes and orphan reasons, the state and the open command are exactly those read off the marker sequence by a definition that has no state |
| `Lifecycle.CommandsDoNotOverlap` | internal/cmdlifecycle/service.go:182-258 | with rows that never decrease every finished command has StartRow <= EndRow and no command starts before its predecessor ended |
| `CommandService.TrackerObject.AppendHistory` | internal/cmdlifecycle/service.go:262-269 | the in-place shift of the full array computes the bounded append |
| `CommandService.TrackerObject.Handle` | internal/cmdlifecycle/service.go:182-229 | the tracker object does one step of the specified machine, state, history and events |
| `CommandService.TrackerObject.CloseOrphan` | internal/cmdlifecycle/service.go:247-258 | closes the current command at the given row, appends it and reports it |
| `CommandService.TrackerObject.Restore` | internal/cmdlifecycle/service.go:292-311 | the append loop over the saved history yields the restored tracker |
| `CommandService.TrackerObject.Snapshot` | internal/cmdlifecycle/service.go:272-289 | history and in-flight command as they are |
| `CommandService.Service.Register` | internal/cmdlifecycle/service.go:72-81 | a new id gets a tracker object of its own, fresh; a known one an error and no change |
| `CommandService.Service.Unregister` | internal/cmdlifecycle/service.go:83-95 | forgets that tracker only |
| `CommandService.Service.HandleOSC` | internal/cmdlifecycle/service.go:98-127 | the tracker object of one session steps in place, all others stay as they are; a state is saved if and only if some event is Finished, and it is the history and the open command the tracker then holds |
| `CommandService.Service.Snapshot` | internal/cmdlifecycle/service.go:132-140 | what the tracker of the session holds, or an error |
| `CommandService.Service.Restore` | internal/cmdlifecycle/service.go:147-159 | a known id is refused without change, a new one gets a tracker object restored from the state |
| `WriterProtocol.NoLostUpdate` | internal/platform/commands/writer.go:85-101 | over every interleaving with successful I/O a captured state newer than disk and flush in progress has a live wake source and a running goroutine |
| `WriterProtocol.DiskFollowsUpdateOrder` | internal/platform/commands/writer.go:175-209 | the states on disk appear in Update order and the file is always one whole accepted state, whatever I/O fails |
| `WriterProtocol.CloseFlushesEverything` | internal/platform/commands/writer.go:116-171 | when the Close that set the flag returns, and ever after, the disk holds the last accepted Update, if no I/O failed |
| `WriterProtocol.EveryUpdatePersists` | internal/platform/commands/writer.go:129-171 | from every such state the writer can bring the newest captured state to disk by its own steps alone |
| `WriterProtocol.FlushIsDurable` | internal/platform/commands/writer.go:104-113 | when Flush returns without error the disk holds a state at least as new as every Update captured before the request was taken |
| `WriterProtocol.EveryRun` | internal/platform/commands/writer.go:85-209 | the invariant of log, control and wake-up is kept by every run |
| `CommandWriter.Writer.Capture` | internal/platform/commands/writer.go:85-95 | Update under the mutex is the Capture step, and does nothing after Close |
| `CommandWriter.Writer.CloseMark` | internal/platform/commands/writer.go:116-127 | only the first Close is a CloseMark step |
| `CommandWriter.Writer.TakeNotify` | internal/platform/commands/writer.go:129-171 | the notify arm starts the timer unless it is running: the TakeNotify step |
| `CommandWriter.Writer.TakeTimer` | internal/platform/commands/writer.go:129-171 | the TakeTimer step |
| `CommandWriter.Writer.TakeFlushRequest` | internal/platform/commands/writer.go:129-171 | the TakeFlushRequest step |
| `CommandWriter.Writer.TakeClose` | internal/platform/commands/writer.go:129-171 | the TakeClose step |
| `CommandWriter.Writer.FlushCopy` | internal/platform/commands/writer.go:175-189 | copies the newest captured state, or leaves if there is none |
| `CommandWriter.Writer.WriteTmp` | internal/platform/commands/writer.go:190-203 | the temporary file holds the copied state, or the flush fails |
| `CommandWriter.Writer.Rename` | internal/platform/commands/writer.go:203-209 | the file is replaced in one step, or the flush fails |
| `CrashRecovery.CrashLeavesOneSave` | internal/cmdlifecycle/service.go:113-127 | at any crash point the file is the one found at boot or exactly one state saved after a Finished event, and recovery gives an idle tracker with that window plus at most one daemon_restart orphan, trimmed to maxHistory |
| `Persistence.EveryFinishIsSaved` | internal/cmdlifecycle/service.go:113-127 | over every run until the writer is closed, the states the writer has accepted, with the one on its way to it, are exactly the snapshots after each marker that finished a command, in order |
| `Persistence.EveryClosedCommandPersists` | internal/platform/commands/writer.go:129-209 | from every state of every run with the writer open and no failed I/O the own steps of the program lead to a disk from which recovery returns every command closed so far |
| `Persistence.FinishesExactly` | internal/cmdlifecycle/service.go:182-229 | a marker emits a Finished event exactly if it counts and the newest counting one before it is a C |
| `CrashRecovery.EveryRun` | internal/platform/commands/writer.go:175-209 | every state the writer ever holds is a save of the tracker, over all interleavings of markers and writer steps |
| `CrashRecovery.RecoveredFromSave` | internal/daemon/reconcile.go:51-77 | Load then Restore of a save is that window and orphan |
| `CrashRecovery.FinishingMarker` | internal/cmdlifecycle/service.go:182-229 | a marker that finishes a command leaves one open only if it is a C, and then the command opened by it |
| `CrashRecovery.RecoverReadsBack` | internal/platform/commands/reader.go:20-44 | a written file restores, or is refused for a registered session; a missing one and one of a future version are skipped; an unreadable or corrupt one fails, and nothing else does |
| `Lifetimes.EveryCrash` | internal/daemon/reconcile.go:51-77 | after any number of crashes, restarts, exits and re-creations the file is absent or exactly one save of one of these lives, and the next daemon starts idle with the newest maxHistory of every command closed up to that save since the session was last created anew, plus at most one daemon_restart orphan |
| `Lifetimes.BootReadsLedger` | internal/daemon/reconcile.go:51-77 | booting from such a file reads back the ledger it stands for |
| `Lifetimes.RecreationForgets` | internal/daemon/service.go:427-438 | a session created anew leaves the old file until its first save, and from then on nothing of the earlier lives comes back, whatever follows |
| `Lifetimes.RecreationExample` | internal/daemon/service.go:253-267 | one command, an exit, a new session with one command: the file stands for the second alone |
| `Osc.ParseOSC` | internal/daemon/osc.go:47-134 | the cursor loop yields the scan of the specification |
| `Osc.PickEndIsFirst` | internal/daemon/osc.go:138-150 | choosing between the two searches gives the first terminator, ST or BEL |
| `Osc.OffsetsIncrease` | internal/daemon/osc.go:47-134 | offsets are strictly increasing and inside the chunk |
| `Osc.ScanSplits` | internal/daemon/osc.go:47-134 | a chunk that closes what it opens and does not end in ESC can be scanned apart from any continuation, offsets shifted |
| `Osc.CutMessageIsLost` | internal/daemon/osc.go:47-134 | a notification cut after its ESC yields nothing in either chunk |
| `Osc.SplitSafeExactly` | internal/daemon/osc.go:47-134 | and it can if and only if that is so |
| `OscStream.PrintedIsParsed` | internal/daemon/osc.go:47-134 | round trip: any printed sequence of messages, among any text that opens no OSC sequence, colours included, parses to the meanings of the messages, in order, at their positions, with either terminator |
| `OscStream.BodyIsRead` | internal/daemon/osc.go:69-130 | each message number is read as the kind and value its sender meant |
| `OscStream.OthersAreIgnored` | internal/daemon/osc.go:69-130 | any other number, and a body without one, yields no result |
| `OscStream.ShortForms` | internal/daemon/osc.go:91-130 | notifications with fields missing are read as what there is |
| `RowTracking.ExitCodeIsRead` | internal/daemon/service.go:1041-1057 | a finish marker carries its exit code back, whatever follows it, and no other marker carries one |
| `Text.AtoiOfMalformed` | internal/daemon/service.go:1053-1055 | an exit code that is no number reads as 0 |
| `Text.AtoiOfOthers` | internal/daemon/service.go:1053-1055 | a plus sign is accepted and a number out of range is clamped |
| `RowTracking.CountRows` | internal/daemon/service.go:991-1039 | the lazy counting between markers gives every marker the newlines before it in its chunk on top of the counter, and the counter all newlines of the chunk |
| `RowTracking.Scanner.ScanOSC` | internal/daemon/service.go:982-1039 | one chunk advances one counter and passes the markers with their rows; a chunk without result changes nothing |
| `RowTracking.CounterIsCounted` | internal/daemon/service.go:982-986 | the counter is the newlines of all chunks that yielded a result |
| `RowTracking.MarkerRow` | internal/daemon/service.go:1005-1026 | each marker carries the line feeds of all earlier chunks with a result plus those before it in its own chunk, by counting positions |
| `RowTracking.CounterCountsEverythingExactly` | internal/daemon/service.go:976-981 | it is the newlines of all bytes ever scanned if and only if no chunk without result has a newline |
| `RowTracking.PlainLineIsNotCounted` | internal/daemon/service.go:982-986 | a lone line feed is printed and never counted |
| `RowTracking.RowsNeverDecrease` | internal/daemon/service.go:982-1039 | over any chunk sequence the rows passed on never decrease |
| `RowTracking.CommandsOfASessionDoNotOverlap` | internal/cmdlifecycle/service.go:182-258 | from raw chunks to history: commands of a session have StartRow <= EndRow and do not overlap |
| `Rpc.EveryCallGetsItsOwnResponse` | pkg/client/client.go:239-277 | calls issued one at a time, none after Close: every successful one returns the response to its own request, for any timeouts, late or reordered replies, events and connection loss |
| `Rpc.EveryDisciplinedRun` | pkg/client/client.go:239-277 | every such run keeps at most one reply outstanding, owned by the waiting call or the one drain |
| `Rpc.ForeignResponseExactly` | pkg/client/client.go:246-277 | in every reachable state a call about to write can receive a foreign response if and only if an earlier reply can still come, from the slot even after the reader has gone |
| `Rpc.ReachablePlaces` | pkg/client/client.go:246-277 | in every run at most one call holds the mutex, and the response slot holds exactly the one reply that is placed there |
| `Rpc.QueuedCallerCanGoWrong` | pkg/client/client.go:239-250 | whenever a caller queued on the mutex has passed the drain wait, a timeout of the running call can hand it the wrong reply |
| `Rpc.CallDuringCloseCanGoWrong` | pkg/client/client.go:222-236 | closing `done` releases the drain while the connection lives, so a call begun then can get the stale reply |
| `Rpc.OverlappingCallsFail` | pkg/client/client.go:239-250 | the first of these situations is reachable |
| `Rpc.CallDuringCloseFails` | pkg/client/client.go:222-236 | and so is the second, with calls one at a time |
| `Rpc.SafeStays` | pkg/client/stream.go:96-120 | a call that wrote with nothing outstanding can only be answered by its own reply, whatever else happens |
| `Rpc.NextCallWaitsExactly` | pkg/client/client.go:237-245 | while the daemon is silent a call that waits for drains gets past that wait if and only if replies for all drains are already there or the client is being closed |
| `Rpc.NextCallHangs` | pkg/client/client.go:237-245 | after one timeout the next call stays in that wait in every such run, instead of timing out |
| `Wire.Encode` | internal/platform/protocol/service.go:15-38 | writes exactly the frame bytes, nothing at all for an oversized payload, and on a failing connection a strict prefix and an error |
| `Wire.Decode` | internal/platform/protocol/service.go:44-80 | consumes and returns what the specification says; a read error other than the end of input is reported as such |
| `Wire.RoundTrip` | internal/platform/protocol/service.go:15-80 | a written frame reads back as itself and leaves the following bytes; another version is refused |
| `Wire.HeaderBytes` | internal/platform/protocol/service.go:20-24 | version, kind, and the payload length most significant byte first |
| `Wire.DecodedWasEncoded` | internal/platform/protocol/service.go:44-80 | accepted bytes are exactly the encoding of the returned frame |
| `Wire.StrictPrefixIsShort` | internal/platform/protocol/service.go:44-80 | every strict prefix of a frame gives ErrShortRead |
| `Wire.ShortReadExactly` | internal/platform/protocol/service.go:44-80 | ErrShortRead comes from exactly the short headers and the strict prefixes of frames |
| `Wire.HeaderErrorsExactly` | internal/platform/protocol/service.go:53-64 | the other two errors by the header bytes: a version other than 1, or a declared length over 4 MiB |
| `Wire.FramesReadBack` | internal/platform/protocol/service.go:15-80 | a sequence of frames decodes to itself, whatever follows |
| `Wire.StreamSplits` | internal/platform/protocol/service.go:44-80 | any byte stream is the encoding of the frames decoded from it followed by the bytes that failed |
| `Wire.FramesAreUnique` | internal/platform/protocol/service.go:15-80 | concatenated frames decode uniquely |
| `Wire.CutConnection` | internal/platform/protocol/service.go:44-80 | a connection cut at any byte yields exactly the frames written in full and then ErrShortRead |
| `HistoryStream.SendHistory` | internal/daemon/service.go:1761-1786 | the capped snapshot goes out in chunks followed by one end frame, as far as the connection takes it |
| `HistoryStream.CappedIsPrefix` | internal/daemon/service.go:1761-1763 | the cut is a prefix as long as the limit allows, and only a positive limit cuts |
| `HistoryStream.ChunksAreFull` | internal/daemon/service.go:1765-1780 | no chunk is empty or too large for the codec, and only the last can be short |
| `HistoryStream.ReadControl` | pkg/client/stream.go:96-120 | frames of kind 0x0A go to the event handler, 0x19 and 0x1A to the history, all others to the responses, in order, until the connection fails |
| `HistoryStream.DemuxKeepsAll` | pkg/client/stream.go:96-120 | every decoded frame is at its place in exactly one of the three, and none is repeated |
| `HistoryStream.HistoryReader.Read` | pkg/client/recording.go:65-97 | one read copies the specified bytes to the front of the caller's buffer and leaves the rest of it alone |
| `HistoryStream.OpenHistory` | pkg/client/recording.go:128-164 | a request that could not be written takes nothing; else the select takes one frame and builds the reader, the empty reader or the error |
| `HistoryStream.ReadStep` | pkg/client/recording.go:65-97 | a read hands over the next bytes owed, fails only when nothing is owed, and makes progress on a non-empty buffer |
| `HistoryStream.EofStays` | pkg/client/recording.go:76-78 | after the end every read reports EOF again |
| `HistoryStream.ReadsDeliver` | pkg/client/recording.go:65-97 | any sequence of reads returns a prefix of what is owed and ends exactly after all of it |
| `HistoryStream.HistoryArrives` | internal/daemon/service.go:1761-1786 | end to end: for all snapshots, limits, event interleavings and buffer sizes the caller gets the capped snapshot in order, then EOF, and nothing stays in the channel |
| `HistoryStream.SureToOpenExactly` | pkg/client/recording.go:141-164 | a history request is sure to open if and only if no other response is queued |
| `HistoryStream.CutHistoryEndsSilently` | pkg/client/recording.go:80-84 | a connection that carries the reply among any other frames, cut anywhere, gives a prefix and a plain EOF; the prefix is complete if and only if the last chunk frame arrived |
| `HistoryStream.ReplyIsHistory` | pkg/client/stream.go:113-114 | the whole reply is routed to the history channel |
| `ControlChannel.GoesOnExactly` | pkg/client/stream.go:96-120 | with the history abandoned, the first n frames on the connection get through if and only if the frames of kind 0x19 and 0x1A among them fit into the four places of the channel |
| `ControlChannel.AbandonedReplyBlocks` | pkg/client/recording.go:99-102 | a response behind a longer abandoned reply is never delivered |
| `HistoryStream.NextHistoryExactly` | pkg/client/recording.go:99-102 | after an abandoned reader the next history gets its own data, whatever that is, if and only if nothing of the earlier reply was left |
| `EventBus.ChannelsAreSafe` | internal/platform/event/service.go:25-32 | in every interleaving no send on a closed channel, and a channel is closed twice exactly when Unsubscribe completed on a subscription made after Close |
| `EventBus.LateUnsubscribePanics` | internal/platform/event/service.go:64-83 | such a double close happens |
| `EventBus.SomeCallCanRun` | internal/platform/event/service.go:113-142 | whenever a call has not returned some call can step, even if a waiting writer keeps readers out |
| `EventBus.EveryScheduleReturns` | internal/platform/event/service.go:107-130 | after every interleaving each way of letting the calls run on ends within a bound, and where no call can take another step all have returned: no cycle between once and the lock |
| `EventBus.NoDeadlock` | internal/platform/event/service.go:107-130 | such a continuation exists |
| `EventDelivery.SubscribersGetEventsInOrder` | internal/platform/event/service.go:85-107 | with one Publish at a time a subscriber gets an in-order subsequence of the matching events published while it was listed, short by exactly the sends that met a full buffer |
| `EventDelivery.OnlyWhatWasAskedFor` | internal/platform/event/service.go:94-99 | in every interleaving no subscriber holds or has received an event of a kind that is not in its filter |
| `EventDelivery.OfferExactly` | internal/platform/event/service.go:94-106 | a send is queued if and only if there is no filter or the kind is in it and fewer than 256 events are queued; it is dropped if it was asked for and the buffer is full |
| `EventDelivery.FiltersAreKept` | internal/platform/event/service.go:52-83 | in every run each subscription keeps the filter its call asked for |
| `EventDelivery.ConcurrentPublishersReorder` | internal/platform/event/service.go:85-107 | two publishers at once can deliver out of publication order |
| `BusObject.Bus.Subscribe` | internal/platform/event/service.go:64-83 | the subscribe step, both branches; the new subscription has the filter asked for |
| `BusObject.Bus.Publish` | internal/platform/event/service.go:85-107 | each listed subscriber without a filter, or with the kind in its filter, and with fewer than 256 events queued gets the event, no other does; run alone, the loop is a run of the publishing steps |
| `BusObject.Bus.Unsubscribe` | internal/platform/event/service.go:25-32 | waits exactly while another call runs `once`; else, run alone, it is a run of its steps: removed from the list and closed, or nothing the second time |
| `BusObject.Bus.RemoveSub` | internal/platform/event/service.go:132-142 | the list loses the first occurrence of the subscription and nothing else |
| `BusObject.Bus.Close` | internal/platform/event/service.go:113-130 | run alone, the call is a run of its steps: list emptied, channels closed one by one up to a subscription whose `once` another call is running |
| `Attachments.EveryRun` | internal/daemon/service.go:569-580 | every run of atomic handlers and ticks keeps: a recorded client is in the set of its session, no set is empty, a detached session has no client |
| `Attachments.ReaperSparesAttached` | internal/session/reaper.go:56-80 | in every run a tick removes exactly the detached sessions idle for the TTL, and none of them has an attached client in either map |
| `Attachments.ReapedByTheClock` | internal/session/reaper.go:56-75 | by the clock: a tick takes exactly the detached sessions whose last output, or start without any, is the TTL or longer ago |
| `Attachments.RecentOutputSurvives` | internal/session/reaper.go:63-75 | output keeps a session: within the TTL of its last output no tick takes it |
| `Attachments.DetachedExactly` | internal/session/service.go:322-347 | a session some client attached to is detached if and only if no client is attached |
| `Attachments.InverseExactly` | internal/daemon/service.go:651-671 | a step keeps the two maps inverses if and only if the client detaches, from the session it is recorded for, before it attaches elsewhere |
| `Attachments.PoliteRunsStayInverse` | internal/daemon/service.go:569-580 | in runs of such steps the maps stay exact inverses |
| `Attachments.DisconnectForgetsExactly` | internal/daemon/service.go:702-732 | a disconnect removes every attachment of the client if and only if it was attached to its recorded session only |
| `Attachments.StaleAttachmentPins` | internal/daemon/service.go:575-579 | after attaching elsewhere without detaching and disconnecting, the first session stays attached and unreaped in every continuation in which that client does not come back to it and nobody kills it |
| `Attachments.StaleStays` | internal/session/reaper.go:56-80 | the same from any state with a stale attachment |
| `Attachments.StaleStepExactly` | internal/daemon/service.go:651-671 | a step ends a stale attachment if and only if it is the client detaching from or attaching to that session, or its end |
| `AttachRaces.HalfKeepsExactly` | internal/daemon/service.go:569-580 | each half of a handler keeps detached sessions free of clients if and only if it neither enters a client into a detached session nor detaches a session that has clients |
| `AttachRaces.DetachedHasNoClient` | internal/daemon/service.go:658-673 | over all interleavings of the halves of any number of calls: in every run where no attach to a session overlaps the last detach from it, the session has no client while detached |
| `AttachRaces.OverlapExactly` | internal/daemon/service.go:658-673 | two calls in progress can leave a client on a detached session if and only if they are such an overlap |
| `AttachRaces.FirstOverlapBreaks` | internal/daemon/service.go:658-673 | so the first overlap of any run is one from which it goes wrong |
| `AttachRaces.OverlapIsReachable` | internal/daemon/service.go:702-732 | a run that ends with a client attached to a detached session |
| `AttachRaces.ReapsExactly` | internal/session/reaper.go:56-80 | whoever is attached, a tick kills a session it visits if and only if its listing had it detached and it is idle for the TTL |
| `AttachRaces.ReaperSparesAttached` | internal/session/reaper.go:56-80 | over all interleavings: if no attach to a session overlaps its last detach or a tick that listed it as detached, the reaper never kills it with a client attached in either map |
| `AttachRaces.StaleListingExactly` | internal/session/reaper.go:56-80 | an attach finished before the visit of a tick gets the session killed if and only if the tick had listed it as detached and it is idle |
| `AttachRaces.CommittedKillIsBlind` | internal/session/reaper.go:67-75 | a tick that has looked and not yet killed kills the session whatever attaches meanwhile |
| `AttachRaces.StaleListingIsReachable` | internal/session/reaper.go:56-80 | a run that reaches such a kill |
| `Attachments.Daemon.HandleAttach` | internal/daemon/service.go:556-580 | the attach step; an unknown session changes nothing |
| `Attachments.Daemon.HandleDetach` | internal/daemon/service.go:651-673 | the detach step: the last client to leave detaches the session |
| `Attachments.Daemon.DetachClient` | internal/daemon/service.go:702-732 | the disconnect step |
| `Attachments.Daemon.CreateSession` | internal/session/service.go:153-173 | refuses an invalid id, a known id, a full service and a failed spawn, in this order and without change, else adds an alive session |
| `Attachments.Daemon.KillSession` | internal/session/service.go:295-306 | removes that session only |
| `Attachments.Daemon.ServiceAttach` | internal/session/service.go:322-333 | a detached session becomes alive |
| `Attachments.Daemon.ServiceDetach` | internal/session/service.go:336-347 | an alive session becomes detached |
| `Attachments.Daemon.ReaperTick` | internal/session/reaper.go:56-80 | the loop over the listing, in any order, is the tick step and reports exactly the sessions it removed |
| `Ansi.Strip` | internal/platform/ansi/strip.go:8-56 | the index loop computes the specified text |
| `TerminalText.StripOfPrinted` | internal/platform/ansi/strip.go:8-56 | for any sequence of texts, CSI sequences, OSC commands with either terminator and two-byte escapes, written by their byte values, Strip leaves exactly the texts |
| `TerminalText.EscapeIsInvisible` | internal/platform/ansi/strip.go:18-50 | an escape other than SGR changes neither what Strip leaves of the rest nor what the document shows of it |
| `TerminalText.UnendedCommandSwallows` | internal/platform/ansi/strip.go:33-46 | an OSC command without its end swallows the rest, in both |
| `TerminalText.OscEndIs` | internal/platform/ansi/strip.go:33-46 | an OSC sequence ends one past BEL, two past the ESC of ST, or at the end of the data |
| `Ansi.SameCsiEndExactly` | internal/platform/ansi/strip.go:19-31 | at an escape Strip and the sequence syntax of section 5.4 of ECMA-48 continue at the same byte if and only if the sequence has its final byte in place or is cut off |
| `Ansi.StripIsVisibleText` | internal/platform/ansi/strip.go:8-56 | on such input Strip is the visible text of the token sequence |
| `Ansi.StrayByteDiffers` | internal/platform/ansi/strip.go:19-31 | a control byte inside a CSI sequence makes the two scanners differ |
| `Ansi.TextsMayCoincide` | internal/platform/ansi/strip.go:19-31 | the condition is not necessary for the final texts to agree |
| `Ansi.NoEscapeSurvives` | internal/platform/ansi/strip.go:8-56 | no escape byte is left in any output |
| `Ansi.StripIsIdempotent` | internal/platform/ansi/strip.go:8-56 | stripping twice is stripping once |
| `AnsiHtml.ToHTML` | internal/platform/ansi/html.go:83-166 | the loop with its open-span flag writes the document of the specification |
| `TerminalText.HtmlOfPrinted` | internal/platform/ansi/html.go:83-166 | for any such sequence the document shows exactly the texts, each in the style built by the SGR sequences before it |
| `AnsiHtml.ApplySGR` | internal/platform/ansi/html.go:169-247 | the loop over codes is the fold over them, extended colours consuming their operands |
| `AnsiHtml.ReadBack` | internal/platform/ansi/html.go:83-166 | the written document reads back to the same items: escaping and spans are unambiguous |
| `SgrLaws.LastChangeWins` | internal/platform/ansi/html.go:169-247 | for every parameter string each attribute ends as the newest parameter that concerns it says, and keeps its value without one; malformed words and colours without operands say nothing |
| `SgrLaws.EmptyParameterExactly` | internal/platform/ansi/html.go:169-247 | for every parameter string, reading empty parameters as 0 gives the same rendition if and only if at the last of them every aspect is the default or is set again later |
| `SgrLaws.EmptyParameterKeepsBold` | internal/platform/ansi/html.go:169-247 | bold followed by an empty parameter stays bold |
| `SgrLaws.WrittenIsRead` | internal/platform/ansi/html.go:169-247 | round trip: changes written as parameters are read as those changes, operands and all |
| `AnsiHtml.HtmlShowsStyledText` | internal/platform/ansi/html.go:83-166 | for all input: spans are balanced and never nested, and each visible byte is shown in the style folded from the SGR sequences before it |
| `AnsiHtml.HtmlTextIsStrip` | internal/platform/ansi/html.go:83-166 | on input where the two scanners stay in step the text of the document after unescaping is Strip of the input |
| `AnsiHtml.StyleQuoteless` | internal/platform/ansi/html.go:37-58 | style attributes never contain the quote that delimits them |
| `CssLaws.StyleDeclares` | internal/platform/ansi/html.go:37-58 | each attribute has its own CSS declaration and no other |
| `CssLaws.Palette` | internal/platform/ansi/html.go:61-80 | the colour cube in steps of 51, the greys from 8 in steps of 10, nothing outside the palette |
| `Scrollback.RenderScrollbackFrom` | addons/charmvt/render.go:13-93 | Strip of the rendering is, row by row, the row without trailing default-styled blanks and one CRLF |
| `Scrollback.RenderRow` | addons/charmvt/render.go:35-80 | one row: pending blanks come out only before a shown cell, style changes strip away |
| `Scrollback.LastShownExactly` | addons/charmvt/render.go:44-61 | what is trimmed is exactly the trailing columns that are missing, or empty or a space in the default style |
| `Scrollback.ColumnsAreCells` | addons/charmvt/render.go:70-79 | one character per column: the cell content, or a space |
| `Scrollback.StripsAppend` | internal/platform/ansi/strip.go:8-56 | texts that strip on their own before any continuation strip piece by piece |
| `ScrollbackStyles.ScrollbackShows` | addons/charmvt/render.go:13-93 | the output shows, row by row, every shown cell in its own style and every held-back blank in the style to its left, and ends in the default style |
| `ScrollbackStyles.ResetIsPlain` | addons/charmvt/render.go:97-100 | the reset is an SGR sequence that takes every attribute to its default |
| `ScrollbackStyles.OwnStyleExactly` | addons/charmvt/render.go:60-64 | every column of a row appears in its own style if and only if none is a default-styled blank to the right of a styled cell |
| `ScrollbackStyles.BlankBleeds` | addons/charmvt/render.go:60-70 | such a blank takes over the style, a background for example |
| `Eviction.EvictLRU` | internal/platform/history/dirops.go:121-161 | never evicts an active session, ends within the limit or with no completed one left, no older completed session survives an evicted one, every single eviction was needed, and a failed removal stops at the oldest survivor |
| `Eviction.SortCompleted` | internal/platform/history/dirops.go:136-146 | lists every completed directory once, oldest first |
| `Eviction.PrefixIsFair` | internal/platform/history/dirops.go:148-158 | any oldest-first prefix cut no later than where the limit is met is such an eviction |

## Left out

- The terminal emulator: scrollback is a grid of single-width cells, and a style is zero or one complete SGR string.
- Operating-system calls: PTYs, signals, process wait, sockets, peer credentials; failures of writes and renames are step parameters.
- JSON is taken as the identity on what is saved, and rename as atomic.
- `url.Parse` is any finite map from accepted URLs to paths, `strconv.Atoi` and `html.EscapeString` are written out for the inputs that occur.
- Real time: clocks are inputs, timers and tickers are steps that may happen at any moment.
- `sync.Pool`: pooled slices are fresh.
- Integer widths: sizes, rows and totals are unbounded integers; only the length field of a frame has its 32 bits.
- The wiring of pkg/client/daemon.go, where tracker and daemon get two separate repositories: recovery is proved for the shared one of internal/daemon/module.go.
- Delivery of data frames to clients beyond ReadOutput, heartbeats, ParseDA, payload encodings, kill by prefix: easier members of the same kind.
- Session ids reused before the killed process has been waited for.
- The command-line tools, tmux shim, configuration, tracer, logger and PID files.
- Backpressure.Buffer.ReadN: a negative count on a non-empty buffer panics in the source and is excluded by the precondition.
- Rpc.EveryCallGetsItsOwnResponse: sendRequest is modelled on values as a transition system, without a class for the client; the mutex, wait group and channel are parts of the state. History requests do not take part in it.
- HistoryStream.HistoryArrives: a channel is the frames that will arrive on it, so the moments of waiting are not modelled.
- HistoryStream.ReadControl: likewise; the capacities of the channels, and when they block the loop, are in `ControlChannel`.
- CommandService.Service.HandleOSC: the tracker's and the service's locks are not modelled; markers are handled one after the other, as the one broadcaster goroutine does (internal/daemon/service.go:739-752).
- BusObject.Bus.Publish: subscriptions are numbers into a list of their states, not heap objects; Publish, Unsubscribe and Close as methods run without interruption, interleavings are those of the transition system.
- AnsiHtml.HtmlTextIsStrip: one direction only, because the texts can agree by chance on input where the scanners disagree (`Ansi.TextsMayCoincide`); per escape sequence the agreement is characterised exactly.
- ScrollbackStyles.ScrollbackShows: a style's SGR string is taken to replace the style in force, as the comment at addons/charmvt/render.go:95-96 says; what the terminal library's strings contain is not part of this model.
- Eviction.EvictLRU: directories without metadata are not part of the listing, and `sort.Slice` is an insertion sort whose contract any sort by end time meets.
- Attachments.Daemon.CreateSession: the id syntax and the outcome of the spawn are inputs, and waiting for a spawn slot is not modelled.
