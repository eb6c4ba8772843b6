# A verified model of the vehicle interface firmware's protocol cores

The firmware connects a host to vehicle buses. This project models the parts of
it that decide what is right on the wire and proves what they promise, over all
inputs, all runs and all interleavings:

- ISO 15765-2 transport (`IsoTp*.dfy`): both state machines as objects updated in
  place, proved equal to value functions; soundness of the receiver in every run
  and under losses, termination and pacing of the sender, and delivery end to end.
- SAE J1850 (`J1850*.dfy`, `Vpw*.dfy`, `Pwm*.dfy`): both codecs, the agreement of
  the three PWM decoders, and bitwise arbitration by the VPW contention monitor.
- J2534 scheduling and transmit admission (`Scheduler*.dfy`, `TxControl.dfy`,
  `RxEpoch.dfy`, `CheckedTx.dfy`, `TxWorker*.dfy`): jobs on a wrapping clock, and
  the lock-free protocols between tasks as atomic steps.
- Queues and framing (`RxRing.dfy`, `Wire*.dfy`, `KLine*.dfy`).
- Shutdown of interrupt callbacks (`CallbackGate.dfy`) and ELM327 adaptive reply
  timing (`AdaptiveTiming.dfy`).

Readings of the 32-bit microsecond counter are integers below 2^32 with an
explicit signed difference (`Clock.dfy`); where a theorem speaks of time it
speaks of the true time behind the readings. Code that updates objects and
buffers in place is a class or a method on arrays, and its `ensures` ties it to
a function of the old value; the theorems are about those functions. What a
decoder, a filter, a time-out or a framer decides is stated against the numbers of
its standard and the bits of its inputs, not in the model's own terms. Calls of
foreign code are parameters: the clock, the bus level, the answers of the J2534
core by number of the call. `dafny verify dfyconfig.toml` checks everything.

Every lemma carries `{:induction false}`: all inductions are written out.

## Findings

- A receiver with a consecutive frame outstanding can complete with bytes of two
  messages if it loses the first frame of a later one, however few frames are
  lost (`IsoTpLossy.LostFirstFrameSplices`). It takes a frame of any message whose
  number agrees modulo 16 with the one it wants (`IsoTpLossy.AnyFrame`); where no
  frame without its own first frame does, it never completes wrongly, and no
  bound on the number of lost frames is needed (`IsoTpLossy.NeverWrongComplete`).
  A silence as long as the receiver's time-out before such a frame is enough
  (`IsoTpLossy.PatientIsUnspliced`).
- A repeat job compares frame stamps with its creation time on the wrapping
  clock, and that time is never refreshed: 35.8 minutes after its creation it is
  deaf for as long again. A repeat-until job in ordinary service then goes on
  after its answer, at every interval it can have
  (`SchedulerRuns.DeafAfterHalfAWrap`); `SchedulerRuns.FrameStopsExactly` has the
  exact law, and `SchedulerRuns.SchedulerSafe` the true-time guarantee before that.
- Equality of the acknowledged and the current receive sequence means that
  everything was processed if and only if the bus has at most one producer of
  sequence numbers (`CheckedTx.AdmissionSafeExactly`).
- A matching frame and the report of a transmission end do not always commute
  for a repeat-while job; `Scheduler.MatchAndEndCommute` has the exact condition.
- A KWP request whose header carries no addresses is not parsed with its own
  length, except by coincidence; `KLineStreams.RequestLength` has the exact
  condition.
- A request accepted while the task is on its way from the one before can be
  lost to closing: the task sees the stop flag and exits with the request pending
  (`TxWorker.DroppedAtClose`). `TxWorker.CompletesExactly` says exactly when a
  request can still be completed.

## Model

| member | source | states |
|---|---|---|
| `Clock.SignedDiff` | main/j2534_scheduler.c:4-6 | the signed 32-bit difference is the one value within half a wrap that leads from one reading to the other |
| `Clock.ReadingsCompare` | main/isotp.c:6-8 | comparing two readings compares the true instants behind them whenever these are within half a wrap of each other, however often the counter has wrapped |
| `IsoTp.StminUs` | main/isotp.c:52-59 | milliseconds up to 7F, hundreds of microseconds from F1 to F9, and 127 ms for every reserved value |
| `IsoTp.Announced` | main/isotp.c:102-116 | a single frame announces no more than it carries, a first frame more than a single frame could and at most 4095 bytes; anything else is refused |
| `IsoTp.RxFeed` | main/isotp.c:92-167 | every frame leaves a well-formed receiver: inside the buffer, flow status 0 or 2, block counter below the block size; what it does is stated by IsoTpAnswers.FeedExactly and IsoTpFilter.StrangersIgnored |
| `IsoTp.RxFlowControl` | main/isotp.c:169-182 | taking the flow control keeps the receiver well formed |
| `IsoTp.RxConfirm` | main/isotp.c:184-197 | confirming the flow control keeps the receiver well formed, whatever the result |
| `IsoTpFilter.ValidIdBits` | main/isotp.c:10-13 | an identifier is valid if and only if no bit is set above the 29, or 11, that its own width flag in bit 31 allows |
| `IsoTpFilter.AgreeOnBits` | main/isotp.c:22-28 | the comparison under the mask compares every bit of the mask |
| `IsoTpFilter.FullMask` | main/isotp.c:22-28 | with all 32 bits in the mask only the one identifier agrees |
| `IsoTpFilter.ListensExactly` | main/isotp.c:22-28 | a frame is listened to if and only if it has the wanted identifier in every bit of the mask and in width, the address if there is one, and a possible identifier and length |
| `IsoTpFilter.StrangersIgnored` | main/isotp.c:70-167 | in every run any other frame is ignored and changes nothing, except that it ends a wait that is over like any other call |
| `IsoTpTimeouts.ReceiverTimesOut` | main/isotp.c:70-77 | in every run on true time: a call that looks at the clock ends the wait in READY, CONFIRM or CF with the error of that phase if and only if it comes at least the configured time-out, and less than half a wrap more, after the frame was taken, the flow control handed out or its sending accepted; nothing else is called a time-out |
| `IsoTpAnswers.FeedExactly` | main/isotp.c:92-167 | for every frame that is listened to, by its first byte: single frames (00-0F), first frames (10-1F), consecutive frames (20-2F) and all else; what is ignored, refused for its size or its number, taken and completed, with which segment, and what is awaited next |
| `IsoTpAnswers.FlowControlExactly` | main/isotp.c:169-182 | a flow control is handed out if and only if one is due: 30 or 32, block size and separation, padding everywhere else |
| `IsoTpAnswers.ConfirmExactly` | main/isotp.c:184-197 | once it is sent the receiver awaits consecutive frames; after an overflow or a failed sending it is idle |
| `IsoTpMachine.Receiver.constructor` | main/isotp.c:61-68 | the object starts as the initial value of the model |
| `IsoTpMachine.Receiver.CheckTimeout` | main/isotp.c:70-77 | in-place time-out equals the model |
| `IsoTpMachine.Receiver.Copy` | main/isotp.c:79-90 | the byte loop overlays the buffer at the running offset and touches nothing else |
| `IsoTpMachine.Receiver.Feed` | main/isotp.c:92-167 | one call takes the object, buffer included, from one model value to the next and returns the same code and segment |
| `IsoTpMachine.Receiver.FlowControl` | main/isotp.c:169-182 | state, return code and frame are those of the model |
| `IsoTpMachine.Receiver.Confirm` | main/isotp.c:184-197 | state and return code are those of the model |
| `IsoTpMachine.Sender.constructor` | main/isotp.c:199-204 | the object starts as the initial value of the model |
| `IsoTpMachine.Sender.Start` | main/isotp.c:206-225 | accepted, busy and bad-argument cases are those of the model |
| `IsoTpMachine.Sender.CheckTimeout` | main/isotp.c:227-235 | in-place time-out equals the model |
| `IsoTpMachine.Sender.FlowControl` | main/isotp.c:237-270 | go-ahead, WAIT, overflow and invalid status are those of the model |
| `IsoTpMachine.Sender.NextFrame` | main/isotp.c:272-305 | state, return code and emitted frame are those of the model |
| `IsoTpMachine.Sender.Confirm` | main/isotp.c:307-335 | state and return code are those of the model |
| `IsoTpSegmentation.FrameCount` | main/isotp.c:272-305 | 1 frame, or the least number whose capacity (6 - a in the first, 7 - a in each other) holds the payload |
| `IsoTpSegmentation.DataFrameReads` | main/isotp.c:272-305 | address, header, length and payload slice can be read back from the frame built |
| `IsoTpSegmentation.NthFrameCarries` | main/isotp.c:23-28 | frame k of a transfer is accepted by the linked receiver and carries slice k with sequence number k mod 16 |
| `IsoTpReceiver.StepSound` | main/isotp.c:70-197 | every single call keeps counters and buffer in step with what an onlooker of the returned segments has gathered |
| `IsoTpReceiver.ReceiverSound` | main/isotp.c:70-197 | for every run: segments are contiguous from 0, the buffer prefix is exactly the accepted bytes and nothing else was touched, the i-th accepted consecutive frame carries i mod 16, and awaiting one implies offset < total <= capacity and flow status 0 |
| `IsoTpLossy.AnyFrame` | main/isotp.c:143-167 | a receiver that wants frame w of one message and gets consecutive frame k of any message does not look at it if it is too short, takes it if and only if k and w agree modulo 16, and gives up otherwise |
| `IsoTpLossy.GapDetection` | main/isotp.c:143-167 | within one message: taken exactly when the number of frames missing before it is a multiple of 16; any other gap ends the reception |
| `IsoTpLossy.NeverWrongComplete` | main/isotp.c:92-167 | any number of transfers, any losses: with order kept, and no frame that lacks its own first frame being one the receiver would take, a message is reported complete only with exactly the bytes sent |
| `IsoTpLossy.PatientIsUnspliced` | main/isotp.c:70-197 | what a caller can check: on true time, if every frame that lacks its own first frame comes at least the time-out for consecutive frames, and less than half a wrap more, after the last segment handed over or flow control confirmed, the receiver takes none of them |
| `IsoTpLossy.LostFirstFrameSplices` | main/isotp.c:92-197 | the condition cannot be dropped: for messages of any length, cut at any frame w and continued from any frame k of another with the same number modulo 16, the receiver completes with the splice, and is right if and only if the bytes put in are the same |
| `IsoTpSender.EffectiveCallsProgress` | main/isotp.c:206-335 | every call either changes nothing or strictly decreases (bytes left, phase, WAITs left); an ignored frame request or flow control changes nothing |
| `IsoTpSender.SenderTerminates` | main/isotp.c:206-335 | in every run the calls with any effect are at most the measure, itself bounded by the payload length |
| `IsoTpSender.StartTracks` | main/isotp.c:206-225 | an accepted start puts the sender in step with an empty log |
| `IsoTpSender.SenderKeepsPromises` | main/isotp.c:237-335 | in every run on true time: each frame emitted is the next of the reference segmentation; none leaves earlier after the confirmation of the one before than the separation in force (sticky 127 ms after a reserved STmin), across blocks, WAITs, changed STmin and wraps; completion means all frames; WAITs are tolerated exactly up to the limit |
| `IsoTpTimeouts.SenderTimesOut` | main/isotp.c:227-235 | in every transfer on true time: a call that looks at the clock in READY, CONFIRM or FC ends the transfer with the error of that wait if and only if it comes at least the configured time-out, and less than half a wrap more, after the start, the emission, the confirmation or the last WAIT; nothing else is called a time-out |
| `IsoTpAnswers.StartExactly` | main/isotp.c:206-225 | a message of 1 to 4095 bytes, functionally one that fits a single frame, is taken if and only if the sender is idle; bad arguments and a busy sender are told apart and change nothing |
| `IsoTpAnswers.FlowExactly` | main/isotp.c:237-270 | for every frame: 30 takes over block size and separation and goes on, 31 waits up to the limit, 32 and 33-3F end the transfer with different errors, all else is ignored |
| `IsoTpAnswers.NextExactly` | main/isotp.c:272-305 | a frame is handed out at the start or when the separation is over, and only then; it is padded to 8 bytes or ends behind its payload, and every other byte is the padding byte |
| `IsoTpAnswers.SentExactly` | main/isotp.c:307-335 | confirmation: complete behind the last frame, flow control awaited behind the first and at the end of a block, and else the next frame one separation later; a failed sending ends the transfer |
| `IsoTpEndToEnd.BoundaryIsMultiple` | main/isotp.c:143-167 | the block boundaries are exactly the multiples of the block size |
| `IsoTpEndToEnd.ControlKept` | main/isotp.c:92-335 | the control skeleton of the coupled system keeps both sides in step: nothing is sent past an unanswered boundary, and at most one flow control is outstanding |
| `IsoTpEndToEnd.NextOk` | main/isotp.c:92-335 | each of the six steps of the coupled system, when open, keeps the invariant and leaves less to do; when not open it changes nothing |
| `IsoTpEndToEnd.StuckIsDelivered` | main/isotp.c:92-335 | in a reachable state nothing can move if and only if the payload has been delivered and both sides are idle |
| `IsoTpEndToEnd.EndToEnd` | main/isotp.c:92-335 | for every payload, addressing width, padding, block size and STmin and every run without time-out: at most 7 effective steps a frame; the sender waits for flow control exactly when one is owed; the run can only stop with COMPLETE, exactly the payload, the computed number of frames and both sides idle |
| `IsoTpDelivery.SomeRunDelivers` | main/isotp.c:92-335 | for every transfer the receiver can hold, whenever the separation it asks for is shorter than the time it waits for the next frame, there is a run in which no timer expires and the payload is delivered |
| `J1850Crc.ComputeCrc` | main/j1850_common.c:9-26 | the nested bit loop computes the complement of the register recursion |
| `J1850Crc.ResidueIffCrc` | main/j1850_common.h:15 | the running register equals 0xC4 if and only if the last byte is the CRC of all before it, at any length |
| `J1850Crc.OneByteErrorCaught` | main/j1850_common.c:28-34 | damage confined to one byte never passes the check |
| `J1850Bits.PushAppends` | main/j1850_vpw_codec.c:306-328 | packing a bit appends it to the content and disturbs none before it |
| `J1850Bits.PackUnpacks` | main/j1850_vpw_codec.c:306-328 | packing the bits of a message gives back the message |
| `J1850Bits.UnpackPacks` | main/j1850_vpw_codec.c:306-328 | whole bytes out of the packer have the bits that went in |
| `J1850Bits.WholeByte` | main/j1850_pwm_codec.c:424-455 | eight bits shifted in are the same byte as eight bits packed |
| `J1850Capture.NextPulse` | main/j1850_vpw_codec.c:233-264 | the iterator yields the captured pulses in order up to the zero-duration end marker |
| `VpwCodec.PulseAt` | main/j1850_vpw_codec.c:93-129 | levels alternate from active, and every pulse has a width |
| `VpwCodec.PutPulse` | main/j1850_vpw_codec.c:40-50 | one half of one symbol is written, nothing else |
| `VpwCodec.Encode` | main/j1850_vpw_codec.c:52-87 | pulse k of the emitted train is pulse_at(k), for all k; refusals leave the output alone |
| `VpwCodec.Decode` | main/j1850_vpw_codec.c:330-486 | the loop over the capture computes the recursive decoder on its live pulses |
| `VpwRoundTrip.DecodesDistorted` | main/j1850_vpw_codec.c:283-486 | for every CRC-terminated frame of 2 to 12 bytes and any widths inside the windows of SAE J1850 (short 35-96 us where 64 were sent, long 97-163 for 128, SOF 164-239 for 200), decoding returns OK and the frame |
| `VpwRoundTrip.DecodesEncoded` | main/j1850_vpw_codec.c:52-87 | the encoder's own output decodes to the frame |
| `VpwRoundTrip.OkIsEncoded` | main/j1850_vpw_codec.c:330-486 | conversely OK means that, behind some idle, the captured pulses have the levels the encoder gives to the bytes reported and widths in those windows, and that the bytes end in their CRC |
| `VpwRoundTrip.DecodesExactly` | main/j1850_vpw_codec.c:283-486 | for every capture whatever, the verdict, data, response and marks are those that the windows, as numbers, give its pulses: the longest run of bits, what ends it (wrong level, too short, break, end of data or of frame), whole bytes, length and CRC |
| `VpwRoundTrip.DecodesResponse` | main/j1850_vpw_codec.c:330-486 | behind a frame, its end of data and a normalization bit of either kind, any whole bytes of an in-frame response come back too |
| `VpwMonitor.WatchOffsets` | main/j1850_vpw_codec.c:131-185 | looks only at passive pulses, each more than the tail guard before the next edge, in order |
| `VpwMonitor.OffsetsExactly` | main/j1850_vpw_codec.c:131-185 | exactly which looks a pulse gets: one behind its edge and one a short pulse later, each with more than the tail left, and no more than there is room for |
| `VpwMonitor.OwnOffsets` | main/j1850_vpw.c:210-245 | with the guards of the monitor: 12 us into a passive pulse of more than 32 us, and 76 us into one of more than 96 |
| `VpwMonitor.SamplesAscend` | main/j1850_vpw_codec.c:131-185 | the looks of a whole train are strictly increasing in time |
| `VpwMonitor.Monitor.constructor` | main/j1850_vpw.c:801-878 | the schedule starts with the first passive pulse and covers every later one |
| `VpwMonitor.Monitor.TakeLook` | main/j1850_vpw.c:675-712 | the next look is the first pending one and lies before the bound up to which it is believed |
| `VpwMonitor.Monitor.NextPulse` | main/j1850_vpw.c:675-712 | moving on to the next pulse loses no look |
| `VpwMonitor.Monitor.Schedule` | main/j1850_vpw.c:675-712 | arms the first look not yet missed and leaves all later ones pending |
| `VpwMonitor.Monitor.OnAlarm` | main/j1850_vpw.c:728-776 | the transmission is given up if and only if the bus is active at a look that still counts; otherwise the next look is armed |
| `VpwMonitor.Watch` | main/j1850_vpw.c:675-776 | a watched transmission is given up at exactly the first scheduled look that finds the bus active, and at none if there is none |
| `VpwArbitration.LooksWhilePassive` | main/j1850_vpw_codec.c:131-185 | no node looks while it drives the bus |
| `VpwArbitration.ContestOutcome` | main/j1850_vpw.c:675-776 | two trains that part have exactly one outcome consistent with both monitors |
| `VpwArbitration.Arbitration` | main/j1850_vpw_codec.c:93-185 | two frames of one length, started together on a wired-OR bus, the first with the 1 at their first difference: exactly one outcome is consistent with both monitors; the first gives up at one of its looks, at least 52 us before it would drive again, the other never does, and the bus carries the other's waveform throughout |
| `VpwArbitration.AlwaysDecided` | main/j1850_vpw_codec.c:93-185 | any two different frames of one length are decided in this way, for one or the other |
| `VpwArbitration.CaptureDecodes` | main/j1850_vpw_codec.c:330-486 | a listener that captures the waveform of a frame decodes that frame |
| `VpwArbitration.WinnerIsReceived` | main/j1850_vpw.c:210-245 | whatever two nodes do consistently with their monitors, a listener on the shared bus decodes the winner's frame |
| `PwmCodec.PutByte` | main/j1850_pwm_codec.c:40-67 | eight cells, most significant bit first, and nothing else |
| `PwmCodec.Encode` | main/j1850_pwm_codec.c:40-67 | the output is SOF and one cell for each bit; refusals leave it alone |
| `PwmCodec.Decode` | main/j1850_pwm_codec.c:200-367 | the loop over the capture computes the recursive decoder on its live pulses |
| `PwmStream.StreamDecoder.Pulse` | main/j1850_pwm_codec.c:424-455 | one edge takes the object from one model value to the next |
| `PwmStream.StreamHitsExactly` | main/j1850_pwm_codec.c:424-455 | over every sequence of edges the stream decoder says yes exactly at byte boundaries 4 to 11 where everything since the last SOF was legal and the bytes end in their CRC |
| `PwmAgreement.DecodesDistorted` | main/j1850_pwm_codec.c:200-367 | for every CRC-terminated frame of 2 to 12 bytes and any widths and edge distances inside their receive windows, batch decoding returns OK and the frame |
| `PwmAgreement.DecodesEncoded` | main/j1850_pwm_codec.c:40-67 | the encoder's own output batch-decodes to the frame |
| `PwmVerdicts.DecodesExactly` | main/j1850_pwm_codec.c:200-367 | for every capture whatever, the verdict, data, response and measurements are those that the windows of SAE J1850, as numbers, give its pulses: the longest run of bit cells, what ends it (wrong width or distance, break, end of data or of frame), whole bytes, length and CRC |
| `PwmVerdicts.OkIsFrame` | main/j1850_pwm_codec.c:200-367 | OK means that, behind some idle, the capture holds a SOF of 27-34 us and a legal cell for each bit of the bytes reported, which are two or more and end in their CRC |
| `PwmVerdicts.DecodesResponse` | main/j1850_pwm_codec.c:200-367 | behind a frame and its end of data any whole bytes of an in-frame response come back too, with the distance they came at |
| `PwmAgreement.StreamHitDecodes` | main/j1850_pwm_codec.c:200-455 | when the stream decoder says yes, the edges since the last SOF, closed by an end of frame, batch-decode to OK with the same bytes |
| `PwmAgreement.StreamFindsFrames` | main/j1850_pwm_codec.c:424-455 | conversely every CRC-terminated frame of 4 to 11 bytes, with any widths and distances inside their windows, and whatever came before its SOF, is recognised at its last bit with its own bytes |
| `PwmAgreement.SomeFrameIsFound` | main/j1850_pwm_codec.c:424-455 | there is a sequence of edges on which the stream decoder says yes, so the agreement theorems are not vacuous |
| `PwmQuick.QuickDecode` | main/j1850_pwm_codec.c:369-418 | the loop computes the recursive quick decoder |
| `PwmQuick.BatchOkIsQuick` | main/j1850_pwm_codec.c:369-418 | on every active-first capture with zero durations only at its end, whatever batch decoding accepts, with or without an in-frame response, quick decoding reads as the same bytes |
| `PwmQuick.QuickReads` | main/j1850_pwm_codec.c:369-418 | on every capture: behind leading idle and a SOF, the bits of the cells by their widths alone, up to the end marker or an end of data; nothing without the SOF, or if they are no whole bytes or too many |
| `Scheduler.BeforeIsAge` | main/j2534_scheduler.c:25-38 | among eligible jobs the wrapped due comparison is the true order of how long they have been due |
| `Scheduler.BeforeIsRank` | main/j2534_scheduler.c:25-38 | ids handed out within half a wrap compare in the order they came |
| `Scheduler.Table.Next` | main/j2534_scheduler.c:25-38 | no job is returned exactly when none is eligible; otherwise the one longest due and, if the ids of the eligible jobs were handed out within half a wrap, among those the one with the earliest id |
| `Scheduler.Table.Receive` | main/j2534_scheduler.c:50-68 | every repeat slot changes as the model says, periodic slots not at all |
| `Scheduler.Table.Expire` | main/j2534_scheduler.c:70-78 | every repeat slot changes as the model says, periodic slots not at all |
| `Scheduler.Table.ReportTransmitted` | main/j2534_scheduler.c:80-92 | the one job changes as the model says |
| `Scheduler.Table.Complete` | main/j2534_scheduler.c:96-104 | the one job changes as the model says |
| `Scheduler.Table.ReceiveLost` | main/j2534_scheduler.c:106-109 | every repeat job becomes inactive |
| `Scheduler.MatchesExactly` | main/j2534_scheduler.c:40-48 | a frame matches if and only if it is long enough, has the flags, and has the bit of the pattern wherever the mask has one (and the pattern none elsewhere) |
| `Scheduler.FullMaskIsPrefix` | main/j2534_scheduler.c:40-48 | under a mask of all ones the pattern is what the frame begins with |
| `Scheduler.ReceivedExactly` | main/j2534_scheduler.c:50-68 | every job and frame: the wanted ones end a repeat-until job, the others a repeat-while job; any other wanted frame is remembered, and counts if it lies in the window |
| `Scheduler.ReportTwice` | main/j2534_scheduler.c:80-104 | reporting a transmission end again changes nothing, and completing after the report only frees the job |
| `Scheduler.MatchAndEndCommute` | main/j2534_scheduler.c:50-92 | a matching frame and the end report may be processed in either order if and only if an earlier remembered match does not count in the new window or the frame counts in it too |
| `SchedulerRuns.FrameStopsExactly` | main/j2534_scheduler.c:50-68 | a frame stops a repeat job if and only if its true stamp is less than half a wrap after the creation, modulo the wrap, and it has all masked bits of the pattern (repeat-until) or not (repeat-while) |
| `SchedulerRuns.OneBitTells` | main/j2534_scheduler.c:40-68 | a frame that differs from the pattern in one masked bit neither stops a repeat-until job nor counts for a repeat-while job, and stops that |
| `SchedulerRuns.ExpiresExactly` | main/j2534_scheduler.c:70-78 | in every run a repeat-while job is given up at a service if and only if the queue is drained, its last transmission is over, no match was counted and the interval has truly passed |
| `SchedulerRuns.SelectsExactly` | main/j2534_scheduler.c:25-38 | in every run, once due and less than half a wrap later, a job can be selected if and only if it is active with no transmission under way, and is periodic, or the queue is drained and it is no repeat-while job that was sent and not answered |
| `SchedulerRuns.PendingExactly` | main/j2534_scheduler.c:94-104 | in every run a transmission is under way from the selection to its completion or to its being put off |
| `SchedulerRuns.CountsExactly` | main/j2534_scheduler.c:60-65 | a match is taken to lie in the window of a transmission if and only if its distance from the end, modulo the wrap, is at most the interval; within a wrap of it that is the true window |
| `SchedulerRuns.SchedulerExact` | main/j2534.c:770-841 | over every run, however long: at each selection no stopping frame has been heard, a WHILE job was answered in its window modulo the wrap, no loss or failure was seen, and the interval has truly passed, from start to start for periodic jobs |
| `SchedulerRuns.UntilActiveExactly` | main/j2534_scheduler.c:50-109 | in every run a repeat-until job is active if and only if it has met no loss, no failed transmission and no matching frame that it hears |
| `SchedulerRuns.SchedulerSafe` | main/j2534.c:770-841 | in true time, when every frame processed was stamped less than half a wrap from the creation: UNTIL is not selected after a matching frame stamped since its creation; WHILE only without a foreign one, and again only if a match fell between end and due of its last transmission, provided that each transmission ends less than half a wrap minus two intervals (33 minutes or more) after it was due, or that the last one ended less than a wrap minus an interval after the creation |
| `SchedulerRuns.DeafAfterHalfAWrap` | main/j2534_scheduler.c:54-55 | that cannot be dropped: for every repeat-until job that the start call accepts (5 ms to 65.535 s), and every creation time, the run in which each transmission is sent when due and over at once reaches a match stamped in the first interval after half a wrap; it is processed, and the job is selected again |
| `SchedulerRuns.StaleMatchCounts` | main/j2534_scheduler.c:80-92 | a limit of the comparison, which shows why the WHILE clause has its proviso and not that it is ever met: for every accepted interval, a match remembered from before a transmission of almost a wrap (71.6 minutes, which no driver allows) counts in its window |
| `SchedulerRuns.LossIsFinal` | main/j2534_scheduler.c:106-109 | receive loss stops every repeat job for good |
| `TxControl.CancelOrAdmit` | main/bus_tx.c:7-44 | over all interleavings of any number of callers: cancelling, if tried, succeeds exactly when no admission ever returns 0; the state is taken to active at most once, and if the sequence is checked then only with the acknowledged one |
| `TxControl.AnswersExactly` | main/bus_tx.c:13-44 | over all interleavings, which access a caller can make next and what it returns follow from the accesses before it: the comparison fails exactly on another number than the acknowledged one, when checked, and an exchange, of a caller or of a cancel, succeeds exactly if it is the first |
| `TxControl.LoneCallerAdmitted` | main/bus_tx.c:26-44 | a caller that comes alone, with the acknowledged number or unchecked, is admitted, and its time noted |
| `RxEpoch.NothingUnaccounted` | main/bus_tx.c:53-85 | in every reachable state each sequence number handed out and not acknowledged is with its producer, queued, or covered by a loss record at least as new |
| `RxEpoch.PublishExactly` | main/bus_tx.c:65-74 | one turn of the loss loop, in true order: it gives up against a record at least as new, replaces one that is still as loaded, and else looks again |
| `RxEpoch.ReceptionEnds` | main/bus_tx.c:53-74 | a producer left alone ends its reception: with the next number, skipping 0, in the queue or as the loss record |
| `RxEpoch.QuietDrainIsExact` | main/j2534.c:669-683 | with no producer mid-way, draining the queue and then the loss acknowledges exactly the epoch's sequence |
| `CheckedTx.AdmittedOnlyWhenSettled` | main/j2534.c:669-683 | with one producer, whichever it is, equality at admission means that every frame received so far was processed or its loss reported |
| `CheckedTx.PollDrains` | main/j2534.c:669-683 | left alone, the consumer comes to the end of its polling: every frame taken from the queue, and a loss record reported and gone |
| `CheckedTx.TwoProducersOvertake` | main/bus_tx.c:53-85 | with any two among any set of producers that fails: a run with drained poll, copied acknowledgement and equality at admission in which an older frame is neither processed nor reported lost |
| `CheckedTx.AdmissionSafeExactly` | main/bus_tx.c:53-85 | for every set of producers: every run admits only when every frame received was processed or reported lost, if and only if there is at most one producer |
| `TxWorker.HandOff` | main/bus_tx_worker.c:30-125 | at every step of every run: the driver is handed exactly the submitted bytes, at most once a request; at most one timing report, then one completion; no second submit before that completion is collected |
| `TxWorkerTrace.AnswersExactly` | main/bus_tx_worker.c:30-158 | in every run from the start, which access is possible next, what a poll reports and what the task does with the slot follow from the accesses before it: each field is what its last writer made it |
| `TxWorker.OneCompletionEach` | main/bus_tx_worker.c:103-125 | in every run the completions collected are one for each request accepted, except the one still in the slot |
| `TxWorker.RequestProgresses` | main/bus_tx_worker.c:30-101 | a pending request whose wake-up was given, unless stranded by the stop flag, lets the task move and come a step closer to its result |
| `TxWorker.AlwaysCompletes` | main/bus_tx_worker.c:30-101 | in every run in which the task takes as many steps as it is away from the result, short of a new close, the request gets its result |
| `TxWorker.CompletesExactly` | main/bus_tx_worker.c:30-158 | in every reachable state a pending request can still be completed if and only if the task is not past its last look with the stop flag set |
| `TxWorker.StrandedForever` | main/bus_tx_worker.c:148-158 | otherwise it stays pending and is never handed over, in every run |
| `TxWorker.DroppedAtClose` | main/bus_tx_worker.c:30-158 | a run from the start in which a request accepted and woken for is so lost to closing |
| `TxWorker.CloseSendsNothingNew` | main/bus_tx_worker.c:127-158 | a request the task has not looked at when close cancels is never handed to the driver, in any run |
| `TxWorker.CloseProgresses` | main/bus_tx_worker.c:148-158 | once close waits, the task can move and every step takes it closer to its exit |
| `TxWorker.CloseExits` | main/bus_tx_worker.c:148-158 | in every run in which close goes on waiting and the task takes at least as many steps as it is away from its exit, at most five, it has exited |
| `CallbackGate.StepKeeps` | main/j1850_lifecycle.h:15-33 | every step of every callback and of the owner keeps the count exact |
| `CallbackGate.ClosedUntilStart` | main/j1850_lifecycle.h:15-33 | behind a closed gate nobody gets into a body who is not in one already |
| `CallbackGate.StoppedMeansStopped` | main/j1850_lifecycle.c:6-16 | for any number of callbacks and every interleaving: once stop has returned OK no body is running and none starts until start is called |
| `CallbackGate.AdmitsExactly` | main/j1850_lifecycle.h:15-33 | in every run a callback that checks gets in if and only if the last call before was not a stop; and a poll finds the gate quiet if and only if no callback is present |
| `CallbackGate.OneLife` | main/j1850_lifecycle.h:15-33 | a run in which a callback gets in, a stop waits for it and succeeds, the next is refused, and after a start one gets in again |
| `RxRing.Marked` | main/j2534.c:259-260 | the overflow bit is set exactly if it was or a loss is to be reported |
| `RxRing.Ring.constructor` | main/j2534.c:235-246 | an empty ring |
| `RxRing.Ring.Put` | main/j2534.c:235-246 | copying in, across the wrap, writes exactly these bytes and touches nothing before them |
| `RxRing.Ring.Get` | main/j2534.c:235-246 | copying out, across the wrap, reads exactly the bytes at that distance from the head |
| `RxRing.Ring.Mark` | main/j2534.c:708-715 | a loss reported by the bus marks the ring |
| `RxRing.Ring.Enqueue` | main/j2534.c:248-270 | a message that fits is appended whole behind all others, with its header; one that does not is dropped whole and leaves a mark |
| `RxRing.Ring.Read` | main/j2534.c:1476-1504 | the oldest message comes out exactly as stored; an empty ring reports an overflow once |
| `RxRing.RingIsFifo` | main/j2534.c:1476-1504 | over every run what becomes of each operation depends only on what was seen before it: reads give the oldest message kept; a message is kept if and only if it fits, with 28 bytes more, in 8192 beside those waiting, and then with its own protocol, handle, stamp, data and status, no transmit flags, and its length as extra data unless it is an indication; and status bit 6 is added, or the overflow answer given, exactly when something was lost since either could last have said so |
| `RxRing.EveryEpisodeReportedOnce` | main/j2534.c:248-270 | overflow episodes and reports are in step: each episode is reported once, none is invented |
| `Bytes.GetPut32` | main/j2534.h:114-122 | a 32-bit word written byte by byte reads back |
| `Bytes.PutGet32` | main/j2534.h:114-122 | four bytes read as a word write back |
| `Bytes.LittleEndian` | main/j2534.h:114-122 | the lowest byte comes first |
| `Wire.ComputeCrc32` | main/j2534_wire.c:56-66 | the nested bit loop computes the CRC-32 recursion |
| `Wire.ByteKeeps` | main/j2534_wire.c:168-204 | whatever byte comes, the 212-byte buffer index stays in range and the buffer holds a frame begun |
| `Wire.FeedKeeps` | main/j2534_wire.c:168-204 | and so over every byte stream |
| `WireDamage.OneByteDamageCaught` | main/j2534_wire.c:56-71 | change any one byte of an intact frame behind its magic, CRC included: what still has the shape of a frame is no longer intact |
| `WireResidue.TurnedDivides` | main/j2534_wire.c:56-66 | one turn of the register, bit by bit, is one step of the division by the polynomial of IEEE 802.3, given by its exponents, lowest bit first |
| `WireResidue.AbsorbsLow` | main/j2534_wire.c:56-66 | a byte goes in at the low end of the register, bit by bit |
| `WireResidue.ResidueLaw` | main/j2534_wire.c:56-71 | whatever the data, with its own CRC behind it the register ends at the same value |
| `WireRuns.FramedParses` | main/j2534_wire.c:73-88 | a frame as it is written is intact and reads back as the same fields |
| `WireRuns.FeedSplit` | main/j2534_wire.c:168-204 | feeding two pieces is feeding them joined |
| `WireRuns.ChunksDontMatter` | main/j2534_wire.c:168-204 | how the stream is cut into calls makes no difference, as long as no two calls are more than two seconds apart on the wrapping clock |
| `WireRuns.NoiseThenFrame` | main/j2534_wire.c:168-204 | from an empty buffer, any noise without the magic and then a well-formed frame: the frame is processed once and nothing else happens |
| `WireRuns.EveryFrameOnce` | main/j2534_wire.c:168-204 | over any number of such bursts every frame is processed exactly once and in order |
| `WireRuns.GapExactly` | main/j2534_wire.c:168-175 | input more than two seconds of true time after the last finds no frame begun and no request being assembled; any other finds everything as it was |
| `WireRuns.AfterGap` | main/j2534_wire.c:168-204 | so behind such a gap a frame is processed once, whatever was in the buffer, and one that does not begin a request itself changes nothing |
| `WireCalls.CoreSeesWholeRequests` | main/j2534_wire.c:115-166 | for every byte stream with any gaps, each request handed to the core is the exact concatenation of intact fragments, each a stretch of the input sharing no byte with another, with one sequence number and operation, contiguous from offset 0, all but the last announcing more, with no other request begun in between |
| `WireRpc.RequestDelivered` | main/j2534_wire.c:115-166 | however a request is cut, and whatever magic-free noise surrounds its frames, the core is asked exactly once and for exactly that request |
| `WireRpc.FetchAnswered` | main/j2534_wire.c:90-103 | a fetch is answered from the response and changes nothing else |
| `WireRpc.Fetched` | main/j2534_wire.c:90-103 | fetching until MORE clears rebuilds the response exactly |
| `WireRpc.RpcRoundTrip` | main/j2534_wire.c:90-166 | a whole remote call: the core is asked once for exactly the request sent, and the host ends with exactly the core's answer |
| `WireDevice.Device.constructor` | main/j2534_wire.c:206-209 | zeroed buffers |
| `WireDevice.Device.Align` | main/j2534_wire.c:181-187 | the memmove loop leaves the longest tail that agrees with the magic |
| `WireDevice.Device.SendResponse` | main/j2534_wire.c:90-103 | at most one fragment of the response from that offset, with MORE exactly if more is left |
| `WireDevice.Device.Respond` | main/j2534_wire.c:105-113 | the response replaces the old one and its first fragment goes out |
| `WireDevice.Device.Append` | main/j2534_wire.c:154-155 | the fragment goes behind the bytes assembled so far, inside the buffer |
| `WireDevice.Device.Act` | main/j2534_wire.c:115-166 | state, frames sent and request to the core are those of the model |
| `WireDevice.Device.Judge` | main/j2534_wire.c:115-125 | a whole frame is acted on exactly if it is intact |
| `WireDevice.Device.TakeOne` | main/j2534_wire.c:177-203 | one byte takes the object from one model value to the next, and no index leaves the buffers |
| `WireDevice.Device.Feed` | main/j2534_wire.c:168-204 | a whole call equals the model, time-out included |
| `KLine.MsgLenStable` | main/kline_codec.c:71-102 | once a length is announced more bytes do not change it, and it lies in 3..260 |
| `KLine.MsgLenExactly` | main/kline_codec.c:57-102 | the announced length for every buffer, from the two top bits of the format byte, its six low bits and the length byte |
| `KLine.ChecksumIsSum` | main/kline_codec.c:115-123 | the checksum is the sum of the bytes modulo 256 |
| `KLine.ComputeChecksum` | main/kline_codec.c:115-123 | the loop computes the sum modulo 256 |
| `KLine.OneByteErrorCaught` | main/kline_codec.c:125-131 | damage confined to one byte never passes the checksum |
| `KLine.Assembler.constructor` | main/kline.c:608-635 | an empty buffer |
| `KLine.Assembler.Push` | main/kline.c:608-635 | a byte is appended, or starts afresh when 260 are there |
| `KLine.Assembler.Complete` | main/kline.c:662-723 | state and message are those of the model in all three framing modes |
| `KLine.NothingLost` | main/kline.c:608-750 | in every mode, for every stream and pauses: the stream is byte for byte the messages delivered, those refused, scraps, 260-byte stretches and what is still in the buffer; each stretch ends at the first byte that makes it whole, or by silence, or at 260 bytes, fares as its length and sum deserve, is counted, and is delivered with the times of its first and last bytes |
| `KLine.JudgedExactly` | main/kline.c:662-723 | for every buffer: it waits for a whole message or silence, and is then scrapped, refused or delivered by its length and sum, in each framing mode |
| `KLine.SilenceSettles` | main/kline.c:662-723 | after silence nothing is left waiting, in any mode |
| `KLine.SilenceDelimits` | main/kline.c:662-723 | with ISO 9141-2 any 260 bytes at most between two silences come out as one message if and only if they are enough and, where checked, their sum is right |
| `KLineStreams.Deframes` | main/kline.c:608-750 | in ISO 14230 mode any concatenation of well-formed messages fed byte by byte yields exactly that list, less those with a wrong checksum when checksums are checked, and leaves nothing behind |
| `KLineStreams.RequestLength` | main/elm327_at.c:2342-2380 | a KWP request completed with its checksum passes it, and is parsed with its own length if and only if it has target and source addresses, or format byte 0 and the right number by chance in the target byte |
| `KLineStreams.HeaderBytes` | main/elm327_at.c:2342-2380 | format, target and source are the three low bytes of the header word |
| `KLineStreams.BuiltExactly` | main/elm327_at.c:2342-2380 | a request is built if and only if it has 1 to 63 data bytes and there is room; header, length and data for both protocols |
| `KLineStreams.SentExactly` | main/kline.c:1185-1200 | what is sent is the request and, if asked for, its right checksum, 260 bytes at most |
| `KLineStreams.RequestsArrive` | main/kline.c:1185-1200 | requests with addresses, built, completed and sent one behind the other, are received as exactly the same list |
| `AdaptiveTiming.MarginMeans` | main/elm327_at.c:1558-1573 | the margin is at most the limit and at least the latency plus its share, as far as the limit lets it |
| `AdaptiveTiming.MarginExactly` | main/elm327_at.c:1558-1574 | the margin is the least wait half as long again as the latency (AT2: a quarter) and no shorter than 30 ms (20), or the limit |
| `AdaptiveTiming.OneMoreSample` | main/elm327_at.c:1576-1592 | a further sample adds itself to the sum, and its distance from the mean to the spread |
| `AdaptiveTiming.TargetExactly` | main/elm327_at.c:1576-1600 | the target is 4 ms and four mean deviations (AT2: two) above the mean, both rounded up, or the margin of the peak if that is more, or the limit |
| `AdaptiveTiming.TargetCovers` | main/elm327_at.c:1575-1600 | the target is at most the limit and allows for every sample |
| `AdaptiveTiming.ShrinkLeaves` | main/elm327_at.c:1602-1610 | a shrinking step leaves exactly seven eighths of the way to the target, rounded down |
| `AdaptiveTiming.ShrinkArrives` | main/elm327_at.c:1602-1610 | shrinking never passes below the target and reaches it |
| `AdaptiveTiming.WindowBounds` | main/elm327_at.c:1534-1556 | idle widening stays between the estimate and the limit |
| `AdaptiveTiming.WindowMonotone` | main/elm327_at.c:1534-1556 | the window is monotone in idle time |
| `AdaptiveTiming.WindowExactly` | main/elm327_at.c:1534-1556 | up to one second of idle time the window is the estimate, from five on the limit, and in between in proportion |
| `AdaptiveTiming.Timer.ComputeTarget` | main/elm327_at.c:1575-1600 | the two loops compute peak, mean and deviation target of the samples |
| `AdaptiveTiming.Timer.RecordLatency` | main/elm327_at.c:1662-1676 | one slot an exchange; ring, count and estimate change as the model says |
| `AdaptiveTiming.Timer.Begin` | main/elm327_at.c:1622-1638 | window chosen, watch reset |
| `AdaptiveTiming.Timer.Reply` | main/elm327_at.c:1642-1658 | the longest reply is kept, at least 1 ms, and the deadline of the exchange extended |
| `AdaptiveTiming.Timer.LateReply` | main/elm327_at.c:2195-2218 | a late reply replaces the sample and may only widen |
| `AdaptiveTiming.Timer.Backoff` | main/elm327_at.c:1678-1685 | widens to twice the window within the limit, never narrows |
| `AdaptiveTiming.Timer.Finish` | main/elm327_at.c:1687-1696 | records a reply, backs off after silence or an incomplete answer |
| `AdaptiveTiming.WindowAllows` | main/elm327_at.c:1527-1696 | after every run of exchanges, replies in time, late replies and silences the window of the next exchange is at most the limit and at least half as long again (AT2: a quarter) as the latency of each of the last sixteen exchanges with a reply, as far as the limit lets it |
| `AdaptiveTiming.BeginExactly` | main/elm327_at.c:1622-1640 | in every run an exchange begins with the window of the moment, no latency and the limit as its deadline |
| `AdaptiveTiming.FinishExactly` | main/elm327_at.c:1662-1700 | in every run, at the end of an exchange: without a reply the window doubles up to the limit; with one its longest latency is learned in its own place and the estimate moves towards the target of the samples; an incomplete answer also doubles it |
| `AdaptiveTiming.LateExactly` | main/elm327_at.c:2195-2218 | in every run a late reply is learned if and only if the exchange was still open for it, and never shortens the estimate |
| `AdaptiveTiming.LearnsSteadyLine` | main/elm327_at.c:1558-1620 | from any state, a line that answers alike is learned: after sixteen exchanges and as many more as the estimate is off, the estimate and the next window are what it needs, which may be well below the limit |
| `AdaptiveTiming.DeadlineIsLongestWait` | main/elm327_at.c:1642-1658 | after every run the exchange stays open exactly as long as the limit and its replies ask for (three seconds behind a pending one), and its latency is that of its longest reply |

## Left out

- Peripherals, drivers, BLE, shell, board support, nanopb messages and request dispatch: foreign calls or one-branch checks.
- NULL-argument checks of the C entry points; the model's values cannot be absent.
- Memory orderings: atomic accesses are sequentially consistent steps; the load and the exchange of a cancel, and the task's look at the slot and at the cancellation, are one step each.
- The exactly-once claim for J2534 transmit indications: it depends on when a transport time-out falls relative to an outstanding bus transmission.
- Finding and allocating job slots, and the choice between channels in `service_bus`: loops over small tables with no property of their own.
- VPW monitor: analog skew, majority-vote sampling, interrupt latency and the placing of the first edge; edges are ideal and alarms fire on time.
- PWM in-frame responses: the widths and the decision whether to answer one; the decoders' in-frame data field itself is modelled.
- K-Line initialisation, key bytes, baud estimation and the discarding of bytes after a line fault; ISO 9141-2 framing by silence appears only as an event.
- The ELM327 command table, protocol search (during which the full limit is used) and adaptive timing switched off (AT0).
- Wire.ComputeCrc32: states what the loop computes; of the errors CRC-32 detects only damage to one byte is proved, in WireDamage.OneByteDamageCaught; the polynomial is pinned by WireResidue.TurnedDivides.
- WireDevice.Device.SendFragment: frames written to the link are kept as their fields; `Wire.Framed` gives the bytes and `WireRuns.FramedParses` reads them back.
- WireCalls.CoreSeesWholeRequests: the core is an oracle indexed by the number of the call, so its own state is not modelled.
- RxEpoch.NothingUnaccounted: assumes that no number is held across 2^31 receptions, which is what the 32-bit comparisons need.
- SchedulerRuns.SchedulerSafe: holds under its condition on frame stamps, and its last clause for transmissions that end in good time; without these only SchedulerRuns.SchedulerExact does.
- AdaptiveTiming.Timer.LateReply: whether a late frame is a reply to the request, and when watching stops, are decided outside.
- IsoTpEndToEnd.EndToEnd: no timer expires and each side is told that its own frame went out before it is handed the answer, as the caller arranges.
