# A verified model of rocket-rpc's core

rocket-rpc is a C++ RPC library built around event loops. This project models the parts of it
in which a mistake would be hardest to see, and proves what they promise: for every input, every
interleaving or every run.

**Sending from any thread.** A connection's write queue is an intrusive multi-producer queue with
a stub node that the consumer puts back. `MpscQueue.dfy` takes one step per atomic operation; its
invariant is a chain of nodes in which every edge is linked or owed by exactly one thread.
`WritePath.dfy` puts `send` and `drainWriteQueue` on top of it, with the flag that decides who
schedules the drain, and shows that no drain is lost. `WriteProgress.dfy` adds the liveness half:
once the producers are outside `send`, the loop thread alone delivers everything in finitely many
steps.

**Finishing a call once.** In `RpcGate.dfy` a response, a deadline timer, a failing sender and a
blocking caller that gives up race through one compare-and-swap, over any number of calls that
share the table of response callbacks. `RpcProgress.dfy` shows that a call and its waiting caller
always come to an end by the call's own steps.

**The wire format.** `Crc.dfy` (bit by bit, by table, in parts, and the detection of bursts) with
`CrcCheck.dfy` (machine words and the check value),
`TinyPb.dfy` (printer and parser of one frame), `TinyPbDamage.dfy` with `BlindSpot.dfy` (which
damage the checksum detects), `TinyPbStream.dfy` (the resynchronising stream
decoder), `TcpBuffer.dfy` (the buffer that is compacted and grown in place) and `TinyPbCoder.dfy`
(the coder's loops on such buffers). Printer and parser invert each other, and decoding does not
depend on how the stream was cut.

**Timers.** `TimingWheel.dfy` is the wheel with its array of slots and its overflow map, proved
equal to a plain pair of ordered deadline lists (`Plain`) on which every operation is a few lines.
`TimerRounds.dfy` says what a round of callbacks files again, and `TimerBacklog.dfy` when cancelling
keeps the overflow map free of cancelled events.

**Smaller machines.** `EventLoop.dfy` with `LoopProgress.dfy` (handing tasks to a loop), `SpscRing.dfy` with
`PowerOfTwo.dfy` (the logging ring), `ConnectionPool.dfy` (connection counts across connects made
without the lock) and `EtcdKeys.dfy` (base64 and prefix ranges).

`Common.dfy`, `Bits.dfy` and `Runs.dfy` hold what these share. Concurrent code is modelled as a machine: a
datatype for the state, one constructor per atomic step, `Enabled` and `Apply`, and `Exec` for
interleavings; the theorems hold for all sequences of steps. Memory is sequentially consistent.
Sequential code that works in place is modelled by classes, arrays and loops, each proved against
a function. Clocks, health of connections, choices of the scheduler and results of system calls
are parameters of the steps.

`dafny verify dfyconfig.toml` checks the whole project.

## Model

| member | source | states |
|---|---|---|
| MpscQueue.StepPreserves | src/rocket/net/mpsc_queue.h:53-92 | every atomic step of a push or of the pop, the stub's re-insertion included, keeps the chain in which each edge is linked or owed by exactly one thread |
| MpscQueue.ReachableInv | src/rocket/net/mpsc_queue.h:43-92 | the chain invariant holds after every interleaving of any number of producers with the consumer |
| MpscQueue.Fifo | src/rocket/net/mpsc_queue.h:53-92 | what pop returned followed by the messages of the chain is exactly the order of the tail exchanges; the chain runs from head to tail over edges that are linked or owed, no node is in it twice, and no step touches a freed node |
| MpscQueue.ReturnedNodeIsPrivate | src/rocket/net/mpsc_queue.h:71-91 | when pop returns a node, no thread still owes a write to it or a link of it, so it may be freed or reused at once |
| WritePath.ActionPreserves | src/rocket/net/tcp/tcp_connection.cc:129-143 | every step of `send`, of the drain and of the connection state keeps the queue, flag, output and no-lost-drain invariants |
| WritePath.ReachableWorld | src/rocket/net/tcp/tcp_connection.cc:129-143 | those invariants hold after every interleaving |
| WritePath.EmptyMeansPending | src/rocket/net/mpsc_queue.h:127-132 | when `empty` answers yes although a message is in the queue, some producer has yet to link it |
| WritePath.DrainIsComing | src/rocket/net/tcp/tcp_connection.cc:191-229 | while a message waits, a drain is scheduled, being scheduled or running, or in its recheck, or a producer has yet to try the flag; and there is never more than one drain |
| WritePath.QuietMeansDelivered | src/rocket/net/tcp/tcp_connection.cc:191-229 | when no producer is inside `send` and no drain is due, everything exchanged was popped, and on a steady connection handed over in that order |
| WritePath.SendIsQueued | src/rocket/net/tcp/tcp_connection.cc:129-143 | from every reachable state, a producer's own steps put a message behind everything exchanged before and bring the producer out of `send`, on a connection that is connected or not connected yet |
| WritePath.ClosedRefuses | src/rocket/net/tcp/tcp_connection.cc:118-122 | once a connection is closing or closed no producer can begin |
| WritePath.DrainIsBounded | src/rocket/net/tcp/tcp_connection.cc:196-213 | a drain never goes beyond its third round, nor a round beyond 256 messages |
| WritePath.DrainUsesItsRounds | src/rocket/net/tcp/tcp_connection.cc:196-215 | the flag is cleared only after the third round, and a round ends only when pop answers nothing or 256 messages are taken |
| WriteProgress.PopProgress | src/rocket/net/mpsc_queue.h:60-92 | with no push in flight, each step of a pop on a non-empty queue comes closer to returning a message; it answers "nothing" at most once, on a decision taken before the last push completed |
| WriteProgress.LoopProgress | src/rocket/net/tcp/tcp_connection.cc:191-229 | each step of the loop thread lowers a measure while producers are outside `send`, and it has a step to take as long as a message waits |
| WriteProgress.Settles | src/rocket/net/tcp/tcp_connection.cc:191-229 | from every state that meets the invariants the loop thread alone comes to rest with every message popped |
| WriteProgress.EventuallyDelivered | src/rocket/net/tcp/tcp_connection.cc:129-143 | from every reachable state with the producers outside `send`, finitely many steps of the loop thread deliver everything |
| WriteProgress.SentIsDelivered | src/rocket/net/tcp/tcp_connection.cc:129-143 | on a connection that stays connected a message that is sent is handed over, behind everything sent before, by the sender's steps and then the loop thread's |
| RpcGate.StepPreserves | src/rocket/net/rpc/rpc_channel.cc:70-101 | every step of sender, responder, timer, waiter and client keeps the invariants of all calls and of the callback table |
| RpcGate.ReachableInv | src/rocket/net/rpc/rpc_channel.cc:251-323 | those invariants hold after every interleaving of any number of calls |
| RpcGate.CompletesOnce | src/rocket/net/rpc/rpc_channel.cc:70-101 | the result of a call is written at most once, and its closure runs at most once and after the write; both have happened when sender and finisher are through |
| RpcGate.AlwaysCovered | src/rocket/net/rpc/rpc_channel.cc:251-263 | a call that was set up is finished, or its timer is armed, collected or at the gate; a call that returned unfinished was set up |
| RpcGate.CallbacksAreExact | src/rocket/net/tcp/tcp_client.cc:160-168 | with unique identifiers in flight, no callback remains for a call whose sender and finisher are through, and none is missing that a response could still be for |
| RpcGate.DeliverKeeps | src/rocket/net/tcp/tcp_client.cc:246-259 | handing a response to the callback found under its identifier, and removing that callback, keeps all invariants |
| RpcGate.NoWriteAfterReturn | src/rocket/net/rpc/rpc_channel.cc:369-431 | when a blocking call returns, on either path, the result is written and the closure has run, and no later step of any party writes again |
| RpcGate.SentAtMostOnce | src/rocket/net/rpc/rpc_channel.cc:266-307 | the request is sent at most once, and left out only if the call was finished first; when sender and finisher are through, the timer is cancelled |
| RpcGate.FinishedIsNotRegistered | src/rocket/net/rpc/rpc_channel.cc:267-267 | a sender that finds the call finished before it registers leaves the table alone |
| RpcGate.StoppedAnswersNobody | src/rocket/net/tcp/tcp_client.cc:225-228 | after the client is stopped a response changes nothing |
| RpcProgress.Completes | src/rocket/net/rpc/rpc_channel.cc:251-263 | from every reachable state, a call that was set up or is being finished completes by finitely many steps of its own timer and finishers, with one write and one closure run |
| RpcProgress.ResponseCompletes | src/rocket/net/tcp/tcp_client.cc:246-259 | from every reachable state in which a call listens, its response is delivered to it and the responder finishes it |
| RpcProgress.FailureCompletes | src/rocket/net/rpc/rpc_channel.cc:313-319 | a failure to set up or to connect makes the sender finish the call |
| RpcProgress.RequestIsSent | src/rocket/net/rpc/rpc_channel.cc:266-307 | as long as nobody finishes the call, the sender's own steps send the request |
| RpcProgress.CallerReturns | src/rocket/net/rpc/rpc_channel.cc:406-431 | from every reachable state, a waiting caller returns by finitely many steps of its own call, with the result written |
| RpcProgress.BlockingCallReturns | src/rocket/net/rpc/rpc_channel.cc:403-431 | once `callMethodInternal` has returned, the caller waits and returns with the result written |
| RpcProgress.TimeOutCompletes | src/rocket/net/rpc/rpc_channel.cc:415-422 | a caller whose time is up before anybody has come to the gate finishes the call itself and returns |
| Crc.Reflect | src/3rd-party/CRC.h:699-708 | the reflecting loop reverses the bits of a word |
| Crc.FinalizeInverse | src/3rd-party/CRC.h:720-762 | Finalize and UndoFinalize undo each other, in both orders |
| Crc.CalculateRemainder | src/3rd-party/CRC.h:776-814 | the nested loops compute the remainder defined by recursion over the bytes |
| Crc.Calculate | src/3rd-party/CRC.h:471-478 | the CRC is the finalized remainder from the initial value |
| Crc.MultiPart | src/3rd-party/CRC.h:491-502 | continuing a CRC over a second part gives the CRC of the concatenation |
| Crc.InitTable | src/3rd-party/CRC.h:431-459 | entry b of the table is the remainder of the single byte b |
| Crc.TableStep | src/3rd-party/CRC.h:891-909 | one table lookup equals eight division steps |
| Crc.TableRemainder | src/3rd-party/CRC.h:891-909 | the table-driven remainder equals the bit-by-bit one, for every polynomial and byte string |
| Crc.RemainderInjective | src/3rd-party/CRC.h:776-814 | different remainders stay different whatever bits follow |
| Crc.BurstDetected | src/3rd-party/CRC.h:776-814 | two byte strings that differ only within 32 consecutive bits, counted with the least significant bit of each byte first and over as many as five bytes, have different CRCs, for every polynomial with a constant term |
| Crc.Syndrome | src/3rd-party/CRC.h:776-814 | the difference of two CRCs is the plain remainder of the difference of the data, whatever the data |
| Crc.Residue | src/3rd-party/CRC.h:720-730 | the data followed by its CRC leaves the remainder of the final mask, whatever the data |
| Crc.UnreflectedOutput | src/3rd-party/CRC.h:725-729 | without reflected output the remainder is reversed before the final mask |
| CrcCheck.StepsWord | src/3rd-party/CRC.h:802-813 | steps on 32-bit machine words are the division steps |
| CrcCheck.CheckValue | src/3rd-party/CRC.h:1896-1912 | the CRC-32 of the nine digits is the check value 0xCBF43926 |
| CrcCheck.LeadingZeroCounts | src/3rd-party/CRC.h:1909-1912 | a zero byte in front changes the CRC, whatever follows, because the initial value is not zero |
| BlindSpot.LowerHalfClear | src/3rd-party/CRC.h:1909-1912 | with the polynomial of CRC-32, changing two last bytes by 0x61 and 0xD8 changes the upper half of the CRC only |
| TinyPb.ReadWriteInt32 | src/rocket/net/coder/tinypb_coder.cc:24-42 | reading a written 32-bit number gives it back, sign included |
| TinyPb.WriteReadInt32 | src/rocket/net/coder/tinypb_coder.cc:24-42 | writing a number that was read gives its four bytes back |
| TinyPb.ParseWire | src/rocket/net/coder/tinypb_coder.cc:178-280 | the frame of every message within the limit, even without an identifier, is accepted and gives all fields back |
| TinyPb.ParsePrinted | src/rocket/net/coder/tinypb_coder.cc:178-280 | the parser accepts every printed in-limit message and recovers all its fields, an empty identifier as the default one |
| TinyPb.Reprint | src/rocket/net/coder/tinypb_coder.cc:178-280 | an accepted frame is byte for byte the frame of the message read from it, and it is what encoding that message writes if and only if the identifier is not empty |
| TinyPb.EmptyIdAccepted | src/rocket/net/coder/tinypb_coder.cc:58-60 | the failing side exists: the frame of every message without an identifier is accepted, and encoding what was read writes another frame |
| TinyPbDamage.CorruptionRejected | src/rocket/net/coder/tinypb_coder.cc:264-275 | changing bits within 32 consecutive ones (least significant bit of each byte first) between length field and checksum leaves a well-delimited frame that the parser rejects |
| TinyPbDamage.SumCorruptionRejected | src/rocket/net/coder/tinypb_coder.cc:264-275 | any change confined to the checksum field is rejected |
| TinyPbDamage.UnnoticedExactly | src/rocket/net/coder/tinypb_coder.cc:264-275 | a change of body and checksum passes the checksum test if and only if the checksum field changes by the remainder of the change of the body |
| TinyPbDamage.StraddlingUnnoticed | src/rocket/net/coder/tinypb_coder.cc:94-97 | changes on both sides of the border can pass: every message with two bytes of payload has a twin whose frame differs in the last two bytes of the body and the first two of the checksum only, and is accepted |
| TinyPbStream.CutIndependence | src/rocket/net/coder/tinypb_coder.cc:118-284 | decoding A and then the leftover with B gives what decoding A and B at once gives: messages, verdict and leftover |
| TinyPbStream.ChunkingIrrelevant | src/rocket/net/coder/tinypb_coder.cc:118-284 | the same for any number of pieces, stopping at the first fatal verdict |
| TinyPbStream.Leftover | src/rocket/net/coder/tinypb_coder.cc:136-169 | a non-fatal leftover is empty, or starts with the start byte, is incomplete and is shorter than the packet limit; a second decode changes nothing |
| TinyPbStream.DecodePrinted | src/rocket/net/coder/tinypb_coder.cc:118-284 | printed messages with harmless noise before any of them, in which nothing can be taken for the beginning of a frame, decode to exactly the list, leaving nothing |
| TinyPbStream.NoStartIsHarmless | src/rocket/net/coder/tinypb_coder.cc:136-143 | noise without start bytes is harmless |
| TinyPbStream.StrayByteBeforeFrame | src/rocket/net/coder/tinypb_coder.cc:156-161 | so is a stray start byte directly in front of a frame |
| TinyPbStream.DecodeExactly | src/rocket/net/coder/tinypb_coder.cc:118-284 | decoding, by the first place where a frame can begin: bytes before it are skipped, an incomplete frame is kept, a complete one is taken off with its message or a fatal verdict, and decoding goes on behind it |
| TinyPbStream.NoFrameDropped | src/rocket/net/coder/tinypb_coder.cc:156-176 | no complete frame begins inside the bytes that resynchronising drops |
| TinyPbStream.AcceptedIsPrinted | src/rocket/net/coder/tinypb_coder.cc:277-280 | the bytes consumed for a message are noise followed by the message's frame, which is what encoding writes if and only if the identifier is not empty |
| TinyPbStream.CorruptionIsFatal | src/rocket/net/coder/tinypb_coder.cc:191-196 | a frame damaged within 32 consecutive bits (least significant bit of each byte first) between length field and checksum yields a fatal verdict, no message, and is consumed |
| TinyPbStream.ChangedRunIsFatal | src/rocket/net/coder/tinypb_coder.cc:191-196 | in particular so does any change of one to four consecutive bytes |
| TcpBuffers.TcpBuffer.EnsureWritable | src/rocket/net/tcp/tcp_buffer.cc:70-78 | room is made exactly when it fits; the readable bytes stay; a refusal changes nothing; storage never grows past the limit |
| TcpBuffers.TcpBuffer.MakeSpace | src/rocket/net/tcp/tcp_buffer.cc:80-116 | compaction or growth keeps the readable bytes; exact conditions of success and of growing, and the new size |
| TcpBuffers.TcpBuffer.Append | src/rocket/net/tcp/tcp_buffer.cc:118-124 | appends all or nothing, and is refused only when readable plus new bytes exceed the limit less the prepend area |
| TcpBuffers.TcpBuffer.Consume | src/rocket/net/tcp/tcp_buffer.cc:165-176 | drops up to that many bytes from the front |
| TcpBuffers.TcpBuffer.Retrieve | src/rocket/net/tcp/tcp_buffer.cc:178-183 | result and remaining contents together are the old contents |
| TcpBuffers.TcpBuffer.MoveWriteIndex | src/rocket/net/tcp/tcp_buffer.cc:284-287 | makes bytes already in storage readable, never past its end |
| TcpBuffers.TcpBuffer.ResizeBuffer | src/rocket/net/tcp/tcp_buffer.cc:248-257 | a sufficiently large new block holds the same contents |
| TcpBuffers.TcpBuffer.AdjustBuffer | src/rocket/net/tcp/tcp_buffer.cc:259-266 | keeps the contents and leaves at most half as much room in front as there is to read, beyond the prepend area |
| TcpBuffers.TcpBuffer.Shrink | src/rocket/net/tcp/tcp_buffer.cc:268-274 | keeps the contents and leaves exactly the reserve writable |
| TcpBuffers.PerformAll | src/rocket/net/tcp/tcp_buffer.cc:70-124 | over every run of these operations the contents are those of a byte queue, and every answer is one the queue gives: refusals only beyond the limit less the prepend area, acceptance only within the limit, retrieved bytes from the front |
| TcpBuffers.NothingLost | src/rocket/net/tcp/tcp_buffer.cc:70-124 | over every run, what went in comes out or is still there, byte for byte and in order |
| TinyPbCoder.Decode | src/rocket/net/coder/tinypb_coder.cc:118-284 | the decoding loop on a buffer returns the messages and verdict, and leaves the bytes, of the stream decoder |
| TinyPbCoder.WriteFrame | src/rocket/net/coder/tinypb_coder.cc:78-97 | the writes at the advancing position put exactly the frame behind the readable bytes |
| TinyPbCoder.CalculateChecksum | src/rocket/net/coder/tinypb_coder.cc:286-289 | the coder's checksum is the CRC-32 that the detection results are about |
| TinyPbCoder.EncodeOne | src/rocket/net/coder/tinypb_coder.cc:58-110 | one message is appended as its frame and gets its lengths and the computed checksum, or is refused without a trace in the buffer, and refused only if too large or without room |
| TinyPbCoder.Encode | src/rocket/net/coder/tinypb_coder.cc:46-116 | a batch is appended in order up to the first refusal, foreign messages are skipped, and the encoded messages carry their lengths and checksum |
| TinyPbCoder.BatchRoundTrip | src/rocket/net/coder/tinypb_coder.cc:46-116 | what a batch puts on the wire, cut into any reads, decodes to the batch as encoding left it |
| TimingWheels.TimingBounds | src/rocket/net/timing_wheel.cc:132-148 | rounding of a positive delay to a slot: within the wheel, at most the lag early and at most nine less the lag late |
| TimingWheels.FiledOnTime | src/rocket/net/timing_wheel.cc:132-155 | filing an event inserts one due time, within those bounds of its deadline when near and equal to it when far |
| TimingWheels.SlotDue | src/rocket/net/timing_wheel.cc:132-160 | an entry is in the slot j places after the cursor exactly if it is due at last tick + 10(j+1) |
| TimingWheels.InsertAt | src/rocket/net/timing_wheel.cc:145-148 | pushing onto a slot is an insertion into the ordered deadlines |
| TimingWheels.Tick | src/rocket/net/timing_wheel.cc:157-160 | one tick takes off exactly the entries due at it and leaves the others due when they were |
| TimingWheels.TurnIsExact | src/rocket/net/timing_wheel.cc:83-103 | on the ordinary path and on the capped gap path, what a turn passes is what is due by now |
| TimingWheels.TimingWheel.Schedule | src/rocket/net/timing_wheel.cc:132-155 | the wheel refines the filing of the plain queue |
| TimingWheels.TimingWheel.AddEvent | src/rocket/net/timing_wheel.cc:10-18 | the wheel refines adding: nothing for a cancelled event, else filing, which starts the clock if needed; look and filing are separate steps |
| TimingWheels.TimingWheel.CancelEvent | src/rocket/net/timing_wheel.cc:20-38 | the wheel refines cancelling: the mark, then erasing one overflow entry of the event under its arrival time, as separate steps |
| TimingWheels.TimingWheel.MsUntilNextExpire | src/rocket/net/timing_wheel.cc:40-70 | answers nothing exactly when idle; for a wheel that has started, the answer is exact (nothing leaves earlier, something leaves then) if and only if there is no near entry, or the lag is under one tick and not negative, or the first overflow entry is due or comes before the first near one |
| TimingWheels.ExactlyWhen | src/rocket/net/timing_wheel.cc:48-69 | that equivalence on the two lists, for every lag and also for a clock behind the wheel |
| TimingWheels.LaggingIsLate | src/rocket/net/timing_wheel.cc:50-53 | a failing input: one overdue near entry and a lag of 15 ms announce one more millisecond |
| TimingWheels.TimingWheel.Collect | src/rocket/net/timing_wheel.cc:72-111 | the wheel refines collection: lists, clock and the events handed over |
| TimingWheels.TimingWheel.FireExpired | src/rocket/net/timing_wheel.cc:72-121 | with any marks, erasures and filings of other threads and callbacks before, during and after each callback and between the last look at the mark and the new filing, the turns that run are the specified ones, and the wheel ends as the plain queue does after the same operations |
| TimingWheels.CollectsExactly | src/rocket/net/timing_wheel.cc:98-111 | a collection hands over exactly the uncancelled events with a near deadline or an arrival by now; every deadline that stays is later |
| TimingWheels.EachFilingOnce | src/rocket/net/timing_wheel.cc:72-121 | over every run, filings made equal filings waiting plus filings that left, and each is handed to the callbacks at most once |
| TimingWheels.TurnsAscend | src/rocket/net/timing_wheel.cc:113-121 | callbacks run in the order of collection, each collected filing at most once |
| TimingWheels.RunsUnlessCancelled | src/rocket/net/timing_wheel.cc:113-121 | an event runs at its turn if and only if nobody cancelled it before, neither a callback of the same round nor another thread |
| TimerRounds.RefiledExactly | src/rocket/net/timing_wheel.cc:117-120 | an event is filed again after its turn if and only if it ran, repeats and was not cancelled while it ran or until the last look |
| TimerRounds.FilingsOfRound | src/rocket/net/timing_wheel.cc:113-121 | a round files what its scripts file and exactly the events of those turns |
| TimerRounds.QuietTurn | src/rocket/net/timing_wheel.cc:117-120 | undisturbed, the turn of a repeated event files it at the interval from its new start; any other turn leaves the wheel as it is |
| TimerRounds.QuietRound | src/rocket/net/timing_wheel.cc:72-121 | after an undisturbed round every collected event has run, and the wheel holds what the collection left and each repeating event that ran |
| TimerBacklog.CancelExactly | src/rocket/net/timing_wheel.cc:20-38 | cancelling takes an event out of the overflow map if and only if it is there at most once and, if so, under its arrival time |
| TimerBacklog.StepClean | src/rocket/net/timing_wheel.cc:10-38 | a map that is tidy (each entry under its event's arrival time, no event twice) and free of cancelled events, except those being cancelled, stays so under an operation if and only if the operation files no event that is there or cancelled and moves no arrival time of one that is there |
| TimerBacklog.NoBacklog | src/rocket/net/timing_wheel.cc:24-29 | over every run of such operations no cancelled event is left in the overflow map |
| TimerBacklog.FiledTwiceStays | src/rocket/net/timing_wheel.cc:31-37 | a far event that was filed twice is still there after cancelling |
| TimerBacklog.MovedStays | src/rocket/net/timing_wheel.cc:31-31 | so is one whose arrival time moved while it was filed |
| TimerBacklog.LateFilingStays | src/rocket/net/timing_wheel.cc:11-12 | so is one that was filed after a look at the mark which the cancelling came behind |
| EventLoop.StepInOrder | src/rocket/net/event_loop.cc:103-121 | every step keeps: tasks added are those run, then those of the current round, then those pending, in order |
| EventLoop.StepNotForgotten | src/rocket/net/event_loop.cc:61-78 | every step keeps: on the way to the poller and in it, work and a stop request are announced |
| EventLoop.NeverSleepsOnWork | src/rocket/net/event_loop.cc:61-78 | at the poller with neither a wakeup token nor a thread about to deliver one, no stop is requested and every pending task is one that another thread pushed without asking for a wakeup, despite the cap on rounds and local pushes without wakeup |
| EventLoop.RunInOrder | src/rocket/net/event_loop.cc:103-134 | tasks run exactly once and in the order in which they were added |
| EventLoop.TripRunsAll | src/rocket/net/event_loop.cc:103-134 | one trip of the loop runs every task added before it, however many are added meanwhile |
| EventLoop.RoundsAreBounded | src/rocket/net/event_loop.cc:103-122 | a trip has at most eight rounds, and the loop ends only when asked to or when the poller fails |
| LoopProgress.AllRoundsAreUsed | src/rocket/net/event_loop.cc:107-134 | the loop gives up on pending tasks only after all of its rounds |
| EventLoop.NeverSleepsIfAllWake | src/rocket/net/event_loop.cc:171-177 | over every run in which pushes from other threads ask for their wakeup, nothing at all is pending at an unalarmed poller |
| EventLoop.QuietPushSleeps | src/rocket/net/event_loop.h:42 | the default argument, no wakeup, breaks that: whenever the loop sleeps unalarmed, one such push from another thread leaves it asleep on pending work |
| EventLoop.SleepsAtFirst | src/rocket/net/event_loop.cc:61-69 | the loop does come to sleep unalarmed, right after it has started |
| LoopProgress.EveryTaskRuns | src/rocket/net/event_loop.cc:61-134 | from every reachable state of a going loop, finitely many steps of the loop thread and owed wakeups run every task added by then, except those pushed from outside without a wakeup; the poller need return for nothing but a wakeup |
| LoopProgress.PushedRuns | src/rocket/net/event_loop.cc:171-177 | a task pushed with a wakeup, or on the loop thread, runs behind every task added before |
| LoopProgress.StopEndsLoop | src/rocket/net/event_loop.cc:61-80 | from every reachable state with a stop requested, finitely many steps of the loop thread and owed wakeups end the loop |
| LoopProgress.StopRequestEnds | src/rocket/net/event_loop.cc:147-150 | so asking the loop to stop, from any thread, ends it |
| LoopProgress.ComesToRest | src/rocket/net/event_loop.cc:42-42 | a loop with nothing to do drains its token and sleeps |
| PowerOfTwo.NextPow2 | src/rocket/common/log.cc:63-68 | the bit smearing gives the least power of two that is at least the argument and at least two, and zero beyond 2^63 |
| PowerOfTwo.MaskedIndex | src/rocket/common/log.cc:86-88 | masking a position with capacity less one is the remainder by the capacity |
| SpscRing.Construct | src/rocket/common/log.cc:77-83 | the constructor establishes the ring's invariant, with a power of two of at least the wanted capacity and at least two, if and only if the wanted capacity is at most 2^63; beyond that the ring has no cells |
| SpscRing.StepPreserves | src/rocket/common/log.cc:86-112 | every access of either thread keeps the numbering, contents and counts of the cells |
| SpscRing.BoundedFifo | src/rocket/common/log.cc:86-117 | in every interleaving entries come out as they were published; a claim fails exactly when capacity entries are outstanding; a dequeue fails, and `empty` holds, exactly when nothing is unread |
| SpscRing.EntryIsPublished | src/rocket/common/log.cc:86-99 | with room in the ring the producer's steps publish an entry |
| SpscRing.EntryIsReceived | src/rocket/common/log.cc:102-112 | with an entry unread the writer's steps receive the next one in line |
| SpscRing.ReadsOnlyPublished | src/rocket/common/log.cc:102-112 | the writer only ever reads a published cell, and it is the next in line |
| SpscRing.NoUnreadOverwritten | src/rocket/common/log.cc:86-99 | the cell that the producer works on never holds an unread entry |
| SpscRing.SingleCellOverwrites | src/rocket/common/log.cc:78-79 | with one cell a claim would succeed on an unread entry, which is why the capacity is at least two |
| ConnectionPool.PickLoop | src/rocket/net/rpc/rpc_connection_pool.cc:49-70 | the earliest of the least loaded loops, or none if there is no loop |
| ConnectionPool.ChooseLoop | src/rocket/net/rpc/rpc_connection_pool.cc:116-136 | the earliest least loaded loop other than the caller's own; none exactly when there is no loop, or the caller's own is chosen and every other count is the largest number |
| ConnectionPool.Scan | src/rocket/net/rpc/rpc_connection_pool.cc:88-97 | the scan finds the first healthy client from the current slot on and leaves the turn behind it |
| ConnectionPool.FindsAnyHealthy | src/rocket/net/rpc/rpc_connection_pool.cc:88-97 | the scan comes back empty exactly when every client is dead |
| ConnectionPool.StepPreserves | src/rocket/net/rpc/rpc_connection_pool.cc:72-196 | every critical section and counter update of acquires and shutdown keeps the books balanced and the limit |
| ConnectionPool.Accounting | src/rocket/net/rpc/rpc_connection_pool.cc:72-196 | in every interleaving a loop's count is its clients on the books plus the acquires between count and resolution, never negative; no address exceeds its limit |
| ConnectionPool.AllReturned | src/rocket/net/rpc/rpc_connection_pool.cc:202-234 | after shutdown, with no acquire inside, every count is zero |
| ConnectionPool.DownIsEmpty | src/rocket/net/rpc/rpc_connection_pool.cc:228-233 | after shutdown the pools are empty and stay so |
| ConnectionPool.ServedOnlyWhenFull | src/rocket/net/rpc/rpc_connection_pool.cc:86-98 | nothing is handed out from a pool below its limit or after the shutdown has begun |
| ConnectionPool.HealthyIsServed | src/rocket/net/rpc/rpc_connection_pool.cc:86-98 | an acquire on a full pool gets the first healthy client from the current turn on |
| ConnectionPool.NoHealthyConnects | src/rocket/net/rpc/rpc_connection_pool.cc:100-140 | a full pool of dead clients is emptied and taken off the books, a pool with room is left alone, and the thread goes on to connect if it has a loop |
| ConnectionPool.ShutGivesNothing | src/rocket/net/rpc/rpc_connection_pool.cc:77-77 | after the shutdown has begun an acquire changes nothing |
| ConnectionPool.FailureChangesNothing | src/rocket/net/rpc/rpc_connection_pool.cc:162-166 | a failed connection attempt changes nothing but its thread |
| ConnectionPool.ResolveOutcome | src/rocket/net/rpc/rpc_connection_pool.cc:172-195 | an opened connection joins the pool if there is room, else is given up for the client whose turn it is, or for nothing after a shutdown |
| ConnectionPool.Grows | src/rocket/net/rpc/rpc_connection_pool.cc:104-182 | a pool below its limit grows with every acquire that connects, even if all its clients are healthy |
| ConnectionPool.StrictRotation | src/rocket/net/rpc/rpc_connection_pool.cc:88-97 | a full healthy pool is served in strict rotation whatever other threads do |
| EtcdKeys.DecodeTable | src/rocket/common/etcd_registry.cc:40-45 | the table maps each letter to its value and everything else to zero |
| EtcdKeys.Base64Encode | src/rocket/common/etcd_registry.cc:24-37 | the loop computes the encoding group by group |
| EtcdKeys.Base64Decode | src/rocket/common/etcd_registry.cc:39-60 | the loop computes the decoding of any text, with missing characters read as 'A' |
| EtcdKeys.RoundTrip | src/rocket/common/etcd_registry.cc:24-60 | decoding undoes encoding on every byte string |
| EtcdKeys.EncodedShape | src/rocket/common/etcd_registry.cc:24-37 | four characters for every three bytes begun, and padding exactly where section 4 of RFC 4648 puts it |
| EtcdKeys.EncodedAsDefined | src/rocket/common/etcd_registry.cc:21-37 | before the padding, character i is the letter of the alphabet of section 4 of RFC 4648 at the number formed by bits 6i to 6i+5 of the data, most significant first, with zeros behind the end |
| EtcdKeys.UnpaddedDecodes | src/rocket/common/etcd_registry.cc:49-57 | text whose padding was cut off decodes to the data and one zero byte for each missing sign |
| EtcdKeys.Base64RangeEnd | src/rocket/common/etcd_registry.cc:62-71 | the loop computes the encoding of the range end |
| EtcdKeys.RangeIsPrefix | src/rocket/common/etcd_registry.cc:62-71 | for every key, the range up to its range end holds exactly the strings with that prefix; keys of 0xff only use the marker for an open range |

## Left out

- Weak memory: atomics are sequentially consistent. The no-lost-drain argument needs this for the store at src/rocket/net/tcp/tcp_connection.cc:215 followed by the load in `empty`.
- The concurrent machines are modelled on values, one step per atomic operation or critical section; object identity and lifetime in C++ are not part of them.
- `MpscQueue::tryPopAll` has no callers, and it does not keep the chain invariant because it leaves the stub's old link in place.
- `sendInLoop` from the loop thread itself, output flushing, and delivery while not connected or half closed: only the cross-thread path is modelled. `EventuallyDelivered` speaks of handing over to `sendInLoopBatch`.
- The null-argument path of `callMethodInternal` (src/rocket/net/rpc/rpc_channel.cc:119-127), the closure hand-off through `Init`, and `requestSync`.
- Uniqueness of message identifiers across threads is assumed for calls in flight; the generator makes it only probable.
- CRC: widths other than 32, unreflected input, `CalculateBits`, and the other parameter sets.
- `handleRead` discards the messages decoded before a fatal frame; stream properties are stated for the decoder.
- TinyPbCoder.Encode: a null output buffer is not modelled, because a reference to a buffer is given.
- TcpBuffers.TcpBuffer.Append: a null data pointer is not modelled. `prepend` is left out, as nothing in the library calls it; the read index is therefore at least the prepend size.
- TcpBuffers.TcpBuffer.ResizeBuffer: requires that the new block can hold the contents, which the original presumes.
- TimingWheels.TimingWheel.FireExpired: callbacks and other threads cancel and add events the wheel knows; null pointers and a nested `fireExpired` are left out, and one collection reads all marks at one instant. Events are numbers with a table of their fields.
- TimingWheels.TimingWheel.AddEvent: a null event is not modelled. A clock reading of zero counts as a wheel that has not started, as in the original.
- EventLoop: the poller is free to return at any time, a wakeup channel is one token, and an empty function object is a task that does nothing.
- SpscRing: positions are unbounded, so the wrap-around of 64-bit positions and the signed comparison at that point are not modelled.
- ConnectionPool: load balancing over discovered services (`acquireByService`) is left out, and the loop an acquire chooses is free in the machine, since counts may change while they are read.
- Widths of integers: 32-bit fields of the wire format and 64-bit words of the rounding are modelled with their widths; sizes, times and counters are unbounded.
- TinyPbDamage.UnnoticedExactly: says which changes across the border between body and checksum pass, in terms of the change; it does not list the bit patterns, of which `StraddlingUnnoticed` gives one.
- Descriptor polling, sockets, wakeup channels and the acceptor: they wait for the operating system; the machines take their results as parameters.
- HTTP, YAML configuration, log files and formatting, the thread pool, the service dispatcher, the coroutine wrapper, address parsing and generated protobuf code: they translate, store or pass on what the modelled parts decide.
