# Verified model of the tit-co coroutine runtime

tit-co is a coroutine runtime in C++: one scheduler thread runs coroutines on eight shared
stacks, other threads hand it work, coroutines talk through channels and mutexes, wait on
sockets and timers, and an RPC layer frames protobuf messages over those sockets. This project
models the parts whose correctness depends on whole runs and proves them in Dafny 4.11.

`dafny verify dfyconfig.toml` checks everything. One module per component:

| file | component |
|---|---|
| `Wakeup.dfy` | submitters, the wake-up flag, the eventfd and the scheduler loop, as a transition system |
| `TaskManager.dfy` | the shared queues and the loop's lists as objects, tied step by step to that system |
| `ChannelProtocol.dfy` | channels with blocking, hand-off and timeouts, as a transition system |
| `ChannelImpl.dfy` | the byte ring and the wait contexts in memory, proved to implement it |
| `ChannelTimers.dfy` | a collection of timeouts as a run of the channel |
| `SharedStack.dfy` | the coroutine pool and the lazily copied shared stacks |
| `CoMutex.dfy` | the coroutine mutex |
| `Timers.dfy` | timeout collection and the epoll timeout |
| `InterestSet.dfy` | epoll registrations against the per-socket bookkeeping |
| `ProtoBody.dfy`, `Socket.dfy`, `Framing.dfy` | protobuf bodies, partial socket I/O, length-prefixed frames |
| `Decimal.dfy` | integer formatting |

Transition systems take an event at a time (`Enabled`, `Apply`); `Legal` and `Exec` are whole
runs. A run is any interleaving: submitters are unboundedly many, and a timeout may fire at any
point. `ChannelProtocol.RacingReadIsARun` and `RacingWriteIsARun`, and the methods of
`ChannelImpl` in memory, show that this covers a timer that fires while a pop loop is under way.
Liveness is over infinite interleavings and assumes only that nobody is held up for ever: a
thread inside `Wakeup` gets on with it, and so does the loop, except that epoll_wait need not
return while no edge is pending (`WakeupProtocol.Fair`). Objects that the source mutates are
classes; their methods state the new state as a step of the transition system or through an
abstraction.

## Where the code does not do what it is meant to do

Each is stated on the code as it is, with the exact condition under which the intention holds and
an input at which it fails.

- `SendProtocol` compares the `int` from `Send` with an unsigned length, so a failed send is
  reported as success: true means sent exactly when the kernel takes the whole frame before it
  fails (`Framing.RpcProtocol.SendProtocol`; `Framing.FailedSendLooksSent`).
- `Encode` admits a body of 10000 bytes but prints its length as `1000` (`Framing.FrameAlone`,
  `Framing.FrameRoundTrip`; `Framing.TenThousandBytesAreCut`).
- `Deserialize` ignores the answer of the parser. A service name that is not UTF-8 makes the parser
  stop behind it, so the message arrives silently without its data (`ProtoBody.BodyRoundTrip`,
  `Framing.DecodeExact`; `Framing.BadNameLosesData`).
- `Decode` builds its string from a `char*`, so a zero byte ends the body inside a field. What that
  field then holds is up to the protobuf library; the fields behind it are lost
  (`Framing.DecodeExact`, `Framing.CanArriveExactly`; `Framing.ZeroByteEndsTheBody`).
- `SaveStack` silently saves nothing when the live part of a stack is 4000 bytes or more
  (`SharedStack.EvictionLimit`, which exhibits an image that is lost at every such size).
- `CollectTimeoutTasks` reads the clock again for its result: if the next deadline has passed by
  then, epoll gets a negative timeout and sleeps without limit (`Timers.WaitIsUntilDeadline`,
  `Timers.TimerManager.CollectTimeoutTasks`; `Timers.OverdueTimerSleepsForever`).
- `DelIoEvent(fd, kEvRead)` also deletes the write event (`InterestSet.Epoll.DelIoEvent`;
  `InterestSet.WriteEventIsLost`).

## Model

| member | source | states |
|---|---|---|
| WakeupProtocol.StepKeepsInv | src/epoll.cc:158-192 | every step of any submitter or of the loop keeps the invariant: token, edge, announced work, task accounting |
| WakeupProtocol.StepKeepsToken | src/epoll.cc:158-192 | the raised flag is a single token moving between submitter, eventfd and handler; queued work is always announced |
| WakeupProtocol.RunsKeepInv | src/scheduler.cc:166-232 | the invariant holds in every state of every interleaving |
| WakeupProtocol.NoLostWakeup | include/scheduler.h:90-99 | a loop blocked in epoll_wait with work queued has an edge pending, or a submitter is still inside Wakeup |
| WakeupProtocol.TokenLaw | src/epoll.cc:158-192 | flag = writers + counter + handler; at most one writer, counter at most 1, a write never meets a full counter, the handler always reads exactly one signal |
| WakeupProtocol.ExactlyOnceInOrder | src/scheduler.cc:198-228 | submissions = started ++ local list ++ queue, for new and ready tasks, and collected timeouts = resumed ++ in hand; local lists are empty at every swap and the ready list at every timeout collection |
| WakeupProtocol.HistoriesAreTheEvents | src/scheduler.cc:198-228 | the logs hold exactly what the events of the run submitted and collected, in order, and one entry for each step that runs a task |
| WakeupProtocol.EverythingIsAccountedFor | src/scheduler.cc:198-228 | over every run, told from its events: what was submitted, and what the timers handed over, is what has run, in order, then what the loop has in hand, then what is queued |
| WakeupProtocol.LoopStepMakesProgress | src/scheduler.cc:166-232 | each step of the loop brings whatever was submitted so far nearer to having run, by a lexicographic rank, whatever is submitted meanwhile |
| WakeupProtocol.NeverStuck | src/scheduler.cc:166-232 | outside epoll_wait the loop can always step; in it, with work queued, the wake-up event is there or a submitter has yet to signal it |
| WakeupProtocol.LoopStepsAgain | src/epoll.cc:158-175 | no lost wake-up over time: in every fair infinite interleaving a loop with work queued steps again, although epoll_wait need not return without an edge |
| WakeupProtocol.EverySubmissionIsRun | src/scheduler.cc:166-232 | liveness: in every fair infinite interleaving, with submitters that may go on for ever, whatever has been submitted at any point is eventually started or resumed, in order |
| WakeupProtocol.EveryTimeoutIsResumed | src/scheduler.cc:217-228 | liveness for timeouts: in every fair infinite interleaving each coroutine that the timers hand over is eventually resumed, in order |
| WakeupProtocol.EverySubmitterReturns | src/epoll.cc:158-175 | in every fair infinite interleaving every thread gets out of Wakeup |
| WakeupProtocol.FairRunExists | src/scheduler.cc:166-232 | a fair infinite run in which a task is submitted: queued, signalled, started, and the loop waits again |
| TaskLists.TaskManager.AddNewTasks | src/task_manager.cc:14-17 | appends to the new-task queue; `Shared.Push` is the protocol step made of it |
| TaskLists.TaskManager.AddReadyTasks | src/task_manager.cc:19-22 | appends to the ready queue; `Shared.Push` is the protocol step made of it |
| TaskLists.TaskManager.GetAllTasks | src/task_manager.cc:24-33 | swaps each list with the caller's unless the shared one is empty, as the protocol's swap step does |
| TaskLists.Shared.Push | src/task_manager.cc:14-22 | queueing a task is the protocol's submission step |
| TaskLists.Shared.TryRaise | src/epoll.cc:160-160 | the compare-and-swap on the flag is the protocol's step, and its winner is to write |
| TaskLists.Shared.Signal | src/epoll.cc:161-172 | the write to the eventfd is the protocol's step |
| TaskLists.Shared.AddTask | include/scheduler.h:90-99 | a whole submission is a run of the protocol: the closure or coroutine is queued first, the flag is up afterwards, and exactly the caller that raised it has signalled |
| TaskLists.Shared.Others | include/scheduler.h:90-99 | any steps of any submitting threads are a run of the protocol that leaves the loop and its lists alone |
| TaskLists.LoopLists.StartNewTasks | src/scheduler.cc:200-206 | starts the whole local list in order; the state afterwards is exactly that of the tasks with the steps other threads take while each of them runs |
| TaskLists.LoopLists.ResumeReadyTasks | src/scheduler.cc:207-213 | resumes the whole local list in order; the state afterwards is exactly that of the tasks with the steps other threads take while each of them runs |
| TaskLists.LoopLists.RunTasks | src/scheduler.cc:198-215 | one round runs exactly what was queued at the swap, after which everything submitted before it has run; what other threads did meanwhile has happened exactly, and what they submitted is queued in order for the next round |
| TaskLists.StartsInOrder | src/scheduler.cc:200-206 | whatever other threads do while tasks run, exactly the first n tasks of the list have been started, in order, by a run of the protocol |
| TaskLists.ResumesInOrder | src/scheduler.cc:207-213 | the same for resumed tasks |
| TaskLists.ScriptIsTheRun | include/scheduler.h:90-99 | a script of submitters' steps that is a run of the protocol is taken step by step |
| TaskLists.WorkOffIsTheRun | src/scheduler.cc:200-213 | working off a list while others act is the run of all its tasks and all their steps, interleaved as given |
| TaskLists.SwapTakesEverything | src/task_manager.cc:24-33 | in a reachable state the swap empties the queues and puts nothing back |
| ChannelProtocol.PopDeadIsSuffix | src/channel.cc:72-86 | the pop loop drops only contexts past kInit and stops at the first live one |
| ChannelProtocol.ReadKeepsInv | src/channel.cc:38-92 | Read keeps queue order, homogeneity, FIFO completion and conservation of values |
| ChannelProtocol.WriteKeepsInv | src/channel.cc:94-141 | Write keeps them |
| ChannelProtocol.ReadAndRefillKeepsInv | src/channel.cc:69-84 | the read on a full buffer that lets the oldest blocked writer in |
| ChannelProtocol.HandOffKeepsInv | src/channel.cc:103-113 | the write that hands its value to the oldest blocked reader |
| ChannelProtocol.ExpireKeepsInv | src/timer_manager.cc:21-22 | a timeout of any waiting context keeps them, its entry staying queued |
| ChannelProtocol.RunsKeepInv | src/channel.cc:38-141 | the channel invariant holds after every run of reads, writes and timeouts |
| ChannelProtocol.Pairing | src/channel.cc:38-141 | over every run the k-th read that does not time out gets the value of the k-th write that does not; delivered ++ buffer ++ blocked writers = surviving writes in order |
| ChannelProtocol.RunsAreRecorded | src/channel.cc:38-141 | over every run the operations are exactly the calls, one each, in order, with their kinds and values, and those have timed out whose timers won |
| ChannelProtocol.PairingOfCalls | src/channel.cc:38-141 | pairing told from the calls: over every run the k-th Read call that does not time out gets the value of the k-th Write call that does not; what the surviving Write calls brought is what was read, then the buffer, then the blocked writes |
| ChannelProtocol.NoStuckWaiter | src/channel.cc:40-139 | live readers wait only on an empty buffer, live writers only on a full one, nobody is queued in between, completion is first come, first served |
| ChannelProtocol.CompletedReadHasItsWrite | src/channel.cc:103-108 | a read completed by a peer holds the value of the surviving write of the same rank |
| ChannelProtocol.RaceHasOneOrder | src/channel.cc:72-86 | any interleaving of timeouts with the pop loop gives the result of the timeouts first and the loop afterwards |
| ChannelProtocol.RacingReadIsARun | src/channel.cc:69-88 | a read racing with timers is some timeouts followed by the atomic read |
| ChannelProtocol.RacingWriteIsARun | src/channel.cc:103-119 | a write racing with timers is some timeouts followed by the atomic write |
| ChannelMemory.ChannelImpl.constructor | include/channel.h:67-75 | an empty ring of the given capacity |
| ChannelMemory.ChannelImpl.PositionsTellFill | src/channel.cc:40-47 | rx_ != wx_ exactly when the ring is neither empty nor full |
| ChannelMemory.ChannelImpl.TakeBlock | src/channel.cc:41-43 | in bounds, removes the first block, positions stay block multiples below buf_size_ |
| ChannelMemory.ChannelImpl.PutBlock | src/channel.cc:76-78 | in bounds, appends a block and leaves the others intact |
| ChannelMemory.ChannelImpl.PopLive | src/channel.cc:72-86 | the pop loop, with timers at any contexts between its turns, is the protocol's racing pop: the first context live at its turn becomes kReady, and every context keeps showing its operation |
| ChannelMemory.ChannelImpl.PopOne | src/channel.cc:73-75 | one turn of it: wins exactly if the context is still kInit after the timers |
| ChannelMemory.ChannelImpl.ReadFull | src/channel.cc:69-88 | read-then-refill on a full ring is the protocol's read, with timers racing |
| ChannelMemory.ChannelImpl.WriteEmpty | src/channel.cc:103-119 | hand-off or first fill is the protocol's write, with timers racing |
| ChannelMemory.ChannelImpl.Read | src/channel.cc:38-90 | the byte-level read, timers racing with its pop loop, is some timeouts and then the protocol's read step; it returns the first block or suspends |
| ChannelMemory.ChannelImpl.FinishRead | src/channel.cc:63-67 | a reader that was suspended gets its own memory if the timer woke it, else what its context holds: if a peer completed it, the value of the surviving write of the same rank |
| ChannelMemory.ChannelImpl.Write | src/channel.cc:94-141 | the byte-level write, timers racing with its pop loop, is some timeouts and then the protocol's write step; it suspends exactly on a full ring |
| ChannelMemory.ChannelImpl.ExpireCtx | src/timer_manager.cc:21-22 | on any context of the channel, queued or popped, the timer's compare-and-swap wins exactly on kInit and is then the protocol's timeout step |
| ChannelTimers.CollectionIsARun | src/timer_manager.cc:16-30 | seen by any one channel, a collection of timeouts is a run of that channel's own timeouts, and contexts and operations stay in step |
| ChannelTimers.ExpireAllExactly | src/timer_manager.cc:21-22 | an operation times out in it exactly if it was waiting and its coroutine is due |
| SharedStack.FixedBuffer.Append | include/stream.h:40-48 | appends exactly when the bytes fit with room to spare, else changes nothing |
| SharedStack.EvictionLimit | src/scheduler.cc:134-141 | save and restore is faithful for all images of a size if and only if the size is below 4000 |
| SharedStack.SchedulerImpl.SaveStack | src/scheduler.cc:134-141 | the owner's image is in its private buffer afterwards, if it is small enough, and nobody else's image is touched |
| SharedStack.SchedulerImpl.Pop | src/co_poll.cc:18-37 | never returns a live coroutine; live and idle ids partition the ids handed out; stack is id mod 8 in every life; context reset |
| SharedStack.SchedulerImpl.Push | src/co_poll.cc:39-41 | the id becomes idle, idle ids stay distinct |
| SharedStack.SchedulerImpl.TakeOver | src/scheduler.cc:101-104 | evicting a stack's owner keeps every suspended coroutine's image |
| SharedStack.SchedulerImpl.SwitchIn | src/scheduler.cc:84-119 | the stack becomes the coroutine's; a fresh one sees nothing, a suspended one its image |
| SharedStack.SchedulerImpl.YieldBack | src/scheduler.cc:120-128 | after a yield the image is what the coroutine left, and it keeps the stack |
| SharedStack.SchedulerImpl.Recycle | src/scheduler.cc:143-148 | after a finish the stack is free and the coroutine idle |
| SharedStack.SchedulerImpl.Resume | src/scheduler.cc:84-132 | the resumed coroutine finds the image of its last yield, unless it was evicted and too large to save |
| SharedStack.SchedulerImpl.Start | src/scheduler.cc:78-82 | a new coroutine gets an id that was not live and a clean start |
| SharedStack.SchedulerImpl.Run | src/scheduler.cc:84-148 | for every script of starts and resumptions the trace is one that private stacks would give |
| CoMutex.StepKeepsInv | src/mutex.cc:16-47 | every call keeps: one owner iff locked, waiters only while locked, arrivals = grants ++ queue |
| CoMutex.MutualExclusion | src/mutex.cc:16-47 | over every run at most one owner, in transit included; lock_ iff there is one; grants in order of arrival |
| CoMutex.OwnerIsTheCalls | src/mutex.cc:16-47 | over every run, told from the calls: the owner, holding or in transit, and the waiters are those of a first come, first served lock, and the mutex is granted in the order in which it was asked for |
| CoMutex.HandOff | src/mutex.cc:31-42 | while there are waiters each unlock grants the next of them, every Lock queues and every TryLock fails |
| CoMutex.WaitIsBounded | src/mutex.cc:31-42 | a coroutine at position k acquires at the (k+1)-th unlock and not before |
| CoMutex.Mutex.Lock | src/mutex.cc:16-29 | acquires a free mutex, queues on a held one; the answer is true exactly if the caller now owns it |
| CoMutex.Mutex.UnLock | src/mutex.cc:31-42 | hands over to the first waiter through the ready list, or frees the mutex |
| CoMutex.Mutex.TryLock | src/mutex.cc:44-47 | acquires exactly a free mutex, without queueing; the answer is true exactly if the caller now owns it |
| Timers.TimeoutsAreExact | src/timer_manager.cc:18-28 | exactly the kInit contexts of due coroutines become kTimeout; nothing else is overwritten |
| Timers.EveryDueWaiterIsCollected | src/timer_manager.cc:19-28 | every due coroutine with a wait context is collected, in deadline order |
| Timers.WaitIsUntilDeadline | src/timer_manager.cc:40-41 | for every deadline and reading, the epoll timeout is the time to the deadline if and only if that lies in [0, 2^31); overdue by up to 2^31 ms it is negative |
| Timers.OverdueTimerSleepsForever | src/timer_manager.cc:13-42 | a clock for which collecting leaves a due timer behind, its coroutine still waiting, and tells epoll to sleep without limit |
| Timers.TimerManager.AddTimer | include/timer_manager.h:31-33 | inserts one deadline, order kept |
| Timers.TimerManager.FireOne | src/timer_manager.cc:18-28 | one due timer's compare-and-swap and fallback |
| Timers.TimerManager.Scan | src/timer_manager.cc:15-30 | the loop fires exactly the timers up to the first that is not due at its reading |
| Timers.TimerManager.CollectTimeoutTasks | src/timer_manager.cc:13-42 | removes exactly a prefix, each removed deadline due at its reading, each kept one later than the reading that stopped the scan; epoll sleeps until the next deadline if and only if it has not passed at the last reading, and is less than 2^31 ms away |
| InterestSet.Epoll.constructor | src/epoll.cc:35-50 | starts in agreement with the wake-up descriptor registered for reading |
| InterestSet.Epoll.AddEvRead | src/epoll.cc:60-81 | never refused by the kernel; slots and mask agree afterwards unless the id is -1 |
| InterestSet.Epoll.AddEvWrite | src/epoll.cc:83-104 | the same for writing |
| InterestSet.Epoll.DelEvRead | src/epoll.cc:106-123 | clears the read slot only, never refused, agreement kept |
| InterestSet.Epoll.DelEvWrite | src/epoll.cc:125-142 | clears the write slot only, never refused, agreement kept |
| InterestSet.Epoll.DelEvent | src/epoll.cc:144-152 | clears both slots, never refused, agreement kept |
| InterestSet.Epoll.DelIoEvent | src/scheduler.cc:243-248 | deleting the read event keeps the write event if and only if there was none |
| InterestSet.WriteEventIsLost | src/scheduler.cc:243-248 | a reader and a writer on one socket: deleting the read event leaves no event at all |
| InterestSet.Epoll.Run | src/epoll.cc:60-152 | over every sequence of calls no epoll_ctl is refused, each descriptor's slots are what its calls leave, and masks equal slots |
| InterestSet.RegisteredExactly | src/sock_ctx.cc:13-58 | after any calls an event is registered if and only if some call asked for it that no later call took back |
| InterestSet.FirstAskerIsServed | src/epoll.cc:60-104 | the coroutine registered is that of the first such call |
| ProtoBody.VarintSizeIsLength | include/rpc/protos/gen/base.pb.cc:387-410 | the closed form for a varint's size is the number of bytes written |
| ProtoBody.ReadVarintExactly | include/rpc/protos/gen/base.pb.cc:224-224 | any varint, however padded, is read as the positional value of its groups, unless it is too long |
| ProtoBody.Utf8Exactly | include/rpc/protos/gen/base.pb.cc:267-267 | the check accepts a name if and only if it is the UTF-8 encoding of some code points |
| ProtoBody.BodyRoundTrip | include/rpc/protos/gen/base.pb.cc:214-362 | parsing the serialised fields gives back all seven if the name is UTF-8; otherwise the parser stops with the name in the message and the data not |
| ProtoBody.NumberIsLow32Bits | include/rpc/protos/gen/base.pb.cc:224-224 | of whatever varint another sender writes for a number, the low 32 bits are kept |
| ProtoBody.CutNumberIsTorn | include/rpc/protos/gen/base.pb.cc:224-225 | a number whose bytes run out is torn |
| ProtoBody.CutTagIsTorn | include/rpc/protos/gen/base.pb.cc:219-219 | a tag whose bytes run out leaves any field to the library |
| ProtoBody.BadTagStops | include/rpc/protos/gen/base.pb.cc:283-293 | an end of group outside a group, a wire type that does not exist and field number 0 stop the parser |
| ProtoBody.CutUnknownStops | include/rpc/protos/gen/base.pb.cc:289-293 | an unknown field whose bytes run out is not stepped over |
| ProtoBody.WrongEndStops | include/rpc/protos/gen/base.pb.cc:289-293 | nor is a group that ends with another number |
| ProtoBody.UnknownFieldsAreSkipped | include/rpc/protos/gen/base.pb.cc:283-293 | an unknown field of any wire type, or a known number in another one, nested groups included, is stepped over exactly and changes nothing, if and only if no group is nested deeper than 100; else the parser stops with the message as it stands |
| ProtoBody.ZeroFree | include/rpc/protos/gen/base.pb.cc:304-354 | the body is free of zero bytes if and only if name and data are (and a present name is not empty) |
| ProtoBody.InternalSerialize | include/rpc/protos/gen/base.pb.cc:304-362 | writes exactly the non-default fields in field order |
| ProtoBody.SerializeIsMinimal | include/rpc/protos/gen/base.pb.cc:304-362 | the body is the list of fields that makes up the message, in ascending order, none with its default value |
| ProtoBody.WireExample | include/rpc/protos/gen/base.pb.cc:304-362 | the bytes of one message |
| ProtoBody.ByteSizeLong | include/rpc/protos/gen/base.pb.cc:364-413 | predicts the length of what is written, in another field order |
| ProtoBody.InternalParse | include/rpc/protos/gen/base.pb.cc:214-302 | the parse loop computes the parser function, with the fields it leaves in the message when it stops early |
| Sockets.Socket.Recvn | src/sock.cc:162-183 | under any partial results, interrupts and waits the buffer is the front of the stream; n comes back if and only if n bytes have arrived and the kernel lets n through, -1 if and only if a failure comes first, 0 if and only if being told that there is nothing comes first |
| Sockets.ReceiveEnds | src/sock.cc:167-182 | which of these comes first, exactly, over the kernel's turns and the bytes that have arrived |
| Sockets.Socket.Send | src/sock.cc:202-224 | the kernel has accepted, in order, what it had room for before failing; n comes back if and only if that is all n bytes, -1 if and only if it failed before |
| Framing.DecodeExact | include/rpc/protocol.h:141-153 | what every message becomes: whole, without its data (name not UTF-8), or torn in the name or the data (zero byte); it is certain to arrive if and only if the name has no zero byte and the data have none either, or are empty where the name is not UTF-8 |
| Framing.CanArriveExactly | src/rpc/rpc_protocol_handler.cc:26-30 | it can arrive at all, whatever the library makes of a torn field, if and only if it has no data or its name is UTF-8 without zero bytes |
| Framing.CertainExactly | include/rpc/protocol.h:141-153 | a decoded result is a message for certain exactly if no field of it is left to the library |
| Framing.WireCarriesTheFields | include/rpc/protocol.h:127-140 | all seven fields of a message go over the wire, each in its own place |
| Framing.CutNumberDecodes | include/rpc/protocol.h:141-153 | a message cut off in its type or id has that field left to the library; the other numbers are not used |
| Framing.BadNameLosesData | include/rpc/protocol.h:141-153 | a message with a name that is not UTF-8, which arrives without its data |
| Framing.ZeroByteEndsTheBody | src/rpc/rpc_protocol_handler.cc:26-30 | a message with a zero byte in its name, which loses its data for certain, and one with a zero byte in its data, which are torn |
| Framing.AtoiOfPrefix | src/rpc/rpc_protocol_handler.cc:21-22 | atoi reads back the printed length, cut to four digits |
| Framing.AtoiExactly | src/rpc/rpc_protocol_handler.cc:45-45 | atoi of blanks, a sign or none, digits and whatever follows them is the signed value of the digits |
| Framing.NextBodyExactly | src/rpc/rpc_protocol_handler.cc:32-58 | a body comes off a stream if and only if the stream is its announced length, in any form that atoi reads, then the body, then the rest |
| Framing.FrameThenRest | src/rpc/rpc_protocol_handler.cc:32-58 | exactly the frame's bytes are taken off the front of any stream |
| Framing.FrameAlone | src/rpc/rpc_protocol_handler.cc:13-24 | a frame comes back whole if and only if its body has 1 to 9999 bytes |
| Framing.TenThousandBytesAreCut | src/rpc/rpc_protocol_handler.cc:17-23 | a message whose body has 10000 bytes, of which the receiver takes 1000 |
| Framing.FrameRoundTrip | src/rpc/rpc_protocol_handler.cc:13-58 | one message is certain to arrive with nothing left over if and only if it fits a frame and survives decoding |
| Framing.StreamRoundTrip | include/rpc/protocol.h:127-153 | any number of messages are certain to come out with the same type, id, name and data, in order, if and only if each of them fits a frame and survives decoding |
| Framing.OnlySendableComesOut | src/rpc/rpc_protocol_handler.cc:13-58 | its only-if half: a message lost or mangled is never made up for by those that follow |
| Framing.TransfersCarry | src/sock.cc:162-183 | as many transfers as bytes carry any frames, whatever the size of each transfer |
| Framing.RpcProtocol.RecvProtocol | src/rpc/rpc_protocol_handler.cc:32-58 | a message is received if and only if its frame is there whole and the kernel lets first the digits and then the body through; it is the next frame of the stream, and exactly the frame is consumed; the socket is closed if and only if the kernel tells that there is nothing before the digits are through |
| Framing.RpcProtocol.ReceiveMany | src/rpc/rpc_protocol_handler.cc:32-58 | off any stream, repeated receiving yields the first of the messages that are in it, in order; all that were asked for, leaving the rest, if and only if the kernel carries their frames |
| Framing.RpcProtocol.ReceiveUpTo | src/rpc/rpc_protocol_handler.cc:32-58 | the stream round trip under any chunking: what has arrived is the first messages sent; all that were asked for arrive, leaving the rest, if and only if the kernel carries their frames, and so if it makes as many transfers as they have bytes |
| Framing.RpcProtocol.SendProtocol | src/rpc/rpc_protocol_handler.cc:60-76 | true for every frame that could be built, once the send comes back; the frame was handed over if and only if the kernel had room for all of it before failing |
| Framing.FailedSendLooksSent | src/rpc/rpc_protocol_handler.cc:71-75 | a send that the kernel refuses: nothing goes out and the answer is true |
| DecimalFormat.DecimalRoundTrip | src/stream.cc:31-52 | reading the notation back gives the value, for every integer |
| DecimalFormat.DecimalIsTheNotation | src/stream.cc:31-52 | what is written is canonical (a sign only before a negative number, no zero in front) and the only canonical notation of its value |
| DecimalFormat.DecimalLength | src/stream.cc:31-52 | at most 20 characters for every 64-bit value |
| DecimalFormat.TableIsSymmetric | src/stream.cc:23-41 | the digit table turns C's signed remainder into the right digit |
| DecimalFormat.WriteDigits | src/stream.cc:37-42 | the loop writes the digits in reverse, minimum value included |
| DecimalFormat.Reverse | src/stream.cc:49-49 | the segment is reversed in place |
| DecimalFormat.Convert | src/stream.cc:32-52 | the buffer holds the decimal notation and nothing else is touched |
| DecimalFormat.Stream.FormatInteger | src/stream.cc:207-215 | appends the notation or, with fewer than 48 characters left, nothing; the cursor stays inside |

## Left out

- Several schedulers: one scheduler thread is modelled, with any number of submitting threads.
- Errors of the eventfd other than EINTR and a full counter; the loop's own errors of epoll_wait are plain retries.
- The context switch (`src/context`): a jump is any rewriting of the running coroutine's stack followed by a yield or a finish.
- Memory above the top of a stack: the copy back is 4000 bytes long whatever was saved; it is cut off at the top here.
- Dispatch of socket events to coroutines in the loop (`src/scheduler.cc:184-195`), which tests its masks with `|` and so always resumes both directions.
- Resuming a coroutine once per wait: the timer also collects coroutines that a peer has made ready, and stale timers are never deleted; only what the compare-and-swap decides is claimed.
- The insertion hint of the timer map, and `Sleep`, which has no wait context to time out.
- Raw layout of wait contexts (`src/channel.cc:19-36`): a fresh context is kInit with a value cell of its own. The code does not set the state; the documentation (`docs/channel实现.md:219`) does.
- Capacity 0 and capacities whose byte size does not fit 32 bits.
- What the protobuf library leaves in a field whose bytes run out (`Torn`, `Partly`): any content is allowed. Unknown fields are stepped over and not kept.
- The protobuf library itself is not part of the repository; its varint, tag, string and group readers follow the Protocol Buffers encoding, with the library's limit of 100 nested groups.
- What happens at a negative length prefix (`Undefined`).
- Matching RPC responses to requests by id, server and connection classes, logging, addresses.
- Hexadecimal, floating-point and unit formatting.
