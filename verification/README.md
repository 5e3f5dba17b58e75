# A verified model of the reactor core

This project models one worker process of the server in Dafny: the timer heap, the reactor around it, the
connections with their buffers, the packet format and the partial-transfer loops, and proves what they keep,
step by step and over whole runs. `dafny verify dfyconfig.toml` checks all of it.

## How it is built

Every component exists twice. The first form is a set of functions on values, which take the branches of the
C code one by one. The second form is a class or a method on arrays and objects in the shape of the source:
loops, moving holes, in-place copies, back-pointers. Every method of the second form is proved to change the
objects exactly as the first form says, and what the source is for is proved about the first form.

| files | what they model |
|---|---|
| TimeMath | time values, their macros, the epoll timeout |
| HeapModel, HeapProofs, HeapRuns, HeapWitness; MinHeap | the timer heap on values; on an array of nodes |
| Bytes, Protocol; PacketPack | the packet format; the builder and reader on a buffer |
| SocketModel; SocketApi | the read and write loops over a scripted socket |
| Splitter, Receiver, ReceiverProgress | a reference stream splitter and the receive state machine |
| Doubling | capacities that are doubled until there is room |
| Sender, Delivery | the outbound buffer, and both buffers back to back |
| Answers | what a server owes its peer for the packets received |
| ConnFd | a connection's buffers in place |
| Registration | the table of expected events and the kernel's interest list |
| Reactor, EventLoop, WorkerRuns | connections, timers and table together: callbacks, sweep, dispatch, runs |
| Rounds | what a round, a batch and a turn do to each connection, told from the event's flags; what clients get over runs |
| EventBase, EventDispatch | the same on objects, from the creation to a turn of the loop |

The environment is a parameter: what arrives on a socket (bytes in any pieces, EAGAIN, EINTR, end of stream,
errors), what it accepts, who connects, what the clock shows, when `epoll_ctl` fails, and the bytes with which
the handler of the test command fills its answer (the answer's length is the handler's own). The heap and the
timers are generic in the type of their nodes. The fd table is a sequence-valued field that the methods
reassign entry by entry; the slot array of the heap and the buffers of a connection are arrays.

`Revision` says how the lines are read that miss their evident purpose: `AsWritten` is the code as it stands,
`AsIntended` is what the neighbouring code shows was meant. Operations that contain such a line take the
revision. For the code as written each has a theorem with the exact condition under which it does what it is
for; whole-run theorems hold for either revision on runs that stay clear of those conditions (`Sound` and its
relatives), and `IntendedReadyIff`, `IntendedRecvIff` and `IntendedSoundIff` show what is left of these
conditions for the intended lines: a fresh descriptor for an accept, and room for what a handler sends.
`IntendedBatchSound` shows that each event of a batch can be checked for that when the batch is returned.

## Where the code differs from its purpose

| line | what happens | theorem |
|---|---|---|
| src/min_heap.c:305 | the sift-up branch of an erase resets the index of the node that stays | `EraseExact`, `ReRegister`, `SiftUpBranchReachable` |
| src/reactor.c:359 | leftover milliseconds are stored as microseconds | `IntervalExactIff` |
| src/reactor.c:361-371 | when the clock has stepped back so far that the last timer of the heap is registered anew before its parent, its erase drops another timer | `ReRegister`, `BackwardsLosesNode` |
| src/bin_proto.c:182 | the command is copied behind the structure, not into the buffer | `BuiltIsRequestedIff` |
| src/socket_util.c:344 | the grown send buffer gets four bytes | `ResizeExact`, `ResizePaths` |
| src/socket_util.c:557 | the start of the buffer is copied over a packet built in place | `AppendBuiltExact`, `SecondPacketLost` |
| src/bin_proto.c:348-351 | an echo overwrites what is pending, and one of more than 4096 bytes runs over the end of a fresh buffer | `EchoExact`, `LongEchoOverruns` |
| src/bin_proto.c:379-396 | the answer to a test command is 14 bytes longer than the room asked for it, and the check that would refuse it (422-425) has no consequence | `ReplyExact`, `FirstReply`, `FirstReplyIntended` |
| src/socket_util.c:455 | an event that finds a header and nothing else is fatal | `EventSurvivesIff`, `HeaderAloneIsFatal` |
| src/reactor.c:112 | the table is not initialised | `ListenRegisteredIff`, `CreatedInv` |
| src/reactor.c:236 | both bits at once register nothing when one is set | `EventAddCoversIff` |
| src/socket_api.c:359 | descriptor 0 cannot send | `WritableExact` |

## Model

| member | source | states |
|---|---|---|
| `TimeMath.ComparisonIsByMicros` | include/min_heap.h:55-58 | `>` and `<=` of the comparison macro are complementary for all values, and order normal values by their number of microseconds |
| `TimeMath.AddSubExact` | include/min_heap.h:61-80 | addition and subtraction of normal values are exact, stay normal and undo each other |
| `TimeMath.IntervalExactIff` | src/reactor.c:358-359 | the stored interval is the requested number of milliseconds if and only if that is a whole number of seconds, because leftover milliseconds are stored as microseconds |
| `TimeMath.EpollTimeoutExact` | src/reactor.c:396-453 | the waiting time is -1 exactly for an empty heap, 0 exactly when the top is due, and otherwise the least whole number of milliseconds that reaches the deadline |
| `HeapProofs.ShiftUpOrders` | src/min_heap.c:354-396 | the sift-up turns a heap that is out of order only at its moving hole into an ordered one |
| `HeapProofs.ShiftDownOrders` | src/min_heap.c:408-470 | the same for the sift-down, which scans all slots including the last one while it still holds the node being placed |
| `HeapProofs.ShiftUpPlaces` | src/min_heap.c:354-396 | the sift-up places the node once, conserves the multiset of nodes, makes every slot known to its node and touches no other index |
| `HeapProofs.ShiftDownPlaces` | src/min_heap.c:408-470 | the same for the sift-down, with the stale copy that the last slot still holds |
| `HeapProofs.PushCorrect` | src/min_heap.c:207-230 | a push keeps order and index bijection and adds just that node |
| `HeapProofs.OverwrittenMayErase` | src/reactor.c:361-368 | after the key of a node has been overwritten in place, by any time, the heap is still fit for erasing that node if and only if the node is not in the last slot or no earlier than its parent; a time that does not move backwards always leaves it so |
| `HeapProofs.EraseContents` | src/min_heap.c:272-321 | an erase at any slot, through either branch and including the last slot, removes exactly that node and keeps the heap order, although the heap may be out of order at that node |
| `HeapProofs.EraseExact` | src/min_heap.c:296-318 | the index bijection survives an erase if and only if the sift-up branch is not taken or its reset line is the intended one; otherwise the moved node stays in the heap with index -1 |
| `HeapProofs.PopCorrect` | src/min_heap.c:237-264 | a pop removes the earliest node and leaves a valid heap of the others |
| `HeapProofs.PopIsErase` | src/min_heap.c:237-264 | popping is erasing the top, and never takes the sift-up branch |
| `HeapProofs.TopIsEarliest` | src/min_heap.c:134-150 | no node is earlier than the one in slot 0 |
| `HeapProofs.ReRegister` | src/reactor.c:352-372 | overwriting the key in place by any time, erasing and pushing: the heap is valid after the erase, and after the push, if and only if the node was not in the heap, or the erase did not take the sift-up branch, or that line is the intended one and the node was not the last; then it holds the node exactly once, besides the others |
| `HeapRuns.CallRefinesQueue` | src/min_heap.c:207-321 | every call acts on the pending deadlines as on an abstract priority queue and keeps the heap valid |
| `HeapRuns.CallValidIff` | src/min_heap.c:207-321 | a legal call leaves a valid heap if and only if it is sound, for either revision of the reset line and any deadline |
| `HeapRuns.RunRefinesQueue` | src/min_heap.c:134-321 | the same along every run of initialisations, registrations, unregistrations and pops, of any length |
| `HeapRuns.RunValidIff` | src/min_heap.c:134-321 | all states of a run of legal calls are valid if and only if every call is sound where it is made |
| `HeapRuns.DrainSorts` | src/min_heap.c:237-264 | draining any valid heap yields its nodes, each as often as it is held, in deadline order |
| `HeapRuns.AmortisedGrowth` | src/min_heap.c:160-199 | over any run the capacity is 0 or 16 times a power of two, suffices, and all reallocations together copy fewer slots than twice the peak |
| `HeapRuns.RunCopiesLittle` | src/min_heap.c:160-199 | the same for the array of a heap after every legal run of calls, together with the number of nodes that it then holds |
| `HeapWitness.SiftUpBranchReachable` | src/min_heap.c:299-307 | a run of legal calls with increasing deadlines reaches the sift-up branch of the erase; as written, it leaves a node in the heap that can no longer be erased |
| `HeapWitness.BackwardsLosesNode` | src/reactor.c:352-372 | of two timers the later one, registered anew for a time before the other, takes the other out of the heap, for either revision |
| `MinHeap.MinHeapHeader.ShiftUp` | src/min_heap.c:354-396 | the loop over the array equals the sift-up on values |
| `MinHeap.MinHeapHeader.ShiftDown` | src/min_heap.c:408-470 | the loop over the array equals the sift-down on values |
| `MinHeap.MinHeapHeader.ReserveSize` | src/min_heap.c:160-199 | capacity as computed, used slots kept across the reallocation |
| `MinHeap.MinHeapHeader.Push` | src/min_heap.c:207-230 | the array and the nodes' indices change as the push on values says; a valid heap stays valid |
| `MinHeap.MinHeapHeader.Pop` | src/min_heap.c:237-264 | returns the top, or nothing for an empty heap, and leaves the heap that the pop on values leaves |
| `MinHeap.MinHeapHeader.Erase` | src/min_heap.c:272-321 | fails exactly for a node with index -1; otherwise array and indices change as the erase on values says, for either revision of the reset line |
| `MinHeap.MinHeapHeader.GetTopElement` | src/min_heap.c:134-150 | nothing exactly for an empty heap, otherwise a node that no node in the heap precedes |
| `Bytes.Be32RoundTrip` | src/bin_proto.c:181-182 | a 32-bit number survives the conversion to network byte order and back |
| `Bytes.Be32Digits` | src/bin_proto.c:100-101 | four bytes are a number in network byte order if and only if it is their sum with the weights 2^24, 2^16, 2^8 and 1; read back they are that number; 0, 0, 0, 22 is 22 |
| `Protocol.EncodeParts` | src/bin_proto.c:87-104 | a frame is the encoding of a packet if and only if its first byte is 0x28, its last 0x29, and the length, the command, the sequence number and the body are at 1, 5, 9 and 13 |
| `Protocol.EncodedHeader` | src/socket_util.c:412-433 | the header of an encoded packet is accepted if and only if the packet is of legal length, and then carries that length |
| `Protocol.DecodeEncode` | src/bin_proto.c:107-140 | decoding undoes encoding for every command, sequence number and body, also when the body contains 0x28 or 0x29 |
| `Protocol.EncodeDecode` | src/bin_proto.c:107-140 | encoding undoes decoding on every accepted frame |
| `Protocol.AcceptedLength` | src/socket_util.c:412-433 | a header is accepted if and only if it begins with 0x28 and its length field is an unsigned value in 14 .. 2^20: the signed cast makes every length from 2^31 on fail the lower check |
| `Protocol.DispatchByBytes` | src/bin_proto.c:285-330 | a frame goes to the test handler if and only if it begins with 0x28, ends with 0x29 and has the bytes 0, 0, 0x29, 0 as its command, to the echo handler likewise with 0, 0, 0x30, 0, and is rejected if and only if its first or last byte is another |
| `PacketPacks.BuiltEncodes` | src/bin_proto.c:27-104 | the calls that build a packet write the documented layout with the command that the buffer ends up holding, and nothing else |
| `PacketPacks.BuiltIsRequestedIff` | src/bin_proto.c:176-184 | a built packet decodes to the requested one if and only if the command reaches the buffer or its field happened to hold it before |
| `PacketPacks.BuildPacket` | src/bin_proto.c:27-446 | building a packet in place, call by call as the handler does, overwrites its region with the encoding and leaves every other byte, whatever length it was created with |
| `PacketPacks.BuildChecked` | src/bin_proto.c:27-277 | the same with the checked SetDataBody: every body that leaves room for the fields and EOT in the length asked for is built, every other is refused |
| `PacketPacks.PacketPack.Create` | src/bin_proto.c:27-72 | the fourteen bytes written at creation |
| `PacketPacks.PacketPack.SetPacketCmd` | src/bin_proto.c:176-184 | as written nothing reaches the buffer; as intended the command field is set |
| `PacketPacks.PacketPack.SetPacketSeq` | src/bin_proto.c:204-213 | sets the sequence field and nothing else |
| `PacketPacks.PacketPack.SetDataBody` | src/bin_proto.c:261-277 | refuses an empty body and one without room for EOT, and otherwise appends the body and EOT |
| `PacketPacks.PacketPack.AddAllData` | src/bin_proto.c:413-446 | appends any body and EOT, without regard to the length that the packet was created with; refuses an empty body only |
| `PacketPacks.PacketPack.ToBytes` | src/bin_proto.c:87-104 | sets SOH, EOT and the length, and nothing else |
| `PacketPacks.PacketPack.FromBytes` | src/bin_proto.c:107-140 | refuses exactly the bytes that do not begin with SOH and end with EOT, whatever their number; from 14 bytes on these are the ones that do not decode |
| `PacketPacks.PacketPack.Read` | src/bin_proto.c:189-254 | the getters together read back the decoded packet |
| `SocketModel.RecvDataConserves` | src/socket_api.c:314-348 | what a call reads comes off the front of the arrived bytes, none lost and none twice, and a positive result is their number |
| `SocketModel.RecvAvailable` | src/socket_api.c:314-348 | over any arrivals, a call gets as many of the bytes as it asked for; when they do not suffice it returns their number if nothing more is there yet, and reports the end of the stream or an error instead of them |
| `SocketModel.SendLoopBound` | src/socket_api.c:358-385 | a write loop sends at most what it was given, and a result other than -1 is what was sent |
| `SocketModel.SendLoopExact` | src/socket_api.c:358-385 | for any behaviour of the socket, a write loop sends as much of its bytes as the socket takes and fails if and only if that is not all and an error is the reason |
| `SocketApi.PynServerRecvData` | src/socket_api.c:314-348 | the loop over `read` equals the call on values, and writes only where it was told to |
| `SocketApi.PynServerSendData` | src/socket_api.c:358-385 | the loop over `write` equals the call on values, and the socket has taken the first bytes offered |
| `Splitter.SplitConserves` | src/socket_util.c:389-468 | the reference splitter loses nothing, yields only frames and leaves less than one |
| `Splitter.SplitExtends` | src/socket_util.c:389-468 | splitting a longer stream goes on from what the shorter one left |
| `Splitter.SplitEncoded` | src/bin_proto.c:87-140 | any beginning of a stream of encoded packets is cut into the encodings of its first packets |
| `Splitter.EncodingInjective` | src/bin_proto.c:87-140 | a stream of packets cannot be read as any other list of packets |
| `Receiver.EventAchieves` | src/socket_util.c:371-484 | any event on any bytes: bytes move from the socket to the end of the buffer, at least one and at most 4096 besides the header; a frame is handed on exactly when complete, with no byte of the next one |
| `Receiver.GrownFits` | src/socket_util.c:271-303 | for every length that a header may announce: the capacity becomes the smallest one, counted in doublings, that holds the packet (unless it stays, its half is not enough), and is 4096 times a power of two up to 2^20 |
| `Doubling.GrownIsLeast` | src/socket_util.c:286-290 | the doubling ends in the old capacity times a power of two, which leaves the bytes asked for behind the used ones, and the power before it does not |
| `Doubling.LeastDoublingUnique` | src/socket_util.c:286-290 | only one capacity is like that |
| `Receiver.HistoryStepKeeps` | src/socket_util.c:371-484 | after every event the frames handed on and the bytes in the buffer are exactly what the reference splitter makes of all bytes consumed |
| `Receiver.ConsumedIsPrefix` | src/socket_util.c:371-484 | over any run the bytes consumed are a beginning of the bytes that arrived |
| `Receiver.EndToEnd` | src/socket_util.c:371-484 | whatever packets are encoded, however their bytes are cut, delayed or interrupted, the packets handed on are the first ones, in order, with equal command, sequence number and body |
| `Receiver.EventSurvivesIff` | src/socket_util.c:389-468 | any event, whatever is on the socket, keeps the connection if and only if some bytes are there, they leave the header incomplete or complete an acceptable one and go beyond it, and neither the end of the stream nor an error comes before what the event asks for |
| `Receiver.EventReads` | src/socket_util.c:389-461 | how many bytes an event that keeps the connection takes: all that there are, but no more than complete the header and, behind it, the frame or 4096 bytes |
| `Receiver.HeaderAloneIsFatal` | src/socket_util.c:455-459 | a peer whose first packet's header arrives on its own is cut off |
| `ReceiverProgress.DeliversEverything` | src/socket_util.c:371-484 | a stream of packets, arriving in any pieces over any events none of which finds nothing or ends right after a header, is delivered completely, and the connection survives |
| `ReceiverProgress.EventsPerFrame` | src/socket_util.c:451-468 | a frame of L bytes takes at least (L - 5) / 4096 events, rounded up, and at most L |
| `Sender.ResizeExact` | src/socket_util.c:309-360 | all three paths keep the pending bytes in order, and the caller gets the room asked for inside the allocated buffer if and only if the growing path is not taken or allocates what was meant |
| `Sender.ResizePaths` | src/socket_util.c:309-360 | which of the three paths is taken, by the numbers of free, sent and pending bytes, and what it leaves: in the growing one the capacity on record is the old one doubled until the bytes asked for fit behind all old ones, and the buffer is as long as intended, or four bytes as written |
| `Sender.AppendBuiltExact` | src/socket_util.c:546-570 | appending a packet built in place puts it behind the pending bytes if and only if there is room for it, and the copy is left out or the buffer already starts with the packet |
| `Sender.SendExact` | src/socket_util.c:309-570 | a packet joins the pending bytes if and only if it fits into the room that there is after the call that asks for it, and, as written, the buffer need not grow and then starts with the packet; unless the buffer grows as written, the write leaves the buffer exactly when the packet is longer than that room |
| `Sender.SecondPacketLost` | src/socket_util.c:556-558 | of two packets of equal length sent in a row the first is sent twice and the second never, as written |
| `Sender.EchoExact` | src/bin_proto.c:340-358 | an echo joins the pending bytes if and only if nothing is buffered and the packet fits into the send buffer; it overruns the buffer exactly when it does not fit |
| `Sender.LongEchoOverruns` | src/bin_proto.c:348 | every packet of more than 4096 bytes, echoed on a fresh connection, overruns the send buffer |
| `Sender.ReplyExact` | src/bin_proto.c:379-443 | the answer to a packet of n bytes joins the pending bytes if and only if the room that there is exceeds the room asked for by 14 bytes (and, as written, the copy and the growth do no harm); with the lines as intended it overruns the buffer in exactly the other cases |
| `Sender.FirstReply` | src/bin_proto.c:379-443 | on a fresh connection, for either revision, bodies of up to 3954 bytes are answered, and bodies of 3955 to 3968 bytes make the handler write behind the buffer |
| `Sender.FirstReplyIntended` | src/bin_proto.c:379-443 | with the buffer growing as intended: the first answer on a connection, to a packet with a body of any legal length, overruns the buffer if and only if the body falls short of one of 4096, 8192, .. 1048576 by 128 to 141 bytes; every other is answered |
| `Sender.SendEventTakes` | src/socket_util.c:493-540 | a writable event takes bytes off the front of the window, and write interest ends exactly when it becomes empty |
| `Sender.WritableExact` | src/socket_util.c:493-540 | any writable event, whatever the socket takes, keeps the connection if and only if nothing is buffered, or its descriptor is not 0 and no error comes before all pending bytes are taken; as many of them go as the socket takes, and write interest ends if and only if these are all |
| `Sender.FifoOverRuns` | src/socket_util.c:309-570 | over any run clear of the defective lines and overruns, the bytes taken by the socket followed by the pending ones are all bytes sent, in order, and write interest is registered exactly while something is pending |
| `Sender.IntendedSoundIff` | src/socket_util.c:309-570 | with the lines as intended a run of packets, echoes and writable events is such a run if and only if no write leaves the buffer and every echo finds an empty one |
| `Delivery.SentIsReceived` | src/socket_util.c:371-570 | packets sent through the outbound buffer of one side and received at the other, over any partial writes and any arrivals: the first packets sent, in order and unchanged |
| `Connection.ConnFd.constructor` | src/socket_util.c:43-77 | both buffers of 4096 bytes, with nothing in them, and zero counters |
| `Connection.ConnFd.ResizeRecvBufferPtr` | src/socket_util.c:271-303 | keeps the received bytes and makes the room asked for behind them; the new capacity is the old one times the least power of two that does |
| `Connection.ConnFd.ReceiveHeader` | src/socket_util.c:389-440 | the header part on the buffers equals the one on values |
| `Connection.ConnFd.ReceiveBody` | src/socket_util.c:443-468 | the body part on the buffers equals the one on values |
| `Connection.ConnFd.ReceiveEvent` | src/socket_util.c:371-468 | one receive event changes buffers, counters and socket as the history step on values says, up to the completed frame |
| `Connection.ConnFd.Dispatch` | src/bin_proto.c:285-330 | the handler is chosen by the decoded frame, and an undecodable frame is rejected |
| `Connection.ConnFd.ResizeSendBufferPtr` | src/socket_util.c:309-360 | the three paths on the buffer equal those on values, including the four-byte allocation as written; where it grows, the capacity on record is the old one times the least power of two that is enough |
| `Connection.ConnFd.AppendBuilt` | src/socket_util.c:546-561 | the copy within the buffer equals the one on values, for either revision; a copy that would leave the buffer is reported |
| `Connection.ConnFd.ProcessTestBinProtocol` | src/bin_proto.c:364-469 | asking for room, building an answer of the handler's length in place and appending it equals the send on values, for any request and any state of the buffer, overruns included |
| `Connection.ConnFd.SendAnswer` | src/bin_proto.c:364-405 | where there is room, the buffer changes as the send on values says, built by the handler's own calls when they are as intended |
| `Connection.ConnFd.SendBackEcho` | src/bin_proto.c:340-350 | copies the received packet over the start of the send buffer as on values; a copy that would leave the buffer is reported |
| `Connection.ConnFd.SendEvent` | src/socket_util.c:493-534 | one writable event on the buffer equals the step on values |
| `Registration.EventAddMirrors` | src/reactor.c:214-274 | a single-bit EventAdd asks the kernel only for what it can grant, fails only when the kernel fails by itself, and keeps exactly then the kernel watching for input if and only if the readable bit is set and for output if and only if the writable bit is; the bit is added, and the callback stored, to the entry and for no other direction |
| `Registration.EventAddCoversIff` | src/reactor.c:236-238 | with both bits at once EventAdd ends up watching both if and only if none or both were registered before |
| `Registration.EventDelMirrors` | src/reactor.c:290-341 | the same for EventDel, which takes just the bits of its mask away and keeps callbacks and argument |
| `Registration.ListenRegisteredIff` | src/reactor.c:112-118 | on the uninitialised table the listening descriptor is registered if and only if its leftover mask is empty |
| `Registration.MirrorOverRuns` | src/reactor.c:54-341 | after any sequence of successful calls the kernel watches every descriptor for input exactly if its mask has the readable bit, for output exactly if it has the writable bit, and not at all exactly if it is empty |
| `Reactor.DestroyKeepsInv` | src/socket_util.c:93-137 | destroying a connection takes exactly it out of the count, the table, the kernel and the timers, also when the sweep has popped its timer before, and leaves an entry in the table that refers to nothing |
| `Reactor.AcceptKeepsInv` | src/socket_util.c:167-262 | accepting puts exactly one connection into all of them |
| `Reactor.RecvKeepsInv` | src/socket_util.c:371-484 | the read callback keeps the invariant, whether it destroys the connection, waits or completes a packet, and leaves the other connections alone |
| `Reactor.RecvEffect` | src/socket_util.c:471-481 | only a completed packet renews the connection's minute |
| `Reactor.HandlerAnswers` | src/bin_proto.c:285-405 | what the handler of a frame sends is the frame's answer (with the lines as intended under the request's command) and goes behind everything sent before; nothing is written |
| `Reactor.SendKeepsInv` | src/socket_util.c:493-540 | the write callback keeps the invariant and leaves the other connections alone |
| `Reactor.IntendedRecvIff` | src/socket_util.c:471-476 | with the lines as intended, the read callback stays clear of trouble, whatever arrives and whatever the filler, if and only if the handler of a packet that it completes has the room: 14 bytes more than an answer asks for, or for an echo an empty buffer that is large enough |
| `EventLoop.SweepExact` | src/reactor.c:460-496 | the sweep ends and destroys exactly the connections whose minute is over, each once, in deadline order, and leaves the others untouched |
| `EventLoop.DueIffExpired` | src/reactor.c:474-482 | the top of the heap is due if and only if some live connection's minute is over |
| `EventLoop.CallbackIsLive` | src/reactor.c:546-571 | every watched descriptor leads to the accept callback, or to the receive callback with its own live connection |
| `EventLoop.WriteCallbackIsLive` | src/reactor.c:572-575 | a write callback is only run for a live connection that has something to send |
| `EventLoop.DestroyedIsNotWritten` | src/reactor.c:560-575 | an event whose read callback destroys the connection does not run its write callback |
| `EventLoop.DispatchKeepsInv` | src/reactor.c:541-576 | a round of the dispatch loop keeps the invariant and touches only its own connection and an accepted one |
| `EventLoop.StillFromKernel` | src/reactor.c:541-576 | no event of a batch takes another one's descriptor away |
| `EventLoop.IntendedReadyIff` | src/reactor.c:541-576 | with the lines as intended an event is sound if and only if its read half is proper (a fresh descriptor for an accept, room for what the handler of a completed packet sends); after the read half the write callback always is |
| `EventLoop.IntendedBatchSound` | src/reactor.c:541-576 | if each event of a batch is proper in the state in which the batch is returned, the whole batch is sound, whatever the events before it do |
| `WorkerRuns.CreatedInv` | src/reactor.c:19-43 | the invariant holds after creation if and only if malloc has left the entry of the listening descriptor empty |
| `WorkerRuns.RunInv` | src/reactor.c:501-584 | every state of every run of the loop satisfies the invariant: count, connections, timers, table, kernel and buffers agree |
| `WorkerRuns.Lifecycle` | src/socket_util.c:93-255 | client count, live connections, heap size and watched descriptors are always equal, and heap nodes and live connections are in bijection |
| `WorkerRuns.WatchedExactly` | src/reactor.c:244-274 | in every state with the invariant the kernel watches the listening descriptor for input only, each live connection for input always and for output exactly while it has pending bytes, and nothing else |
| `WorkerRuns.IdleTimeout` | src/reactor.c:460-496 | after the sweep of a turn the connections left are exactly those active less than sixty seconds ago |
| `WorkerRuns.IdleConnectionsDie` | src/reactor.c:460-584 | over any run, a connection that has completed no packet since is still there only if no dispatching turn has come at or past its minute, however many bytes its peer has sent |
| `WorkerRuns.SilentConnection` | src/reactor.c:460-584 | a connection without events is kept unchanged by all turns before its minute is over and destroyed by the first dispatching turn at or past it |
| `WorkerRuns.DispatchActivity` | src/socket_util.c:249-476 | an event changes the beginning of a connection's minute only by accepting it or completing one of its packets |
| `WorkerRuns.BatchActivity` | src/reactor.c:541-577 | the same over a whole batch |
| `WorkerRuns.EpollTimeoutBounded` | src/reactor.c:396-528 | in every reachable state the waiting time lies in -1 .. 60000, is -1 exactly without connections, 0 exactly when sixty seconds have passed since the last activity of one, and otherwise reaches the end of the first minute to the millisecond |
| `Rounds.RoundExact` | src/reactor.c:541-576 | a round from the flags of its event: with EPOLLIN the connection receives, is gone if the receiver destroys it, and if a packet is completed its answer goes behind everything sent before and a new minute starts; then, with EPOLLOUT, EPOLLHUP or EPOLLERR and bytes pending, the socket gets the first of them, as many as it takes, and the connection is gone if and only if its descriptor is 0 or an error comes before all are taken; nothing else about it changes |
| `Rounds.ListenRound` | src/reactor.c:541-576 | a round about the listening descriptor: with EPOLLIN the client that accept returns, if any, joins the connections on a descriptor that was free, with empty buffers of 4096 bytes; without it, or without a client, none changes |
| `Rounds.BatchExact` | src/reactor.c:541-577 | over a whole batch each event does that to its connection as it was when the batch was returned, whatever the other events do; its descriptor has a new connection at the end only if the old one was gone and an accept of the batch got it |
| `Rounds.BatchAccepts` | src/reactor.c:541-577 | every client that an accept of a batch returns is connected at the end of the batch, and nothing has happened to it yet |
| `Rounds.TurnExact` | src/reactor.c:510-580 | over a turn an event does that to its connection with the clock of the turn, and the sweep leaves it if and only if less than 60000000 microseconds have passed since its last activity |
| `Rounds.TurnAccepts` | src/reactor.c:510-580 | a client accepted in a turn is there at its end, with fresh buffers and a minute that begins at the clock of the turn |
| `Rounds.TurnElsewhere` | src/reactor.c:510-580 | a connection that no event of a turn is about is as before, and there if and only if its minute is not over |
| `Rounds.FailedTurn` | src/reactor.c:531-539 | an error of `epoll_wait` changes nothing but the cached time, which is the clock after it |
| `Rounds.RunServes` | src/bin_proto.c:285-405 | in every state of every run all bytes sent on a live connection are the answers to the packets received on it, one each, in order |
| `Rounds.ClientGetsAnswers` | src/bin_proto.c:285-405 | in every state of every run: when the bytes taken from a client begin a stream of encoded packets, the bytes written to it followed by the pending ones are the answers to the first of these packets, one for each packet handed on, in order |
| `Rounds.AnswerToPacket` | src/bin_proto.c:311-325 | the answer to a test packet (0x2900) is a packet with its sequence number, a body 128 bytes longer and, with the lines as intended, its command; the answer to an echo packet (0x3000) is that packet; there is none to any other |
| `EventBases.EventBase.constructor` | src/reactor.c:77-156 | the structure after creation, with the table as the allocator left it |
| `EventBases.EventBase.EventAdd` | src/reactor.c:214-274 | table and kernel change as on values |
| `EventBases.EventBase.EventDel` | src/reactor.c:290-341 | table and kernel change as on values |
| `EventBases.EventBase.FdFileEventInit` | src/reactor.c:54-70 | the entry is cleared, the kernel is not asked |
| `EventBases.EventBase.RegisterTimerOutEvent` | src/reactor.c:352-372 | the heap and the node's deadline change as the registration on values says, although the key is stored before the erase |
| `EventBases.EventBase.UnregisterTimerOutEvent` | src/reactor.c:377-389 | the heap changes as on values; failure exactly for a node that is not in the heap |
| `EventBases.EventBase.EpollWaitTimeout` | src/reactor.c:396-528 | the waiting time is that of the top deadline and the cached time, which is refreshed only when its seconds are 0 |
| `EventBases.EventBase.ReadClock` | src/reactor.c:510-531 | the waiting time is that of the state before; afterwards only the cached time has changed |
| `EventBases.EventBase.DestroyConn` | src/socket_util.c:93-137 | the whole structure of objects changes as the destruction on values says |
| `EventBases.EventBase.CreateNewConn` | src/socket_util.c:38-84 | a fresh connection with a fresh timer node outside the heap, and a cleared table entry |
| `EventBases.EventBase.ProcessAcceptCallback` | src/socket_util.c:167-262 | the whole structure of objects changes as the accept on values says; nothing changes when there is no client |
| `EventBases.EventBase.ProcessTestBinProtocol` | src/bin_proto.c:364-405 | the answer to the packet in the receive buffer joins the pending bytes as on values, and write interest is registered |
| `EventBases.EventBase.ProcessEntirePacket` | src/bin_proto.c:285-330 | the handler of the packet in the buffer sends what it sends on values and registers write interest exactly when it sends |
| `EventBases.EventBase.ProcessRecvCallback` | src/socket_util.c:371-484 | the whole structure of objects changes as the read callback on values says |
| `EventBases.EventBase.ProcessSendCallback` | src/socket_util.c:493-540 | the whole structure of objects changes as the write callback on values says |
| `EventBases.EventBase.ExpireTop` | src/reactor.c:484-494 | one round of the sweep: the popped node's argument is the connection to destroy |
| `EventBases.EventBase.ReactorProcessTimeoutEvent` | src/reactor.c:460-496 | the sweep over the objects ends in the structure, and destroys the connections, that the sweep on values does |
| `EventDispatch.EventBaseCreate` | src/reactor.c:19-43 | nothing is created if and only if the table is empty, the listening descriptor lies beyond it, or malloc has left just the writable bit in its entry; otherwise the structure is ready for dispatching if and only if the entry was empty |
| `EventDispatch.DispatchEvent` | src/reactor.c:541-576 | one round of the dispatch loop over the objects changes the whole structure as the round on values does (`RoundExact` and `ListenRound` say what that is), and no two connections ever share a buffer or socket |
| `EventDispatch.DispatchBatch` | src/reactor.c:541-577 | the loop over a batch of proper events changes the whole structure of objects as the batch on values (`BatchExact`, `BatchAccepts`), and leaves it ready for the next |
| `EventDispatch.DispatchTurn` | src/reactor.c:510-580 | a turn of the loop on objects, with the waiting time, the clock, the batch and the sweep, is the turn on values (`TurnExact`, `FailedTurn`); no object comes to belong to two connections |

## Left out

- Creation of sockets, `accept` itself with its flags and address handling, `fcntl`, `setsockopt`, name resolution, bind and listen (src/socket_api.c:12-304): calls into the system; their results are parameters.
- The daemon, signals, fork and wait in main.c, and src/server_log.c: nothing in the core depends on them.
- The filler of an answer (src/bin_proto.c:430-437), which reads beyond its literal: the filler is arbitrary, its length is the handler's.
- The unused setter of the length field (src/bin_proto.c:147-154), which misses the buffer like the one of the command: never called.
- The edge-triggered branch of accept (src/socket_util.c:180-189): unimplemented in the source.
- `MinheapDestory`, `__DeleteEventBase`, `__EventBaseStop` and the small queries of src/min_heap.c:77-127: they would add only easy members.
- The benchmark client under client/: not part of the server.
- Failure of malloc and null arguments: allocation succeeds, and pointers that the source checks are never null.
- Wrap-around of 32-bit counters and sizes: lengths are bounded by 2^20 where the source bounds them; the send buffer's capacity, the heap's size and the client count are unbounded integers. The parent index of a sift is computed with the wrap-around at the root.
- EventBases.EventBase.EventAdd: a descriptor equal to the table's size is admitted by the source (src/reactor.c:222) although it lies outside the table; the model requires it away, because nothing can be said about that entry.
- EventBases.EventBase.EventDel: the same (src/reactor.c:296); FdFileEventInit checks nothing.
- PacketPacks.PacketPack.SetPacketCmd: as written the source stores the four bytes behind the structure (src/bin_proto.c:182), into memory that is not its own; the model treats that store as harmless, while writes beyond a send buffer are overruns.
- PacketPacks.BuiltIsRequestedIff: says nothing about what that stray store damages.
- PacketPacks.PacketPack.FromBytes: for length 0 the source looks at the byte before the buffer (src/bin_proto.c:133); no caller passes it.
- Overruns: the methods report a write that would leave the send buffer and stop; what it destroys is not modelled.
- The exit of the process when `epoll_ctl` fails: the callbacks are modelled for calls that the kernel grants; `Registration` has the failing calls.
- Copies between overlapping regions by `memcpy` (src/socket_util.c:557) are modelled as if the bytes were read first.
- Process identifiers, addresses, log output, and the second callback of the same purpose (src/socket_util.c:144-157): no effect on the state modelled.
- The endless loop around the turns and its stop flag (src/reactor.c:510): `WorkerRuns` has runs of any number of turns on values, `EventDispatch` one turn on objects.
- EventDispatch.DispatchTurn: is for the lines as intended, where the condition of every event can be checked beforehand; as written the objects have one round of the loop at a time, `DispatchEvent`.
- Connection.ConnFd.SendAnswer: as written the bytes are put in place, because the command that the answer then carries depends on what the buffer held; that the handler's calls build such an answer is the contract of `ConnFd.ProcessTestBinProtocol`.
- EventDispatch.DispatchBatch: the same as for `DispatchTurn`, as written one event at a time.
- Reactor.AcceptKeepsInv: a client whose descriptor is at or beyond the table's size is required away. The descriptor limit is raised to 1000000 (main.c:57) while the table's size is an argument, and the callback then writes outside the table (src/reactor.c:65).
- EventBases.EventBase.CreateNewConn: the same descriptors.
- EventBases.EventBase.ProcessAcceptCallback: the same descriptors.
- Rounds.ClientGetsAnswers: as written the answer to a test packet has some command, whatever the field of the buffer held.
- A clock that steps back between turns: `ReRegister` covers any deadline, the turns of `WorkerRuns` a clock that does not step back.
- EventLoop.IntendedReadyIff: says nothing about the lines as written, where the condition of an event depends on the bytes already buffered and on the shape of the heap; `EraseExact`, `ResizeExact`, `AppendBuiltExact` and `EchoExact` give it step by step.
- HeapRuns.RunRefinesQueue: covers the runs of sound calls; that every other run has an invalid state is `RunValidIff`, and what such a state does afterwards is not modelled.
- WorkerRuns.RunInv: for the code as written it covers the runs that stay clear of the conditions listed above.
- Receiver.EndToEnd: says which packets are handed on, not that all are; a connection may be cut off by the condition of `EventSurvivesIff`; `ReceiverProgress.DeliversEverything` shows completeness when it is not.
- WorkerRuns.BatchActivity: a descriptor that is closed and accepted again within one batch counts as a new connection without packets.
- EventBases.EventBase.EpollWaitTimeout: the waiting time is proved for the cached time as read; the clock itself is a parameter.
