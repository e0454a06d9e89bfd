# SmartNS, modelled and verified in Dafny

SmartNS offloads a network stack to a SmartNIC. Applications on the host post work requests into rings
that are copied by DMA to the NIC's processor (the DPU); the DPU cuts messages into RoCE packets, runs a
reliable-connection transport between two DPUs, scatters payloads into posted buffers, and sends
completions back through further rings. This project models that logic and proves what it promises.

| files | what they model |
|---|---|
| `Psn`, `Messages`, `Scatter` | 24-bit packet sequence numbers; messages, packets and the reference segmentation; scattering into buffers |
| `Requester`, `RequesterProofs`, `AckProofs` | the sending side as values, its invariant, and exactness of acknowledgement processing |
| `Responder`, `ResponderProofs` | the receiving side as values, and its invariant |
| `Transport`, `TransportTheorems` | both sides over a network that loses, repeats and reorders, and the theorems over every run |
| `PacketOrder` | what every run keeps whatever the opcode field: numbering, order of acceptance, the window |
| `Acknowledging`, `ReceiveNumber` | in every run: which packets ask for an acknowledgement, when a NAK is sent, and what completing does to the number that the sender itself expects |
| `FirstMessage`, `Misread`, `Repaired`, `TwoPackets`, `CreatedReceivers`, `CreatedRuns` | queue pairs as they are created, with SEND_FIRST in the opcode field: exactly when their runs keep the promises |
| `EmptyRequest` | what a posted request without data does to its queue |
| `Qp`, `ReceiverQp` | the two ends as the objects the source updates in place, proved to follow the value-level steps |
| `RingIndex`, `Rings`, `HandOff` | ring arithmetic; owner bits; producer, DMA engine and consumer interleaved |
| `Counters`, `HostQueues`, `DpuRings` | the host's 32-bit counters; the host's and the DPU's ends of the rings as objects |
| `EndToEnd` | the transport's completions meet what the host's poll relies on, and what the host is told is what was sent |
| `RoundTrips` | one request through both rings: posted, copied, taken, completed and reported under its own wr_id |
| `Word`, `Crc32`, `Crc32Laws`, `Crc32Tables`, `Crc32Routines`, `Crc32Combine` | the CRC-32 family (section 8 of RFC 1952) |
| `FreeList`, `Allocator`, `CustomAllocator` | the coalescing first-fit allocator |
| `Rss` | the Toeplitz hash |
| `Division`, `Options` | helpers |

The pattern throughout: a step of the source is a function on values (`Requester.EmitPacket`,
`Responder.HandleRequest`, `HandOff.PostOne`, `Allocator.Alloc`), the object that the source mutates is a
class whose methods, loops included, are proved to compute exactly that function, and the properties are
lemmas about the functions and about all runs made of them. Fields called history (`sent`, `accepted`,
`acked`, `posted`, `taken`, `dropped`, ...) record the past for the statements; no step reads them.

Premises of the transport, each forced by the code: traffic of a queue pair goes one way, because
completing a send moves the queue pair's own expected receive number
(`ReceiveNumber.RecvPsnFollowsTail`); messages are SENDs and RDMA WRITEs with 0 < byte_count < 2^31
(requests without data are treated apart); fewer than wqe_cnt requests are queued per queue pair (the
boundary is stated at `Qp.SenderQp`); a delivered packet or acknowledgement is at most
2^22 packet numbers old; an assertion or exit of the source halts the run, and the state says which. The
network is a log: any packet or acknowledgement ever sent may arrive, any number of times, in any order, or
never.

Premises of the rings: a ring size is a power of two (only divisibility is used); a DMA copy of one entry is
atomic, and entries of a request are copied in order; where the host's tail or wr_id is concerned,
completions of one ring come in posting order. Send rings use DMA batches of one entry, receive rings of four,
completion rings of one; the completion ring is the same machine with the DPU as producer, and "not full" is
its premise that at most wqe_cnt completions are unpolled.

Where the code falls short of what its comments and callers expect, the exact condition is proved:

* A queue pair is created with the opcode field 0, which is SEND_FIRST. In every run the wire is the
  segmentation of the messages if and only if nothing is emitted or the field does not claim that the first
  message has begun, so for a created queue pair if and only if that message is a write
  (`FirstMessage.WireIsRightExactly`). Numbering, order of acceptance and the bound on the window do not suffer
  (`PacketOrder.AcceptedInOrder`), completions remain in the order that the host relies on
  (`EndToEnd.CompletionsReportable`), and the receiver writes and completes just what it should
  (`CreatedReceivers.ReceiverIsRight`): what goes wrong goes wrong at the sender. A first SEND of one packet
  goes out with the wrong opcode and does no other harm. One of two packets or more may be completed while the receiver has only its first packet: in all
  runs completions are sound if and only if the first message is a write or fits one packet
  (`CreatedRuns.SoundExactly`). Nor does every acknowledgement move the window then: in all runs it does if and
  only if the first message is a write or fits one packet (`CreatedRuns.WindowExactly`), and a network without
  faults is enough to show it (`FirstMessage.WindowLostRun`). One of three packets or more may reach the
  assertion that a request is pending, and no other first message may (`CreatedRuns.AssertsExactly`); with more
  than 65 packets no fault of the network is needed (`FirstMessage.FaultlessAssertion`).
* A posted request without data is stepped over by the sender; from then on neither it nor any request behind it
  is ever completed, and once it is at the tail no acknowledgement changes anything and the window closes for
  good (`EmptyRequest.NeverCompleted`, `EmptyRequest.BlockedForever`). Requests with data are not left behind
  (`EmptyRequest.StuckExactly`).
* The DPU's ring of a queue pair has wqe_cnt slots and is filled without a test for room, from a host ring that
  is shared and may hold more. With exactly wqe_cnt requests queued it looks empty: nothing is sent
  (`Qp.SenderQp.HandleReq` returns -1) and acknowledgements are ignored (`Qp.SenderQp.HandleAck`); one more is
  written over the oldest (`Qp.SenderQp.Enqueue`).
* The prefetching CRC routine stays inside its input if and only if a sum of size_t does not wrap
  (`Crc32Routines.SixteenBytesPrefetch`).
* A receive ring of one or two entries, with batches of four, never hands anything over (`HandOff.TinyRing`).
* `uint16_t wqe_ctr` finds the right wr_id for all counters if and only if the ring has at most 65536 entries
  (`Counters.WridSlotIsExact`). A completion that comes behind the tail exits if and only if the 32-bit counters
  have not wrapped in between; if they have, the tail moves back (`Counters.LateCompletion`).
* The allocator hands out memory outside its range if and only if size plus padding overflows size_t
  (`Allocator.OverflowEscapes`, with an input in `Allocator.OverflowExample`); padding is never recovered.
  Allocations of no bytes keep memory safe, but one given back leaves an empty block in the free list unless a
  free block ends where it is (`Allocator.FreeIsTidyExactly`, with an input in `Allocator.EmptyBlockExample`),
  and one takes over the entry of a live block if and only if its padding uses up the block in front of that
  (`Allocator.EmptyTakesOver`, with an input in `Allocator.TakeOverExample`). After an empty block has been left
  in the list, free stretches may lie in two touching blocks, so a request fails exactly when no one block holds
  what it asks for (`Allocator.AllocFailsExactly`).

## Model

| member | source | states |
|---|---|---|
| Psn.CompareIsExact | include/rxe/rxe_param.h:8-13 | two 32-bit values compare as the packet numbers they carry if and only if the numbers are less than half of 2^24 apart |
| Messages.SegmentationIsLossless | src/rxe/rxe_req.cpp:111-149 | the payloads of the reference packets of a message concatenate to the message |
| Scatter.ScatterTiles | src/dpu/datapath.cpp:354-388 | the requests to the DMA engine tile the payload in order over the next stretch of the buffers, the cursor's account is kept, and the assertions hold exactly when the payload fits |
| Scatter.OneRequestPerEntry | src/dpu/datapath.cpp:357-387 | there is one request for each entry from the cursor on, each but the last fills its entry, and the cursor steps past the last if and only if that is filled |
| Scatter.EmptyPayload | src/dpu/datapath.cpp:357-387 | a payload without bytes writes nothing and is refused only behind the last entry of a list shorter than allowed |
| RequesterProofs.CreateInv | src/dpu/controlpath.cpp:335-345 | with nothing queued a fresh queue pair satisfies the invariant, whatever its opcode field |
| RequesterProofs.NextOpcodeIsRight | src/rxe/rxe_req.cpp:9-31 | the case analysis yields the opcode of the packet's place in its message: ONLY, or FIRST, MIDDLE and LAST |
| RequesterProofs.EmittedFragment | src/rxe/rxe_req.cpp:33-70 | the packet emitted is the next fragment of the reference segmentation and carries the next sequence number |
| RequesterProofs.CutIsRight | src/rxe/rxe_req.cpp:119-136 | the request's offset, state, first_psn and last_psn afterwards: pending and whole at its END packet, whose number last_psn is |
| RequesterProofs.AsksOftenNext | src/rxe/rxe_req.cpp:39-42 | any 65 consecutive packets keep one that asks for an acknowledgement, as do all END packets |
| Acknowledging.AsksInEveryRun | src/rxe/rxe_req.cpp:39-42 | in every run a packet asks for an acknowledgement if and only if it ends a message or none of the 64 before it asks |
| RequesterProofs.WindowIsOpen | src/rxe/rxe_req.cpp:89-91 | the window test fires exactly when 129 packets are unacknowledged |
| RequesterProofs.EmitInv | src/rxe/rxe_req.cpp:81-149 | emitting inside the window keeps the sender's invariant, across window stops and resumes |
| RequesterProofs.EnqueueInv | src/dpu/datapath.cpp:432-448 | queueing keeps the invariant if and only if the opcode field does not claim that the first message has begun |
| RequesterProofs.EmittedRequest | src/rxe/rxe_req.cpp:119-148 | only the request under the index changes, as CutIsRight says, and the index moves exactly at its END packet |
| AckProofs.AckIsExact | src/rxe/rxe_recv.cpp:142-189 | an acknowledgement of unacknowledged packet t moves the window to t + 1 and completes precisely the requests that end by t; only a NAK halts, after completing precisely those that end before t |
| AckProofs.StaleAckIsIgnored | src/rxe/rxe_recv.cpp:157-165 | an acknowledgement or NAK of an already acknowledged packet changes nothing |
| ReceiveNumber.CompleteMovesExactly | src/rxe/rxe_recv.cpp:26-31 | from any expected number, completing a request moves it just past the request's last packet if and only if the request is pending and that packet is not behind it |
| ReceiveNumber.CompleteMovesPast | src/rxe/rxe_recv.cpp:26-31 | in packet numbers: n becomes k + 1 if k is at least n, and stays otherwise |
| ReceiveNumber.RecvPsnFollowsTail | src/rxe/rxe_recv.cpp:26-31 | in every run whose first message was not claimed, the number the sender itself expects is that of the first packet of the request at its tail |
| ResponderProofs.ExecuteIsRight | src/rxe/rxe_recv.cpp:92-114 | the bytes of the expected packet go where its message calls for, or an assertion fails exactly when they cannot |
| ResponderProofs.AcceptKeeps | src/rxe/rxe_recv.cpp:89-136 | accepting the next packet keeps the receiver's invariant: completions, bytes written, registers and acknowledgements are those of the accepted messages |
| ResponderProofs.AcceptAcknowledges | src/rxe/rxe_recv.cpp:89-136 | an accepted packet is acknowledged by its own number exactly when it asks for that, with the count of SENDs received, and clears the NAK flag |
| ResponderProofs.NotNextKeeps | src/rxe/rxe_recv.cpp:70-88 | any other packet is answered by one NAK that names the next packet, unless one is out already, or by the last acknowledgement again, and nothing else of the receiver changes |
| Acknowledging.NakFlagInEveryRun | src/rxe/rxe_recv.cpp:70-91 | in every run the flag is set if and only if a NAK of the packet expected next has been sent, and no packet is refused twice |
| Acknowledging.BeyondIsRefused | src/rxe/rxe_recv.cpp:70-78 | in every run, once a packet beyond the expected one has arrived, a NAK with the number of the expected one has been sent |
| Transport.AcceptInv | src/rxe/rxe_recv.cpp:89-136 | delivery of the next packet stops the receiver if and only if it lacks a receive request, room or the memory region |
| Transport.DeliverAckInv | src/rxe/rxe_recv.cpp:138-190 | an acknowledgement in flight keeps the invariant; if it stops the sender it is a NAK, and the failed assertion is the one on NAKs, never the one on a request that is not pending |
| Transport.RunInv | src/rxe/rxe_recv.cpp:58-190 | every state of every run satisfies the invariant, given only that the opcode field did not claim that the first message had begun |
| Transport.RunRecords | src/dpu/datapath.cpp:414-451 | the messages and receive requests of a run's state are those queued and posted in it, in order |
| PacketOrder.AcceptedInOrder | src/rxe/rxe_recv.cpp:58-119 | in every run, whatever the opcode field, the accepted packets are a prefix of the emitted ones, numbered from 0 modulo 2^24; only accepted packets are acknowledged; at most 129 are not; comp_info->psn and the receiver's psn are those counts |
| PacketOrder.AckMovesWindow | src/rxe/rxe_recv.cpp:142-189 | in any state with numbered packets, the acknowledgement of packet t leaves the window or moves it to t + 1, never back, and a NAK leaves it |
| TransportTheorems.CompletionIsSound | src/rxe/rxe_recv.cpp:25-47 | in every run a completed request was received whole; send completions are those of the signaled requests queued, and receive completions those of the SENDs, with their lengths, in order and once each; the bytes written are exactly those called for, of the message in progress too |
| TransportTheorems.WindowReopens | src/rxe/rxe_req.cpp:89-91 | a closed window contains a packet that asks for an acknowledgement, and the acknowledgement of any packet in it opens it |
| TransportTheorems.AckReopens | src/rxe/rxe_recv.cpp:182-188 | the acknowledgement of any outstanding packet is processed and leaves the window open |
| TransportTheorems.NoSilentStall | src/rxe/rxe_recv.cpp:134-136 | from any live state of a run, the packets not yet accepted, delivered in order, and one acknowledgement already sent open the window, unless the receiver comes to lack what the next packet needs |
| FirstMessage.WireIsRightExactly | src/dpu/controlpath.cpp:344 | in every run, whatever the opcode field at the start, the wire is a prefix of the segmentation if and only if nothing is emitted or the field does not claim that the first message has begun |
| FirstMessage.UnsoundRun | src/rxe/rxe_recv.cpp:157-165 | for every first SEND of two packets or more on a created queue pair, a run that completes it while the receiver has one packet |
| FirstMessage.AssertionRun | src/rxe/rxe_recv.cpp:147-156 | for every first SEND of three packets or more on a created queue pair, a run that reaches the assertion that a request is pending |
| FirstMessage.FaultlessAssertion | src/rxe/rxe_recv.cpp:147-156 | for every first SEND of more than 65 packets, the run in which 65 are sent, each delivered once and in order, and their one acknowledgement is delivered reaches it |
| FirstMessage.WindowLostRun | src/rxe/rxe_recv.cpp:142-156 | for every first SEND of two packets or more, a run without a fault after whose second packet the acknowledgement of that packet does not move the window |
| Misread.RunFollows | src/rxe/rxe_req.cpp:13-18 | with a first SEND of one packet, every run of a created queue pair is that of a clear one but for one opcode |
| Repaired.SendCommutes | src/rxe/rxe_req.cpp:9-31 | with a first SEND of any length, each step of the sender is that of one with a clear opcode field but for the first packet's opcode and the request's last_psn |
| CreatedReceivers.ReceiverIsRight | src/rxe/rxe_recv.cpp:58-136 | in every run of a created queue pair, whatever its first message, receive completions and bytes written are those that the messages queued and the receive requests posted call for |
| TwoPackets.TwoAck | src/rxe/rxe_recv.cpp:142-189 | with a first SEND of two packets, acknowledgement processing keeps the weaker invariant and never finds a request not pending |
| TwoPackets.TwoNeverAssert | src/rxe/rxe_recv.cpp:147-156 | so no run of such a queue pair reaches that assertion |
| CreatedRuns.SoundExactly | src/dpu/controlpath.cpp:344 | in all runs of a created queue pair completions are sound if and only if its first message is a write or fits one packet |
| CreatedRuns.AssertsExactly | src/dpu/controlpath.cpp:344 | in no run is a request found not pending if and only if its first message is a write or fits two packets |
| CreatedRuns.WindowExactly | src/rxe/rxe_req.cpp:89-91 | in all runs of a created queue pair the window is kept as in WindowReopens if and only if its first message is a write or fits one packet |
| CreatedRuns.HarmlessNeverStalls | src/rxe/rxe_recv.cpp:134-136 | with such a first message, the deliveries of NoSilentStall open the window of a created queue pair too |
| EmptyRequest.StuckExactly | src/rxe/rxe_req.cpp:84-87 | stepping over the next request leaves it posted behind the index if and only if it has no data |
| EmptyRequest.NeverCompleted | src/rxe/rxe_recv.cpp:144-147 | in every continuation such a request is never completed, nor any behind it |
| EmptyRequest.BlockedForever | src/rxe/rxe_recv.cpp:144-147 | once it is at the tail, nothing is completed and the window does not move again, and at most what is left of the window is emitted |
| Qp.SendLoopInv | src/rxe/rxe_req.cpp:72-152 | a whole call keeps the invariant and stops only with nothing left to send or with the window closed |
| Qp.InvAllowsSending | src/rxe/rxe_req.cpp:72-81 | every state of the invariant meets the premises of the call |
| Qp.EnqueueAllInv | src/dpu/datapath.cpp:414-451 | requests taken from the host ring stand in the queue behind the earlier ones, in order |
| Qp.SenderQp.constructor | src/dpu/controlpath.cpp:335-346 | a new send queue represents the created sender |
| Qp.SenderQp.Enqueue | src/dpu/datapath.cpp:432-448 | into a ring with a free slot the request is queued; into a full one it is written over the oldest |
| Qp.SenderQp.EmitPacket | src/rxe/rxe_req.cpp:93-148 | one packet, on the ring, is the value-level step |
| Qp.SenderQp.HandleReq | src/rxe/rxe_req.cpp:72-152 | the loop computes the whole call and its count, or returns -1 exactly on an empty and on a full queue |
| Qp.SenderQp.CompleteSendWqe | src/rxe/rxe_recv.cpp:25-47 | completing the request at the tail is the value-level step |
| Qp.SenderQp.HandleAck | src/rxe/rxe_recv.cpp:140-190 | the loop over one acknowledgement terminates with the state, or the failed assertion, of the value-level function, and ignores it on a full queue |
| Qp.Drain | src/dpu/datapath.cpp:414-451 | every request that has arrived in the host ring is taken, once and in order, and written to the slots that follow the head; if all fit they are thereby queued |
| Qp.LastWritten | src/dpu/datapath.cpp:432-448 | of more requests than slots exactly the last ring of them is left, each in its slot; slots that no request reaches are unchanged |
| ReceiverQps.ReceiverQp.SendAck | src/rxe/rxe_recv.cpp:8-23 | the acknowledgement sent |
| ReceiverQps.ReceiverQp.ArriveRecv | lib/smartns_dv.h:59-64 | a receive request copied into the ring is the value-level posting of it |
| ReceiverQps.ReceiverQp.ScatterLoop | src/dpu/datapath.cpp:357-387 | the loop over the entries makes the requests of the recursive definition and fails exactly when that does |
| ReceiverQps.ReceiverQp.Execute | src/dpu/datapath.cpp:354-399 | the payload of a SEND or a write, on the object, is the value-level step |
| ReceiverQps.ReceiverQp.StartWrite | src/rxe/rxe_recv.cpp:92-104 | the registers set by the first packet of a write |
| ReceiverQps.ReceiverQp.CompleteRecv | src/rxe/rxe_recv.cpp:121-132 | the completion names the ring slot and byte total, and the ring steps on |
| ReceiverQps.ReceiverQp.Accept | src/rxe/rxe_recv.cpp:89-136 | handling of the expected packet is the value-level step |
| ReceiverQps.ReceiverQp.HandleRequest | src/rxe/rxe_recv.cpp:67-136 | handling of any request packet is the value-level step |
| ReceiverQps.ReceiverQp.HandleBatch | src/rxe/rxe_recv.cpp:53-136 | a polled batch is handled packet by packet |
| ReceiverQps.HandleAllSplits | src/rxe/rxe_recv.cpp:49-58 | handling a batch is handling its packets one after the other, so two batches are as one |
| RingIndex.SlotNext | include/smartns.h:101-120 | the step functions follow k modulo wqe_cnt |
| RingIndex.SlotsApart | include/smartns.h:126-128 | positions less than a lap apart have different slots, so head == tail means empty |
| Rings.PollSees | include/smartns.h:28-34 | what a consumer sees in its next cell, however far the producer is ahead: new exactly when an even number of laps lie between, and then the entry of the latest lap |
| Rings.Handshake | include/smartns.h:28-42 | while at most a lap is outstanding the owner bit matches if and only if the next entry has arrived |
| Rings.ImageCopy | lib/smartns_dv.h:59-64 | copying the next cell extends the consumer's memory by exactly the next entry |
| HandOff.BatchInside | lib/smartns_dv.h:61-64 | when the batch size divides the ring size, a batch never runs over the end of the ring |
| HandOff.FlushPending | lib/smartns_dv.h:59-70 | a flush asks for exactly one batch, of the next cells |
| HandOff.FlushIsIdle | lib/smartns_dv.cpp:620-629 | the flushes at the end of the ring and of a call find nothing to do |
| HandOff.PostInv | lib/smartns_dv.cpp:587-625 | posting one entry keeps the ring's invariant |
| HandOff.CopyInv | lib/smartns_dv.h:64 | copying one cell keeps it |
| HandOff.PollIsExact | include/smartns.h:28-42 | a poll yields the oldest entry copied and not taken, exactly when there is one |
| HandOff.RunInv | lib/smartns_dv.h:44-70 | every interleaving of posts, copies, polls and completions keeps the invariant |
| HandOff.RingIsFifo | lib/smartns_dv.cpp:577-635 | in every interleaving the consumer takes exactly the posted entries, once and in order, no request leaves the ring, and fewer than a batch of entries stay uncopied |
| HandOff.PostCallIsExact | lib/smartns_dv.cpp:587-629 | a post call succeeds exactly when all its entries fit, and then has posted them in order |
| HandOff.TinyRing | lib/smartns_dv.cpp:494 | a ring smaller than a batch never hands over anything, in any run |
| Counters.MaskedSlot | lib/smartns_dv.cpp:585 | masking the wrapped counter gives the slot of the true position |
| Counters.Occupancy | lib/smartns_dv.cpp:588 | head minus tail modulo 2^32 is the true occupancy |
| Counters.TailUpdateIsRight | lib/smartns_dv.cpp:731-742 | for the completion of an outstanding request the tail becomes the next position and the exit is not reached, across 2^32 |
| Counters.LateCompletion | lib/smartns_dv.cpp:731-742 | a completion late by at most a ring exits if and only if the counters have not wrapped in between; otherwise the tail moves back to it |
| Counters.WridSlotIsExact | lib/smartns_dv.cpp:728 | the 16-bit index is right for all counters if and only if the ring has at most 65536 entries |
| HostQueues.HostQueue.constructor | lib/smartns_dv.cpp:476-498 | a new queue represents the empty ring |
| HostQueues.HostQueue.StepRing | lib/smartns_dv.h:44-70 | the ring position, owner flag, DMA index and requests after an entry |
| HostQueues.HostQueue.PostOne | lib/smartns_dv.cpp:597-624 | one iteration of the post loop is the value-level step, and files the wr_id |
| HostQueues.HostQueue.Post | lib/smartns_dv.cpp:577-635 | a call with wrapping 32-bit counters succeeds exactly when all entries fit, and is the value-level call |
| HostQueues.HostQueue.CompleteSend | lib/smartns_dv.cpp:712-744 | the tail moves past the request without an exit, and in a ring of at most 65536 entries its own wr_id is reported |
| HostQueues.HostQueue.CompleteRecv | lib/smartns_dv.cpp:747-758 | likewise for a receive |
| HostQueues.HostQueue.CopyCell | lib/smartns_dv.h:64 | copying the next cell asked for, from the host's memory to the DPU's ring, is the value-level step of both ends |
| HostQueues.HostQueue.Consume | include/smartns.h:28-42 | a look of the DPU at its ring is the value-level poll of both ends |
| HostQueues.HostCq.Arrive | include/smartns.h:345-355 | a copied completion of a request handed over, not completed by an earlier one, joins the entries to be reported |
| HostQueues.HostCq.NextCqe | lib/smartns_dv.cpp:705-708 | the oldest unreported entry, exactly when there is one |
| HostQueues.HostCq.StepHead | lib/smartns_dv.cpp:766-769 | the head and flag step to the next entry |
| HostQueues.HostCq.Complete | lib/smartns_dv.cpp:711-758 | one completion entry is reported with its request's wr_id |
| HostQueues.HostCq.Poll | lib/smartns_dv.cpp:696-771 | every entry that has arrived is reported, up to the number asked for, once, in order, with its wr_id, and without reaching an exit |
| DpuRings.DpuRing.GetNextWqe | include/smartns.h:28-34 | the oldest entry not consumed, exactly when there is one |
| DpuRings.DpuRing.StepWq | include/smartns.h:36-42 | the consumer steps to the next entry, flipping its flag at the end of the ring |
| DpuRings.DpuRing.Arrive | lib/smartns_dv.h:64 | a copied cell extends what has arrived by one entry |
| DpuRings.DpuCq.PostCqe | src/dpu/datapath.cpp:401-412 | a completion is the post of one entry, with its own DMA request |
| RoundTrips.HandOver | lib/smartns_dv.h:44-70 | when all copies asked for are made and taken, all posted entries but fewer than a batch have reached the DPU, in order |
| RoundTrips.Report | src/dpu/datapath.cpp:401-406 | a completion sent when none is waiting is what the next poll reports |
| RoundTrips.RoundTrip | lib/smartns_dv.cpp:577-771 | a request posted when the ring has room comes back completed under the wr_id it was posted with, and the ring is empty again |
| EndToEnd.SendsInOrder | src/rxe/rxe_recv.cpp:35-44 | send completions name outstanding ring positions in increasing order, across 2^32 |
| EndToEnd.EntriesAreMade | src/rxe/rxe_recv.cpp:121-132 | the entries the host polls are the completions the receiving object makes: length and slot |
| EndToEnd.RecvsInOrder | src/rxe/rxe_recv.cpp:121-132 | receive completions that name consecutive requests name consecutive slots of the receive ring |
| EndToEnd.CompletionsReportable | lib/smartns_dv.cpp:711-758 | in every run, whatever the opcode field, what both sides put on their completion rings satisfies the premise of the host's poll |
| EndToEnd.SenderHostIsTold | lib/smartns_dv.cpp:711-729 | in every run, whatever the opcode field, the first n completions polled are those of the first n signaled requests queued, each with its kind, its length and its wr_id |
| EndToEnd.ReceiverHostIsTold | lib/smartns_dv.cpp:747-758 | in every run of a created queue pair, the first n completions polled at the other end are those of the first n SENDs queued, each with its length, on the receive requests in posting order |
| Crc32.UpdateIsBitSerial | utils/Crc32.cpp:108-121 | the byte-wise register equals one fed a message bit at a time |
| Crc32Laws.CrcIsBitSerial | utils/Crc32.cpp:104-124 | the checksum is the bit-serial register between two complements |
| Crc32Laws.Residue | utils/Crc32.cpp:104-124 | every message followed by the four bytes of its checksum, lowest first, has the checksum 0x2144DF1C |
| Crc32.CrcChains | utils/Crc32.cpp:104-124 | chaining through previousCrc32 gives the checksum of the concatenation |
| Crc32.UpdateDifference | utils/Crc32.cpp:529-621 | a difference in the register travels through data as through zeros |
| Crc32.CrcOfConcat | utils/Crc32.cpp:529-621 | the checksum of a concatenation from those of its parts |
| Crc32Tables.LookupIsSteps | utils/Crc32.cpp:632-644 | the table recurrence yields the register after the zero bits a table stands for |
| Crc32Tables.HalfByteStepIsSteps | utils/Crc32.cpp:139-143 | two nibble steps are eight bit steps |
| Crc32Tables.ByteStepIsSteps | utils/Crc32.cpp:155-156 | one table step is eight bit steps |
| Crc32Tables.TablelessStepIsSteps | utils/Crc32.cpp:169-195 | the multiplications and shifts are eight bit steps |
| Crc32Tables.MaskedStepIsSteps | utils/Crc32.cpp:221-232 | the sign-extended masks are eight bit steps |
| Crc32Tables.SliceIsSteps | utils/Crc32.cpp:241-270 | the four lookups of a slice are the bit steps of four bytes |
| Crc32Tables.UpdateWord | utils/Crc32.cpp:241-270 | combining a little-endian word at once is updating with its four bytes |
| Crc32Routines.Bitwise | utils/Crc32.cpp:104-124 | computes the CRC of every input, continuing every previous one |
| Crc32Routines.HalfByte | utils/Crc32.cpp:128-146 | equals the bitwise CRC |
| Crc32Routines.OneByte | utils/Crc32.cpp:151-159 | equals the bitwise CRC |
| Crc32Routines.Tableless | utils/Crc32.cpp:164-212 | equals the bitwise CRC |
| Crc32Routines.Tableless2 | utils/Crc32.cpp:216-236 | equals the bitwise CRC |
| Crc32Routines.FourBytes | utils/Crc32.cpp:241-270 | equals the bitwise CRC, leftover bytes included |
| Crc32Routines.EightBytes | utils/Crc32.cpp:276-315 | equals the bitwise CRC, leftover bytes included |
| Crc32Routines.FourTimesEightBytes | utils/Crc32.cpp:319-365 | equals the bitwise CRC, leftover bytes included |
| Crc32Routines.SixteenBytes | utils/Crc32.cpp:371-435 | equals the bitwise CRC, leftover bytes included |
| Crc32Routines.SixteenBytesPrefetch | utils/Crc32.cpp:439-508 | equals the bitwise CRC exactly when the prefetch bound does not wrap; otherwise it reads past its input |
| Crc32Combine.TimesApplies | utils/Crc32.cpp:606-613 | multiplying by the matrix of an operator applies the operator |
| Crc32Combine.Times | utils/Crc32.cpp:606-613 | the loop over set bits computes the matrix product |
| Crc32Combine.Square | utils/Crc32.cpp:596-603 | squaring a matrix doubles the number of zeros its operator stands for |
| Crc32Combine.Combine | utils/Crc32.cpp:529-621 | pushes the first checksum through the length of the second block in logarithmically many squarings |
| Crc32Combine.CombineChecksums | utils/Crc32.cpp:529-621 | combining the checksums of a and b gives that of a followed by b, for all byte strings |
| FreeList.SortIsSort | utils/allocator.cpp:66-68 | the sort yields a permutation in address order |
| FreeList.MergeSortedIsRight | utils/allocator.cpp:70-81 | merging keeps the covered bytes and leaves no two blocks that touch |
| FreeList.MergeTotal | utils/allocator.cpp:70-81 | merging neither loses nor gains bytes |
| FreeList.CanonicalIsUnique | utils/allocator.cpp:65-82 | the canonical free list is determined by the set of free bytes |
| FreeList.MergeAdds | utils/allocator.cpp:49-53 | a block given back yields the canonical list of the old bytes and its own |
| FreeList.MergeAddsAny | utils/allocator.cpp:49-53 | the same for any list without overlap and any block, empty or not |
| FreeList.EmptyBlockStays | utils/allocator.cpp:66-81 | an empty block is absorbed if and only if a free block ends where it is |
| Allocator.AlignUpIsFirst | utils/allocator.cpp:58-62 | below the end of the address space, the aligned address is the first multiple from the address on |
| Allocator.AllocKeeps | utils/allocator.cpp:9-36 | for any number of bytes, what is handed out is aligned, inside the memory and was free, and the memory stays safe; for at least a byte it also was nobody else's, and the list stays canonical |
| Allocator.AllocFailsExactly | utils/allocator.cpp:12-35 | for any number of bytes, null is returned exactly when no one free block holds an aligned stretch of that many; for at least a byte and a canonical list, exactly when no such stretch is free |
| Allocator.AllocIsFirst | utils/allocator.cpp:12-35 | what is handed out lies in the first block with room for it, at the first aligned address there |
| Allocator.FreeKeeps | utils/allocator.cpp:39-55 | freeing makes exactly the block's bytes free, or changes nothing for an unknown address |
| Allocator.FreeIsTidyExactly | utils/allocator.cpp:39-55 | freeing keeps the canonical form unless the allocation was empty and no free block ends where it is, and then it does not |
| Allocator.EmptyBlockExample | utils/allocator.cpp:9-55 | an empty allocation of a fresh memory, given back, breaks the canonical form |
| Allocator.EmptyTakesOver | utils/allocator.cpp:17-30 | an allocation takes over the entry of a live block if and only if it is empty, its padding uses up its block, and the live block is right behind |
| Allocator.TakeOverExample | utils/allocator.cpp:9-55 | four requests after which an empty allocation does so, and the bytes of the live block are dropped |
| Allocator.FreeUndoesAlloc | utils/allocator.cpp:9-55 | freeing at once restores the free bytes if and only if there was no padding, a canonical list if and only if besides the allocation was not empty, and the map if and only if the address was not in it |
| Allocator.AllFreed | utils/allocator.cpp:39-55 | with nothing live and nothing dropped the memory is one block again |
| Allocator.HistoryIsSafe | utils/allocator.cpp:9-55 | after every history each byte is free, live or dropped and only one of these, and sizes add up to m_size; without empty allocations the free list is canonical besides |
| Allocator.OverflowEscapes | utils/allocator.cpp:14-17 | what is handed out lies inside the memory if and only if size plus padding does not overflow |
| Allocator.OverflowExample | utils/allocator.cpp:14-17 | an overflowing request succeeds on a memory of a hundred bytes |
| CustomAllocators.CustomAllocator.constructor | utils/allocator.cpp:2-6 | one free block |
| CustomAllocators.CustomAllocator.Alloc | utils/allocator.cpp:9-36 | the search loop computes the value-level allocation |
| CustomAllocators.CustomAllocator.Free | utils/allocator.cpp:39-55 | freeing is the value-level step |
| CustomAllocators.CustomAllocator.MergeFreeBlocks | utils/allocator.cpp:65-82 | the merging loop, in place, computes the merge of the sorted list |
| Rss.WindowBits | src/raw_packet/raw_packet.cpp:11-13 | the shifted key words are 32 consecutive bits of the key |
| Rss.LowestBit | src/raw_packet/raw_packet.cpp:9-10 | skipping to the lowest set bit adds what going bit by bit adds |
| Rss.WindowBit | src/raw_packet/raw_packet.cpp:11-13 | bit t of what input bit i of a word adds is bit 31 - i + t of the two key words, from their top |
| Rss.NetworkWordBits | src/raw_packet/raw_packet.cpp:11-13 | the bits of a key word in network order are those of its bytes in order |
| Rss.OneBitContributes | src/raw_packet/raw_packet.cpp:4-17 | a tuple of a single bit hashes to the 32 key bits that begin at its place; with linearity this is the whole hash |
| Rss.SoftRss | src/raw_packet/raw_packet.cpp:4-17 | the set-bit loops compute the bit-by-bit Toeplitz hash |
| Rss.HashLinear | src/raw_packet/raw_packet.cpp:4-17 | the hash is linear over exclusive or |
| Rss.HashIsSymmetric | src/raw_packet/raw_packet.cpp:4-17 | under a key that repeats every 16 bits both directions of a flow hash alike |
| Rss.RssKeyIsSymmetric | src/dpu/config.cpp:11-16 | so they do under the words of the repository's 40-byte key in network order |

## Left out

- Verbs, DevX and mlx5 calls, creation and destruction of resources, the kernel module, TCP exchange, logging and benchmarks: I/O and foreign calls. The packets, DMA requests and completions handed to them are recorded instead.
- RDMA READ, DRIVER1 and the recovery from a NAK: not implemented by the source; they are halts here.
- Retransmission: the source has none, so a lost packet stops a connection; no liveness is claimed beyond the window.
- Traffic in both directions of one queue pair: completing a send moves the queue pair's own expected receive number.
- comp_info->opcode, the opcode that completing a send writes to the queue pair's own receive side, the RXE timeouts, Ethernet, IP and UDP headers, partition keys and the bytes of the headers: no step depends on them.
- An MTU other than the constant 8192 of queue pair creation.
- The memory region table is a set of known keys; bounds of a region are not checked by the source either.
- finish_index, last_signal_index and the bound max_num on unfinished DMA requests: they depend on when the hardware completes.
- Memory ordering within an entry, cache invalidation and the doorbell words.
- One host ring and one completion ring per queue pair: the lookup of the queue pair by number is the identity.
- HostQueues.HostQueue: a cell holds the posted request and cur_pos as one value; the conversion of keys through mr_list and the limit on the number of scatter entries are not modelled, and receive entries carry an unused cur_pos.
- Qp.Drain: the active list of queue pairs and its mutex are not modelled; what is sent after a request in the ring has been written over is not described, only what the ring holds.
- HostQueues.HostQueue.CompleteRecv: in a ring of more than 65536 entries, which wr_id is reported is not described, only that some entry of the ring's is.
- Allocator.AllocKeeps: alignments that are not powers of two are outside the statement; the mask of alignPointer is modelled by the remainder it takes off.
- FreeList.SortIsSort: std::list::sort is modelled by an insertion sort.
- Big-endian variants of the CRC routines, and the 4096 literal table words, for which the documented recurrence stands.
- utils/buddy.cpp, the reader-writer spin lock, transmit buffer reuse and the control path's resource maps.
