# urdma: a verified model of the userspace iWARP data path

urdma runs RDMA over UDP in user space. Its reliable transport, TRP, numbers every datagram with a
packet sequence number (PSN), acknowledges cumulatively and reports at most one out-of-order range
(SACK). On top of it, DDP and RDMAP cut sends, writes and READ responses into segments, put them
together again and complete work requests in order. This project models that data path and the
structures it stands on, and proves what it promises.

## How the model is built

* `Endpoint.dfy` is one side of a connection: its steps are the turns of the loops that `progress_qp`
  runs and the calls an application makes. `TrpReceive`, `SendQueue`, `RecvQueue` and `ReadQueue` are
  its parts, `Ddp` its datagrams.
* `System.dfy` puts two sides on a network that may lose, duplicate, delay and reorder: whatever a side
  has ever sent can be delivered to the other at any time, any number of times. A run starts with two
  fresh sides whose read depths the handshake has matched, and then either side takes any enabled step.
* `Transport`, `Accounting`, `Segments`, `Reassembly`, `ReadRequester`, `ReadResponder` and
  `ReadCompletion` state one part of the invariant each and show that every step keeps it;
  `Invariant.dfy` puts the parts together (`RunKeeps`: every state of every run satisfies it).
* `Theorems.dfy` states the promises, each for every state of every run (`Occurs`), one side being `x`
  and its peer `y`. `ReadResults.dfy` goes on to what a completion stands for: where the bytes of a
  completed request are, and how many pops of the read-completion heap complete a READ. `Example.dfy`
  shows a run in which a message is delivered and both completions are posted, and `StuckRead.dfy` one
  that leaves a READ waiting whose data is there. `ReceiveOrder.dfy` is about when the completion of a
  receive is posted: it can be left although nothing is missing, and it can come before something that
  was sent earlier. `Placement.dfy` says when a segment is placed and when a receive is complete, and
  `Wire.dfy` how long segments are, when an acknowledgement is due and what the sender makes of it.
* `EeState.dfy` is the same transport state as the source keeps it: 32-bit fields and a ring of slots
  indexed by a mask, in place. `Serial.dfy` and `Bits.dfy` hold the arithmetic, and `Window.dfy` shows
  over whole runs that the 32-bit state follows the unbounded one.
* `QueuePair.dfy` is `progress_qp` and the loops it calls, in place on the fields of a queue pair. Each
  method takes the pair from one state of a run to another, so every theorem applies to it, and the
  assertions of the source are proved where they stand.
* `Iov.dfy` and `Segmentation.dfy` are gather, scatter and segmentation of one message.
* `Handshake.dfy`, `BinHeap.dfy`, `List.dfy`, `Cores.dfy` and `CompletionQueue.dfy` are the supporting
  parts: the ORD/IRD handshake, the heap of last-segment numbers, the intrusive list, the allocator of
  logical cores and the entry rings.

Sequence numbers, MSNs and offsets are unbounded in the runs and 32 bits wide in `EeState`. A 32-bit
word of the core bitmaps is the sequence of its bits. The clock, the contents of READ source memory and
the network are parameters or free choices of the steps.

Where the source and its own words differ, the model follows the code. The comment on `next_pow2`
promises a power of two greater than the argument, and the loop stops at equality
(src/liburdma/verbs.c:73-84). `siw_accept` warns about an unexpected state and goes on
(src/kmod/cm.c:1358-1369). `usiw_create_cq` lets through the one size that `next_pow2` asserts against
(src/liburdma/verbs.c:518-522).

Ten things that one might expect are not so. For each there is an input on which it fails and the
condition under which it holds:

* A send or write of no bytes emits no segment and never completes, and neither does anything posted
  behind it: a transfer completes only if it has a byte (`EmptyTransferNeverCompletes`).
* A complete receive can be left at the head of its queue although nothing is missing, if the datagram
  that closed the gap was no SEND segment (`CompleteReceiveIsLeft`). It leaves the head exactly with a
  SEND segment that is placed and leaves no hole before it, or with the flush (`HeadStaysIff`), and it
  comes to be there exactly when the segment that completes it leaves one (`HeadBecomesCompleteIff`).
* The completion of a receive can be posted although something sent before its message is missing,
  because the test for holes is made on the current segment and the loop posts what was deferred as
  well (`CompletionOvertakesWrite`). Everything sent before the last segment of its message has been
  accepted exactly if that segment is below the cumulative acknowledgement (`CompletionOrderedIff`).
* A receive that is posted is not always found: while another one is active, those posted after it was
  dequeued cannot be looked up, and a segment for them is refused (`PostedReceiveIsMissed`). In every run
  a new segment is placed exactly if its receive is among the active ones, or among the posted ones when
  none is active, and has room for it (`SendIsPlacedIff`).
* An acknowledgement that is lost is not told again when the datagram is repeated: a duplicate never makes
  one due (`LostAckIsNotRepeated`), a datagram does exactly if it is handed to DDP (`DatagramArmsIff`). One
  lost acknowledgement leaves a send waiting (`SenderIsLeftWaiting`).
* A pop of the read-completion heap need not complete a READ: `find_first_rdma_read` also finds one that
  is COMPLETE and waits behind an older request. One lost datagram is enough to leave a READ waiting
  although its data is there (`SecondReadIsStuck`). Unless a COMPLETE READ is at the head, a pop
  completes nothing exactly if the oldest READ is COMPLETE (`PopCompletesNothingIff`), and every pop of
  a run completed a READ exactly if none found it so (`EveryPopCompletesIff`). Each that did takes a unit
  of the ORD for good (`VainPopsHoldDepth`), and as many as the ORD stop all READs
  (`VainPopsStopReads`).
* A READ of no bytes behind a response that is out of credit moves the response head off it, and a READ
  of at least one byte never does (`TurnMovesHeadIffEmpty`, `PassMovesHeadIffEmpty`). Two requests to a
  fresh responder are enough (`EmptyReadSticks`). The response is then never taken up again, and the
  READ that comes to its slot next is refused (`StuckForGood`). READs of no bytes are left out of the
  runs.
* The 32-bit receiver may take a duplicate for new, such as number 0 when 2^31 + 1 is expected
  (`OldDuplicateIsTaken`). With distance d behind the expected number, modulo
  2^32, it does exactly if d is zero, or d is above 2^31 and nothing is missing or the number continues
  the tracked interval on the circle (`DuplicateTakenIff`). It does what the unbounded one does exactly
  under `SameCase` (`Rx32AgreesIff`), which holds while the live numbers are less than 2^31 apart
  (`Rx32Simulates`).
* The read-completion test compares PSNs with a plain `<`. With 2^32 + 5 as last segment and 2^32 - 3
  acknowledged it lets a READ complete before its data is there (`PlainLessFailsAcrossWrap`). On nearby
  numbers it is right exactly within one 2^32 block (`PlainLessAgreesIffSameEpoch`), and there it is the
  guard of the pop and the stored minimum is the right one (`PopGuardFollows`).
* A HELLO to urdmad that fails frees the process and not its cores. The cores stay parted exactly if the
  process had none (`DroppedConservesIff`); two HELLOs are enough to lose one (`TwoHellos`).

## Model

| member | source | states |
|---|---|---|
| `Serial.SerialIsCircularDistance` | src/liburdma/interface.c:97-113 | for all pairs of numbers the two comparisons are the circular distances of section 3.2 of RFC 1982, both false at distance 2^31 |
| `Serial.SerialAgrees` | src/liburdma/interface.c:97-113 | less than 2^31 apart, the 32-bit comparisons and equality are the unbounded ones |
| `Serial.PlainLessAgreesIffSameEpoch` | src/liburdma/interface.c:2025-2032 | the plain comparison of the read-completion test orders nearby numbers rightly if and only if both lie in the same 2^32 block |
| `Serial.PlainLessFailsAcrossWrap` | src/liburdma/interface.c:2025-2032 | an input on which it is wrong: last segment 2^32 + 5, acknowledgement 2^32 - 3 |
| `Bits.MaskIsMod` | src/liburdma/interface.c:523-529 | masking with 2^k - 1 is the remainder by 2^k |
| `Bits.MaskIndexesIffPow2` | src/liburdma/interface.c:523-529 | the mask of tx_pending_entry indexes a ring by remainder if and only if its size is a power of two |
| `Bits.NextPow2` | src/liburdma/verbs.c:73-84 | the least power of two not below the argument, without overflow |
| `Iov.MemcpyFromIov` | src/liburdma/interface.c:837-859 | the destination gets exactly the flat slice at the offset, whatever the element boundaries, and keeps its rest |
| `Iov.GatherElement` | src/liburdma/interface.c:847-858 | a turn of the loop copies what falls into the request and keeps the loop's state |
| `Iov.MemcpyToIov` | src/liburdma/interface.c:1095-1116 | for any elements of one memory, overlapping or not, memory ends as if the elements had got their shares one after the other |
| `Iov.WriteAt` | src/liburdma/interface.c:1095-1116 | a byte of memory is then what the last element to hit it brought, and as before if none does |
| `Iov.WriteIsScatter` | src/liburdma/interface.c:1095-1116 | if no two elements share memory, every element has exactly its share of the data, and bytes beyond the last element are dropped |
| `Iov.ScatterElement` | src/liburdma/interface.c:1104-1115 | a turn of the loop gives one element its share and keeps the loop's state |
| `Iov.ScatterIsSplice` | src/liburdma/interface.c:1095-1116 | scattering data that fits is one splice into the flat contents |
| `Segmentation.CutTiles` | src/liburdma/interface.c:871-912 | the segments cut from a message, over any number of resumed calls, follow one another without gap or overlap to its end, and only the final one is marked last |
| `Segmentation.CutPieces` | src/liburdma/interface.c:871-912 | every segment is the slice of the message at its offset, not empty, and marked last if and only if it ends the message |
| `Segmentation.CutSizes` | src/liburdma/interface.c:876-884 | every segment has at most mtu bytes, and exactly as many unless it is the last |
| `Segmentation.PlaceAllAt` | src/liburdma/interface.c:1196-1198 | after any sequence of segments of a message, repeats included, each covered byte is the message's and each other byte is as before |
| `Segmentation.AnyOrderReproduces` | src/liburdma/interface.c:862-913 | scattering the segments of a message in any permutation reproduces it and touches nothing behind it |
| `TrpReceive.RxStep` | src/liburdma/interface.c:1833-1899 | a datagram is taken if and only if it is new and can be tracked; then it is recorded, nothing else is, an acknowledgement is due, and the interval stays above the acknowledgement; otherwise nothing changes |
| `EeState.Rx32Simulates` | src/liburdma/interface.c:1833-1899 | while the live numbers are less than 2^31 apart, the 32-bit step accepts the same datagrams as the unbounded one and ends in the same state |
| `EeState.Rx32TakesIff` | src/liburdma/interface.c:1833-1899 | for every state and every number, however far apart, the 32-bit step accepts the datagram if and only if on the circle of numbers it is the expected one, or ahead of it by less than 2^31 with nothing missing or next to the interval |
| `EeState.DuplicateTakenIff` | src/liburdma/interface.c:1833-1899 | a duplicate, which the unbounded machine refuses, is accepted if and only if its distance modulo 2^32 is zero, or above 2^31 with nothing missing or next to the interval on the circle |
| `EeState.OldDuplicateIsTaken` | src/liburdma/interface.c:1833-1899 | an input: number 0 is accepted again when 2^31 + 1 is expected |
| `EeState.Rx32AgreesIff` | src/liburdma/interface.c:1833-1899 | for every state and every number, the 32-bit step has the verdict and the resulting state of the unbounded one if and only if both are in the same case |
| `EeState.IndexIsMod` | src/liburdma/interface.c:523-529 | for a power-of-two ring the slot of a wrapped number is the remainder of the unbounded one |
| `EeState.TargetIsEmptyIffRoom` | src/liburdma/interface.c:551-552 | the slot a send goes to is empty if and only if the ring is not full |
| `EeState.PushKeepsRing` | src/liburdma/interface.c:549-552 | with a new datagram the slots still hold exactly the numbers from head to next |
| `EeState.PopKeepsRing` | src/liburdma/interface.c:1595-1600 | so they do when the head leaves |
| `EeState.MaybeSackAgrees` | src/liburdma/interface.c:1540-1548 | on nearby numbers retransmission stops if and only if the range covers the datagram |
| `EeState.MarkKeepsRing` | src/liburdma/interface.c:1540-1548 | with one datagram marked or not, the slots still hold exactly the numbers from head to next |
| `EeState.EeState.constructor` | src/liburdma/interface.c:2163-2175 | the state of a new connection: an empty ring and a limit of its size |
| `EeState.EeState.ReceivePsn` | src/liburdma/interface.c:1833-1899 | the fields and the verdict after one datagram are those of the 32-bit step |
| `EeState.EeState.ReceiveAck` | src/liburdma/interface.c:1816-1819 | the acknowledgement is believed as it is and sets the limit a ring's length ahead |
| `EeState.EeState.CreditLeft` | src/liburdma/interface.c:871-873 | the 32-bit credit check is the unbounded one while next and limit are near |
| `EeState.EeState.SendSegment` | src/liburdma/interface.c:531-556 | the datagram takes the next number and its slot, and the ring stands for one datagram more |
| `EeState.EeState.FreeHead` | src/liburdma/interface.c:1594-1600 | the oldest datagram leaves the ring and the head moves on, going round |
| `EeState.EeState.SweepAcked` | src/liburdma/interface.c:1587-1604 | exactly the acknowledged datagrams leave from the head, oldest first |
| `EeState.SackMarks` | src/liburdma/interface.c:1540-1548 | after a SACK exactly the datagrams of the ring in its range, and those marked before, are marked |
| `EeState.EeState.ReceiveSack` | src/liburdma/interface.c:1551-1571 | the walk over the ring stops retransmission of exactly the datagrams in the range, number by number, and leaves the others as they were |
| `EeState.EeState.SackSlot` | src/liburdma/interface.c:1558-1570 | a turn of it marks one datagram and goes on to the next slot, round the ring |
| `Endpoint.SweptIs` | src/liburdma/interface.c:1587-1604 | a sweep takes exactly the acknowledged datagrams at the head from the ring and changes nothing about the others |
| `Window.ReceiveFollows` | src/liburdma/interface.c:1833-1899 | in every run, for a datagram not half the number space old, the 32-bit receiver does what the unbounded one does |
| `Window.SendFollows` | src/liburdma/interface.c:1582-1604 | in every run, after such an acknowledgement all numbers the sweep and the credit check compare are near each other, before and after the sweep |
| `Window.SweptIsRun` | src/liburdma/interface.c:1587-1604 | a whole sweep is a sequence of steps of the run |
| `Window.SlotIsFree` | src/liburdma/interface.c:549-552 | in every run, with credit, the slot of the 32-bit ring that the next datagram goes to is empty, as asserted |
| `Window.SackFollows` | src/liburdma/interface.c:1551-1571 | in every run, for a SACK not half the number space behind, every number of the ring is near both ends of its range, before and after the sweep |
| `Window.HeapRepInsert` | src/liburdma/interface.c:1402-1408 | inserting the stored number of the block of the others keeps the stored heap the wrapped one |
| `Window.HeapRepPop` | src/liburdma/interface.c:2025-2047 | within a block the stored minimum is the wrapped minimum, popping it pops that one, and the plain test is the unbounded one |
| `Window.PopGuardFollows` | src/liburdma/interface.c:2025-2047 | in every run, while the pending numbers lie in the block of the acknowledgement, the plain test on the stored minimum is the guard of the pop, which keeps the stored heap the wrapped one |
| `SendQueue.FirstRead` | src/liburdma/interface.c:1368-1378 | the position of the first READ of the active list, or its length |
| `SendQueue.PostKeeps` | src/liburdma/verbs.c:1115-1213 | posting keeps the accounts, the places and the order of the send queue |
| `SendQueue.ActivateKeeps` | src/liburdma/interface.c:2061-2081 | taking up the next work request keeps them, and it is the only one still transferring |
| `SendQueue.TryCompleteKeeps` | src/liburdma/interface.c:1345-1365 | completing at the head of the active list keeps completions in posting order |
| `SendQueue.ProcessAckKeeps` | src/liburdma/interface.c:1524-1537 | for the datagram at the head of the ring both assertions hold, and the accounts balance afterwards |
| `SendQueue.AdvanceKeeps` | src/liburdma/interface.c:903-912 | after a segment is sent, bytes acknowledged and in flight still add up to bytes sent |
| `SendQueue.SettleKeeps` | src/liburdma/interface.c:910-912 | a transfer with nothing left to send waits, and the accounts balance |
| `SendQueue.StartReadKeeps` | src/liburdma/interface.c:988-1012 | sending a READ request keeps the accounts and the order |
| `SendQueue.CompleteReadKeeps` | src/liburdma/interface.c:2038-2043 | completing the oldest READ keeps them |
| `SendQueue.PopCompletesNothingIff` | src/liburdma/interface.c:1368-1378 | unless a COMPLETE READ is at the head, popping a number changes no work request and completes none if and only if the oldest READ is COMPLETE already |
| `SendQueue.FlushCompletes` | src/liburdma/interface.c:821-834 | after the flush every work request has been retired in posting order, flush errors after the successes of exactly those that had completed |
| `RecvQueue.Lookup` | src/liburdma/interface.c:316-331 | the first active receive with the MSN, or none |
| `RecvQueue.PostCompleteKeeps` | src/liburdma/interface.c:1209-1217 | posting the complete receives at the head keeps completions and active list numbered in MSN order |
| `RecvQueue.SendKeepsOrder` | src/liburdma/interface.c:1137-1218 | whatever a SEND segment does to the receive queue, the completed, active and waiting receives, in this order, are those posted, in posting order |
| `RecvQueue.FlushKeepsOrder` | src/liburdma/interface.c:804-818 | so they are after a flush |
| `ReadQueue.TurnMovesHeadIffEmpty` | src/liburdma/interface.c:1233-1273 | behind an unfinished response without credit, the turn of a request that was taken up moves the head if and only if it asked for no bytes; in order, that sticks |
| `ReadQueue.PassMovesHeadIffEmpty` | src/liburdma/interface.c:1221-1274 | a whole pass without credit moves the head if and only if some slot it reaches has no bytes |
| `ReadQueue.StuckForGood` | src/liburdma/interface.c:1221-1342 | after any further requests and passes, with any credit, the unfinished response is as it was, and the request that comes to its slot is refused |
| `ReadQueue.EmptyReadSticks` | src/liburdma/interface.c:1221-1342 | a READ, a READ of no bytes and one pass without credit bring a fresh responder there |
| `Endpoint.MinOf` | src/util/binheap.c:93-101 | the least number of the heap |
| `ReadRequester.PopFindsRead` | src/liburdma/interface.c:2038-2043 | while fewer last segments were popped than READs sent, the oldest READ is active and has been sent |
| `ReadResponder.RequestFindsSlot` | src/liburdma/interface.c:1289-1333 | a request not seen before is in the window and its slot is free |
| `Invariant.StartHolds` | src/liburdma/interface.c:2149-2180 | the invariant holds when a connection starts |
| `Invariant.StepKeeps` | src/liburdma/interface.c:2011-2094 | every step of either side keeps it |
| `Invariant.RunKeeps` | src/liburdma/interface.c:2011-2094 | it holds in every state of every run |
| `Theorems.OccursNext` | src/liburdma/interface.c:2011-2094 | an enabled step leads from one state of a run to another |
| `Theorems.ExactlyOnce` | src/liburdma/interface.c:1833-1899 | no number is handed to DDP twice; those handed over are exactly the numbers below the acknowledgement and the one interval above it; each datagram carries the segment its number was given to |
| `Theorems.NothingIsLost` | src/liburdma/interface.c:1587-1604 | the sender frees no datagram the receiver has not accepted, and every other one is still in the ring and still due for retransmission, stale acknowledgements and SACKs notwithstanding; a SACK stops exactly the datagrams of its range, which is the intended rule and not the slot-pointer walk of process_trp_sack |
| `Theorems.WindowHolds` | src/liburdma/interface.c:531-556 | the ring holds exactly the numbers from head to next, at most its size, and a send with credit finds room |
| `Theorems.SackIsTrueForever` | src/liburdma/interface.c:559-578 | every range ever announced is accepted then and in every later state |
| `Theorems.Integrity` | src/liburdma/interface.c:1137-1218 | the k-th receive, completed with success, holds the k-th message the peer posted, whole, in its first byte_len bytes, whatever the arrival order |
| `Theorems.ReceivesInOrder` | src/liburdma/interface.c:1209-1217 | receive completions come in MSN order, one each, and the k-th is that of the k-th receive posted |
| `Theorems.RunKeepsPostOrder` | src/liburdma/interface.c:1120-1218 | in every state of every run the completed, active and waiting receives are those posted, in posting order |
| `Theorems.ReceivedWithin` | src/liburdma/interface.c:1199 | the assertion on recv_size holds: no receive takes more bytes than its message has |
| `Placement.CompleteIff` | src/liburdma/interface.c:1196-1202 | in every run an active receive is complete if and only if every byte of its message has been placed, in whatever order |
| `Placement.SendIsPlacedIff` | src/liburdma/interface.c:1148-1194 | in every run a new SEND segment is placed if and only if its receive is active, or posted with none active, and was posted with room for it |
| `Placement.NothingElseIsTouched` | src/liburdma/interface.c:1095-1116 | in every run a completed receive has, outside the bytes placed in it and behind its message, what it was posted with |
| `Placement.PostedReceiveIsMissed` | src/liburdma/interface.c:1148-1174 | a receive posted while another is active: a segment for it is refused although it was posted |
| `Placement.OpenMeansSuccess` | src/liburdma/interface.c:1209-1217 | in every run of an open pair every receive completion is a success |
| `Theorems.SegmentsTile` | src/liburdma/interface.c:862-964 | in every run the segments of a send or write cover exactly the bytes sent, each byte once and with its value, and only the final segment is flagged last |
| `Wire.SegmentsFitMtu` | src/liburdma/interface.c:876-884 | in every run every data segment ever sent, of a send, a write or a READ response, has at most mtu bytes, and exactly as many unless it is flagged last |
| `Wire.AckIsPendingIff` | src/liburdma/interface.c:505-511 | in every run, with nothing missing and something accepted, an acknowledgement is pending if and only if no datagram has carried it; with something missing, none is pending only if the interval was told |
| `Wire.DatagramArmsIff` | src/liburdma/interface.c:1833-1899 | with none pending, a datagram makes an acknowledgement due if and only if it is handed to DDP |
| `Wire.LostAckIsNotRepeated` | src/liburdma/interface.c:1891-1900 | in every run, when all that was sent is accepted and acknowledged, no repeated datagram changes the receiver or lets it send an acknowledgement |
| `Wire.SenderIsLeftWaiting` | src/liburdma/interface.c:1891-1900 | a run in which a message was accepted and acknowledged once, and the send still waits |
| `Wire.ReceiptSetsSender` | src/liburdma/interface.c:1816-1819 | every datagram but a SACK sets the acknowledgement to the one it carries and the limit a ring's length beyond it, duplicates included; a SACK marks exactly the numbers of its range and leaves both |
| `Wire.CreditIsRingBeyondAck` | src/liburdma/interface.c:1816-1819 | in every run the limit is the acknowledgement and the ring's length less one, or the length at the start, and the acknowledgement is one the peer has sent |
| `Theorems.BytesConserved` | src/liburdma/interface.c:1524-1537 | bytes acknowledged plus bytes in the ring are the bytes sent; both assertions of do_process_ack hold; COMPLETE means every byte is acknowledged |
| `Theorems.CompletionsInOrder` | src/liburdma/interface.c:1345-1365 | send completions come in posting order, at most one for a work request, successes before flushes |
| `Theorems.CompletedPrefix` | src/liburdma/interface.c:1345-1365 | while the pair is open the completed requests are a prefix of the posted ones, with a success for exactly those that asked |
| `Theorems.EmptyTransferNeverCompletes` | src/liburdma/interface.c:871-912 | neither a send or write of no bytes nor any request posted behind it is ever completed with success, before or after a shutdown, and none of them is retired before it |
| `Theorems.RequestAlwaysStored` | src/liburdma/interface.c:1277-1342 | every READ request the transport hands up is in the window, finds its slot free and is stored |
| `Theorems.ResponsesTile` | src/liburdma/interface.c:1221-1274 | a finished response covers every byte asked for exactly once and only its final segment is flagged last |
| `Theorems.ResponsesInMsnOrder` | src/liburdma/interface.c:1221-1274 | responses are sent in MSN order |
| `Theorems.SlotHasBytes` | src/liburdma/interface.c:1268-1272 | in every run a slot in use has bytes left, so no slot behind a blocked response is taken for finished |
| `Theorems.PopMeansPlaced` | src/liburdma/interface.c:2025-2047 | last segments are popped in request order, and then every segment of that response has been accepted |
| `Theorems.CompletedReadIsPlaced` | src/liburdma/interface.c:2025-2047 | every byte of a completed READ was brought by a segment of its response that has been handed over |
| `Theorems.DepthBounded` | src/liburdma/interface.c:978-990 | ord_active counts the READs sent and not completed, stays within the ORD, and bounds the heap |
| `Theorems.HeapInsertFits` | src/liburdma/interface.c:1402-1408 | the heap has room for every last segment, so the ignored result of the insertion is never a failure |
| `Theorems.PopFindsSentRead` | src/liburdma/interface.c:2038-2043 | a pop finds a READ that was sent: the warning never fires |
| `Theorems.SentReadIsCounted` | src/liburdma/interface.c:1360-1363 | the assertion on ord_active holds when a READ completes |
| `ReadResults.CompletedTransferIsTaken` | src/liburdma/interface.c:1524-1537 | every byte of a completed SEND or WRITE was brought, with its value, by a segment that the peer has handed to DDP |
| `ReadResults.PopMarksIff` | src/liburdma/interface.c:2038-2043 | a pop marks one more READ complete if and only if the oldest one was not |
| `ReadResults.PopsAreMarksOrInVain` | src/liburdma/interface.c:2025-2047 | in every run the READs marked complete and the pops that found the oldest READ COMPLETE add up to the pops |
| `ReadResults.EveryPopCompletesIff` | src/liburdma/interface.c:2025-2047 | every pop of a run completed a READ if and only if none found the oldest READ COMPLETE, and each that did leaves the READs completed one short of those sent, from then on |
| `ReadResults.VainPopsHoldDepth` | src/liburdma/interface.c:978-990 | in every run of an open pair the pops in vain are at most ord_active: each holds a unit of the ORD |
| `ReadResults.VainPopsStopReads` | src/liburdma/interface.c:978-990 | once there were as many as the ORD, no READ request can be sent in any later state |
| `ReadResults.ResponsesFromSource` | src/liburdma/interface.c:1241-1266 | for an unchanging source memory, every byte of every response segment is the one at the source address its READ asked for |
| `ReadResults.CompletedReadHasSourceBytes` | src/liburdma/interface.c:2025-2047 | for every byte of a completed READ a segment that has been handed to DDP carries the byte at the corresponding source address |
| `StuckRead.SecondReadIsStuck` | src/liburdma/interface.c:1368-1378 | a run of SEND, READ, READ in which one lost datagram leaves the second READ waiting, with its data there, the heap empty and the first READ COMPLETE |
| `ReceiveOrder.HeadStaysIff` | src/liburdma/interface.c:1204-1217 | of all steps exactly a SEND segment that is placed and leaves no hole before it, and the flush, take a complete receive from the head |
| `ReceiveOrder.HeadBecomesCompleteIff` | src/liburdma/interface.c:1196-1217 | a complete receive comes to be left at the head exactly when the segment that completes it leaves a hole before it |
| `ReceiveOrder.HeadIsLeftIff` | src/liburdma/interface.c:1196-1217 | over runs, by the bytes: exactly when a segment of the next message to complete is placed, all bytes of that message are there afterwards, and it leaves a hole before it |
| `ReceiveOrder.CompletedMeansAccepted` | src/liburdma/interface.c:1196-1217 | in every run every segment of the message of a receive that completed with success has been accepted |
| `ReceiveOrder.NoHoleBelowIff` | src/liburdma/interface.c:1204-1209 | everything below an accepted number has been accepted if and only if it is below the cumulative acknowledgement |
| `ReceiveOrder.CompletionOrderedIff` | src/liburdma/interface.c:1204-1217 | in every run, for a completed receive and a segment of its message, everything sent before the segment has been accepted if and only if it is below the cumulative acknowledgement |
| `ReceiveOrder.CompletionOvertakesWrite` | src/liburdma/interface.c:1204-1217 | a run of SEND, WRITE, SEND in which the second completion is posted while the WRITE is missing |
| `ReceiveOrder.CompleteReceiveIsLeft` | src/liburdma/interface.c:1204-1217 | a run of the same in which everything has arrived and the second receive, complete, is left at the head |
| `Example.Delivers` | src/liburdma/interface.c:2011-2094 | a run exists in which a message is delivered and both sides post a success |
| `QueuePair.QueuePair.constructor` | src/liburdma/interface.c:2149-2180 | a new queue pair is the fresh side of a run |
| `QueuePair.QueuePair.PeerStep` | src/liburdma/interface.c:2011-2094 | whatever the peer does meanwhile, the queue pair is still in a state of a run |
| `QueuePair.QueuePair.PostSend` | src/liburdma/verbs.c:1115-1213 | a posted request joins the end of the queue, as a step of the run, unless the pair is shut down |
| `QueuePair.QueuePair.PostReceive` | src/liburdma/verbs.c:1220-1269 | so does a posted receive |
| `QueuePair.QueuePair.SendSegment` | src/liburdma/interface.c:531-556 | with credit the ring has room, as asserted; the datagram joins the ring and carries the acknowledgement |
| `QueuePair.QueuePair.SendNextSegment` | src/liburdma/interface.c:874-908 | a turn of the sending loop is a step of the run and sends at least one byte |
| `QueuePair.QueuePair.DoRdmapSend` | src/liburdma/interface.c:862-964 | segments go out until the message is through, which then waits, or the credit is used up; nothing else changes, and nothing else is sent |
| `QueuePair.QueuePair.DoRdmapReadRequest` | src/liburdma/interface.c:967-1013 | the request goes out if and only if the READ was not sent, the ORD is not reached and there is credit |
| `QueuePair.QueuePair.TryCompleteWqe` | src/liburdma/interface.c:1345-1365 | only the head of the active list completes; the assertion on ord_active holds |
| `QueuePair.QueuePair.ProgressSendWqe` | src/liburdma/interface.c:1944-1963 | one work request moves on within a run and no other is touched |
| `QueuePair.QueuePair.DoProcessAck` | src/liburdma/interface.c:1524-1537 | both assertions hold and the request completes when its last byte is acknowledged |
| `QueuePair.QueuePair.FreeAckedHead` | src/liburdma/interface.c:1590-1600 | the acknowledged head leaves the ring, as a step of the run |
| `QueuePair.QueuePair.SweepHead` | src/liburdma/interface.c:1587-1604 | exactly what is acknowledged at the head leaves; the bound on the turns never cuts the loop short |
| `QueuePair.QueuePair.ResendDue` | src/liburdma/interface.c:1605-1658 | the second loop sends again exactly what is due; the bound on the turns never cuts it short |
| `QueuePair.ResentIs` | src/liburdma/interface.c:1605-1658 | which is each datagram of the ring whose timer ran out and that was not reported received, once and in order |
| `QueuePair.QueuePair.SweepUnacked` | src/liburdma/interface.c:1574-1658 | afterwards no acknowledged datagram is at the head, and every due one not reported received was sent again by this call, once, and nothing else |
| `QueuePair.QueuePair.FindFirstRead` | src/liburdma/interface.c:1368-1378 | the loop finds the oldest READ |
| `QueuePair.QueuePair.CompleteOldestRead` | src/liburdma/interface.c:2038-2043 | a pop finds a READ that was sent, and marks one more complete if and only if the oldest was not |
| `QueuePair.QueuePair.CompleteReads` | src/liburdma/interface.c:2025-2047 | exactly the numbers below the acknowledgement leave the heap; every pop finds a READ that was sent; the READs marked complete are the pops less those in vain, and at least one if the oldest was not COMPLETE |
| `QueuePair.QueuePair.DequeueRecvWqes` | src/liburdma/interface.c:1120-1134 | everything posted becomes active, in order, with the next MSNs |
| `QueuePair.QueuePair.LookupRecv` | src/liburdma/interface.c:316-331 | the loop finds the receive with the MSN |
| `QueuePair.QueuePair.PostCompletions` | src/liburdma/interface.c:1209-1217 | the loop posts exactly the complete receives at the head, in order |
| `QueuePair.QueuePair.ProcessSendSegment` | src/liburdma/interface.c:1137-1218 | the receive queue after a SEND segment, refusals included, is the specified one |
| `QueuePair.QueuePair.ProcessReadRequest` | src/liburdma/interface.c:1277-1342 | a request is stored, in its slot alone, if and only if its MSN is not below the expected one, within the IRD of the head, and the slot is free; the expected one moves on exactly if it came |
| `QueuePair.QueuePair.ProcessReadResponse` | src/liburdma/interface.c:1381-1409 | the number of a last segment enters the heap if and only if a READ into that buffer is active |
| `QueuePair.QueuePair.ProcessDataPacket` | src/liburdma/interface.c:1720-1930 | any datagram the peer ever sent takes the pair to the next state of a run |
| `QueuePair.QueuePair.ProcessReceiveQueue` | src/liburdma/interface.c:1966-2003 | a burst of them is processed whole and in order |
| `QueuePair.QueuePair.RespondNext` | src/liburdma/interface.c:1238-1266 | a turn of the inner loop sends one segment, whose bytes are those of memory at the source address its READ asked for |
| `QueuePair.QueuePair.RespondSegments` | src/liburdma/interface.c:1237-1266 | the inner loop leaves of the response, and of the credit, what the specified draining of its slot leaves, and sends nothing but new segments with the bytes asked for |
| `QueuePair.QueuePair.RespondSlot` | src/liburdma/interface.c:1235-1272 | the slots and the credit after a turn are the specified ones and the bytes sent those asked for; in a run a turn beyond the head does nothing, and at the head the response is finished or the credit is used up |
| `QueuePair.QueuePair.RespondRdmaRead` | src/liburdma/interface.c:1221-1274 | the slots and the credit after a call are those of the specified pass, every response byte sent is the one at the source address its READ asked for, and responses have gone out until none is left or the credit is used up |
| `QueuePair.QueuePair.ProgressActive` | src/liburdma/interface.c:2049-2059 | afterwards, unless the credit is used up, every active send or write has sent all it has and every active READ its request, up to the ORD; the first active request is not COMPLETE, and the count is zero if and only if none is transferring |
| `QueuePair.QueuePair.VisitActive` | src/liburdma/interface.c:2050-2059 | a turn of the loop over the active list, on a request that is not in its initial state, as asserted; only the visited one can leave the list |
| `QueuePair.QueuePair.TakeUp` | src/liburdma/interface.c:2061-2077 | the next posted request, in its initial state as asserted, gets its MSN and joins the active list |
| `QueuePair.QueuePair.ActivateNext` | src/liburdma/interface.c:2060-2081 | it is progressed, and then no active request waits without reason; posted ones behind it stay posted |
| `QueuePair.QueuePair.SendAcks` | src/liburdma/interface.c:2085-2091 | a pending acknowledgement goes out, as a SACK of the interval if something is missing, and nothing else does |
| `QueuePair.QueuePair.ProgressQp` | src/liburdma/interface.c:2007-2094 | a whole call takes the pair along a run: the burst is processed whole, the receive side and the acknowledgement are those after it, and the ring is the swept one with the new datagrams; it sends exactly the due datagrams of the swept ring that are not marked, the new ones, and the acknowledgement unless it was carried, each once and in order, READ responses with the bytes asked for; it takes up at most one posted request, and none only if there is none or an active one is still transferring; no active request is left without reason: none COMPLETE at the head, and with credit no send or write with bytes to send and no READ unsent below the ORD; nor is a READ response with credit, or a number in the read-completion heap below the acknowledgement |
| `QueuePair.QueuePair.SqFlush` | src/liburdma/interface.c:821-834 | the loops flush active and then posted requests in order, one error completion each |
| `QueuePair.QueuePair.RqFlush` | src/liburdma/interface.c:804-818 | the loops flush active and then posted receives in MSN order, one error completion each, complete ones included |
| `QueuePair.QueuePair.ShutDown` | src/liburdma/interface.c:1412-1431 | both queues are empty afterwards, everything in them got one error completion, and the pair is still in a state of a run |
| `Handshake.Qp.Modify` | src/kmod/qp.c:153-335 | the state moves exactly along the defined transitions, the one into RTS only with socket and both depths given; the depths change only there and are then at least one; each error is returned exactly where it is |
| `Handshake.Qp.Notify` | src/kmod/main.c:187-202 | the byte-sized fields carry the depths modulo 256, unchanged if and only if these are below 256 |
| `Handshake.Cep.Connect` | src/kmod/cm.c:1155-1179 | the request carries the caller's depths, cut to 16 bits |
| `Handshake.Cep.ProcTrpReq` | src/kmod/cm.c:532-578 | a request is taken if and only if it is one and asks for no more than the device limits; the peer's ORD becomes this side's IRD and its IRD this side's ORD |
| `Handshake.Cep.Accept` | src/kmod/cm.c:1342-1449 | accepted if and only if the endpoint is not closed, the queue pair is not past RTR, the ORD is within the peer's IRD and the IRD within the limit |
| `Handshake.Cep.QpRtr` | src/kmod/cm.c:1257-1297 | the accepting side replies with its depths; other states are refused |
| `Handshake.Cep.ProcTrpReply` | src/kmod/cm.c:582-645 | the IRD covers the peer's ORD and the ORD is cut to the peer's IRD |
| `Handshake.Establish` | src/kmod/cm.c:1387-1411 | for all parameters of both callers: the connection succeeds if and only if they are acceptable; then each ORD is between one and the peer's IRD, which is at most 128, the daemons learn the depths unchanged, and a run may start with them |
| `BinHeap.RootIsLeast` | src/util/binheap.c:93-101 | the root of a heap is its minimum |
| `BinHeap.BinHeap.constructor` | src/util/binheap.c:134-147 | a new heap is empty |
| `BinHeap.BinHeap.PushDown` | src/util/binheap.c:64-77 | the loop ends with a heap of the same elements |
| `BinHeap.BinHeap.Insert` | src/util/binheap.c:81-90 | fails if and only if the heap is full, and otherwise adds exactly the value |
| `BinHeap.BinHeap.Peek` | src/util/binheap.c:93-101 | fails if and only if the heap is empty, and otherwise yields the minimum |
| `BinHeap.BinHeap.Pop` | src/util/binheap.c:105-129 | removes exactly one minimum, unless the heap is empty |
| `BinHeap.PopBelow` | src/liburdma/interface.c:2025-2047 | peeking and popping below a limit drains exactly the elements below it, in sorted order |
| `BinHeap.Drain` | src/util/binheap.c:93-129 | repeated peek and pop yields the whole contents in sorted order and leaves the heap empty |
| `List.ListNode.constructor` | ccan/list/list.h:155-158 | a new node is a ring of its own |
| `List.AddAfter` | ccan/list/list.h:178-188 | the ring with the node inserted after the given one; only the two links around it change |
| `List.Add` | ccan/list/list.h:204-209 | the node is the first entry |
| `List.AddBefore` | ccan/list/list.h:227-237 | the ring with the node inserted before the given one |
| `List.AddTail` | ccan/list/list.h:250-255 | the node is the last entry |
| `List.Empty` | ccan/list/list.h:267-271 | true if and only if there is no entry |
| `List.Del` | ccan/list/list.h:324-333 | the ring closes over the node, which keeps its links |
| `List.DelInit` | ccan/list/list.h:350-354 | and is then a ring of its own |
| `List.Swap` | ccan/list/list.h:405-417 | the new node takes the old one's place unless that one is alone, when it is linked behind it |
| `List.Pop` | ccan/list/list.h:475-484 | the first entry leaves the list, or null |
| `List.AppendList` | ccan/list/list.h:640-656 | all entries go behind those of the other list, in order, either or both possibly empty, and the source list is empty |
| `List.PrependList` | ccan/list/list.h:672-688 | all entries go before those of the other list, in order |
| `List.CheckNode` | ccan/list/list.c:20-36 | on every finite closed graph the walk ends, and the node is returned if and only if it lies on a consistent doubly linked ring |
| `Cores.Bsf32` | src/urdmad/main.c:129 | the lowest position that is set |
| `Cores.CoreAllocator.constructor` | src/urdmad/main.c:90-106 | the free cores are those that are off, up to the first one not detected, and the counter is their number |
| `Cores.CoreAllocator.NextWord` | src/urdmad/main.c:125-128 | the scan finds the next word with a free core and never leaves the array |
| `Cores.CoreAllocator.Reserve` | src/urdmad/main.c:113-136 | exactly the lowest count free cores move to the caller's bitmap, or none if there are fewer |
| `Cores.CoreAllocator.ReturnWord` | src/urdmad/main.c:149-155 | the cores of one word are freed one by one and counted |
| `Cores.CoreAllocator.Return` | src/urdmad/main.c:143-157 | every core of the bitmap is free again, and the counter agrees |
| `Cores.DroppedConservesIff` | src/urdmad/main.c:608-611 | dropping a process without returning its cores conserves them if and only if it has none |
| `Cores.Daemon.Listen` | src/urdmad/main.c:628-652 | a new process owns nothing, and the cores stay parted |
| `Cores.Daemon.ReserveFor` | src/urdmad/main.c:502-512 | a reservation succeeds if and only if enough cores are free, and moves exactly that many to the process |
| `Cores.Daemon.Drop` | src/urdmad/main.c:608-611 | the process leaves and exactly its cores are lost |
| `Cores.Daemon.Hello` | src/urdmad/main.c:594-611 | it succeeds if and only if enough cores are free and the response can be sent; otherwise the process leaves and everything it had, with what was just reserved, is lost; free, owned and lost cores stay disjoint with constant union |
| `Cores.Daemon.Exit` | src/urdmad/main.c:552-560 | the cores of a process that ends are free again; free, owned and lost cores stay disjoint with constant union |
| `Cores.TwoHellos` | src/urdmad/main.c:594-611 | a new process that sends a HELLO for one core and then one for more than are left is gone again, and one core is lost |
| `CompletionQueue.CreateCq` | src/liburdma/verbs.c:518-582 | for any size, negative ones included: refuses what is too large and runs into an assertion at exactly one size; otherwise an empty queue of the least size of the form 2^k - 1 that suffices, with every entry free |
| `CompletionQueue.Cq.GetNext` | src/liburdma/interface.c:679-695 | a free entry is taken in hand, unless there is none |
| `CompletionQueue.Cq.FinishPost` | src/liburdma/interface.c:697-723 | the entry is queued and the ring has room, as asserted |
| `CompletionQueue.Cq.Post` | src/liburdma/interface.c:725-754 | the completion joins the end of the queue, unless every entry is in use; entries stay parted among free ring, ready ring and hands |
| `CompletionQueue.Cq.Poll` | src/liburdma/verbs.c:589-608 | the oldest completions come out in posting order, and the free ring has room for their entries, as asserted |
| `CompletionQueue.RecvEntries.constructor` | src/liburdma/interface.c:245-288 | every receive WQE is free to begin with; there are 63, or the least number of the form 2^k - 1 that suffices |
| `CompletionQueue.RecvEntries.GetNext` | src/liburdma/interface.c:666-677 | fails if and only if every WQE is in use |
| `CompletionQueue.RecvEntries.Post` | src/liburdma/verbs.c:1260-1261 | the WQE is queued and the ring has room, as asserted |
| `CompletionQueue.RecvEntries.PostList` | src/liburdma/verbs.c:1220-1269 | requests are posted in order up to the first refused one, with the reason; WQEs stay parted among free ring, posted ring, active list and poster |
| `CompletionQueue.RecvEntries.DequeueAll` | src/liburdma/interface.c:1120-1134 | everything posted becomes active, in order |
| `CompletionQueue.RecvEntries.Free` | src/liburdma/interface.c:642-650 | the WQE leaves the active list, and the free ring has room |

## Left out

- TERMINATE messages and retransmit-limit failures: a step that would send one refuses the segment and goes on; the window and accounting statements are about runs without them.
- FIN races and everything after shutdown: a pair that was shut down takes no further step, and the state shared with urdmad is not modelled.
- Liveness: nothing is said about eventual delivery, timers or the retransmit interval; which datagrams are due is a parameter.
- Memory regions: lookups succeed, and the bytes of writes and READ responses are not followed into registered memory; what is proved is which segments were accepted and which bytes they carry, for READs from a source memory that does not change.
- READs of no bytes: not in the runs, because they break the order of responses (`ReadQueue.TurnMovesHeadIffEmpty`); what they do to the responder is in `ReadQueue`.
- EeState.EeState.ReceiveSack: process_trp_sack offsets the slot pointer instead of the datagram (src/liburdma/interface.c:1564); the rule for one datagram, maybe_sack_pending, is modelled and applied to every datagram of the ring, here and in the runs.
- EeState.EeState.SackSlot: the same; a turn looks at the datagram of its slot.
- Theorems.NothingIsLost: the same; what the slot-pointer walk reads in place of a datagram is not modelled.
- Full completion queues inside a run: posting a completion succeeds; the queue on its own is in `CompletionQueue`.
- Reuse of WQE storage inside a run: work requests are named by their posting order; the rings of entries are modelled on their own.
- Inline data: a send with inline data is one with a single element.
- QueuePair.QueuePair.PostSend: a READ of no bytes is not posted, and work-request lists, limits and full rings are not modelled.
- QueuePair.QueuePair.PostReceive: takes one request; lists of requests, limits and full rings are in CompletionQueue.RecvEntries.PostList.
- SendQueue.PostKeeps: of usiw_post_send only the effect on the queue is modelled, not its error exits, which keep what they hold.
- MSN and message-offset wrap-around: these are unbounded everywhere.
- Handshake.Cep.ProcTrpReq: the byte order of the depths stored with a rejected request is not modelled, because the endpoint is then dropped.
- Handshake.Cep.Accept: private data, sockets and failing allocations are not modelled.
- Handshake.Establish: lost, repeated and timed-out handshake messages are not modelled; each handler is, on any message.
- CompletionQueue.CreateCq: failing allocations, the kernel call and the overflow of size + 1 are not modelled.
- EeState.EeState.SendSegment: demands the empty slot that the source asserts; that it is empty whenever there is credit is `Window.SlotIsFree`.
- QueuePair.QueuePair.DoRdmapSend: like every method that sends, it demands that a sweep came after the last datagram processed, which is the order in progress_qp; without it a send with credit could find its slot taken.
- QueuePair.QueuePair.SweepUnacked: the branch in which a datagram reaches its retransmit limit is not modelled.
- QueuePair.QueuePair.ProcessSendSegment: a refused segment is dropped, where the source also sends TERMINATE.
- QueuePair.QueuePair.ProcessReadRequest: the memory-region checks are taken to succeed, and a refused request is dropped, where the source also sends TERMINATE.
- QueuePair.QueuePair.ShutDown: the FIN datagram and the call into the kernel are not modelled.
- Cores.Daemon.Hello: of the response only whether it could be sent is modelled.
- QueuePair.QueuePair.ProcessDataPacket: the datagram is taken as parsed, and segments that would be answered with TERMINATE are dropped.
- Iov.MemcpyToIov: the source does not lie in the memory written to, as its restrict qualifier demands.
- Theorems.Integrity: every receive of a run has buffers of its own; receives whose buffers overlap are not in the runs.
- CCAN_LIST_DEBUG: the poisoning and the checks of the debugging build.
- The rest of the kernel module, KNI, netlink, DPDK drivers, header building, checksums, the configuration file, and the key-value and ping-pong programs: input and output, foreign calls or demonstrations.
