# A verified model of the libethercat master

libethercat is an EtherCAT master.  This project models its stateful core in Dafny and proves what
that core is for:

- **Topology and distributed clocks** (`Ports`, `Topology`, `PortOrder`, `DistributedClocks`,
  `DelayMeasurement`, `PropagationDelay`).  From the link counts of the slaves in frame order, a backward scan finds the
  parent of every slave; the clock configuration then assigns ports and propagation delays.  Proved for
  trees of any size.
- **Process data** (`ProcessDataMapping`, `ProcessDataLayout`, `ProcessDataExchange`, `ProcessDataHoles`,
  `ProcessDataRemapping`, `ProcessDataApart`, `MailboxStates`).  Both mapping functions as an allocator of logical memory and of slices of the process
  image; one round of LRW, or of LWR and LRD, through all FMMUs of all slaves is a direct copy between each
  slave and its slices; the FMMUs of the non-overlapping mapping tile memory; groups stay apart; mailbox
  states are one bit per slave.
- **Transport** (`Bytes`, `Datagrams`, `FramePacking`, `Hardware`, `WireAccounting`, `Resources`).  Queued
  datagrams are packed into frames, walked and dispatched on reception, and accounted for on a wire that
  loses, duplicates and reorders; indices and pool entries are conserved.
- **Concurrency** (`Pools`, `PoolProtocol`, `AsyncLoop`).  The pool is a semaphore and a locked queue that
  are changed in separate steps; proved for every interleaving of any number of threads.
- **Mailbox transfers and checksums** (`Mailboxes`, `SdoDownload`, `EthernetOverEtherCat`,
  `ServoOverEtherCat`, `FileOverEtherCat`, `Checksums`).  Segmentation and reassembly for four protocols, and the Internet
  checksums of RFC 1071, RFC 791 (section 3.1) and RFC 768.

`Counting` and `Division` hold facts about counting and division that several modules share.

Loops and in-place updates of the source are Dafny methods, each proved against a specification function;
the theorems are lemmas about those functions.  Where the source does not do what one would expect, the
model keeps what the source does, a lemma says exactly when the expected property holds, and another one
gives an input for which it fails.  These are the places:

| what happens | exactly when | for instance |
|---|---|---|
| An image slice lags behind its logical window behind a slave that lacks FMMUs, and a round of LRW is no direct copy. | `ProcessDataHoles.WhenRoundIsDirectCopy`, `ProcessDataLayout.WhenImageFollowsLog` | `ProcessDataLayout.AHoleShiftsTheImage`, `ProcessDataExchange.AHoleBreaksTheRound` |
| Slices are not reset: mapping the same slaves again makes them longer. | `ProcessDataRemapping.WhenSlicesAreRight` | `ProcessDataRemapping.ASecondMappingBreaksTheRound` |
| With inputs and outputs apart, the expected working counters count windows instead of slaves, and that of a write adds up over mappings. | `ProcessDataApart.WhenReadMatches`, `WhenWriteMatches`, `WhenBothMatch` | `ProcessDataApart.TwoWindowsCountTwice`, `ASecondMappingCountsTwice` |
| With inputs and outputs apart, sender and receiver do not agree on where the inputs are in the datagram. | `ProcessDataExchange.WhenApartInputsReturn` | the same lemma, for any group with inputs and outputs |
| A mailbox slave without an FMMU for its state bit is scheduled by somebody else's bit. | `MailboxStates.FullMailboxesAreScheduled` | `MailboxStates.NeighbourIsScheduledToo` |
| After a failure for an earlier datagram of a group, a later one can hold an index without an entry. | `Resources.WhenAlwaysPaired`; for one send, `WhenLrwGroupIsPaired` and `WhenLwrGroupIsPaired` | `Resources.AnIndexAlone` |
| A queue entry taken without waiting makes the semaphore wrong. | `PoolProtocol.WhenTheCountIsExact` | `PoolProtocol.BypassWastesAWait` |
| A send on an index that is still on the wire makes the earlier one vanish without being counted. | `WireAccounting.WhenNothingIsOverwritten` | `WireAccounting.OverwritingLosesTheCount` |
| An SDO download overlooks an abort of a segment in the middle. | `SdoDownload.WhenDownloadSucceeds` | `SdoDownload.AbortInTheMiddleIsOverlooked` |
| An SDO download through a mailbox below 16 bytes, or above a pool entry, is cut. | `SdoDownload.DownloadRoundTrip`, `MessagesFit`, `WhenEntriesSuffice` | `SdoDownload.AMailboxTooShort`, `AMailboxTooLong` |
| A file is written in packets of the size of the read mailbox, and cut to the write mailbox. | `FileOverEtherCat.WhenFileArrives` | `FileOverEtherCat.AShorterWriteMailbox` |
| Fragments of an Ethernet frame or an SoE value are cut to a pool entry when the mailbox is longer. | `EthernetOverEtherCat.WhenFrameArrives`, `ServoOverEtherCat.WhenValueArrives` | `EthernetOverEtherCat.AFragmentTooLong`, `ServoOverEtherCat.AFragmentTooLong` |
| An Ethernet frame that fills its last fragment is never marked as complete. | `EthernetOverEtherCat.WhenFrameIsComplete` | `EthernetOverEtherCat.AFullFragmentNeverEnds` |
| A file that fills its last packet is read until the read times out. | `FileOverEtherCat.FileRoundTrip` | `FileOverEtherCat.AFullPacketTimesOut` |
| An SoE read that asks for the length as well never gets both the length and the value right. | `ServoOverEtherCat.LongValueWithoutLength`, `ShortValueWithoutLength` | `ServoOverEtherCat.ALongValueIsLost`, `AShortValueIsWrong` |
| A propagation delay wraps at 32 bits. | `PropagationDelay.DelayGrowsDownTheTree` | `PropagationDelay.ADelayThatWraps` |

## Model

| member | source | states |
|---|---|---|
| Topology.SearchParent | src/ec.c:856-879 | the backward search over a list of slaves returns the parent that the scan function gives for their link counts |
| Topology.CountLinks | src/ec.c:846-854 | exactly the ports whose two status bits say "loop open, communication established" are collected, and counted |
| Topology.OpenByStatus | src/ec.c:848-853 | for every low byte and every four two-bit states, the open ports of the status word made up of them are those in state 2, and their number is the number of states that are 2 |
| Topology.ScanSlave | src/ec.c:838-880 | one round of the scan: link count, active ports and parent of one slave, and nothing of any other; an unanswered status leaves the parent alone |
| Topology.ScanSlaves | src/ec.c:838-882 | the whole scan stores for every slave what its own and the earlier status words say |
| Topology.ScanIsExact | src/ec.c:856-879 | on the link counts of any tree with at most three children a slave, the scan returns the true parent of every slave, and whenever it has a parent the splitting slave was found by the counter, never by the fallback alone |
| Topology.SkipForest | src/ec.c:860-878 | passing a whole forest lowers the counter by its number of trees and never stops the scan |
| Topology.LinksDetermineTree | src/ec.c:856-880 | two different trees never report the same link counts, so the scan has only one right answer |
| Topology.ChildCount | src/ec.c:846-852 | every slave of a tree is the parent of one slave less than it has links |
| Topology.ScanRebuildsTree | src/ec.c:838-880 | if every slave answers and reports one open port per link, the scan stores the link count, the parent and as many active ports as links for every slave of the tree, whatever was stored before |
| PortOrder.GetPreviousActivePort | src/dc.c:130-147 | the loop over the reverse table returns the closest active port backwards in the ring, and the port itself if there is no other |
| PortOrder.GetAndConsumeNextAvailablePort | src/dc.c:150-166 | the loop over the forward table returns the closest available port forwards in the ring and removes exactly that one; with nothing available it returns the port itself |
| PortOrder.TheRing | src/dc.c:126-127 | from port 0 a frame comes to 3, 1, 2 and 0 again, and so around from every port |
| PortOrder.PreviousIsClosest | src/dc.c:130-147 | the previous active port is active, and one to three steps in front of the port with no active port between them; without another one it is the port itself |
| PortOrder.NextIsClosest | src/dc.c:150-166 | the next available port is available, and one to four steps behind the port with no available port between them; without one it is the port itself |
| PortOrder.TablesFollowRing | src/dc.c:126-127 | the forward table lists the ring 0, 3, 1, 2 forwards from every port, the reverse table backwards |
| PortOrder.PathIsPermutation | src/dc.c:126-127 | the path from the entry port visits every active port exactly once |
| PortOrder.PreviousOnPath | src/dc.c:130-147 | the previous active port of the k-th port of a path is the (k-1)-th, and that of the first is the last |
| PortOrder.TakeOnPath | src/dc.c:150-166 | when n children have taken their ports, the next one is given the port number n+1 of the path |
| DistributedClocks.FindEntryPort | src/dc.c:333-343 | the loop over the ports returns the entry port, or -1 without active ports |
| DistributedClocks.EntryIsEarliest | src/dc.c:333-343 | the entry port is active and latched the smallest time of all active ports, the lowest-numbered one of several |
| DistributedClocks.NoEntryWithoutPorts | src/dc.c:333-343 | there is no entry port if and only if no port is active |
| DistributedClocks.FindClockParent | src/dc.c:391-398 | the walk up the parents returns the clock parent |
| DistributedClocks.ClockParentIsNearest | src/dc.c:391-398 | the clock parent is the n-fold parent for the smallest n for which that one takes part; it is negative if and only if no ancestor does |
| DistributedClocks.ClockParentBehindOther | src/dc.c:391-398 | of three slaves in a line, the middle one without clocks, the first one is the clock parent of the last |
| DistributedClocks.EnterSlave | src/dc.c:333-406 | entry port, available ports and own delay of one slave, nothing else of it |
| DistributedClocks.MeasureDelays | src/dc.c:402-425 | the delays of a slave wired to a given port of its parent, in 32-bit arithmetic with halving towards zero |
| DistributedClocks.DelayedWithoutWrap | src/dc.c:400-421 | without wraps, half of the time towards the slave and back, less the time behind it, and 20 ns more, is added to the delay of the parent, behind the time from the entry of the parent to its previous port |
| DistributedClocks.DelayedBackwards | src/dc.c:422-425 | a slave that the frame does not enter at port 0 adds half of the time from port 0 to its entry, and 20 ns more |
| DistributedClocks.ConfigureSlave | src/dc.c:301-431 | one round of the configuration changes the slave and takes one port of its clock parent, and of every other slave nothing but the available ports; a slave that takes no part has all its ports available and loses its latched times |
| DistributedClocks.DcConfig | src/dc.c:301-439 | the loop over all slaves leaves what that many rounds leave |
| DistributedClocks.RoundKeepsBus | src/dc.c:301-431 | configuring changes neither the wiring nor, for slaves that take part, active ports and latched times |
| DelayMeasurement.PortsAreAssigned | src/dc.c:303-416 | on a bus whose slaves latched the frame along their paths, every slave finds its true entry port, the k-th child of a slave gets the k-th active port after the entry port, and no port is left over |
| DelayMeasurement.SiblingsApart | src/dc.c:414-416 | two children of one slave are wired to different ports |
| DelayMeasurement.OwnDelay | src/dc.c:403-406 | the stored delay of what is behind a slave is the time between the frame coming in and leaving its last port |
| DelayMeasurement.DelaysAreSpans | src/dc.c:414-420 | the k-th child stores the time between the frame leaving the parent towards it and coming back, and the time until the frame left towards it |
| DelayMeasurement.DelaysAddUp | src/dc.c:402-420 | the delay of the previous slaves is the sum over the earlier siblings, and the sum over all children is the parent's own delay |
| PropagationDelay.DelayAlongLink | src/dc.c:419-425 | along one link the stored delay is the parent's plus the link, and not smaller, if and only if the sum fits a 32-bit number |
| PropagationDelay.DelayGrowsDownTheTree | src/dc.c:402-425 | the stored delay of a slave and all slaves in front of it is the sum of their links, computed from latched times and wiring alone, and never gets smaller on the way, if and only if that sum fits a signed 32-bit number |
| PropagationDelay.ADelayThatWraps | src/dc.c:421-421 | on a bus of three slaves whose delay is seven more than the largest number, the stored one is smaller than that of the slave in front |
| DelayMeasurement.ScannedTreeIsBus | src/ec.c:838-880 | on a tree of slaves that all take part, the parents and ports that the scan stores are a bus as the delay theorems need it |
| Datagrams.FrameRoundTrip | include/libethercat/datagram.h:57-204 | the receiver's walk over the bytes of a frame sees exactly the datagrams that were put into it |
| Datagrams.PaddingIsIgnored | src/hw.c:183-209 | the receiver sees exactly the datagrams that were put into a frame, whatever padding comes behind them |
| Datagrams.WalkChain | include/libethercat/datagram.h:86-205 | walking the bytes of a chain of datagrams by their announced lengths gives the datagrams back, whatever comes behind the chain |
| Datagrams.ChainAppend | include/libethercat/datagram.h:164-183 | appending a datagram sets the "more follows" bit of the one before and clears its own |
| Datagrams.BuiltIsRead | include/libethercat/datagram.h:57-86 | for every command, index, address, bit and payload, a datagram made of them is read with that index, from its second byte, that bit, its own length, and that payload from byte 10 on |
| Datagrams.MarkedIsBuilt | include/libethercat/datagram.h:164-183 | setting or clearing the "more follows" bit makes the datagram that is built with it, and changes nothing else of it |
| Datagrams.FrameLayout | src/hw_sock_raw.c:309-333 | a frame is a broadcast of EtherType 0x88A4, has its own length in eleven bits, lowest byte first, and type 1, and the datagrams behind its 16 header bytes |
| Datagrams.OtherTypeIsIgnored | src/hw.c:183-186 | in a frame of another EtherType there is no datagram |
| FramePacking.PackKeepsAll | src/hw.c:234-284 | the frames, one after the other, hold the queue: in order, nothing lost, duplicated or split |
| FramePacking.PackFits | src/hw.c:245-252 | every frame fits the interface and holds at least one datagram |
| FramePacking.PackingIsOptimal | src/hw.c:234-284 | no split of the same queue into frames that fit uses fewer frames |
| FramePacking.PackParseRoundTrip | src/hw.c:186-287 | for every queue, walking all frames in order yields the queued datagrams in order, unchanged but for the "more follows" bit; in each received frame the bit is set on all datagrams but the last |
| Hardware.Hw.constructor | src/hw.c:91-111 | nothing queued, nothing on the wire, all 256 slots empty |
| Hardware.Hw.Enqueue | src/hw.c:136-156 | the slot of the index is empty afterwards and all others are what they were; the loss counter goes up by one if it was not empty; the entry is queued at the end of the queue of its priority, and the other queue stays |
| Hardware.Hw.SendIfFull | src/hw.c:245-252 | the open frame goes out exactly when nothing is queued or the next datagram does not fit; otherwise nothing is sent and the frame stays open |
| Hardware.AppendDatagram | src/hw.c:266-275 | the bytes of the frame become those of the chain with one datagram more, and its length grows by as much |
| Hardware.MarkNext | include/libethercat/datagram.h:180-183 | exactly one header bit of the last datagram changes |
| Hardware.Hw.TxPool | src/hw.c:219-287 | the byte-level loop leaves queue, slots, buffers and wire as the packing says, with any number of frame buffers |
| Hardware.Hw.Tx | src/hw.c:329-342 | what is queued with high priority is transmitted first, then what is queued with low priority, on what buffers are left |
| Hardware.TransmissionSplitsQueue | src/hw.c:234-284 | the queue splits into what went out, at most one dropped datagram and what stays; one is dropped if and only if packing needs more frames than there are buffers |
| Hardware.TransmissionIsReceived | src/hw.c:186-287 | what went out is what the receiver sees on the wire, datagram by datagram |
| Hardware.Hw.Dispatch | src/hw.c:187-203 | the slot of the index is empty afterwards and all others are what they were; there is one callback more if it was not empty |
| Hardware.Hw.ProcessRxFrame | src/hw.c:165-209 | exactly the datagrams of the frame are dispatched, in order; success means that somebody was called back; other frames change nothing |
| Hardware.NotedAllKeeps | src/hw.c:279 | noting what is transmitted keeps the history of every index in order |
| WireAccounting.RunKeeps | src/hw.c:136-279 | every run of enqueueing, transmitting, receiving anything in any order, and giving up, keeps the table and the history consistent |
| WireAccounting.StepsOnSlots | src/hw.c:136-279 | a transmission puts its entry into the slot of its index, enqueueing and withdrawing empty it, and only what enqueueing finds in it counts as lost |
| WireAccounting.ReceivingOnSlots | src/hw.c:187-203 | receiving a frame of any indices empties exactly their slots, and loses nothing |
| WireAccounting.EverySendIsAccountedFor | src/hw.c:136-279 | for every index, sends equal callbacks plus losses counted, withdrawn and overwritten, plus one while its slot is taken; the loss counter is the number of losses |
| WireAccounting.NoSendIsCalledTwice | src/hw.c:187-203 | every callback answers an earlier send of its index with the same entry, nothing happened to the index in between, and no two callbacks answer the same send |
| WireAccounting.WhenNothingIsOverwritten | src/hw.c:136-279 | no send of a run is overwritten if and only if no index is transmitted while the last thing that happened to it was a transmission |
| WireAccounting.DisciplineHelps | src/hw.c:136-279 | one sufficient discipline: if no index is queued twice and only queued datagrams are transmitted, no send is overwritten, and a queued index has an empty slot |
| WireAccounting.QueuedSinceLast | src/hw.c:136-279 | in such a run an index is queued if and only if the last thing done to it, of enqueueing and transmitting, was the former |
| WireAccounting.OverwritingLosesTheCount | src/dc.c:95-107 | a datagram with index 0 that goes out without being enqueued, as the measurement of the packet duration sends it, makes a send under that index vanish uncounted |
| Pools.Pool.constructor | src/pool.c:63-84 | all entries are available, in order |
| Pools.Pool.Get | src/pool.c:119-151 | the first entry is taken and, with a timeout, the semaphore is counted down first; a timeout changes nothing; an untimed get leaves the semaphore alone |
| Pools.Pool.Put | src/pool.c:196-206 | the entry goes to the end and the semaphore up by one |
| Pools.Pool.PutHead | src/pool.c:213-223 | the entry goes to the front and the semaphore up by one |
| Pools.Pool.Remove | src/pool.c:158-165 | the entry is gone, the others keep their order, the semaphore still counts it |
| PoolProtocol.RunsAreBalanced | src/pool.c:119-223 | under every interleaving of timed and untimed gets, removes and puts, semaphore plus claimed waits plus one between insert and post is the queue length plus what was bypassed less what was wasted |
| PoolProtocol.NoWakeupIsLost | src/pool.c:119-223 | semaphore plus claimed waits never falls below the queue length but for an entry just being posted: a waiter blocks only while every queued entry is claimed |
| PoolProtocol.LockProtects | src/pool.c:119-223 | while a thread holds the lock of a pool, no step of any thread changes its queue, nobody else gives the lock away, and the thread can go on |
| PoolProtocol.IdleThreadsCanCall | src/pool.c:119-165 | an idle thread can time out or get without a timeout at any time, wait if and only if the semaphore is above 0, and remove if and only if the lock is free |
| PoolProtocol.UninterruptedGet | src/pool.c:119-151 | a timed get whose steps nobody interrupts is enabled throughout, takes the first entry and counts down, and changes nothing else |
| PoolProtocol.UninterruptedTry | src/pool.c:119-151 | a get without a timeout takes the first entry in the same way, and leaves the semaphore alone |
| PoolProtocol.UninterruptedPut | src/pool.c:196-223 | a put whose steps nobody interrupts is enabled throughout, has the entry at the end or in front, counts up, gives the lock back and changes nothing else |
| PoolProtocol.InexactnessIsBypass | src/pool.c:119-165 | the count is exact if and only if every entry taken without waiting was made up for by a wait that found nothing, and only then can a wait find nothing |
| PoolProtocol.WhenTheCountIsExact | src/pool.c:119-165 | the count is exact in every state of a run if and only if no step of the run takes an entry without a claim |
| PoolProtocol.WaitedGetsAreExact | src/async_loop.c:61-105 | if every get waits, the count is exact under every interleaving, so a successful wait always finds a message |
| PoolProtocol.BypassWastesAWait | src/pool.c:119-151 | one get without waiting is enough for a later wait to succeed on an empty queue |
| PoolProtocol.EntriesArePartitioned | src/pool.c:119-223 | no interleaving loses or duplicates an entry |
| PoolProtocol.QueueAfter | src/pool.c:119-223 | one step takes the first entry, which the thread then holds, or puts one in front or at the end, or takes a given entry out of the middle; the others keep their order |
| PoolProtocol.FirstInFirstOut | src/pool.c:119-206 | under every interleaving without removes and puts in front, what was taken, followed by what is queued, is what was queued at first, followed by what was put, in that order |
| AsyncLoop.Loop.constructor | src/async_loop.c:321-350 | all messages are available, nothing is scheduled, and groups may be checked from now on |
| AsyncLoop.Loop.Schedule | src/async_loop.c:279-295 | the request is scheduled behind the others, unless all messages are in use |
| AsyncLoop.Loop.CheckGroups | src/async_loop.c:271-295 | a group check is scheduled only when the timer has expired, which starts again for 1,000,000,000 ns even when there is no message left |
| AsyncLoop.Loop.CheckAll | src/async_loop.c:262-268 | within the second, checking all groups schedules a check of the first one alone |
| AsyncLoop.Loop.Step | src/async_loop.c:192-234 | one step executes the oldest request that is scheduled and not done, and returns its message |
| AsyncLoop.MessagesStayPartitioned | src/async_loop.c:61-350 | under every interleaving each of the messages is in exactly one place: available, scheduled, or with one thread |
| Resources.Master.constructor | src/idx.c:100-122 | 256 indices and all pool entries are free, nobody holds anything |
| Resources.Master.IndexInit | src/idx.c:100-122 | the index queue is filled with 0 to 255 in order |
| Resources.Master.IndexGet | src/idx.c:57-77 | the first index is taken, or none if there is none |
| Resources.Master.IndexPut | src/idx.c:83-91 | the index goes to the end of the queue |
| Resources.Master.Prepare | src/ec.c:1715-1737 | index and entry for one cyclic datagram: what it holds is kept, what it lacks is taken from the front, and a missing entry sends the index to the end of the queue; an earlier failure is passed on |
| Resources.Master.SendProcessDataGroup | src/ec.c:1703-1881 | the resource handling of one send: LRW, or LWR and LRD, then the mailbox states, with a failure carried over to the next; it succeeds if and only if every datagram of the group then holds what it needs; other groups and transfers stay |
| Resources.SentIsAsking | src/ec.c:1703-1881 | the send of a group as one piece is what its datagrams asked for one after the other come to when nobody interrupts |
| Resources.TransferRunsThrough | src/ec.c:1430-1518 | a transfer whose two halves nobody interrupts is enabled as long as there are an index and an entry, and ends with the same free ones |
| Resources.ReturningIsTeardown | src/ec.c:1061-1076 | the teardown as one piece is what returning group by group comes to when nobody interrupts |
| Resources.Master.BeginTransceive | src/ec.c:1430-1437 | a synchronous transfer takes the first index and the first entry, or sends the index to the end of the queue, or fails without an index; the other transfers stay |
| Resources.Master.EndTransceive | src/ec.c:1517-1518 | the transfer is gone and the others keep their order; its index and its entry are the last ones of their queues; the groups stay |
| Resources.BeginThenEnd | src/ec.c:1430-1518 | a transfer that begins with resources and ends leaves the other transfers and the groups as they were, and the same free indices and entries, those it had at the end |
| Resources.Master.Teardown | src/ec.c:1061-1076 | on the way to PREOP the LRW datagram of every group holds nothing any more, what it held is appended to the free ones in the order of the groups, and nothing else changes |
| Resources.TeardownFrees | src/ec.c:1061-1076 | whatever index or entry an LRW datagram held is among those the teardown returns |
| Resources.ResourcesAreConserved | src/idx.c:57-122 | over every run, including exhaustion and other threads between the datagrams of a send, each of the 256 indices and each pool entry is in exactly one place |
| Resources.NobodySharesAResource | src/idx.c:57-91 | what one group holds is held once, by no other group and no transfer, and is not free |
| Resources.FirstOnesArePaired | src/ec.c:1715-1780 | over every run the datagrams asked for first hold both an index and an entry, or neither |
| Resources.WhenAcquirePairs | src/ec.c:1843-1861 | asking leaves a datagram with both or neither if and only if nothing has failed before, it has its entry, or it has nothing and no index is free |
| Resources.WhenLrwGroupIsPaired | src/ec.c:1711-1861 | an uninterrupted send of an LRW group leaves its mailbox state datagram paired unless that has no entry, the LRW datagram cannot get what it lacks, and there is an index, its own or a free one |
| Resources.WhenLwrGroupIsPaired | src/ec.c:1757-1861 | the same for the later datagrams of a group without LRW |
| Resources.WhenAlwaysPaired | src/ec.c:1711-1861 | all along a run, with other threads between any two datagrams, a datagram of a group holds both or neither if and only if no step takes an index for it after an earlier one has failed |
| Resources.AnIndexAlone | src/ec.c:1843-1861 | a run from the start, with as many transfers under way as there are entries, after which a send leaves the mailbox state datagram with an index and no entry |
| Resources.LaterSendMends | src/ec.c:1850-1861 | a later send that finds entries makes every datagram of the group paired again |
| ProcessDataMapping.Group.constructor | src/ec.c:188-208 | every group gets logical memory at 0x10000 times its number plus one, a mailbox state area of its own, and LRW with shared addresses |
| ProcessDataMapping.AddUp | src/ec.c:312-318 | the bytes of each direction of a slave, mailbox sync managers left out; empty ones make no difference |
| ProcessDataMapping.ProcessData | src/ec.c:303-318 | what is mapped of a slave without a mailbox is its sync managers that are not empty, in order; of one with a mailbox, the same of those from the third on |
| ProcessDataMapping.MailboxIsLeftOut | src/ec.c:303-428 | a slave with a mailbox needs the bytes, and gets the slices and the windows, of the slave without one that has only its further sync managers |
| ProcessDataMapping.MailboxIsNotMapped | src/ec.c:341-371 | with buffers apart, no process data window of a slave with a mailbox touches its mailbox buffers |
| ProcessDataMapping.MapSyncManagers | src/ec.c:358-428 | each sync manager with process data takes the next FMMU as long as there is one, with its window behind those of its direction, and the slices grow by what is mapped |
| ProcessDataMapping.WindowAt | src/ec.c:364-371 | FMMU j carries sync manager j: buffer, length, direction, and the start behind the earlier ones of its direction |
| ProcessDataMapping.MapOneSlave | src/ec.c:341-449 | a slave of the group mapped at its cursor, with the mailbox state in the first FMMU left |
| ProcessDataMapping.MapSlaves | src/ec.c:341-455 | the loop over the slaves maps those of the group in order, leaves the others as they are, and counts cursor and expected working counters |
| ProcessDataMapping.CreateLogicalMappingOverlapping | src/ec.c:284-465 | all lengths are the sum of the longer directions; every slave is mapped at its cursor; the expected counter is that behind the last slave, and the state area is the fewest bytes that hold all bits |
| ProcessDataMapping.CreateLogicalMapping | src/ec.c:467-623 | the lengths are the sums of each direction; every slave is mapped at its cursor; the write counter is added to what it was; the state area is the fewest bytes that hold all bits |
| ProcessDataLayout.SharedCursor | src/ec.c:353-356 | with shared addresses a slave starts behind the longer direction of every slave in front of it |
| ProcessDataLayout.ApartCursor | src/ec.c:507-588 | with addresses apart, image and logical memory of each direction advance together |
| ProcessDataLayout.WhenApartCountersAreRight | src/ec.c:525-617 | with addresses apart, the expected counter of a read, or of a write, is the number of slaves with a window of that direction if and only if no slave has several, and too big otherwise; the LRW counter is made up of the two |
| ProcessDataLayout.WhenImageFollowsLog | src/ec.c:451-453 | the place in the image is the place in logical memory if and only if no slave in front has left a hole by lacking FMMUs; otherwise it lags behind |
| ProcessDataLayout.AHoleShiftsTheImage | src/ec.c:387-453 | behind a slave with one byte of outputs and no FMMU, a slave with one listens one byte behind the start of the group, while its slice is at the start of the image |
| ProcessDataLayout.SlicesAt | src/ec.c:372-377 | the slices of a slave start at its cursor and are as long as what was mapped |
| ProcessDataLayout.SlicesFollowWindows | src/ec.c:542-588 | with addresses apart, every slice lies in the image as its window lies in logical memory, even behind slaves that lack FMMUs |
| ProcessDataLayout.WindowsTile | src/ec.c:505-588 | with addresses apart, every address of the group is in exactly one window, those of the outputs in front, those of the inputs behind, none outside |
| ProcessDataLayout.StaysInGroup | src/ec.c:364-440 | with either mapping, every FMMU in use of a mapped slave lies in the logical memory of its group or in the area of its mailbox states |
| ProcessDataLayout.GroupsApart | src/ec.c:193-207 | as long as a group needs at most 64K and 1000 bytes of states, its slaves answer to no datagram of another group, and none of its FMMUs to both its process data and its states |
| ProcessDataExchange.SendProcessData | src/ec.c:1739-1754 | the payload is the outputs of the image and zeros behind them; nothing is sent for an empty group |
| ProcessDataExchange.ReceiveProcessData | src/ec.c:1601-1614 | with a wrong counter for the command in use, and such data to be skipped, nothing changes; otherwise byte k of the inputs is the one at k in the datagram with addresses shared or with LRW, and the one behind as many bytes as there are outputs with LRD and addresses apart; every other byte of the image stays |
| ProcessDataExchange.WhenApartInputsReturn | src/ec.c:1601-1614 | with addresses apart, for LRW as for LRD, the image gets the inputs of every datagram if and only if the group has no outputs or no inputs |
| ProcessDataExchange.TakingIsScattering | src/ec.c:364-371 | the output FMMUs of a slave, applied in order, store what a direct copy of its slice stores |
| ProcessDataExchange.GivingIsGathering | src/ec.c:395-402 | the input FMMUs of a slave, applied in order, put into the datagram what a direct copy collects |
| ProcessDataExchange.EveryBufferHoldsItsPart | src/ec.c:364-371 | after a direct copy, with disjoint output buffers, each buffer holds exactly its part of the slice |
| ProcessDataExchange.NothingElseIsStored | src/ec.c:364-371 | and no byte outside the output buffers changes |
| ProcessDataExchange.CounterIsExpected | src/ec.c:379-454 | the datagram comes back with 2 for every slave with outputs and 1 for every slave with inputs |
| ProcessDataExchange.MappingMakesNetwork | src/ec.c:284-465 | the overlapping mapping gives every slave of the group its windows behind the ones of the slaves in front of it, whether or not slaves lack FMMUs |
| ProcessDataExchange.MappedUpToAll | src/ec.c:341-455 | the list of slaves that the mapping loop leaves is the one the round theorem is about |
| ProcessDataExchange.LrwRoundIsDirectCopy | src/ec.c:299-464 | one LRW round gives slave i of the group exactly its output slice and stores exactly its inputs in its input slice, as long as no slave in front of it leaves a hole or nothing of it is mapped; the counter is the expected one; the rest of the image and the slaves of other groups do not change; for any number of slaves and sync managers |
| ProcessDataExchange.AHoleBreaksTheRound | src/ec.c:387-453 | behind a slave that leaves a hole, a slave gets a byte that is not in its slice |
| ProcessDataHoles.WhenRoundIsDirectCopy | src/ec.c:341-454 | slave i of the group exchanges by direct copy, for every image and all memories that hold its buffers, if and only if no slave of the group in front of it leaves a hole, or nothing of it is mapped |
| ProcessDataHoles.HoleBreaksTheRound | src/ec.c:451-453 | behind a hole, memories and an image for which the round is no direct copy |
| ProcessDataRemapping.WindowsAreNew | src/ec.c:364-440 | a second mapping of a slave gives it the FMMUs of a first one at the new cursor |
| ProcessDataRemapping.SlicesGrow | src/ec.c:372-408 | after n mappings the slices of a slave are n times as long as what is mapped, and where the first one put them |
| ProcessDataRemapping.WhenSlicesAreRight | src/ec.c:372-408 | the slices are as long as what is mapped if and only if there was one mapping, or nothing is mapped |
| ProcessDataRemapping.ASecondMappingBreaksTheRound | src/ec.c:372-408 | after a second mapping a round is no direct copy for any slave that carries something, whatever the memories and the image |
| ProcessDataApart.NoAddressIsCarriedTwice | src/ec.c:505-588 | with addresses apart, no address below the mailbox states is carried by two FMMUs of the mapped slaves, and none outside the group by any |
| ProcessDataApart.WhenAllIsCarried | src/ec.c:536-592 | every address of the group is carried by an FMMU if and only if every slave has one for each of its sync managers |
| ProcessDataApart.AnsweringSlaves | src/ec.c:541-590 | the working counter of a read, or of a write, that passes the mapped slaves counts those with a window of that direction |
| ProcessDataApart.WhenReadMatches | src/ec.c:575-615 | the counter expected of an LRD is the one that comes back if and only if no slave has several windows of inputs |
| ProcessDataApart.WhenWriteMatches | src/ec.c:473-616 | the counter stored for an LWR, which a mapping adds to the one before, is the one that comes back if and only if it was 0 before and no slave has several windows of outputs |
| ProcessDataApart.WhenBothMatch | src/ec.c:615-617 | the counter expected of an LRW is the one that comes back if and only if no slave has several windows of either direction |
| ProcessDataApart.TwoWindowsCountTwice | src/ec.c:550-616 | a slave with two windows of outputs: 2 are expected of a write, 1 comes back |
| ProcessDataApart.ASecondMappingCountsTwice | src/ec.c:616-616 | with one window of outputs each, a second mapping expects twice what comes back |
| ProcessDataApart.MappingMakesBus | src/ec.c:467-618 | the mapping with addresses apart places every slave of the group behind the ones in front of it, windows and slices in step, whether or not it has FMMUs enough |
| ProcessDataApart.LwrRoundIsDirectCopy | src/ec.c:1784-1798 | an LWR with the outputs of the image gives each slave of the group exactly its slice, and no other slave anything |
| ProcessDataApart.LrdRoundIsDirectCopy | src/ec.c:1829-1836 | an LRD comes back with exactly the inputs of every slave, each where its slice is behind the outputs |
| ProcessDataApart.LrwRoundIsDirectCopy | src/ec.c:1739-1754 | an LRW does both at once, and comes back with the layout of the image |
| MailboxStates.ReceiveStates | src/ec.c:1656-1681 | with the expected counter, reads are scheduled for the mailbox slaves of the group whose bit is set, otherwise none |
| MailboxStates.BitsOfByte | src/ec.c:1664-1670 | each of the eight bits of a byte is read from its own place, whatever the others are |
| MailboxStates.ScheduledExactly | src/ec.c:1660-1676 | a slave is scheduled if and only if it is in the group, has a mailbox, and the bit of its number is set; each one once and in order |
| MailboxStates.BitsAreDense | src/ec.c:430-449 | every bit number below the count belongs to exactly one slave |
| MailboxStates.MappedIsListed | src/ec.c:430-449 | with either mapping, a slave with an FMMU to spare reports exactly its full bit, at the bit number it keeps, inside the state area; every other slave is silent there |
| MailboxStates.CounterCountsBits | src/ec.c:442-442 | the datagram comes back counting the slaves that have a bit |
| MailboxStates.FullMailboxesAreScheduled | src/ec.c:1656-1676 | with either mapping, a slave with a bit is scheduled if and only if its own mailbox is full; one without if and only if the owner of the bit it was left with has a full one |
| MailboxStates.NeighbourIsScheduledToo | src/ec.c:1660-1676 | any two slaves with mailboxes and without process data, the first with one FMMU and the second with none: the full mailbox of the first schedules both |
| Mailboxes.WhenAllArrives | src/mbx.c:620-626 | what is written of several messages gives all their data if and only if each of them is no longer than a pool entry and the mailbox |
| SdoDownload.Await | src/coe.c:621-655 | replies are taken until an acknowledge or an abort, unexpected ones passed over; an abort code is stored exactly when the result is an abort, and it is the one of the abort that decides |
| SdoDownload.WhenSettled | src/coe.c:621-655 | the result is success, or an abort, if and only if an acknowledge, or an abort, comes with nothing but unexpected replies in front of it; with nothing else it is a read error, and a timeout without any reply |
| SdoDownload.FillSegment | src/coe.c:669-695 | the next segment carries as much of the rest as fits; its size field pads a short last one to seven bytes, and its length is that of header, data and padding, in 16 bits |
| SdoDownload.SendSegments | src/coe.c:657-738 | the segment loop sends the segments in order until all are out or a buffer is missing, with the result of the last one |
| SdoDownload.SdoWriteNormal | src/coe.c:551-745 | the whole transfer sends a beginning of the messages and returns what the last one tried came to, with lengths in 16 and 32 bits as the source computes them |
| SdoDownload.DownloadRoundTrip | src/coe.c:591-699 | decoding what arrives of the messages, each cut at the mailbox and at 1600 bytes, gives the buffer back if and only if it is empty, or the mailbox has at least 16 bytes and either at most 1600 or the buffer at most 1584 |
| SdoDownload.AMailboxTooShort | src/coe.c:591-613 | five bytes through a mailbox of 10: nothing arrives |
| SdoDownload.AMailboxTooLong | src/coe.c:591-613 | 1585 bytes through a mailbox of 2000: the last byte does not arrive |
| SdoDownload.EveryPrefixDecodes | src/coe.c:657-699 | as long as the buffer gets through, or only the first message is out, whatever happens on the way, the slave never gets anything but a beginning of the buffer |
| SdoDownload.MessagesFit | src/coe.c:591-691 | every message of every download fits into the mailbox if and only if the mailbox has at least 16 bytes |
| SdoDownload.SizeIsAnnounced | src/coe.c:591-613 | the first message, and no other one, announces the size of the whole buffer in 32 bits, and carries as much of it as fits behind 16 bytes, with its own length in 16 bits |
| SdoDownload.WhenEntriesSuffice | src/coe.c:603-695 | all messages fit into the pool entries they are built in if and only if the buffer has at most 1584 bytes or the mailbox 16 to 1600 |
| SdoDownload.ToggleAlternates | src/coe.c:658-679 | the toggle bit alternates from segment to segment, starting with 1 |
| SdoDownload.WhenDownloadSucceeds | src/coe.c:657-738 | success is reported if and only if the first and the last message were acknowledged and there was always a buffer |
| SdoDownload.WhatADownloadComesTo | src/coe.c:657-738 | unless it succeeds, a transfer returns what the first message came to, or the lack of a buffer at the first message that has none, or what the last message came to |
| SdoDownload.AbortInTheMiddleIsOverlooked | src/coe.c:702-735 | an aborted segment in the middle does not keep the transfer from succeeding |
| EthernetOverEtherCat.SendFrame | src/eoe.c:450-499 | the loop sends exactly the fragments of the frame |
| EthernetOverEtherCat.ProcessRecv | src/eoe.c:524-634 | the reassembly loop delivers what the specification says, and leaves the fragments behind it in the queue |
| EthernetOverEtherCat.WhatIsReceived | src/eoe.c:524-634 | for every queue of fragments: without a frame buffer, or with a first fragment that is not number 0, that fragment alone is dropped; otherwise the data up to the first fragment marked as the last one are delivered, complete if and only if there is one, and what is behind it stays queued |
| EthernetOverEtherCat.FragmentsRoundTrip | src/eoe.c:450-599 | receiving the fragments of any frame gives its bytes back, whatever follows them, with one mismatch for each offset its field cannot hold; the size is what the size field can hold of the length rounded up to 32, but exact for a single fragment to the virtual network; a frame that fills its last fragment goes on waiting |
| EthernetOverEtherCat.OffsetMatches | src/eoe.c:489-489 | an offset survives the six-bit field if and only if it is below 2048 |
| EthernetOverEtherCat.FragmentsAreNumbered | src/eoe.c:484-484 | the fragments are numbered from 0 on in six bits |
| EthernetOverEtherCat.LongestFragment | src/eoe.c:450-451 | a fragment is the longest multiple of 32 that fits into the mailbox behind ten bytes of headers |
| EthernetOverEtherCat.WhenSizeIsRight | src/eoe.c:488-488 | a frame length survives the field, rounded up, if and only if it is at most 2016 |
| EthernetOverEtherCat.WhenFrameIsComplete | src/eoe.c:485-486 | any frame arrives with all its bytes, and complete if and only if it does not fill its last fragment |
| EthernetOverEtherCat.AFullFragmentNeverEnds | src/eoe.c:485-486 | a frame of exactly one full fragment arrives with all its bytes, not complete |
| EthernetOverEtherCat.WhenFrameArrives | src/eoe.c:450-495 | a frame gets into the write mailbox completely if and only if it is empty or its first fragment fits into a pool entry |
| EthernetOverEtherCat.AFragmentTooLong | src/eoe.c:450-495 | 1591 bytes through a mailbox of 2000 do not arrive completely |
| ServoOverEtherCat.WriteFragments | src/soe.c:359-447 | the loop sends the fragments in order until a buffer is missing; the status says whether any of them was answered |
| ServoOverEtherCat.ReadFragments | src/soe.c:281-332 | fragments are taken until one that is not marked incomplete, and stored as long as there is room |
| ServoOverEtherCat.WhatIsRead | src/soe.c:281-332 | for all fragments that come in: with a length, the data up to the first one that is not incomplete are stored, cut off at that length; success if and only if there is such a fragment; the elements are those of the first |
| ServoOverEtherCat.ValueRoundTrip | src/soe.c:301-416 | into a buffer with a given length, the fragments of any nonempty value are read back, cut off at that length, whatever follows them |
| ServoOverEtherCat.LongValueWithoutLength | src/soe.c:301-324 | without a length, a value of several fragments is read back completely if and only if its number of whole fragments fits 16 bits, and then the length reported is too big |
| ServoOverEtherCat.ALongValueIsLost | src/soe.c:301-324 | a value of 65536 full fragments is read as nothing when no length is given |
| ServoOverEtherCat.ShortValueWithoutLength | src/soe.c:301-324 | without a length, a value of one fragment is stored if and only if its parameter number is not 0, and its length is right if and only if it is |
| ServoOverEtherCat.AShortValueIsWrong | src/soe.c:301-324 | a value of one fragment is not stored for parameter number 0, and gets twice its length for 1 |
| ServoOverEtherCat.WhenWriteSucceeds | src/soe.c:382-447 | a write reports success if and only if every fragment went out and at least one of them was answered |
| ServoOverEtherCat.WhenWriteFails | src/soe.c:382-447 | a write runs out of buffers if and only if a fragment found none; it times out if and only if all had one and none was answered |
| ServoOverEtherCat.FragmentsCountDown | src/soe.c:392-416 | all fragments of a value but the last are marked incomplete and count down in 16 bits those that are left; the last one has the parameter number |
| ServoOverEtherCat.WhenValueArrives | src/soe.c:362-409 | a value gets into the write mailbox completely if and only if its first fragment fits into a pool entry |
| ServoOverEtherCat.AFragmentTooLong | src/soe.c:362-409 | 1591 bytes through a mailbox of 2000 do not arrive completely |
| FileOverEtherCat.WriteData | src/foe.c:438-508 | the loop sends the packets, whose size goes by the read mailbox, in order until one is not acknowledged, with the status of the last one tried |
| FileOverEtherCat.LongestPacket | src/foe.c:440-442 | a packet of a write holds 12 bytes less than the read mailbox, and with a mailbox below 12 bytes the difference wraps at 32 bits |
| FileOverEtherCat.WhenFileArrives | src/foe.c:440-472 | a file gets into the write mailbox completely if and only if it is empty or its first packet, whose size goes by the read mailbox, fits into the write mailbox and a pool entry |
| FileOverEtherCat.AShorterWriteMailbox | src/foe.c:440-472 | 100 bytes with a read mailbox of 128 do not arrive in a write mailbox of 64, but do the other way round |
| FileOverEtherCat.ReadData | src/foe.c:287-350 | packets are appended and acknowledged by number until one is shorter than the mailbox |
| FileOverEtherCat.OthersArePassedOver | src/foe.c:287-350 | messages that are neither data nor an error make no difference to a read, wherever they come |
| FileOverEtherCat.FileRoundTrip | src/foe.c:308-508 | the packets of any file are read back completely, acknowledged 1, 2, 3, ...; the read ends with them if and only if the file is empty or not a multiple of the packet size |
| FileOverEtherCat.AFullPacketTimesOut | src/foe.c:308-350 | a file of exactly one full packet is read and acknowledged completely, and times out |
| FileOverEtherCat.PacketsAreNumbered | src/foe.c:442-472 | the packets are numbered from 1 without gaps |
| FileOverEtherCat.WhenWriteSucceeds | src/foe.c:478-508 | a write reports success if and only if every packet was acknowledged, and then all are out |
| FileOverEtherCat.WhenWriteFails | src/foe.c:478-508 | a write stops at the first packet that is not acknowledged, all in front of it being so, and returns the lack of a buffer, the error of the slave, or the missing acknowledge, as that one came to |
| Checksums.AddWords | src/veth.c:176-255 | the loop adds all words, an odd byte padded with zero, without overflowing 32 bits |
| Checksums.Fold | src/veth.c:187-231 | the folding loop ends, with the folded sum |
| Checksums.FoldedIsRemainder | src/veth.c:187-189 | folding keeps the sum modulo 65535 and tells 0 from 65535 |
| Checksums.FoldingIsOnesSum | src/veth.c:176-189 | adding first and folding at the end is the ones' complement sum of RFC 1071 that carries at every word |
| Checksums.ByteOrderIndependence | src/veth.c:172-193 | hosts of either byte order compute the same two bytes, and a receiver of the other order comes to the same verdict |
| Checksums.TwoStepsFold | src/veth.c:257-259 | two steps fold every 32-bit sum completely |
| Checksums.CalculateIcmpChecksum | src/veth.c:170-194 | the message verifies at the receiver, for any length, and only the check field changes |
| Checksums.CalculateIpChecksum | src/veth.c:240-264 | the 20-byte header verifies at the receiver, and only the check field changes |
| Checksums.AddPseudoHeader | src/veth.c:207-211 | the sum of the pseudo header of RFC 768 |
| Checksums.PseudoHeaderBytes | src/veth.c:207-211 | it is both IP addresses, a zero byte, 17, and the length of the UDP header |
| Checksums.CalculateUdpChecksum | src/veth.c:202-235 | the datagram verifies together with its pseudo header, its check field is never 0, and only it changes |

## Left out

- Hardware back ends, kernel modules, timers, logging and register access: sending appends to a wire, receiving takes any frames, and answers from slaves are parameters of the methods.
- Integer widths where they cannot matter in practice: logical addresses, image positions and working counters of the mapping are unbounded numbers.
- Port masks are sets of ports, and bytes of a datagram of mailbox states are eight booleans each.
- The linked list of DC slaves, the reference clock bookkeeping, and the register accesses of the DC configuration.
- The repeated latching on slaves of type ET1200, and buses where only some slaves take part: port consumption is exact only when every slave does. The delay to the first slave, a floating-point product, is a parameter.
- Resources.Master.Teardown: the sent marks of the datagrams, and the senders of the DC datagram and of the broadcast state datagram, which go on holding an index they returned.
- Memory semantics of an FMMU: outputs are taken from the datagram as it arrives and inputs from the memory as it was, as buffered sync managers do; bit-wise windows other than the one for a mailbox state are not interpreted.
- ProcessDataExchange.LrwRoundIsDirectCopy: it is about slaves of the group that are not mapped yet; what a second mapping does is the subject of `ProcessDataRemapping`.
- Subdevices of a slave: their slices are not modelled.
- The flag that the mailbox state callback stores for the mailbox handler, and when the handler then reads.
- Hardware.Hw.ProcessRxFrame: the walk stops at a datagram that announces more bytes than are left in the frame, where the source would go on reading behind the frame.
- Hardware.TransmissionSplitsQueue: every datagram is required to fit the interface alone, and its length field to be right; the source checks neither.
- EthernetOverEtherCat.SendFrame: a mailbox below 42 bytes is excluded, which has no room for a block of 32: there the loop of the source makes no headway.
- FileOverEtherCat.WriteData: a read mailbox of exactly 12 bytes is excluded, for which the packets are empty and the loop makes no headway.
- Buffer bounds, beyond where they cut what is sent: what happens to the memory behind a pool entry of 1600 bytes when a message is longer (`SdoDownload.WhenEntriesSuffice` says when it is), to mailbox messages that are longer than an Ethernet frame of 1518 bytes can carry, and to the buffer for the hexadecimal log of an SoE value, which holds 512 bytes.
- MailboxStates.ReceiveStates: the kept bit numbers are required to lie in the datagram; the source reads behind it otherwise.
- Failing mutex operations, and tasks being created or cancelled. A timer is a time, which has expired when it is reached.
- Pools.Pool.Remove: an entry that is not queued is left alone, where the source requires it to be queued.
- The step `Withdraw` of the wire accounting is the clearing of the sent mark when a synchronous transfer runs out of its overall time; that the transfer takes its entry out of the queue at every timeout is not a step of it. The semaphore of the datagram pool is not part of the resource model.
- The state ladders of the slaves and of the master, beyond the return of resources on the way to PREOP.
- Headers of mailbox messages that carry no data: counters, types, service codes, object indices, names and passwords; and the resends of the mailbox layer.
- SdoDownload.DownloadRoundTrip: the command field of a segment is not part of it; the source never sets a flag for the last segment, so the receiver of the model goes by the lengths.
- ServoOverEtherCat.ReadFragments: every answer is a read response; on any other the source goes on looking at a buffer it has returned.
- Expedited and complete-access transfers, uploads, the emergency ring, the master's own dictionary, the mailbox gateway, MII, and the EEPROM reader, which would add easy lemmas.
- The swap of Ethernet addresses and the header fields of an answer of the virtual network interface.
