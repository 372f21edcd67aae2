# ultrafast-feed: a Dafny model of the feed pipeline

ultrafast-feed receives UDP market data through AF_XDP sockets. The kernel writes packets into
frames of a shared region (the UMEM), one thread parses them into events, a lock-free
single-producer single-consumer (SPSC) ring hands the events to a consumer, and a capture file
stores events for replay. This project models those parts and proves what they keep in every run.

- **The SPSC ring** is a machine whose steps are single memory accesses: relaxed and acquire loads
  that may return stale stores, release stores that carry clocks, plain slot accesses checked for
  data races, pointers handed out by `peek`, and the three state queries from either thread
  (`SpscProtocol`, `SpscSafety`, `SpscTheorems`). The class as one thread sees it is proved against
  a queue (`SpscRing`), over the masked 64-bit index expressions (`RingIndex`, `Words`).
- **Frame ownership** is a machine of user and kernel steps over both circuits of a UMEM
  (`Frames`, `FrameRuns`, `FrameTheorems`); the allocator and the socket are classes over the
  libxdp rings whose methods are proved to be steps of it (`XskRings`, `XdpSockets`). `Region`
  covers the sizing of the mapping.
- **The packet view** is a set of accessors over a memory, proved inverse to an encoder written
  from section 3.1 of RFC 791 and from RFC 768 (`Bytes`, `Packets`, `FeedEvents`, `WireFormat`).
- **The feed handler** composes kernel, frames, parser, event ring and consumer in every
  interleaving (`Pipeline`, `PipelineTheorems`, `EndToEnd`); one turn of its loop is a class (`FeedHandlers`).
- **The capture file** is a codec on bytes (`CaptureFormat`), runs of a writer with I/O errors
  (`CaptureRuns`), the two classes (`Capture`) and the replay schedule (`Replay`).

Runs are sequences of steps. `Runs` says every step is possible when its turn comes and `Exec` gives
the state reached, so a statement about `Exec` of any list that `Runs` is a statement about every
reachable state. Index words, counters and offsets wrap at 2^64 where the code computes in 64 bits.

Four promises turn out to be conditional, each with the exact condition and a concrete failure:

- Receive and transmit frames are disjoint throughout a run if and only if the frames out for
  transmission never exceed `frame_count - min(fill_size, frame_count)`, because the free list also
  holds the frames given to the fill ring (`DisjointIffBounded`, `AllocOverlapsIff`,
  `OverlapAfterBound`).
- An event is a function of its own frame's bytes if and only if the payload copied, at most 64 bytes
  of what the UDP length field claims, ends inside the frame (`WithinFrameIff`, `ShortFrameLeaks`).
  The comment at include/ultrafast/packet.hpp:51-52 promises more; the model follows the code.
- A capture with failed writes is certain to read back as the events whose write succeeded if and only
  if no write succeeded after one that failed (`ReadsBackIffResults`); on the bytes left in the file, if
  and only if none succeeded after one that left part of a record (`ReadsBackIffClean`, `TornThenWhole`).
- A mapped region holds every frame if and only if `frame_size * frame_count`, rounded up to the
  page used, fits 64 bits (`RegionHoldsFrames`, `OverflowingRegion`).

Inputs from outside are parameters: what a load returns, what the kernel delivers and writes, how many
slots a libxdp ring grants, how many bytes a write takes, the clock, and the rounding of floating-point
operations. A floating-point rounding is any function on reals with the properties a statement names.

## Model

| member | source | states |
|---|---|---|
| SpscTheorems.FifoInEveryRun | include/ultrafast/spsc_ring_buffer.hpp:65-100 | in every interleaving, with stale loads, the items pop returned followed by the slots between the indices are the items push accepted, in order, and never more than N - 1 are held |
| SpscTheorems.NoUndefinedBehaviour | include/ultrafast/spsc_ring_buffer.hpp:65-110 | no run contains a data race or an access outside the array; the slot about to be written is never the one being read or pointed to, and its earlier item's read was published by a head store the producer acquired |
| SpscTheorems.StepRefinesQueue | include/ultrafast/spsc_ring_buffer.hpp:65-110 | every single access is a step of a plain queue: a successful push appends, a pop takes the front, a peek pointer shows the front, everything else changes nothing |
| SpscTheorems.QueueIsUnread | include/ultrafast/spsc_ring_buffer.hpp:65-100 | the array slots between the two stored indices are exactly the items accepted and not yet returned |
| SpscTheorems.HistoryIsOutcomes | include/ultrafast/spsc_ring_buffer.hpp:65-100 | the recorded histories are the results the calls of a run returned |
| SpscTheorems.PointeeIsFront | include/ultrafast/spsc_ring_buffer.hpp:102-110 | the pointer peek returned shows the oldest unread item, whatever the producer does, until the next pop |
| SpscTheorems.Refused | include/ultrafast/spsc_ring_buffer.hpp:66-70 | push is refused exactly when N - 1 items are unread as of the head it acquired |
| SpscTheorems.NothingSeen | include/ultrafast/spsc_ring_buffer.hpp:92-108 | pop and peek come back empty exactly when nothing is unread as of the tail they acquired |
| SpscTheorems.ProducerQueriesAreSafe | include/ultrafast/spsc_ring_buffer.hpp:114-130 | asked by the producer in any run, size never underestimates, "not full" means room and "empty" means empty |
| SpscTheorems.ConsumerQueriesAreSafe | include/ultrafast/spsc_ring_buffer.hpp:114-130 | asked by the consumer in any run, size never overestimates, "not empty" means an item and "full" means full |
| SpscTheorems.NotFullThenPushSucceeds | include/ultrafast/spsc_ring_buffer.hpp:65-74 | after full() is false in the producer its next push passes, whatever either thread does between |
| SpscTheorems.NotEmptyThenPopSucceeds | include/ultrafast/spsc_ring_buffer.hpp:92-110 | after empty() is false in the consumer its next pop or peek finds an item |
| SpscTheorems.IndexQueries | include/ultrafast/spsc_ring_buffer.hpp:114-130 | on the slots of counters less than a lap apart the three masked expressions decide exactly the difference of the counters |
| SpscSafety.WriteIsOrdered | include/ultrafast/spsc_ring_buffer.hpp:68-71 | a slot write happens after every earlier read of the slot |
| SpscSafety.ReadIsOrdered | include/ultrafast/spsc_ring_buffer.hpp:94-97 | a slot read happens after the write of the item it returns |
| SpscSafety.StepInv | include/ultrafast/spsc_ring_buffer.hpp:65-130 | every access of either thread keeps the protocol invariant: seen pops <= pops <= seen pushes <= pushes <= seen pops + N - 1, and what views, slots and clocks then hold |
| SpscRing.SpscRingBuffer.Push | include/ultrafast/spsc_ring_buffer.hpp:65-86 | appends to the queue held, or leaves it and returns false exactly when N - 1 items are held |
| SpscRing.SpscRingBuffer.Pop | include/ultrafast/spsc_ring_buffer.hpp:92-100 | removes and returns the oldest item, or nothing exactly when the queue is empty |
| SpscRing.SpscRingBuffer.Peek | include/ultrafast/spsc_ring_buffer.hpp:104-110 | the oldest item, left in place |
| SpscRing.SpscRingBuffer.Empty | include/ultrafast/spsc_ring_buffer.hpp:114-117 | true exactly when the queue is empty |
| SpscRing.SpscRingBuffer.Full | include/ultrafast/spsc_ring_buffer.hpp:119-123 | true exactly when N - 1 items are held |
| SpscRing.SpscRingBuffer.Size | include/ultrafast/spsc_ring_buffer.hpp:126-130 | the length of the queue, at most N - 1 |
| SpscRing.LiveSize | include/ultrafast/spsc_ring_buffer.hpp:114-130 | size, empty and full agree on the slots between any two indices |
| RingIndex.CapacityTest | include/ultrafast/spsc_ring_buffer.hpp:35-36 | the compile-time test on N accepts exactly the powers of two from 2 on |
| RingIndex.SuccIsNext | include/ultrafast/spsc_ring_buffer.hpp:67-67 | the masked increment goes round the ring |
| RingIndex.DistanceIsSteps | include/ultrafast/spsc_ring_buffer.hpp:129-129 | the masked, wrapping difference is the number of steps from head to tail |
| RingIndex.SlotIsMod | include/ultrafast/spsc_ring_buffer.hpp:43-43 | the slot of an unbounded counter is its remainder modulo the capacity |
| Words.BitAndBit | include/ultrafast/spsc_ring_buffer.hpp:43-43 | the conjunction of two words, bit by bit |
| Words.MaskIsMod | include/ultrafast/spsc_ring_buffer.hpp:43-43 | masking with 2^k - 1 is the remainder modulo 2^k |
| FrameTheorems.RxConservation | src/xdp_socket.cpp:102-135 | in every run of user and kernel steps each receive frame is in exactly one of fill ring, kernel, RX ring and user's hands, the total stays min(fill_size, frame_count) and none is lost |
| FrameTheorems.ReleaseNeverShort | src/xdp_socket.cpp:121-135 | in every run rx_release is granted a slot for every descriptor |
| FrameTheorems.HeldIsExclusive | src/xdp_socket.cpp:102-119 | in every run the frame under a held descriptor is nowhere else and under no other held descriptor |
| FrameTheorems.TxConservation | src/xdp_socket.cpp:141-189 | in every run, partial acceptance included, each offset is exactly once in free list, user, TX ring, kernel and completion ring, and alloc_frame returns the sentinel exactly when the free list is empty |
| FrameTheorems.DisjointIffBounded | src/umem.cpp:163-191 | receive and transmit frames stay disjoint over a run if and only if the outstanding count stays within frame_count - min(fill_size, frame_count) |
| FrameTheorems.AllocOverlapsIff | src/umem.cpp:180-187 | in a run within the bound, the next alloc_frame hands out a receive frame exactly when the bound is used up |
| FrameTheorems.OverlapAfterBound | src/umem.cpp:26-34 | one allocation more than the bound, from the start, overlaps, for every configuration with a receive frame |
| FrameTheorems.OffsetNamesFrame | include/ultrafast/umem.hpp:71-73 | frame offsets do not wrap, are never the sentinel and identify their frame |
| XdpSockets.Umem.constructor | src/umem.cpp:26-34 | the free list holds every offset, lowest first: the start of the transmit circuit |
| XdpSockets.Umem.PopulateFillRing | src/umem.cpp:163-178 | on an empty fill ring, the first min(fill_size, frame_count) offsets: the start of the receive circuit; in general, as many of them as were granted |
| XdpSockets.Umem.AllocFrame | src/umem.cpp:180-187 | the allocation step of the machine, last freed first, or the sentinel |
| XdpSockets.Umem.FreeFrame | src/umem.cpp:189-191 | the offset freed is the next one allocated; freeing an offset the caller holds is the free step of the machine |
| XdpSockets.XdpSocket.RxBurst | src/xdp_socket.cpp:102-119 | a receive step of the machine: the oldest descriptors, in order, leave the RX ring for the caller's array, the rest of which is untouched |
| XdpSockets.XdpSocket.RxRelease | src/xdp_socket.cpp:121-135 | a release step: the addresses unchanged, in order, as many as granted |
| XdpSockets.XdpSocket.TxBurst | src/xdp_socket.cpp:141-161 | a transmit step: the accepted prefix goes on the TX ring, the caller keeps the rest |
| XdpSockets.XdpSocket.TxComplete | src/xdp_socket.cpp:171-189 | a completion step: the oldest completed offsets go to the caller |
| Region.AlignUpIsLeast | src/umem.cpp:16-18 | without overflow, the least multiple of the alignment not below the size |
| Region.RegionHoldsFrames | src/umem.cpp:90-125 | on either page size, all frames at their 64-bit offsets lie inside the mapping if and only if the rounded size fits 64 bits |
| Region.OverflowingRegion | src/umem.cpp:93-112 | a concrete configuration that maps 4096 bytes for 2^52 + 1 frames |
| Region.FramesDisjoint | include/ultrafast/umem.hpp:71-73 | without overflow, distinct frames at their 64-bit offsets do not overlap |
| WireFormat.ParseInvertsEncode | include/ultrafast/packet.hpp:66-100 | for every well-formed frame, any IHL from 5 to 15, payload and padding, the accessors recover the ports and exactly the payload, reading only the frame |
| WireFormat.EventOfEncode | src/feed_handler.cpp:130-154 | the loop turns a well-formed frame into the event with its ports, source address, first 64 payload bytes zero-filled and injection time from the first eight, reading only the frame |
| WireFormat.SenderToEvent | include/ultrafast/synthetic_sender.hpp:154-158 | the event of the sender's frame carries its timestamp and its whole datagram |
| FeedEvents.ReadsStayNear | src/feed_handler.cpp:130-154 | for every frame and every value of its length fields, the event can be built with no byte readable from offset min(146, len + 64) on |
| FeedEvents.FittingReadsStayInside | include/ultrafast/packet.hpp:73-100 | when the UDP length fits the frame, the event can be built with no byte readable but the frame's |
| FeedEvents.EventAgrees | src/feed_handler.cpp:130-154 | the event depends on nothing but the headers and the bytes copied |
| FeedEvents.WithinFrameIff | include/ultrafast/packet.hpp:94-100 | the event depends on the frame's own bytes only, if and only if the bytes copied end inside the frame |
| FeedEvents.NextByteLeaks | src/feed_handler.cpp:150-154 | otherwise the byte after the frame shows in the event |
| FeedEvents.ShortFrameLeaks | include/ultrafast/packet.hpp:94-100 | a concrete such frame |
| PipelineTheorems.DeliveredInOrder | src/feed_handler.cpp:109-164 | in every run, popped events followed by the ring contents are the events queued; the k-th frame received was skipped exactly if not UDP, else queued or dropped as the event of the bytes the kernel delivered, whenever the bytes copied lie inside the frame, stamped with its batch's clock reading; and the event ring has no race |
| PipelineTheorems.CopyStaysInFrame | src/feed_handler.cpp:130-154 | the bytes copied lie inside the frame when the descriptor starts 146 bytes before its end or the UDP length fits the packet |
| PipelineTheorems.FrameIsEnough | src/feed_handler.cpp:130-154 | a descriptor that starts 146 bytes before the frame's end is parsed without reading outside the frame |
| EndToEnd.EncodedFrameDelivered | src/feed_handler.cpp:109-164 | in every run, a received frame delivered as the encoding of a well-formed datagram ends, queued or dropped, as the event with its ports, address and payload, wherever it lies in its frame |
| EndToEnd.SenderTimeDelivered | include/ultrafast/synthetic_sender.hpp:154-158 | in every run, a datagram of the synthetic sender ends as an event with the sender's timestamp and the batch's |
| EndToEnd.DroppedIffFull | src/feed_handler.cpp:156-158 | in every run a step drops a frame if and only if it is a push whose acquired head leaves N - 1 events unread |
| EndToEnd.EveryDropWasRefused | src/feed_handler.cpp:156-158 | every frame a run dropped had such a push |
| PipelineTheorems.CountersBalance | src/feed_handler.cpp:124-158 | in every run packets_dropped counts the dropped frames, and between batches packets_received is skipped + pushed + dropped |
| PipelineTheorems.BatchIsStable | src/feed_handler.cpp:109-164 | from rx_burst to rx_release the batch's frames are in no other hands and keep the bytes delivered; the thread exits with an empty batch |
| PipelineTheorems.StepInv | src/feed_handler.cpp:55-165 | every step of kernel, receive thread and consumer keeps frames, ring, histories and counters in agreement |
| FeedHandlers.BuildEvent | src/feed_handler.cpp:136-154 | assignment by assignment, the event of the frame, with no byte read but the headers and those copied |
| FeedHandlers.FeedHandler.HandleFrame | src/feed_handler.cpp:130-158 | skip, queue or count as dropped, decided by the parser and the room in the ring |
| FeedHandlers.FeedHandler.ProcessBatch | src/feed_handler.cpp:126-159 | with no consumer running, the events of the batch go in order into the room the ring has and the rest are counted |
| FeedHandlers.FeedHandler.RxTurn | src/feed_handler.cpp:109-164 | one turn of the loop: at most 64 descriptors, counted, processed, and all their addresses back in the fill ring; the receive circuit's invariant is kept |
| Bytes.LeRoundTrip | include/ultrafast/pcap_writer.hpp:58-60 | reading back a little-endian field of sufficient width gives the value written |
| Bytes.LeBytesOf | include/ultrafast/pcap_reader.hpp:74-76 | and writing back what was read gives the same bytes |
| CaptureFormat.DecodeRecord | include/ultrafast/pcap_writer.hpp:58-62 | decoding a record gives back all it keeps: both times, the length and all 64 payload bytes |
| CaptureFormat.LoopEventsAreValid | src/feed_handler.cpp:136-154 | every event the receive loop builds fits a record |
| CaptureFormat.PatchKeepsBody | include/ultrafast/pcap_writer.hpp:70-77 | patching the count changes the count and no byte of any record |
| CaptureFormat.ReadBack | include/ultrafast/pcap_reader.hpp:38-85 | a capture followed by anything and cut at any length past the header opens with its count and reads as exactly the first min(count, (L - 24) / 88) events |
| CaptureFormat.ExhaustedStays | include/ultrafast/pcap_reader.hpp:68-85 | once next() returned nothing it keeps returning nothing |
| Capture.RoundTrip | include/ultrafast/pcap_reader.hpp:38-85 | writing any list with any I/O errors on records, closing, opening and reading to the end gives the events whose write succeeded if none succeeded after a failure, and every event if none failed, projected to what a record keeps |
| CaptureRuns.CleanReadsBack | include/ultrafast/pcap_writer.hpp:53-77 | a run in which nothing succeeds after a torn record reads back as exactly the events whose write succeeded |
| CaptureRuns.ReadsBackIffClean | include/ultrafast/pcap_writer.hpp:53-77 | on the bytes each write left, that condition is exact |
| CaptureRuns.ReadsBackIffResults | include/ultrafast/pcap_writer.hpp:53-77 | on the results write_event returned: the events written are certain to read back if and only if no write succeeded after one that failed |
| CaptureRuns.AllKept | include/ultrafast/pcap_writer.hpp:53-66 | when every write succeeds every event is kept |
| CaptureRuns.TearShows | include/ultrafast/pcap_writer.hpp:53-66 | after a tear, a later success makes the reader return, for some list, an event that is none of those whose write succeeded |
| CaptureRuns.TornThenWhole | include/ultrafast/pcap_writer.hpp:53-66 | a concrete pattern of write results that fails |
| Capture.PcapWriter.constructor | include/ultrafast/pcap_writer.hpp:38-41 | an empty file gets what each of the four header writes took, unchecked |
| Capture.PcapWriter.WriteEvent | include/ultrafast/pcap_writer.hpp:53-66 | the file grows by the bytes of the record up to the first short write; true, and counted, exactly when all 88 were written |
| Capture.PcapWriter.Close | include/ultrafast/pcap_writer.hpp:70-77 | the count is written over its field and the file let go; a second call does nothing |
| Capture.CaptureAll | include/ultrafast/pcap_writer.hpp:38-77 | opening, writing any list and closing with any I/O errors anywhere leaves exactly the bytes taken, with those of the count over its field; the results say which events were written whole |
| Capture.PcapReader.Open | include/ultrafast/pcap_reader.hpp:38-64 | succeeds exactly on a complete header with the right magic and version, and stands at the first record |
| Capture.PcapReader.Next | include/ultrafast/pcap_reader.hpp:68-85 | field by field, the decoded record at the cursor, or nothing when the count is used up or the record incomplete |
| Capture.PcapReader.Rewind | include/ultrafast/pcap_reader.hpp:88-93 | from any position, back to where open left the reader |
| Capture.PcapReader.Drain | include/ultrafast/pcap_reader.hpp:68-85 | calling next() until it returns nothing gives everything readable from here and ends exhausted |
| Capture.PcapReader.ReplayAtRate | include/ultrafast/pcap_reader.hpp:106-144 | from any position and at any rate, one callback per readable event in file order with its scheduled time, up to the first undefined conversion; so repeated replays deliver the same events |
| Replay.ScheduleMonotone | include/ultrafast/pcap_reader.hpp:125-131 | with ordered injection times, a positive rate and no overflow all times are defined and never decrease, for any monotone rounding |
| Replay.UnitRateIsExact | include/ultrafast/pcap_reader.hpp:125-131 | at rate 1.0 and offsets up to 2^53 the gaps between the times are the original gaps |
| Replay.OffsetIsAccurate | include/ultrafast/pcap_reader.hpp:126-129 | at any positive rate whose quotient is zero or in the normal range, the offset is the original offset over the rate, to one nanosecond and twice the relative rounding error |

## Left out

- C++ memory model beyond per-location orders, monotone views and release/acquire clocks: no other fences, atomics or consume ordering, which the ring does not use.
- The move overload of push: elements are values, so it is the same operation as the copying one.
- libxdp and the kernel: rings enter by their contract (bounded FIFO; reserve grants n when n slots are free), the kernel as steps that may happen in any order; 32-bit ring indices do not wrap.
- mmap, creation and deletion of UMEM and sockets, poll, sendto and tx_kick: foreign calls; only success or failure of the mapping appears.
- Move operations, destructors and accessors: bookkeeping with nothing to prove.
- Restarting a stopped handler: a second populate_fill_ring is against its documented use; runs have one start.
- Pipeline: parsing one frame is one step; BatchIsStable shows that the bytes cannot change meanwhile.
- Pipeline: memory outside the receive frames may change at any time; the handler itself never transmits, and user writes into overlapping transmit frames are what DisjointIffBounded rules out.
- PipelineTheorems.DeliveredInOrder: when the UDP length claims more than the frame holds and the copy runs past the frame's end, it gives every field except the payload bytes and the injection time read from them, because the bytes beyond belong to no delivered frame.
- FeedHandlers.FeedHandler.RxTurn: the loop around a turn and the stop flag are in Pipeline; the rx_batch setting is not modelled because rx_loop never reads it.
- XskRings: slots are a map from index to entry, so their cyclic reuse inside libxdp is not captured.
- Capture.RoundTrip: the header and the count patch are written whole; stdio buffering and failures of flush or close are not modelled.
- Capture.PcapReader.Open: reopening is given the new file; that the handle of an earlier open is not closed is not captured.
- Capture.PcapReader.ReplayAtRate: what happens after an undefined conversion is not described; infinite and NaN rates and the sleep between callbacks are left out.
- IPv4 fragments, checksums, VLAN tags and the EtherType: the parser does not look at them.
- SyntheticSender beyond its payload, tools, benchmarks and tests: sockets, printing and statistics.
