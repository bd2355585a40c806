# reliable: a verified model of the endpoint protocol

reliable adds acknowledgements and fragmentation to an unreliable datagram transport. This project models the protocol
in four layers and proves what it promises, for every input and over every run.

1. **Sequence numbers** (`Sequence`, `Modular`). 16-bit numbers that wrap, the "newer than" test, and the unbounded
   packet numbers they stand for.
2. **The circular buffer** (`Buffers`, `Windows`). A class that works in place on two arrays indexed by
   `sequence % n`, and the integer map with a sliding window that it refines.
3. **The wire format** (`Codec`, `CodecLaws`). Cursor-driven writers and readers, the declarative encoding and decoding
   they are proved against, and the laws of these.
4. **The endpoint** (`Reassembly`, `Protocol`, `Invariants`, `Endpoints`). A state machine over values, its invariants
   over all runs, and a class with the fields of the source whose methods are proved to make exactly these
   transitions, the self-recursive receive included.

On top of these: what the transmit closure is handed and the length gate (`Transmitted`), what each counter counts
(`Counting`), at-most-once acceptance and exact ack bits (`ReceiveSide`), exactly which datagrams are handed over and
which repeats are dropped (`Duplicates`), what the wire standard promises and the endpoint does not keep
(`StandardClaims`), exactly-once ack reporting and the loss counts (`SendSide`), the fragmentation round trip under
reordering, repetition and other traffic (`RoundTrip`), the conservation laws of the counters (`Accounts`), two
endpoints over a network that loses, duplicates, reorders and delays (`Network`, `Delivery`, `EndToEnd`), that this
network carries what the endpoints send, and the round trip over it (`NetworkRuns`, `NetworkRoundTrip`), at-most-once
acceptance in the sender's packet numbers and the largest ages for it (`Freshness`, `AgeLimits`), runs of the two that
show where a promise ends (`OneByteRuns`, `SpliceRun`), and the C reference of the same machine, its codec included,
with the proof that both behave alike on every run (`CCodec`, `CReference`, `CEquivalence`).

Conventions. `transmit` is the sequence of datagrams a send returns. `process` is a function from sequence and payload
to an answer, a new one for every call and quantified over; the calls made are returned. Time is a `real` that only gets
stored. A theorem about runs starts at creation; `reset` starts a new history, except in the theorems on counters and on
the C reference, where runs contain resets.

## Model

| member | source | states |
|---|---|---|
| Sequence.GreaterThanIsForwardDistance | src/lib.rs:102-104 | "newer" is exactly a forward distance of 1 to 32767, or of 32768 with the larger number first |
| Sequence.ExactlyOneOrder | src/lib.rs:102-109 | of newer, older and equal exactly one holds, ties at distance 32768 included |
| Sequence.TransitiveExactlyWithinHalf | src/lib.rs:102-104 | exactly when two steps of "newer" compose: the order is total but not transitive |
| Sequence.ComparesPacketNumbers | src/lib.rs:102-109 | on integers less than 32768 apart the 16-bit test is the integer order; at 32768 the larger remainder wins |
| Codec.EncodeHeader | src/packet.rs:24-86 | a header takes 4 to 9 bytes and bit 0 of its first byte is clear |
| Codec.BuildPrefix | src/packet.rs:30-52 | the prefix byte built up flag by flag is the one the layout calls for |
| Codec.WriteAckBytes | src/packet.rs:66-85 | the cursor moves over the transmitted ack-bits bytes only; all-ones bytes are left out, nothing else changes |
| Codec.WritePacketHeader | src/packet.rs:24-86 | the cursor-driven writer puts exactly the encoded header at the front of the buffer, returns its length, and leaves the rest alone |
| Codec.ReadAckByteAt | src/packet.rs:124-159 | one step of the reader: byte i of the ack bits is replaced if it was transmitted, the others stay, the cursor moves accordingly |
| Codec.ReadPacketHeader | src/packet.rs:88-159 | the cursor-driven reader accepts and returns exactly what the declarative decoder does, error paths included |
| Codec.ReadFragmentHeader | src/packet.rs:161-261 | the reader of fragment headers, with its nested read and its re-encoding check, is the declarative decoder |
| CodecLaws.EncodedLength | src/packet.rs:24-86 | the length is 4, plus 1 if the ack is more than 255 behind, plus one for each ack-bits byte that is not all ones |
| CodecLaws.HeaderRoundTrip | src/packet.rs:24-159 | reading an encoded header with any bytes behind it returns the same triple and consumes exactly the encoding |
| CodecLaws.EncodingsArePrefixFree | src/packet.rs:24-159 | if one encoding is a prefix of another, both encode the same triple: the encoder is injective and prefix-free |
| CodecLaws.CanonicalExactlyWhenNotWasteful | src/packet.rs:24-159 | for any accepted bytes, re-encoding reproduces what was consumed if and only if bits 6 and 7 are clear, no transmitted ack-bits byte is all ones, and the short ack form is used exactly when it can be |
| CodecLaws.FragmentRoundTrip | src/packet.rs:161-261 | a legal fragment reads back as itself, for every payload and every embedded header |
| CodecLaws.AcceptedFragmentIsLegal | src/packet.rs:161-261 | any accepted fragment is legal, and its bytes are the fragment header, the canonical embedded header and the payload |
| CodecLaws.AcceptedExactlyTheLegalFragments | src/packet.rs:161-261 | the accepted byte strings are exactly the encodings of legal fragments |
| Buffers.InRangeIsMembership | src/sequence_buffer.rs:42-60 | the indices the ranged clear is specified by are those of the numbers from start to finish, counted past the wrap |
| Buffers.BitOfFromBits | src/sequence_buffer.rs:152-163 | bit i of the assembled word is flag i |
| Buffers.SequenceBuffer.constructor | src/sequence_buffer.rs:14-24 | a new buffer is empty, at sequence 0, with default entries |
| Buffers.SequenceBuffer.Reset | src/sequence_buffer.rs:34-40 | in place back to the empty buffer |
| Buffers.SequenceBuffer.RemoveEntries | src/sequence_buffer.rs:42-60 | both branches clear in place exactly the slots whose index belongs to a number of the range |
| Buffers.SequenceBuffer.CanInsert | src/sequence_buffer.rs:63-65 | false exactly for stale numbers |
| Buffers.SequenceBuffer.Insert | src/sequence_buffer.rs:73-88 | stale numbers are refused with the buffer unchanged; otherwise the window is advanced and a blank entry reserved at the index of the number |
| Buffers.SequenceBuffer.InsertAdvanceFirst | src/sequence_buffer.rs:95-109 | the same, but newness is tested before staleness |
| Buffers.SequenceBuffer.Advance | src/sequence_buffer.rs:113-118 | moves the window up to a newer number and clears what leaves it; otherwise changes nothing |
| Buffers.SequenceBuffer.Remove | src/sequence_buffer.rs:120-126 | frees the slot at the index of the number, if occupied, and restores its default |
| Buffers.SequenceBuffer.Store | src/sequence_buffer.rs:141-150 | writing through the mutable reference changes that one entry |
| Buffers.SequenceBuffer.Exists | src/sequence_buffer.rs:128-130 | whether the slot holds that very number |
| Buffers.SequenceBuffer.Find | src/sequence_buffer.rs:132-139 | the entry of the number, if it is there |
| Buffers.SequenceBuffer.GenerateAckBits | src/sequence_buffer.rs:152-163 | the loop with its shifting mask yields the number below the high-water mark and the word of the 32 existence flags |
| Windows.NewerExactly | src/sequence_buffer.rs:79-82 | in packet numbers: newer than the window is from the mark to 32766 ahead, and 32767 ahead by numeric order |
| Windows.StaleExactly | src/sequence_buffer.rs:63-65 | in packet numbers: what is stale, including the far-ahead numbers that look stale |
| Windows.InsertsPartExactly | src/sequence_buffer.rs:73-109 | the two inserts agree in result and state everywhere except for 32770-n to 32767 ahead and two tie points decided by numeric order; there `insert` refuses unchanged and the other moves the window |
| Windows.AdvanceKeepsSlots | src/sequence_buffer.rs:42-60 | the ranged clear and the clear-all branch drop a slot exactly if its number left the window, across the wrap |
| Windows.AdvanceRefines | src/sequence_buffer.rs:113-118 | advancing on 16-bit numbers is advancing the window of an integer map |
| Windows.PutRefines | src/sequence_buffer.rs:84-87 | writing inside the window evicts no other live entry |
| Windows.InsertRefines | src/sequence_buffer.rs:73-88 | `insert` is setting the key of an integer map cut down to the window, for exactly the numbers from the bottom of the window to 32767-n ahead of its top and, by numeric order, the tie; everything else is refused |
| Windows.InsertAdvanceFirstRefines | src/sequence_buffer.rs:95-109 | the same for the insert that advances first, for exactly the numbers from the bottom of the window to 32766 ahead of its top and, by numeric order, the tie |
| Windows.FindRefines | src/sequence_buffer.rs:132-139 | lookup by 16-bit number is lookup of the packet number nearest to the mark |
| Windows.LiveIsNotNewer | src/sequence_buffer.rs:113-118 | advancing to a number that is held is a no-op |
| Windows.RemoveRefines | src/sequence_buffer.rs:120-126 | removal by index removes that packet number and no other |
| Windows.EmptyRefines | src/sequence_buffer.rs:14-24 | an empty buffer stands for the empty map |
| Windows.FullIsReached | src/sequence_buffer.rs:73-88 | inserting 0 to 65535 into an empty buffer fills it with the newest number of each index |
| Windows.InsertAgreesExactlyWhenSizeDivides | src/sequence_buffer.rs:46-52 | the buffer refines the integer map at every state if and only if its size divides 65536; at any other size, in the state that inserting 0 to 65535 leads to, inserting packet 65536 overwrites an entry that is still in the window |
| Windows.NextAlwaysFitsExactly | src/sequence_buffer.rs:73-88 | the number at the high-water mark is never stale if and only if the size modulo 65536 is below 32768 |
| Reassembly.FragmentBounds | src/endpoint.rs:426-434 | the fragment count is the least that covers the packet |
| Reassembly.ChunkSize | src/endpoint.rs:438-462 | every fragment but the last carries exactly the fragment size, the last the non-empty rest |
| Reassembly.FragmentsConcatenate | src/endpoint.rs:436-464 | the fragments laid end to end are the packet: nothing lost, nothing sent twice |
| Reassembly.SameChunksSamePacket | src/endpoint.rs:436-464 | packets with the same fragments are the same packet |
| Reassembly.FreshSlot | src/endpoint.rs:661-666 | a slot as the first fragment sets it up satisfies the slot invariant |
| Reassembly.ReassemblyRecord.StorePacketHeader | src/endpoint.rs:154-163 | the header of fragment 0 is rewritten right in front of the payload area and skipped in the data |
| Reassembly.ReassemblyRecord.CountFragment | src/endpoint.rs:703-704 | one more fragment, its flag set, nothing else |
| Reassembly.ReassemblyRecord.Store | src/endpoint.rs:145-183 | `store_fragment` in place: header, length and data of the record become those of the value-level store, whichever branch is taken |
| Reassembly.UpdateRecord | src/endpoint.rs:703-713 | counting and storing a fragment turns the entry into the one the state machine has |
| Reassembly.StoredData | src/endpoint.rs:154-183 | storing a fitting fragment never meets the "would write past" branch and changes only its own place, and the header area for fragment 0 |
| Reassembly.ShapeAfterStore | src/endpoint.rs:145-183 | the slot invariant survives: the count is the number of set flags, no flag at or above the total, lengths in bounds |
| Reassembly.ChunkKept | src/endpoint.rs:181-183 | fragments stored earlier stay byte for byte where they are |
| Reassembly.ChunkStored | src/endpoint.rs:181-183 | a stored fragment is found at 9 + id * fragment_size |
| Reassembly.CompleteSlot | src/endpoint.rs:710-729 | a complete slot delivers, fragment by fragment, what was stored in it |
| Reassembly.SpliceOfOne | src/endpoint.rs:710-729 | if all of it came from one packet, it is that packet |
| Reassembly.SpliceIsExactly | src/endpoint.rs:710-729 | a splice is a given packet if and only if each of its parts agrees with that packet on its fragment |
| Reassembly.CompletesExactly | src/endpoint.rs:670-731 | the last fragment completes the slot to exactly its own packet if and only if every other fragment already there is that of the packet |
| Protocol.LegalPacketsFit | src/endpoint.rs:267-321 | the checks at creation bound the number of fragments of every legal packet by max_fragments and by 256 |
| Protocol.CompleteSlotReads | src/endpoint.rs:720-729 | the slice of a complete slot is in bounds |
| Protocol.OpenSlotInv | src/endpoint.rs:648-668 | setting up or finding a slot keeps the slot invariant of every slot and leaves the packet's slot there |
| Protocol.AcksTouchOnlySent | src/endpoint.rs:583-619 | processing acks changes the sent buffer, the acks and one counter, nothing else |
| Invariants.SendPanicsExactly | src/endpoint.rs:391-396 | the `expect` in send_packet fails on the first send if and only if the sent buffer size modulo 65536 is at least 32768; otherwise on no send of any run |
| Invariants.InitInv | src/endpoint.rs:323-346 | a new endpoint satisfies the invariant |
| Invariants.SendKeepsInv | src/endpoint.rs:367-470 | sending keeps the invariant; the mark of the sent buffer is the next sequence |
| Invariants.WholeFrame | src/endpoint.rs:497-623 | a whole datagram causes at most one call to process, and only an accepted call changes more than counters: the received buffer by one insert, the reassembly buffer by one advance |
| Invariants.CompleteKeepsReassembly | src/endpoint.rs:717-731 | taking the data out, receiving, and removing the slot restores the slot invariant everywhere |
| Invariants.ReceiveKeepsInv | src/endpoint.rs:488-736 | any bytes, any answers of process: both receive-side buffers stay in lockstep and every slot keeps its invariant |
| Invariants.StepKeepsInv | src/endpoint.rs:367-925 | every call keeps the invariant |
| Invariants.Run | src/endpoint.rs:367-925 | the invariant holds after every run of calls |
| Invariants.StateAfter | src/endpoint.rs:266-925 | the invariant holds after every run of calls from creation |
| Invariants.ReassembledIsRegular | src/endpoint.rs:715-731 | a reassembled datagram is at least 4 bytes long and its first byte has bit 0 clear, so the recursion has depth one |
| Invariants.ReassemblyMemoryBounded | src/endpoint.rs:661-731 | in every reachable state the memory under reassembly is at most slots * (9 + max_fragments * fragment_size) |
| Endpoints.CopyBytes | src/endpoint.rs:408-460 | a copy at the cursor appends those bytes to what is written so far |
| Endpoints.WriteFragmentHeader | src/endpoint.rs:438-454 | the fragment header and, on fragment 0, the packet header, written byte by byte |
| Endpoints.WriteFragment | src/endpoint.rs:436-464 | one round of the fragment loop: the transmitted bytes, and where the next fragment starts |
| Endpoints.Endpoint.constructor | src/endpoint.rs:266-347 | a configuration that passes the checks gives an endpoint in the initial state |
| Endpoints.Endpoint.TrackPacket | src/endpoint.rs:381-399 | takes the next sequence, generates the acks before the insert, and records the packet under it |
| Endpoints.Endpoint.TransmitFragments | src/endpoint.rs:418-467 | the loop hands over exactly the fragments of the packet, in order, each as header and payload under its sequence, and counts each; every write stays inside the transmit buffer |
| Endpoints.Endpoint.TransmitRegular | src/endpoint.rs:401-417 | a small packet is handed over as header and payload under its sequence |
| Endpoints.Endpoint.SendPacket | src/endpoint.rs:367-470 | the method, in place, has the effect and the output of the send transition |
| Endpoints.Endpoint.ClearAcks | src/endpoint.rs:746-748 | empties the acks and changes nothing else |
| Endpoints.Endpoint.DrainAcks | src/endpoint.rs:763-765 | hands out all acks in order and leaves none |
| Endpoints.Endpoint.Reset | src/endpoint.rs:771-774 | acks, sequence and counters back to the initial state, and with them the three buffers; the clock stays |
| Endpoints.Endpoint.AckPacket | src/endpoint.rs:588-595 | one acked packet: reported, counted and marked once, and only while there is room |
| Endpoints.Endpoint.ProcessAckBits | src/endpoint.rs:583-619 | the loop over 32 ack bits, in place, is the ack transition |
| Endpoints.Endpoint.AcceptPacket | src/endpoint.rs:560-619 | an accepted packet enters the received buffer, moves the reassembly window, and its acks are processed, in this order |
| Endpoints.Endpoint.ReceiveReadPacket | src/endpoint.rs:527-623 | the checks after the header, in order: payload length, stale, duplicate, process |
| Endpoints.Endpoint.ReceiveRegularPacket | src/endpoint.rs:510-623 | the regular branch, with its counters |
| Endpoints.Endpoint.OpenSlotInPlace | src/endpoint.rs:648-668 | finds the slot, or sets it up and advances the received buffer; false exactly when stale |
| Endpoints.Endpoint.StoreFragmentPacket | src/endpoint.rs:670-713 | count mismatch, repeated fragment, or store |
| Endpoints.Endpoint.CompleteReassembly | src/endpoint.rs:715-731 | takes the data, receives it through the same entry point, removes the slot by index |
| Endpoints.Endpoint.ReceivePacketInternal | src/endpoint.rs:488-736 | the self-recursive method terminates on every non-empty input and does what the receive transition does |
| Endpoints.Endpoint.ReceivePacket | src/endpoint.rs:480-486 | any non-empty bytes: the effect and the calls to process are those of the receive transition, and the invariant is kept |
| Endpoints.Endpoint.CountLoss | src/endpoint.rs:873-891 | the loss loop counts the sent and the unacked packets among the oldest samples |
| Endpoints.Endpoint.Update | src/endpoint.rs:800-801 | the clock moves, nothing else of the modelled state; the loss counts are those of the sent window |
| Transmitted.SendsWhole | src/endpoint.rs:381-417 | a packet that is not too large to travel whole: one datagram under its sequence; its header reads as that sequence with the acks of the sender, and the rest is the packet |
| Transmitted.SendsFragments | src/endpoint.rs:418-467 | a larger packet: as many datagrams as fragments, all under its sequence; number i reads as fragment i of that total, fragment 0 with the acks; the payloads laid end to end are the packet |
| Transmitted.SendsNothing | src/endpoint.rs:372-379 | a packet that is too large is counted, and nothing is handed over |
| Transmitted.TooLongIsOnlyCounted | src/endpoint.rs:497-506 | a datagram of more than the largest packet and 9 + 5 bytes is counted as too large to receive, with no other effect |
| Transmitted.GateIsReached | src/endpoint.rs:9-9 | a packet of the largest size that travels in one fragment makes a datagram exactly as long as the gate allows, so the gate is not too wide |
| Counting.ReceiveCounts | src/endpoint.rs:488-736 | what any datagram adds to each counter, told from the bytes and the state before: the end of the datagram itself, of the packet it completes, and of the fragment |
| Counting.GateExactly | src/endpoint.rs:497-506 | being counted as too large to receive with no other effect is exactly being longer than the largest packet and 9 + 5 bytes |
| Counting.CountersCount | src/endpoint.rs:343-343 | in every run each of the eleven counters is, since creation or the last reset, the number of what it counts, from zero |
| Counting.SendCountersCount | src/endpoint.rs:372-469 | in every run the three counters of the send side are the packets sent, those too large and the fragments of the sends since the last reset, told from the packets alone |
| ReceiveSide.OpenSlotMoves | src/endpoint.rs:648-668 | the first fragment of a packet moves both windows alike, and the packet is inside both afterwards |
| ReceiveSide.CompletionIsLocal | src/endpoint.rs:715-731 | the nested receive moves neither window, and the removal by index frees exactly the completed packet's slot and disturbs no other reassembly |
| ReceiveSide.ReceiveMoves | src/endpoint.rs:488-736 | what any datagram does to the two windows: the mark moves forward by at most 32768, numbers leave only at the bottom, at most one enters |
| ReceiveSide.PastIsRun | src/endpoint.rs:488-736 | the recorded history belongs to the run of the endpoint |
| ReceiveSide.HistoryHolds | src/endpoint.rs:488-736 | over every run without reset the received window holds exactly the accepted numbers that are still inside it |
| ReceiveSide.AtMostOnce | src/endpoint.rs:537-579 | no packet number, as the window counts them, is accepted twice, regular or reassembled; a second acceptance of a 16-bit sequence counts as a number at least a whole turn further, and right after it the mark is at least 65537 minus the window size beyond where it was right after the first |
| ReceiveSide.AckBitsAreExact | src/sequence_buffer.rs:152-163 | in every reachable state bit i of the next header is set if and only if the number ack - i was accepted and i < n, also after fragments moved the window |
| ReceiveSide.AcceptedIsRepeated | src/sequence_buffer.rs:152-163 | every header sent while an accepted packet is within 32 of the mark carries its bit |
| Duplicates.RegularHandedOverExactly | src/endpoint.rs:513-559 | a regular datagram is handed to process if and only if its lengths are legal, its header reads, and its number, counted from the mark, is within the reach of insert and was not accepted; told before the call |
| Duplicates.OpensExactly | src/endpoint.rs:648-668 | the slot of a fragment is found or set up if and only if its number is within the reach of insert_advance_first |
| Duplicates.FragmentWithoutSlot | src/endpoint.rs:624-668 | a fragment that is not legal, out of that reach, or of an accepted packet of the window changes nothing but counters |
| Duplicates.FragmentHandedOverExactly | src/endpoint.rs:624-735 | a fragment has a packet handed over if and only if it finds a slot, fills it up, the payload is not too long and the number is not below the received window |
| Duplicates.RepeatIsDropped | src/endpoint.rs:475-475 | a datagram of an accepted packet is dropped while the mark is less than 32768 plus the window size beyond it; a fragment, while it is at most 32768 beyond |
| Duplicates.RepeatExactly | src/endpoint.rs:537-559 | within one turn, a regular datagram of an accepted packet is handed over again if and only if the mark is more than 32768 plus the window size beyond it, or exactly that and numeric order says so |
| Duplicates.FragmentFindsSlotAgainExactly | src/endpoint.rs:640-668 | the same for a fragment: the mark is more than 32769 beyond the packet, or exactly that and numeric order says so, or the packet has left the received window but not that of reassembly |
| Duplicates.DatagramMovesMark | src/endpoint.rs:560-668 | a datagram moves the mark to right behind its number, counted from the mark it met, or not at all; what it makes accepted is that number |
| Duplicates.FoundSlotMovesMark | src/endpoint.rs:648-668 | a fragment that finds a slot leaves the mark right behind its number, unless that is below the mark |
| Freshness.CountedRightExactly | src/endpoint.rs:537-579 | in every state of two endpoints the receiver counts an accepted packet as the sender's own number if and only if that was within half the number space of the mark the datagram met |
| Freshness.TwiceOnlyFromFarBack | src/endpoint.rs:537-579 | a packet of the sender, counted right the first time, is accepted a second time only if the mark met by the second datagram was more than 32768 beyond it |
| Freshness.WholeHandedOver | src/endpoint.rs:513-559 | exactly when the datagram of a packet that travels whole is handed over, on any connection: what it counts as is within reach and was not accepted |
| Freshness.AcceptedAgainExactly | src/endpoint.rs:475-475 | exactly when a datagram of an accepted packet that travels whole is handed over once more, within a turn of the number it was counted as: the mark is more than 32768 plus the window size beyond that number, or exactly that and numeric order says so |
| Freshness.SlotAgainExactly | src/endpoint.rs:640-668 | exactly when a fragment of an accepted packet finds a slot again, within a turn: the mark is more than 32769 beyond the number it was counted as, or exactly that and numeric order says so; or the number has left the received window but not that of reassembly, and then nothing is handed over |
| Freshness.FreshDeliveryKeeps | src/endpoint.rs:488-736 | a fresh delivery keeps that the mark stands for a number the sender has reached and that no packet of the sender was accepted twice |
| Freshness.AcceptedOnceWhenFresh | src/lib.rs:35-35 | duplicates are dropped, in every run of any length with any loss, repetition and order, if at most 32768 packets were sent from the packet of a datagram until it was delivered, for packets in fragments 32769 less the window size: no packet of the sender is accepted twice |
| AgeLimits.LargestAgesExactly | src/lib.rs:35-35 | these ages are the largest: past either of them there is a run in which a packet is accepted twice, for every window size |
| AgeLimits.WholeReaches | src/endpoint.rs:537-579 | the run past the first: packet 65536 is taken for packet 0 after a gap, a datagram that is 32769 packets old moves the mark half way, and packet 65536 is accepted again |
| AgeLimits.FragmentReaches | src/endpoint.rs:648-668 | the run past the second: the same with a first fragment that is 32770 less the window size old |
| OneByteRuns.AcceptedTwice | src/lib.rs:35-35 | a run, for every window size, in which duplicates are not dropped: four datagrams arrive, the first of them arrives again 49153 packets later, and is handed over and accepted a second time |
| StandardClaims.BitZeroExactly | src/endpoint.rs:640-668 | exactly when a sender that had bit 0 set loses it, told before the datagram comes in: a fragment within the length gate of a packet newer than the window, unless the packet is of one fragment, short enough, and taken by process |
| StandardClaims.BitZeroAfter | src/endpoint.rs:384-384 | bit 0 after a datagram: the packet that the ack names was accepted just then, or the mark stayed and the bit was set before |
| StandardClaims.FirstFragmentClearsBitZero | src/endpoint.rs:667-667 | any first fragment of a newer packet of two or more fragments makes the ack name a packet that was not received, and clears bit 0 |
| StandardClaims.LateFragmentKeepsMark | src/endpoint.rs:648-668 | a fragment of a packet that is not newer than the window leaves the mark alone, whatever it completes |
| StandardClaims.SingleFragment | src/endpoint.rs:640-731 | a newer packet of one fragment ends on top, and is accepted if and only if it is short enough and process takes it |
| StandardClaims.SomethingReceivedYetBitZeroClear | STANDARD.md:79-83 | a run of two datagrams on which the standard's sentence that a sender that has received anything sets bit 0 does not hold, for every configuration with fragments |
| CodecLaws.ReadsButIsNotCanonical | STANDARD.md:121-131 | three headers, one for each way of not being canonical, that read as the same triple and that the encoder never writes |
| CodecLaws.SuffixIgnored | src/packet.rs:88-159 | what follows a header does not change how it reads |
| StandardClaims.NonCanonicalPacketIsAccepted | STANDARD.md:121-131 | a fresh endpoint hands over a regular packet of legal length with any header that reads, canonical or not, if its number is within reach |
| CodecLaws.CanonicalIsShortest | STANDARD.md:121-131 | no header that reads alike is shorter than the canonical one |
| StandardClaims.ReceivedAsIfCanonical | STANDARD.md:121-131 | in any state, a regular packet with any readable header that passes the length gate makes the calls and the changes it would make with the canonical header, but for the recorded size |
| SendSide.AckedListExactly | src/endpoint.rs:583-586 | the numbers the loop visits are exactly those whose bit is set |
| SendSide.ProcessIsAckAll | src/endpoint.rs:583-619 | the loop over bits acks those numbers in order |
| SendSide.AckAllInClosedForm | src/endpoint.rs:586-617 | acking a list in closed form: the pending ones are reported in order, as many as there is room for, and exactly those become acked |
| SendSide.AcksInClosedForm | src/endpoint.rs:583-619 | the whole ack loop in closed form: what is appended, without repetition, what is counted, what is marked, and why |
| SendSide.AckedUnlessFull | src/endpoint.rs:583-617 | once a header is processed, a tracked packet whose bit is set is acked, and is reported if that is new, unless the ack buffer is full; then it stays unacked for a later header |
| SendSide.ReceiveAcks | src/endpoint.rs:488-736 | any datagram has acks processed exactly when a packet is accepted, and then those of its own header if it is regular, otherwise of the header that the slot it fills kept from fragment 0 |
| SendSide.SentPastHolds | src/endpoint.rs:381-399 | over every run the sent buffer holds exactly the last min(n, total) packets and each is marked acked exactly if it was reported |
| SendSide.TrackedAt | src/endpoint.rs:381-399 | for each number of the window: found if and only if sent, acked if and only if reported |
| SendSide.AcksAreReportedOnce | src/endpoint.rs:583-619 | over every run no sent packet is reported twice, the counter equals the number of reports, and the acks never outgrow their buffer |
| SendSide.LossCountsExactly | src/endpoint.rs:875-891 | the loss counts are the numbers of packets sent, and sent but not acked, in that part of the window |
| SendSide.LossCountsOnEveryRun | src/endpoint.rs:873-891 | in every run the loss estimate counts, over the oldest half of the window, the packet numbers that were sent and those of them never reported as acked |
| RoundTrip.ReceiveLeavesAlone | src/endpoint.rs:488-736 | a datagram of another sequence, whatever its bytes, leaves a packet alone that it does not push out of the window |
| RoundTrip.MessageFits | src/endpoint.rs:418-467 | every fragment of a legal packet is legal and passes the length gate of a peer with the same configuration |
| RoundTrip.FragmentArrives | src/endpoint.rs:624-735 | one fragment in any order: a repetition changes nothing, a missing one is collected, the last one hands over sequence and payload and processes the sender's ack and ack bits |
| RoundTrip.CollectionCompletes | src/endpoint.rs:624-735 | from any point of the collection on, the packet is handed over exactly once, byte for byte, and the sender's acks processed exactly once, when the last missing fragment has arrived |
| RoundTrip.NoSecondDelivery | src/endpoint.rs:640-646 | after acceptance its fragments are ignored, acks included |
| RoundTrip.FragmentationRoundTrip | src/endpoint.rs:419-735 | any order, any repetitions, any other traffic in between: an accepting receiver sees sequence and payload exactly once, byte-identical, if all fragments arrived, and never otherwise; one fragment, and no other, makes it process the sender's ack and ack bits |
| Network.SendKeeps | src/endpoint.rs:367-470 | sending keeps what the two sides know of each other; every acceptance within 32 of the mark has its bit in the new header |
| Network.OtherGrows | src/endpoint.rs:367-470 | what one side knows stays true while the other side goes on |
| Delivery.RegularReads | src/endpoint.rs:401-417 | an emitted regular datagram reads back as sequence, acks and packet |
| Delivery.FragmentReads | src/endpoint.rs:436-464 | an emitted fragment reads back as meant, with its part of the packet |
| Delivery.DatagramsAreReceivable | src/endpoint.rs:267-467 | the checks at creation suffice: every datagram of every legal packet fits the transmit buffer, passes the length gate of a peer with the same configuration and is read as meant |
| Delivery.ReceiveCases | src/endpoint.rs:488-736 | every receive is one of three: counting only, a regular packet, a fragment stored |
| Delivery.PayloadGenuine | src/endpoint.rs:710-729 | a complete slot delivers the splice of the fragments that the datagrams on record brought |
| Delivery.DeliveryIsWell | src/endpoint.rs:488-736 | what a datagram of the network does: which payload it hands over, made of which packets, and whose acks it has processed |
| Delivery.ReceiveKeeps | src/endpoint.rs:488-736 | delivering any datagram of the network, any number of times, keeps what the two sides know of each other |
| EndToEnd.ActOnKeeps | src/endpoint.rs:367-765 | every action of either endpoint and of the network keeps the system invariant |
| EndToEnd.Reached | src/endpoint.rs:266-925 | the system invariant holds after every sequence of actions |
| EndToEnd.AcksAreReported | src/endpoint.rs:592-593 | the acks a caller reads are reported packets |
| EndToEnd.AckNamesThatPacket | src/endpoint.rs:583-619 | every acked number was sent, and rests on a packet of its sequence that the other side accepted; it is the number of that very packet if and only if at most 65536 packets were sent from it until the report |
| EndToEnd.ReceiptIsHandedOver | src/endpoint.rs:560-579 | each acceptance was a call of process answered with yes: exactly the packet if it travels whole; otherwise a splice with a fragment of the packet in it, which is the packet exactly when all fragments agree with it |
| EndToEnd.AckedMeansDelivered | src/endpoint.rs:537-619 | an acked packet was handed over in this sense, on connections of any length, if at most 65536 packets were sent from it until its ack was reported |
| EndToEnd.GenuineIsThePacket | src/endpoint.rs:710-729 | what is delivered under a sequence used once is that packet |
| EndToEnd.DeliveriesAreGenuine | src/endpoint.rs:488-736 | everything handed to process is a packet the peer sent under that sequence, or a splice of fragments of such packets |
| EndToEnd.CompletionIsExact | src/endpoint.rs:670-731 | exactly when a packet put together is the packet of the datagram that completes it, told from the slot before: every other fragment there is that of the packet |
| EndToEnd.AckPersists | src/endpoint.rs:583-617 | if a packet was accepted and was within 32 of the mark when a header was sent, then any datagram that has this header processed leaves the packet reported, if it is still tracked and the ack buffer not full |
| EndToEnd.ReliableOnEveryRun | src/endpoint.rs:367-765 | what acks and deliveries mean, after every sequence of sends, deliveries, repetitions, losses, clears and clock ticks |
| EndToEnd.AcksPersistOnEveryRun | src/endpoint.rs:367-765 | the persistence of acks after every such sequence |
| OneByteRuns.ReportedUnaccepted | src/endpoint.rs:583-619 | the negative side of what an ack says: a run in which the header that acks packet 0 arrives after 65537 packets were sent, and packet 65536 is reported, which was never accepted |
| SpliceRun.SpliceIsDelivered | src/endpoint.rs:648-735 | a run without any forged datagram in which process is handed, and accepts, half of packet 0 and half of packet 65536 |
| NetworkRuns.SendsReachTheWire | src/endpoint.rs:401-467 | every datagram that transmit is handed is put on the network, as one of that packet with those acks, and nothing else is |
| NetworkRuns.PeersAreRuns | src/endpoint.rs:367-925 | after every sequence of actions either side of the network is an endpoint after its own calls: same state, calls to process and packets, and on the wire exactly what transmit was handed |
| NetworkRoundTrip.PacketArrives | src/endpoint.rs:418-735 | after any run: a packet sent in fragments whose datagrams the network delivers in any order and number, with others in between, is handed over exactly once, byte for byte, if all have arrived, and not at all otherwise |
| NetworkRoundTrip.FragmentsAreCalm | src/endpoint.rs:640-735 | the fragments of a packet never move the window past it |
| NetworkRoundTrip.EveryDatagramArrives | src/endpoint.rs:418-735 | the same for a receiver that gets the datagrams of the packet only, with no condition on how its window moves |
| OneByteRuns.PowersOfTwoSuit | src/endpoint.rs:267-321 | every configuration that passes the checks and whose window sizes are powers of two from 2 to 16384 meets the conditions of the theorems on windows and runs |
| Accounts.WholeEndsOnce | src/endpoint.rs:497-623 | a whole datagram ends in exactly one counter or one call to process |
| Accounts.ReceiveEndsOnce | src/endpoint.rs:488-736 | the same for any datagram, with the packet it may put together |
| Accounts.NestedLeavesSlots | src/endpoint.rs:725-731 | the nested receive leaves every slot under reassembly alone |
| Accounts.AdvanceLoses | src/sequence_buffer.rs:113-118 | an advance loses exactly the fragments of the packets that leave the window |
| Accounts.ReceiveConserves | src/endpoint.rs:624-735 | fragments counted in one step are held, delivered or fallen out of the window |
| Accounts.PacketsAddUp | src/endpoint.rs:513-565 | in every run, since the last reset: received plus refused by the length gate = invalid + stale + duplicate + too large + calls of process |
| Accounts.FragmentsAddUp | src/endpoint.rs:624-735 | in every run, since the last reset: fragments received = held in live slots + those of completed packets + those that fell out of the window |
| CCodec.FieldIsByte | wire-compat/c/reliable.c:837-905 | a mask over the word of ack bits picks out the byte that the port picks |
| CCodec.ReplaceInWord | wire-compat/c/reliable.c:1066-1092 | clearing a byte by a mask and putting another in its place changes that byte only |
| CCodec.CWriteHeaderIs | wire-compat/c/reliable.c:837-905 | the header writer of the reference and that of the port write the same bytes |
| CCodec.WriteHeader | wire-compat/c/reliable.c:837-905 | the cursor-driven writer in place |
| CCodec.CReadHeaderIs | wire-compat/c/reliable.c:1012-1094 | the header reader of the reference and that of the port accept the same bytes and read them alike |
| CCodec.ReadHeader | wire-compat/c/reliable.c:1012-1094 | the reader with its cursor and its count of expected bytes |
| CCodec.CReadFragmentIs | wire-compat/c/reliable.c:1096-1197 | the same for fragment headers |
| CCodec.ReadFragment | wire-compat/c/reliable.c:1096-1197 | the reader of fragment headers with its early returns |
| CCodec.CNumFragmentsIs | wire-compat/c/reliable.c:961-961 | the quotient plus one for a remainder is the rounded-up quotient |
| CCodec.CDatagramsIs | wire-compat/c/reliable.c:927-1007 | header, casts and the loop over two pointers cut every legal packet into the datagrams of the port |
| CCodec.SendFragments | wire-compat/c/reliable.c:968-1007 | the fragment loop in place, over the transmit buffer and the source pointer |
| CReference.PortAcceptsMore | wire-compat/c/reliable.c:561-652 | among the configurations that the port accepts, the reference accepts exactly those whose three lengths fit an int; it accepts none that the port refuses |
| CReference.CSequenceBuffer.constructor | wire-compat/c/reliable.c:173-234 | all sentinels, zeroed entries |
| CReference.CSequenceBuffer.Reset | wire-compat/c/reliable.c:250-255 | every slot empty again, the entries left behind |
| CReference.CSequenceBuffer.RemoveEntries | wire-compat/c/reliable.c:257-295 | the sentinels of the range are set; entries stay behind, or are cleaned up when there is a clean-up |
| CReference.CSequenceBuffer.Insert | wire-compat/c/reliable.c:302-317 | refused exactly when stale; otherwise the sentinel is set and the entry left for the caller to fill |
| CReference.CSequenceBuffer.Advance | wire-compat/c/reliable.c:319-327 | as the port's, but evicted entries stay behind |
| CReference.CSequenceBuffer.InsertWithCleanup | wire-compat/c/reliable.c:329-352 | advances first; refused exactly when stale and not newer; the entry of the slot it returns is what was there after the advance, cleaned up if the slot was still occupied |
| CReference.CSequenceBuffer.AdvanceWithCleanup | wire-compat/c/reliable.c:354-364 | evicted entries are cleaned up |
| CReference.CSequenceBuffer.RemoveWithCleanup | wire-compat/c/reliable.c:366-377 | frees an occupied slot and cleans it up |
| CReference.CSequenceBuffer.GenerateAckBits | wire-compat/c/reliable.c:401-417 | the loop yields the ack and the word of existence flags |
| CReference.StoreFragmentData | wire-compat/c/reliable.c:1199-1246 | the store function in the memory of the slot, with its early return for an overlong packet |
| CReference.BackedAfterStore | wire-compat/c/reliable.c:1199-1246 | storing a legal fragment stays inside the memory of the slot |
| CEquivalence.SameInsertWithCleanup | wire-compat/c/reliable.c:329-352 | the two inserts into the reassembly buffer have the same result on related buffers |
| CEquivalence.ReservedHoldsNoMemory | wire-compat/c/reliable.c:344-351 | the slot handed out for a new packet points to no memory, empty or taken over from a live packet |
| CEquivalence.OpeningLosesNoMemory | wire-compat/c/reliable.c:1417-1461 | the fresh pointer of a new packet overwrites none, and no slot that is not occupied points to memory |
| CEquivalence.SameRemove | wire-compat/c/reliable.c:366-377 | removing the completed slot relates the buffers again, although one side had taken the data out and the other had not |
| CEquivalence.SameStore | wire-compat/c/reliable.c:1199-1246 | storing a fragment has the same effect in spite of the spare bytes; the reference's overlong test never fires |
| CEquivalence.SameSend | wire-compat/c/reliable.c:907-1010 | sending from related states: the same datagrams, related states, the reference using its own header writer and fragment loop |
| CEquivalence.SameComplete | wire-compat/c/reliable.c:1494-1503 | completion: taken data against data left in the slot, the same deliveries, related states |
| CEquivalence.SameReceive | wire-compat/c/reliable.c:1248-1507 | receiving any bytes in related states: the same calls to process, related states, the reference using its own readers |
| CEquivalence.SameReset | wire-compat/c/reliable.c:1530-1577 | reset: related states although the reference leaves its entries behind; no memory is lost |
| CEquivalence.MatchingIsBacked | wire-compat/c/reliable.c:1199-1246 | in a related state every access of the reference through a slot stays inside its memory |
| CEquivalence.SameStep | wire-compat/c/reliable.c:907-1577 | every call, on either: the same output, related states, the reference safe |
| CEquivalence.CRun | wire-compat/c/reliable.c:907-1577 | every run of the reference stays related to the run of the port |
| CEquivalence.SameBehaviour | README.md:144-147 | for configurations both accept, every run of calls is seen the same: byte-identical datagrams, the same deliveries, acks and integer counters after every call |
| CEquivalence.BehaviourShowsAll | README.md:144-147 | what is compared keeps nothing from view: all that transmit and process were handed, and the acks and counters after each call |
| CEquivalence.NestedReceiveKeepsItsData | wire-compat/c/reliable.c:1494-1503 | the memory that the nested receive reads from is not freed, and no other reassembly touched, until it returns |
| CEquivalence.DefaultsQualify | src/endpoint.rs:47-66 | the default configuration meets every condition used here |

## Left out

Where the code and its documentation part:

- Lines 35 of src/lib.rs and 475 of src/endpoint.rs promise that duplicates are dropped. The code drops them while the
  mark is not half the number space and the width of the window beyond the packet; `Freshness.AcceptedAgainExactly` is
  the exact condition, `OneByteRuns.AcceptedTwice` a run in which a packet is accepted twice, and
  `AgeLimits.LargestAgesExactly` says how old datagrams may be at most for the promise to hold.
- STANDARD.md, lines 79 to 83, says that `ack` was received once anything was received, and that bit 0 is then set. The
  code does not guarantee it, because the first fragment of a packet advances the received buffer without an insert.
  The ack theorems follow the code; `StandardClaims.SomethingReceivedYetBitZeroClear` gives a run and
  `StandardClaims.BitZeroExactly` the exact condition.
- STANDARD.md, lines 121 to 131, demands canonical headers of everyone. A regular packet is accepted with a header that
  is not canonical, `StandardClaims.NonCanonicalPacketIsAccepted`; `CodecLaws.ReadsButIsNotCanonical` shows three kinds,
  `CodecLaws.CanonicalExactlyWhenNotWasteful` says which headers are canonical, and
  `StandardClaims.ReceivedAsIfCanonical` that the others have the effect of the canonical one.

Conditions on buffer sizes:

- The theorems on windows and runs ask for sizes from 2 to 16384 that divide 65536; the defaults qualify. For a size
  that does not divide 65536 the refinement fails, `Windows.InsertAgreesExactlyWhenSizeDivides`. Sizes of 1 and above
  16384 are not covered by the window theorems. The slot invariant, lockstep, the memory bound, the codec, the ack
  loop, the packet counters and the equivalence with the C reference hold for every size.
- A sent buffer whose size modulo 65536 is at least 32768 makes the first send panic, `Invariants.SendPanicsExactly`;
  runs are stated for the others.

Not modelled:

- Endpoints.Endpoint.Reset: does not state that the rtt, jitter, loss and bandwidth statistics go back to zero, because
  floating point is not modelled.
- Endpoints.Endpoint.AckPacket: does not state the rtt sample that an ack contributes, for the same reason.
- Endpoints.Endpoint.Update: states the clock and the integer counts of the loss loop; rtt, jitter, the smoothing of
  packet loss and bandwidth are floating point.
- The wrap-around of the 64-bit counters.
- Empty packets and datagrams, on which the source panics by an assertion.
- Logging, names, getters, the version.
- Masks and shifts on bytes and words are written as the equal divisions and remainders.
- The record of a packet under reassembly is built from its entry, updated in place and written back, where the source
  updates the entry through a mutable reference; aliasing of that reference is not captured.
- The process closure as a stateful closure: each receive call has its own answer function.
- Sockets, and forged datagrams in the theorems about two endpoints. The invariants and the at-most-once theorem hold
  for arbitrary bytes.
- Between the two endpoints of the network model `reset` is not an action.

The C reference:

- Its sequence buffer and its store function work in place. Its endpoint is a state machine over values: the memory of a
  slot is part of the slot, null or not, so that out-of-bounds accesses, leaks and frees during the nested receive are
  captured, but not aliasing between slots.
- Allocation failure, the assertion and print handlers, and the limits of `int` for buffer sizes are left out.
- Its runs are stated with its codec as functions; the methods of `CCodec` are proved to compute these functions.
