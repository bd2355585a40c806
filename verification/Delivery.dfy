/** What one datagram of the network brings about at its receiver, and that it keeps what the two sides know of each
    other. */
module Delivery {
  import opened Wrappers
  import opened Sequence
  import opened Codec
  import opened CodecLaws
  import opened Buffers
  import opened Reassembly
  import opened Protocol
  import opened Invariants
  import opened ReceiveSide
  import opened Duplicates
  import opened SendSide
  import opened Network

  // ---------------------------------------------------------------- the cases of a receive

  /** A fragment that is stored: the slot it meets, and what the slot becomes. */
  ghost predicate StoresFragment(c: Config, st: State, data: bytes, f: FragmentHeader, open: State,
                                 d: FragmentReassemblyData, d': FragmentReassemblyData)
  {
    && c.Valid() && Sized(c, st)
    && DecodeFragment(data, c.maxFragments, c.fragmentSize) == Some(f)
    && OpenSlot(c, st, f) == Some(open) && StateInv(c, open) && open.reassembly.Exists(f.sequence)
    && d == open.reassembly.entries[open.reassembly.Index(f.sequence)]
    && Fitting(d, f, FragmentPayload(data, f), c.maxFragments, c.fragmentSize)
    && d' == Gained(d, f, FragmentPayload(data, f), c.maxFragments, c.fragmentSize)
    && SlotShape(d', f.sequence, c.fragmentSize)
  }

  datatype Case =
    | Quiet
    | Regular
    | Stored(f: FragmentHeader, open: State, d: FragmentReassemblyData, d': FragmentReassemblyData)

  ghost predicate CaseHolds(c: Config, st: State, data: bytes, process: Process, r: Receiving, k: Case) {
    && c.Valid() && StateInv(c, st) && |data| > 0
    && StoredAs(c, st, data) == (if k.Stored? then Some(k.f) else None)
    && match k
       case Quiet => r.calls == [] && r.state == st.(counters := r.state.counters)
                     && r.state.counters.packetsAcked == st.counters.packetsAcked
       case Regular => data[0] % 2 == 0 && r == ReceiveWhole(c, st, data, process)
       case Stored(f, open, d, d') =>
         && data[0] % 2 == 1
         && StoresFragment(c, st, data, f, open, d, d') && r == FinishSlot(c, open, f.sequence, d', process)
  }

  /** Every receive is one of three: nothing but counting, a regular packet, or a fragment stored. */
  lemma ReceiveCases(c: Config, st: State, data: bytes, process: Process) returns (k: Case)
    requires c.Valid() && StateInv(c, st) && |data| > 0
    ensures CaseHolds(c, st, data, process, Receive(c, st, data, process), k)
  {
    hide Received, FinishSlot, ReceiveRegular, EncodeHeader, SlotShape, ReassemblyInv;
    k := Quiet;
    if |data| <= c.LongestDatagram() {
      if data[0] % 2 == 0 {
        k := Regular;
      } else if DecodeFragment(data, c.maxFragments, c.fragmentSize).Some? {
        var f := DecodeFragment(data, c.maxFragments, c.fragmentSize).value;
        if !st.received.Exists(f.sequence) && OpenSlot(c, st, f).Some? {
          AcceptedFragmentIsLegal(data, c.maxFragments, c.fragmentSize);
          OpenSlotInv(c, st, f);
          OpenSlotKeepsInv(c, st, f);
          k := StoreCases(c, st, OpenSlot(c, st, f).value, f, data, process);
        }
      }
    }
  }

  lemma StoreCases(c: Config, st: State, open: State, f: FragmentHeader, data: bytes, process: Process)
    returns (k: Case)
    requires c.Valid() && StateInv(c, st) && StateInv(c, open) && OpenSlot(c, st, f) == Some(open)
    requires 0 < |data| <= c.LongestDatagram() && data[0] % 2 == 1
    requires !st.received.Exists(f.sequence) && open.reassembly.Exists(f.sequence)
    requires DecodeFragment(data, c.maxFragments, c.fragmentSize) == Some(f)
    ensures CaseHolds(c, st, data, process, StoreInSlot(c, open, f, data, process), k)
  {
    hide FinishSlot, EncodeHeader, HoldsHeader, HoldsChunk, StoreFragment, OpenSlot, DecodeFragment, LegalFragment,
         FreshReassembly, ReassemblyInv;
    var d := open.reassembly.entries[open.reassembly.Index(f.sequence)];
    SlotAt(c, open, f.sequence);
    AcceptedFragmentIsLegal(data, c.maxFragments, c.fragmentSize);
    if st.reassembly.Exists(f.sequence) {
      OpenIsThere(c, st, f);
    } else {
      FreshIsOpen(c, st, open, f);
    }
    k := Quiet;
    if f.total == d.numFragmentsTotal && !d.fragmentReceived[f.id] {
      ShapeAfterStore(d, f, FragmentPayload(data, f), c.maxFragments, c.fragmentSize);
      var d' := Gained(d, f, FragmentPayload(data, f), c.maxFragments, c.fragmentSize);
      k := Stored(f, open, d, d');
    }
  }

  /** A slot just set up is that of the fragment, and has received nothing. */
  lemma FreshIsOpen(c: Config, st: State, open: State, f: FragmentHeader)
    requires Sized(c, st) && OpenSlot(c, st, f) == Some(open) && !st.reassembly.Exists(f.sequence)
    ensures open.reassembly.WellFormed()
    ensures open.reassembly.entries[open.reassembly.Index(f.sequence)] == FreshReassembly(f.total, c.fragmentSize)
    ensures FreshReassembly(f.total, c.fragmentSize).numFragmentsTotal == f.total
    ensures forall i :: 0 <= i < 256 ==> !FreshReassembly(f.total, c.fragmentSize).fragmentReceived[i]
  {
  }

  // ---------------------------------------------------------------- what a datagram of the network says

  /** A datagram on the network reads as what it is: the packet of its number with its acks, or one of its fragments. */
  ghost predicate ReadsAs(c: Config, y: Peer, f: Frame, i: nat)
    requires c.Valid()
  {
    && FrameOk(c, y, f) && |f.data| > 0
    && var packet := y.packets[f.number];
       if f.data[0] % 2 == 0 then
         && |packet| <= c.fragmentAbove && DecodeHeader(f.data).Some?
         && var h := DecodeHeader(f.data).value;
            h.sequence == Wrap(f.number) && h.ack == f.ack && h.ackBits == f.ackBits && f.data[h.size..] == packet
       else
         && |packet| > c.fragmentAbove
         && i < NumFragments(|packet|, c.fragmentSize) && i * c.fragmentSize <= |packet|
         && var h := FragmentOf(Wrap(f.number), f.ack, f.ackBits, NumFragments(|packet|, c.fragmentSize), i);
            && DecodeFragment(f.data, c.maxFragments, c.fragmentSize) == Some(h)
            && FragmentPayload(f.data, h) == Chunk(packet, i, c.fragmentSize)
  }

  lemma FrameReads(c: Config, y: Peer, f: Frame) returns (i: nat)
    requires c.Valid() && FrameOk(c, y, f)
    ensures ReadsAs(c, y, f, i)
  {
    hide EncodeHeader, DecodeHeader, DecodeFragment, EncodeFragment, Backed;
    var packet, s := y.packets[f.number], Wrap(f.number);
    var n :| 0 <= n < |Datagrams(c, s, f.ack, f.ackBits, packet)|
        && Datagrams(c, s, f.ack, f.ackBits, packet)[n] == f.data;
    i := n;
    if |packet| <= c.fragmentAbove {
      RegularReads(s, f.ack, f.ackBits, packet);
      ReadsAsRegular(f.data);
    } else {
      FragmentReads(c, s, f.ack, f.ackBits, packet, n);
    }
  }

  lemma RegularReads(s: u16, ack: u16, ackBits: u32, packet: bytes)
    ensures var header := EncodeHeader(s, ack, ackBits);
            && DecodeHeader(header + packet) == Some(PacketHeader(|header|, s, ack, ackBits))
            && (header + packet)[|header|..] == packet
  {
    HeaderRoundTrip(s, ack, ackBits, packet);
  }

  lemma FragmentReads(c: Config, s: u16, ack: u16, ackBits: u32, packet: bytes, i: nat)
    requires c.Valid() && 0 < |packet| <= c.maxPacketSize && i < NumFragments(|packet|, c.fragmentSize)
    ensures i * c.fragmentSize <= |packet|
    ensures var data := FragmentDatagram(c, s, ack, ackBits, packet, i);
            var h := FragmentOf(s, ack, ackBits, NumFragments(|packet|, c.fragmentSize), i);
            && |data| > 0 && data[0] % 2 == 1
            && DecodeFragment(data, c.maxFragments, c.fragmentSize) == Some(h)
            && FragmentPayload(data, h) == Chunk(packet, i, c.fragmentSize)
  {
    LegalPacketsFit(c, |packet|);
    ChunkSize(packet, i, c.fragmentSize);
    var h := FragmentOf(s, ack, ackBits, NumFragments(|packet|, c.fragmentSize), i);
    var payload := Chunk(packet, i, c.fragmentSize);
    FragmentRoundTrip(h, payload, c.maxFragments, c.fragmentSize);
    var data := EncodeFragment(h, payload);
    assert data[0] == 1;
    assert data == data[..FRAGMENT_HEADER_BYTES] + (EmbeddedHeader(h) + payload);
    assert FragmentPayload(data, h) == payload;
  }

  /** The length of the transmit buffer. */
  function TransmitBufferSize(c: Config): nat {
    var packetBuffer := c.maxPacketSize + MAX_PACKET_HEADER_BYTES;
    var fragmentBuffer := FRAGMENT_HEADER_BYTES + MAX_PACKET_HEADER_BYTES + c.fragmentSize;
    if packetBuffer > fragmentBuffer then packetBuffer else fragmentBuffer
  }

  /** The checks at creation are enough for every packet that may be sent: its datagrams fit the transmit buffer and
      pass the length gate of a peer with the same configuration, which reads each of them as it was meant. */
  lemma DatagramsAreReceivable(c: Config, s: u16, ack: u16, ackBits: u32, packet: bytes, i: nat)
    requires c.Valid() && 0 < |packet| <= c.maxPacketSize && i < |Datagrams(c, s, ack, ackBits, packet)|
    ensures |Datagrams(c, s, ack, ackBits, packet)| <= c.maxFragments
    ensures var data := Datagrams(c, s, ack, ackBits, packet)[i];
            && 0 < |data| <= c.LongestDatagram() && |data| <= TransmitBufferSize(c)
            && if |packet| <= c.fragmentAbove then
                 var header := EncodeHeader(s, ack, ackBits);
                 && data == header + packet && data[0] % 2 == 0
                 && DecodeHeader(data) == Some(PacketHeader(|header|, s, ack, ackBits))
               else
                 var f := FragmentOf(s, ack, ackBits, NumFragments(|packet|, c.fragmentSize), i);
                 && data[0] % 2 == 1 && DecodeFragment(data, c.maxFragments, c.fragmentSize) == Some(f)
                 && i * c.fragmentSize <= |packet| && FragmentPayload(data, f) == Chunk(packet, i, c.fragmentSize)
  {
    hide DecodeHeader, DecodeFragment, EncodeHeader, NumFragments;
    LegalPacketsFit(c, |packet|);
    if |packet| <= c.fragmentAbove {
      RegularReads(s, ack, ackBits, packet);
      ReadsAsRegular(Datagrams(c, s, ack, ackBits, packet)[i]);
    } else {
      FragmentReads(c, s, ack, ackBits, packet, i);
      ChunkSize(packet, i, c.fragmentSize);
    }
  }

  // ---------------------------------------------------------------- the received buffer after a receive

  lemma AdvanceOnlyClears<T>(b: Buffer<T>, s: u16, t: u16)
    requires b.WellFormed()
    ensures b.Advance(s).Find(t) == None || b.Advance(s).Find(t) == b.Find(t)
    ensures b.Advance(s).Exists(t) ==> b.Exists(t)
  {
  }

  lemma PutOnlyAdds<T>(b: Buffer<T>, s: u16, v: T, t: u16)
    requires b.WellFormed()
    ensures b.Put(s, v).Find(t) == None || b.Put(s, v).Find(t) == (if t == s then Some(v) else b.Find(t))
    ensures b.Put(s, v).Exists(t) ==> t == s || b.Exists(t)
  {
  }

  lemma RemoveOnlyClears<T>(b: Buffer<T>, s: u16, t: u16)
    requires b.WellFormed()
    ensures b.Remove(s).Find(t) == None || b.Remove(s).Find(t) == b.Find(t)
    ensures b.Remove(s).Find(s) == None
  {
  }

  /** Only an accepted sequence enters the received buffer. */
  ghost predicate ReceivedFrom(st: State, r: Receiving) {
    && st.received.WellFormed() && r.state.received.WellFormed()
    && forall t: u16 :: r.state.received.Exists(t) ==> st.received.Exists(t) || AcceptedOf(r) == Some(t)
  }

  lemma WholeReceived(c: Config, st: State, data: bytes, process: Process)
    requires c.Valid() && Sized(c, st)
    ensures ReceivedFrom(st, ReceiveWhole(c, st, data, process))
  {
    hide ReceiveWhole, Buffer.Advance, Buffer.Put, Buffer.Exists;
    WholeFrame(c, st, data, process);
    var r := ReceiveWhole(c, st, data, process);
    forall t: u16 | r.state.received.Exists(t)
      ensures st.received.Exists(t) || AcceptedOf(r) == Some(t)
    {
      if r.calls != [] && r.calls[0].accepted {
        var s := r.calls[0].sequence;
        AdvanceOnlyClears(st.received, s, t);
        PutOnlyAdds(st.received.Advance(s), s, ReceivedEntry(c, st, |data|), t);
      }
    }
  }

  /** What finishing a slot does: the calls are those of the reassembled datagram, if the slot is complete. */
  lemma FinishFrame(c: Config, st: State, s: u16, d: FragmentReassemblyData, process: Process)
    requires c.Valid() && Sized(c, st) && SlotShape(d, s, c.fragmentSize)
    ensures var r := FinishSlot(c, st, s, d, process); ReceivedFrom(st, r) && |r.calls| <= 1
    ensures var r := FinishSlot(c, st, s, d, process);
            r.calls != [] ==> d.numFragmentsReceived == d.numFragmentsTotal
                              && MAX_PACKET_HEADER_BYTES + d.packetBytes <= |d.packetData|
                              && r.calls[0].sequence == s && r.calls[0].payload == Payload(d)
  {
    hide ReceiveWhole, Buffer.Exists, Buffer.Remove;
    if d.numFragmentsReceived == d.numFragmentsTotal {
      var ack, ackBits := CompleteHasHeader(d, s, c.fragmentSize);
      ReassembledReads(d, s, ack, ackBits);
      var st0 := SetEntry(st, s, d.(packetData := []));
      WholeReceived(c, st0, Reassembled(d), process);
      CallOfWhole(c, st0, Reassembled(d), process);
    }
  }

  lemma OpenReceived(c: Config, st: State, f: FragmentHeader, t: u16)
    requires Sized(c, st) && OpenSlot(c, st, f).Some?
    ensures OpenSlot(c, st, f).value.received.WellFormed()
    ensures OpenSlot(c, st, f).value.received.Exists(t) ==> st.received.Exists(t)
  {
    AdvanceOnlyClears(st.received, f.sequence, t);
  }

  // ---------------------------------------------------------------- the slots after a receive

  /** Where a slot of the new state comes from: it was there before, or it is the one just written. */
  ghost predicate SlotsFrom(before: Buffer<FragmentReassemblyData>, after: Buffer<FragmentReassemblyData>, s: u16,
                            d': Option<FragmentReassemblyData>)
  {
    && before.WellFormed() && after.WellFormed()
    && forall t: u16 :: after.Exists(t) ==>
         if t == s && d'.Some? then after.Find(t) == d' else after.Find(t) == before.Find(t)
  }

  lemma WholeSlots(c: Config, st: State, data: bytes, process: Process)
    requires c.Valid() && Sized(c, st)
    ensures SlotsFrom(st.reassembly, ReceiveWhole(c, st, data, process).state.reassembly, 0, None)
  {
    hide ReceiveWhole, Buffer.Advance, Buffer.Exists;
    WholeFrame(c, st, data, process);
    var r := ReceiveWhole(c, st, data, process);
    forall t: u16 | r.state.reassembly.Exists(t)
      ensures r.state.reassembly.Find(t) == st.reassembly.Find(t)
    {
      if r.calls != [] && r.calls[0].accepted {
        AdvanceOnlyClears(st.reassembly, r.calls[0].sequence, t);
      }
    }
  }

  lemma SetEntryFind(st: State, s: u16, d: FragmentReassemblyData, t: u16)
    requires st.reassembly.WellFormed() && st.reassembly.Exists(s)
    ensures SetEntry(st, s, d).reassembly.WellFormed()
    ensures SetEntry(st, s, d).reassembly.Find(t) == if t == s then Some(d) else st.reassembly.Find(t)
  {
  }

  /** After a slot is finished it is either kept as written or gone, and the other slots are as before or gone. */
  lemma FinishSlots(c: Config, st: State, s: u16, d: FragmentReassemblyData, process: Process)
    requires c.Valid() && Sized(c, st) && SlotShape(d, s, c.fragmentSize) && st.reassembly.Exists(s)
    ensures SlotsFrom(st.reassembly, FinishSlot(c, st, s, d, process).state.reassembly, s, Some(d))
  {
    hide ReceiveWhole, Buffer.Exists, Buffer.Remove, SlotShape;
    var after := FinishSlot(c, st, s, d, process).state.reassembly;
    if d.numFragmentsReceived == d.numFragmentsTotal {
      CompleteSlotReads(d, s, c.fragmentSize);
      var st0 := SetEntry(st, s, d.(packetData := []));
      SetEntryFind(st, s, d.(packetData := []), s);
      WholeKeepsSizes(c, st0, Reassembled(d), process);
      WholeSlots(c, st0, Reassembled(d), process);
      var st1 := ReceiveWhole(c, st0, Reassembled(d), process).state;
      forall t: u16 | after.Exists(t)
        ensures t != s && after.Find(t) == st.reassembly.Find(t)
      {
        RemoveOnlyClears(st1.reassembly, s, t);
        SetEntryFind(st, s, d.(packetData := []), t);
      }
    } else {
      forall t: u16 | after.Exists(t)
        ensures after.Find(t) == if t == s then Some(d) else st.reassembly.Find(t)
      {
        SetEntryFind(st, s, d, t);
      }
    }
  }

  /** Opening a slot leaves the others as they were, or clears them. */
  lemma OpenSlots(c: Config, st: State, f: FragmentHeader, t: u16)
    requires Sized(c, st) && OpenSlot(c, st, f).Some? && t != f.sequence
    ensures OpenSlot(c, st, f).value.reassembly.WellFormed()
    ensures OpenSlot(c, st, f).value.reassembly.Exists(t) ==>
              OpenSlot(c, st, f).value.reassembly.Find(t) == st.reassembly.Find(t)
  {
    hide Buffer.Advance, Buffer.Put;
    if !st.reassembly.Exists(f.sequence) {
      AdvanceOnlyClears(st.reassembly, f.sequence, t);
      PutOnlyAdds(st.reassembly.Advance(f.sequence), f.sequence, FreshReassembly(f.total, c.fragmentSize), t);
    }
  }

  // ---------------------------------------------------------------- what is stored and delivered is genuine

  /** The slot a fragment meets is genuine: it was before, or it is empty. */
  lemma OpenSlotGenuine(c: Config, x: Peer, y: Peer, f: FragmentHeader, open: State, d: FragmentReassemblyData)
    requires c.Valid() && PeerInv(c, x, y) && OpenSlot(c, x.state, f) == Some(open) && open.reassembly.WellFormed()
    requires d == open.reassembly.entries[open.reassembly.Index(f.sequence)]
    ensures x.state.reassembly.WellFormed() && SlotGenuine(c, d, f.sequence, y, OldParts(x, f.sequence))
  {
    hide SendInv, HistoryInv, FrameOk, Genuine, ReceiptOk, EvidenceOk, PartGenuine, HoldsHeader, FreshReassembly,
         OpenSlot, ReassemblyInv;
    StatePart(c, x, y);
    if x.state.reassembly.Exists(f.sequence) {
      OpenIsThere(c, x.state, f);
      assert SlotKnown(c, x.state, y, x.parts, f.sequence);
    } else {
      FreshIsOpen(c, x.state, open, f);
      FreshIsEmpty(f.total, c.fragmentSize);
    }
  }

  lemma FreshIsEmpty(total: nat, fragmentSize: nat)
    ensures |FreshReassembly(total, fragmentSize).fragmentReceived| == 256
    ensures forall i :: 0 <= i < 256 ==> !FreshReassembly(total, fragmentSize).fragmentReceived[i]
  {
  }

  /** Storing a fragment from the network keeps the slot genuine. */
  lemma StoredGenuine(c: Config, y: Peer, f: Frame, h: FragmentHeader, d: FragmentReassemblyData,
                      d': FragmentReassemblyData,
                      parts: map<nat, Frame>)
    requires c.Valid() && FrameOk(c, y, f) && f in y.wire && h.sequence == Wrap(f.number)
    requires var packet := y.packets[f.number];
             && h.id < NumFragments(|packet|, c.fragmentSize) && h.id * c.fragmentSize <= |packet|
             && h == FragmentOf(Wrap(f.number), f.ack, f.ackBits, NumFragments(|packet|, c.fragmentSize), h.id)
             && Fitting(d, h, Chunk(packet, h.id, c.fragmentSize), c.maxFragments, c.fragmentSize)
             && d' == Gained(d, h, Chunk(packet, h.id, c.fragmentSize), c.maxFragments, c.fragmentSize)
    requires SlotGenuine(c, d, h.sequence, y, parts)
    ensures SlotGenuine(c, d', h.sequence, y, parts[h.id := f])
  {
    hide Received, EncodeHeader, EmbeddedHeader, HoldsChunk, HoldsHeader, Datagrams, Backed, Repeats;
    var packet := y.packets[f.number];
    var payload := Chunk(packet, h.id, c.fragmentSize);
    var parts' := parts[h.id := f];
    StoredData(d, h, payload, c.maxFragments, c.fragmentSize);
    forall i: nat | i < |d'.fragmentReceived| && d'.fragmentReceived[i]
      ensures PartGenuine(c, d', h.sequence, y, parts', i)
    {
      if i == h.id {
        ChunkStored(d, h, packet, c.maxFragments, c.fragmentSize);
      } else {
        assert PartGenuine(c, d, h.sequence, y, parts, i);
        ChunkKept(d, h, payload, c.maxFragments, c.fragmentSize, i, y.packets[parts[i].number]);
      }
    }
    if |d'.fragmentReceived| > 0 && d'.fragmentReceived[0] {
      HeaderAfterStore(d, h, payload, c.maxFragments, c.fragmentSize, parts'[0].ack, parts'[0].ackBits);
    }
  }

  /** The numbers of the packets whose fragments a slot holds. */
  function NumbersOf(parts: map<nat, Frame>, total: nat): seq<nat> {
    seq(total, i requires 0 <= i < total => if i in parts then parts[i].number else 0)
  }

  /** A complete genuine slot delivers the splice of the fragments it holds. */
  lemma PayloadGenuine(c: Config, d: FragmentReassemblyData, s: u16, y: Peer, parts: map<nat, Frame>)
    requires SlotGenuine(c, d, s, y, parts) && SlotShape(d, s, c.fragmentSize)
    requires d.numFragmentsReceived == d.numFragmentsTotal
    requires MAX_PACKET_HEADER_BYTES + d.packetBytes <= |d.packetData|
    ensures var numbers := NumbersOf(parts, d.numFragmentsTotal);
            && Alike(numbers, s, |y.packets|) && Splice(Payload(d), Chosen(y.packets, numbers), c.fragmentSize)
            && forall i :: 0 <= i < |numbers| ==> i in parts
  {
    hide HoldsChunk, HoldsHeader, Splice;
    FullCount(d.fragmentReceived, d.numFragmentsTotal);
    var numbers := NumbersOf(parts, d.numFragmentsTotal);
    forall i | 0 <= i < |numbers|
      ensures i in parts && numbers[i] < |y.packets| && Wrap(numbers[i]) == s
      ensures HoldsChunk(d, i, y.packets[numbers[i]], c.fragmentSize)
    {
      assert PartGenuine(c, d, s, y, parts, i);
    }
    CompleteSlot(d, Chosen(y.packets, numbers), c.fragmentSize);
  }

  // ---------------------------------------------------------------- receiving

  /** What one datagram from the network brings about at its receiver. */
  ghost predicate ReceivedWell(c: Config, x: Peer, y: Peer, f: Frame, r: Receiving)
    requires c.Valid() && StateInv(c, x.state) && |f.data| > 0 && f.number < |y.packets|
  {
    && Sized(c, r.state) && ReceivedFrom(x.state, r) && |r.calls| <= 1
    && (r.calls != [] ==> r.calls[0].sequence == Wrap(f.number)
                          && PayloadOf(c, r.calls[0].payload, Receipt(f.number, 0, SourcesOf(c, x, f), 0), y.packets))
    && SlotsKnown(c, r.state, y, PartsAfter(c, x, f))
  }

  ghost predicate SlotsKnown(c: Config, st: State, y: Peer, parts: map<u16, map<nat, Frame>>) {
    st.reassembly.WellFormed() && forall s: u16 :: st.reassembly.Exists(s) ==> SlotKnown(c, st, y, parts, s)
  }

  lemma FramePart(c: Config, y: Peer, f: Frame)
    requires c.Valid() && FrameOk(c, y, f)
    ensures f.number < |y.packets| && 0 < |y.packets[f.number]| <= c.maxPacketSize
  {
  }

  lemma SlotPart(c: Config, x: Peer, y: Peer)
    requires c.Valid() && PeerInv(c, x, y)
    ensures StateInv(c, x.state)
    ensures forall s: u16 :: x.state.reassembly.Exists(s) ==> SlotKnown(c, x.state, y, x.parts, s)
  {
  }

  lemma RegularWell(c: Config, x: Peer, y: Peer, f: Frame, i: nat, process: Process)
    requires c.Valid() && PeerInv(c, x, y) && ReadsAs(c, y, f, i) && f.data[0] % 2 == 0 && StateInv(c, x.state)
    requires StoredAs(c, x.state, f.data) == None && f.number < |y.packets|
    ensures ReceivedWell(c, x, y, f, ReceiveWhole(c, x.state, f.data, process))
  {
    hide ReceiveWhole, PeerInv, SlotGenuine, DecodeHeader, FrameOk, ReassemblyInv, StoredAs;
    SlotPart(c, x, y);
    var r := ReceiveWhole(c, x.state, f.data, process);
    WholeKeepsSizes(c, x.state, f.data, process);
    WholeReceived(c, x.state, f.data, process);
    CallOfWhole(c, x.state, f.data, process);
    WholeSlots(c, x.state, f.data, process);
    forall s: u16 | r.state.reassembly.Exists(s)
      ensures SlotKnown(c, r.state, y, PartsAfter(c, x, f), s)
    {
      assert r.state.reassembly.Find(s) == x.state.reassembly.Find(s);
      assert SlotKnown(c, x.state, y, x.parts, s);
    }
  }

  lemma QuietWell(c: Config, x: Peer, y: Peer, f: Frame, r: Receiving)
    requires c.Valid() && PeerInv(c, x, y) && StateInv(c, x.state) && |f.data| > 0 && f.number < |y.packets|
    requires StoredAs(c, x.state, f.data) == None
    requires r.calls == [] && r.state == x.state.(counters := r.state.counters)
    ensures ReceivedWell(c, x, y, f, r)
  {
    hide PeerInv, SlotGenuine, ReassemblyInv, StoredAs;
    SlotPart(c, x, y);
    forall s: u16 | r.state.reassembly.Exists(s)
      ensures SlotKnown(c, r.state, y, PartsAfter(c, x, f), s)
    {
      assert SlotKnown(c, x.state, y, x.parts, s);
    }
  }

  lemma FragmentWell(c: Config, x: Peer, y: Peer, f: Frame, i: nat, process: Process, k: Case)
    requires c.Valid() && PeerInv(c, x, y) && f in y.wire && ReadsAs(c, y, f, i) && f.data[0] % 2 == 1
    requires StateInv(c, x.state) && f.number < |y.packets|
    requires k.Stored? && StoresFragment(c, x.state, f.data, k.f, k.open, k.d, k.d')
             && StoredAs(c, x.state, f.data) == Some(k.f)
    ensures SlotGenuine(c, k.d', k.f.sequence, y, SlotParts(x, k.f, f)) && k.f.sequence == Wrap(f.number)
    ensures ReceivedWell(c, x, y, f, FinishSlot(c, k.open, k.f.sequence, k.d', process))
  {
    hide PeerInv, DecodeFragment, EncodeHeader, EmbeddedHeader, HoldsChunk, HoldsHeader, OpenSlot, FinishSlot, Received,
         SlotGenuine, Fitting, PayloadOf, Datagrams, Backed, ReassemblyInv, FragmentPayload, Buffer.Exists,
         Buffer.Index, StoredAs, Repeats;
    var s := k.f.sequence;
    OpenSlotGenuine(c, x, y, k.f, k.open, k.d);
    StoredGenuine(c, y, f, k.f, k.d, k.d', OldParts(x, s));
    var r := FinishSlot(c, k.open, s, k.d', process);
    FinishFrame(c, k.open, s, k.d', process);
    FinishKeeps(c, k.open, s, k.d', process);
    if r.calls != [] {
      CompletedPayload(c, x, y, f, k, i);
    }
    forall t: u16 | r.state.received.Exists(t)
      ensures x.state.received.Exists(t) || AcceptedOf(r) == Some(t)
    {
      OpenReceived(c, x.state, k.f, t);
    }
    FinishedSlotsGenuine(c, x, y, k.f, k.open, k.d', process, SlotParts(x, k.f, f));
  }

  /** The payload of a packet put together, one of whose fragments has just come in. */
  lemma CompletedPayload(c: Config, x: Peer, y: Peer, f: Frame, k: Case, i: nat)
    requires c.Valid() && StateInv(c, x.state) && ReadsAs(c, y, f, i) && f.data[0] % 2 == 1 && f.number < |y.packets|
    requires k.Stored? && StoresFragment(c, x.state, f.data, k.f, k.open, k.d, k.d')
             && StoredAs(c, x.state, f.data) == Some(k.f)
    requires SlotGenuine(c, k.d', k.f.sequence, y, SlotParts(x, k.f, f)) && k.f.sequence == Wrap(f.number)
    requires k.d'.numFragmentsReceived == k.d'.numFragmentsTotal
    requires MAX_PACKET_HEADER_BYTES + k.d'.packetBytes <= |k.d'.packetData|
    ensures PayloadOf(c, Payload(k.d'), Receipt(f.number, 0, SourcesOf(c, x, f), 0), y.packets)
  {
    hide DecodeFragment, HoldsChunk, HoldsHeader, OpenSlot, SlotGenuine, FrameOk, ReassemblyInv, StoredAs, Splice,
         Payload, SlotShape, OldParts;
    var parts := SlotParts(x, k.f, f);
    PayloadGenuine(c, k.d', k.f.sequence, y, parts);
    StoredData(k.d, k.f, FragmentPayload(f.data, k.f), c.maxFragments, c.fragmentSize);
    assert SourcesOf(c, x, f) == NumbersOf(parts, k.f.total);
    assert SourcesOf(c, x, f)[k.f.id] == f.number;
  }

  lemma FinishKeeps(c: Config, st: State, s: u16, d: FragmentReassemblyData, process: Process)
    requires c.Valid() && StateInv(c, st) && SlotShape(d, s, c.fragmentSize)
    ensures Sized(c, FinishSlot(c, st, s, d, process).state)
  {
    hide ReceiveWhole;
    if d.numFragmentsReceived == d.numFragmentsTotal {
      CompleteSlotReads(d, s, c.fragmentSize);
      WholeKeepsSizes(c, SetEntry(st, s, d.(packetData := [])), Reassembled(d), process);
    }
  }

  lemma FinishedSlotsGenuine(c: Config, x: Peer, y: Peer, f: FragmentHeader, open: State, d: FragmentReassemblyData,
                             process: Process, parts: map<nat, Frame>)
    requires c.Valid() && PeerInv(c, x, y) && OpenSlot(c, x.state, f) == Some(open) && StateInv(c, open)
    requires open.reassembly.Exists(f.sequence) && SlotShape(d, f.sequence, c.fragmentSize)
    requires SlotGenuine(c, d, f.sequence, y, parts)
    ensures SlotsKnown(c, FinishSlot(c, open, f.sequence, d, process).state, y, x.parts[f.sequence := parts])
  {
    hide PeerInv, OpenSlot, FinishSlot, SlotGenuine, ReassemblyInv, SlotShape;
    SlotPart(c, x, y);
    FinishSlots(c, open, f.sequence, d, process);
    var st := FinishSlot(c, open, f.sequence, d, process).state;
    forall t: u16 | st.reassembly.Exists(t)
      ensures SlotKnown(c, st, y, x.parts[f.sequence := parts], t)
    {
      if t != f.sequence {
        OpenSlots(c, x.state, f, t);
        assert SlotKnown(c, x.state, y, x.parts, t);
      }
    }
  }

  // ---------------------------------------------------------------- acks

  /** The header of the packet of a datagram. */
  function HeaderIn(f: Frame): PacketHeader {
    PacketHeader(0, Wrap(f.number), f.ack, f.ackBits)
  }

  /** The acks that a datagram causes to be processed are those of a datagram of the network with the same sequence: its
      own, or the one that brought fragment 0. */
  ghost predicate AcksFrom(c: Config, x: Peer, y: Peer, f: Frame, r: Receiving)
    requires c.Valid() && StateInv(c, x.state) && |f.data| > 0
  {
    if AcceptedOf(r).None? then AckStep(c, x.state, r.state, None)
    else
      var g := HeaderFrame(c, x, f);
      && g in y.wire && Wrap(g.number) == Wrap(f.number) && AckStep(c, x.state, r.state, Some(HeaderIn(g)))
  }

  lemma AckStepOnlyAcks(c: Config, st: State, st': State, h: PacketHeader, g: Frame)
    requires AckStep(c, st, st', Some(h)) && h.ack == g.ack && h.ackBits == g.ackBits
    ensures AckStep(c, st, st', Some(HeaderIn(g)))
  {
  }

  lemma SameHeader(d: FragmentReassemblyData, s: u16, a1: u16, b1: u32, a2: u16, b2: u32)
    requires HoldsHeader(d, s, a1, b1) && HoldsHeader(d, s, a2, b2)
    ensures a1 == a2 && b1 == b2
  {
    hide EncodeHeader;
    EncodingsArePrefixFree(s, a1, b1, s, a2, b2, [], []);
  }

  lemma RegularAcks(c: Config, x: Peer, y: Peer, f: Frame, i: nat, process: Process)
    requires c.Valid() && StateInv(c, x.state) && f in y.wire && ReadsAs(c, y, f, i) && f.data[0] % 2 == 0
    requires StoredAs(c, x.state, f.data) == None
    ensures AcksFrom(c, x, y, f, ReceiveWhole(c, x.state, f.data, process))
  {
    hide ReceiveWhole, DecodeHeader, FrameOk, ReassemblyInv, AckStep, StoredAs;
    var r := ReceiveWhole(c, x.state, f.data, process);
    WholeAcks(c, x.state, f.data, process);
    CallOfWhole(c, x.state, f.data, process);
    if AcceptedOf(r).Some? {
      AckStepOnlyAcks(c, x.state, r.state, DecodeHeader(f.data).value, f);
    }
  }

  lemma FragmentAcks(c: Config, x: Peer, y: Peer, f: Frame, process: Process, k: Case)
    requires c.Valid() && StateInv(c, x.state) && |f.data| > 0
    requires k.Stored? && StoresFragment(c, x.state, f.data, k.f, k.open, k.d, k.d')
             && StoredAs(c, x.state, f.data) == Some(k.f)
    requires SlotGenuine(c, k.d', k.f.sequence, y, SlotParts(x, k.f, f)) && k.f.sequence == Wrap(f.number)
    ensures AcksFrom(c, x, y, f, FinishSlot(c, k.open, k.f.sequence, k.d', process))
  {
    hide FinishSlot, HoldsHeader, HoldsChunk, AckStep, ReassemblyInv, Received, OpenSlot, Fitting, DecodeFragment,
         StoredAs, OldParts;
    var s := k.f.sequence;
    var r := FinishSlot(c, k.open, s, k.d', process);
    var header := FinishAcks(c, k.open, s, k.d', process);
    OpenKeepsSent(c, x.state, k.f, k.open, r.state, header);
    if header.Some? {
      FullCount(k.d'.fragmentReceived, k.d'.numFragmentsTotal);
      var parts := SlotParts(x, k.f, f);
      assert PartGenuine(c, k.d', s, y, parts, 0);
      SameHeader(k.d', s, header.value.ack, header.value.ackBits, parts[0].ack, parts[0].ackBits);
      AckStepOnlyAcks(c, x.state, r.state, header.value, parts[0]);
    }
  }

  // ---------------------------------------------------------------- a receive keeps the invariant

  /** What a datagram of the network does at its receiver, and where the acks it brings come from. */
  lemma DeliveryIsWell(c: Config, x: Peer, y: Peer, f: Frame, process: Process)
    requires c.Valid() && PeerInv(c, x, y) && f in y.wire && FrameOk(c, y, f)
    ensures StateInv(c, x.state) && |f.data| > 0 && f.number < |y.packets|
    ensures ReceivedWell(c, x, y, f, Receive(c, x.state, f.data, process))
    ensures AcksFrom(c, x, y, f, Receive(c, x.state, f.data, process))
  {
    hide Receive, FrameOk, PeerInv, ReceiveWhole, FinishSlot, StoresFragment, SlotGenuine, ReceivedWell, AckStep,
         ReassemblyInv, DecodeHeader, DecodeFragment, HoldsHeader, StoredAs;
    StatePart(c, x, y);
    FramePart(c, y, f);
    var i := FrameReads(c, y, f);
    var k := ReceiveCases(c, x.state, f.data, process);
    match k
    case Quiet =>
      QuietAcks(c, x.state, Receive(c, x.state, f.data, process).state);
      QuietWell(c, x, y, f, Receive(c, x.state, f.data, process));
    case Regular =>
      RegularWell(c, x, y, f, i, process);
      RegularAcks(c, x, y, f, i, process);
    case Stored(h, open, d, d') =>
      FragmentWell(c, x, y, f, i, process, k);
      FragmentAcks(c, x, y, f, process, k);
  }

  lemma QuietAcks(c: Config, st: State, st': State)
    requires st.sent.WellFormed() && st' == st.(counters := st'.counters)
    requires st'.counters.packetsAcked == st.counters.packetsAcked
    ensures AckStep(c, st, st', None)
  {
  }

  lemma ReceiveKeepsHistories(c: Config, x: Peer, f: Frame, process: Process)
    requires c.Valid() && CanSend(c) && SendInv(c, SendHistory(x.state, |x.packets|, x.reported)) && |f.data| > 0
    requires WindowsFit(c) ==> HistoryInv(c, History(x.state, x.mark, x.past))
    ensures var x' := PeerReceives(c, x, f, process);
            && SendInv(c, SendHistory(x'.state, |x'.packets|, x'.reported))
            && (WindowsFit(c) ==> HistoryInv(c, History(x'.state, x'.mark, x'.past)))
  {
    hide TracksWindow, LogOk, ReassemblyInv, Receive, HistoryInv, HeaderFrame, PartsAfter, SourcesOf, MarkAfter,
         Numbers;
    var h := SendHistory(x.state, |x.packets|, x.reported);
    var e := ReceivePacket(f.data, process);
    ObserveKeepsSendInv(c, h, e);
    var x' := PeerReceives(c, x, f, process);
    assert ObserveSent(c, h, e) == SendHistory(x'.state, |x'.packets|, x'.reported);
    if WindowsFit(c) {
      ObserveKeepsInv(c, History(x.state, x.mark, x.past), e);
      assert Observe(c, History(x.state, x.mark, x.past), e) == History(x'.state, x'.mark, x'.past);
    }
  }

  /** The acks a datagram adds are the sequences of set bits of the header that is processed. */
  lemma AddedIsCovered(c: Config, x: Peer, y: Peer, f: Frame, process: Process, s: u16)
    requires c.Valid() && StateInv(c, x.state) && |f.data| > 0
    requires AcksFrom(c, x, y, f, Receive(c, x.state, f.data, process))
    requires forall g :: g in y.wire ==> FrameOk(c, y, g)
    requires s in AddedAcks(x.state, Receive(c, x.state, f.data, process).state)
    ensures var g := HeaderFrame(c, x, f); g in y.wire && s in g.covers && ReceiptFor(y, g.covers[s], s)
  {
    hide Receive, ReassemblyInv, Marked, Pending, Acknowledges, HeaderFrame, Datagrams, Repeats;
    var g := HeaderFrame(c, x, f);
    AcksInClosedForm(c, x.state, g.ack, g.ackBits);
    assert FrameOk(c, y, g);
    var j: nat :| Acknowledges(g.ack, g.ackBits, 0, j, s);
    AcknowledgesIs(g.ack, g.ackBits, j, s);
  }

  lemma AcknowledgesIs(ack: u16, ackBits: nat, j: nat, s: u16)
    ensures Acknowledges(ack, ackBits, 0, j, s) <==> j < 32 && Bit(ackBits, j) && BitNumber(ack, j) == s
  {
  }

  /** What is newly reported, and the evidence for it, ack by ack. */
  lemma NewlyReported(c: Config, x: Peer, f: Frame, process: Process, i: nat)
    requires c.Valid() && StateInv(c, x.state) && |f.data| > 0 && |x.evidence| == |x.reported| <= i
    ensures var x', k := PeerReceives(c, x, f, process), i - |x.reported|;
            var acked := AddedAcks(x.state, Receive(c, x.state, f.data, process).state);
            && |x'.evidence| == |x'.reported| && x'.packets == x.packets
            && (i < |x'.reported| ==>
                  && k < |acked| && x'.reported[i] == Unwrap(|x.packets|, acked[k])
                  && x'.evidence[i] == EvidenceOf(HeaderFrame(c, x, f).covers, |x.packets|, acked[k]))
  {
    hide Receive, ReassemblyInv, HeaderFrame, PartsAfter, SourcesOf, MarkAfter, AddedAcks, EvidenceOf, Unwrap;
  }

  /** Every ack newly reported rests on a receipt. */
  lemma NewEvidence(c: Config, x: Peer, y: Peer, f: Frame, process: Process, i: nat)
    requires c.Valid() && PeerInv(c, x, y) && StateInv(c, x.state) && |f.data| > 0
    requires AcksFrom(c, x, y, f, Receive(c, x.state, f.data, process))
    requires forall g :: g in y.wire ==> FrameOk(c, y, g)
    requires forall e :: 0 <= e < |y.receipts| ==> y.receipts[e].number < |x.packets|
    requires SendInv(c, SendHistory(PeerReceives(c, x, f, process).state, |x.packets|,
                                    PeerReceives(c, x, f, process).reported))
    ensures var x' := PeerReceives(c, x, f, process);
            |x'.evidence| == |x'.reported| && (|x.reported| <= i < |x'.reported| ==> EvidenceOk(x', y, i))
  {
    hide Receive, PeerInv, ReassemblyInv, AcksFrom, FrameOk, HeaderFrame, TracksWindow, PeerReceives, AddedAcks;
    EvidencePart(c, x, y);
    NewlyReported(c, x, f, process, if i < |x.reported| then |x.reported| else i);
    if |x.reported| <= i < |PeerReceives(c, x, f, process).reported| {
      var acked := AddedAcks(x.state, Receive(c, x.state, f.data, process).state);
      AddedIsCovered(c, x, y, f, process, acked[i - |x.reported|]);
    }
  }

  lemma EvidencePart(c: Config, x: Peer, y: Peer)
    requires c.Valid() && PeerInv(c, x, y)
    ensures |x.evidence| == |x.reported|
    ensures forall i :: 0 <= i < |x.reported| ==> EvidenceOk(x, y, i)
  {
  }

  lemma EvidenceKept(x: Peer, x': Peer, y: Peer, i: nat)
    requires i < |x.reported| == |x.evidence| && EvidenceOk(x, y, i) && |x'.evidence| == |x'.reported|
    requires x.reported <= x'.reported && x.evidence <= x'.evidence && |x.packets| <= |x'.packets|
    ensures EvidenceOk(x', y, i)
  {
  }

  /** What was handed over is genuine. */
  lemma PayloadIsGenuine(c: Config, payload: bytes, t: Receipt, packets: seq<bytes>)
    requires t.number < |packets| && PayloadOf(c, payload, t, packets)
    ensures Genuine(c, payload, Wrap(t.number), packets)
  {
    hide Splice;
  }

  lemma ReceiveKeeps(c: Config, x: Peer, y: Peer, f: Frame, process: Process)
    requires c.Valid() && CanSend(c) && PeerInv(c, x, y) && PeerInv(c, y, x) && f in y.wire
    ensures StateInv(c, x.state)
    ensures PeerInv(c, PeerReceives(c, x, f, process), y) && Grows(x, PeerReceives(c, x, f, process))
  {
    hide Receive, SendInv, HistoryInv, SlotKnown, Genuine, ReassemblyInv, AcksFrom, FrameOk, HeaderFrame, SourcesOf,
         PartsAfter, MarkAfter, AddedAcks, Numbers, EvidenceOk, ReceiptOk, PayloadOf;
    StatePart(c, x, y);
    DeliveryIsWell(c, x, y, f, process);
    var x' := PeerReceives(c, x, f, process);
    ReceiveKeepsHistories(c, x, f, process);
    EvidenceHolds(c, x, y, f, process);
    ReceiptsHold(c, x, y, f, process);
    CountsHold(c, x, y, f, process);
    DeliveredHolds(c, x, y, f, process);
    LatestHolds(c, x, y, f, process);
    forall fr | fr in x'.wire
      ensures FrameOk(c, x', fr)
    {
      FrameOkGrows(c, x, x', fr);
    }
  }

  lemma EvidenceHolds(c: Config, x: Peer, y: Peer, f: Frame, process: Process)
    requires c.Valid() && CanSend(c) && PeerInv(c, x, y) && PeerInv(c, y, x) && StateInv(c, x.state) && |f.data| > 0
    requires AcksFrom(c, x, y, f, Receive(c, x.state, f.data, process))
    requires SendInv(c, SendHistory(PeerReceives(c, x, f, process).state, |x.packets|,
                                    PeerReceives(c, x, f, process).reported))
    ensures var x' := PeerReceives(c, x, f, process);
            |x'.evidence| == |x'.reported| && forall i :: 0 <= i < |x'.reported| ==> EvidenceOk(x', y, i)
  {
    hide Receive, SendInv, HistoryInv, SlotKnown, Genuine, ReassemblyInv, AcksFrom, FrameOk, HeaderFrame, SourcesOf,
         PartsAfter, MarkAfter, AddedAcks, Numbers, EvidenceOk, ReceiptOk;
    var x' := PeerReceives(c, x, f, process);
    ReceiptNumbers(c, x, y);
    NewEvidence(c, x, y, f, process, 0);
    forall i | 0 <= i < |x'.reported|
      ensures EvidenceOk(x', y, i)
    {
      NewEvidence(c, x, y, f, process, i);
      if i < |x.reported| {
        EvidenceKept(x, x', y, i);
      }
    }
  }

  lemma ReceiptsHold(c: Config, x: Peer, y: Peer, f: Frame, process: Process)
    requires c.Valid() && CanSend(c) && PeerInv(c, x, y) && StateInv(c, x.state) && |f.data| > 0
             && f.number < |y.packets|
    requires ReceivedWell(c, x, y, f, Receive(c, x.state, f.data, process))
    ensures var x' := PeerReceives(c, x, f, process);
            && |x'.past| == |x'.receipts|
            && forall e :: 0 <= e < |x'.receipts| ==>
                 ReceiptOk(c, x', y, e) && x'.past[e].sequence == Wrap(x'.receipts[e].number)
  {
    hide Receive, SendInv, HistoryInv, SlotKnown, Genuine, ReassemblyInv, FrameOk, HeaderFrame, SourcesOf, PartsAfter,
         MarkAfter, AddedAcks, Numbers, EvidenceOk, PayloadOf;
    var r := Receive(c, x.state, f.data, process);
    var x' := PeerReceives(c, x, f, process);
    SameGrows(y);
    forall e | 0 <= e < |x'.receipts|
      ensures ReceiptOk(c, x', y, e) && x'.past[e].sequence == Wrap(x'.receipts[e].number)
    {
      if e < |x.receipts| {
        ReceiptGrows(c, x, x', y, y, e);
      } else {
        assert x'.delivered[|x.delivered|] == r.calls[0];
        SamePayload(c, r.calls[0].payload, Receipt(f.number, 0, SourcesOf(c, x, f), 0), x'.receipts[e], y.packets);
      }
    }
  }

  lemma CountsHold(c: Config, x: Peer, y: Peer, f: Frame, process: Process)
    requires c.Valid() && CanSend(c) && PeerInv(c, x, y) && StateInv(c, x.state) && |f.data| > 0
             && f.number < |y.packets|
    requires ReceivedWell(c, x, y, f, Receive(c, x.state, f.data, process))
    ensures var x' := PeerReceives(c, x, f, process);
            && |x'.past| == |x'.receipts|
            && (WindowsFit(c) ==> forall e :: 0 <= e < |x'.receipts| ==> CountedFrom(x', e))
  {
    hide Receive, SendInv, HistoryInv, SlotKnown, Genuine, ReassemblyInv, FrameOk, HeaderFrame, SourcesOf, PartsAfter,
         MarkAfter, AddedAcks, Numbers, EvidenceOk, PayloadOf, ReceiptOk, SlotsKnown, ReceivedFrom, SequenceIn;
    var r := Receive(c, x.state, f.data, process);
    var x' := PeerReceives(c, x, f, process);
    if WindowsFit(c) {
      StateOf(c, History(x.state, x.mark, x.past));
      DatagramMovesMark(c, x.state, x.mark, f.data, process);
      forall e | 0 <= e < |x'.receipts|
        ensures CountedFrom(x', e)
      {
        if e < |x.receipts| {
          assert CountedFrom(x, e);
        }
      }
    }
  }

  lemma SamePayload(c: Config, payload: bytes, t: Receipt, t': Receipt, packets: seq<bytes>)
    requires t'.number == t.number < |packets| && t'.sources == t.sources && PayloadOf(c, payload, t, packets)
    ensures PayloadOf(c, payload, t', packets)
  {
  }

  lemma DeliveredHolds(c: Config, x: Peer, y: Peer, f: Frame, process: Process)
    requires c.Valid() && CanSend(c) && PeerInv(c, x, y) && StateInv(c, x.state) && |f.data| > 0
             && f.number < |y.packets|
    requires ReceivedWell(c, x, y, f, Receive(c, x.state, f.data, process))
    ensures var x' := PeerReceives(c, x, f, process);
            && (forall i :: 0 <= i < |x'.delivered| ==>
                  Genuine(c, x'.delivered[i].payload, x'.delivered[i].sequence, y.packets))
            && SlotsKnown(c, x'.state, y, x'.parts)
  {
    hide Receive, SendInv, HistoryInv, SlotKnown, Genuine, ReassemblyInv, FrameOk, HeaderFrame, SourcesOf, PartsAfter,
         MarkAfter, AddedAcks, Numbers, EvidenceOk, ReceiptOk, PayloadOf;
    var r := Receive(c, x.state, f.data, process);
    var x' := PeerReceives(c, x, f, process);
    forall i | 0 <= i < |x'.delivered|
      ensures Genuine(c, x'.delivered[i].payload, x'.delivered[i].sequence, y.packets)
    {
      if i >= |x.delivered| {
        PayloadIsGenuine(c, r.calls[0].payload, Receipt(f.number, 0, SourcesOf(c, x, f), 0), y.packets);
      }
    }
  }

  lemma LatestHolds(c: Config, x: Peer, y: Peer, f: Frame, process: Process)
    requires c.Valid() && CanSend(c) && PeerInv(c, x, y) && StateInv(c, x.state) && |f.data| > 0
             && f.number < |y.packets|
    requires ReceivedWell(c, x, y, f, Receive(c, x.state, f.data, process))
    ensures var x' := PeerReceives(c, x, f, process);
            && x'.state.received.WellFormed()
            && (forall s: u16 :: x'.state.received.Exists(s) ==> s in x'.latest)
            && (forall s :: s in x'.latest ==> ReceiptFor(x', x'.latest[s], s))
  {
    hide Receive, SendInv, HistoryInv, SlotKnown, Genuine, ReassemblyInv, FrameOk, HeaderFrame, SourcesOf, PartsAfter,
         MarkAfter, AddedAcks, Numbers, EvidenceOk, ReceiptOk, PayloadOf, Buffer.Exists;
    var x' := PeerReceives(c, x, f, process);
    forall s | s in x'.latest
      ensures ReceiptFor(x', x'.latest[s], s)
    {
      if s in x.latest {
        assert ReceiptFor(x, x.latest[s], s);
      }
    }
  }

  lemma ReceiptNumbers(c: Config, x: Peer, y: Peer)
    requires c.Valid() && PeerInv(c, y, x)
    ensures forall e :: 0 <= e < |y.receipts| ==> y.receipts[e].number < |x.packets|
  {
    forall e | 0 <= e < |y.receipts|
      ensures y.receipts[e].number < |x.packets|
    {
      assert ReceiptOk(c, y, x, e);
    }
  }
}
