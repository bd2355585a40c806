/** Fragmentation round trip: the fragments of a packet, delivered in any order, with duplicates and with any other
    traffic in between, make the receiver see the packet exactly once and byte for byte. */
module RoundTrip {
  import opened Wrappers
  import opened Sequence
  import opened Codec
  import opened CodecLaws
  import opened Buffers
  import opened Windows
  import opened Reassembly
  import opened Protocol
  import opened Invariants
  import opened ReceiveSide
  import opened SendSide

  // ---------------------------------------------------------------- what leaves a slot alone

  /** The number `k` of sequence `s` is inside the window, or ahead of it by less than half the number space. */
  predicate Near(n: nat, mark: int, k: int) {
    mark - n <= k < mark + 32767
  }

  /** Advancing keeps what is found under a number that does not leave the window. */
  lemma AdvanceKeepsFind<T>(b: Buffer<T>, mark: int, t: u16, k: int)
    requires Inv(b, mark) && Fits(b.Size()) && Near(b.Size(), mark, k)
    requires AdvancedMark(b.sequence, mark, t) - b.Size() <= k
    ensures b.Advance(t).Find(Wrap(k)) == b.Find(Wrap(k))
  {
    var mark' := AdvancedMark(b.sequence, mark, t);
    AdvanceRefines(b, mark, t);
    UnwrapIs(mark, k);
    UnwrapIs(mark', k);
    FindRefines(b, mark, Wrap(k));
    FindRefines(b.Advance(t), mark', Wrap(k));
  }

  /** Nothing is lost or found at another number of the window. */
  lemma OtherIndex<T>(b: Buffer<T>, mark: int, t: u16, s: u16)
    requires Inv(b, mark) && Fits(b.Size()) && t != s && b.Exists(s)
    requires mark - b.Size() <= Unwrap(mark, t) < mark
    ensures b.Index(s) != b.Index(t)
  {
    FindRefines(b, mark, s);
    SameIndexSameNumber(b.Size(), Unwrap(mark, s), Unwrap(mark, t));
  }

  lemma PutKeepsFind<T>(b: Buffer<T>, mark: int, t: u16, v: T, s: u16)
    requires Inv(b, mark) && Fits(b.Size()) && t != s
    requires mark - b.Size() <= Unwrap(mark, t) < mark
    ensures b.Put(t, v).Find(s) == b.Find(s)
  {
    if b.Exists(s) {
      OtherIndex(b, mark, t, s);
    }
  }

  lemma RemoveKeepsFind<T>(b: Buffer<T>, mark: int, t: u16, s: u16)
    requires Inv(b, mark) && Fits(b.Size()) && t != s
    requires mark - b.Size() <= Unwrap(mark, t) < mark
    ensures b.Remove(t).Find(s) == b.Find(s)
  {
    if b.Exists(s) {
      OtherIndex(b, mark, t, s);
    }
  }

  lemma SetEntryKeepsFind(st: State, mark: int, t: u16, d: FragmentReassemblyData, s: u16)
    requires Inv(st.reassembly, mark) && Fits(st.reassembly.Size()) && t != s
    requires mark - st.reassembly.Size() <= Unwrap(mark, t) < mark
    ensures SetEntry(st, t, d).reassembly.Find(s) == st.reassembly.Find(s)
  {
    if st.reassembly.Exists(s) {
      OtherIndex(st.reassembly, mark, t, s);
    }
  }

  /** Both views of sequence `s` are the same before and after, and no call was about it. */
  ghost predicate Untouched(st: State, st': State, calls: seq<Call>, s: u16) {
    && st.reassembly.WellFormed() && st'.reassembly.WellFormed() && st.received.WellFormed()
      && st'.received.WellFormed()
    && st'.reassembly.Find(s) == st.reassembly.Find(s)
    && st'.received.Exists(s) == st.received.Exists(s)
    && forall i :: 0 <= i < |calls| ==> calls[i].sequence != s
  }

  /** The smaller of the two windows. */
  function Reach(c: Config): nat {
    if c.receivedPacketsBufferSize < c.fragmentReassemblyBufferSize then c.receivedPacketsBufferSize
    else c.fragmentReassemblyBufferSize
  }

  lemma ExistsIsFind<T>(b: Buffer<T>, s: u16)
    requires b.WellFormed()
    ensures b.Exists(s) <==> b.Find(s).Some?
  {
  }

  /** A regular packet of another sequence. */
  lemma WholeLeavesAlone(c: Config, st: State, mark: int, data: bytes, process: Process, k: int)
    requires c.Valid() && InStep(c, st, mark) && Near(Reach(c), mark, k)
    requires DecodeHeader(data).Some? ==> DecodeHeader(data).value.sequence != Wrap(k)
    requires var r := ReceiveWhole(c, st, data, process); MarkAfter(mark, st.received, r.state.received) - Reach(c) <= k
    ensures var r := ReceiveWhole(c, st, data, process); Untouched(st, r.state, r.calls, Wrap(k))
  {
    hide ReceiveWhole, Fits, SlotInWindow, GreaterThan, LessThan, Live;
    var r := ReceiveWhole(c, st, data, process);
    var s := Wrap(k);
    WholeFrame(c, st, data, process);
    CallOfWhole(c, st, data, process);
    if r.calls != [] && r.calls[0].accepted {
      var t := r.calls[0].sequence;
      var entry := ReceivedEntry(c, st, |data|);
      var mark' := AdvancedMark(st.received.sequence, mark, t);
      InsertMoves(st.received, mark, t, entry);
      NewerExactly(st.received, mark, t);
      MarkAfterIs(mark, st.received, r.state.received, mark');
      AdvanceKeepsFind(st.reassembly, mark, t, k);
      AdvanceKeepsFind(st.received, mark, t, k);
      AdvanceMoves(st.received, mark, t);
      PutKeepsFind(st.received.Advance(t), mark', t, entry, s);
      ExistsIsFind(st.received, s);
      ExistsIsFind(r.state.received, s);
    }
  }

  /** Opening the slot of another sequence. */
  lemma OpenLeavesAlone(c: Config, st: State, mark: int, f: FragmentHeader, k: int)
    requires c.Valid() && InStep(c, st, mark) && Near(Reach(c), mark, k) && f.sequence != Wrap(k)
    requires OpenSlot(c, st, f).Some?
    requires MarkAfter(mark, st.received, OpenSlot(c, st, f).value.received) - Reach(c) <= k
    ensures Untouched(st, OpenSlot(c, st, f).value, [], Wrap(k))
  {
    var t, s := f.sequence, Wrap(k);
    if !st.reassembly.Exists(t) {
      var open := OpenSlot(c, st, f).value;
      var v := FreshReassembly(f.total, c.fragmentSize);
      var mark' := AdvancedMark(st.received.sequence, mark, t);
      OpenSlotMoves(c, st, mark, f);
      AdvanceMoves(st.received, mark, t);
      MarkAfterIs(mark, st.received, open.received, mark');
      AdvanceKeepsFind(st.reassembly, mark, t, k);
      AdvanceKeepsFind(st.received, mark, t, k);
      AdvanceKeepsInv(st.reassembly, mark, t);
      PutKeepsFind(st.reassembly.Advance(t), mark', t, v, s);
      ExistsIsFind(st.received, s);
      ExistsIsFind(open.received, s);
    }
  }

  /** Storing in, or completing, the slot of another sequence. */
  lemma FinishLeavesAlone(c: Config, st: State, mark: int, t: u16, d: FragmentReassemblyData, process: Process, k: int)
    requires c.Valid() && InStep(c, st, mark) && st.reassembly.Exists(t) && SlotShape(d, t, c.fragmentSize)
    requires Near(Reach(c), mark, k) && t != Wrap(k)
    ensures var r := FinishSlot(c, st, t, d, process); Untouched(st, r.state, r.calls, Wrap(k))
  {
    var s := Wrap(k);
    FindRefines(st.reassembly, mark, t);
    if d.numFragmentsReceived == d.numFragmentsTotal {
      var ack, ackBits := CompleteHasHeader(d, t, c.fragmentSize);
      ReassembledReads(d, t, ack, ackBits);
      var taken := d.(packetData := []);
      var st0 := SetEntry(st, t, taken);
      SetEntryInStep(c, st, mark, t, taken);
      SetEntryKeepsFind(st, mark, t, taken, s);
      var data := Reassembled(d);
      WholeMoves(c, st0, mark, data, process);
      CallOfWhole(c, st0, data, process);
      WholeLeavesAlone(c, st0, mark, data, process, k);
      RemoveKeepsFind(ReceiveWhole(c, st0, data, process).state.reassembly, mark, t, s);
    } else {
      SetEntryKeepsFind(st, mark, t, d, s);
    }
  }

  // ---------------------------------------------------------------- other traffic

  lemma StoreLeavesAlone(c: Config, st: State, mark: int, f: FragmentHeader, data: bytes, process: Process, k: int)
    requires c.Valid() && InStep(c, st, mark) && ReassemblyInv(c, st.reassembly) && st.reassembly.Exists(f.sequence)
    requires DecodeFragment(data, c.maxFragments, c.fragmentSize) == Some(f)
    requires Near(Reach(c), mark, k) && f.sequence != Wrap(k)
    ensures var r := StoreInSlot(c, st, f, data, process); Untouched(st, r.state, r.calls, Wrap(k))
  {
    var d := st.reassembly.entries[st.reassembly.Index(f.sequence)];
    SlotAt(c, st, f.sequence);
    AcceptedFragmentIsLegal(data, c.maxFragments, c.fragmentSize);
    if f.total == d.numFragmentsTotal && !d.fragmentReceived[f.id] {
      ShapeAfterStore(d, f, FragmentPayload(data, f), c.maxFragments, c.fragmentSize);
      FinishLeavesAlone(c, st, mark, f.sequence, Received(d, f, c.fragmentSize, data[FRAGMENT_HEADER_BYTES..]),
                        process, k);
    }
  }

  lemma FragmentLeavesAlone(c: Config, st: State, mark: int, data: bytes, process: Process, k: int)
    requires c.Valid() && StateInv(c, st) && InStep(c, st, mark) && Near(Reach(c), mark, k)
    requires var f := DecodeFragment(data, c.maxFragments, c.fragmentSize); f.Some? ==> f.value.sequence != Wrap(k)
    requires var r := ReceiveFragment(c, st, data, process);
             MarkAfter(mark, st.received, r.state.received) - Reach(c) <= k
    ensures var r := ReceiveFragment(c, st, data, process); Untouched(st, r.state, r.calls, Wrap(k))
  {
    var decoded := DecodeFragment(data, c.maxFragments, c.fragmentSize);
    if decoded.Some? && !st.received.Exists(decoded.value.sequence) && OpenSlot(c, st, decoded.value).Some? {
      var f := decoded.value;
      var open := OpenSlot(c, st, f).value;
      var mark1 := MarkAfter(mark, st.received, open.received);
      AcceptedFragmentIsLegal(data, c.maxFragments, c.fragmentSize);
      OpenSlotInv(c, st, f);
      OpenSlotMoves(c, st, mark, f);
      StoreMoves(c, open, mark1, f, data, process);
      var r := StoreInSlot(c, open, f, data, process);
      TwoMoves(st.received, mark, open.received, mark1, r.state.received, NumberOf(mark1, AcceptedOf(r)));
      OpenLeavesAlone(c, st, mark, f, k);
      StoreLeavesAlone(c, open, mark1, f, data, process, k);
    }
  }

  /** A datagram of another sequence, whatever its bytes, leaves a number alone that it does not push out of the
      window. */
  lemma ReceiveLeavesAlone(c: Config, st: State, mark: int, data: bytes, process: Process, k: int)
    requires c.Valid() && StateInv(c, st) && InStep(c, st, mark) && Near(Reach(c), mark, k)
    requires |data| > 0 && SequenceIn(c, data) != Some(Wrap(k))
    requires var r := Receive(c, st, data, process); MarkAfter(mark, st.received, r.state.received) - Reach(c) <= k
    ensures var r := Receive(c, st, data, process); Untouched(st, r.state, r.calls, Wrap(k))
  {
    if |data| <= c.LongestDatagram() {
      if data[0] % 2 == 0 {
        WholeLeavesAlone(c, st, mark, data, process, k);
      } else {
        FragmentLeavesAlone(c, st, mark, data, process, k);
      }
    }
  }

  // ---------------------------------------------------------------- the message

  /** A packet on its way, under its packet number and with the acks of its header. */
  datatype Message = Message(number: int, ack: u16, ackBits: u32, packet: bytes) {
    function Sequence(): u16 {
      Wrap(number)
    }

    /** What the sender's header says: its sequence and its acks. */
    function Header(): PacketHeader {
      PacketHeader(0, Sequence(), ack, ackBits)
    }

    /** A packet that travels in fragments. */
    predicate Fragmented(c: Config) {
      c.Valid() && c.fragmentAbove < |packet| <= c.maxPacketSize
    }

    function Total(c: Config): nat
      requires Fragmented(c)
    {
      NumFragments(|packet|, c.fragmentSize)
    }

    function Datagram(c: Config, i: nat): bytes
      requires Fragmented(c) && i < Total(c)
    {
      FragmentDatagram(c, Sequence(), ack, ackBits, packet, i)
    }
  }

  /** The slot holds exactly the fragments `got` of the message. */
  ghost predicate SlotHolds(c: Config, d: FragmentReassemblyData, m: Message, got: set<nat>) {
    && m.Fragmented(c) && d.numFragmentsTotal == m.Total(c) && |d.fragmentReceived| == 256
    && (forall i: nat :: i < 256 ==> (d.fragmentReceived[i] <==> i in got))
    && (forall i :: i in got ==> i < m.Total(c) && HoldsChunk(d, i, m.packet, c.fragmentSize))
    && (0 in got ==> HoldsHeader(d, m.Sequence(), m.ack, m.ackBits))
  }

  /** The receiver has the fragments `got` of the message, and the packet has not been accepted. */
  ghost predicate Collecting(c: Config, st: State, mark: int, m: Message, got: set<nat>) {
    && m.Fragmented(c) && StateInv(c, st) && InStep(c, st, mark) && Near(Reach(c), mark, m.number)
    && !st.received.Exists(m.Sequence())
    && match st.reassembly.Find(m.Sequence())
       case None => got == {}
       case Some(d) => SlotHolds(c, d, m, got)
  }

  /** All fragments of the message are among these. */
  ghost predicate Whole(c: Config, m: Message, got: set<nat>)
    requires m.Fragmented(c)
  {
    forall i: nat :: i < m.Total(c) ==> i in got
  }

  lemma MessageFits(c: Config, m: Message, i: nat)
    requires m.Fragmented(c) && i < m.Total(c)
    ensures m.Total(c) <= c.maxFragments <= 256
    ensures i * c.fragmentSize <= |m.packet|
    ensures var f, payload := FragmentOf(m.Sequence(), m.ack, m.ackBits, m.Total(c), i),
            Chunk(m.packet, i, c.fragmentSize);
            && LegalFragment(f, payload, c.maxFragments, c.fragmentSize)
            && m.Datagram(c, i) == EncodeFragment(f, payload)
            && DecodeFragment(m.Datagram(c, i), c.maxFragments, c.fragmentSize) == Some(f)
            && m.Datagram(c, i)[FRAGMENT_HEADER_BYTES..] == EmbeddedHeader(f) + payload
            && FragmentPayload(m.Datagram(c, i), f) == payload
    ensures 0 < |m.Datagram(c, i)| <= c.LongestDatagram() && m.Datagram(c, i)[0] % 2 == 1
  {
    LegalPacketsFit(c, |m.packet|);
    ChunkSize(m.packet, i, c.fragmentSize);
    var f, payload := FragmentOf(m.Sequence(), m.ack, m.ackBits, m.Total(c), i), Chunk(m.packet, i, c.fragmentSize);
    FragmentRoundTrip(f, payload, c.maxFragments, c.fragmentSize);
    var data := m.Datagram(c, i);
    assert data[0] == 1;
    assert data == data[..FRAGMENT_HEADER_BYTES] + (EmbeddedHeader(f) + payload);
    assert FragmentPayload(data, f) == payload;
  }

  // ---------------------------------------------------------------- a fragment arrives

  /** The slot of the message is found or set up. */
  lemma OpenForMessage(c: Config, st: State, mark: int, m: Message, got: set<nat>, f: FragmentHeader)
    requires Collecting(c, st, mark, m, got) && f.sequence == m.Sequence()
             && f.total == m.Total(c) <= c.maxFragments <= 256
    ensures var r := OpenSlot(c, st, f);
            && r.Some?
            && var open, mark' := r.value, MarkAfter(mark, st.received, r.value.received);
               && Collecting(c, open, mark', m, got) && open.reassembly.Exists(m.Sequence())
               && m.number < mark' && AckStep(c, st, open, None) && open.counters == st.counters
  {
    var s := m.Sequence();
    UnwrapIs(mark, m.number);
    LegalPacketsFit(c, |m.packet|);
    if st.reassembly.Exists(s) {
      OpenSlotMoves(c, st, mark, f);
    } else {
      var v := FreshReassembly(f.total, c.fragmentSize);
      InsertAdvanceFirstRefines(st.reassembly, mark, s, v);
      OpenSlotMoves(c, st, mark, f);
      OpenSlotKeepsInv(c, st, f);
      var open := OpenSlot(c, st, f).value;
      var mark' := AdvancedMark(st.received.sequence, mark, s);
      NewerExactly(st.received, mark, s);
      AdvanceMoves(st.received, mark, s);
      MarkAfterIs(mark, st.received, open.received, mark');
      AdvanceKeepsFind(st.received, mark, s, m.number);
      ExistsIsFind(st.received, s);
      ExistsIsFind(open.received, s);
      assert open.reassembly.Find(s) == Some(v);
    }
  }

  /** The next fragment of the message, still lacking in its slot. */
  ghost predicate Lacking(c: Config, d: FragmentReassemblyData, m: Message, got: set<nat>, f: FragmentHeader,
                          payload: bytes) {
    && SlotHolds(c, d, m, got) && f.id < m.Total(c) && f.id !in got
    && f == FragmentOf(m.Sequence(), m.ack, m.ackBits, m.Total(c), f.id)
    && f.id * c.fragmentSize <= |m.packet| && payload == Chunk(m.packet, f.id, c.fragmentSize)
    && Fitting(d, f, payload, c.maxFragments, c.fragmentSize)
  }

  /** Storing one more fragment of the message in its slot. */
  lemma SlotGains(c: Config, d: FragmentReassemblyData, m: Message, got: set<nat>, f: FragmentHeader, payload: bytes,
                  d': FragmentReassemblyData)
    requires Lacking(c, d, m, got, f, payload)
    requires d' == Received(d, f, c.fragmentSize, EmbeddedHeader(f) + payload)
    ensures SlotHolds(c, d', m, got + {f.id}) && SlotShape(d', m.Sequence(), c.fragmentSize)
    ensures d'.numFragmentsReceived <= d'.numFragmentsTotal
    ensures d'.numFragmentsReceived == d'.numFragmentsTotal <==> Whole(c, m, got + {f.id})
  {
    hide Received, EncodeHeader, EmbeddedHeader, HoldsChunk, HoldsHeader;
    StoredData(d, f, payload, c.maxFragments, c.fragmentSize);
    ShapeAfterStore(d, f, payload, c.maxFragments, c.fragmentSize);
    ChunkStored(d, f, m.packet, c.maxFragments, c.fragmentSize);
    forall j | j in got
      ensures HoldsChunk(d', j, m.packet, c.fragmentSize)
    {
      ChunkKept(d, f, payload, c.maxFragments, c.fragmentSize, j, m.packet);
    }
    if 0 in got + {f.id} {
      HeaderAfterStore(d, f, payload, c.maxFragments, c.fragmentSize, m.ack, m.ackBits);
    }
    CountIsWhole(c, d', m, got + {f.id});
  }

  lemma CountIsWhole(c: Config, d: FragmentReassemblyData, m: Message, got: set<nat>)
    requires m.Fragmented(c) && SlotHolds(c, d, m, got) && SlotShape(d, m.Sequence(), c.fragmentSize)
    ensures d.numFragmentsReceived == d.numFragmentsTotal <==> Whole(c, m, got)
  {
    FullCount(d.fragmentReceived, d.numFragmentsTotal);
    if Whole(c, m, got) {
      AllCount(d.fragmentReceived, d.numFragmentsTotal);
    }
  }

  /** A slot with all the fragments of the message delivers its packet and its header. */
  lemma WholeSlotReads(c: Config, d: FragmentReassemblyData, m: Message, got: set<nat>)
    requires m.Fragmented(c) && SlotHolds(c, d, m, got) && Whole(c, m, got)
    requires SlotShape(d, m.Sequence(), c.fragmentSize)
    ensures d.packetHeaderBytes <= MAX_PACKET_HEADER_BYTES && MAX_PACKET_HEADER_BYTES + d.packetBytes <= |d.packetData|
    ensures var h := DecodeHeader(Reassembled(d));
            && h.Some? && h.value.sequence == m.Sequence() && h.value.ack == m.ack && h.value.ackBits == m.ackBits
            && Reassembled(d)[h.value.size..] == m.packet
            && |Reassembled(d)| <= c.LongestDatagram()
  {
    var parts := seq(m.Total(c), _ => m.packet);
    LegalPacketsFit(c, |m.packet|);
    forall i | 0 <= i < |parts|
      ensures HoldsChunk(d, i, parts[i], c.fragmentSize)
    {
      assert i in got;
    }
    CompleteSlot(d, parts, c.fragmentSize);
    SpliceOfOne(Payload(d), parts, c.fragmentSize, m.packet);
    assert 0 in got;
    ReassembledReads(d, m.Sequence(), m.ack, m.ackBits);
    ReassembledIs(d, m.Sequence(), m.ack, m.ackBits);
  }

  /** What a completing fragment brings about. */
  ghost predicate Completed(c: Config, st: State, mark: int, m: Message, process: Process, r: Receiving) {
    && m.Fragmented(c) && StateInv(c, r.state) && InStep(c, r.state, mark)
    && r.calls == [Call(m.Sequence(), m.packet, process(m.Sequence(), m.packet))]
    && if r.calls[0].accepted then
         && r.state.received.Exists(m.Sequence())
         && exists h :: AckStep(c, st, r.state, Some(h)) && h.ack == m.ack && h.ackBits == m.ackBits
       else
         && Collecting(c, r.state, mark, m, {}) && AckStep(c, st, r.state, None)
  }

  lemma CompletesMessage(c: Config, st: State, mark: int, m: Message, got: set<nat>, d: FragmentReassemblyData,
                         process: Process)
    requires m.Fragmented(c) && StateInv(c, st) && InStep(c, st, mark) && Near(Reach(c), mark, m.number)
    requires m.number < mark && !st.received.Exists(m.Sequence()) && st.reassembly.Exists(m.Sequence())
    requires SlotHolds(c, d, m, got) && Whole(c, m, got) && SlotShape(d, m.Sequence(), c.fragmentSize)
    requires d.numFragmentsReceived == d.numFragmentsTotal <= c.maxFragments
    ensures Completed(c, st, mark, m, process, FinishSlot(c, st, m.Sequence(), d, process))
  {
    var s := m.Sequence();
    WholeSlotReads(c, d, m, got);
    FinishKeepsInv(c, st, s, d, process);
    FinishMoves(c, st, mark, s, d, process);
    var data, taken := Reassembled(d), d.(packetData := []);
    var st0 := SetEntry(st, s, taken);
    UnwrapIs(mark, m.number);
    StaleExactly(st.received, mark, s);
    var h := DecodeHeader(data).value;
    var r := ReceiveWhole(c, st0, data, process);
    CallOfWhole(c, st0, data, process);
    assert r == ReceivePayload(c, CountPacket(st0), h, m.packet, |data|, process);
    assert r.calls == [Call(s, m.packet, process(s, m.packet))];
    WholeAcks(c, st0, data, process);
    WholeFrame(c, st0, data, process);
    var finished := FinishSlot(c, st, s, d, process);
    assert finished.calls == r.calls;
    if r.calls[0].accepted {
      AcceptedIsFound(c, st0, mark, s, |data|);
      assert AckStep(c, st, finished.state, Some(h));
    } else {
      assert st0.reassembly.slots == st.reassembly.slots;
      assert finished.state.reassembly.Find(s) == None;
    }
  }

  /** What was just inserted is there. */
  lemma AcceptedIsFound(c: Config, st: State, mark: int, s: u16, size: nat)
    requires Sized(c, st) && !st.received.Stale(s) && c.packetHeaderSize + size < 0x1_0000_0000
    ensures st.received.Insert(s, ReceivedEntry(c, st, size)).value.Exists(s)
  {
  }

  /** What the arrival of fragment `i` does, when the fragments `got` are there. */
  ghost predicate Arrived(c: Config, st: State, mark: int, m: Message, got: set<nat>, i: nat, process: Process,
                          r: Receiving) {
    && m.Fragmented(c)
    && if i in got then r == Receiving(st, [])
       else if !Whole(c, m, got + {i}) then
         Collecting(c, r.state, mark, m, got + {i}) && r.calls == [] && AckStep(c, st, r.state, None)
       else Completed(c, st, mark, m, process, r)
  }

  /** The slot of an open message lacks a fragment that has not arrived. */
  lemma SlotLacks(c: Config, st: State, mark: int, m: Message, got: set<nat>, i: nat)
    returns (d: FragmentReassemblyData)
    requires Collecting(c, st, mark, m, got) && st.reassembly.Exists(m.Sequence()) && i < m.Total(c)
    ensures d == st.reassembly.entries[st.reassembly.Index(m.Sequence())] && SlotHolds(c, d, m, got)
    ensures i * c.fragmentSize <= |m.packet|
    ensures i !in got ==>
              Lacking(c, d, m, got, FragmentOf(m.Sequence(), m.ack, m.ackBits, m.Total(c), i),
                      Chunk(m.packet, i, c.fragmentSize))
  {
    hide EncodeHeader, EmbeddedHeader, DecodeFragment, EncodeFragment, HoldsChunk, HoldsHeader;
    MessageFits(c, m, i);
    SlotAt(c, st, m.Sequence());
    d := st.reassembly.entries[st.reassembly.Index(m.Sequence())];
    assert st.reassembly.Find(m.Sequence()) == Some(d);
  }

  lemma StoreForMessage(c: Config, st: State, mark: int, m: Message, got: set<nat>, i: nat, process: Process)
    requires Collecting(c, st, mark, m, got) && st.reassembly.Exists(m.Sequence()) && m.number < mark
    requires i < m.Total(c)
    ensures var f := FragmentOf(m.Sequence(), m.ack, m.ackBits, m.Total(c), i);
            && DecodeFragment(m.Datagram(c, i), c.maxFragments, c.fragmentSize) == Some(f)
            && Arrived(c, st, mark, m, got, i, process, StoreInSlot(c, st, f, m.Datagram(c, i), process))
  {
    hide EncodeHeader, DecodeFragment, EncodeFragment, Received, FinishSlot, HoldsChunk, HoldsHeader, Completed,
         AckStep, LegalFragment, NumFragments, Chunk, ReassemblyInv, Inv, CountTrue;
    MessageFits(c, m, i);
    var f, payload := FragmentOf(m.Sequence(), m.ack, m.ackBits, m.Total(c), i), Chunk(m.packet, i, c.fragmentSize);
    var d := SlotLacks(c, st, mark, m, got, i);
    if i !in got {
      ShapeAfterStore(d, f, payload, c.maxFragments, c.fragmentSize);
      var d' := Received(d, f, c.fragmentSize, EmbeddedHeader(f) + payload);
      SlotGains(c, d, m, got, f, payload, d');
      FinishForMessage(c, st, mark, m, got + {i}, d', process);
      assert StoreInSlot(c, st, f, m.Datagram(c, i), process) == FinishSlot(c, st, m.Sequence(), d', process);
    }
  }

  lemma FinishForMessage(c: Config, st: State, mark: int, m: Message, got: set<nat>, d: FragmentReassemblyData,
                         process: Process)
    requires m.Fragmented(c) && StateInv(c, st) && InStep(c, st, mark) && Near(Reach(c), mark, m.number)
    requires m.number < mark && !st.received.Exists(m.Sequence()) && st.reassembly.Exists(m.Sequence())
    requires SlotHolds(c, d, m, got) && SlotShape(d, m.Sequence(), c.fragmentSize)
    requires d.numFragmentsReceived <= d.numFragmentsTotal <= c.maxFragments
    requires d.numFragmentsReceived == d.numFragmentsTotal <==> Whole(c, m, got)
    ensures var r := FinishSlot(c, st, m.Sequence(), d, process);
            if !Whole(c, m, got) then
              Collecting(c, r.state, mark, m, got) && r.calls == [] && AckStep(c, st, r.state, None)
            else Completed(c, st, mark, m, process, r)
  {
    if Whole(c, m, got) {
      CompletesMessage(c, st, mark, m, got, d, process);
    } else {
      FinishKeepsInv(c, st, m.Sequence(), d, process);
      SetEntryInStep(c, st, mark, m.Sequence(), d);
    }
  }

  /** One fragment of the message arrives, in whatever order. */
  lemma FragmentArrives(c: Config, st: State, mark: int, m: Message, got: set<nat>, i: nat, process: Process)
    requires Collecting(c, st, mark, m, got) && i < m.Total(c)
    ensures |m.Datagram(c, i)| > 0
    ensures var r := Receive(c, st, m.Datagram(c, i), process);
            Arrived(c, st, MarkAfter(mark, st.received, r.state.received), m, got, i, process, r)
  {
    hide EncodeHeader, EmbeddedHeader, DecodeFragment, EncodeFragment, StoreInSlot, HoldsChunk, HoldsHeader, OpenSlot;
    MessageFits(c, m, i);
    var data := m.Datagram(c, i);
    var f := FragmentOf(m.Sequence(), m.ack, m.ackBits, m.Total(c), i);
    OpenForMessage(c, st, mark, m, got, f);
    OpenSlotMoves(c, st, mark, f);
    var open := OpenSlot(c, st, f).value;
    var mark1 := MarkAfter(mark, st.received, open.received);
    StoreForMessage(c, open, mark1, m, got, i, process);
    StoreMoves(c, open, mark1, f, data, process);
    var r := StoreInSlot(c, open, f, data, process);
    TwoMoves(st.received, mark, open.received, mark1, r.state.received, NumberOf(mark1, AcceptedOf(r)));
    assert Receive(c, st, data, process) == r;
    if i in got {
      SlotExists(c, st, mark, m, got, i);
      OpenIsThere(c, st, f);
    } else if Whole(c, m, got + {i}) {
      CompletedFrom(c, st, open, mark1, m, process, r);
    }
  }

  lemma SlotExists(c: Config, st: State, mark: int, m: Message, got: set<nat>, i: nat)
    requires Collecting(c, st, mark, m, got) && i in got
    ensures st.reassembly.Exists(m.Sequence())
  {
  }

  lemma CompletedFrom(c: Config, st: State, open: State, mark: int, m: Message, process: Process, r: Receiving)
    requires Completed(c, open, mark, m, process, r) && AckStep(c, st, open, None)
    ensures Completed(c, st, mark, m, process, r)
  {
    if r.calls[0].accepted {
      var h :| AckStep(c, open, r.state, Some(h)) && h.ack == m.ack && h.ackBits == m.ackBits;
      assert AckStep(c, st, r.state, Some(h));
    }
  }

  // ---------------------------------------------------------------- any order, duplicates, other traffic

  /** One datagram handed to the receiver: a fragment of the message, or anything else. */
  datatype Delivery =
    | Fragment(id: nat, process: Process)
    | Other(data: bytes, process: Process)

  /** The fragments are those of the message, and the process closure accepts it; the rest is of other sequences. */
  ghost predicate Expected(c: Config, m: Message, d: Delivery)
    requires m.Fragmented(c)
  {
    match d
    case Fragment(i, process) => i < m.Total(c) && process(m.Sequence(), m.packet)
    case Other(data, _) => |data| > 0 && SequenceIn(c, data) != Some(m.Sequence())
  }

  function DataOf(c: Config, m: Message, d: Delivery): (data: bytes)
    requires m.Fragmented(c) && Expected(c, m, d)
    ensures |data| > 0
  {
    match d
    case Fragment(i, _) => MessageFits(c, m, i); m.Datagram(c, i)
    case Other(data, _) => data
  }

  function Deliver(c: Config, st: State, m: Message, d: Delivery): (r: Receiving)
    requires m.Fragmented(c) && StateInv(c, st) && Expected(c, m, d)
    ensures StateInv(c, r.state)
  {
    ReceiveKeepsInv(c, st, DataOf(c, m, d), d.process);
    Receive(c, st, DataOf(c, m, d), d.process)
  }

  /** All deliveries, one after the other. */
  function DeliverAll(c: Config, st: State, m: Message, ds: seq<Delivery>): Receiving
    requires m.Fragmented(c) && StateInv(c, st) && forall i :: 0 <= i < |ds| ==> Expected(c, m, ds[i])
    decreases |ds|
  {
    if ds == [] then Receiving(st, [])
    else
      var r := Deliver(c, st, m, ds[0]);
      var rest := DeliverAll(c, r.state, m, ds[1..]);
      Receiving(rest.state, r.calls + rest.calls)
  }

  /** A delivery that is no fragment of the message, or one that has no acks processed. */
  ghost predicate AcksNothing(c: Config, st: State, m: Message, d: Delivery)
    requires m.Fragmented(c) && StateInv(c, st) && Expected(c, m, d)
  {
    d.Fragment? ==> AckStep(c, st, Deliver(c, st, m, d).state, None)
  }

  /** A fragment of the message on which the receiver processes the ack and ack bits that the sender gave the packet. */
  ghost predicate AcksOfSender(c: Config, st: State, m: Message, d: Delivery)
    requires m.Fragmented(c) && StateInv(c, st) && Expected(c, m, d)
  {
    d.Fragment? && AckStep(c, st, Deliver(c, st, m, d).state, Some(m.Header()))
  }

  /** No fragment of the message has acks processed. */
  ghost predicate NeverAcks(c: Config, st: State, m: Message, ds: seq<Delivery>)
    requires m.Fragmented(c) && StateInv(c, st) && forall i :: 0 <= i < |ds| ==> Expected(c, m, ds[i])
    decreases |ds|
  {
    ds == [] || (AcksNothing(c, st, m, ds[0]) && NeverAcks(c, Deliver(c, st, m, ds[0]).state, m, ds[1..]))
  }

  /** One delivery of a fragment has the sender's acks processed, and no other one has any. */
  ghost predicate AcksOnce(c: Config, st: State, m: Message, ds: seq<Delivery>)
    requires m.Fragmented(c) && StateInv(c, st) && forall i :: 0 <= i < |ds| ==> Expected(c, m, ds[i])
    decreases |ds|
  {
    && ds != []
    && var st' := Deliver(c, st, m, ds[0]).state;
       || (AcksOfSender(c, st, m, ds[0]) && NeverAcks(c, st', m, ds[1..]))
       || (AcksNothing(c, st, m, ds[0]) && AcksOnce(c, st', m, ds[1..]))
  }

  /** The high-water mark never moves so far that the number of the message leaves the window. */
  ghost predicate Calm(c: Config, st: State, mark: int, m: Message, ds: seq<Delivery>)
    requires m.Fragmented(c) && StateInv(c, st) && forall i :: 0 <= i < |ds| ==> Expected(c, m, ds[i])
    decreases |ds|
  {
    ds == [] ||
    var st' := Deliver(c, st, m, ds[0]).state;
    var mark' := MarkAfter(mark, st.received, st'.received);
    mark' - Reach(c) <= m.number && Calm(c, st', mark', m, ds[1..])
  }

  function CallsFor(s: u16, calls: seq<Call>): seq<Call> {
    if calls == [] then []
    else (if calls[0].sequence == s then [calls[0]] else []) + CallsFor(s, calls[1..])
  }

  lemma {:induction false} CallsForConcat(s: u16, a: seq<Call>, b: seq<Call>)
    ensures CallsFor(s, a + b) == CallsFor(s, a) + CallsFor(s, b)
  {
    if a == [] {
      assert a + b == b;
    } else {
      assert (a + b)[0] == a[0] && (a + b)[1..] == a[1..] + b;
      CallsForConcat(s, a[1..], b);
    }
  }

  lemma {:induction false} NoCallsFor(s: u16, calls: seq<Call>)
    requires forall i :: 0 <= i < |calls| ==> calls[i].sequence != s
    ensures CallsFor(s, calls) == []
  {
    if calls != [] {
      NoCallsFor(s, calls[1..]);
    }
  }

  /** The ids of the fragments delivered. */
  function Ids(ds: seq<Delivery>): set<nat> {
    if ds == [] then {} else (if ds[0].Fragment? then {ds[0].id} else {}) + Ids(ds[1..])
  }

  /** A fragment of a packet that has been accepted changes nothing. */
  lemma FragmentIgnored(c: Config, st: State, m: Message, i: nat, process: Process)
    requires m.Fragmented(c) && StateInv(c, st) && i < m.Total(c) && st.received.Exists(m.Sequence())
    ensures |m.Datagram(c, i)| > 0 && Receive(c, st, m.Datagram(c, i), process) == Receiving(st, [])
  {
    hide DecodeFragment, EncodeFragment, OpenSlot, StoreInSlot;
    MessageFits(c, m, i);
  }

  /** One delivery after the packet has been accepted. */
  lemma StillAccepted(c: Config, st: State, mark: int, m: Message, d: Delivery)
    requires m.Fragmented(c) && StateInv(c, st) && InStep(c, st, mark) && Near(Reach(c), mark, m.number)
    requires st.received.Exists(m.Sequence()) && Expected(c, m, d)
    requires MarkAfter(mark, st.received, Deliver(c, st, m, d).state.received) - Reach(c) <= m.number
    ensures var r := Deliver(c, st, m, d);
            var mark' := MarkAfter(mark, st.received, r.state.received);
            && InStep(c, r.state, mark') && Near(Reach(c), mark', m.number) && r.state.received.Exists(m.Sequence())
            && CallsFor(m.Sequence(), r.calls) == [] && AcksNothing(c, st, m, d)
  {
    hide Receive, ReassemblyInv, Moved, InStep;
    ReceiveMoves(c, st, mark, DataOf(c, m, d), d.process);
    match d
    case Fragment(i, process) =>
      FragmentIgnored(c, st, m, i, process);
    case Other(data, process) =>
      ReceiveLeavesAlone(c, st, mark, data, process, m.number);
      NoCallsFor(m.Sequence(), Deliver(c, st, m, d).calls);
  }

  /** After the packet has been accepted, its fragments are ignored, acks included, as long as it stays in the
      window. */
  lemma {:induction false} NoSecondDelivery(c: Config, st: State, mark: int, m: Message, ds: seq<Delivery>)
    requires m.Fragmented(c) && StateInv(c, st) && InStep(c, st, mark) && Near(Reach(c), mark, m.number)
    requires st.received.Exists(m.Sequence())
    requires forall i :: 0 <= i < |ds| ==> Expected(c, m, ds[i])
    requires Calm(c, st, mark, m, ds)
    ensures CallsFor(m.Sequence(), DeliverAll(c, st, m, ds).calls) == [] && NeverAcks(c, st, m, ds)
    decreases |ds|
  {
    hide Deliver, StateInv, InStep, Near, AcksNothing;
    if ds != [] {
      StillAccepted(c, st, mark, m, ds[0]);
      var r := Deliver(c, st, m, ds[0]);
      NoSecondDelivery(c, r.state, MarkAfter(mark, st.received, r.state.received), m, ds[1..]);
      CallsForConcat(m.Sequence(), r.calls, DeliverAll(c, r.state, m, ds[1..]).calls);
    }
  }

  /** One delivery while the message is being collected. */
  ghost predicate Progress(c: Config, mark: int, m: Message, got: set<nat>, r: Receiving) {
    && m.Fragmented(c) && StateInv(c, r.state)
    && if Whole(c, m, got) then
         && CallsFor(m.Sequence(), r.calls) == [Call(m.Sequence(), m.packet, true)]
         && InStep(c, r.state, mark) && r.state.received.Exists(m.Sequence())
       else CallsFor(m.Sequence(), r.calls) == [] && Collecting(c, r.state, mark, m, got)
  }

  lemma DeliveryProgresses(c: Config, st: State, mark: int, m: Message, got: set<nat>, d: Delivery)
    requires Collecting(c, st, mark, m, got) && !Whole(c, m, got) && Expected(c, m, d)
    requires MarkAfter(mark, st.received, Deliver(c, st, m, d).state.received) - Reach(c) <= m.number
    ensures var r := Deliver(c, st, m, d);
            Progress(c, MarkAfter(mark, st.received, r.state.received), m, got + Ids([d]), r)
    ensures if Whole(c, m, got + Ids([d])) then AcksOfSender(c, st, m, d) else AcksNothing(c, st, m, d)
  {
    hide Receive, StateInv, InStep, SlotHolds, AckStep;
    assert [d][1..] == [];
    match d
    case Other(data, process) =>
      OtherWhileCollecting(c, st, mark, m, got, data, process);
      NoCallsFor(m.Sequence(), Deliver(c, st, m, d).calls);
      assert got + Ids([d]) == got;
    case Fragment(i, process) =>
      assert got + Ids([d]) == got + {i};
      FragmentProgresses(c, st, mark, m, got, i, process);
  }

  lemma FragmentProgresses(c: Config, st: State, mark: int, m: Message, got: set<nat>, i: nat, process: Process)
    requires Collecting(c, st, mark, m, got) && !Whole(c, m, got) && i < m.Total(c) && process(m.Sequence(), m.packet)
    ensures |m.Datagram(c, i)| > 0
    ensures var r := Receive(c, st, m.Datagram(c, i), process);
            && Progress(c, MarkAfter(mark, st.received, r.state.received), m, got + {i}, r)
            && AckStep(c, st, r.state, if Whole(c, m, got + {i}) then Some(m.Header()) else None)
  {
    hide Receive, ReassemblyInv, InStep, SlotHolds, AckStep;
    FragmentArrives(c, st, mark, m, got, i, process);
    var r := Receive(c, st, m.Datagram(c, i), process);
    var mark' := MarkAfter(mark, st.received, r.state.received);
    ArrivedProgresses(c, st, mark, mark', m, got, i, process, r);
  }

  lemma ArrivedProgresses(c: Config, st: State, mark: int, mark': int, m: Message, got: set<nat>, i: nat,
                          process: Process,
                          r: Receiving)
    requires Collecting(c, st, mark, m, got) && !Whole(c, m, got) && process(m.Sequence(), m.packet)
    requires Arrived(c, st, mark', m, got, i, process, r) && mark' == MarkAfter(mark, st.received, r.state.received)
    ensures Progress(c, mark', m, got + {i}, r)
    ensures AckStep(c, st, r.state, if Whole(c, m, got + {i}) then Some(m.Header()) else None)
  {
    hide StateInv, SlotHolds, AckStep, Inv;
    if i in got {
      WholeMarkStays(c, st, mark);
      NoAcks(c, st);
      assert got + {i} == got;
    } else if Whole(c, m, got + {i}) {
      OneCall(m.Sequence(), Call(m.Sequence(), m.packet, true));
      var h :| AckStep(c, st, r.state, Some(h)) && h.ack == m.ack && h.ackBits == m.ackBits;
      SameAcks(c, st, r.state, h, m.Header());
    }
  }

  lemma NoAcks(c: Config, st: State)
    requires Sized(c, st)
    ensures AckStep(c, st, st, None)
  {
  }

  /** Of a header only the acks matter here. */
  lemma SameAcks(c: Config, st: State, st': State, h: PacketHeader, g: PacketHeader)
    requires AckStep(c, st, st', Some(h)) && g.ack == h.ack && g.ackBits == h.ackBits
    ensures AckStep(c, st, st', Some(g))
  {
  }

  lemma OneCall(s: u16, call: Call)
    requires call.sequence == s
    ensures CallsFor(s, [call]) == [call]
  {
    assert [call][1..] == [];
  }

  lemma WholeMarkStays(c: Config, st: State, mark: int)
    requires InStep(c, st, mark)
    ensures MarkAfter(mark, st.received, st.received) == mark
  {
    MarkAfterIs(mark, st.received, st.received, mark);
  }

  /** From any point of the collection on: once the last missing fragment has arrived the packet has been handed over
      exactly once, byte for byte and under its sequence, and the sender's acks have been processed exactly once; before
      that, not at all. */
  lemma {:induction false} CollectionCompletes(c: Config, st: State, mark: int, m: Message, got: set<nat>,
                                               ds: seq<Delivery>)
    requires Collecting(c, st, mark, m, got) && !Whole(c, m, got)
    requires forall i :: 0 <= i < |ds| ==> Expected(c, m, ds[i])
    requires Calm(c, st, mark, m, ds)
    ensures CallsFor(m.Sequence(), DeliverAll(c, st, m, ds).calls)
            == if Whole(c, m, got + Ids(ds)) then [Call(m.Sequence(), m.packet, true)] else []
    ensures if Whole(c, m, got + Ids(ds)) then AcksOnce(c, st, m, ds) else NeverAcks(c, st, m, ds)
    decreases |ds|
  {
    hide Deliver, StateInv, InStep, SlotHolds, AcksNothing, AcksOfSender;
    if ds == [] {
      assert got + Ids(ds) == got;
    } else {
      var r := Deliver(c, st, m, ds[0]);
      var rest := ds[1..];
      var mark' := MarkAfter(mark, st.received, r.state.received);
      var got' := got + Ids([ds[0]]);
      DeliveryProgresses(c, st, mark, m, got, ds[0]);
      CallsForConcat(m.Sequence(), r.calls, DeliverAll(c, r.state, m, rest).calls);
      assert [ds[0]][1..] == [];
      assert got + Ids(ds) == got' + Ids(rest);
      if Whole(c, m, got') {
        NoSecondDelivery(c, r.state, mark', m, rest);
      } else {
        CollectionCompletes(c, r.state, mark', m, got', rest);
      }
    }
  }

  lemma OtherWhileCollecting(c: Config, st: State, mark: int, m: Message, got: set<nat>, data: bytes, process: Process)
    requires Collecting(c, st, mark, m, got) && |data| > 0 && SequenceIn(c, data) != Some(m.Sequence())
    requires var r := Receive(c, st, data, process);
             MarkAfter(mark, st.received, r.state.received) - Reach(c) <= m.number
    ensures var r := Receive(c, st, data, process);
            && Collecting(c, r.state, MarkAfter(mark, st.received, r.state.received), m, got)
            && forall i :: 0 <= i < |r.calls| ==> r.calls[i].sequence != m.Sequence()
  {
    hide Receive, SlotHolds;
    ReceiveMoves(c, st, mark, data, process);
    ReceiveKeepsInv(c, st, data, process);
    ReceiveLeavesAlone(c, st, mark, data, process, m.number);
  }

  /** Fragmentation round trip: start with a receiver that knows nothing of the packet, and deliver its fragments in
      any order, any number of times each, with any other datagrams in between. If its number stays in the window, an
      accepting receiver sees the sequence and the payload exactly once, byte for byte, if all fragments have arrived,
      and never otherwise; and one of the fragments, and no other, makes it process the ack and ack bits of the
      sender. */
  lemma FragmentationRoundTrip(c: Config, st: State, mark: int, m: Message, ds: seq<Delivery>)
    requires m.Fragmented(c) && StateInv(c, st) && InStep(c, st, mark) && Near(Reach(c), mark, m.number)
    requires !st.received.Exists(m.Sequence()) && !st.reassembly.Exists(m.Sequence())
    requires forall i :: 0 <= i < |ds| ==> Expected(c, m, ds[i])
    requires Calm(c, st, mark, m, ds)
    ensures CallsFor(m.Sequence(), DeliverAll(c, st, m, ds).calls)
            == if Whole(c, m, Ids(ds)) then [Call(m.Sequence(), m.packet, true)] else []
    ensures if Whole(c, m, Ids(ds)) then AcksOnce(c, st, m, ds) else NeverAcks(c, st, m, ds)
  {
    hide StateInv, InStep, SlotHolds, DeliverAll, Calm, AcksOnce, NeverAcks;
    LegalPacketsFit(c, |m.packet|);
    assert !Whole(c, m, {}) by {
      var none: set<nat>, first: nat := {}, 0;
      assert first < m.Total(c) && first !in none;
    }
    CollectionCompletes(c, st, mark, m, {}, ds);
    assert {} + Ids(ds) == Ids(ds);
  }
}