/** The port (src/endpoint.rs) and the C reference (wire-compat/c/reliable.c) are the same machine: from related states
    every call sends the same datagrams, makes the same deliveries, and ends in related states. */
module CEquivalence {
  import opened Wrappers
  import opened Sequence
  import opened Codec
  import opened CodecLaws
  import opened Buffers
  import opened Reassembly
  import opened Protocol
  import opened Invariants
  import opened Windows
  import opened ReceiveSide
  import opened CCodec
  import opened CReference
  import SpliceRun

  // ---------------------------------------------------------------- buffers

  /** An empty slot is the sentinel, whatever is left behind in its data; a live slot holds the same entry. */
  ghost predicate SameSlot<T>(b: Buffer<T>, cb: CBuffer<T>, i: nat)
    requires b.WellFormed() && cb.WellFormed() && i < b.Size() == cb.Size()
  {
    match b.slots[i]
    case None => cb.slots[i] == EMPTY
    case Some(s) => cb.slots[i] == s && cb.data[i] == b.entries[i]
  }

  ghost predicate Same<T>(b: Buffer<T>, cb: CBuffer<T>) {
    && b.WellFormed() && cb.WellFormed() && b.Size() == cb.Size() && b.sequence == cb.sequence
    && forall i :: 0 <= i < b.Size() ==> SameSlot(b, cb, i)
  }

  lemma SameFind<T>(b: Buffer<T>, cb: CBuffer<T>, s: u16)
    requires Same(b, cb)
    ensures b.Exists(s) == cb.Exists(s) && b.Find(s) == cb.Find(s) && b.Stale(s) == cb.Stale(s)
            && b.Newer(s) == cb.Newer(s)
  {
    assert SameSlot(b, cb, b.Index(s));
  }

  lemma SameAdvance<T>(b: Buffer<T>, cb: CBuffer<T>, s: u16)
    requires Same(b, cb)
    ensures Same(b.Advance(s), cb.Advance(s))
  {
    forall i | 0 <= i < b.Size()
      ensures SameSlot(b.Advance(s), cb.Advance(s), i)
    {
      assert SameSlot(b, cb, i);
    }
  }

  lemma SamePut<T>(b: Buffer<T>, cb: CBuffer<T>, s: u16, v: T)
    requires Same(b, cb)
    ensures Same(b.Put(s, v), cb.Put(s, v))
  {
    forall i | 0 <= i < b.Size()
      ensures SameSlot(b.Put(s, v), cb.Put(s, v), i)
    {
      assert SameSlot(b, cb, i);
    }
  }

  lemma SameInsert<T>(b: Buffer<T>, cb: CBuffer<T>, s: u16, v: T)
    requires Same(b, cb) && !b.Stale(s)
    ensures !cb.Stale(s) && Same(b.Insert(s, v).value, cb.Insert(s, v).value)
  {
    SameFind(b, cb, s);
    SameAdvance(b, cb, s);
    SamePut(b.Advance(s), cb.Advance(s), s, v);
  }

  lemma SameFlag<T>(b: Buffer<T>, cb: CBuffer<T>, i: nat)
    requires Same(b, cb) && i < 32
    ensures b.AckFlags()[i] == cb.AckFlags()[i]
  {
    var s := Wrap(b.Ack() - i);
    SameFind(b, cb, s);
    FlagAt(b, i, s);
    CFlagAt(cb, i, s);
  }

  lemma SameAcks<T>(b: Buffer<T>, cb: CBuffer<T>)
    requires Same(b, cb)
    ensures b.Ack() == cb.Ack() && b.AckBits() == cb.AckBits()
  {
    assert b.AckFlags() == cb.AckFlags() by {
      hide *;
      forall i | 0 <= i < 32
        ensures b.AckFlags()[i] == cb.AckFlags()[i]
      {
        SameFlag(b, cb, i);
      }
    }
  }

  // ---------------------------------------------------------------- packets under reassembly

  /** The reference allocates a few spare bytes behind the payload area and never writes them. What a slot says about
      its header and its length stays inside the memory it points to. */
  ghost predicate SameReassembly(d: FragmentReassemblyData, cd: CReassembly) {
    && cd.numFragmentsReceived == d.numFragmentsReceived && cd.numFragmentsTotal == d.numFragmentsTotal
    && cd.packetBytes == d.packetBytes && cd.packetHeaderBytes == d.packetHeaderBytes
    && cd.fragmentReceived == d.fragmentReceived
    && cd.packetData == Some(d.packetData + Zeros(PADDING))
    && d.packetHeaderBytes <= MAX_PACKET_HEADER_BYTES && MAX_PACKET_HEADER_BYTES + d.packetBytes <= |d.packetData|
  }

  /** An empty slot holds no memory, so none leaks. The slot `loose`, if there is one, is being completed: the port
      has taken its data out, the reference has not. */
  ghost predicate SameReassemblySlot(b: Buffer<FragmentReassemblyData>, cb: CReassemblyBuffer, i: nat,
                                     loose: Option<nat>)
    requires b.WellFormed() && cb.WellFormed() && i < b.Size() == cb.Size()
  {
    match b.slots[i]
    case None => cb.slots[i] == EMPTY && cb.data[i].packetData == None
    case Some(s) => cb.slots[i] == s && (loose == Some(i) || SameReassembly(b.entries[i], cb.data[i]))
  }

  ghost predicate SameReassemblies(b: Buffer<FragmentReassemblyData>, cb: CReassemblyBuffer, loose: Option<nat>) {
    && b.WellFormed() && cb.WellFormed() && b.Size() == cb.Size() && b.sequence == cb.sequence
    && forall i :: 0 <= i < b.Size() ==> SameReassemblySlot(b, cb, i, loose)
  }

  lemma SameOrder(b: Buffer<FragmentReassemblyData>, cb: CReassemblyBuffer, s: u16, loose: Option<nat>)
    requires SameReassemblies(b, cb, loose)
    ensures b.Index(s) == cb.Index(s) && b.Exists(s) == cb.Exists(s) && b.Stale(s) == cb.Stale(s)
            && b.Newer(s) == cb.Newer(s)
  {
    assert SameReassemblySlot(b, cb, b.Index(s), loose);
  }

  lemma AfterCleanup(cb: CReassemblyBuffer, s: u16, i: nat)
    requires cb.WellFormed() && i < cb.Size()
    ensures var cb' := AdvanceWithCleanup(cb, s);
            if cb.Newer(s) then
              && cb'.sequence == Wrap(s + 1)
              && (if InRange(cb.sequence, s, cb.Size(), i) then
                    cb'.slots[i] == EMPTY && cb'.data[i] == Cleanup(cb.data[i])
                  else cb'.slots[i] == cb.slots[i] && cb'.data[i] == cb.data[i])
            else cb' == cb
  {
  }

  lemma SameAdvanceWithCleanup(b: Buffer<FragmentReassemblyData>, cb: CReassemblyBuffer, s: u16, loose: Option<nat>)
    requires SameReassemblies(b, cb, loose)
    ensures SameReassemblies(b.Advance(s), AdvanceWithCleanup(cb, s), loose)
  {
    hide AdvanceWithCleanup, InRange, Buffer.Newer, CBuffer.Newer, SameReassembly;
    SameOrder(b, cb, s, loose);
    forall i | 0 <= i < b.Size()
      ensures SameReassemblySlot(b.Advance(s), AdvanceWithCleanup(cb, s), i, loose)
    {
      AfterCleanup(cb, s, i);
      assert SameReassemblySlot(b, cb, i, loose);
    }
    AfterCleanup(cb, s, b.Index(s));
  }

  /** What a taken slot held before does not show once the caller has filled it in. */
  lemma InsertIsPut(cb: CReassemblyBuffer, s: u16, cd: CReassembly)
    requires cb.WellFormed()
    ensures InsertWithCleanup(cb, s, cd)
            == if !cb.Newer(s) && cb.Stale(s) then None else Some(AdvanceWithCleanup(cb, s).Put(s, cd))
  {
    hide CBuffer.Newer, CBuffer.Stale, InRange;
    var cb1 := AdvanceWithCleanup(cb, s);
    assert cb1.TakeOver(s, Cleanup).data[cb1.Index(s) := cd] == cb1.data[cb1.Index(s) := cd];
  }

  lemma SameInsertWithCleanup(b: Buffer<FragmentReassemblyData>, cb: CReassemblyBuffer, s: u16,
                              d: FragmentReassemblyData, cd: CReassembly)
    requires SameReassemblies(b, cb, None) && SameReassembly(d, cd)
    ensures var r, cr := b.InsertAdvanceFirst(s, d), InsertWithCleanup(cb, s, cd);
            r.Some? == cr.Some? && (r.Some? ==> SameReassemblies(r.value, cr.value, None))
  {
    SameOrder(b, cb, s, None);
    InsertIsPut(cb, s, cd);
    if b.InsertAdvanceFirst(s, d).Some? {
      SameAdvanceWithCleanup(b, cb, s, None);
      var b1, cb1 := b.Advance(s), AdvanceWithCleanup(cb, s);
      forall i | 0 <= i < b.Size()
        ensures SameReassemblySlot(b1.Put(s, d), cb1.Put(s, cd), i, None)
      {
        assert SameReassemblySlot(b1, cb1, i, None);
      }
    }
  }

  /** The slot that the reference hands out for a new packet points to no memory, so the fresh pointer that the caller
      stores there overwrites none: not when the slot was empty, and not when it takes over a live one. */
  lemma ReservedHoldsNoMemory(b: Buffer<FragmentReassemblyData>, cb: CReassemblyBuffer, s: u16)
    requires SameReassemblies(b, cb, None)
    ensures var r := ReserveWithCleanup(cb, s);
            && (r.Some? <==> b.Newer(s) || !b.Stale(s))
            && (r.Some? ==> r.value.slots[r.value.Index(s)] == s && r.value.data[r.value.Index(s)].packetData == None)
            && (r.Some? ==>
                  var i := r.value.Index(s);
                  forall v :: InsertWithCleanup(cb, s, v) == Some(r.value.(data := r.value.data[i := v])))
  {
    hide InRange, Buffer.Newer, CBuffer.Newer, SameReassembly, Buffer.Stale, CBuffer.Stale;
    SameOrder(b, cb, s, None);
    SameAdvanceWithCleanup(b, cb, s, None);
    var b1, cb1 := b.Advance(s), AdvanceWithCleanup(cb, s);
    assert SameReassemblySlot(b1, cb1, b1.Index(s), None);
  }

  /** No memory is lost when a fragment of a new packet arrives: right before its slot gets its memory, that slot is
      null, and so is every slot that is not occupied. */
  lemma OpeningLosesNoMemory(c: Config, st: State, cst: CState, f: FragmentHeader)
    requires Sized(c, st) && Matches(st, cst, None) && !st.reassembly.Exists(f.sequence)
    ensures !cst.reassembly.Exists(f.sequence)
    ensures var r := ReserveWithCleanup(cst.reassembly, f.sequence);
            && COpenSlot(c, cst, f).Some? == r.Some?
            && (r.Some? ==>
                  var i := r.value.Index(f.sequence);
                  && r.value.data[i].packetData == None
                  && COpenSlot(c, cst, f).value.reassembly
                     == r.value.(data := r.value.data[i := CFresh(f.total, c.fragmentSize)])
                  && forall j :: 0 <= j < r.value.Size() && j != i ==>
                       (r.value.data[j].packetData.Some? ==> r.value.slots[j] != EMPTY))
  {
    hide Same, SameReassembly, InRange, Buffer.Newer, CBuffer.Newer, Buffer.Stale, CBuffer.Stale;
    var b, cb, s := st.reassembly, cst.reassembly, f.sequence;
    SameOrder(b, cb, s, None);
    ReservedHoldsNoMemory(b, cb, s);
    SameAdvanceWithCleanup(b, cb, s, None);
    var b1, cb1 := b.Advance(s), AdvanceWithCleanup(cb, s);
    forall j | 0 <= j < b.Size()
      ensures cb1.data[j].packetData.Some? ==> cb1.slots[j] != EMPTY
    {
      assert SameReassemblySlot(b1, cb1, j, None);
    }
  }

  /** Freeing the slot that was being completed ties up the loose end. */
  lemma SameRemove(b: Buffer<FragmentReassemblyData>, cb: CReassemblyBuffer, s: u16)
    requires b.WellFormed() && SameReassemblies(b, cb, Some(b.Index(s)))
    ensures SameReassemblies(b.Remove(s), RemoveWithCleanup(cb, s), None)
  {
    forall i | 0 <= i < b.Size()
      ensures SameReassemblySlot(b.Remove(s), RemoveWithCleanup(cb, s), i, None)
    {
      assert SameReassemblySlot(b, cb, i, Some(b.Index(s)));
      assert SameReassemblySlot(b, cb, b.Index(s), Some(b.Index(s)));
    }
  }

  lemma SameSetEntry(b: Buffer<FragmentReassemblyData>, cb: CReassemblyBuffer, s: u16, d: FragmentReassemblyData,
                     cd: CReassembly, loose: Option<nat>)
    requires SameReassemblies(b, cb, None) && b.Exists(s)
    requires loose == (if SameReassembly(d, cd) then None else Some(b.Index(s)))
    ensures SameReassemblies(b.(entries := b.entries[b.Index(s) := d]), cb.(data := cb.data[cb.Index(s) := cd]), loose)
  {
    SameOrder(b, cb, s, None);
    var b', cb' := b.(entries := b.entries[b.Index(s) := d]), cb.(data := cb.data[cb.Index(s) := cd]);
    forall i | 0 <= i < b.Size()
      ensures SameReassemblySlot(b', cb', i, loose)
    {
      assert SameReassemblySlot(b, cb, i, None);
    }
  }

  lemma OverwriteInFront(s: bytes, at: nat, v: bytes, tail: bytes)
    requires at + |v| <= |s|
    ensures Overwrite(s + tail, at, v) == Overwrite(s, at, v) + tail
  {
  }

  lemma SameFresh(total: nat, fragmentSize: nat)
    ensures SameReassembly(FreshReassembly(total, fragmentSize), CFresh(total, fragmentSize))
  {
    Monotone(0, total, fragmentSize);
    var size := MAX_PACKET_HEADER_BYTES + total * fragmentSize;
    assert Zeros(size + PADDING) == Zeros(size) + Zeros(PADDING);
  }

  lemma SameStoreHeader(d: FragmentReassemblyData, cd: CReassembly, header: bytes)
    requires SameReassembly(d, cd) && |header| <= MAX_PACKET_HEADER_BYTES <= |d.packetData|
    ensures SameReassembly(StoreHeader(d, header), CStoreHeader(cd, header))
  {
    OverwriteInFront(d.packetData, MAX_PACKET_HEADER_BYTES - |header|, header, Zeros(PADDING));
  }

  lemma SameStorePayload(d: FragmentReassemblyData, cd: CReassembly, id: nat, fragmentSize: nat, payload: bytes)
    requires SameReassembly(d, cd) && d.numFragmentsTotal > 0 && id < d.numFragmentsTotal
    requires |d.packetData| == MAX_PACKET_HEADER_BYTES + d.numFragmentsTotal * fragmentSize
    requires |payload| <= fragmentSize && d.numFragmentsTotal * fragmentSize <= INT_MAX
    ensures SameReassembly(StorePayload(d, id, fragmentSize, payload), CStorePayload(cd, id, fragmentSize, payload))
  {
    NextMultiple(d.numFragmentsTotal - 1, fragmentSize);
    var offset := MAX_PACKET_HEADER_BYTES + id * fragmentSize;
    if offset + |payload| <= |d.packetData| {
      Monotone(0, id, fragmentSize);
      OverwriteInFront(d.packetData, offset, payload, Zeros(PADDING));
    }
  }

  /** Storing a fragment has the same effect; the reference's test for an overlong packet never fires. */
  lemma SameStore(d: FragmentReassemblyData, cd: CReassembly, f: FragmentHeader, payload: bytes, c: Config)
    requires CConfigValid(c) && Fitting(d, f, payload, c.maxFragments, c.fragmentSize)
    requires SameReassembly(d, cd) && Backed(cd, c.fragmentSize)
    ensures CEmbedded(f) == EmbeddedHeader(f)
    ensures SameReassembly(Gained(d, f, payload, c.maxFragments, c.fragmentSize),
                           CReceived(cd, f, c.fragmentSize, EmbeddedHeader(f) + payload))
  {
    hide CWriteHeader, EncodeHeader;
    CEmbeddedIs(f);
    FittingIsStorable(d, f, payload, c.maxFragments, c.fragmentSize);
    Monotone(f.total, c.maxFragments, c.fragmentSize);
    var data := EmbeddedHeader(f) + payload;
    assert data[|EmbeddedHeader(f)|..] == payload;
    var d0 := d.(numFragmentsReceived := d.numFragmentsReceived + 1,
                 fragmentReceived := d.fragmentReceived[f.id := true]);
    var cd0 := cd.(numFragmentsReceived := cd.numFragmentsReceived + 1,
                   fragmentReceived := cd.fragmentReceived[f.id := true]);
    assert SameReassembly(d0, cd0);
    if f.id == 0 {
      SameStoreHeader(d0, cd0, EmbeddedHeader(f));
      SameStorePayload(StoreHeader(d0, EmbeddedHeader(f)), CStoreHeader(cd0, EmbeddedHeader(f)), f.id, c.fragmentSize,
                       payload);
    } else {
      assert data == payload;
      SameStorePayload(d0, cd0, f.id, c.fragmentSize, payload);
    }
  }

  // ---------------------------------------------------------------- endpoints

  ghost predicate Matches(st: State, cst: CState, loose: Option<nat>) {
    && st.time == cst.time && st.sequence == cst.sequence && st.acks == cst.acks && st.counters == cst.counters
    && Same(st.sent, cst.sent) && Same(st.received, cst.received)
    && SameReassemblies(st.reassembly, cst.reassembly, loose)
  }

  ghost predicate SameOutcome(r: Receiving, cr: CReceiving, loose: Option<nat>) {
    r.calls == cr.calls && Matches(r.state, cr.state, loose)
  }

  lemma SameAckOne(c: Config, st: State, cst: CState, s: u16, loose: Option<nat>)
    requires Matches(st, cst, loose)
    ensures Matches(AckOne(c, st, s), CAckOne(c, cst, s), loose)
  {
    SameFind(st.sent, cst.sent, s);
    if st.sent.Exists(s) {
      var b, cb := st.sent, cst.sent;
      var d := b.entries[b.Index(s)].(acked := true);
      var b', cb' := b.Put(s, d), cb.(data := cb.data[cb.Index(s) := d]);
      forall i | 0 <= i < b.Size()
        ensures SameSlot(b', cb', i)
      {
        assert SameSlot(b, cb, i);
      }
    }
  }

  lemma {:induction false} SameProcessAcks(c: Config, st: State, cst: CState, ack: u16, ackBits: u32, i: nat,
                                           loose: Option<nat>)
    requires Matches(st, cst, loose) && i <= 32
    ensures Matches(ProcessAcks(c, st, ack, ackBits, i), CProcessAcks(c, cst, ack, ackBits, i), loose)
    decreases 32 - i
  {
    if i < 32 {
      SameAckOne(c, st, cst, Wrap(ack - i), loose);
      var st', cst' := if ackBits % 2 == 1 then AckOne(c, st, Wrap(ack - i)) else st,
                       if ackBits % 2 == 1 then CAckOne(c, cst, Wrap(ack - i)) else cst;
      SameProcessAcks(c, st', cst', ack, ackBits / 2, i + 1, loose);
    }
  }

  lemma SameAccept(c: Config, st: State, cst: CState, h: PacketHeader, size: nat, loose: Option<nat>)
    requires c.Valid() && Sized(c, st) && Matches(st, cst, loose) && size <= c.LongestDatagram()
             && !st.received.Stale(h.sequence)
    ensures !cst.received.Stale(h.sequence)
    ensures var entry := ReceivedPacketData(st.time, c.packetHeaderSize + size);
            var cst1 := cst.(received := cst.received.Insert(h.sequence, entry).value,
                             reassembly := AdvanceWithCleanup(cst.reassembly, h.sequence));
            Matches(Accept(c, st, h, size), CProcessAcks(c, cst1, h.ack, h.ackBits, 0), loose)
  {
    hide AckOne, CAckOne;
    var entry := ReceivedPacketData(st.time, c.packetHeaderSize + size);
    SameInsert(st.received, cst.received, h.sequence, entry);
    SameAdvanceWithCleanup(st.reassembly, cst.reassembly, h.sequence, loose);
    var st1 := st.(received := st.received.Insert(h.sequence, entry).value,
                   reassembly := st.reassembly.Advance(h.sequence));
    var cst1 := cst.(received := cst.received.Insert(h.sequence, entry).value,
                     reassembly := AdvanceWithCleanup(cst.reassembly, h.sequence));
    SameProcessAcks(c, st1, cst1, h.ack, h.ackBits, 0, loose);
  }

  lemma SameReceivePayload(c: Config, st: State, cst: CState, h: PacketHeader, payload: bytes, size: nat,
                           process: Process,
                           loose: Option<nat>)
    requires c.Valid() && Sized(c, st) && Matches(st, cst, loose) && size <= c.LongestDatagram()
    ensures SameOutcome(ReceivePayload(c, st, h, payload, size, process),
                        CReceivePayload(c, cst, h, payload, size, process), loose)
  {
    hide Accept, CProcessAcks, Same, SameReassemblies;
    SameFind(st.received, cst.received, h.sequence);
    if !st.received.Stale(h.sequence) {
      SameAccept(c, st, cst, h, size, loose);
    }
  }

  lemma SameReceiveWhole(c: Config, st: State, cst: CState, data: bytes, process: Process, loose: Option<nat>)
    requires c.Valid() && Sized(c, st) && Matches(st, cst, loose)
    ensures SameOutcome(ReceiveWhole(c, st, data, process), CReceiveWhole(c, cst, data, process), loose)
  {
    hide Same, SameReassemblies, ReceivePayload, CReceivePayload;
    CReadHeaderIs(data);
    if |data| <= c.LongestDatagram() && DecodeHeader(data).Some? {
      var h := DecodeHeader(data).value;
      SameReceivePayload(c, CountPacket(st), cst.(counters := CountPacket(st).counters), h, data[h.size..], |data|,
                         process, loose);
    }
  }

  lemma SameSend(c: Config, st: State, cst: CState, packet: bytes)
    requires c.Valid() && Sized(c, st) && Matches(st, cst, None) && |packet| > 0 && !st.sent.Stale(st.sequence)
    ensures !cst.sent.Stale(cst.sequence)
    ensures var r, cr := Send(c, st, packet), CSend(c, cst, packet);
            r.sent == cr.sent && Matches(r.state, cr.state, None)
  {
    hide Same, SameReassemblies, Datagrams, CDatagrams, Transmissions, CTransmissions;
    hide Buffer.AckBits, CBuffer.AckBits, Buffer.Advance, CBuffer.Advance, Buffer.Put, CBuffer.Put;
    SameFind(st.sent, cst.sent, st.sequence);
    SameAcks(st.received, cst.received);
    if |packet| <= c.maxPacketSize {
      CDatagramsIs(c, st.sequence, st.received.Ack(), st.received.AckBits(), packet);
      CTransmissionsIs(st.sequence, Datagrams(c, st.sequence, st.received.Ack(), st.received.AckBits(), packet));
      if |packet| > c.fragmentAbove {
        DatagramCount(c, st.sequence, st.received.Ack(), st.received.AckBits(), packet);
      }
      SameInsert(st.sent, cst.sent, st.sequence, SentPacketData(st.time, false, c.packetHeaderSize + |packet|));
    }
  }

  lemma {:induction false} CTransmissionsIs(s: u16, datagrams: seq<bytes>)
    ensures CTransmissions(s, datagrams) == Transmissions(s, datagrams)
  {
    if datagrams != [] {
      var last := |datagrams| - 1;
      CTransmissionsIs(s, datagrams[..last]);
      assert Transmissions(s, datagrams) == Transmissions(s, datagrams[..last]) + [Transmission(s, datagrams[last])];
    }
  }

  lemma DatagramCount(c: Config, s: u16, ack: u16, ackBits: u32, packet: bytes)
    requires c.Valid() && 0 < |packet| <= c.maxPacketSize && |packet| > c.fragmentAbove
    ensures |Datagrams(c, s, ack, ackBits, packet)| == FragmentCount(c, |packet|)
  {
  }

  // ---------------------------------------------------------------- fragments

  lemma SameReassembled(d: FragmentReassemblyData, cd: CReassembly)
    requires SameReassembly(d, cd) && d.packetHeaderBytes <= MAX_PACKET_HEADER_BYTES
    requires MAX_PACKET_HEADER_BYTES + d.packetBytes <= |d.packetData|
    ensures Reassembled(d) == CReassembled(cd)
  {
  }

  lemma TakenIsLoose(d: FragmentReassemblyData, cd: CReassembly)
    requires SameReassembly(d, cd)
    ensures !SameReassembly(d.(packetData := []), cd)
  {
    assert |cd.packetData.value| >= MAX_PACKET_HEADER_BYTES + PADDING;
  }

  lemma SameComplete(c: Config, st: State, cst: CState, s: u16, d: FragmentReassemblyData, cd: CReassembly,
                     process: Process)
    requires c.Valid() && Sized(c, st) && Matches(st, cst, None) && st.reassembly.Exists(s)
    requires SameReassembly(d, cd) && Backed(cd, c.fragmentSize)
    requires d.packetHeaderBytes <= MAX_PACKET_HEADER_BYTES && MAX_PACKET_HEADER_BYTES + d.packetBytes <= |d.packetData|
    ensures SameOutcome(Complete(c, st, s, d, process), CComplete(c, cst, s, cd, process), None)
  {
    hide ReceiveWhole, CReceiveWhole, SameSlot, SameReassembly, SameReassemblySlot, CReassembled, Reassembled;
    var taken := d.(packetData := []);
    TakenIsLoose(d, cd);
    var loose := Some(st.reassembly.Index(s));
    SameSetEntry(st.reassembly, cst.reassembly, s, taken, cd, loose);
    var st0, cst0 := SetEntry(st, s, taken), CSetEntry(cst, s, cd);
    SameReassembled(d, cd);
    assert Matches(st0, cst0, loose);
    SameReceiveWhole(c, st0, cst0, Reassembled(d), process, loose);
    WholeKeepsSizes(c, st0, Reassembled(d), process);
    SameRemove(ReceiveWhole(c, st0, Reassembled(d), process).state.reassembly,
               CReceiveWhole(c, cst0, CReassembled(cd), process).state.reassembly, s);
  }

  lemma SameFinishSlot(c: Config, st: State, cst: CState, s: u16, d: FragmentReassemblyData, cd: CReassembly,
                       process: Process)
    requires c.Valid() && Sized(c, st) && Matches(st, cst, None) && st.reassembly.Exists(s)
    requires SlotShape(d, s, c.fragmentSize) && SameReassembly(d, cd) && Backed(cd, c.fragmentSize)
    ensures SameOutcome(FinishSlot(c, st, s, d, process), CFinishSlot(c, cst, s, cd, process), None)
  {
    hide Complete, CComplete, Same;
    if d.numFragmentsReceived == d.numFragmentsTotal {
      CompleteSlotReads(d, s, c.fragmentSize);
      SameComplete(c, st, cst, s, d, cd, process);
    } else {
      SameSetEntry(st.reassembly, cst.reassembly, s, d, cd, None);
    }
  }

  lemma SameStoreInSlot(c: Config, st: State, cst: CState, f: FragmentHeader, data: bytes, process: Process)
    requires CConfigValid(c) && Sized(c, st) && ReassemblyInv(c, st.reassembly) && Matches(st, cst, None)
    requires st.reassembly.Exists(f.sequence) && cst.reassembly.Exists(f.sequence) && BackedAt(c, cst, f.sequence)
    requires CReadFragment(data, c.maxFragments, c.fragmentSize) == Some(f)
    requires DecodeFragment(data, c.maxFragments, c.fragmentSize) == Some(f)
    ensures SameOutcome(StoreInSlot(c, st, f, data, process), CStoreInSlot(c, cst, f, data, process), None)
  {
    hide FinishSlot, CFinishSlot, Same, CReadFragment, DecodeFragment, CWriteHeader, EncodeHeader;
    CEmbeddedIs(f);
    var d := st.reassembly.entries[st.reassembly.Index(f.sequence)];
    var cd := cst.reassembly.data[cst.reassembly.Index(f.sequence)];
    assert SameReassemblySlot(st.reassembly, cst.reassembly, st.reassembly.Index(f.sequence), None);
    SlotAt(c, st, f.sequence);
    AcceptedFragmentIsLegal(data, c.maxFragments, c.fragmentSize);
    if f.total == d.numFragmentsTotal && !d.fragmentReceived[f.id] {
      var payload := FragmentPayload(data, f);
      ShapeAfterStore(d, f, payload, c.maxFragments, c.fragmentSize);
      SameStore(d, cd, f, payload, c);
      BackedAfterStore(cd, f, payload, c.maxFragments, c.fragmentSize);
      SameFinishSlot(c, st, cst, f.sequence, Received(d, f, c.fragmentSize, data[FRAGMENT_HEADER_BYTES..]),
                     CReceived(cd, f, c.fragmentSize, data[FRAGMENT_HEADER_BYTES..]), process);
    }
  }

  lemma SameOpenSlot(c: Config, st: State, cst: CState, f: FragmentHeader)
    requires Sized(c, st) && Matches(st, cst, None)
    ensures var r, cr := OpenSlot(c, st, f), COpenSlot(c, cst, f);
            r.Some? == cr.Some? && (r.Some? ==> Matches(r.value, cr.value, None))
  {
    hide Same, SameReassemblies;
    SameOrder(st.reassembly, cst.reassembly, f.sequence, None);
    SameFresh(f.total, c.fragmentSize);
    SameInsertWithCleanup(st.reassembly, cst.reassembly, f.sequence, FreshReassembly(f.total, c.fragmentSize),
                          CFresh(f.total, c.fragmentSize));
    SameAdvance(st.received, cst.received, f.sequence);
  }

  lemma SameIsBacked(d: FragmentReassemblyData, cd: CReassembly, s: u16, maxFragments: nat, fragmentSize: nat)
    requires SlotInv(d, s, maxFragments, fragmentSize) && SameReassembly(d, cd)
    ensures Backed(cd, fragmentSize)
  {
    Monotone(0, d.numFragmentsTotal, fragmentSize);
  }

  /** In a state that matches one of the port's, every access of the reference stays inside its memory. */
  lemma MatchingIsBacked(c: Config, st: State, cst: CState, s: u16)
    requires c.Valid() && Sized(c, st) && ReassemblyInv(c, st.reassembly) && Matches(st, cst, None)
    ensures CSized(cst) && BackedAt(c, cst, s)
  {
    SameOrder(st.reassembly, cst.reassembly, s, None);
    hide Same;
    if st.reassembly.Exists(s) {
      var i := st.reassembly.Index(s);
      assert SameReassemblySlot(st.reassembly, cst.reassembly, i, None);
      SlotAt(c, st, s);
      SameIsBacked(st.reassembly.entries[i], cst.reassembly.data[i], s, c.maxFragments, c.fragmentSize);
    }
  }

  lemma SameReceiveFragment(c: Config, st: State, cst: CState, data: bytes, process: Process)
    requires CConfigValid(c) && Sized(c, st) && ReassemblyInv(c, st.reassembly) && Matches(st, cst, None)
    requires CSized(cst) && forall s: u16 :: BackedAt(c, cst, s)
    ensures SameOutcome(ReceiveFragment(c, st, data, process), CReceiveFragment(c, cst, data, process), None)
  {
    hide Same, SameReassemblies, OpenSlot, COpenSlot, StoreInSlot, CStoreInSlot, DecodeFragment, CReadFragment;
    CReadFragmentIs(data, c.maxFragments, c.fragmentSize);
    if DecodeFragment(data, c.maxFragments, c.fragmentSize).Some? {
      var f := DecodeFragment(data, c.maxFragments, c.fragmentSize).value;
      SameFind(st.received, cst.received, f.sequence);
      SameOpenSlot(c, st, cst, f);
      if !st.received.Exists(f.sequence) && OpenSlot(c, st, f).Some? {
        AcceptedFragmentIsLegal(data, c.maxFragments, c.fragmentSize);
        OpenSlotInv(c, st, f);
        OpenIsBacked(c, cst, f);
        SameStoreInSlot(c, OpenSlot(c, st, f).value, COpenSlot(c, cst, f).value, f, data, process);
      }
    }
  }

  lemma SameReceive(c: Config, st: State, cst: CState, data: bytes, process: Process)
    requires CConfigValid(c) && Sized(c, st) && ReassemblyInv(c, st.reassembly) && Matches(st, cst, None) && |data| > 0
    requires CSized(cst) && forall s: u16 :: BackedAt(c, cst, s)
    ensures SameOutcome(Receive(c, st, data, process), CReceive(c, cst, data, process), None)
  {
    hide Same, SameReassemblies, ReceiveFragment, CReceiveFragment, ReceiveRegular, CReceiveRegular;
    if |data| <= c.LongestDatagram() {
      if data[0] % 2 == 0 {
        SameReceiveWhole(c, st, cst, data, process, None);
      } else {
        SameReceiveFragment(c, st, cst, data, process);
      }
    }
  }

  // ---------------------------------------------------------------- creation and reset

  lemma SameInit(c: Config, time: real)
    requires c.Valid()
    ensures Matches(Init(c, time), CInit(c, time), None)
  {
  }

  /** The reference resets without clearing what its slots held; nothing of it shows, and no memory is lost. */
  lemma SameReset(c: Config, st: State, cst: CState)
    requires c.Valid() && Sized(c, st) && Matches(st, cst, None)
    ensures Matches(ResetState(c, st), CReset(cst), None)
  {
    var b, cb := st.reassembly, cst.reassembly;
    var b', cb' := ResetState(c, st).reassembly, CReset(cst).reassembly;
    forall i | 0 <= i < b.Size()
      ensures SameReassemblySlot(b', cb', i, None)
    {
      assert SameReassemblySlot(b, cb, i, None);
    }
  }

  // ---------------------------------------------------------------- runs

  /** What a caller sees of one call. */
  datatype Output = Output(sent: seq<Transmission>, calls: seq<Call>, acks: seq<u16>, counters: Counters)

  function Outcome(c: Config, st: State, e: Event): Output
    requires c.Valid() && CanSend(c) && StateInv(c, st) && Legal(e)
  {
    var st' := Step(c, st, e);
    match e
    case SendPacket(packet) => NextFits(c, st); Output(Send(c, st, packet).sent, [], st'.acks, st'.counters)
    case ReceivePacket(data, process) => Output([], Receive(c, st, data, process).calls, st'.acks, st'.counters)
    case _ => Output([], [], st'.acks, st'.counters)
  }

  /** No call on the reference reads outside its memory or trips its assertion. */
  ghost predicate CSafe(c: Config, cst: CState) {
    CSized(cst) && !cst.sent.Stale(cst.sequence) && forall s: u16 :: BackedAt(c, cst, s)
  }

  function CStep(c: Config, cst: CState, e: Event): CState
    requires c.Valid() && CSafe(c, cst) && Legal(e)
  {
    match e
    case SendPacket(packet) => CSend(c, cst, packet).state
    case ReceivePacket(data, process) => CReceive(c, cst, data, process).state
    case ClearAcks => cst.(acks := [])
    case Update(time) => cst.(time := time)
    case Reset => CReset(cst)
  }

  function COutcome(c: Config, cst: CState, e: Event): Output
    requires c.Valid() && CSafe(c, cst) && Legal(e)
  {
    var cst' := CStep(c, cst, e);
    match e
    case SendPacket(packet) => Output(CSend(c, cst, packet).sent, [], cst'.acks, cst'.counters)
    case ReceivePacket(data, process) => Output([], CReceive(c, cst, data, process).calls, cst'.acks, cst'.counters)
    case _ => Output([], [], cst'.acks, cst'.counters)
  }

  lemma MatchingIsSafe(c: Config, st: State, cst: CState)
    requires c.Valid() && CanSend(c) && StateInv(c, st) && Matches(st, cst, None)
    ensures CSafe(c, cst)
  {
    NextFits(c, st);
    SameFind(st.sent, cst.sent, st.sequence);
    forall s: u16
      ensures CSized(cst) && BackedAt(c, cst, s)
    {
      MatchingIsBacked(c, st, cst, s);
    }
  }

  /** One call, on either. */
  lemma SameStep(c: Config, st: State, cst: CState, e: Event)
    requires CConfigValid(c) && CanSend(c) && StateInv(c, st) && Legal(e) && Matches(st, cst, None)
    ensures CSafe(c, cst)
    ensures Matches(Step(c, st, e), CStep(c, cst, e), None)
    ensures Outcome(c, st, e) == COutcome(c, cst, e)
  {
    hide Send, CSend, Receive, CReceive, Same, SameReassemblies, ReassemblyInv, BackedAt, ResetState, CReset;
    MatchingIsSafe(c, st, cst);
    match e
    case SendPacket(packet) =>
      NextFits(c, st);
      SameSend(c, st, cst, packet);
    case ReceivePacket(data, process) => SameReceive(c, st, cst, data, process);
    case ClearAcks =>
    case Update(time) =>
    case Reset => SameReset(c, st, cst);
  }

  /** The reference run on the same calls, from creation: it never leaves the port's side. */
  function CRun(c: Config, time: real, events: seq<Event>): (cst: CState)
    requires CConfigValid(c) && CanSend(c) && LegalRun(events)
    ensures Matches(StateAfter(c, time, events), cst, None) && CSafe(c, cst)
    decreases |events|
  {
    if events == [] then
      SameInit(c, time);
      MatchingIsSafe(c, StateAfter(c, time, []), CInit(c, time));
      CInit(c, time)
    else
      var front, last := events[..|events| - 1], events[|events| - 1];
      var cst := CRun(c, time, front);
      SameStep(c, StateAfter(c, time, front), cst, last);
      MatchingIsSafe(c, StateAfter(c, time, events), CStep(c, cst, last));
      CStep(c, cst, last)
  }

  /** All that a caller sees of the port. */
  function Behaviour(c: Config, time: real, events: seq<Event>): seq<Output>
    requires c.Valid() && CanSend(c) && LegalRun(events)
    decreases |events|
  {
    if events == [] then []
    else
      var front, last := events[..|events| - 1], events[|events| - 1];
      Behaviour(c, time, front) + [Outcome(c, StateAfter(c, time, front), last)]
  }

  /** All that a caller sees of the reference. */
  function CBehaviour(c: Config, time: real, events: seq<Event>): seq<Output>
    requires CConfigValid(c) && CanSend(c) && LegalRun(events)
    decreases |events|
  {
    if events == [] then []
    else
      var front, last := events[..|events| - 1], events[|events| - 1];
      CBehaviour(c, time, front) + [COutcome(c, CRun(c, time, front), last)]
  }

  /** Every run of calls, with any answers of the process closure, is seen the same from the port and from the
      reference: byte-identical datagrams, the same deliveries, acks and counters after every call. */
  lemma {:induction false} SameBehaviour(c: Config, time: real, events: seq<Event>)
    requires CConfigValid(c) && CanSend(c) && LegalRun(events)
    ensures Behaviour(c, time, events) == CBehaviour(c, time, events)
    decreases |events|
  {
    hide Outcome, COutcome, Matches, CSafe;
    if events != [] {
      var front, last := events[..|events| - 1], events[|events| - 1];
      SameBehaviour(c, time, front);
      SameStep(c, StateAfter(c, time, front), CRun(c, time, front), last);
    }
  }

  /** What is seen of a run, put together: all datagrams and all calls, in order. */
  function SentIn(outputs: seq<Output>): seq<Transmission> {
    if outputs == [] then [] else SentIn(outputs[..|outputs| - 1]) + outputs[|outputs| - 1].sent
  }

  function CallsIn(outputs: seq<Output>): seq<Call> {
    if outputs == [] then [] else CallsIn(outputs[..|outputs| - 1]) + outputs[|outputs| - 1].calls
  }

  /** Nothing is kept from view: one output for each call; together they show all that the closures were handed; and the
      last one shows the acks and the counters as they are. */
  lemma {:induction false} BehaviourShowsAll(c: Config, time: real, events: seq<Event>)
    requires c.Valid() && CanSend(c) && LegalRun(events)
    ensures var seen := Behaviour(c, time, events);
            && |seen| == |events|
            && SentIn(seen) == HandedOut(c, time, events) && CallsIn(seen) == HandedIn(c, time, events)
            && (events != [] ==>
                  && seen[|events| - 1].acks == StateAfter(c, time, events).acks
                  && seen[|events| - 1].counters == StateAfter(c, time, events).counters)
    decreases |events|
  {
    hide Send, Receive, StateInv, Init, ResetState;
    if events != [] {
      var front, last := events[..|events| - 1], events[|events| - 1];
      BehaviourShowsAll(c, time, front);
      assert last in events;
      var st, seen := StateAfter(c, time, front), Behaviour(c, time, front);
      CallShowsAll(c, st, last);
      assert (seen + [Outcome(c, st, last)])[..|seen|] == seen;
    }
  }

  lemma CallShowsAll(c: Config, st: State, e: Event)
    requires c.Valid() && CanSend(c) && StateInv(c, st) && Legal(e)
    ensures !st.sent.Stale(st.sequence)
    ensures Outcome(c, st, e)
            == Output(if e.SendPacket? then Send(c, st, e.packet).sent else [],
                      if e.ReceivePacket? then Receive(c, st, e.data, e.process).calls else [],
                      Step(c, st, e).acks, Step(c, st, e).counters)
  {
    hide Send, Receive, ReassemblyInv, Init;
    NextFits(c, st);
  }

  /** The default configuration of both. */
  const DEFAULTS := Config(16384, 1024, 16, 1024, 256, 256, 256, 64, 28)

  /** The defaults meet every condition that a statement here puts on the configuration. */
  lemma DefaultsQualify()
    ensures DEFAULTS.Valid() && CConfigValid(DEFAULTS) && CanSend(DEFAULTS)
    ensures Fits(DEFAULTS.sentPacketsBufferSize) && Fits(DEFAULTS.receivedPacketsBufferSize)
    ensures Fits(DEFAULTS.fragmentReassemblyBufferSize) && SpliceRun.Splits(DEFAULTS)
  {
  }

  // ---------------------------------------------------------------- the nested receive

  /** What a regular packet does to the packets under reassembly. */
  lemma CWholeFrame(c: Config, cst: CState, data: bytes, process: Process)
    requires c.Valid() && CSized(cst)
    ensures var r := CReceiveWhole(c, cst, data, process);
            if r.calls != [] then
              || r.state.reassembly == cst.reassembly
              || r.state.reassembly == AdvanceWithCleanup(cst.reassembly, r.calls[0].sequence)
            else r.state.reassembly == cst.reassembly
  {
    hide AdvanceWithCleanup;
    CReadHeaderIs(data);
    if |data| <= c.LongestDatagram() && DecodeHeader(data).Some? {
      var h := DecodeHeader(data).value;
      var cst0 := cst.(counters := cst.counters.(packetsReceived := cst.counters.packetsReceived + 1));
      if !cst0.received.Stale(h.sequence) {
        var entry := ReceivedPacketData(cst0.time, c.packetHeaderSize + |data|);
        CAcksTouchOnlySent(c, cst0.(received := cst0.received.Insert(h.sequence, entry).value,
                                    reassembly := AdvanceWithCleanup(cst0.reassembly, h.sequence)), h.ack, h.ackBits,
                                      0);
      }
    }
  }

  lemma {:induction false} CAcksTouchOnlySent(c: Config, cst: CState, ack: u16, ackBits: u32, i: nat)
    requires CSized(cst) && i <= 32
    ensures CProcessAcks(c, cst, ack, ackBits, i).reassembly == cst.reassembly
    decreases 32 - i
  {
    if i < 32 {
      CAcksTouchOnlySent(c, if ackBits % 2 == 1 then CAckOne(c, cst, Wrap(ack - i)) else cst, ack, ackBits / 2, i + 1);
    }
  }

  /** The reference passes the nested receive a pointer into the slot. Nothing frees that memory, or any other
      under reassembly, until the nested receive has returned. */
  lemma NestedReceiveKeepsItsData(c: Config, st: State, mark: int, cst: CState, s: u16, d: FragmentReassemblyData,
                                  cd: CReassembly, process: Process)
    requires c.Valid() && InStep(c, st, mark) && Matches(st, cst, None) && st.reassembly.Exists(s)
    requires SlotShape(d, s, c.fragmentSize) && d.numFragmentsReceived == d.numFragmentsTotal
    requires SameReassembly(d, cd) && Backed(cd, c.fragmentSize)
    ensures var cst0 := CSetEntry(cst, s, cd);
            CReceiveWhole(c, cst0, CReassembled(cd), process).state.reassembly == cst0.reassembly
  {
    hide ReceiveWhole, CReceiveWhole, Same, SlotShape, SameReassembly, SameReassemblies;
    var ack, ackBits := CompleteHasHeader(d, s, c.fragmentSize);
    ReassembledReads(d, s, ack, ackBits);
    NestedCall(c, st, cst, s, d, cd, process);
    var cst0 := CSetEntry(cst, s, cd);
    CWholeFrame(c, cst0, CReassembled(cd), process);
    LiveIsNotNewer(st.reassembly, mark, s);
    SameOrder(st.reassembly, cst.reassembly, s, None);
  }

  lemma NestedCall(c: Config, st: State, cst: CState, s: u16, d: FragmentReassemblyData, cd: CReassembly,
                   process: Process)
    requires c.Valid() && Sized(c, st) && Matches(st, cst, None) && st.reassembly.Exists(s)
    requires SameReassembly(d, cd) && Backed(cd, c.fragmentSize)
    requires var h := DecodeHeader(Reassembled(d)); h.Some? && h.value.sequence == s
    ensures CSized(cst)
    ensures var r := CReceiveWhole(c, CSetEntry(cst, s, cd), CReassembled(cd), process);
            r.calls != [] ==> r.calls[0].sequence == s
  {
    SameReassembled(d, cd);
    CReadHeaderIs(Reassembled(d));
  }
}
