/** What the wire standard (STANDARD.md) promises and the endpoint does not keep, with inputs that show it and the exact
    conditions. */
module StandardClaims {
  import opened Wrappers
  import opened Sequence
  import opened Codec
  import opened CodecLaws
  import opened Buffers
  import opened Windows
  import opened Reassembly
  import opened Protocol
  import opened Invariants
  import opened ReceiveSide
  import opened Duplicates

  // ---------------------------------------------------------------- when bit 0 is clear

  /** The wire standard has a sender that has received anything set bit 0. The endpoint does not: the first fragment
      of a newer packet that does not complete it moves the window, and until the next packet is accepted at the top
      the ack names a packet that was not received. */
  lemma FirstFragmentClearsBitZero(c: Config, st: State, mark: int, data: bytes, f: FragmentHeader, process: Process)
    requires c.Valid() && InStep(c, st, mark) && ReassemblyInv(c, st.reassembly)
    requires 0 < |data| <= c.LongestDatagram() && data[0] % 2 == 1
    requires DecodeFragment(data, c.maxFragments, c.fragmentSize) == Some(f) && f.total >= 2
    requires st.reassembly.Newer(f.sequence)
    ensures var r := Receive(c, st, data, process);
            r.calls == [] && r.state.received.WellFormed()
            && r.state.received.Ack() == f.sequence && !Bit(r.state.received.AckBits(), 0)
  {
    hide StoreInSlot, OpenSlot, ReassemblyInv, Inv, Fits, Bit, DecodeFragment, Buffer.AckBits, Buffer.Ack,
         Buffer.Advance, Buffer.Newer, Buffer.Exists;
    NewerTogether(c, st, mark, f.sequence);
    if st.received.Exists(f.sequence) {
      LiveIsNotNewer(st.received, mark, f.sequence);
    }
    if st.reassembly.Exists(f.sequence) {
      LiveIsNotNewer(st.reassembly, mark, f.sequence);
    }
    AcceptedFragmentIsLegal(data, c.maxFragments, c.fragmentSize);
    OpenAdvances(c, st, f);
    FreshIsIncomplete(c, st, f, data, process);
    AdvancedIsBlankOnTop(st.received, mark, f.sequence);
  }

  lemma NewerTogether(c: Config, st: State, mark: int, s: u16)
    requires InStep(c, st, mark)
    ensures st.received.Newer(s) <==> st.reassembly.Newer(s)
  {
  }

  lemma OpenAdvances(c: Config, st: State, f: FragmentHeader)
    requires Sized(c, st) && !st.reassembly.Exists(f.sequence) && st.reassembly.Newer(f.sequence)
    ensures var open := OpenSlot(c, st, f);
            && open.Some? && open.value.received == st.received.Advance(f.sequence)
            && open.value.reassembly.Find(f.sequence) == Some(FreshReassembly(f.total, c.fragmentSize))
  {
  }

  /** A fragment in a fresh slot of two or more is stored and completes nothing. */
  lemma FreshIsIncomplete(c: Config, st: State, f: FragmentHeader, data: bytes, process: Process)
    requires c.Valid() && Sized(c, st) && ReassemblyInv(c, st.reassembly)
    requires !st.reassembly.Exists(f.sequence) && st.reassembly.Newer(f.sequence)
    requires DecodeFragment(data, c.maxFragments, c.fragmentSize) == Some(f) && f.total >= 2
    ensures OpenSlot(c, st, f).Some?
    ensures var open := OpenSlot(c, st, f).value;
            && Sized(c, open) && ReassemblyInv(c, open.reassembly) && open.reassembly.Exists(f.sequence)
            && var r := StoreInSlot(c, open, f, data, process);
               r.calls == [] && r.state.received == open.received
  {
    hide OpenSlot, DecodeFragment, EncodeHeader, Received, SlotShape, NoneReceived, Zeros;
    AcceptedFragmentIsLegal(data, c.maxFragments, c.fragmentSize);
    OpenAdvances(c, st, f);
    OpenSlotInv(c, st, f);
    var open := OpenSlot(c, st, f).value;
    SlotAt(c, open, f.sequence);
    var d := open.reassembly.entries[open.reassembly.Index(f.sequence)];
    if !d.fragmentReceived[f.id] {
      StoredData(d, f, FragmentPayload(data, f), c.maxFragments, c.fragmentSize);
    }
  }

  /** Right after an advance to a newer number, that number is on top and not there. */
  lemma AdvancedIsBlankOnTop(b: ReceivedBuffer, mark: int, s: u16)
    requires Inv(b, mark) && Fits(b.Size()) && b.Newer(s)
    ensures b.Advance(s).Ack() == s && !Bit(b.Advance(s).AckBits(), 0)
  {
    hide Bit, Wrap, Fits, GreaterThan, SlotInWindow, Buffer.AckBits, Buffer.AckFlags, Buffer.Ack, Buffer.Advance,
         Buffer.Exists, Buffer.Index;
    AdvanceRefines(b, mark, s);
    var k := Unwrap(mark, s);
    AckBitIs(b.Advance(s), k + 1, 0);
  }

  /** Bit 0 after a datagram, from what the datagram did: the packet that the ack now names was accepted just then, or
      the mark stayed and the bit was set before. */
  lemma BitZeroAfter(c: Config, st: State, mark: int, data: bytes, process: Process)
    requires c.Valid() && InStep(c, st, mark) && ReassemblyInv(c, st.reassembly) && |data| > 0
    ensures var r := Receive(c, st, data, process);
            r.state.received.WellFormed()
            && (Bit(r.state.received.AckBits(), 0) <==>
                  || AcceptedOf(r) == Some(r.state.received.Ack())
                  || (r.state.received.sequence == st.received.sequence && Bit(st.received.AckBits(), 0)))
  {
    hide Receive, ReassemblyInv, Inv, Fits, Bit, Buffer.AckBits, Buffer.AckFlags;
    ReceiveMoves(c, st, mark, data, process);
    var r := Receive(c, st, data, process);
    TopAfterMove(st.received, mark, r.state.received, MarkAfter(mark, st.received, r.state.received), AcceptedOf(r));
  }

  /** The datagrams that undo what the standard promises: the fragments of a packet newer than the window, except a
      packet of one fragment that is short enough and that the process closure will take. */
  predicate ClearsBitZero(c: Config, st: State, data: bytes, process: Process)
    requires |data| > 0
  {
    && |data| <= c.LongestDatagram() && data[0] % 2 == 1
    && match DecodeFragment(data, c.maxFragments, c.fragmentSize)
       case None => false
       case Some(f) =>
         && st.reassembly.Newer(f.sequence)
         && !(f.total == 1 && TakenWhole(c, f.sequence, FragmentPayload(data, f), process))
  }

  predicate TakenWhole(c: Config, s: u16, payload: bytes, process: Process) {
    |payload| <= c.maxPacketSize && process(s, payload)
  }

  /** Exactly when a sender that had bit 0 set no longer has it, told before the datagram is received. */
  lemma BitZeroExactly(c: Config, st: State, mark: int, data: bytes, process: Process)
    requires c.Valid() && InStep(c, st, mark) && ReassemblyInv(c, st.reassembly) && |data| > 0
    requires Bit(st.received.AckBits(), 0)
    ensures var r := Receive(c, st, data, process);
            r.state.received.WellFormed() && (!Bit(r.state.received.AckBits(), 0)
                                              <==> ClearsBitZero(c, st, data, process))
  {
    hide Bit, Buffer.AckBits, Inv, Fits, ReceiveFragment, ReceiveRegular, ReassemblyInv, FragmentPayload,
         DecodeFragment, Buffer.Newer, TakenWhole;
    BitZeroAfter(c, st, mark, data, process);
    if |data| <= c.LongestDatagram() {
      if data[0] % 2 == 0 {
        WholeKeepsBitZero(c, st, mark, data, process);
      } else if DecodeFragment(data, c.maxFragments, c.fragmentSize).Some? {
        var f := DecodeFragment(data, c.maxFragments, c.fragmentSize).value;
        if !st.reassembly.Newer(f.sequence) {
          LateFragmentKeepsMark(c, st, mark, data, f, process);
        } else if f.total >= 2 {
          FirstFragmentClearsBitZero(c, st, mark, data, f, process);
        } else {
          AcceptedFragmentIsLegal(data, c.maxFragments, c.fragmentSize);
          SingleFragment(c, st, mark, data, f, process);
        }
      } else {
        UnreadableLeavesReceived(c, st, data, process);
      }
    }
  }

  lemma UnreadableLeavesReceived(c: Config, st: State, data: bytes, process: Process)
    requires c.Valid() && Sized(c, st) && ReassemblyInv(c, st.reassembly)
    requires DecodeFragment(data, c.maxFragments, c.fragmentSize).None?
    ensures ReceiveFragment(c, st, data, process).state.received == st.received
  {
  }

  /** A regular packet that moves the mark is accepted at the top. */
  lemma WholeKeepsBitZero(c: Config, st: State, mark: int, data: bytes, process: Process)
    requires c.Valid() && InStep(c, st, mark)
    ensures var r := ReceiveWhole(c, st, data, process);
            r.state.received.sequence == st.received.sequence || AcceptedOf(r) == Some(r.state.received.Ack())
  {
    hide ReceiveWhole, Inv, Fits, Wrap, Buffer.Stale, Buffer.Exists, Buffer.Insert, Buffer.Advance, Buffer.Ack;
    WholeFrame(c, st, data, process);
    var r := ReceiveWhole(c, st, data, process);
    if AcceptedOf(r).Some? {
      InsertedOnTop(st.received, r.calls[0].sequence, ReceivedEntry(c, st, |data|));
    }
  }

  lemma InsertedOnTop(b: ReceivedBuffer, s: u16, v: ReceivedPacketData)
    requires b.WellFormed() && !b.Stale(s)
    ensures var b' := b.Insert(s, v).value; b'.sequence == b.sequence || b'.Ack() == s
  {
    hide Wrap, GreaterThan, LessThan, Buffer.ClearRange;
    OneBack(s);
  }

  lemma OneBack(s: u16)
    ensures Wrap(Wrap(s + 1) - 1) == s
  {
  }

  /** A fragment of a packet that is not newer than the window leaves the mark alone. */
  lemma LateFragmentKeepsMark(c: Config, st: State, mark: int, data: bytes, f: FragmentHeader, process: Process)
    requires c.Valid() && InStep(c, st, mark) && ReassemblyInv(c, st.reassembly)
    requires DecodeFragment(data, c.maxFragments, c.fragmentSize) == Some(f) && !st.reassembly.Newer(f.sequence)
    ensures ReceiveFragment(c, st, data, process).state.received.sequence == st.received.sequence
  {
    hide StoreInSlot, OpenSlot, ReassemblyInv, Inv, Fits, DecodeFragment, Moved, MarkAfter, LegalFragment,
         EncodeFragment, Buffer.Newer, Buffer.Exists;
    if !st.received.Exists(f.sequence) && OpenSlot(c, st, f).Some? {
      var open := OpenSlot(c, st, f).value;
      NewerTogether(c, st, mark, f.sequence);
      LateOpenKeepsReceived(c, st, f);
      MarkStays(st.received, mark);
      OpenForStore(c, st, mark, data, f);
      StoreKeepsSequence(c, open, mark, f, data, process);
    }
  }

  /** An open slot is ready for the fragment that opened it. */
  lemma OpenForStore(c: Config, st: State, mark: int, data: bytes, f: FragmentHeader)
    requires c.Valid() && InStep(c, st, mark) && ReassemblyInv(c, st.reassembly) && OpenSlot(c, st, f).Some?
    requires DecodeFragment(data, c.maxFragments, c.fragmentSize) == Some(f)
    ensures var open := OpenSlot(c, st, f).value;
            && InStep(c, open, MarkAfter(mark, st.received, open.received)) && ReassemblyInv(c, open.reassembly)
            && open.reassembly.Exists(f.sequence)
  {
    hide ReassemblyInv, Inv, Fits, DecodeFragment, Moved, MarkAfter, OpenSlot, EncodeFragment, Buffer.Exists;
    AcceptedFragmentIsLegal(data, c.maxFragments, c.fragmentSize);
    OpenSlotInv(c, st, f);
    OpenSlotMoves(c, st, mark, f);
  }

  /** Storing a fragment in an open slot leaves the mark alone. */
  lemma StoreKeepsSequence(c: Config, st: State, mark: int, f: FragmentHeader, data: bytes, process: Process)
    requires c.Valid() && InStep(c, st, mark) && ReassemblyInv(c, st.reassembly) && st.reassembly.Exists(f.sequence)
    requires DecodeFragment(data, c.maxFragments, c.fragmentSize) == Some(f)
    ensures StoreInSlot(c, st, f, data, process).state.received.sequence == st.received.sequence
  {
    hide StoreInSlot, ReassemblyInv, Fits, DecodeFragment, Buffer.Exists;
    StoreMoves(c, st, mark, f, data, process);
  }

  lemma LateOpenKeepsReceived(c: Config, st: State, f: FragmentHeader)
    requires Sized(c, st) && OpenSlot(c, st, f).Some? && !st.received.Newer(f.sequence)
    ensures OpenSlot(c, st, f).value.received == st.received
  {
  }

  /** A newer packet of one fragment is on top afterwards, and it is accepted exactly if it is short enough and the
      process closure takes it. */
  lemma SingleFragment(c: Config, st: State, mark: int, data: bytes, f: FragmentHeader, process: Process)
    requires c.Valid() && InStep(c, st, mark) && ReassemblyInv(c, st.reassembly)
    requires 0 < |data| <= c.LongestDatagram() && data[0] % 2 == 1
    requires DecodeFragment(data, c.maxFragments, c.fragmentSize) == Some(f) && f.total == 1
    requires st.reassembly.Newer(f.sequence)
    ensures var r := Receive(c, st, data, process);
            && r.state.received.sequence != st.received.sequence && r.state.received.Ack() == f.sequence
            && AcceptedOf(r) == (if TakenWhole(c, f.sequence, FragmentPayload(data, f), process) then Some(f.sequence)
                                 else None)
  {
    hide StoreInSlot, OpenSlot, ReassemblyInv, Inv, Fits, DecodeFragment, Moved, FragmentPayload, Buffer.Ack,
         Buffer.Advance, Buffer.Newer, Buffer.Exists;
    var s := f.sequence;
    NewerTogether(c, st, mark, s);
    if st.received.Exists(s) {
      LiveIsNotNewer(st.received, mark, s);
    }
    if st.reassembly.Exists(s) {
      LiveIsNotNewer(st.reassembly, mark, s);
    }
    AcceptedFragmentIsLegal(data, c.maxFragments, c.fragmentSize);
    OpenAdvances(c, st, f);
    OpenForStore(c, st, mark, data, f);
    var open := OpenSlot(c, st, f).value;
    TopOfAdvanced(st.received, mark, s);
    AdvancedIsInsertable(st.received, mark, s);
    StoreKeepsSequence(c, open, MarkAfter(mark, st.received, open.received), f, data, process);
    SingleIsWhole(c, open, f, data, process);
  }

  lemma TopOfAdvanced(b: ReceivedBuffer, mark: int, s: u16)
    requires b.WellFormed() && b.Newer(s)
    ensures var b' := b.Advance(s);
            b'.sequence != b.sequence && b'.Ack() == s
            && forall b'': ReceivedBuffer :: b''.sequence == b'.sequence ==> b''.Ack() == s
  {
  }

  /** Right after an advance to a newer number, that number is neither stale nor there. */
  lemma AdvancedIsInsertable(b: ReceivedBuffer, mark: int, s: u16)
    requires Inv(b, mark) && Fits(b.Size()) && b.Newer(s)
    ensures !b.Advance(s).Stale(s) && !b.Advance(s).Exists(s)
  {
    hide Wrap, Abs, GreaterThan, SlotInWindow, Buffer.Advance, Buffer.Exists, Buffer.Stale, Buffer.Newer;
    AdvanceRefines(b, mark, s);
    var k := Unwrap(mark, s);
    NewerExactly(b, mark, s);
    AdvanceKeepsSlots(b, mark, s, k);
    UnwrapIs(k + 1, k);
    StaleExactly(b.Advance(s), k + 1, s);
    EmptySlotHasNone(b.Advance(s), s);
  }

  lemma EmptySlotHasNone(b: ReceivedBuffer, s: u16)
    requires b.WellFormed() && b.slots[b.Index(s)] == None
    ensures !b.Exists(s)
  {
  }

  /** The only fragment of a packet completes its fresh slot with its own header and payload. */
  lemma SingleIsWhole(c: Config, st: State, f: FragmentHeader, data: bytes, process: Process)
    requires c.Valid() && Sized(c, st) && ReassemblyInv(c, st.reassembly) && st.reassembly.Exists(f.sequence)
    requires DecodeFragment(data, c.maxFragments, c.fragmentSize) == Some(f) && f.total == 1
    requires st.reassembly.Find(f.sequence) == Some(FreshReassembly(1, c.fragmentSize))
    requires !st.received.Stale(f.sequence) && !st.received.Exists(f.sequence)
    ensures AcceptedOf(StoreInSlot(c, st, f, data, process))
            == if TakenWhole(c, f.sequence, FragmentPayload(data, f), process) then Some(f.sequence) else None
  {
    hide DecodeFragment, EncodeHeader, SlotShape, HoldsHeader, Zeros, ReceiveWhole, Received, Buffer.Exists;
    var s, payload := f.sequence, FragmentPayload(data, f);
    AcceptedFragmentIsLegal(data, c.maxFragments, c.fragmentSize);
    SlotAt(c, st, s);
    var d := st.reassembly.entries[st.reassembly.Index(s)];
    if !d.fragmentReceived[f.id] {
      ShapeAfterStore(d, f, payload, c.maxFragments, c.fragmentSize);
      StoredData(d, f, payload, c.maxFragments, c.fragmentSize);
      HeaderAfterStore(d, f, payload, c.maxFragments, c.fragmentSize, f.ack, f.ackBits);
      var d' := Received(d, f, c.fragmentSize, data[FRAGMENT_HEADER_BYTES..]);
      SinglePayload(d, f, payload, c.maxFragments, c.fragmentSize);
      CompleteSlotReads(d', s, c.fragmentSize);
      ReassembledIs(d', s, f.ack, f.ackBits);
      HeaderRoundTrip(s, f.ack, f.ackBits, payload);
      WholeAcceptedExactly(c, SetEntry(st, s, d'.(packetData := [])), s, f.ack, f.ackBits, payload, process);
    }
  }

  lemma SinglePayload(d: FragmentReassemblyData, f: FragmentHeader, payload: bytes, maxFragments: nat,
                      fragmentSize: nat)
    requires Fitting(d, f, payload, maxFragments, fragmentSize) && f.total == 1
    ensures var d' := Gained(d, f, payload, maxFragments, fragmentSize);
            MAX_PACKET_HEADER_BYTES + d'.packetBytes <= |d'.packetData| && Payload(d') == payload
  {
    hide EncodeHeader, SlotShape;
    StoredData(d, f, payload, maxFragments, fragmentSize);
    var front := if f.id == 0 then StoreHeader(d, EmbeddedHeader(f)).packetData else d.packetData;
    OverwriteThere(front, MAX_PACKET_HEADER_BYTES, payload);
  }

  /** When a regular packet is accepted. */
  lemma WholeAcceptedExactly(c: Config, st: State, s: u16, ack: u16, ackBits: u32, payload: bytes, process: Process)
    requires c.Valid() && Sized(c, st) && !st.received.Stale(s) && !st.received.Exists(s)
    ensures AcceptedOf(ReceiveWhole(c, st, EncodeHeader(s, ack, ackBits) + payload, process))
            == if TakenWhole(c, s, payload, process) then Some(s) else None
  {
    hide EncodeHeader, DecodeHeader, Accept;
    HeaderRoundTrip(s, ack, ackBits, payload);
  }

  lemma TopAfterMove(b: ReceivedBuffer, mark: int, b': ReceivedBuffer, mark': int, accepted: Option<u16>)
    requires Moved(b, mark, b', mark', NumberOf(mark', accepted))
    ensures Bit(b'.AckBits(), 0) <==>
            accepted == Some(b'.Ack()) || (b'.sequence == b.sequence && Bit(b.AckBits(), 0))
  {
    hide Bit, Live, NumberOf, Wrap, SlotInWindow, Buffer.AckBits, Buffer.AckFlags, Buffer.Ack;
    AckBitIs(b, mark, 0);
    AckBitIs(b', mark', 0);
    NumberOnTop(mark', accepted);
    if mark' > mark {
      NothingLiveAtTop(b, mark, mark' - 1);
      OtherNumbersWrapApart(mark', mark);
    }
  }

  lemma OtherNumbersWrapApart(a: int, b: int)
    requires -65536 < a - b < 65536 && a != b
    ensures Wrap(a) != Wrap(b)
  {
  }

  lemma NumberOnTop(mark: int, s: Option<u16>)
    ensures NumberOf(mark, s) == Some(mark - 1) <==> s == Some(Wrap(mark - 1))
  {
    if s.Some? {
      UnwrapIs(mark, mark - 1);
    }
  }

  lemma NothingLiveAtTop<T>(b: Buffer<T>, high: int, k: int)
    requires b.WellFormed() && high <= k
    ensures k !in Live(b, high)
  {
  }

  /** The first datagram of the run below: packet 0, whole. */
  function WholePacketZero(): bytes {
    EncodeHeader(0, 65535, 0) + [7]
  }

  /** The second: the last of two fragments of packet 1. */
  function LastFragmentOfOne(): bytes {
    EncodeFragment(FragmentHeader(1, 2, 1, 0, 0), [7])
  }

  lemma PacketZeroIs()
    ensures WholePacketZero() == EncodeHeader(0, 65535, 0) + [7] && |WholePacketZero()| > 0
  {
  }

  function AcceptAll(): Process {
    (s: u16, payload: bytes) => true
  }

  lemma FreshTakesPacketZero(c: Config, time: real, ack: u16, ackBits: u32, payload: bytes)
    requires c.Valid() && Fits(c.receivedPacketsBufferSize) && |payload| <= c.maxPacketSize
    ensures StateInv(c, Init(c, time))
    ensures var r := Receive(c, Init(c, time), EncodeHeader(0, ack, ackBits) + payload, AcceptAll());
            AcceptedOf(r) == Some(0) && r.state.reassembly.sequence == 1
  {
    hide EncodeHeader, DecodeHeader, ReceiveWhole, ReassemblyInv, Buffer.AckBits;
    InitInv(c, time);
    var data := EncodeHeader(0, ack, ackBits) + payload;
    var st := Init(c, time);
    assert !st.received.Exists(0);
    WholeAcceptedExactly(c, st, 0, ack, ackBits, payload, AcceptAll());
    WholeFrame(c, st, data, AcceptAll());
    RegularIsWhole(c, st, data, AcceptAll());
  }

  /** The same packet under the header that the encoder writes. */
  function Canonical(data: bytes): bytes
    requires DecodeHeader(data).Some?
  {
    var g := DecodeHeader(data).value;
    EncodeHeader(g.sequence, g.ack, g.ackBits) + data[g.size..]
  }

  lemma {:induction false} AcksIgnoreReceived(c: Config, st: State, b: ReceivedBuffer, ack: u16, ackBits: u32, i: nat)
    requires st.sent.WellFormed() && i <= 32
    ensures ProcessAcks(c, st.(received := b), ack, ackBits, i) == ProcessAcks(c, st, ack, ackBits, i).(received := b)
    decreases 32 - i
  {
    if i < 32 {
      AcksIgnoreReceived(c, if ackBits % 2 == 1 then AckOne(c, st, Wrap(ack - i)) else st, b, ack, ackBits / 2, i + 1);
    }
  }

  /** Two outcomes that differ at most in the recorded size of one received packet. */
  ghost predicate SameButSize(r: Receiving, r': Receiving, s: u16) {
    var b, b' := r.state.received, r'.state.received;
    && r.calls == r'.calls && r'.state == r.state.(received := b')
    && b.WellFormed() && b'.WellFormed() && b'.slots == b.slots && b'.sequence == b.sequence && b'.Size() == b.Size()
    && (forall i :: 0 <= i < b.Size() && i != b.Index(s) ==> b'.entries[i] == b.entries[i])
    && b'.entries[b.Index(s)].time == b.entries[b.Index(s)].time
  }

  lemma SizeHardlyMatters(c: Config, st: State, g: PacketHeader, g': PacketHeader, payload: bytes, size: nat,
                          size': nat, process: Process)
    requires c.Valid() && Sized(c, st) && size <= c.LongestDatagram() && size' <= c.LongestDatagram()
    requires g'.sequence == g.sequence && g'.ack == g.ack && g'.ackBits == g.ackBits
    ensures SameButSize(ReceivePayload(c, st, g, payload, size, process),
                        ReceivePayload(c, st, g', payload, size', process), g.sequence)
  {
    hide ProcessAcks, Buffer.Stale, Buffer.Exists, Buffer.Advance;
    var s := g.sequence;
    if !st.received.Stale(s) {
      var b := st.received.Insert(s, ReceivedEntry(c, st, size)).value;
      var b' := st.received.Insert(s, ReceivedEntry(c, st, size')).value;
      var st1 := st.(received := b, reassembly := st.reassembly.Advance(s));
      AcksTouchOnlySent(c, st1, g.ack, g.ackBits, 0);
      AcksIgnoreReceived(c, st1, b', g.ack, g.ackBits, 0);
    }
  }

  /** What headers that are not canonical amount to, in any state: a regular packet that passes the length gate is
      treated as if it had come with the canonical header, which is not longer; only the recorded size may differ. */
  lemma ReceivedAsIfCanonical(c: Config, st: State, data: bytes, process: Process)
    requires c.Valid() && StateInv(c, st) && |data| <= c.LongestDatagram() && DecodeHeader(data).Some?
    ensures 0 < |Canonical(data)| <= |data| && DecodeHeader(Canonical(data)).Some?
    ensures SameButSize(Receive(c, st, data, process), Receive(c, st, Canonical(data), process),
                        DecodeHeader(data).value.sequence)
  {
    hide EncodeHeader, DecodeHeader, ReceivePayload, SameButSize, ReassemblyInv;
    var g := DecodeHeader(data).value;
    CanonicalIsShortest(data);
    HeaderRoundTrip(g.sequence, g.ack, g.ackBits, data[g.size..]);
    var g' := DecodeHeader(Canonical(data)).value;
    assert Canonical(data)[g'.size..] == data[g.size..];
    ReadsAsRegular(data);
    ReadsAsRegular(Canonical(data));
    SizeHardlyMatters(c, CountPacket(st), g, g', data[g.size..], |data|, |Canonical(data)|, process);
  }

  /** A header that is not canonical does not keep a regular packet out: a fresh endpoint hands over a packet with any
      header that reads and whose number is within reach. */
  lemma NonCanonicalPacketIsAccepted(c: Config, time: real, data: bytes, g: PacketHeader)
    requires c.Valid() && Fits(c.receivedPacketsBufferSize) && |data| <= c.LongestDatagram()
    requires DecodeHeader(data) == Some(g) && g.size <= |data| && |data| - g.size <= c.maxPacketSize
    requires InsertReach(c.receivedPacketsBufferSize, 0, Unwrap(0, g.sequence))
    ensures |data| > 0 && StateInv(c, Init(c, time))
    ensures Receive(c, Init(c, time), data, AcceptAll()).calls == [Call(g.sequence, data[g.size..], true)]
  {
    hide EncodeHeader, DecodeHeader, ReceiveWhole, InsertReach, Unwrap, ReassemblyInv, Empty;
    InitInv(c, time);
    EmptyRefines(c.receivedPacketsBufferSize, NO_RECEIVED);
    ReadsAsRegular(data);
    var st := Init(c, time);
    StaleIsOutOfReach(st.received, 0, g.sequence);
    EmptyHasNone(c.receivedPacketsBufferSize, NO_RECEIVED, g.sequence);
    CallsOfWhole(c, st, data, AcceptAll());
    RegularIsWhole(c, st, data, AcceptAll());
  }

  lemma EmptyHasNone<T>(n: nat, blank: T, s: u16)
    requires n > 0
    ensures Empty(n, blank).WellFormed() && Empty(n, blank).Size() == n && !Empty(n, blank).Exists(s)
  {
  }

  /** A run on which the standard's claim fails, for every configuration with fragments and sizes that fit: something
      was received, and yet the header of the next packet has bit 0 clear. */
  lemma SomethingReceivedYetBitZeroClear(c: Config, time: real)
    requires c.Valid() && CanSend(c) && c.maxFragments >= 2
    requires Fits(c.receivedPacketsBufferSize) && Fits(c.fragmentReassemblyBufferSize)
    ensures |WholePacketZero()| > 0 && |LastFragmentOfOne()| > 0
    ensures var events := [ReceivePacket(WholePacketZero(), AcceptAll()),
                           ReceivePacket(LastFragmentOfOne(), AcceptAll())];
            && Running(events)
            && var h := Past(c, time, events);
               h.accepted != [] && h.state.received.Ack() == 1 && !Bit(h.state.received.AckBits(), 0)
  {
    hide Bit, Buffer.AckBits, Receive, ReassemblyInv, Init, Past, Observe, Fits, InStep, WholePacketZero,
         LastFragmentOfOne;
    FreshTakesPacketZero(c, time, 65535, 0, [7]);
    PacketZeroIs();
    LastFragmentReads(c);
    var e1, e2 := ReceivePacket(WholePacketZero(), AcceptAll()), ReceivePacket(LastFragmentOfOne(), AcceptAll());
    PastGrows(c, time, [], e1);
    PastGrows(c, time, [e1], e2);
    assert [] + [e1] == [e1] && [e1] + [e2] == [e1, e2];
    StartsWithNothing(c, time);
    HistoryHolds(c, time, [e1]);
    var h1 := Past(c, time, [e1]);
    ObserveReceives(c, Past(c, time, []), e1);
    ObserveReceives(c, h1, e2);
    FirstFragmentClearsBitZero(c, h1.state, h1.mark, LastFragmentOfOne(), FragmentHeader(1, 2, 1, 0, 0), AcceptAll());
  }

  lemma LastFragmentReads(c: Config)
    requires c.Valid() && c.maxFragments >= 2
    ensures var data := LastFragmentOfOne();
            && 0 < |data| <= c.LongestDatagram() && data[0] % 2 == 1
            && DecodeFragment(data, c.maxFragments, c.fragmentSize) == Some(FragmentHeader(1, 2, 1, 0, 0))
  {
    hide DecodeFragment;
    FragmentRoundTrip(FragmentHeader(1, 2, 1, 0, 0), [7], c.maxFragments, c.fragmentSize);
  }

  lemma PastGrows(c: Config, time: real, events: seq<Event>, e: Event)
    requires c.Valid() && CanSend(c) && Running(events) && Legal(e) && !e.Reset?
    ensures Running(events + [e]) && Past(c, time, events + [e]) == Observe(c, Past(c, time, events), e)
  {
    hide Observe;
    var all := events + [e];
    assert all[..|all| - 1] == events;
  }

  lemma StartsWithNothing(c: Config, time: real)
    requires c.Valid() && CanSend(c)
    ensures Past(c, time, []) == History(Init(c, time), 0, [])
  {
  }

  lemma ObserveReceives(c: Config, h: History, e: Event)
    requires c.Valid() && CanSend(c) && StateInv(c, h.state) && Legal(e) && e.ReceivePacket?
    ensures var r := Receive(c, h.state, e.data, e.process);
            var h' := Observe(c, h, e);
            h'.state == r.state && |h'.accepted| == |h.accepted| + (if AcceptedOf(r).Some? then 1 else 0)
  {
    hide Receive;
  }
}
