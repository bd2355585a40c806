/** The endpoint as a state machine (src/endpoint.rs): its state, and what sending and receiving make of it. */
module Protocol {
  import opened Wrappers
  import opened Sequence
  import opened Codec
  import opened CodecLaws
  import opened Buffers
  import opened Reassembly

  const MAX_RECEIVED_PACKET_OVERHEAD := MAX_PACKET_HEADER_BYTES + FRAGMENT_HEADER_BYTES

  datatype Config = Config(
    maxPacketSize: nat,
    fragmentAbove: nat,
    maxFragments: nat,
    fragmentSize: nat,
    ackBufferSize: nat,
    sentPacketsBufferSize: nat,
    receivedPacketsBufferSize: nat,
    fragmentReassemblyBufferSize: nat,
    packetHeaderSize: nat)
  {
    /** The checks an endpoint makes when it is created. */
    predicate Valid() {
      && maxPacketSize > 0 && fragmentAbove > 0 && 0 < maxFragments <= 256 && fragmentSize > 0
      && fragmentAbove <= maxPacketSize
      && maxFragments > (maxPacketSize - 1) / fragmentSize
      && maxFragments * fragmentSize + MAX_PACKET_HEADER_BYTES < 0x1_0000_0000
      && ackBufferSize > 0 && sentPacketsBufferSize > 0 && receivedPacketsBufferSize > 0
      && fragmentReassemblyBufferSize > 0
      && packetHeaderSize + maxPacketSize < 0x1_0000_0000
      && packetHeaderSize + maxPacketSize + MAX_RECEIVED_PACKET_OVERHEAD < 0x1_0000_0000
    }

    /** The longest datagram the receive gate lets through. */
    function LongestDatagram(): nat {
      maxPacketSize + MAX_RECEIVED_PACKET_OVERHEAD
    }
  }

  /** The checks at creation make every packet that may be sent fit the fragments that may be sent. */
  lemma LegalPacketsFit(c: Config, size: nat)
    requires c.Valid() && 0 < size <= c.maxPacketSize
    ensures 1 <= NumFragments(size, c.fragmentSize) <= c.maxFragments <= 256
  {
    FragmentBounds(size, c.fragmentSize);
    var n := NumFragments(size, c.fragmentSize);
    var q := (c.maxPacketSize - 1) / c.fragmentSize;
    assert c.maxPacketSize - 1 == q * c.fragmentSize + (c.maxPacketSize - 1) % c.fragmentSize;
    NextMultiple(q, c.fragmentSize);
    if n > c.maxFragments {
      Monotone(q + 1, n - 1, c.fragmentSize);
    }
  }

  datatype Counters = Counters(
    packetsSent: nat,
    packetsReceived: nat,
    packetsAcked: nat,
    packetsStale: nat,
    packetsInvalid: nat,
    packetsTooLargeToSend: nat,
    packetsTooLargeToReceive: nat,
    fragmentsSent: nat,
    fragmentsReceived: nat,
    fragmentsInvalid: nat,
    packetsDuplicate: nat)

  const NO_COUNTS := Counters(0, 0, 0, 0, 0, 0, 0, 0, 0, 0, 0)

  datatype SentPacketData = SentPacketData(time: real, acked: bool, packetBytes: u32)

  datatype ReceivedPacketData = ReceivedPacketData(time: real, packetBytes: u32)

  const NO_SENT := SentPacketData(0.0, false, 0)
  const NO_RECEIVED := ReceivedPacketData(0.0, 0)

  datatype State = State(
    time: real,
    sequence: u16,
    acks: seq<u16>,
    sent: Buffer<SentPacketData>,
    received: Buffer<ReceivedPacketData>,
    reassembly: Buffer<FragmentReassemblyData>,
    counters: Counters)

  function Init(c: Config, time: real): State
    requires c.Valid()
  {
    State(time, 0, [], Empty(c.sentPacketsBufferSize, NO_SENT), Empty(c.receivedPacketsBufferSize, NO_RECEIVED),
          Empty(c.fragmentReassemblyBufferSize, NoReassembly()), NO_COUNTS)
  }

  /** The buffers have the configured sizes and the default entries of their types. */
  ghost predicate Sized(c: Config, st: State) {
    && st.sent.WellFormed() && st.sent.Size() == c.sentPacketsBufferSize && st.sent.blank == NO_SENT
    && st.received.WellFormed() && st.received.Size() == c.receivedPacketsBufferSize && st.received.blank == NO_RECEIVED
    && st.reassembly.WellFormed() && st.reassembly.Size() == c.fragmentReassemblyBufferSize
    && st.reassembly.blank == NoReassembly()
  }

  // ---------------------------------------------------------------- sending

  datatype Transmission = Transmission(sequence: u16, data: bytes)

  datatype Sending = Sending(state: State, sent: seq<Transmission>)

  /** The header of fragment `i` of a packet: only fragment 0 carries acks. */
  function FragmentOf(sequence: u16, ack: u16, ackBits: u32, total: nat, i: nat): FragmentHeader {
    FragmentHeader(i, total, sequence, if i == 0 then ack else 0, if i == 0 then ackBits else 0)
  }

  function FragmentDatagram(c: Config, sequence: u16, ack: u16, ackBits: u32, packet: bytes, i: nat): bytes
    requires c.Valid() && 0 < |packet| <= c.maxPacketSize && i < NumFragments(|packet|, c.fragmentSize)
  {
    LegalPacketsFit(c, |packet|);
    ChunkSize(packet, i, c.fragmentSize);
    EncodeFragment(FragmentOf(sequence, ack, ackBits, NumFragments(|packet|, c.fragmentSize), i),
                   Chunk(packet, i, c.fragmentSize))
  }

  /** The datagrams a packet travels in. */
  function Datagrams(c: Config, sequence: u16, ack: u16, ackBits: u32, packet: bytes): seq<bytes>
    requires c.Valid() && 0 < |packet| <= c.maxPacketSize
  {
    if |packet| <= c.fragmentAbove then [EncodeHeader(sequence, ack, ackBits) + packet]
    else
      seq(NumFragments(|packet|, c.fragmentSize),
          i requires 0 <= i < NumFragments(|packet|, c.fragmentSize) =>
            FragmentDatagram(c, sequence, ack, ackBits, packet, i))
  }

  function Transmissions(sequence: u16, datagrams: seq<bytes>): seq<Transmission> {
    seq(|datagrams|, i requires 0 <= i < |datagrams| => Transmission(sequence, datagrams[i]))
  }

  /** Whether the source gets past `.expect("sent packet data")`. */
  predicate CanSend(c: Config) {
    c.sentPacketsBufferSize % 65536 < HALF
  }

  /** The state after a packet of `size` bytes has been handed out in so many fragments. */
  function AfterSend(c: Config, st: State, size: nat, fragments: nat): State
    requires c.Valid() && Sized(c, st) && size <= c.maxPacketSize && !st.sent.Stale(st.sequence)
  {
    st.(sequence := Wrap(st.sequence + 1),
        sent := st.sent.Insert(st.sequence, SentPacketData(st.time, false, c.packetHeaderSize + size)).value,
        counters := st.counters.(packetsSent := st.counters.packetsSent + 1,
                                 fragmentsSent := st.counters.fragmentsSent + fragments))
  }

  /** How many fragments a packet counts for; none if it travels whole. */
  function FragmentCount(c: Config, size: nat): nat
    requires c.Valid()
  {
    if size <= c.fragmentAbove then 0 else NumFragments(size, c.fragmentSize)
  }

  function TooLargeToSend(st: State): State {
    st.(counters := st.counters.(packetsTooLargeToSend := st.counters.packetsTooLargeToSend + 1))
  }

  function Send(c: Config, st: State, packet: bytes): Sending
    requires c.Valid() && Sized(c, st) && |packet| > 0
    requires !st.sent.Stale(st.sequence)
  {
    if |packet| > c.maxPacketSize then Sending(TooLargeToSend(st), [])
    else
      Sending(AfterSend(c, st, |packet|, FragmentCount(c, |packet|)),
              Transmissions(st.sequence, Datagrams(c, st.sequence, st.received.Ack(), st.received.AckBits(), packet)))
  }

  // ---------------------------------------------------------------- receiving a regular packet

  /** One call of the process closure and its answer. */
  datatype Call = Call(sequence: u16, payload: bytes, accepted: bool)

  datatype Receiving = Receiving(state: State, calls: seq<Call>)

  /** The process closure: any answer to any packet. */
  type Process = (u16, bytes) -> bool

  /** A sent packet is reported acked once, and only while the ack buffer has room. */
  function AckOne(c: Config, st: State, s: u16): State
    requires st.sent.WellFormed()
  {
    match st.sent.Find(s)
    case None => st
    case Some(d) =>
      if d.acked || |st.acks| >= c.ackBufferSize then st
      else st.(acks := st.acks + [s],
               sent := st.sent.Put(s, d.(acked := true)),
               counters := st.counters.(packetsAcked := st.counters.packetsAcked + 1))
  }

  /** The loop over the ack bits, from bit `i` on. */
  function ProcessAcks(c: Config, st: State, ack: u16, ackBits: u32, i: nat): (st': State)
    requires st.sent.WellFormed() && i <= 32
    ensures st'.sent.WellFormed() && st'.sent.Size() == st.sent.Size() && st'.sent.blank == st.sent.blank
    decreases 32 - i, ackBits
  {
    if i == 32 then st
    else ProcessAcks(c, if ackBits % 2 == 1 then AckOne(c, st, Wrap(ack - i)) else st, ack, ackBits / 2, i + 1)
  }

  /** What an accepted packet changes. */
  function Accept(c: Config, st: State, h: PacketHeader, size: nat): State
    requires Sized(c, st) && !st.received.Stale(h.sequence) && c.packetHeaderSize + size < 0x1_0000_0000
  {
    var entry := ReceivedPacketData(st.time, c.packetHeaderSize + size);
    ProcessAcks(c, st.(received := st.received.Insert(h.sequence, entry).value,
                       reassembly := st.reassembly.Advance(h.sequence)),
                h.ack, h.ackBits, 0)
  }

  /** A regular packet of `size` bytes whose header reads `h`. */
  function ReceivePayload(c: Config, st: State, h: PacketHeader, payload: bytes, size: nat, process: Process): Receiving
    requires c.Valid() && Sized(c, st) && size <= c.LongestDatagram()
  {
    var counters := st.counters;
    if |payload| > c.maxPacketSize then
      Receiving(st.(counters := counters.(packetsTooLargeToReceive := counters.packetsTooLargeToReceive + 1)), [])
    else if st.received.Stale(h.sequence) then
      Receiving(st.(counters := counters.(packetsStale := counters.packetsStale + 1)), [])
    else if st.received.Exists(h.sequence) then
      Receiving(st.(counters := counters.(packetsDuplicate := counters.packetsDuplicate + 1)), [])
    else if process(h.sequence, payload) then
      Receiving(Accept(c, st, h, size), [Call(h.sequence, payload, true)])
    else
      Receiving(st, [Call(h.sequence, payload, false)])
  }

  function CountPacket(st: State): State {
    st.(counters := st.counters.(packetsReceived := st.counters.packetsReceived + 1))
  }

  function InvalidPacket(st: State): State {
    st.(counters := st.counters.(packetsInvalid := st.counters.packetsInvalid + 1))
  }

  function ReceiveRegular(c: Config, st: State, data: bytes, process: Process): Receiving
    requires c.Valid() && Sized(c, st) && |data| <= c.LongestDatagram()
  {
    match DecodeHeader(data)
    case None => Receiving(InvalidPacket(CountPacket(st)), [])
    case Some(h) => ReceivePayload(c, CountPacket(st), h, data[h.size..], |data|, process)
  }

  function TooLarge(st: State): State {
    st.(counters := st.counters.(packetsTooLargeToReceive := st.counters.packetsTooLargeToReceive + 1))
  }

  /** The length gate, then a regular packet. */
  function ReceiveWhole(c: Config, st: State, data: bytes, process: Process): Receiving
    requires c.Valid() && Sized(c, st)
  {
    if |data| > c.LongestDatagram() then Receiving(TooLarge(st), []) else ReceiveRegular(c, st, data, process)
  }

  // ---------------------------------------------------------------- receiving a fragment

  /** Between two calls, every slot under reassembly satisfies the slot invariant and every other slot is blank. */
  ghost predicate ReassemblyInv(c: Config, b: Buffer<FragmentReassemblyData>) {
    && b.WellFormed()
    && forall i :: 0 <= i < b.Size() ==> SlotOk(c, b, i)
  }

  ghost predicate SlotOk(c: Config, b: Buffer<FragmentReassemblyData>, i: nat)
    requires b.WellFormed() && i < b.Size()
  {
    match b.slots[i]
    case None => b.entries[i] == b.blank
    case Some(s) => b.Index(s) == i && SlotInv(b.entries[i], s, c.maxFragments, c.fragmentSize)
  }

  function InvalidFragment(st: State): State {
    st.(counters := st.counters.(fragmentsInvalid := st.counters.fragmentsInvalid + 1))
  }

  /** Finds or sets up the slot of a packet under reassembly; the first fragment moves both windows. */
  function OpenSlot(c: Config, st: State, f: FragmentHeader): Option<State>
    requires Sized(c, st)
  {
    if st.reassembly.Exists(f.sequence) then Some(st)
    else
      match st.reassembly.InsertAdvanceFirst(f.sequence, FreshReassembly(f.total, c.fragmentSize))
      case None => None
      case Some(r) => Some(st.(reassembly := r, received := st.received.Advance(f.sequence)))
  }

  /** The datagram that a complete slot stands for. */
  function Reassembled(d: FragmentReassemblyData): bytes
    requires d.packetHeaderBytes <= MAX_PACKET_HEADER_BYTES
    requires MAX_PACKET_HEADER_BYTES + d.packetBytes <= |d.packetData|
  {
    d.packetData[MAX_PACKET_HEADER_BYTES - d.packetHeaderBytes..MAX_PACKET_HEADER_BYTES + d.packetBytes]
  }

  function SetEntry(st: State, s: u16, d: FragmentReassemblyData): State
    requires st.reassembly.WellFormed()
  {
    st.(reassembly := st.reassembly.(entries := st.reassembly.entries[st.reassembly.Index(s) := d]))
  }

  /** A complete slot: its data is taken out, received as a regular packet, and the slot is freed. */
  function Complete(c: Config, st: State, s: u16, d: FragmentReassemblyData, process: Process): Receiving
    requires c.Valid() && Sized(c, st)
    requires d.packetHeaderBytes <= MAX_PACKET_HEADER_BYTES
    requires MAX_PACKET_HEADER_BYTES + d.packetBytes <= |d.packetData|
  {
    var r := ReceiveWhole(c, SetEntry(st, s, d.(packetData := [])), Reassembled(d), process);
    WholeKeepsSizes(c, SetEntry(st, s, d.(packetData := [])), Reassembled(d), process);
    r.(state := r.state.(reassembly := r.state.reassembly.Remove(s)))
  }

  function CountFragment(st: State): State {
    st.(counters := st.counters.(fragmentsReceived := st.counters.fragmentsReceived + 1))
  }

  /** A slot with a fragment just stored: received if that was the last one, kept otherwise. */
  function FinishSlot(c: Config, st: State, s: u16, d: FragmentReassemblyData, process: Process): Receiving
    requires c.Valid() && Sized(c, st) && SlotShape(d, s, c.fragmentSize)
  {
    if d.numFragmentsReceived == d.numFragmentsTotal then
      CompleteSlotReads(d, s, c.fragmentSize);
      var r := Complete(c, st, s, d, process);
      r.(state := CountFragment(r.state))
    else Receiving(CountFragment(SetEntry(st, s, d)), [])
  }

  /** A fragment whose slot is open. */
  function StoreInSlot(c: Config, st: State, f: FragmentHeader, data: bytes, process: Process): Receiving
    requires c.Valid() && Sized(c, st) && ReassemblyInv(c, st.reassembly) && st.reassembly.Exists(f.sequence)
    requires DecodeFragment(data, c.maxFragments, c.fragmentSize) == Some(f)
  {
    var d := st.reassembly.entries[st.reassembly.Index(f.sequence)];
    SlotAt(c, st, f.sequence);
    AcceptedFragmentIsLegal(data, c.maxFragments, c.fragmentSize);
    if f.total != d.numFragmentsTotal then Receiving(InvalidFragment(st), [])
    else if d.fragmentReceived[f.id] then Receiving(st, [])
    else
      ShapeAfterStore(d, f, FragmentPayload(data, f), c.maxFragments, c.fragmentSize);
      FinishSlot(c, st, f.sequence, Received(d, f, c.fragmentSize, data[FRAGMENT_HEADER_BYTES..]), process)
  }

  function ReceiveFragment(c: Config, st: State, data: bytes, process: Process): Receiving
    requires c.Valid() && Sized(c, st) && ReassemblyInv(c, st.reassembly)
  {
    match DecodeFragment(data, c.maxFragments, c.fragmentSize)
    case None => Receiving(InvalidFragment(st), [])
    case Some(f) =>
      if st.received.Exists(f.sequence) then Receiving(st, [])
      else
        match OpenSlot(c, st, f)
        case None => Receiving(InvalidFragment(st), [])
        case Some(open) =>
          AcceptedFragmentIsLegal(data, c.maxFragments, c.fragmentSize);
          OpenSlotInv(c, st, f);
          StoreInSlot(c, open, f, data, process)
  }

  function Receive(c: Config, st: State, data: bytes, process: Process): Receiving
    requires c.Valid() && Sized(c, st) && ReassemblyInv(c, st.reassembly) && |data| > 0
  {
    if |data| > c.LongestDatagram() then Receiving(TooLarge(st), [])
    else if data[0] % 2 == 0 then ReceiveRegular(c, st, data, process)
    else ReceiveFragment(c, st, data, process)
  }

  // ---------------------------------------------------------------- why this is well defined

  lemma {:induction false} AcksTouchOnlySent(c: Config, st: State, ack: u16, ackBits: u32, i: nat)
    requires st.sent.WellFormed() && i <= 32
    ensures var st' := ProcessAcks(c, st, ack, ackBits, i);
            && st'.time == st.time && st'.sequence == st.sequence && st'.received == st.received
            && st'.reassembly == st.reassembly && st'.sent.sequence == st.sent.sequence
            && st'.counters == st.counters.(packetsAcked := st'.counters.packetsAcked)
    decreases 32 - i
  {
    if i < 32 {
      AcksTouchOnlySent(c, if ackBits % 2 == 1 then AckOne(c, st, Wrap(ack - i)) else st, ack, ackBits / 2, i + 1);
    }
  }

  lemma AcceptKeepsSizes(c: Config, st: State, h: PacketHeader, size: nat)
    requires Sized(c, st) && !st.received.Stale(h.sequence) && c.packetHeaderSize + size < 0x1_0000_0000
    ensures Sized(c, Accept(c, st, h, size))
  {
    var entry := ReceivedPacketData(st.time, c.packetHeaderSize + size);
    AcksTouchOnlySent(c, st.(received := st.received.Insert(h.sequence, entry).value,
                             reassembly := st.reassembly.Advance(h.sequence)), h.ack, h.ackBits, 0);
  }

  lemma PayloadKeepsSizes(c: Config, st: State, h: PacketHeader, payload: bytes, size: nat, process: Process)
    requires c.Valid() && Sized(c, st) && size <= c.LongestDatagram()
    ensures Sized(c, ReceivePayload(c, st, h, payload, size, process).state)
  {
    if !st.received.Stale(h.sequence) {
      AcceptKeepsSizes(c, st, h, size);
    }
  }

  lemma WholeKeepsSizes(c: Config, st: State, data: bytes, process: Process)
    requires c.Valid() && Sized(c, st)
    ensures Sized(c, ReceiveWhole(c, st, data, process).state)
  {
    if |data| <= c.LongestDatagram() && DecodeHeader(data).Some? {
      var h := DecodeHeader(data).value;
      PayloadKeepsSizes(c, CountPacket(st), h, data[h.size..], |data|, process);
    }
  }

  lemma SlotAt(c: Config, st: State, s: u16)
    requires ReassemblyInv(c, st.reassembly) && st.reassembly.Exists(s)
    ensures SlotInv(st.reassembly.entries[st.reassembly.Index(s)], s, c.maxFragments, c.fragmentSize)
  {
    assert SlotOk(c, st.reassembly, st.reassembly.Index(s));
  }

  /** A complete slot has every fragment, hence a header and a length, and both stay inside its data. */
  lemma CompleteSlotReads(d: FragmentReassemblyData, s: u16, fragmentSize: nat)
    requires SlotShape(d, s, fragmentSize) && d.numFragmentsReceived == d.numFragmentsTotal
    ensures d.packetHeaderBytes <= MAX_PACKET_HEADER_BYTES
    ensures MAX_PACKET_HEADER_BYTES + d.packetBytes <= |d.packetData|
  {
    FullCount(d.fragmentReceived, d.numFragmentsTotal);
  }

  lemma AdvanceKeepsReassembly(c: Config, b: Buffer<FragmentReassemblyData>, s: u16)
    requires ReassemblyInv(c, b)
    ensures ReassemblyInv(c, b.Advance(s))
  {
    var b' := b.Advance(s);
    forall i | 0 <= i < b.Size()
      ensures SlotOk(c, b', i)
    {
      assert SlotOk(c, b, i);
    }
  }

  lemma OpenSlotInv(c: Config, st: State, f: FragmentHeader)
    requires c.Valid() && Sized(c, st) && ReassemblyInv(c, st.reassembly)
    requires 0 < f.total <= c.maxFragments
    ensures var r := OpenSlot(c, st, f);
            r.Some? ==>
              && Sized(c, r.value) && ReassemblyInv(c, r.value.reassembly)
              && r.value.reassembly.Exists(f.sequence)
  {
    hide GreaterThan, LessThan, SlotInv, InRange;
    if !st.reassembly.Exists(f.sequence) {
      var blankSlot := FreshReassembly(f.total, c.fragmentSize);
      FreshSlot(f.sequence, f.total, c.maxFragments, c.fragmentSize);
      AdvanceKeepsReassembly(c, st.reassembly, f.sequence);
      var b := st.reassembly.Advance(f.sequence);
      var b' := b.Put(f.sequence, blankSlot);
      forall i | 0 <= i < b.Size()
        ensures SlotOk(c, b', i)
      {
        assert SlotOk(c, b, i);
      }
    }
  }

  // ---------------------------------------------------------------- packet loss

  /** The `i`-th sample of the loss estimate, counted from the bottom of the sent window. */
  function LossSample(b: Buffer<SentPacketData>, i: nat): Option<SentPacketData>
    requires b.WellFormed()
  {
    b.Find(Wrap(Wrap(b.sequence - b.Size()) + i))
  }

  function LossSent(b: Buffer<SentPacketData>, n: nat): nat
    requires b.WellFormed()
  {
    if n == 0 then 0 else LossSent(b, n - 1) + (if LossSample(b, n - 1).Some? then 1 else 0)
  }

  function LossDropped(b: Buffer<SentPacketData>, n: nat): nat
    requires b.WellFormed()
  {
    if n == 0 then 0
    else LossDropped(b, n - 1) + (if LossSample(b, n - 1).Some? && !LossSample(b, n - 1).value.acked then 1 else 0)
  }
}
