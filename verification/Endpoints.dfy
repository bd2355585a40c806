/** The endpoint itself (src/endpoint.rs): an object whose methods update its fields and buffers in place, each
    proved to do what the state machine does. */
module Endpoints {
  import opened Wrappers
  import opened Sequence
  import opened Codec
  import opened CodecLaws
  import opened Buffers
  import opened Reassembly
  import opened Protocol
  import opened Invariants

  /** `copy_from_slice` at a cursor. */
  method CopyBytes(buffer: array<byte>, p: nat, data: bytes) returns (next: nat)
    requires p + |data| <= buffer.Length
    modifies buffer
    ensures next == p + |data|
    ensures buffer[..next] == old(buffer[..p]) + data
  {
    for i := 0 to |data|
      invariant buffer[..p] == old(buffer[..p])
      invariant buffer[p..p + i] == data[..i]
    {
      buffer[p + i] := data[i];
    }
    next := p + |data|;
    assert buffer[..next] == buffer[..p] + buffer[p..next];
  }

  /** Writes fragment `fragmentId` of a packet, whose data starts at `q`, into the transmit buffer. */
  method WriteFragment(buffer: array<byte>, c: Config, packetData: bytes, s: u16, ghost ack: u16, ghost ackBits: u32,
                       packetHeader: bytes, fragmentId: nat, q: nat)
    returns (data: bytes, next: nat)
    requires packetHeader == EncodeHeader(s, ack, ackBits)
    requires c.Valid() && 0 < |packetData| <= c.maxPacketSize
    requires fragmentId < NumFragments(|packetData|, c.fragmentSize) && q == fragmentId * c.fragmentSize
    requires buffer.Length >= MAX_RECEIVED_PACKET_OVERHEAD + c.fragmentSize
    modifies buffer
    ensures data == FragmentDatagram(c, s, ack, ackBits, packetData, fragmentId)
    ensures next == Min(q + c.fragmentSize, |packetData|)
  {
    hide EncodeHeader, Le16, NumFragments;
    LegalPacketsFit(c, |packetData|);
    ChunkSize(packetData, fragmentId, c.fragmentSize);
    var numFragments := NumFragments(|packetData|, c.fragmentSize);
    ghost var f := FragmentOf(s, ack, ackBits, numFragments, fragmentId);
    var p := WriteFragmentHeader(buffer, f, fragmentId, numFragments, s, packetHeader);
    var bytesToCopy := Min(c.fragmentSize, |packetData| - q);
    p := CopyBytes(buffer, p, packetData[q..q + bytesToCopy]);
    next := q + bytesToCopy;
    data := buffer[..p];
  }

  method WriteFragmentHeader(buffer: array<byte>, ghost f: FragmentHeader, fragmentId: nat, numFragments: nat,
                             s: u16, packetHeader: bytes)
    returns (p: nat)
    requires fragmentId < numFragments <= 256 && f.id == fragmentId && f.total == numFragments && f.sequence == s
    requires fragmentId == 0 ==> packetHeader == EmbeddedHeader(f)
    requires buffer.Length >= MAX_RECEIVED_PACKET_OVERHEAD
    modifies buffer
    ensures p == FRAGMENT_HEADER_BYTES + |EmbeddedHeader(f)|
    ensures buffer[..p] == [1] + Le16(s) + [fragmentId, numFragments - 1] + EmbeddedHeader(f)
  {
    hide EncodeHeader;
    p := WriteByte(buffer, 0, 1);
    p := CopyBytes(buffer, p, Le16(s));
    p := WriteByte(buffer, p, fragmentId);
    p := WriteByte(buffer, p, numFragments - 1);
    if fragmentId == 0 {
      p := CopyBytes(buffer, p, packetHeader);
    }
  }

  class Endpoint {
    const config: Config
    var time: real
    var acks: seq<u16>
    var sequence: u16
    var counters: Counters
    const transmitBuffer: array<byte>
    const sentPackets: SequenceBuffer<SentPacketData>
    const receivedPackets: SequenceBuffer<ReceivedPacketData>
    const fragmentReassembly: SequenceBuffer<FragmentReassemblyData>

    function Repr(): set<object> {
      {this, transmitBuffer} + sentPackets.Repr() + receivedPackets.Repr() + fragmentReassembly.Repr()
    }

    /** The objects are separate; the transmit buffer is scratch space and holds no state. */
    ghost predicate Separate() {
      && sentPackets.entrySequence != receivedPackets.entrySequence
      && sentPackets.entrySequence != fragmentReassembly.entrySequence
      && receivedPackets.entrySequence != fragmentReassembly.entrySequence
      && transmitBuffer.Length >= config.maxPacketSize + MAX_PACKET_HEADER_BYTES
      && transmitBuffer.Length >= MAX_RECEIVED_PACKET_OVERHEAD + config.fragmentSize
    }

    ghost predicate Intact()
      reads this, sentPackets, sentPackets.entrySequence, sentPackets.entries,
          receivedPackets, receivedPackets.entrySequence, receivedPackets.entries,
          fragmentReassembly, fragmentReassembly.entrySequence, fragmentReassembly.entries
    {
      && Separate() && config.Valid()
      && sentPackets.Valid() && receivedPackets.Valid() && fragmentReassembly.Valid()
      && Sized(config, State())
    }

    ghost predicate Valid()
      reads this, sentPackets, sentPackets.entrySequence, sentPackets.entries,
          receivedPackets, receivedPackets.entrySequence, receivedPackets.entries,
          fragmentReassembly, fragmentReassembly.entrySequence, fragmentReassembly.entries
    {
      Intact() && StateInv(config, State())
    }

    ghost function State(): State
      reads this, sentPackets, sentPackets.entrySequence, sentPackets.entries,
          receivedPackets, receivedPackets.entrySequence, receivedPackets.entries,
          fragmentReassembly, fragmentReassembly.entrySequence, fragmentReassembly.entries
    {
      Protocol.State(time, sequence, acks, sentPackets.State(), receivedPackets.State(), fragmentReassembly.State(),
                     counters)
    }

    constructor (config: Config, time: real)
      requires config.Valid()
      ensures Valid() && fresh(Repr())
      ensures this.config == config && State() == Init(config, time)
    {
      this.config := config;
      this.time := time;
      acks := [];
      sequence := 0;
      var packetBuffer := config.maxPacketSize + MAX_PACKET_HEADER_BYTES;
      var fragmentBuffer := FRAGMENT_HEADER_BYTES + MAX_PACKET_HEADER_BYTES + config.fragmentSize;
      var size: nat := if packetBuffer > fragmentBuffer then packetBuffer else fragmentBuffer;
      transmitBuffer := new byte[size](_ => 0);
      sentPackets := new SequenceBuffer(config.sentPacketsBufferSize, NO_SENT);
      receivedPackets := new SequenceBuffer(config.receivedPacketsBufferSize, NO_RECEIVED);
      fragmentReassembly := new SequenceBuffer(config.fragmentReassemblyBufferSize, NoReassembly());
      counters := NO_COUNTS;
      new;
      assert Separate();
      assert State() == Init(config, time);
      InitInv(config, time);
    }

    // -------------------------------------------------------------- sending

    /** Takes the next sequence number and remembers the packet under it. */
    method TrackPacket(packetBytes: nat) returns (s: u16, ack: u16, ackBits: u32)
      requires Intact() && packetBytes <= config.maxPacketSize && !sentPackets.State().Stale(sequence)
      modifies this, sentPackets, sentPackets.entrySequence, sentPackets.entries,
          receivedPackets, receivedPackets.entrySequence, receivedPackets.entries,
          fragmentReassembly, fragmentReassembly.entrySequence, fragmentReassembly.entries
      ensures Intact()
      ensures s == old(sequence) && ack == old(State()).received.Ack() && ackBits == old(State()).received.AckBits()
      ensures var entry := SentPacketData(time, false, config.packetHeaderSize + packetBytes);
              State() == old(State()).(sequence := Wrap(s + 1), sent := old(State()).sent.Insert(s, entry).value)
    {
      hide Buffer.AckBits, Buffer.AckFlags, GreaterThan, InRange;
      s := sequence;
      sequence := Wrap(sequence + 1);
      ack, ackBits := receivedPackets.GenerateAckBits();
      var index := sentPackets.Insert(s);
      sentPackets.Store(index.value, SentPacketData(time, false, config.packetHeaderSize + packetBytes));
    }

    /** Hands over the fragments of a packet one after the other. */
    method TransmitFragments(packetData: bytes, s: u16, ack: u16, ackBits: u32) returns (sent: seq<Transmission>)
      requires Intact() && config.fragmentAbove < |packetData| <= config.maxPacketSize
      modifies this`counters, transmitBuffer
      ensures Intact()
      ensures sent == Transmissions(s, Datagrams(config, s, ack, ackBits, packetData))
      ensures |sent| == FragmentCount(config, |packetData|) == NumFragments(|packetData|, config.fragmentSize)
      ensures forall i :: 0 <= i < |sent| ==>
                sent[i] == Transmission(s, FragmentDatagram(config, s, ack, ackBits, packetData, i))
      ensures State() == old(State()).(counters := old(counters).(fragmentsSent :=
                                                                    old(counters).fragmentsSent + |sent|))
    {
      hide EncodeHeader, FragmentDatagram, NumFragments;
      var packetBytes := |packetData|;
      var packetHeader := new byte[MAX_PACKET_HEADER_BYTES](_ => 0);
      var packetHeaderBytes := WritePacketHeader(packetHeader, s, ack, ackBits);
      var header := packetHeader[..packetHeaderBytes];
      var numFragments := NumFragments(packetBytes, config.fragmentSize);
      LegalPacketsFit(config, packetBytes);
      var q := 0;
      sent := [];
      for fragmentId := 0 to numFragments
        invariant |sent| == fragmentId
        invariant counters == old(counters).(fragmentsSent := old(counters).fragmentsSent + fragmentId)
        invariant fragmentId < numFragments ==> q == fragmentId * config.fragmentSize
        invariant forall i :: 0 <= i < fragmentId ==>
          sent[i] == Transmission(s, FragmentDatagram(config, s, ack, ackBits, packetData, i))
      {
        var data;
        data, q := WriteFragment(transmitBuffer, config, packetData, s, ack, ackBits, header, fragmentId, q);
        ChunkBounds(packetBytes, fragmentId, config.fragmentSize);
        NextMultiple(fragmentId, config.fragmentSize);
        sent := sent + [Transmission(s, data)];
        counters := counters.(fragmentsSent := counters.fragmentsSent + 1);
      }
    }

    method TransmitRegular(packetData: bytes, s: u16, ack: u16, ackBits: u32) returns (sent: seq<Transmission>)
      requires Intact() && 0 < |packetData| <= config.fragmentAbove
      modifies transmitBuffer
      ensures Intact() && State() == old(State())
      ensures sent == [Transmission(s, EncodeHeader(s, ack, ackBits) + packetData)]
      ensures sent == Transmissions(s, Datagrams(config, s, ack, ackBits, packetData))
    {
      var packetHeaderBytes := WritePacketHeader(transmitBuffer, s, ack, ackBits);
      var p := CopyBytes(transmitBuffer, packetHeaderBytes, packetData);
      sent := [Transmission(s, transmitBuffer[..p])];
    }

    /** Sends a packet that is not too large. */
    method SendChecked(packetData: bytes) returns (sent: seq<Transmission>)
      requires Intact() && !State().sent.Stale(State().sequence) && 0 < |packetData| <= config.maxPacketSize
      modifies transmitBuffer, this, sentPackets, sentPackets.entrySequence, sentPackets.entries,
          receivedPackets, receivedPackets.entrySequence, receivedPackets.entries,
          fragmentReassembly, fragmentReassembly.entrySequence, fragmentReassembly.entries
      ensures Intact()
      ensures State() == Send(config, old(State()), packetData).state
      ensures sent == Send(config, old(State()), packetData).sent
    {
      hide Datagrams, Transmissions, NumFragments, Buffer.AckBits, Buffer.Insert;
      ghost var before := State();
      ghost var datagrams := Datagrams(config, before.sequence, before.received.Ack(), before.received.AckBits(),
                                       packetData);
      var s, ack, ackBits := TrackPacket(|packetData|);
      assert Datagrams(config, s, ack, ackBits, packetData) == datagrams;
      if |packetData| <= config.fragmentAbove {
        sent := TransmitRegular(packetData, s, ack, ackBits);
      } else {
        sent := TransmitFragments(packetData, s, ack, ackBits);
      }
      assert sent == Transmissions(s, datagrams);
      Count(counters.(packetsSent := counters.packetsSent + 1));
    }

    method SendPacket(packetData: bytes) returns (sent: seq<Transmission>)
      requires Valid() && CanSend(config) && |packetData| > 0
      modifies transmitBuffer, this, sentPackets, sentPackets.entrySequence, sentPackets.entries,
          receivedPackets, receivedPackets.entrySequence, receivedPackets.entries,
          fragmentReassembly, fragmentReassembly.entrySequence, fragmentReassembly.entries
      ensures Valid()
      ensures !old(State()).sent.Stale(old(State()).sequence)
      ensures State() == Send(config, old(State()), packetData).state
      ensures sent == Send(config, old(State()), packetData).sent
    {
      SendKeepsInv(config, State(), packetData);
      if |packetData| > config.maxPacketSize {
        counters := counters.(packetsTooLargeToSend := counters.packetsTooLargeToSend + 1);
        return [];
      }
      sent := SendChecked(packetData);
    }

    // -------------------------------------------------------------- acks

    method ClearAcks()
      requires Valid()
      modifies this
      ensures Valid()
      ensures State() == old(State()).(acks := [])
    {
      acks := [];
    }

    /** Hands out the acks and leaves none behind. */
    method DrainAcks() returns (drained: seq<u16>)
      requires Valid()
      modifies this
      ensures Valid()
      ensures drained == old(State()).acks && State() == old(State()).(acks := [])
    {
      drained := acks;
      acks := [];
    }

    method Reset()
      requires Valid()
      modifies transmitBuffer, this, sentPackets, sentPackets.entrySequence, sentPackets.entries,
          receivedPackets, receivedPackets.entrySequence, receivedPackets.entries,
          fragmentReassembly, fragmentReassembly.entrySequence, fragmentReassembly.entries
      ensures Valid()
      ensures State() == ResetState(config, old(State()))
    {
      acks := [];
      sequence := 0;
      counters := NO_COUNTS;
      sentPackets.Reset();
      receivedPackets.Reset();
      fragmentReassembly.Reset();
      InitInv(config, time);
    }

    // -------------------------------------------------------------- receiving

    /** Takes note of one acked packet. */
    method AckPacket(s: u16)
      requires Intact()
      modifies this, sentPackets, sentPackets.entrySequence, sentPackets.entries,
          receivedPackets, receivedPackets.entrySequence, receivedPackets.entries,
          fragmentReassembly, fragmentReassembly.entrySequence, fragmentReassembly.entries
      ensures Intact()
      ensures State() == AckOne(config, old(State()), s)
    {
      var d := sentPackets.Find(s);
      if d.Some? && !d.value.acked {
        if |acks| < config.ackBufferSize {
          acks := acks + [s];
          counters := counters.(packetsAcked := counters.packetsAcked + 1);
          sentPackets.Store(s % sentPackets.entries.Length, d.value.(acked := true));
          assert sentPackets.State() == old(sentPackets.State()).Put(s, d.value.(acked := true));
        }
      }
    }

    method ProcessAckBits(ack: u16, ackBits: u32)
      requires Intact()
      modifies this, sentPackets, sentPackets.entrySequence, sentPackets.entries,
          receivedPackets, receivedPackets.entrySequence, receivedPackets.entries,
          fragmentReassembly, fragmentReassembly.entrySequence, fragmentReassembly.entries
      ensures Intact()
      ensures State() == ProcessAcks(config, old(State()), ack, ackBits, 0)
    {
      var bits := ackBits;
      for i := 0 to 32
        invariant Intact()
        invariant ProcessAcks(config, State(), ack, bits, i) == ProcessAcks(config, old(State()), ack, ackBits, 0)
      {
        if bits % 2 == 1 {
          AckPacket(Wrap(ack - i));
        }
        bits := bits / 2;
      }
    }

    method InsertReceived(s: u16, d: ReceivedPacketData)
      requires Intact() && !State().received.Stale(s)
      modifies receivedPackets, receivedPackets.entrySequence, receivedPackets.entries
      ensures Intact()
      ensures State() == old(State()).(received := old(State()).received.Insert(s, d).value)
    {
      var index := receivedPackets.Insert(s);
      receivedPackets.Store(index.value, d);
    }

    method AdvanceReceived(s: u16)
      requires Intact()
      modifies receivedPackets, receivedPackets.entrySequence, receivedPackets.entries
      ensures Intact()
      ensures State() == old(State()).(received := old(State()).received.Advance(s))
    {
      receivedPackets.Advance(s);
    }

    method AdvanceReassembly(s: u16)
      requires Intact()
      modifies fragmentReassembly, fragmentReassembly.entrySequence, fragmentReassembly.entries
      ensures Intact()
      ensures State() == old(State()).(reassembly := old(State()).reassembly.Advance(s))
    {
      fragmentReassembly.Advance(s);
    }

    method InsertReassembly(s: u16, d: FragmentReassemblyData) returns (ok: bool)
      requires Intact()
      modifies fragmentReassembly, fragmentReassembly.entrySequence, fragmentReassembly.entries
      ensures Intact()
      ensures ok == old(State()).reassembly.InsertAdvanceFirst(s, d).Some?
      ensures State() == if ok then old(State()).(reassembly := old(State()).reassembly.InsertAdvanceFirst(s, d).value)
                         else old(State())
    {
      var index := fragmentReassembly.InsertAdvanceFirst(s);
      if index.None? {
        return false;
      }
      fragmentReassembly.Store(index.value, d);
      ok := true;
    }

    method StoreReassembly(s: u16, d: FragmentReassemblyData)
      requires Intact()
      modifies fragmentReassembly, fragmentReassembly.entrySequence, fragmentReassembly.entries
      ensures Intact()
      ensures State() == SetEntry(old(State()), s, d)
    {
      fragmentReassembly.Store(s % fragmentReassembly.entries.Length, d);
    }

    method RemoveReassembly(s: u16)
      requires Intact()
      modifies fragmentReassembly, fragmentReassembly.entrySequence, fragmentReassembly.entries
      ensures Intact()
      ensures State() == old(State()).(reassembly := old(State()).reassembly.Remove(s))
    {
      fragmentReassembly.Remove(s);
    }

    method Count(counted: Counters)
      requires Intact()
      modifies this`counters
      ensures Intact()
      ensures State() == old(State()).(counters := counted)
    {
      counters := counted;
    }

    /** An accepted packet enters the received buffer, moves the reassembly window along, and its acks count. */
    method AcceptPacket(h: PacketHeader, packetBytes: nat)
      requires Intact() && !State().received.Stale(h.sequence) && packetBytes <= config.LongestDatagram()
      modifies this, sentPackets, sentPackets.entrySequence, sentPackets.entries,
          receivedPackets, receivedPackets.entrySequence, receivedPackets.entries,
          fragmentReassembly, fragmentReassembly.entrySequence, fragmentReassembly.entries
      ensures Intact()
      ensures State() == Accept(config, old(State()), h, packetBytes)
    {
      ghost var before := State();
      var d := ReceivedPacketData(time, config.packetHeaderSize + packetBytes);
      InsertReceived(h.sequence, d);
      AdvanceReassembly(h.sequence);
      assert State() == before.(received := before.received.Insert(h.sequence, d).value,
                                reassembly := before.reassembly.Advance(h.sequence));
      ProcessAckBits(h.ack, h.ackBits);
    }

    method ReceiveRegularPacket(packetData: bytes, process: Process) returns (calls: seq<Call>)
      requires Intact() && |packetData| <= config.LongestDatagram()
      modifies this, sentPackets, sentPackets.entrySequence, sentPackets.entries,
          receivedPackets, receivedPackets.entrySequence, receivedPackets.entries,
          fragmentReassembly, fragmentReassembly.entrySequence, fragmentReassembly.entries
      ensures Intact()
      ensures Receiving(State(), calls) == ReceiveRegular(config, old(State()), packetData, process)
    {
      calls := [];
      counters := counters.(packetsReceived := counters.packetsReceived + 1);
      var r := ReadPacketHeader(packetData);
      if r.None? {
        counters := counters.(packetsInvalid := counters.packetsInvalid + 1);
        return;
      }
      calls := ReceiveReadPacket(r.value, packetData[r.value.size..], |packetData|, process);
    }

    method ReceiveReadPacket(h: PacketHeader, payload: bytes, packetBytes: nat, process: Process)
      returns (calls: seq<Call>)
      requires Intact() && packetBytes <= config.LongestDatagram()
      modifies this, sentPackets, sentPackets.entrySequence, sentPackets.entries,
          receivedPackets, receivedPackets.entrySequence, receivedPackets.entries,
          fragmentReassembly, fragmentReassembly.entrySequence, fragmentReassembly.entries
      ensures Intact()
      ensures Receiving(State(), calls) == ReceivePayload(config, old(State()), h, payload, packetBytes, process)
    {
      calls := [];
      if |payload| > config.maxPacketSize {
        counters := counters.(packetsTooLargeToReceive := counters.packetsTooLargeToReceive + 1);
        return;
      }
      if !receivedPackets.CanInsert(h.sequence) {
        counters := counters.(packetsStale := counters.packetsStale + 1);
        return;
      }
      if receivedPackets.Exists(h.sequence) {
        counters := counters.(packetsDuplicate := counters.packetsDuplicate + 1);
        return;
      }
      if process(h.sequence, payload) {
        calls := [Call(h.sequence, payload, true)];
        AcceptPacket(h, packetBytes);
      } else {
        calls := [Call(h.sequence, payload, false)];
      }
    }

    /** Finds the slot of a packet under reassembly, or sets it up and moves both windows; false when stale. */
    method OpenSlotInPlace(f: FragmentHeader) returns (ok: bool)
      requires Intact() && 0 < f.total <= config.maxFragments
      modifies this, sentPackets, sentPackets.entrySequence, sentPackets.entries,
          receivedPackets, receivedPackets.entrySequence, receivedPackets.entries,
          fragmentReassembly, fragmentReassembly.entrySequence, fragmentReassembly.entries
      ensures Intact()
      ensures if ok then OpenSlot(config, old(State()), f) == Some(State())
              else OpenSlot(config, old(State()), f) == None && State() == old(State())
    {
      if !fragmentReassembly.Exists(f.sequence) {
        var inserted := InsertReassembly(f.sequence, FreshReassembly(f.total, config.fragmentSize));
        if !inserted {
          return false;
        }
        AdvanceReceived(f.sequence);
      }
      ok := true;
    }

    /** The self-recursive receive. It terminates because a reassembled datagram never looks like a fragment. */
    method ReceivePacketInternal(packetData: bytes, process: Process) returns (calls: seq<Call>)
      requires Intact() && |packetData| > 0
      requires packetData[0] % 2 == 1 ==> ReassemblyInv(config, State().reassembly)
      modifies this, sentPackets, sentPackets.entrySequence, sentPackets.entries,
          receivedPackets, receivedPackets.entrySequence, receivedPackets.entries,
          fragmentReassembly, fragmentReassembly.entrySequence, fragmentReassembly.entries
      ensures Intact()
      ensures packetData[0] % 2 == 0 ==>
                Receiving(State(), calls) == ReceiveWhole(config, old(State()), packetData, process)
      ensures packetData[0] % 2 == 1 ==>
                Receiving(State(), calls) == Receive(config, old(State()), packetData, process)
      decreases packetData[0] % 2, 0
    {
      if |packetData| > config.LongestDatagram() {
        Count(counters.(packetsTooLargeToReceive := counters.packetsTooLargeToReceive + 1));
        return [];
      }
      if packetData[0] % 2 == 0 {
        calls := ReceiveRegularPacket(packetData, process);
      } else {
        calls := ReceiveFragmentPacket(packetData, process);
      }
    }

    method ReceiveFragmentPacket(packetData: bytes, process: Process) returns (calls: seq<Call>)
      requires Intact() && |packetData| > 0 && ReassemblyInv(config, State().reassembly)
      modifies this, sentPackets, sentPackets.entrySequence, sentPackets.entries,
          receivedPackets, receivedPackets.entrySequence, receivedPackets.entries,
          fragmentReassembly, fragmentReassembly.entrySequence, fragmentReassembly.entries
      ensures Intact()
      ensures Receiving(State(), calls) == ReceiveFragment(config, old(State()), packetData, process)
      decreases 0, 4
    {
      hide DecodeFragment, OpenSlot, StoreInSlot, LegalFragment, EncodeFragment, ReassemblyInv;
      calls := [];
      var r := ReadFragmentHeader(packetData, config.maxFragments, config.fragmentSize);
      if r.None? {
        Count(counters.(fragmentsInvalid := counters.fragmentsInvalid + 1));
        return;
      }
      var f := r.value;
      AcceptedFragmentIsLegal(packetData, config.maxFragments, config.fragmentSize);
      if receivedPackets.Exists(f.sequence) {
        return;
      }
      OpenSlotInv(config, State(), f);
      var ok := OpenSlotInPlace(f);
      if !ok {
        Count(counters.(fragmentsInvalid := counters.fragmentsInvalid + 1));
        return;
      }
      calls := StoreFragmentPacket(f, packetData, process);
    }

    method StoreFragmentPacket(f: FragmentHeader, packetData: bytes, process: Process) returns (calls: seq<Call>)
      requires Intact() && ReassemblyInv(config, State().reassembly) && State().reassembly.Exists(f.sequence)
      requires DecodeFragment(packetData, config.maxFragments, config.fragmentSize) == Some(f)
      modifies this, sentPackets, sentPackets.entrySequence, sentPackets.entries,
          receivedPackets, receivedPackets.entrySequence, receivedPackets.entries,
          fragmentReassembly, fragmentReassembly.entrySequence, fragmentReassembly.entries
      ensures Intact()
      ensures Receiving(State(), calls) == StoreInSlot(config, old(State()), f, packetData, process)
      decreases 0, 3
    {
      calls := [];
      SlotAt(config, State(), f.sequence);
      AcceptedFragmentIsLegal(packetData, config.maxFragments, config.fragmentSize);
      var d := fragmentReassembly.entries[f.sequence % fragmentReassembly.entries.Length];
      if f.total != d.numFragmentsTotal {
        Count(counters.(fragmentsInvalid := counters.fragmentsInvalid + 1));
        return;
      }
      if d.fragmentReceived[f.id] {
        return;
      }
      ShapeAfterStore(d, f, FragmentPayload(packetData, f), config.maxFragments, config.fragmentSize);
      d := UpdateRecord(d, f, config.fragmentSize, packetData[FRAGMENT_HEADER_BYTES..]);
      calls := FinishSlotInPlace(f.sequence, d, process);
    }

    method FinishSlotInPlace(s: u16, d: FragmentReassemblyData, process: Process) returns (calls: seq<Call>)
      requires Intact() && SlotShape(d, s, config.fragmentSize)
      modifies this, sentPackets, sentPackets.entrySequence, sentPackets.entries,
          receivedPackets, receivedPackets.entrySequence, receivedPackets.entries,
          fragmentReassembly, fragmentReassembly.entrySequence, fragmentReassembly.entries
      ensures Intact()
      ensures Receiving(State(), calls) == FinishSlot(config, old(State()), s, d, process)
      decreases 0, 2
    {
      calls := [];
      if d.numFragmentsReceived == d.numFragmentsTotal {
        ReassembledIsRegular(d, s, config.fragmentSize);
        calls := CompleteReassembly(s, d, process);
      } else {
        StoreReassembly(s, d);
      }
      Count(counters.(fragmentsReceived := counters.fragmentsReceived + 1));
    }

    /** Takes the data of a complete packet out of its slot, receives it, and frees the slot. */
    method CompleteReassembly(s: u16, d: FragmentReassemblyData, process: Process) returns (calls: seq<Call>)
      requires Intact()
      requires d.packetHeaderBytes <= MAX_PACKET_HEADER_BYTES
      requires MAX_PACKET_HEADER_BYTES + d.packetBytes <= |d.packetData|
      requires |Reassembled(d)| > 0 && Reassembled(d)[0] % 2 == 0
      modifies this, sentPackets, sentPackets.entrySequence, sentPackets.entries,
          receivedPackets, receivedPackets.entrySequence, receivedPackets.entries,
          fragmentReassembly, fragmentReassembly.entrySequence, fragmentReassembly.entries
      ensures Intact()
      ensures Receiving(State(), calls) == Complete(config, old(State()), s, d, process)
      decreases 0, 1
    {
      var reassembledPacketData := Reassembled(d);
      StoreReassembly(s, d.(packetData := []));
      calls := ReceivePacketInternal(reassembledPacketData, process);
      RemoveReassembly(s);
    }

    method ReceivePacket(packetData: bytes, process: Process) returns (calls: seq<Call>)
      requires Valid() && |packetData| > 0
      modifies this, sentPackets, sentPackets.entrySequence, sentPackets.entries,
          receivedPackets, receivedPackets.entrySequence, receivedPackets.entries,
          fragmentReassembly, fragmentReassembly.entrySequence, fragmentReassembly.entries
      ensures Valid()
      ensures Receiving(State(), calls) == Receive(config, old(State()), packetData, process)
    {
      ReceiveKeepsInv(config, State(), packetData, process);
      calls := ReceivePacketInternal(packetData, process);
    }

    // -------------------------------------------------------------- statistics

    /** The integer part of the packet loss estimate: over the oldest half of the sent window, how many packets
        were sent and how many of them are not acked. */
    method CountLoss() returns (numSent: nat, numDropped: nat)
      requires Valid()
      ensures numSent == LossSent(State().sent, config.sentPacketsBufferSize / 2)
      ensures numDropped == LossDropped(State().sent, config.sentPacketsBufferSize / 2)
    {
      var baseSequence := Wrap(sentPackets.sequence - config.sentPacketsBufferSize);
      var numSamples := config.sentPacketsBufferSize / 2;
      numSent, numDropped := 0, 0;
      for i := 0 to numSamples
        invariant numSent == LossSent(State().sent, i) && numDropped == LossDropped(State().sent, i)
      {
        var d := sentPackets.Find(Wrap(baseSequence + i));
        if d.Some? {
          numSent := numSent + 1;
          if !d.value.acked {
            numDropped := numDropped + 1;
          }
        }
      }
    }

    /** What `update` does to the state: the clock moves. The loss counts are those of the sent window. */
    method Update(newTime: real) returns (numSent: nat, numDropped: nat)
      requires Valid()
      modifies this`time
      ensures Valid()
      ensures State() == old(State()).(time := newTime)
      ensures numSent == LossSent(State().sent, config.sentPacketsBufferSize / 2)
      ensures numDropped == LossDropped(State().sent, config.sentPacketsBufferSize / 2)
    {
      time := newTime;
      numSent, numDropped := CountLoss();
    }
  }
}
