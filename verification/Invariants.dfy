/** What holds of one endpoint after any sequence of calls, whatever bytes it is fed and whatever the process
    closure answers. */
module Invariants {
  import opened Wrappers
  import opened Sequence
  import opened Codec
  import opened CodecLaws
  import opened Buffers
  import opened Windows
  import opened Reassembly
  import opened Protocol

  ghost predicate StateInv(c: Config, st: State) {
    && Sized(c, st)
    && ReassemblyInv(c, st.reassembly)
    && st.sent.sequence == st.sequence
    && st.received.sequence == st.reassembly.sequence
    && |st.acks| <= c.ackBufferSize
  }

  // ---------------------------------------------------------------- runs

  datatype Event =
    | SendPacket(packet: bytes)
    | ReceivePacket(data: bytes, process: Process)
    | ClearAcks
    | Update(time: real)
    | Reset

  /** The source panics on empty packets and datagrams. */
  predicate Legal(e: Event) {
    (e.SendPacket? ==> |e.packet| > 0) && (e.ReceivePacket? ==> |e.data| > 0)
  }

  function ResetState(c: Config, st: State): State
    requires c.Valid()
  {
    Init(c, st.time)
  }

  function Step(c: Config, st: State, e: Event): State
    requires c.Valid() && CanSend(c) && StateInv(c, st) && Legal(e)
  {
    match e
    case SendPacket(packet) => NextFits(c, st); Send(c, st, packet).state
    case ReceivePacket(data, process) => Receive(c, st, data, process).state
    case ClearAcks => st.(acks := [])
    case Update(time) => st.(time := time)
    case Reset => ResetState(c, st)
  }

  lemma NextFits(c: Config, st: State)
    requires c.Valid() && CanSend(c) && Sized(c, st) && st.sent.sequence == st.sequence
    ensures !st.sent.Stale(st.sequence)
  {
    NextAlwaysFitsExactly(c.sentPacketsBufferSize, NO_SENT);
  }

  /** On the configurations that are accepted at creation, the first send panics exactly when the sent buffer size
      reduced to 16 bits is at least 32768; if it is below, no send of any run does. */
  lemma SendPanicsExactly(c: Config, time: real)
    requires c.Valid()
    ensures Init(c, time).sent.Stale(Init(c, time).sequence) <==> !CanSend(c)
    ensures CanSend(c) ==> forall st :: StateInv(c, st) ==> !st.sent.Stale(st.sequence)
  {
    NextAlwaysFitsExactly(c.sentPacketsBufferSize, NO_SENT);
  }

  /** The state after a run of calls; runs grow at the end. */
  function Run(c: Config, start: State, events: seq<Event>): (st: State)
    requires c.Valid() && CanSend(c) && StateInv(c, start) && forall e :: e in events ==> Legal(e)
    ensures StateInv(c, st)
    decreases |events|
  {
    if events == [] then start
    else
      var last := events[|events| - 1];
      var before := Run(c, start, events[..|events| - 1]);
      StepKeepsInv(c, before, last);
      Step(c, before, last)
  }

  ghost predicate LegalRun(events: seq<Event>) {
    forall e :: e in events ==> Legal(e)
  }

  function StateAfter(c: Config, time: real, events: seq<Event>): (st: State)
    requires c.Valid() && CanSend(c) && LegalRun(events)
    ensures StateInv(c, st)
  {
    InitInv(c, time);
    Run(c, Init(c, time), events)
  }

  /** What a run of an endpoint hands to its process closure, and to its transmit closure. */
  function HandedIn(c: Config, time: real, events: seq<Event>): seq<Call>
    requires c.Valid() && CanSend(c) && LegalRun(events)
    decreases |events|
  {
    if events == [] then []
    else
      var front, last := events[..|events| - 1], events[|events| - 1];
      assert last in events;
      HandedIn(c, time, front)
      + if last.ReceivePacket? then Receive(c, StateAfter(c, time, front), last.data, last.process).calls else []
  }

  function HandedOut(c: Config, time: real, events: seq<Event>): seq<Transmission>
    requires c.Valid() && CanSend(c) && LegalRun(events)
    decreases |events|
  {
    if events == [] then []
    else
      var front, last := events[..|events| - 1], events[|events| - 1];
      assert last in events;
      HandedOut(c, time, front)
      + if last.SendPacket? then
          NextFits(c, StateAfter(c, time, front));
          Send(c, StateAfter(c, time, front), last.packet).sent
        else []
  }

  // ---------------------------------------------------------------- each step keeps the invariant

  lemma StepKeepsInv(c: Config, st: State, e: Event)
    requires c.Valid() && CanSend(c) && StateInv(c, st) && Legal(e)
    ensures StateInv(c, Step(c, st, e))
  {
    match e
    case SendPacket(packet) => SendKeepsInv(c, st, packet);
    case ReceivePacket(data, process) => ReceiveKeepsInv(c, st, data, process);
    case ClearAcks =>
    case Update(time) =>
    case Reset => InitInv(c, st.time);
  }

  lemma InitInv(c: Config, time: real)
    requires c.Valid()
    ensures StateInv(c, Init(c, time))
  {
    var b := Init(c, time).reassembly;
    forall i | 0 <= i < b.Size()
      ensures SlotOk(c, b, i)
    {
    }
  }

  lemma SendKeepsInv(c: Config, st: State, packet: bytes)
    requires c.Valid() && CanSend(c) && StateInv(c, st) && |packet| > 0
    ensures !st.sent.Stale(st.sequence)
    ensures StateInv(c, Send(c, st, packet).state)
  {
    NextFits(c, st);
    NextIsNewer(st.sequence);
  }

  lemma {:induction false} AcksStayBounded(c: Config, st: State, ack: u16, ackBits: u32, i: nat)
    requires st.sent.WellFormed() && i <= 32 && |st.acks| <= c.ackBufferSize
    ensures |ProcessAcks(c, st, ack, ackBits, i).acks| <= c.ackBufferSize
    decreases 32 - i
  {
    if i < 32 {
      AcksStayBounded(c, if ackBits % 2 == 1 then AckOne(c, st, Wrap(ack - i)) else st, ack, ackBits / 2, i + 1);
    }
  }

  /** The entry that an accepted packet of `size` bytes leaves in the received buffer. */
  function ReceivedEntry(c: Config, st: State, size: nat): ReceivedPacketData
    requires c.packetHeaderSize + size < 0x1_0000_0000
  {
    ReceivedPacketData(st.time, c.packetHeaderSize + size)
  }

  lemma AcceptFrame(c: Config, st: State, h: PacketHeader, size: nat)
    requires Sized(c, st) && !st.received.Stale(h.sequence) && c.packetHeaderSize + size < 0x1_0000_0000
    ensures var st' := Accept(c, st, h, size);
            && Sized(c, st') && st'.sequence == st.sequence && st'.time == st.time
            && st'.sent.sequence == st.sent.sequence
            && (|st.acks| <= c.ackBufferSize ==> |st'.acks| <= c.ackBufferSize)
            && st'.received == st.received.Insert(h.sequence, ReceivedEntry(c, st, size)).value
            && st'.reassembly == st.reassembly.Advance(h.sequence)
  {
    AcceptKeepsSizes(c, st, h, size);
    var st1 := st.(received := st.received.Insert(h.sequence, ReceivedEntry(c, st, size)).value,
                   reassembly := st.reassembly.Advance(h.sequence));
    AcksTouchOnlySent(c, st1, h.ack, h.ackBits, 0);
    if |st.acks| <= c.ackBufferSize {
      AcksStayBounded(c, st1, h.ack, h.ackBits, 0);
    }
  }

  /** What one receive does to everything but the sent buffer: at most one call to the process closure, and only
      an accepted call changes more than the counters. */
  ghost predicate Framed(c: Config, st: State, r: Receiving, size: nat) {
    && Sized(c, st) && Sized(c, r.state) && |r.calls| <= 1
    && r.state.sequence == st.sequence && r.state.time == st.time && r.state.sent.sequence == st.sent.sequence
    && (|st.acks| <= c.ackBufferSize ==> |r.state.acks| <= c.ackBufferSize)
    && if r.calls != [] && r.calls[0].accepted then
         var s := r.calls[0].sequence;
         && !st.received.Stale(s) && !st.received.Exists(s) && c.packetHeaderSize + size < 0x1_0000_0000
         && r.state.received == st.received.Insert(s, ReceivedEntry(c, st, size)).value
         && r.state.reassembly == st.reassembly.Advance(s)
       else
         r.state == st.(counters := r.state.counters)
  }

  lemma PayloadFrame(c: Config, st: State, h: PacketHeader, payload: bytes, size: nat, process: Process)
    requires c.Valid() && Sized(c, st) && size <= c.LongestDatagram()
    ensures Framed(c, st, ReceivePayload(c, st, h, payload, size, process), size)
  {
    if !st.received.Stale(h.sequence) {
      AcceptFrame(c, st, h, size);
    }
  }

  lemma WholeFrame(c: Config, st: State, data: bytes, process: Process)
    requires c.Valid() && Sized(c, st)
    ensures Framed(c, st, ReceiveWhole(c, st, data, process), |data|)
  {
    if |data| <= c.LongestDatagram() && DecodeHeader(data).Some? {
      var h := DecodeHeader(data).value;
      PayloadFrame(c, CountPacket(st), h, data[h.size..], |data|, process);
    }
  }

  /** Freeing the slot of a completed packet restores the slot invariant, whether or not the nested receive moved
      the window. */
  lemma CompleteKeepsReassembly(c: Config, b: Buffer<FragmentReassemblyData>, s: u16, d: FragmentReassemblyData,
                                b1: Buffer<FragmentReassemblyData>)
    requires ReassemblyInv(c, b) && b.Exists(s)
    requires var b0 := b.(entries := b.entries[b.Index(s) := d]); b1 == b0 || exists t :: b1 == b0.Advance(t)
    ensures b1.WellFormed() && ReassemblyInv(c, b1.Remove(s))
  {
    hide GreaterThan, LessThan, SlotInv, InRange;
    var b0 := b.(entries := b.entries[b.Index(s) := d]);
    assert b0.WellFormed();
    forall i | 0 <= i < b.Size()
      ensures SlotOk(c, b1.Remove(s), i)
    {
      assert SlotOk(c, b, i);
      if b1 != b0 {
        var t :| b1 == b0.Advance(t);
      }
    }
  }

  /** A receive-side step: lockstep and the slot invariant survive a regular packet. */
  lemma WholeKeepsInv(c: Config, st: State, data: bytes, process: Process)
    requires c.Valid() && StateInv(c, st)
    ensures StateInv(c, ReceiveWhole(c, st, data, process).state)
  {
    WholeFrame(c, st, data, process);
    var r := ReceiveWhole(c, st, data, process);
    if r.calls != [] && r.calls[0].accepted {
      AdvanceKeepsReassembly(c, st.reassembly, r.calls[0].sequence);
    }
  }

  lemma CompleteKeepsInv(c: Config, st: State, s: u16, d: FragmentReassemblyData, process: Process)
    requires c.Valid() && StateInv(c, st) && st.reassembly.Exists(s)
    requires d.packetHeaderBytes <= MAX_PACKET_HEADER_BYTES && MAX_PACKET_HEADER_BYTES + d.packetBytes <= |d.packetData|
    ensures StateInv(c, Complete(c, st, s, d, process).state)
  {
    var st0 := SetEntry(st, s, d.(packetData := []));
    WholeFrame(c, st0, Reassembled(d), process);
    CompleteKeepsReassembly(c, st.reassembly, s, d.(packetData := []),
                            ReceiveWhole(c, st0, Reassembled(d), process).state.reassembly);
  }

  lemma StoreKeepsInv(c: Config, st: State, f: FragmentHeader, data: bytes, process: Process)
    requires c.Valid() && StateInv(c, st) && st.reassembly.Exists(f.sequence)
    requires DecodeFragment(data, c.maxFragments, c.fragmentSize) == Some(f)
    ensures StateInv(c, StoreInSlot(c, st, f, data, process).state)
  {
    var d := st.reassembly.entries[st.reassembly.Index(f.sequence)];
    SlotAt(c, st, f.sequence);
    AcceptedFragmentIsLegal(data, c.maxFragments, c.fragmentSize);
    if f.total == d.numFragmentsTotal && !d.fragmentReceived[f.id] {
      ShapeAfterStore(d, f, FragmentPayload(data, f), c.maxFragments, c.fragmentSize);
      FinishKeepsInv(c, st, f.sequence, Received(d, f, c.fragmentSize, data[FRAGMENT_HEADER_BYTES..]), process);
    }
  }

  lemma FinishKeepsInv(c: Config, st: State, s: u16, d: FragmentReassemblyData, process: Process)
    requires c.Valid() && StateInv(c, st) && st.reassembly.Exists(s) && SlotShape(d, s, c.fragmentSize)
    requires d.numFragmentsReceived <= d.numFragmentsTotal <= c.maxFragments
    ensures StateInv(c, FinishSlot(c, st, s, d, process).state)
  {
    if d.numFragmentsReceived == d.numFragmentsTotal {
      CompleteSlotReads(d, s, c.fragmentSize);
      CompleteKeepsInv(c, st, s, d, process);
    } else {
      SetEntryKeepsReassembly(c, st.reassembly, s, d);
    }
  }

  lemma SetEntryKeepsReassembly(c: Config, b: Buffer<FragmentReassemblyData>, s: u16, d: FragmentReassemblyData)
    requires ReassemblyInv(c, b) && b.Exists(s) && SlotInv(d, s, c.maxFragments, c.fragmentSize)
    ensures ReassemblyInv(c, b.(entries := b.entries[b.Index(s) := d]))
  {
    var b' := b.(entries := b.entries[b.Index(s) := d]);
    forall i | 0 <= i < b.Size()
      ensures SlotOk(c, b', i)
    {
      assert SlotOk(c, b, i);
    }
  }

  /** Opening a slot moves both windows by the same rule, so they stay in lockstep. */
  lemma OpenSlotKeepsInv(c: Config, st: State, f: FragmentHeader)
    requires c.Valid() && StateInv(c, st) && 0 < f.total <= c.maxFragments
    ensures OpenSlot(c, st, f).Some? ==> StateInv(c, OpenSlot(c, st, f).value)
  {
    OpenSlotInv(c, st, f);
  }

  lemma ReceiveKeepsInv(c: Config, st: State, data: bytes, process: Process)
    requires c.Valid() && StateInv(c, st) && |data| > 0
    ensures StateInv(c, Receive(c, st, data, process).state)
  {
    if |data| <= c.LongestDatagram() {
      if data[0] % 2 == 0 {
        WholeKeepsInv(c, st, data, process);
      } else if DecodeFragment(data, c.maxFragments, c.fragmentSize).Some? {
        var f := DecodeFragment(data, c.maxFragments, c.fragmentSize).value;
        AcceptedFragmentIsLegal(data, c.maxFragments, c.fragmentSize);
        if !st.received.Exists(f.sequence) && OpenSlot(c, st, f).Some? {
          OpenSlotKeepsInv(c, st, f);
          StoreKeepsInv(c, OpenSlot(c, st, f).value, f, data, process);
        }
      }
    }
  }

  /** The reassembled datagram is not empty and never looks like a fragment, so the nested receive goes no deeper. */
  lemma ReassembledIsRegular(d: FragmentReassemblyData, s: u16, fragmentSize: nat)
    requires SlotShape(d, s, fragmentSize) && d.numFragmentsReceived == d.numFragmentsTotal
    ensures d.packetHeaderBytes <= MAX_PACKET_HEADER_BYTES && MAX_PACKET_HEADER_BYTES + d.packetBytes <= |d.packetData|
    ensures |Reassembled(d)| >= 4 && Reassembled(d)[0] % 2 == 0
  {
    CompleteSlotReads(d, s, fragmentSize);
    FullCount(d.fragmentReceived, d.numFragmentsTotal);
    var ack, ackBits :| HoldsHeader(d, s, ack, ackBits);
    ReassembledIs(d, s, ack, ackBits);
  }

  lemma ReassembledIs(d: FragmentReassemblyData, s: u16, ack: u16, ackBits: u32)
    requires HoldsHeader(d, s, ack, ackBits) && MAX_PACKET_HEADER_BYTES + d.packetBytes <= |d.packetData|
    ensures Reassembled(d) == EncodeHeader(s, ack, ackBits) + Payload(d)
  {
    var header := EncodeHeader(s, ack, ackBits);
    assert Reassembled(d) == d.packetData[MAX_PACKET_HEADER_BYTES - |header|..MAX_PACKET_HEADER_BYTES] + Payload(d);
  }

  // ---------------------------------------------------------------- completing a packet

  /** The slot that this datagram fills up, as it is after the store, if it fills one up. */
  function Filled(c: Config, st: State, data: bytes): (r: Option<FragmentReassemblyData>)
    requires c.Valid() && Sized(c, st) && ReassemblyInv(c, st.reassembly) && |data| > 0
    ensures r.Some? ==> r.value.packetHeaderBytes <= MAX_PACKET_HEADER_BYTES
                        && MAX_PACKET_HEADER_BYTES + r.value.packetBytes <= |r.value.packetData|
  {
    if |data| > c.LongestDatagram() || data[0] % 2 == 0 then None
    else
      match DecodeFragment(data, c.maxFragments, c.fragmentSize)
      case None => None
      case Some(f) =>
        if st.received.Exists(f.sequence) then None
        else
          match OpenSlot(c, st, f)
          case None => None
          case Some(open) =>
            AcceptedFragmentIsLegal(data, c.maxFragments, c.fragmentSize);
            OpenSlotInv(c, st, f);
            FilledSlot(c, open, f, data)
  }

  function FilledSlot(c: Config, st: State, f: FragmentHeader, data: bytes): (r: Option<FragmentReassemblyData>)
    requires c.Valid() && Sized(c, st) && ReassemblyInv(c, st.reassembly) && st.reassembly.Exists(f.sequence)
    requires DecodeFragment(data, c.maxFragments, c.fragmentSize) == Some(f)
    ensures r.Some? ==> r.value.packetHeaderBytes <= MAX_PACKET_HEADER_BYTES
                        && MAX_PACKET_HEADER_BYTES + r.value.packetBytes <= |r.value.packetData|
  {
    var d := st.reassembly.entries[st.reassembly.Index(f.sequence)];
    SlotAt(c, st, f.sequence);
    AcceptedFragmentIsLegal(data, c.maxFragments, c.fragmentSize);
    if f.total != d.numFragmentsTotal || d.fragmentReceived[f.id] || d.numFragmentsReceived + 1 < f.total then None
    else
      ShapeAfterStore(d, f, FragmentPayload(data, f), c.maxFragments, c.fragmentSize);
      StoredData(d, f, FragmentPayload(data, f), c.maxFragments, c.fragmentSize);
      var full := Received(d, f, c.fragmentSize, data[FRAGMENT_HEADER_BYTES..]);
      CompleteSlotReads(full, f.sequence, c.fragmentSize);
      Some(full)
  }

  // ---------------------------------------------------------------- memory

  function Buffered(entries: seq<FragmentReassemblyData>): nat {
    if entries == [] then 0 else |entries[0].packetData| + Buffered(entries[1..])
  }

  lemma {:induction false} BufferedBelow(entries: seq<FragmentReassemblyData>, most: nat)
    requires forall i :: 0 <= i < |entries| ==> |entries[i].packetData| <= most
    ensures Buffered(entries) <= |entries| * most
  {
    if entries != [] {
      BufferedBelow(entries[1..], most);
      NextMultiple(|entries| - 1, most);
    }
  }

  /** The memory held by packets under reassembly is bounded by the configuration, in every reachable state. */
  lemma ReassemblyMemoryBounded(c: Config, time: real, events: seq<Event>)
    requires c.Valid() && CanSend(c) && forall e :: e in events ==> Legal(e)
    ensures StateInv(c, Init(c, time))
    ensures var st := Run(c, Init(c, time), events);
            Buffered(st.reassembly.entries)
            <= c.fragmentReassemblyBufferSize * (MAX_PACKET_HEADER_BYTES + c.maxFragments * c.fragmentSize)
  {
    InitInv(c, time);
    var st := Run(c, Init(c, time), events);
    forall i | 0 <= i < |st.reassembly.entries|
      ensures |st.reassembly.entries[i].packetData| <= MAX_PACKET_HEADER_BYTES + c.maxFragments * c.fragmentSize
    {
      assert SlotOk(c, st.reassembly, i);
      Monotone(st.reassembly.entries[i].numFragmentsTotal, c.maxFragments, c.fragmentSize);
    }
    BufferedBelow(st.reassembly.entries, MAX_PACKET_HEADER_BYTES + c.maxFragments * c.fragmentSize);
  }
}
