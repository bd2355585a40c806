/** What each counter counts, told from the calls: for every run, since creation or the last reset. */
module Counting {
  import opened Wrappers
  import opened Sequence
  import opened Codec
  import opened CodecLaws
  import opened Buffers
  import opened Reassembly
  import opened Protocol
  import opened Invariants
  import opened ReceiveSide
  import opened SendSide

  // ---------------------------------------------------------------- what one call counts

  function One(b: bool): nat {
    if b then 1 else 0
  }

  /** How many fragments a packet travels in; none if it travels whole or not at all. */
  function FragmentsFor(c: Config, size: nat): nat
    requires c.Valid()
  {
    if c.fragmentAbove < size <= c.maxPacketSize then NumFragments(size, c.fragmentSize) else 0
  }

  /** What becomes of a whole datagram that meets a received window. */
  datatype Fate = TooLong | Unreadable | PayloadTooLong | StaleNumber | DuplicateNumber | Asked

  function FateOf(c: Config, window: ReceivedBuffer, data: bytes): Fate
    requires window.WellFormed()
  {
    if |data| > c.maxPacketSize + 9 + 5 then TooLong
    else
      match DecodeHeader(data)
      case None => Unreadable
      case Some(g) =>
        if |data| - g.size > c.maxPacketSize then PayloadTooLong
        else if window.Stale(g.sequence) then StaleNumber
        else if window.Exists(g.sequence) then DuplicateNumber
        else Asked
  }

  /** The received window after the first fragment of a packet. */
  function WindowAfter(st: State, s: u16): ReceivedBuffer
    requires st.received.WellFormed() && st.reassembly.WellFormed()
  {
    if st.reassembly.Exists(s) then st.received else st.received.Advance(s)
  }

  /** The fate of the whole datagram that a call brings: the one received, or the one it completes; none otherwise. */
  function WholeFate(c: Config, st: State, data: bytes): Option<Fate>
    requires c.Valid() && Sized(c, st) && ReassemblyInv(c, st.reassembly) && |data| > 0
  {
    if |data| > c.maxPacketSize + 9 + 5 || data[0] % 2 == 0 then Some(FateOf(c, st.received, data))
    else
      match Filled(c, st, data)
      case None => None
      case Some(d) =>
        match DecodeFragment(data, c.maxFragments, c.fragmentSize)
        case None => None
        case Some(f) => Some(FateOf(c, WindowAfter(st, f.sequence), Reassembled(d)))
  }

  /** What becomes of a fragment. */
  datatype FragmentFate = Refused | Ignored | Kept

  /** A fragment is refused if it is not legal, out of reach, or of another total than those before it; ignored if its
      packet was received or it was itself; and kept otherwise. */
  function FateOfFragment(c: Config, st: State, data: bytes): Option<FragmentFate>
    requires c.Valid() && Sized(c, st) && ReassemblyInv(c, st.reassembly) && |data| > 0
  {
    if |data| > c.maxPacketSize + 9 + 5 || data[0] % 2 == 0 then None
    else
      match DecodeFragment(data, c.maxFragments, c.fragmentSize)
      case None => Some(Refused)
      case Some(f) =>
        var s := f.sequence;
        if st.received.Exists(s) then Some(Ignored)
        else
          match st.reassembly.Find(s)
          case None => Some(if !st.reassembly.Newer(s) && st.reassembly.Stale(s) then Refused else Kept)
          case Some(d) =>
            if d.numFragmentsTotal != f.total then Some(Refused)
            else if f.id < |d.fragmentReceived| && d.fragmentReceived[f.id] then Some(Ignored)
            else Some(Kept)
  }

  function Plus(a: Counters, b: Counters): Counters {
    Counters(a.packetsSent + b.packetsSent, a.packetsReceived + b.packetsReceived, a.packetsAcked + b.packetsAcked,
             a.packetsStale + b.packetsStale, a.packetsInvalid + b.packetsInvalid,
             a.packetsTooLargeToSend + b.packetsTooLargeToSend,
             a.packetsTooLargeToReceive + b.packetsTooLargeToReceive, a.fragmentsSent + b.fragmentsSent,
             a.fragmentsReceived + b.fragmentsReceived, a.fragmentsInvalid + b.fragmentsInvalid,
             a.packetsDuplicate + b.packetsDuplicate)
  }

  /** What a whole datagram of some fate counts for. */
  function CountsFor(fate: Option<Fate>): Counters {
    Counters(0, One(fate.Some? && fate.value != TooLong), 0, One(fate == Some(StaleNumber)),
             One(fate == Some(Unreadable)), 0, One(fate == Some(TooLong) || fate == Some(PayloadTooLong)), 0, 0, 0,
             One(fate == Some(DuplicateNumber)))
  }

  /** What a call counts for. Acks are counted as they are reported. */
  function Gain(c: Config, st: State, e: Event): Counters
    requires c.Valid() && CanSend(c) && StateInv(c, st) && Legal(e)
  {
    match e
    case SendPacket(packet) =>
      Counters(One(|packet| <= c.maxPacketSize), 0, 0, 0, 0, One(|packet| > c.maxPacketSize), 0,
               FragmentsFor(c, |packet|), 0, 0, 0)
    case ReceivePacket(data, process) =>
      var acked := Step(c, st, e).acks;
      var fragment := FateOfFragment(c, st, data);
      Plus(CountsFor(WholeFate(c, st, data)),
           Counters(0, 0, if |st.acks| <= |acked| then |acked| - |st.acks| else 0, 0, 0, 0, 0, 0,
                    One(fragment == Some(Kept)), One(fragment == Some(Refused)), 0))
    case _ => Counters(0, 0, 0, 0, 0, 0, 0, 0, 0, 0, 0)
  }

  // ---------------------------------------------------------------- one receive

  lemma AcksCount(c: Config, st: State, h: PacketHeader, size: nat)
    requires Sized(c, st) && !st.received.Stale(h.sequence) && c.packetHeaderSize + size < 0x1_0000_0000
    ensures var st' := Accept(c, st, h, size);
            && |st.acks| <= |st'.acks|
            && st'.counters == st.counters.(packetsAcked := st.counters.packetsAcked + (|st'.acks| - |st.acks|))
  {
    hide Marked, Pending, Acknowledges;
    var st1 := st.(received := st.received.Insert(h.sequence, ReceivedEntry(c, st, size)).value,
                   reassembly := st.reassembly.Advance(h.sequence));
    AcksTouchOnlySent(c, st1, h.ack, h.ackBits, 0);
    AcksInClosedForm(c, st1, h.ack, h.ackBits);
  }

  /** The counters have grown by what a whole datagram of that fate counts for, and by the acks reported. */
  ghost predicate Counted(st: State, st': State, gain: Counters) {
    && |st.acks| <= |st'.acks|
    && st'.counters == Plus(st.counters, gain.(packetsAcked := |st'.acks| - |st.acks|))
  }

  lemma WholeCounts(c: Config, st: State, data: bytes, process: Process)
    requires c.Valid() && Sized(c, st)
    ensures Counted(st, ReceiveWhole(c, st, data, process).state, CountsFor(Some(FateOf(c, st.received, data))))
  {
    hide DecodeHeader, Accept, Buffer.Stale, Buffer.Exists;
    if |data| <= c.LongestDatagram() && DecodeHeader(data).Some? {
      var g := DecodeHeader(data).value;
      HeaderInside(data);
      if !st.received.Stale(g.sequence) {
        AcksCount(c, CountPacket(st), g, |data|);
      }
    }
  }

  lemma HeaderInside(data: bytes)
    requires DecodeHeader(data).Some?
    ensures DecodeHeader(data).value.size <= |data|
  {
  }

  /** A slot with a fragment just stored. */
  lemma FinishCounts(c: Config, st: State, s: u16, d: FragmentReassemblyData, process: Process)
    requires c.Valid() && Sized(c, st) && SlotShape(d, s, c.fragmentSize)
    ensures d.numFragmentsReceived == d.numFragmentsTotal ==>
              && d.packetHeaderBytes <= MAX_PACKET_HEADER_BYTES
              && MAX_PACKET_HEADER_BYTES + d.packetBytes <= |d.packetData|
    ensures var fate := if d.numFragmentsReceived == d.numFragmentsTotal
                        then Some(FateOf(c, st.received, Reassembled(d))) else None;
            Counted(st, FinishSlot(c, st, s, d, process).state, CountsFor(fate).(fragmentsReceived := 1))
  {
    hide SlotShape, ReceiveWhole, FateOf, Buffer.Remove;
    if d.numFragmentsReceived == d.numFragmentsTotal {
      CompleteSlotReads(d, s, c.fragmentSize);
      WholeCounts(c, SetEntry(st, s, d.(packetData := [])), Reassembled(d), process);
    }
  }

  /** The slot that a fragment meets, told from the state before. */
  lemma MetSlot(c: Config, st: State, f: FragmentHeader)
    requires Sized(c, st) && 0 < f.total
    ensures OpenSlot(c, st, f).Some? <==>
            st.reassembly.Exists(f.sequence) || st.reassembly.Newer(f.sequence) || !st.reassembly.Stale(f.sequence)
    ensures OpenSlot(c, st, f).Some? ==>
              var open := OpenSlot(c, st, f).value;
              && open.counters == st.counters && open.acks == st.acks && open.reassembly.WellFormed()
              && open.received == WindowAfter(st, f.sequence)
              && (st.reassembly.Exists(f.sequence) ==> open == st)
              && (!st.reassembly.Exists(f.sequence) ==>
                    open.reassembly.Find(f.sequence) == Some(FreshReassembly(f.total, c.fragmentSize)))
  {
    hide FreshReassembly, Buffer.Advance, Buffer.Newer, Buffer.Stale;
  }

  lemma StoreCounts(c: Config, st: State, f: FragmentHeader, data: bytes, process: Process)
    requires c.Valid() && Sized(c, st) && ReassemblyInv(c, st.reassembly) && st.reassembly.Exists(f.sequence)
    requires DecodeFragment(data, c.maxFragments, c.fragmentSize) == Some(f)
    ensures |st.reassembly.Find(f.sequence).value.fragmentReceived| == 256 > f.id
    ensures var d, filled := st.reassembly.Find(f.sequence).value, FilledSlot(c, st, f, data);
            var r := StoreInSlot(c, st, f, data, process);
            if d.numFragmentsTotal != f.total then Counted(st, r.state, CountsFor(None).(fragmentsInvalid := 1))
            else if d.fragmentReceived[f.id] then Counted(st, r.state, CountsFor(None))
            else
              var fate := if filled.None? then None else Some(FateOf(c, st.received, Reassembled(filled.value)));
              Counted(st, r.state, CountsFor(fate).(fragmentsReceived := 1))
  {
    hide DecodeFragment, FinishSlot, FateOf, HoldsHeader, Reassembled;
    var d := st.reassembly.entries[st.reassembly.Index(f.sequence)];
    SlotAt(c, st, f.sequence);
    AcceptedFragmentIsLegal(data, c.maxFragments, c.fragmentSize);
    if f.total == d.numFragmentsTotal && !d.fragmentReceived[f.id] {
      ShapeAfterStore(d, f, FragmentPayload(data, f), c.maxFragments, c.fragmentSize);
      StoredData(d, f, FragmentPayload(data, f), c.maxFragments, c.fragmentSize);
      FinishCounts(c, st, f.sequence, Received(d, f, c.fragmentSize, data[FRAGMENT_HEADER_BYTES..]), process);
    }
  }

  lemma FreshHasNone(total: nat, fragmentSize: nat, i: nat)
    requires i < 256
    ensures var d := FreshReassembly(total, fragmentSize);
            d.numFragmentsTotal == total && |d.fragmentReceived| == 256 && !d.fragmentReceived[i]
  {
  }

  /** A legal fragment whose slot is there or can be set up. */
  lemma OpenCounts(c: Config, st: State, f: FragmentHeader, data: bytes, process: Process)
    requires c.Valid() && Sized(c, st) && ReassemblyInv(c, st.reassembly)
    requires 0 < |data| <= c.maxPacketSize + 9 + 5 && data[0] % 2 == 1
    requires DecodeFragment(data, c.maxFragments, c.fragmentSize) == Some(f) && !st.received.Exists(f.sequence)
    requires OpenSlot(c, st, f).Some?
    ensures var fragment := FateOfFragment(c, st, data);
            Counted(st, Receive(c, st, data, process).state,
                    CountsFor(WholeFate(c, st, data)).(fragmentsReceived := One(fragment == Some(Kept)),
                                                       fragmentsInvalid := One(fragment == Some(Refused))))
  {
    hide DecodeFragment, OpenSlot, StoreInSlot, FilledSlot, FateOf, Reassembled, FreshReassembly, WindowAfter,
         ReassemblyInv, Buffer.Newer, Buffer.Stale, Buffer.Exists;
    AcceptedFragmentIsLegal(data, c.maxFragments, c.fragmentSize);
    OpenSlotInv(c, st, f);
    MetSlot(c, st, f);
    FreshHasNone(f.total, c.fragmentSize, f.id);
    FoundIffThere(st.reassembly, f.sequence);
    StoreCounts(c, OpenSlot(c, st, f).value, f, data, process);
    FilledIs(c, st, f, data);
  }

  lemma FoundIffThere<T>(b: Buffer<T>, s: u16)
    requires b.WellFormed()
    ensures b.Exists(s) <==> b.Find(s).Some?
  {
  }

  lemma FilledIs(c: Config, st: State, f: FragmentHeader, data: bytes)
    requires c.Valid() && Sized(c, st) && ReassemblyInv(c, st.reassembly)
    requires 0 < |data| <= c.maxPacketSize + 9 + 5 && data[0] % 2 == 1
    requires DecodeFragment(data, c.maxFragments, c.fragmentSize) == Some(f) && !st.received.Exists(f.sequence)
    requires OpenSlot(c, st, f).Some?
    ensures var open := OpenSlot(c, st, f).value;
            && Sized(c, open) && ReassemblyInv(c, open.reassembly) && open.reassembly.Exists(f.sequence)
            && Filled(c, st, data) == FilledSlot(c, open, f, data)
            && (open.reassembly.Find(f.sequence).Some? ==>
                  var d := open.reassembly.Find(f.sequence).value;
                  d.numFragmentsTotal != f.total || (f.id < |d.fragmentReceived| && d.fragmentReceived[f.id]) ==>
                    Filled(c, st, data) == None)
  {
    hide DecodeFragment, OpenSlot, ReassemblyInv;
    AcceptedFragmentIsLegal(data, c.maxFragments, c.fragmentSize);
    OpenSlotInv(c, st, f);
  }

  /** Any datagram. */
  lemma ReceiveCounts(c: Config, st: State, data: bytes, process: Process)
    requires c.Valid() && Sized(c, st) && ReassemblyInv(c, st.reassembly) && |data| > 0
    ensures var fragment := FateOfFragment(c, st, data);
            Counted(st, Receive(c, st, data, process).state,
                    CountsFor(WholeFate(c, st, data)).(fragmentsReceived := One(fragment == Some(Kept)),
                                                       fragmentsInvalid := One(fragment == Some(Refused))))
  {
    hide DecodeFragment, DecodeHeader, OpenSlot, StoreInSlot, FilledSlot, FateOf, Reassembled, ReceiveRegular,
         WindowAfter, ReassemblyInv, Buffer.Newer, Buffer.Stale, Buffer.Exists;
    if |data| > c.maxPacketSize + 9 + 5 || data[0] % 2 == 0 {
      WholeCounts(c, st, data, process);
    } else if DecodeFragment(data, c.maxFragments, c.fragmentSize).Some? {
      var f := DecodeFragment(data, c.maxFragments, c.fragmentSize).value;
      AcceptedFragmentIsLegal(data, c.maxFragments, c.fragmentSize);
      MetSlot(c, st, f);
      FoundIffThere(st.reassembly, f.sequence);
      if !st.received.Exists(f.sequence) && OpenSlot(c, st, f).Some? {
        OpenCounts(c, st, f, data, process);
      }
    }
  }

  /** The gate told from outside: exactly the datagrams longer than the largest packet and 14 bytes are counted as too
      large to receive and as nothing else, with no other effect. */
  lemma GateExactly(c: Config, st: State, data: bytes, process: Process)
    requires c.Valid() && Sized(c, st) && ReassemblyInv(c, st.reassembly) && |data| > 0
    ensures var n := st.counters.packetsTooLargeToReceive;
            |data| > c.maxPacketSize + 9 + 5 <==>
            Receive(c, st, data, process)
            == Receiving(st.(counters := st.counters.(packetsTooLargeToReceive := n + 1)), [])
  {
    hide DecodeFragment, DecodeHeader, OpenSlot, StoreInSlot, Filled, Reassembled, ReceiveRegular, WindowAfter,
         ReassemblyInv, ReceiveFragment, Buffer.Newer, Buffer.Stale, Buffer.Exists, Buffer.Find;
    ReceiveCounts(c, st, data, process);
    if 0 < |data| <= c.maxPacketSize + 9 + 5 && data[0] % 2 == 1 {
      OnlyKeptComplete(c, st, data);
    }
  }

  /** Only a fragment that is kept completes a packet. */
  lemma OnlyKeptComplete(c: Config, st: State, data: bytes)
    requires c.Valid() && Sized(c, st) && ReassemblyInv(c, st.reassembly)
    requires 0 < |data| <= c.maxPacketSize + 9 + 5 && data[0] % 2 == 1
    ensures WholeFate(c, st, data).Some? ==> FateOfFragment(c, st, data) == Some(Kept)
  {
    hide DecodeFragment, OpenSlot, FilledSlot, FateOf, Reassembled, FreshReassembly, WindowAfter, ReassemblyInv,
         Buffer.Newer, Buffer.Stale, Buffer.Exists;
    if DecodeFragment(data, c.maxFragments, c.fragmentSize).Some? {
      var f := DecodeFragment(data, c.maxFragments, c.fragmentSize).value;
      AcceptedFragmentIsLegal(data, c.maxFragments, c.fragmentSize);
      MetSlot(c, st, f);
      FoundIffThere(st.reassembly, f.sequence);
      if !st.received.Exists(f.sequence) && OpenSlot(c, st, f).Some? {
        FilledIs(c, st, f, data);
      }
    }
  }

  // ---------------------------------------------------------------- every run

  /** What the calls since creation or the last reset count for, together. */
  function Tally(c: Config, time: real, events: seq<Event>): Counters
    requires c.Valid() && CanSend(c) && LegalRun(events)
    decreases |events|
  {
    if events == [] then Counters(0, 0, 0, 0, 0, 0, 0, 0, 0, 0, 0)
    else
      var front, last := events[..|events| - 1], events[|events| - 1];
      if last.Reset? then Counters(0, 0, 0, 0, 0, 0, 0, 0, 0, 0, 0)
      else Plus(Tally(c, time, front), Gain(c, StateAfter(c, time, front), last))
  }

  lemma StepCounts(c: Config, st: State, e: Event)
    requires c.Valid() && CanSend(c) && StateInv(c, st) && Legal(e)
    ensures Step(c, st, e).counters
            == if e.Reset? then Counters(0, 0, 0, 0, 0, 0, 0, 0, 0, 0, 0) else Plus(st.counters, Gain(c, st, e))
  {
    hide Receive, WholeFate, FateOfFragment, ReassemblyInv, Datagrams, Buffer.Insert;
    match e
    case SendPacket(packet) => NextFits(c, st);
    case ReceivePacket(data, process) => ReceiveCounts(c, st, data, process);
    case _ =>
  }

  /** In every run each of the eleven counters is the number of what it counts, since creation or the last reset. */
  lemma {:induction false} CountersCount(c: Config, time: real, events: seq<Event>)
    requires c.Valid() && CanSend(c) && LegalRun(events)
    ensures StateAfter(c, time, events).counters == Tally(c, time, events)
    decreases |events|
  {
    hide Step, Gain;
    if events != [] {
      var front, last := events[..|events| - 1], events[|events| - 1];
      CountersCount(c, time, front);
      StepCounts(c, StateAfter(c, time, front), last);
    }
  }

  /** The calls since the last reset. */
  function SinceReset(events: seq<Event>): seq<Event>
    decreases |events|
  {
    if events == [] || events[|events| - 1].Reset? then []
    else SinceReset(events[..|events| - 1]) + [events[|events| - 1]]
  }

  /** The packets among some calls that are sent, those that are too large for that, and the fragments they make. */
  function PacketsIn(c: Config, events: seq<Event>): nat {
    if events == [] then 0
    else
      PacketsIn(c, events[..|events| - 1])
      + One(events[|events| - 1].SendPacket? && |events[|events| - 1].packet| <= c.maxPacketSize)
  }

  function OversizedIn(c: Config, events: seq<Event>): nat {
    if events == [] then 0
    else
      OversizedIn(c, events[..|events| - 1])
      + One(events[|events| - 1].SendPacket? && |events[|events| - 1].packet| > c.maxPacketSize)
  }

  function FragmentsIn(c: Config, events: seq<Event>): nat
    requires c.Valid()
  {
    if events == [] then 0
    else
      FragmentsIn(c, events[..|events| - 1])
      + if events[|events| - 1].SendPacket? then FragmentsFor(c, |events[|events| - 1].packet|) else 0
  }

  lemma SendGain(c: Config, st: State, e: Event)
    requires c.Valid() && CanSend(c) && StateInv(c, st) && Legal(e)
    ensures var g := Gain(c, st, e);
            && g.packetsSent == One(e.SendPacket? && |e.packet| <= c.maxPacketSize)
            && g.packetsTooLargeToSend == One(e.SendPacket? && |e.packet| > c.maxPacketSize)
            && g.fragmentsSent == if e.SendPacket? then FragmentsFor(c, |e.packet|) else 0
  {
    hide Step, WholeFate, FateOfFragment, FragmentsFor, ReassemblyInv;
  }

  /** The counters of the send side hold those numbers. */
  ghost predicate SendSideIs(c: Config, n: Counters, calls: seq<Event>)
    requires c.Valid()
  {
    && n.packetsSent == PacketsIn(c, calls) && n.packetsTooLargeToSend == OversizedIn(c, calls)
    && n.fragmentsSent == FragmentsIn(c, calls)
  }

  lemma OneMoreCall(c: Config, n: Counters, gain: Counters, calls: seq<Event>, e: Event)
    requires c.Valid() && SendSideIs(c, n, calls)
    requires gain.packetsSent == One(e.SendPacket? && |e.packet| <= c.maxPacketSize)
    requires gain.packetsTooLargeToSend == One(e.SendPacket? && |e.packet| > c.maxPacketSize)
    requires gain.fragmentsSent == if e.SendPacket? then FragmentsFor(c, |e.packet|) else 0
    ensures SendSideIs(c, Plus(n, gain), calls + [e])
  {
    hide FragmentsFor;
    assert (calls + [e])[..|calls|] == calls;
  }

  /** In every run the counters of the send side are those numbers, whatever was received. */
  lemma {:induction false} SendCountersCount(c: Config, time: real, events: seq<Event>)
    requires c.Valid() && CanSend(c) && LegalRun(events)
    ensures var n, calls := StateAfter(c, time, events).counters, SinceReset(events);
            && n.packetsSent == PacketsIn(c, calls) && n.packetsTooLargeToSend == OversizedIn(c, calls)
            && n.fragmentsSent == FragmentsIn(c, calls)
    decreases |events|
  {
    SendSideCounts(c, time, events);
  }

  lemma {:induction false} SendSideCounts(c: Config, time: real, events: seq<Event>)
    requires c.Valid() && CanSend(c) && LegalRun(events)
    ensures SendSideIs(c, StateAfter(c, time, events).counters, SinceReset(events))
    decreases |events|
  {
    hide StateAfter, Gain, StateInv, Plus, PacketsIn, OversizedIn, FragmentsIn, SendSideIs;
    CountersCount(c, time, events);
    if events == [] || events[|events| - 1].Reset? {
      NothingSent(c);
    } else {
      var front, last := events[..|events| - 1], events[|events| - 1];
      SendSideCounts(c, time, front);
      CountersCount(c, time, front);
      SendGain(c, StateAfter(c, time, front), last);
      OneMoreCall(c, Tally(c, time, front), Gain(c, StateAfter(c, time, front), last), SinceReset(front), last);
    }
  }

  lemma NothingSent(c: Config)
    requires c.Valid()
    ensures SendSideIs(c, Counters(0, 0, 0, 0, 0, 0, 0, 0, 0, 0, 0), [])
  {
  }
}
