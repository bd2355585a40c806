/** The send side over whole runs: what the sent buffer holds, which acks are reported and how often, and what the
    packet loss estimate counts. */
module SendSide {
  import opened Wrappers
  import opened Sequence
  import opened Codec
  import opened CodecLaws
  import opened Buffers
  import opened Windows
  import opened Reassembly
  import opened Protocol
  import opened Invariants
  import opened ReceiveSide

  type SentBuffer = Buffer<SentPacketData>

  // ---------------------------------------------------------------- one header

  /** A tracked packet that is not acked yet. */
  predicate Unacked(b: SentBuffer, s: u16)
    requires b.WellFormed()
  {
    b.Find(s).Some? && !b.Find(s).value.acked
  }

  /** The sequence that bit `j` of a header stands for. */
  function BitNumber(ack: u16, j: nat): u16 {
    Wrap(ack - j)
  }

  /** The sequences a header acknowledges, from bit `i` on. */
  function AckedList(ack: u16, ackBits: nat, i: nat): seq<u16>
    requires i <= 32
    decreases 32 - i, ackBits
  {
    if i == 32 then []
    else (if ackBits % 2 == 1 then [BitNumber(ack, i)] else []) + AckedList(ack, ackBits / 2, i + 1)
  }

  /** Bit `j` is one of the bits from `i` on that are left in `ackBits`, and it stands for `s`. */
  ghost predicate Acknowledges(ack: u16, ackBits: nat, i: nat, j: nat, s: u16) {
    i <= j < 32 && Bit(ackBits, j - i) && BitNumber(ack, j) == s
  }

  lemma {:induction false} AckedListExactly(ack: u16, ackBits: nat, i: nat, s: u16)
    requires i <= 32
    ensures s in AckedList(ack, ackBits, i) <==> exists j: nat :: Acknowledges(ack, ackBits, i, j, s)
    decreases 32 - i
  {
    if i < 32 {
      AckedListExactly(ack, ackBits / 2, i + 1, s);
      forall j: nat
        ensures Acknowledges(ack, ackBits, i, j, s) <==>
                Acknowledges(ack, ackBits / 2, i + 1, j, s) || (j == i && ackBits % 2 == 1 && BitNumber(ack, i) == s)
      {
        BitsShift(ackBits, i, j);
      }
      if ackBits % 2 == 1 && BitNumber(ack, i) == s {
        assert Acknowledges(ack, ackBits, i, i, s);
      }
      var half, next := ackBits / 2, i + 1;
      if j: nat :| Acknowledges(ack, half, next, j, s) {
        assert Acknowledges(ack, ackBits, i, j, s);
      }
    }
  }

  lemma BitsShift(x: nat, i: nat, j: nat)
    ensures i < j ==> (Bit(x, j - i) <==> Bit(x / 2, j - (i + 1)))
    ensures Bit(x, 0) <==> x % 2 == 1
  {
  }

  lemma LaterBitsDiffer(ack: u16, i: nat, j: nat)
    requires i < j < 32
    ensures BitNumber(ack, j) != BitNumber(ack, i)
  {
    if Wrap(ack - j) == Wrap(ack - i) {
      CloseNumbersWrapApart(ack - j, ack - i);
    }
  }

  ghost predicate Distinct(s: seq<u16>) {
    forall x, y :: 0 <= x < y < |s| ==> s[x] != s[y]
  }

  lemma {:induction false} AckedListDistinct(ack: u16, ackBits: nat, i: nat)
    requires i <= 32
    ensures Distinct(AckedList(ack, ackBits, i))
    decreases 32 - i
  {
    if i < 32 {
      AckedListDistinct(ack, ackBits / 2, i + 1);
      var head := BitNumber(ack, i);
      AckedListExactly(ack, ackBits / 2, i + 1, head);
      var half, next := ackBits / 2, i + 1;
      if j: nat :| Acknowledges(ack, half, next, j, head) {
        LaterBitsDiffer(ack, i, j);
      }
    }
  }

  /** Acks one sequence after the other. */
  function AckAll(c: Config, st: State, q: seq<u16>): (st': State)
    requires st.sent.WellFormed()
    ensures st'.sent.WellFormed()
    decreases |q|
  {
    if q == [] then st else AckAll(c, AckOne(c, st, q[0]), q[1..])
  }

  lemma {:induction false} ProcessIsAckAll(c: Config, st: State, ack: u16, ackBits: u32, i: nat)
    requires st.sent.WellFormed() && i <= 32
    ensures ProcessAcks(c, st, ack, ackBits, i) == AckAll(c, st, AckedList(ack, ackBits, i))
    decreases 32 - i
  {
    if i < 32 {
      var rest := AckedList(ack, ackBits / 2, i + 1);
      if ackBits % 2 == 1 {
        ProcessIsAckAll(c, AckOne(c, st, Wrap(ack - i)), ack, ackBits / 2, i + 1);
        assert ([BitNumber(ack, i)] + rest)[1..] == rest;
      } else {
        ProcessIsAckAll(c, st, ack, ackBits / 2, i + 1);
        assert [] + rest == rest;
      }
    }
  }

  /** The unacked ones among them, in order. */
  function Pending(b: SentBuffer, q: seq<u16>): seq<u16>
    requires b.WellFormed()
  {
    if q == [] then [] else (if Unacked(b, q[0]) then [q[0]] else []) + Pending(b, q[1..])
  }

  lemma {:induction false} PendingExactly(b: SentBuffer, q: seq<u16>, s: u16)
    requires b.WellFormed()
    ensures s in Pending(b, q) <==> s in q && Unacked(b, s)
  {
    if q != [] {
      PendingExactly(b, q[1..], s);
      assert q == [q[0]] + q[1..];
    }
  }

  lemma {:induction false} PendingDistinct(b: SentBuffer, q: seq<u16>)
    requires b.WellFormed() && Distinct(q)
    ensures Distinct(Pending(b, q))
  {
    if q != [] {
      assert Distinct(q[1..]);
      PendingDistinct(b, q[1..]);
      PendingExactly(b, q[1..], q[0]);
    }
  }

  lemma FindAfterPut(b: SentBuffer, s: u16, v: SentPacketData, t: u16)
    requires b.WellFormed() && b.Exists(s)
    ensures b.Put(s, v).Find(t) == if t == s then Some(v) else b.Find(t)
  {
  }

  /** Marking one packet does not change what is pending elsewhere. */
  lemma {:induction false} PendingAfterPut(b: SentBuffer, s: u16, v: SentPacketData, q: seq<u16>)
    requires b.WellFormed() && b.Exists(s) && s !in q
    ensures Pending(b.Put(s, v), q) == Pending(b, q)
  {
    if q != [] {
      FindAfterPut(b, s, v, q[0]);
      PendingAfterPut(b, s, v, q[1..]);
    }
  }

  /** The first `room` elements. */
  function First(s: seq<u16>, room: int): seq<u16> {
    s[..if room < 0 then 0 else if room < |s| then room else |s|]
  }

  /** `sent` after the packets of `s` have been marked. */
  ghost predicate Marked(before: SentBuffer, after: SentBuffer, s: seq<u16>) {
    && before.WellFormed() && after.WellFormed() && after.Size() == before.Size() && after.sequence == before.sequence
    && after.slots == before.slots && after.blank == before.blank
    && (forall i :: 0 <= i < after.Size() && after.slots[i].None? ==> after.entries[i] == before.entries[i])
    && (forall t: u16 :: after.Find(t) == MarkedEntry(before, s, t))
  }

  ghost function MarkedEntry(before: SentBuffer, s: seq<u16>, t: u16): Option<SentPacketData>
    requires before.WellFormed()
  {
    match before.Find(t)
    case None => None
    case Some(d) => Some(if t in s then d.(acked := true) else d)
  }

  /** Acking a list in closed form: the pending packets are reported in order, as many as the ack buffer has room
      for; exactly those become acked, and the rest stay as they were. */
  lemma {:induction false} AckAllInClosedForm(c: Config, st: State, q: seq<u16>)
    requires st.sent.WellFormed() && Distinct(q)
    ensures var st' := AckAll(c, st, q);
            var reported := First(Pending(st.sent, q), c.ackBufferSize - |st.acks|);
            && st'.acks == st.acks + reported
            && st'.counters.packetsAcked == st.counters.packetsAcked + |reported|
            && Marked(st.sent, st'.sent, reported)
    decreases |q|
  {
    if q != [] {
      var s, rest := q[0], Pending(st.sent, q[1..]);
      var room := c.ackBufferSize - |st.acks|;
      assert Distinct(q[1..]) && s !in q[1..];
      if Unacked(st.sent, s) && room > 0 {
        var v := st.sent.Find(s).value.(acked := true);
        var st1 := AckOne(c, st, s);
        AckAllInClosedForm(c, st1, q[1..]);
        PendingAfterPut(st.sent, s, v, q[1..]);
        assert First([s] + rest, room) == [s] + First(rest, room - 1);
        MarkedInTwoSteps(st.sent, s, v, AckAll(c, st1, q[1..]).sent, First(rest, room - 1));
      } else {
        AckAllInClosedForm(c, st, q[1..]);
        assert !Unacked(st.sent, s) ==> Pending(st.sent, q) == rest;
        assert Unacked(st.sent, s) ==> First([s] + rest, room) == [] == First(rest, room);
      }
    }
  }

  lemma MarkedInTwoSteps(b: SentBuffer, s: u16, v: SentPacketData, b2: SentBuffer, rest: seq<u16>)
    requires b.WellFormed() && b.Exists(s) && b.Find(s).Some? && v == b.Find(s).value.(acked := true)
    requires Marked(b.Put(s, v), b2, rest)
    ensures Marked(b, b2, [s] + rest)
  {
    forall t: u16
      ensures b2.Find(t) == MarkedEntry(b, [s] + rest, t)
    {
      FindAfterPut(b, s, v, t);
      assert b2.Find(t) == MarkedEntry(b.Put(s, v), rest, t);
    }
  }

  /** What a header reports when it is processed: the packets whose bit is set and that are tracked and unacked, in the
      order of their bits, as many as the ack buffer has room for. */
  ghost function ReportedBy(c: Config, st: State, ack: u16, ackBits: u32): seq<u16>
    requires st.sent.WellFormed()
  {
    First(Pending(st.sent, AckedList(ack, ackBits, 0)), c.ackBufferSize - |st.acks|)
  }

  lemma AcksInClosedForm(c: Config, st: State, ack: u16, ackBits: u32)
    requires st.sent.WellFormed()
    ensures var st' := ProcessAcks(c, st, ack, ackBits, 0);
            var reported := ReportedBy(c, st, ack, ackBits);
            && st'.acks == st.acks + reported && Distinct(reported)
            && st'.counters.packetsAcked == st.counters.packetsAcked + |reported|
            && Marked(st.sent, st'.sent, reported)
            && (forall s :: s in reported ==> Unacked(st.sent, s) && exists j: nat ::
                Acknowledges(ack, ackBits, 0, j, s))
  {
    var q := AckedList(ack, ackBits, 0);
    ProcessIsAckAll(c, st, ack, ackBits, 0);
    AckedListDistinct(ack, ackBits, 0);
    AckAllInClosedForm(c, st, q);
    PendingDistinct(st.sent, q);
    forall s | s in ReportedBy(c, st, ack, ackBits)
      ensures Unacked(st.sent, s) && exists j: nat :: Acknowledges(ack, ackBits, 0, j, s)
    {
      PendingExactly(st.sent, q, s);
      AckedListExactly(ack, ackBits, 0, s);
    }
  }

  // ---------------------------------------------------------------- one received datagram

  /** What a received datagram does to the sent side: nothing, unless a header was processed. */
  ghost predicate AckStep(c: Config, st: State, st': State, header: Option<PacketHeader>) {
    && st.sent.WellFormed()
    && match header
       case None => st'.sent == st.sent && st'.acks == st.acks && st'.counters.packetsAcked == st.counters.packetsAcked
       case Some(h) =>
         var reported := ReportedBy(c, st, h.ack, h.ackBits);
         && st'.acks == st.acks + reported
         && st'.counters.packetsAcked == st.counters.packetsAcked + |reported|
         && Marked(st.sent, st'.sent, reported)
  }

  /** A packet whose bit is set in a processed header and that is still tracked ends up acked, and is reported if that
      is new, unless the ack buffer is full afterwards; then it stays as it was, to be reported by a later header. */
  lemma AckedUnlessFull(c: Config, st: State, st': State, h: PacketHeader, j: nat, s: u16)
    requires AckStep(c, st, st', Some(h)) && Acknowledges(h.ack, h.ackBits, 0, j, s) && st.sent.Exists(s)
    requires |st.acks| <= c.ackBufferSize
    ensures st'.sent.WellFormed() && st'.sent.Exists(s) && |st.acks| <= |st'.acks|
    ensures Unacked(st'.sent, s) ==> |st'.acks| == c.ackBufferSize && st'.sent.Find(s) == st.sent.Find(s)
    ensures !Unacked(st'.sent, s) && Unacked(st.sent, s) ==> s in st'.acks[|st.acks|..]
  {
    var reported := ReportedBy(c, st, h.ack, h.ackBits);
    assert st'.sent.Find(s) == MarkedEntry(st.sent, reported, s);
    assert st'.acks[|st.acks|..] == reported;
    AckedListExactly(h.ack, h.ackBits, 0, s);
    PendingExactly(st.sent, AckedList(h.ack, h.ackBits, 0), s);
  }

  lemma AcceptAcks(c: Config, st: State, h: PacketHeader, size: nat)
    requires Sized(c, st) && !st.received.Stale(h.sequence) && c.packetHeaderSize + size < 0x1_0000_0000
    ensures AckStep(c, st, Accept(c, st, h, size), Some(h))
  {
    var st1 := st.(received := st.received.Insert(h.sequence, ReceivedEntry(c, st, size)).value,
                   reassembly := st.reassembly.Advance(h.sequence));
    AcksInClosedForm(c, st1, h.ack, h.ackBits);
  }

  /** The header that a regular packet has processed: that of the packet, if the packet is accepted. */
  function ProcessedHeader(r: Receiving, data: bytes): Option<PacketHeader> {
    if AcceptedOf(r).Some? then DecodeHeader(data) else None
  }

  lemma WholeAcks(c: Config, st: State, data: bytes, process: Process)
    requires c.Valid() && Sized(c, st)
    ensures var r := ReceiveWhole(c, st, data, process); AckStep(c, st, r.state, ProcessedHeader(r, data))
  {
    if |data| <= c.LongestDatagram() && DecodeHeader(data).Some? {
      var h := DecodeHeader(data).value;
      PayloadAcks(c, CountPacket(st), h, data[h.size..], |data|, process);
    }
  }

  lemma PayloadAcks(c: Config, st: State, h: PacketHeader, payload: bytes, size: nat, process: Process)
    requires c.Valid() && Sized(c, st) && size <= c.LongestDatagram()
    ensures var r := ReceivePayload(c, st, h, payload, size, process);
            AckStep(c, st, r.state, if AcceptedOf(r).Some? then Some(h) else None)
  {
    if !st.received.Stale(h.sequence) {
      AcceptAcks(c, st, h, size);
    }
  }

  lemma FinishAcks(c: Config, st: State, s: u16, d: FragmentReassemblyData, process: Process)
    returns (header: Option<PacketHeader>)
    requires c.Valid() && Sized(c, st) && SlotShape(d, s, c.fragmentSize)
    ensures var r := FinishSlot(c, st, s, d, process);
            && AckStep(c, st, r.state, header)
            && (header.Some? <==> AcceptedOf(r).Some?)
            && (header.Some? ==> d.numFragmentsReceived == d.numFragmentsTotal
                                 && HoldsHeader(d, s, header.value.ack, header.value.ackBits))
  {
    header := None;
    if d.numFragmentsReceived == d.numFragmentsTotal {
      var ack, ackBits := CompleteHasHeader(d, s, c.fragmentSize);
      ReassembledReads(d, s, ack, ackBits);
      var st0 := SetEntry(st, s, d.(packetData := []));
      WholeAcks(c, st0, Reassembled(d), process);
      CallOfWhole(c, st0, Reassembled(d), process);
      header := ProcessedHeader(ReceiveWhole(c, st0, Reassembled(d), process), Reassembled(d));
    }
  }

  /** `h` is the header that a datagram has processed when its packet is accepted: its own if it is regular, otherwise
      the one that the slot it fills up has kept from fragment 0. */
  ghost predicate HeaderOf(c: Config, st: State, data: bytes, h: PacketHeader)
    requires c.Valid() && Sized(c, st) && ReassemblyInv(c, st.reassembly) && |data| > 0
  {
    if data[0] % 2 == 0 then DecodeHeader(data) == Some(h)
    else
      && DecodeFragment(data, c.maxFragments, c.fragmentSize).Some? && Filled(c, st, data).Some?
      && HoldsHeader(Filled(c, st, data).value, DecodeFragment(data, c.maxFragments, c.fragmentSize).value.sequence,
                     h.ack, h.ackBits)
  }

  /** A datagram has acks processed exactly when its packet is accepted, and which header they come from. */
  lemma ReceiveAcks(c: Config, st: State, data: bytes, process: Process) returns (header: Option<PacketHeader>)
    requires c.Valid() && Sized(c, st) && ReassemblyInv(c, st.reassembly) && |data| > 0
    ensures AckStep(c, st, Receive(c, st, data, process).state, header)
    ensures header.Some? <==> AcceptedOf(Receive(c, st, data, process)).Some?
    ensures header.Some? ==> HeaderOf(c, st, data, header.value)
  {
    hide AckStep, StoreInSlot, OpenSlot, FilledSlot, ReassemblyInv, DecodeFragment, DecodeHeader, HoldsHeader;
    header := None;
    if |data| > c.LongestDatagram() {
      NothingAcked(c, st, TooLarge(st));
    } else if data[0] % 2 == 0 {
      WholeAcks(c, st, data, process);
      CallOfWhole(c, st, data, process);
      header := ProcessedHeader(ReceiveWhole(c, st, data, process), data);
    } else if DecodeFragment(data, c.maxFragments, c.fragmentSize).Some? {
      var f := DecodeFragment(data, c.maxFragments, c.fragmentSize).value;
      if st.received.Exists(f.sequence) {
        NothingAcked(c, st, st);
      } else if OpenSlot(c, st, f).Some? {
        AcceptedFragmentIsLegal(data, c.maxFragments, c.fragmentSize);
        OpenSlotInv(c, st, f);
        var open := OpenSlot(c, st, f).value;
        header := StoreAcks(c, open, f, data, process);
        OpenKeepsSent(c, st, f, open, StoreInSlot(c, open, f, data, process).state, header);
      } else {
        NothingAcked(c, st, InvalidFragment(st));
      }
    } else {
      NothingAcked(c, st, InvalidFragment(st));
    }
  }

  lemma NothingAcked(c: Config, st: State, st': State)
    requires st.sent.WellFormed() && st'.sent == st.sent && st'.acks == st.acks
    requires st'.counters.packetsAcked == st.counters.packetsAcked
    ensures AckStep(c, st, st', None)
  {
  }

  lemma OpenKeepsSent(c: Config, st: State, f: FragmentHeader, open: State, st': State, header: Option<PacketHeader>)
    requires Sized(c, st) && OpenSlot(c, st, f) == Some(open) && AckStep(c, open, st', header)
    ensures AckStep(c, st, st', header)
  {
  }

  lemma StoreAcks(c: Config, st: State, f: FragmentHeader, data: bytes, process: Process)
    returns (header: Option<PacketHeader>)
    requires c.Valid() && Sized(c, st) && ReassemblyInv(c, st.reassembly) && st.reassembly.Exists(f.sequence)
    requires DecodeFragment(data, c.maxFragments, c.fragmentSize) == Some(f)
    ensures AckStep(c, st, StoreInSlot(c, st, f, data, process).state, header)
    ensures header.Some? <==> AcceptedOf(StoreInSlot(c, st, f, data, process)).Some?
    ensures header.Some? ==> FilledSlot(c, st, f, data).Some?
                             && HoldsHeader(FilledSlot(c, st, f, data).value, f.sequence, header.value.ack,
                                            header.value.ackBits)
  {
    hide DecodeFragment, FinishSlot, HoldsHeader, AckStep;
    header := None;
    var d := st.reassembly.entries[st.reassembly.Index(f.sequence)];
    SlotAt(c, st, f.sequence);
    AcceptedFragmentIsLegal(data, c.maxFragments, c.fragmentSize);
    if f.total == d.numFragmentsTotal && !d.fragmentReceived[f.id] {
      ShapeAfterStore(d, f, FragmentPayload(data, f), c.maxFragments, c.fragmentSize);
      StoredData(d, f, FragmentPayload(data, f), c.maxFragments, c.fragmentSize);
      header := FinishAcks(c, st, f.sequence, Received(d, f, c.fragmentSize, data[FRAGMENT_HEADER_BYTES..]), process);
    } else if f.total == d.numFragmentsTotal {
      NothingAcked(c, st, st);
    } else {
      NothingAcked(c, st, InvalidFragment(st));
    }
  }

  // ---------------------------------------------------------------- runs

  /** An endpoint, how many packets it has sent, and the packet numbers it has ever reported as acked, in order. */
  datatype SendHistory = SendHistory(state: State, total: nat, reported: seq<int>)

  function Numbers(total: nat, s: seq<u16>): seq<int> {
    seq(|s|, i requires 0 <= i < |s| => Unwrap(total, s[i]))
  }

  predicate Sends(c: Config, e: Event) {
    e.SendPacket? && |e.packet| <= c.maxPacketSize
  }

  function ObserveSent(c: Config, h: SendHistory, e: Event): SendHistory
    requires c.Valid() && CanSend(c) && StateInv(c, h.state) && Legal(e)
  {
    var st' := Step(c, h.state, e);
    var added := if e.ReceivePacket? && |h.state.acks| <= |st'.acks| then st'.acks[|h.state.acks|..] else [];
    SendHistory(st', if Sends(c, e) then h.total + 1 else h.total, h.reported + Numbers(h.total, added))
  }

  function SentPast(c: Config, time: real, events: seq<Event>): (h: SendHistory)
    requires c.Valid() && CanSend(c) && Running(events)
    ensures StateInv(c, h.state)
    decreases |events|
  {
    if events == [] then InitInv(c, time); SendHistory(Init(c, time), 0, [])
    else
      var before := SentPast(c, time, events[..|events| - 1]);
      StepKeepsInv(c, before.state, events[|events| - 1]);
      ObserveSent(c, before, events[|events| - 1])
  }

  /** The sent buffer holds exactly the last packets sent, as many as it has room for, and a packet it holds is
      acked exactly if its number has been reported. */
  ghost predicate TracksWindow(b: SentBuffer, total: nat, reported: seq<int>) {
    && Inv(b, total) && Fits(b.Size())
    && (forall k :: k in Live(b, total) <==> 0 <= k && total - b.Size() <= k < total)
    && (forall k :: k in Live(b, total) ==> (Abs(b, total).live[k].acked <==> k in reported))
  }

  /** No number is reported twice, the counter is their number, and what the caller sees is the newest part. */
  ghost predicate LogOk(acks: seq<u16>, packetsAcked: nat, total: nat, reported: seq<int>) {
    && (forall i, j :: 0 <= i < j < |reported| ==> reported[i] != reported[j])
    && (forall i :: 0 <= i < |reported| ==> 0 <= reported[i] < total)
    && packetsAcked == |reported| && |acks| <= |reported|
    && (forall i :: 0 <= i < |acks| ==> acks[i] == Wrap(reported[|reported| - |acks| + i]))
  }

  ghost predicate SendInv(c: Config, h: SendHistory) {
    && StateInv(c, h.state)
    && TracksWindow(h.state.sent, h.total, h.reported)
    && LogOk(h.state.acks, h.state.counters.packetsAcked, h.total, h.reported)
  }

  lemma {:induction false} SentPastHolds(c: Config, time: real, events: seq<Event>)
    requires c.Valid() && CanSend(c) && Running(events) && Fits(c.sentPacketsBufferSize)
    ensures SendInv(c, SentPast(c, time, events))
    decreases |events|
  {
    if events == [] {
      InitInv(c, time);
      EmptyRefines(c.sentPacketsBufferSize, NO_SENT);
    } else {
      SentPastHolds(c, time, events[..|events| - 1]);
      ObserveKeepsSendInv(c, SentPast(c, time, events[..|events| - 1]), events[|events| - 1]);
    }
  }

  lemma ObserveKeepsSendInv(c: Config, h: SendHistory, e: Event)
    requires c.Valid() && CanSend(c) && Legal(e) && !e.Reset? && SendInv(c, h)
    ensures SendInv(c, ObserveSent(c, h, e))
  {
    StepKeepsInv(c, h.state, e);
    if e.SendPacket? {
      SendObserved(c, h, e);
    } else if e.ReceivePacket? {
      var header := ReceiveAcks(c, h.state, e.data, e.process);
      ReportsKeepSendInv(c, h, ObserveSent(c, h, e), header);
    } else {
      assert ObserveSent(c, h, e).reported == h.reported;
    }
  }

  lemma SendObserved(c: Config, h: SendHistory, e: Event)
    requires c.Valid() && CanSend(c) && Legal(e) && e.SendPacket? && SendInv(c, h)
    requires StateInv(c, Step(c, h.state, e))
    ensures SendInv(c, ObserveSent(c, h, e))
  {
    hide Buffer.Insert, Windows.Abs, Windows.Inv, Protocol.Datagrams;
    NextFits(c, h.state);
    var h' := ObserveSent(c, h, e);
    assert h'.reported == h.reported;
    if Sends(c, e) {
      var size := |e.packet|;
      assert h'.state == AfterSend(c, h.state, size, FragmentCount(c, size));
      SendTracks(c, h.state, h.total, h.reported, size, FragmentCount(c, size));
    }
  }

  lemma SendTracks(c: Config, st: State, total: nat, reported: seq<int>, size: nat, fragments: nat)
    requires c.Valid() && Sized(c, st) && st.sent.sequence == st.sequence
    requires size <= c.maxPacketSize && !st.sent.Stale(st.sequence)
    requires TracksWindow(st.sent, total, reported)
    requires forall i :: 0 <= i < |reported| ==> reported[i] < total
    ensures TracksWindow(AfterSend(c, st, size, fragments).sent, total + 1, reported)
  {
    hide Buffer.Insert, Windows.Abs, Windows.Inv;
    TracksNext(st.sent, total, SentPacketData(st.time, false, c.packetHeaderSize + size), reported);
  }

  /** Inserting the next packet number moves the window on by one. */
  lemma TracksNext(b: SentBuffer, total: nat, entry: SentPacketData, reported: seq<int>)
    requires TracksWindow(b, total, reported) && !b.Stale(b.sequence) && !entry.acked
    requires forall i :: 0 <= i < |reported| ==> reported[i] < total
    ensures TracksWindow(b.Insert(b.sequence, entry).value, total + 1, reported)
  {
    UnwrapIs(total, total);
    InsertRefines(b, total, b.sequence, entry);
    NextWindow(Abs(b, total), b.Size(), total, entry, reported);
  }

  lemma NextWindow(w: Window<SentPacketData>, n: nat, total: nat, entry: SentPacketData, reported: seq<int>)
    requires w.high == total && n > 0 && !entry.acked
    requires forall i :: 0 <= i < |reported| ==> reported[i] < total
    requires forall k :: k in w.live <==> 0 <= k && total - n <= k < total
    requires forall k :: k in w.live ==> (w.live[k].acked <==> k in reported)
    ensures var w' := SetAt(w, n, total, entry);
            && (forall k :: k in w'.live <==> 0 <= k && total + 1 - n <= k < total + 1)
            && (forall k :: k in w'.live ==> (w'.live[k].acked <==> k in reported))
  {
  }

  lemma ReportsKeepSendInv(c: Config, h: SendHistory, h': SendHistory, header: Option<PacketHeader>)
    requires c.Valid() && SendInv(c, h) && StateInv(c, h'.state) && AckStep(c, h.state, h'.state, header)
    requires h'.total == h.total && |h.state.acks| <= |h'.state.acks|
    requires h'.reported == h.reported + Numbers(h.total, h'.state.acks[|h.state.acks|..])
    ensures SendInv(c, h')
  {
    hide TracksWindow, LogOk, ReassemblyInv, ReportedBy, Marked, Numbers;
    var st, st' := h.state, h'.state;
    if header.None? {
      NothingReported(h.total, h.reported);
      assert st'.acks[|st.acks|..] == [];
    } else {
      var reported := ReportedBy(c, st, header.value.ack, header.value.ackBits);
      AcksInClosedForm(c, st, header.value.ack, header.value.ackBits);
      assert st'.acks[|st.acks|..] == reported;
      NewReports(c, h, reported);
      LogGrows(st.acks, st.counters.packetsAcked, h.total, h.reported, reported);
      MarkedTracks(st.sent, h.total, st'.sent, h.reported, reported);
    }
  }

  lemma NothingReported(total: nat, before: seq<int>)
    ensures before + Numbers(total, []) == before
  {
  }

  /** New reports keep the record of all reports. */
  lemma LogGrows(acks: seq<u16>, packetsAcked: nat, total: nat, before: seq<int>, reported: seq<u16>)
    requires LogOk(acks, packetsAcked, total, before)
    requires var n := Numbers(total, reported);
             && (forall i :: 0 <= i < |n| ==> n[i] !in before && 0 <= n[i] < total && Wrap(n[i]) == reported[i])
             && (forall i, j :: 0 <= i < j < |n| ==> n[i] != n[j])
    ensures LogOk(acks + reported, packetsAcked + |reported|, total, before + Numbers(total, reported))
  {
    hide Unwrap, Wrap;
  }

  lemma MarkedTracks(b: SentBuffer, total: nat, b': SentBuffer, before: seq<int>, reported: seq<u16>)
    requires TracksWindow(b, total, before) && Marked(b, b', reported)
    ensures TracksWindow(b', total, before + Numbers(total, reported))
  {
    MarkedWindow(b, total, b', reported);
    forall k | k in Live(b', total)
      ensures Abs(b', total).live[k].acked <==> k in before + Numbers(total, reported)
    {
      ReportedNumber(total, reported, k);
    }
  }

  /** What a header reports are numbers of the window that were never reported before, each of them once. */
  lemma NewReports(c: Config, h: SendHistory, reported: seq<u16>)
    requires SendInv(c, h) && Distinct(reported) && forall s :: s in reported ==> Unacked(h.state.sent, s)
    ensures var n := Numbers(h.total, reported);
            && (forall i :: 0 <= i < |n| ==> n[i] !in h.reported && 0 <= n[i] < h.total && Wrap(n[i]) == reported[i])
            && (forall i, j :: 0 <= i < j < |n| ==> n[i] != n[j])
  {
    var n := Numbers(h.total, reported);
    forall i | 0 <= i < |n|
      ensures n[i] !in h.reported && 0 <= n[i] < h.total && Wrap(n[i]) == reported[i]
    {
      assert reported[i] in reported;
      FindRefines(h.state.sent, h.total, reported[i]);
    }
  }

  lemma ReportedNumber(total: nat, reported: seq<u16>, k: int)
    requires total - 32768 <= k < total
    ensures k in Numbers(total, reported) <==> Wrap(k) in reported
  {
    var n := Numbers(total, reported);
    if Wrap(k) in reported {
      var i :| 0 <= i < |reported| && reported[i] == Wrap(k);
      UnwrapIs(total, k);
      assert n[i] == k;
    }
    if k in n {
      var i :| 0 <= i < |n| && n[i] == k;
      assert reported[i] == Wrap(k);
    }
  }

  /** Marking packets leaves the window as it is and changes only their entries. */
  lemma MarkedWindow(before: SentBuffer, high: int, after: SentBuffer, s: seq<u16>)
    requires Inv(before, high) && Marked(before, after, s)
    ensures Inv(after, high) && Live(after, high) == Live(before, high)
    ensures forall k :: k in Live(before, high) ==>
              Abs(after, high).live[k] == (if Wrap(k) in s then Abs(before, high).live[k].(acked := true)
                                           else Abs(before, high).live[k])
  {
    forall i | 0 <= i < after.Size() && after.slots[i].Some?
      ensures SlotInWindow(after, high, i)
    {
      assert SlotInWindow(before, high, i);
    }
    forall k | k in Live(before, high)
      ensures k in Live(after, high)
      ensures Abs(after, high).live[k] == (if Wrap(k) in s then Abs(before, high).live[k].(acked := true)
                                           else Abs(before, high).live[k])
    {
      assert after.Find(Wrap(k)) == MarkedEntry(before, s, Wrap(k));
    }
  }

  // ---------------------------------------------------------------- results

  /** A number of the window: it is found exactly if it was sent, and it is acked exactly if it was reported. */
  lemma TrackedAt(b: SentBuffer, total: nat, reported: seq<int>, k: int)
    requires TracksWindow(b, total, reported) && total - b.Size() <= k < total
    ensures b.Find(Wrap(k)).Some? <==> 0 <= k
    ensures b.Find(Wrap(k)).Some? ==> (b.Find(Wrap(k)).value.acked <==> k in reported)
  {
    UnwrapIs(total, k);
    assert k in Live(b, total) <==> 0 <= k;
    FindRefines(b, total, Wrap(k));
  }

  /** No sent packet is ever reported twice, the counter counts the reports, the acks never outgrow their buffer, and
      a packet still tracked is marked acked exactly if it was reported. */
  lemma AcksAreReportedOnce(c: Config, time: real, events: seq<Event>, i: nat, j: nat, k: int)
    requires c.Valid() && CanSend(c) && Running(events) && Fits(c.sentPacketsBufferSize)
    ensures var h := SentPast(c, time, events);
            && |h.state.acks| <= c.ackBufferSize
            && h.state.counters.packetsAcked == |h.reported|
            && (i < j < |h.reported| ==> h.reported[i] != h.reported[j])
            && (0 <= k && h.total - c.sentPacketsBufferSize <= k < h.total ==>
                  && h.state.sent.Find(Wrap(k)).Some?
                  && (h.state.sent.Find(Wrap(k)).value.acked <==> k in h.reported))
  {
    SentPastHolds(c, time, events);
    var h := SentPast(c, time, events);
    if 0 <= k && h.total - c.sentPacketsBufferSize <= k < h.total {
      TrackedAt(h.state.sent, h.total, h.reported, k);
    }
  }

  lemma SampleNumber(sequence: u16, total: int, n: nat, i: nat)
    requires sequence == Wrap(total)
    ensures Wrap(Wrap(sequence - n) + i) == Wrap(total - n + i)
  {
    WrapOfSum(total, 0 - n);
    WrapOfSum(total - n, i);
  }

  /** Whether the `i`-th sample of the loss estimate is a packet that was sent, and whether it was acked. */
  lemma LossSampleIs(b: SentBuffer, total: nat, reported: seq<int>, i: nat)
    requires TracksWindow(b, total, reported) && i < b.Size()
    ensures var k := total - b.Size() + i;
            && (LossSample(b, i).Some? <==> 0 <= k)
            && (LossSample(b, i).Some? ==> (LossSample(b, i).value.acked <==> k in reported))
  {
    hide Wrap, Buffer.Index, Buffer.Exists, Buffer.Find;
    SampleNumber(b.sequence, total, b.Size(), i);
    TrackedAt(b, total, reported, total - b.Size() + i);
  }

  /** The packet numbers from `from` up to `to` that were never reported as acked. */
  ghost function DroppedIn(from: int, to: int, reported: seq<int>): set<int> {
    set k | from <= k < to && 0 <= k && k !in reported
  }

  /** How many of the `n` numbers from `bottom` on are packet numbers. */
  function SentIn(bottom: int, n: nat): int {
    if bottom >= 0 then n else if bottom + n >= 0 then bottom + n else 0
  }

  /** The packet loss estimate counts exactly the packets sent in the oldest part of the window and those of them
      that were never acked. */
  lemma {:induction false} LossCountsExactly(b: SentBuffer, total: nat, reported: seq<int>, n: nat)
    requires TracksWindow(b, total, reported) && n <= b.Size()
    ensures var bottom := total - b.Size();
            && LossSent(b, n) == SentIn(bottom, n)
            && LossDropped(b, n) == |DroppedIn(bottom, bottom + n, reported)|
  {
    hide Windows.Abs, Windows.Inv, LossSample;
    hide TracksWindow;
    var bottom := total - b.Size();
    if n == 0 {
      assert DroppedIn(bottom, bottom, reported) == {};
    } else {
      LossCountsExactly(b, total, reported, n - 1);
      LossSampleIs(b, total, reported, n - 1);
      var k := bottom + n - 1;
      var dropped := DroppedIn(bottom, k, reported);
      assert DroppedIn(bottom, bottom + n, reported) == if 0 <= k && k !in reported then dropped + {k} else dropped;
    }
  }

  lemma TrackedPart(c: Config, h: SendHistory)
    requires SendInv(c, h)
    ensures h.state.sent.Size() == c.sentPacketsBufferSize && TracksWindow(h.state.sent, h.total, h.reported)
  {
    hide TracksWindow, ReassemblyInv;
  }

  /** In every reachable state the loss estimate looks at the oldest half of what the sent buffer has room for: it
      counts the packet numbers from there that were sent, and those among them that were never reported as acked. */
  lemma LossCountsOnEveryRun(c: Config, time: real, events: seq<Event>)
    requires c.Valid() && CanSend(c) && Running(events) && Fits(c.sentPacketsBufferSize)
    ensures var h, n := SentPast(c, time, events), c.sentPacketsBufferSize;
            var bottom := h.total - n;
            && h.state.sent.Size() == n
            && LossSent(h.state.sent, n / 2) == SentIn(bottom, n / 2)
            && LossDropped(h.state.sent, n / 2) == |DroppedIn(bottom, bottom + n / 2, h.reported)|
  {
    hide TracksWindow, SendInv, SentPast, StateInv, LossSent, LossDropped, SentIn, DroppedIn;
    SentPastHolds(c, time, events);
    var h := SentPast(c, time, events);
    TrackedPart(c, h);
    LossCountsExactly(h.state.sent, h.total, h.reported, c.sentPacketsBufferSize / 2);
  }
}
