/** Two endpoints and a network between them that loses, duplicates, reorders and delays datagrams at will but
    makes none up. */
module Network {
  import opened Wrappers
  import opened Sequence
  import opened Codec
  import opened CodecLaws
  import opened Buffers
  import opened Windows
  import opened Reassembly
  import opened Protocol
  import opened Invariants
  import opened ReceiveSide
  import opened SendSide

  // ---------------------------------------------------------------- the system

  /** A datagram on the network, with what an observer knows of it: the number of the packet it belongs to; the acks its
      packet header says; and of its sender, when it was sent, the receipt that was last under each sequence, how many
      receipts there were, and the high-water mark. */
  datatype Frame = Frame(
    number: nat,
    ack: u16,
    ackBits: u32,
    covers: map<u16, nat>,
    known: nat,
    mark: int,
    data: bytes)

  /** One acceptance: the peer's packet number that the accepted datagram belongs to, where the call to the process
      closure stands among all calls, for a packet put together the packet number of each of its fragments, and the
      receiver's high-water mark when the datagram came in. */
  datatype Receipt = Receipt(number: nat, index: nat, sources: seq<nat>, mark: int)

  /** What a reported ack rests on: a receipt of the peer, and how many packets had been sent by then. */
  datatype Evidence = Evidence(receipt: nat, sent: nat)

  /** An endpoint and its observed past: the packets it sent, by packet number; every datagram it ever put on the
      network; the packet numbers it reported as acked, and what each rests on; the calls to its process closure; its
      receipts, and the acceptances as its own window counts them, with the high-water mark; which receipt is the last
      under each sequence; and for each slot under reassembly the datagrams its fragments came in. */
  datatype Peer = Peer(
    state: State,
    packets: seq<bytes>,
    wire: set<Frame>,
    reported: seq<int>,
    evidence: seq<Evidence>,
    delivered: seq<Call>,
    receipts: seq<Receipt>,
    past: seq<Acceptance>,
    mark: int,
    latest: map<u16, nat>,
    parts: map<u16, map<nat, Frame>>)

  datatype System = System(a: Peer, b: Peer)

  datatype Action =
    | Send(fromA: bool, packet: bytes)
    | Deliver(toA: bool, frame: Frame, process: Process)
    | Clear(ofA: bool)
    | Tick(ofA: bool, time: real)

  /** The next datagram of a peer, except for its bytes. */
  function NextFrame(x: Peer): Frame
    requires x.state.received.WellFormed()
  {
    Frame(|x.packets|, x.state.received.Ack(), x.state.received.AckBits(), x.latest, |x.receipts|, x.mark, [])
  }

  ghost function FramesOf(f: Frame, datagrams: seq<bytes>): set<Frame> {
    set i: nat | i < |datagrams| :: f.(data := datagrams[i])
  }

  ghost function PeerSends(c: Config, x: Peer, packet: bytes): Peer
    requires c.Valid() && CanSend(c) && StateInv(c, x.state)
  {
    if packet == [] then x
    else
      NextFits(c, x.state);
      var st := x.state;
      var st' := Protocol.Send(c, st, packet).state;
      if |packet| > c.maxPacketSize then x.(state := st')
      else
        var datagrams := Datagrams(c, st.sequence, st.received.Ack(), st.received.AckBits(), packet);
        x.(state := st', packets := x.packets + [packet], wire := x.wire + FramesOf(NextFrame(x), datagrams))
  }

  /** The fragment that a datagram stores, if it stores one. */
  function StoredAs(c: Config, st: State, data: bytes): Option<FragmentHeader>
    requires c.Valid() && StateInv(c, st) && |data| > 0
  {
    if |data| > c.LongestDatagram() || data[0] % 2 == 0 then None
    else
      match DecodeFragment(data, c.maxFragments, c.fragmentSize)
      case None => None
      case Some(f) =>
        if st.received.Exists(f.sequence) then None
        else
          match OpenSlot(c, st, f)
          case None => None
          case Some(open) =>
            AcceptedFragmentIsLegal(data, c.maxFragments, c.fragmentSize);
            OpenSlotInv(c, st, f);
            var d := open.reassembly.entries[open.reassembly.Index(f.sequence)];
            if f.total == d.numFragmentsTotal && f.id < |d.fragmentReceived| && !d.fragmentReceived[f.id] then
              Some(f)
            else None
  }

  /** The datagrams that the fragments of a slot came in; none if the slot is yet to be set up. */
  function OldParts(x: Peer, s: u16): map<nat, Frame>
    requires x.state.reassembly.WellFormed()
  {
    if x.state.reassembly.Exists(s) && s in x.parts then x.parts[s] else map[]
  }

  /** The same after one more has been stored. */
  function SlotParts(x: Peer, h: FragmentHeader, f: Frame): map<nat, Frame>
    requires x.state.reassembly.WellFormed()
  {
    OldParts(x, h.sequence)[h.id := f]
  }

  /** What is known of the slots after a datagram. */
  function PartsAfter(c: Config, x: Peer, f: Frame): map<u16, map<nat, Frame>>
    requires c.Valid() && StateInv(c, x.state) && |f.data| > 0
  {
    match StoredAs(c, x.state, f.data)
    case None => x.parts
    case Some(h) => x.parts[h.sequence := SlotParts(x, h, f)]
  }

  /** The datagram whose packet header is processed when `f` makes a packet accepted. */
  function HeaderFrame(c: Config, x: Peer, f: Frame): Frame
    requires c.Valid() && StateInv(c, x.state) && |f.data| > 0
  {
    match StoredAs(c, x.state, f.data)
    case None => f
    case Some(h) => if 0 in SlotParts(x, h, f) then SlotParts(x, h, f)[0] else f
  }

  /** The packet numbers of the fragments that are complete when `f` makes a packet accepted; none if `f` is whole. */
  function SourcesOf(c: Config, x: Peer, f: Frame): seq<nat>
    requires c.Valid() && StateInv(c, x.state) && |f.data| > 0
  {
    match StoredAs(c, x.state, f.data)
    case None => []
    case Some(h) =>
      var parts := SlotParts(x, h, f);
      seq(h.total, i requires 0 <= i < h.total => if i in parts then parts[i].number else 0)
  }

  function EvidenceOf(covers: map<u16, nat>, sent: nat, s: u16): Evidence {
    Evidence(if s in covers then covers[s] else 0, sent)
  }

  /** The acks that a call added. */
  function AddedAcks(st: State, st': State): seq<u16> {
    if |st.acks| <= |st'.acks| then st'.acks[|st.acks|..] else []
  }

  /** What a datagram does to its receiver and to what is known of it. */
  function PeerReceives(c: Config, x: Peer, f: Frame, process: Process): Peer
    requires c.Valid() && StateInv(c, x.state)
  {
    if f.data == [] then x
    else
      var r := Receive(c, x.state, f.data, process);
      var acked := AddedAcks(x.state, r.state);
      var mark := MarkAfter(x.mark, x.state.received, r.state.received);
      var header := HeaderFrame(c, x, f);
      var accepted := AcceptedOf(r);
      x.(state := r.state,
         reported := x.reported + Numbers(|x.packets|, acked),
         evidence := x.evidence
                     + seq(|acked|, i requires 0 <= i < |acked| => EvidenceOf(header.covers, |x.packets|, acked[i])),
         delivered := x.delivered + r.calls,
         receipts := x.receipts
                     + (if accepted.Some? then [Receipt(f.number, |x.delivered|, SourcesOf(c, x, f), x.mark)]
                         else []),
         past := x.past + NewAcceptances(mark, accepted),
         mark := mark,
         latest := if accepted.Some? then x.latest[accepted.value := |x.receipts|] else x.latest,
         parts := PartsAfter(c, x, f))
  }

  /** The part of it that the endpoint itself has. */
  lemma PeerReceivesIs(c: Config, x: Peer, f: Frame, process: Process)
    requires c.Valid() && StateInv(c, x.state) && |f.data| > 0
    ensures var r, x' := Receive(c, x.state, f.data, process), PeerReceives(c, x, f, process);
            && x'.state == r.state && x'.delivered == x.delivered + r.calls
            && x'.packets == x.packets && x'.wire == x.wire
  {
    hide Receive, HeaderFrame, SourcesOf, PartsAfter, MarkAfter, AddedAcks, Numbers, ReassemblyInv;
  }

  /** One action of one of the peers; only a datagram that was sent can be delivered, any number of times. */
  ghost function Acts(c: Config, x: Peer, y: Peer, action: Action): Peer
    requires c.Valid() && CanSend(c) && StateInv(c, x.state)
  {
    match action
    case Send(_, packet) => PeerSends(c, x, packet)
    case Deliver(_, frame, process) => if frame in y.wire then PeerReceives(c, x, frame, process) else x
    case Clear(_) => x.(state := x.state.(acks := []))
    case Tick(_, time) => x.(state := x.state.(time := time))
  }

  predicate ByA(action: Action) {
    match action
    case Send(fromA, _) => fromA
    case Deliver(toA, _, _) => toA
    case Clear(ofA) => ofA
    case Tick(ofA, _) => ofA
  }

  function StartPeer(c: Config, time: real): Peer
    requires c.Valid()
  {
    Peer(Init(c, time), [], {}, [], [], [], [], [], 0, map[], map[])
  }

  // ---------------------------------------------------------------- the invariant

  predicate WindowsFit(c: Config) {
    Fits(c.receivedPacketsBufferSize) && Fits(c.fragmentReassemblyBufferSize)
  }

  /** A datagram on the network is one of the datagrams of its packet, every set bit stands for a receipt that the
      sender had, and every packet accepted lately has its bit set. */
  ghost predicate FrameOk(c: Config, x: Peer, f: Frame)
    requires c.Valid()
  {
    && f.number < |x.packets| && 0 < |x.packets[f.number]| <= c.maxPacketSize
    && f.data in Datagrams(c, Wrap(f.number), f.ack, f.ackBits, x.packets[f.number])
    && Backed(f.ack, f.ackBits, f.covers)
    && (forall s :: s in f.covers ==> ReceiptFor(x, f.covers[s], s))
    && f.known <= |x.past|
    && (WindowsFit(c) ==> forall e :: 0 <= e < f.known ==> Repeats(c, f, x.past[e]))
  }

  /** Every set bit stands for one of the sequences covered. */
  ghost predicate Backed(ack: u16, ackBits: u32, covers: map<u16, nat>) {
    forall j: nat :: j < 32 && Bit(ackBits, j) ==> BitNumber(ack, j) in covers
  }

  ghost predicate ReceiptFor(x: Peer, e: nat, s: u16) {
    e < |x.receipts| && Wrap(x.receipts[e].number) == s
  }

  /** An acceptance that was within 32 of the mark, and inside the window, has its bit set. */
  ghost predicate Repeats(c: Config, f: Frame, a: Acceptance) {
    f.mark - 32 <= a.number && f.mark - c.receivedPacketsBufferSize <= a.number ==>
      a.number < f.mark && Acknowledges(f.ack, f.ackBits, 0, f.mark - 1 - a.number, a.sequence)
  }

  /** What a slot under reassembly holds was sent: each fragment is that fragment of the packet of the datagram it came
      in, which has the sequence of the slot, and the header is that of the datagram of fragment 0. */
  ghost predicate SlotGenuine(c: Config, d: FragmentReassemblyData, s: u16, y: Peer, parts: map<nat, Frame>) {
    && (forall i: nat :: i < |d.fragmentReceived| && d.fragmentReceived[i] ==> PartGenuine(c, d, s, y, parts, i))
    && (|d.fragmentReceived| > 0 && d.fragmentReceived[0] ==> HoldsHeader(d, s, parts[0].ack, parts[0].ackBits))
  }

  ghost predicate PartGenuine(c: Config, d: FragmentReassemblyData, s: u16, y: Peer, parts: map<nat, Frame>, i: nat) {
    && i in parts && parts[i] in y.wire && parts[i].number < |y.packets| && Wrap(parts[i].number) == s
    && HoldsChunk(d, i, y.packets[parts[i].number], c.fragmentSize)
  }

  /** Packet numbers that share one sequence. */
  ghost predicate Alike(numbers: seq<nat>, s: u16, total: nat) {
    forall i :: 0 <= i < |numbers| ==> numbers[i] < total && Wrap(numbers[i]) == s
  }

  /** The packets of some numbers. */
  function Chosen(packets: seq<bytes>, numbers: seq<nat>): (r: seq<bytes>)
    requires forall i :: 0 <= i < |numbers| ==> numbers[i] < |packets|
    ensures |r| == |numbers|
  {
    seq(|numbers|, i requires 0 <= i < |numbers| => packets[numbers[i]])
  }

  /** A payload made of what was sent under one sequence: a packet, or a splice of fragments of such packets. */
  ghost predicate Genuine(c: Config, payload: bytes, s: u16, packets: seq<bytes>) {
    || (exists p: nat :: p < |packets| && Wrap(p) == s && payload == packets[p])
    || (exists numbers :: Alike(numbers, s, |packets|) && Splice(payload, Chosen(packets, numbers), c.fragmentSize))
  }

  /** What an acceptance was of: a regular datagram hands over exactly its packet; a packet put together is the splice
      of the fragments that came in, at least one of which is of the packet of the datagram that completed it. */
  ghost predicate ReceiptOk(c: Config, x: Peer, y: Peer, e: nat)
    requires e < |x.receipts|
  {
    var t := x.receipts[e];
    && t.number < |y.packets| && t.index < |x.delivered|
    && x.delivered[t.index].sequence == Wrap(t.number) && x.delivered[t.index].accepted
    && PayloadOf(c, x.delivered[t.index].payload, t, y.packets)
  }

  /** An acceptance is counted, by the receiver, as the number of its sequence that is nearest to the mark. */
  ghost predicate CountedFrom(x: Peer, e: nat)
    requires e < |x.receipts| == |x.past|
  {
    x.past[e].number == Unwrap(x.receipts[e].mark, Wrap(x.receipts[e].number))
  }

  ghost predicate PayloadOf(c: Config, payload: bytes, t: Receipt, packets: seq<bytes>)
    requires t.number < |packets|
  {
    if |packets[t.number]| <= c.fragmentAbove then t.sources == [] && payload == packets[t.number]
    else
      && t.number in t.sources && Alike(t.sources, Wrap(t.number), |packets|)
      && Splice(payload, Chosen(packets, t.sources), c.fragmentSize)
  }

  /** A reported number was sent, and the receipt it rests on is of its sequence. */
  ghost predicate EvidenceOk(x: Peer, y: Peer, i: nat)
    requires i < |x.reported| == |x.evidence|
  {
    var k, v := x.reported[i], x.evidence[i];
    && ReceiptFor(y, v.receipt, Wrap(k))
    && y.receipts[v.receipt].number < v.sent <= |x.packets|
    && 0 <= k < v.sent <= k + 32768
  }

  ghost predicate PeerInv(c: Config, x: Peer, y: Peer)
    requires c.Valid()
  {
    && SendInv(c, SendHistory(x.state, |x.packets|, x.reported))
    && (WindowsFit(c) ==> HistoryInv(c, History(x.state, x.mark, x.past)))
    && (forall i :: 0 <= i < |x.packets| ==> 0 < |x.packets[i]| <= c.maxPacketSize)
    && (forall f :: f in x.wire ==> FrameOk(c, x, f))
    && (forall s: u16 :: x.state.received.Exists(s) ==> s in x.latest)
    && (forall s :: s in x.latest ==> ReceiptFor(x, x.latest[s], s))
    && |x.past| == |x.receipts|
    && (forall e :: 0 <= e < |x.receipts| ==> ReceiptOk(c, x, y, e) && x.past[e].sequence == Wrap(x.receipts[e].number))
    && (WindowsFit(c) ==> forall e :: 0 <= e < |x.receipts| ==> CountedFrom(x, e))
    && (forall i :: 0 <= i < |x.delivered| ==> Genuine(c, x.delivered[i].payload, x.delivered[i].sequence, y.packets))
    && (forall s: u16 :: x.state.reassembly.Exists(s) ==> SlotKnown(c, x.state, y, x.parts, s))
    && |x.evidence| == |x.reported|
    && (forall i :: 0 <= i < |x.reported| ==> EvidenceOk(x, y, i))
  }

  ghost predicate SlotKnown(c: Config, st: State, y: Peer, parts: map<u16, map<nat, Frame>>, s: u16)
    requires st.reassembly.WellFormed()
  {
    s in parts && SlotGenuine(c, st.reassembly.entries[st.reassembly.Index(s)], s, y, parts[s])
  }

  ghost predicate SystemInv(c: Config, sys: System)
    requires c.Valid()
  {
    PeerInv(c, sys.a, sys.b) && PeerInv(c, sys.b, sys.a)
  }

  // ---------------------------------------------------------------- runs

  ghost function ActOn(c: Config, sys: System, action: Action): System
    requires c.Valid() && CanSend(c) && SystemInv(c, sys)
  {
    if ByA(action) then sys.(a := Acts(c, sys.a, sys.b, action)) else sys.(b := Acts(c, sys.b, sys.a, action))
  }

  // ---------------------------------------------------------------- a peer only grows

  /** Nothing an observer knows is ever forgotten. */
  ghost predicate Grows(x: Peer, x': Peer) {
    && x.packets <= x'.packets && x.wire <= x'.wire && x.receipts <= x'.receipts && x.past <= x'.past
    && x.delivered <= x'.delivered
  }

  lemma GrownPacket(packets: seq<bytes>, packets': seq<bytes>, p: nat)
    requires packets <= packets' && p < |packets|
    ensures p < |packets'| && packets'[p] == packets[p]
  {
  }

  lemma ChosenGrows(packets: seq<bytes>, packets': seq<bytes>, numbers: seq<nat>, s: u16)
    requires packets <= packets' && Alike(numbers, s, |packets|)
    ensures Alike(numbers, s, |packets'|) && Chosen(packets', numbers) == Chosen(packets, numbers)
  {
    forall i | 0 <= i < |numbers|
      ensures packets'[numbers[i]] == packets[numbers[i]]
    {
      GrownPacket(packets, packets', numbers[i]);
    }
  }

  lemma GenuineGrows(c: Config, payload: bytes, s: u16, packets: seq<bytes>, packets': seq<bytes>)
    requires packets <= packets' && Genuine(c, payload, s, packets)
    ensures Genuine(c, payload, s, packets')
  {
    hide Splice;
    if p: nat :| p < |packets| && Wrap(p) == s && payload == packets[p] {
      GrownPacket(packets, packets', p);
    } else {
      var numbers :| Alike(numbers, s, |packets|) && Splice(payload, Chosen(packets, numbers), c.fragmentSize);
      ChosenGrows(packets, packets', numbers, s);
    }
  }

  lemma SlotGenuineGrows(c: Config, d: FragmentReassemblyData, s: u16, y: Peer, y': Peer, parts: map<nat, Frame>)
    requires Grows(y, y') && SlotGenuine(c, d, s, y, parts)
    ensures SlotGenuine(c, d, s, y', parts)
  {
    hide HoldsChunk, HoldsHeader;
    forall i: nat | i < |d.fragmentReceived| && d.fragmentReceived[i]
      ensures PartGenuine(c, d, s, y', parts, i)
    {
      assert PartGenuine(c, d, s, y, parts, i);
      GrownPacket(y.packets, y'.packets, parts[i].number);
    }
  }

  lemma ReceiptGrows(c: Config, x: Peer, x': Peer, y: Peer, y': Peer, e: nat)
    requires e < |x.receipts| && Grows(x, x') && Grows(y, y') && ReceiptOk(c, x, y, e)
    ensures ReceiptOk(c, x', y', e)
  {
    hide Splice;
    var t := x.receipts[e];
    GrownPacket(y.packets, y'.packets, t.number);
    if |y.packets[t.number]| > c.fragmentAbove {
      ChosenGrows(y.packets, y'.packets, t.sources, Wrap(t.number));
    }
  }

  lemma SameGrows(x: Peer)
    ensures Grows(x, x)
  {
  }

  lemma OtherGrows(c: Config, x: Peer, y: Peer, y': Peer)
    requires c.Valid() && PeerInv(c, x, y) && Grows(y, y')
    ensures PeerInv(c, x, y')
  {
    hide SendInv, HistoryInv, FrameOk, Genuine, SlotGenuine, PayloadOf;
    SameGrows(x);
    forall i | 0 <= i < |x.delivered|
      ensures Genuine(c, x.delivered[i].payload, x.delivered[i].sequence, y'.packets)
    {
      GenuineGrows(c, x.delivered[i].payload, x.delivered[i].sequence, y.packets, y'.packets);
    }
    forall e | 0 <= e < |x.receipts|
      ensures ReceiptOk(c, x, y', e)
    {
      ReceiptGrows(c, x, x, y, y', e);
    }
    StatePart(c, x, y);
    forall s: u16 | x.state.reassembly.Exists(s)
      ensures SlotKnown(c, x.state, y', x.parts, s)
    {
      assert SlotKnown(c, x.state, y, x.parts, s);
      SlotGenuineGrows(c, x.state.reassembly.entries[x.state.reassembly.Index(s)], s, y, y', x.parts[s]);
    }
    forall i | 0 <= i < |x.reported|
      ensures EvidenceOk(x, y', i)
    {
      assert EvidenceOk(x, y, i);
    }
  }

  lemma StatePart(c: Config, x: Peer, y: Peer)
    requires c.Valid() && PeerInv(c, x, y)
    ensures StateInv(c, x.state)
  {
  }

  // ---------------------------------------------------------------- sending

  lemma BitSetExactly<T>(b: Buffer<T>, j: nat)
    requires b.WellFormed() && j < 32
    ensures Bit(b.AckBits(), j) <==> b.Exists(BitNumber(b.Ack(), j))
  {
    hide Buffer.Exists;
    BitOfFromBits(b.AckFlags(), j);
    FlagAt(b, j, BitNumber(b.Ack(), j));
  }

  /** Every acceptance that the window still repeats has its bit in the next header. */
  lemma NextRepeats(c: Config, x: Peer, f: Frame, e: nat)
    requires WindowsFit(c) && HistoryInv(c, History(x.state, x.mark, x.past)) && e < |x.past|
    requires f.ack == x.state.received.Ack() && f.ackBits == x.state.received.AckBits() && f.mark == x.mark
    ensures Repeats(c, f, x.past[e])
  {
    hide Bit, Buffer.AckBits, Buffer.Ack, InStep;
    var h := History(x.state, x.mark, x.past);
    var a := x.past[e];
    assert AcceptanceOk(c, h, a);
    if f.mark - 32 <= a.number && f.mark - c.receivedPacketsBufferSize <= a.number {
      AcceptedIsRepeated(c, h, e);
    }
  }

  lemma FrameOkGrows(c: Config, x: Peer, x': Peer, f: Frame)
    requires c.Valid() && FrameOk(c, x, f) && Grows(x, x')
    ensures FrameOk(c, x', f)
  {
    hide Datagrams, Backed, Repeats;
    GrownPacket(x.packets, x'.packets, f.number);
    forall s | s in f.covers
      ensures ReceiptFor(x', f.covers[s], s)
    {
      assert ReceiptFor(x, f.covers[s], s);
    }
  }

  /** What a call leaves alone that neither receives nor reports. */
  ghost predicate ObservedSame(x: Peer, x': Peer) {
    && x'.receipts == x.receipts && x'.past == x.past && x'.delivered == x.delivered && x'.reported == x.reported
    && x'.evidence == x.evidence && x'.latest == x.latest && x'.parts == x.parts && x.packets <= x'.packets
    && x'.state.received == x.state.received && x'.state.reassembly == x.state.reassembly
  }

  lemma ObservationsKept(c: Config, x: Peer, x': Peer, y: Peer)
    requires c.Valid() && PeerInv(c, x, y) && ObservedSame(x, x')
    ensures x'.state.received.WellFormed() && x'.state.reassembly.WellFormed()
    ensures forall s: u16 :: x'.state.received.Exists(s) ==> s in x'.latest
    ensures forall s :: s in x'.latest ==> ReceiptFor(x', x'.latest[s], s)
    ensures |x'.past| == |x'.receipts| && |x'.evidence| == |x'.reported|
    ensures forall e :: 0 <= e < |x'.receipts| ==>
              ReceiptOk(c, x', y, e) && x'.past[e].sequence == Wrap(x'.receipts[e].number)
    ensures WindowsFit(c) ==> forall e :: 0 <= e < |x'.receipts| ==> CountedFrom(x', e)
    ensures forall i :: 0 <= i < |x'.delivered| ==>
              Genuine(c, x'.delivered[i].payload, x'.delivered[i].sequence, y.packets)
    ensures forall s: u16 :: x'.state.reassembly.Exists(s) ==> SlotKnown(c, x'.state, y, x'.parts, s)
    ensures forall i :: 0 <= i < |x'.reported| ==> EvidenceOk(x', y, i)
  {
    hide SendInv, HistoryInv, FrameOk, Genuine, SlotGenuine, PayloadOf;
    StatePart(c, x, y);
    forall i | 0 <= i < |x'.reported|
      ensures EvidenceOk(x', y, i)
    {
      assert EvidenceOk(x, y, i);
    }
    forall e | 0 <= e < |x'.receipts|
      ensures ReceiptOk(c, x', y, e)
      ensures WindowsFit(c) ==> CountedFrom(x', e)
    {
      assert ReceiptOk(c, x, y, e);
      assert WindowsFit(c) ==> CountedFrom(x, e);
    }
    forall s: u16 | x'.state.reassembly.Exists(s)
      ensures SlotKnown(c, x'.state, y, x'.parts, s)
    {
      assert SlotKnown(c, x.state, y, x.parts, s);
    }
  }

  lemma SendKeeps(c: Config, x: Peer, y: Peer, packet: bytes)
    requires c.Valid() && CanSend(c) && PeerInv(c, x, y)
    ensures PeerInv(c, PeerSends(c, x, packet), y) && Grows(x, PeerSends(c, x, packet))
  {
    hide Datagrams, Buffer.AckBits, Buffer.Ack, Buffer.Insert, SlotGenuine, Genuine, ReassemblyInv, TracksWindow, LogOk,
         HistoryInv, FrameOk, FramesOf, ReceiptFor, ReceiptOk, CountedFrom, SlotKnown, EvidenceOk;
    if packet != [] {
      var x' := PeerSends(c, x, packet);
      StatePart(c, x, y);
      SendKeepsHistories(c, x, packet);
      ObservationsKept(c, x, x', y);
      if |packet| <= c.maxPacketSize {
        NextFramesOk(c, x, y, packet);
        forall f | f in x'.wire
          ensures FrameOk(c, x', f)
        {
          if f in x.wire {
            FrameOkGrows(c, x, x', f);
          }
        }
      } else {
        forall f | f in x'.wire
          ensures FrameOk(c, x', f)
        {
          FrameOkGrows(c, x, x', f);
        }
      }
    }
  }

  lemma SendKeepsHistories(c: Config, x: Peer, packet: bytes)
    requires c.Valid() && CanSend(c) && SendInv(c, SendHistory(x.state, |x.packets|, x.reported)) && |packet| > 0
    requires WindowsFit(c) ==> HistoryInv(c, History(x.state, x.mark, x.past))
    ensures var x' := PeerSends(c, x, packet);
            && SendInv(c, SendHistory(x'.state, |x'.packets|, x'.reported))
            && (WindowsFit(c) ==> HistoryInv(c, History(x'.state, x'.mark, x'.past)))
            && x'.state.received == x.state.received && x'.state.reassembly == x.state.reassembly
  {
    hide TracksWindow, LogOk, Datagrams, ReassemblyInv, HistoryInv, FramesOf, NextFrame, Observe;
    var h := SendHistory(x.state, |x.packets|, x.reported);
    var e := SendPacket(packet);
    ObserveKeepsSendInv(c, h, e);
    NextFits(c, x.state);
    var x' := PeerSends(c, x, packet);
    assert ObserveSent(c, h, e).reported == x.reported;
    assert ObserveSent(c, h, e) == SendHistory(x'.state, |x'.packets|, x'.reported);
    if WindowsFit(c) {
      ObserveKeepsInv(c, History(x.state, x.mark, x.past), e);
      ObserveSend(c, x, packet);
    }
  }

  lemma ObserveSend(c: Config, x: Peer, packet: bytes)
    requires c.Valid() && CanSend(c) && StateInv(c, x.state) && |packet| > 0
    ensures Observe(c, History(x.state, x.mark, x.past), SendPacket(packet))
            == History(PeerSends(c, x, packet).state, x.mark, x.past)
  {
    hide Datagrams, ReassemblyInv, FramesOf, NextFrame, MarkAfter, Buffer.Insert, Buffer.AckBits;
    NextFits(c, x.state);
    MarkStays(x.state.received, x.mark);
  }

  lemma NextFramesOk(c: Config, x: Peer, y: Peer, packet: bytes)
    requires c.Valid() && CanSend(c) && PeerInv(c, x, y) && 0 < |packet| <= c.maxPacketSize && StateInv(c, x.state)
    ensures forall f :: f in PeerSends(c, x, packet).wire && f !in x.wire ==> FrameOk(c, PeerSends(c, x, packet), f)
  {
    hide Datagrams, Buffer.AckBits, Buffer.Ack, Buffer.Insert, ReassemblyInv, LogOk, TracksWindow, HistoryInv,
         SlotKnown, Genuine, ReceiptOk, EvidenceOk, Bit, Repeats;
    NextFits(c, x.state);
    var x' := PeerSends(c, x, packet);
    var n := |x.packets|;
    var b := x.state.received;
    assert x.state.sequence == Wrap(n) by { SequenceIsTotal(c, x); }
    forall j: nat | j < 32 && Bit(b.AckBits(), j)
      ensures BitNumber(b.Ack(), j) in x.latest
    {
      BitSetExactly(b, j);
    }
    forall f | f in x'.wire && f !in x.wire
      ensures FrameOk(c, x', f)
    {
      assert f.number == n && x'.packets[n] == packet && f.known == |x.past| && f.mark == x.mark;
      assert f.covers == x.latest && f.ack == b.Ack() && f.ackBits == b.AckBits();
      if WindowsFit(c) {
        forall e | 0 <= e < f.known
          ensures Repeats(c, f, x'.past[e])
        {
          NextRepeats(c, x, f, e);
        }
      }
    }
  }

  lemma SequenceIsTotal(c: Config, x: Peer)
    requires SendInv(c, SendHistory(x.state, |x.packets|, x.reported))
    ensures x.state.sequence == Wrap(|x.packets|)
  {
  }
}
