/** What holds between the two endpoints after any sequence of actions, whatever is lost, repeated, reordered or
    delayed, before and after the sequence numbers wrap. */
module EndToEnd {
  import opened Wrappers
  import opened Sequence
  import opened Codec
  import opened CodecLaws
  import opened Windows
  import opened Reassembly
  import opened Protocol
  import opened Invariants
  import opened ReceiveSide
  import opened SendSide
  import opened Network
  import opened Delivery

  // ---------------------------------------------------------------- every reachable state

  lemma StartHolds(c: Config, timeA: real, timeB: real)
    requires c.Valid() && Fits(c.sentPacketsBufferSize)
    ensures SystemInv(c, System(StartPeer(c, timeA), StartPeer(c, timeB)))
  {
    StartPeerHolds(c, timeA, StartPeer(c, timeB));
    StartPeerHolds(c, timeB, StartPeer(c, timeA));
  }

  lemma StartPeerHolds(c: Config, time: real, y: Peer)
    requires c.Valid() && Fits(c.sentPacketsBufferSize)
    ensures PeerInv(c, StartPeer(c, time), y)
  {
    InitInv(c, time);
    EmptyRefines(c.sentPacketsBufferSize, NO_SENT);
    if WindowsFit(c) {
      EmptyRefines(c.receivedPacketsBufferSize, NO_RECEIVED);
      EmptyRefines(c.fragmentReassemblyBufferSize, NoReassembly());
    }
  }

  /** A call that neither sends nor receives. */
  lemma QuietCallKeeps(c: Config, x: Peer, y: Peer, e: Event)
    requires c.Valid() && CanSend(c) && PeerInv(c, x, y) && StateInv(c, x.state) && (e.ClearAcks? || e.Update?)
    ensures var x' := x.(state := Step(c, x.state, e)); PeerInv(c, x', y) && Grows(x, x')
  {
    hide HistoryInv, SlotKnown, Genuine, FrameOk, TracksWindow, ReassemblyInv, MarkAfter, ReceiptFor, ReceiptOk,
         CountedFrom, EvidenceOk;
    var x' := x.(state := Step(c, x.state, e));
    SameGrows(x);
    SameGrows(y);
    MarkStays(x.state.received, x.mark);
    if WindowsFit(c) {
      ObserveKeepsInv(c, History(x.state, x.mark, x.past), e);
      assert Observe(c, History(x.state, x.mark, x.past), e) == History(x'.state, x'.mark, x'.past);
    }
    forall f | f in x'.wire
      ensures FrameOk(c, x', f)
    {
      FrameOkGrows(c, x, x', f);
    }
    ObservationsKept(c, x, x', y);
  }

  lemma ActsKeeps(c: Config, x: Peer, y: Peer, action: Action)
    requires c.Valid() && CanSend(c) && PeerInv(c, x, y) && PeerInv(c, y, x)
    ensures StateInv(c, x.state)
    ensures PeerInv(c, Acts(c, x, y, action), y) && PeerInv(c, y, Acts(c, x, y, action))
  {
    hide PeerSends, PeerReceives, PeerInv;
    StatePart(c, x, y);
    SameGrows(x);
    match action {
      case Send(_, packet) => SendKeeps(c, x, y, packet);
      case Deliver(_, frame, process) =>
        if frame in y.wire {
          ReceiveKeeps(c, x, y, frame, process);
        }
      case Clear(_) => QuietCallKeeps(c, x, y, ClearAcks);
      case Tick(_, time) => QuietCallKeeps(c, x, y, Update(time));
    }
    OtherGrows(c, y, x, Acts(c, x, y, action));
  }

  lemma ActOnKeeps(c: Config, sys: System, action: Action)
    requires c.Valid() && CanSend(c) && SystemInv(c, sys)
    ensures SystemInv(c, ActOn(c, sys, action))
  {
    hide PeerInv, Acts;
    if ByA(action) {
      ActsKeeps(c, sys.a, sys.b, action);
    } else {
      ActsKeeps(c, sys.b, sys.a, action);
    }
  }

  /** The system after a sequence of actions. */
  ghost function Reached(c: Config, timeA: real, timeB: real, actions: seq<Action>): (sys: System)
    requires c.Valid() && CanSend(c) && Fits(c.sentPacketsBufferSize)
    ensures SystemInv(c, sys)
    decreases |actions|
  {
    if actions == [] then StartHolds(c, timeA, timeB); System(StartPeer(c, timeA), StartPeer(c, timeB))
    else
      var before := Reached(c, timeA, timeB, actions[..|actions| - 1]);
      ActOnKeeps(c, before, actions[|actions| - 1]);
      ActOn(c, before, actions[|actions| - 1])
  }

  lemma RunGrows(c: Config, timeA: real, timeB: real, actions: seq<Action>, action: Action)
    requires c.Valid() && CanSend(c) && Fits(c.sentPacketsBufferSize)
    ensures Reached(c, timeA, timeB, actions + [action]) == ActOn(c, Reached(c, timeA, timeB, actions), action)
  {
    hide ActOn, SystemInv;
    var all := actions + [action];
    assert all[..|all| - 1] == actions;
  }

  lemma DeliveredToB(c: Config, sys: System, f: Frame, process: Process)
    requires c.Valid() && CanSend(c) && SystemInv(c, sys) && f in sys.a.wire
    ensures StateInv(c, sys.b.state)
    ensures ActOn(c, sys, Deliver(false, f, process)) == sys.(b := PeerReceives(c, sys.b, f, process))
  {
    hide PeerInv, PeerReceives;
    StatePart(c, sys.b, sys.a);
  }

  lemma DeliveredToA(c: Config, sys: System, f: Frame, process: Process)
    requires c.Valid() && CanSend(c) && SystemInv(c, sys) && f in sys.b.wire
    ensures StateInv(c, sys.a.state)
    ensures ActOn(c, sys, Deliver(true, f, process)) == sys.(a := PeerReceives(c, sys.a, f, process))
  {
    hide PeerInv, PeerReceives;
    StatePart(c, sys.a, sys.b);
  }

  // ---------------------------------------------------------------- what an ack says

  /** The acks a caller reads are sequences of reported packets. */
  lemma AcksAreReported(c: Config, x: Peer, y: Peer, s: u16)
    requires c.Valid() && PeerInv(c, x, y) && s in x.state.acks
    ensures exists i :: 0 <= i < |x.reported| && Wrap(x.reported[i]) == s
  {
    hide TracksWindow, StateInv, FrameOk, SlotGenuine, Genuine, HistoryInv, ReceiptOk, EvidenceOk;
    var n :| 0 <= n < |x.state.acks| && x.state.acks[n] == s;
    var i := |x.reported| - |x.state.acks| + n;
    assert Wrap(x.reported[i]) == s;
  }

  /** The packet number of the receipt that a reported ack rests on. */
  function Named(x: Peer, y: Peer, i: nat): nat
    requires i < |x.evidence| && x.evidence[i].receipt < |y.receipts|
  {
    y.receipts[x.evidence[i].receipt].number
  }

  /** Ack safety: every number ever reported was sent, and rests on a packet of its sequence that the other side
      accepted; and it is the very number of that packet if and only if at most 65536 packets had been sent from that
      packet on when the ack was reported. */
  lemma AckNamesThatPacket(c: Config, x: Peer, y: Peer, i: nat)
    requires c.Valid() && PeerInv(c, x, y) && i < |x.reported|
    ensures i < |x.evidence| && x.evidence[i].receipt < |y.receipts|
    ensures var k, p := x.reported[i], Named(x, y, i);
            && 0 <= k < x.evidence[i].sent <= |x.packets| && p < x.evidence[i].sent && Wrap(p) == Wrap(k)
            && (p == k <==> x.evidence[i].sent - p <= 65536)
  {
    hide SendInv, FrameOk, SlotGenuine, Genuine, HistoryInv, ReceiptOk;
    assert EvidenceOk(x, y, i);
    var k, p := x.reported[i], Named(x, y, i);
    if x.evidence[i].sent - p <= 65536 {
      CloseNumbersWrapApart(p, k);
    }
  }

  /** What the other side's process closure was handed, and answered yes to, for one receipt: exactly the packet, if the
      packet travels whole; otherwise the splice of the fragments that came in, one at least being of that packet, and
      then it is the packet exactly when all of these fragments agree with the packet's own. */
  ghost predicate HandedOver(c: Config, y: Peer, t: Receipt, packets: seq<bytes>) {
    && t.number < |packets| && t.index < |y.delivered|
    && var call, packet := y.delivered[t.index], packets[t.number];
       && call.sequence == Wrap(t.number) && call.accepted
       && if |packet| <= c.fragmentAbove then call.payload == packet
          else
            && t.number in t.sources && Alike(t.sources, Wrap(t.number), |packets|)
            && Splice(call.payload, Chosen(packets, t.sources), c.fragmentSize)
            && (call.payload == packet <==>
                  forall j :: 0 <= j < |t.sources| ==> SameChunk(packet, packets[t.sources[j]], j, c.fragmentSize))
            && ((forall j :: 0 <= j < |t.sources| ==> t.sources[j] == t.number) ==> call.payload == packet)
  }

  lemma ReceiptIsHandedOver(c: Config, x: Peer, y: Peer, e: nat)
    requires c.Valid() && PeerInv(c, x, y) && PeerInv(c, y, x) && e < |y.receipts|
    ensures HandedOver(c, y, y.receipts[e], x.packets)
  {
    hide SendInv, FrameOk, SlotKnown, Genuine, HistoryInv, EvidenceOk, PayloadOf, SameChunk, Splice;
    assert ReceiptOk(c, y, x, e);
    var t := y.receipts[e];
    PayloadIsExactly(c, y.delivered[t.index].payload, t, x.packets);
  }

  lemma PayloadIsExactly(c: Config, payload: bytes, t: Receipt, packets: seq<bytes>)
    requires t.number < |packets| && |packets[t.number]| > 0 && PayloadOf(c, payload, t, packets)
    ensures var packet := packets[t.number];
            if |packet| <= c.fragmentAbove then payload == packet
            else
              && t.number in t.sources && Alike(t.sources, Wrap(t.number), |packets|)
              && Splice(payload, Chosen(packets, t.sources), c.fragmentSize)
              && (payload == packet <==>
                    forall j :: 0 <= j < |t.sources| ==> SameChunk(packet, packets[t.sources[j]], j, c.fragmentSize))
              && ((forall j :: 0 <= j < |t.sources| ==> t.sources[j] == t.number) ==> payload == packet)
  {
    hide Splice, SameChunk, Wrap;
    var packet := packets[t.number];
    if |packet| > c.fragmentAbove {
      var parts := Chosen(packets, t.sources);
      assert forall j :: 0 <= j < |t.sources| ==> parts[j] == packets[t.sources[j]];
      SpliceIsExactly(payload, parts, c.fragmentSize, packet);
      if forall j :: 0 <= j < |t.sources| ==> t.sources[j] == t.number {
        SpliceOfOne(payload, parts, c.fragmentSize, packet);
      }
    }
  }

  /** End to end: if at most 65536 packets were sent from the packet on until its ack was reported, then the other
      side's process closure was handed that packet, as far as its own fragments go, and answered yes. */
  lemma AckedMeansDelivered(c: Config, x: Peer, y: Peer, i: nat)
    requires c.Valid() && PeerInv(c, x, y) && PeerInv(c, y, x) && i < |x.reported|
    ensures i < |x.evidence| && x.evidence[i].receipt < |y.receipts|
    ensures x.evidence[i].sent - Named(x, y, i) <= 65536 ==>
              var t := y.receipts[x.evidence[i].receipt];
              t.number == x.reported[i] && HandedOver(c, y, t, x.packets)
  {
    hide PeerInv, HandedOver;
    AckNamesThatPacket(c, x, y, i);
    ReceiptIsHandedOver(c, x, y, x.evidence[i].receipt);
  }

  // ---------------------------------------------------------------- what is delivered

  /** While the numbers sent under one sequence are one only, what is delivered under it is that packet. */
  lemma GenuineIsThePacket(c: Config, payload: bytes, packets: seq<bytes>, p: nat)
    requires c.Valid() && p < |packets| && Genuine(c, payload, Wrap(p), packets)
    requires forall q: nat :: q < |packets| && Wrap(q) == Wrap(p) ==> q == p
    ensures payload == packets[p]
  {
    hide Splice;
    if numbers :| Alike(numbers, Wrap(p), |packets|) && Splice(payload, Chosen(packets, numbers), c.fragmentSize) {
      SpliceOfOne(payload, Chosen(packets, numbers), c.fragmentSize, packets[p]);
    }
  }

  /** Integrity: everything ever handed to the process closure is a packet the other side sent under that sequence, or
      a splice of fragments of such packets; and if only one packet was sent under it, it is that packet, byte for
      byte. */
  lemma DeliveriesAreGenuine(c: Config, x: Peer, y: Peer, i: nat, p: nat)
    requires c.Valid() && PeerInv(c, x, y) && i < |x.delivered|
    ensures Genuine(c, x.delivered[i].payload, x.delivered[i].sequence, y.packets)
    ensures p < |y.packets| && x.delivered[i].sequence == Wrap(p)
            && (forall q: nat :: q < |y.packets| && Wrap(q) == Wrap(p) ==> q == p)
            ==> x.delivered[i].payload == y.packets[p]
  {
    hide SendInv, FrameOk, SlotKnown, HistoryInv, ReceiptOk, EvidenceOk;
    if p < |y.packets| && x.delivered[i].sequence == Wrap(p)
       && forall q: nat :: q < |y.packets| && Wrap(q) == Wrap(p) ==> q == p {
      GenuineIsThePacket(c, x.delivered[i].payload, y.packets, p);
    }
  }

  /** The slot that a fragment of the network meets. */
  function SlotMet(c: Config, st: State, h: FragmentHeader): Option<FragmentReassemblyData>
    requires Sized(c, st)
  {
    match OpenSlot(c, st, h)
    case None => None
    case Some(open) => open.reassembly.Find(h.sequence)
  }

  /** Exactly when a packet put together is the packet of the datagram that completes it, told from the slot before that
      datagram comes in: every other fragment there is that of the packet. */
  lemma CompletionIsExact(c: Config, x: Peer, y: Peer, f: Frame, process: Process)
    requires c.Valid() && CanSend(c) && PeerInv(c, x, y) && PeerInv(c, y, x) && f in y.wire
    requires StateInv(c, x.state) && |f.data| > 0 && f.number < |y.packets| && |y.packets[f.number]| > c.fragmentAbove
    requires Receive(c, x.state, f.data, process).calls != []
    ensures StoredAs(c, x.state, f.data).Some?
    ensures var h := StoredAs(c, x.state, f.data).value;
            var d := SlotMet(c, x.state, h);
            var call := Receive(c, x.state, f.data, process).calls[0];
            && h.sequence == Wrap(f.number) == call.sequence && d.Some?
            && (call.payload == y.packets[f.number] <==>
                  forall j: nat :: j < h.total && j != h.id ==>
                    HoldsChunk(d.value, j, y.packets[f.number], c.fragmentSize))
  {
    hide PeerInv, Receive, DecodeFragment, DecodeHeader, HoldsChunk, SlotMet, FinishSlot, StoresFragment, FrameOk,
         ReassemblyInv, FragmentPayload, StoredAs, NumFragments, Chunk;
    WireOk(c, x, y, f);
    var i := FrameReads(c, y, f);
    var k := ReceiveCases(c, x.state, f.data, process);
    assert k.Stored?;
    FramePart(c, y, f);
    StoredIsDecoded(c, x.state, f.data);
    FillsExactly(c, x.state, y.packets[f.number], f.data, k, process);
  }

  lemma StoredIsDecoded(c: Config, st: State, data: bytes)
    requires c.Valid() && StateInv(c, st) && |data| > 0 && StoredAs(c, st, data).Some?
    ensures DecodeFragment(data, c.maxFragments, c.fragmentSize) == StoredAs(c, st, data)
  {
    hide DecodeFragment, OpenSlot, ReassemblyInv;
  }

  lemma FillsExactly(c: Config, st: State, packet: bytes, data: bytes, k: Case, process: Process)
    requires k.Stored? && StoresFragment(c, st, data, k.f, k.open, k.d, k.d')
    requires |packet| > 0 && k.f.id < NumFragments(|packet|, c.fragmentSize) == k.f.total
    requires k.f.id * c.fragmentSize <= |packet| && FragmentPayload(data, k.f) == Chunk(packet, k.f.id, c.fragmentSize)
    requires FinishSlot(c, k.open, k.f.sequence, k.d', process).calls != []
    ensures var call := FinishSlot(c, k.open, k.f.sequence, k.d', process).calls[0];
            && call.sequence == k.f.sequence && SlotMet(c, st, k.f) == Some(k.d)
            && (call.payload == packet <==>
                  forall j: nat :: j < k.f.total && j != k.f.id ==> HoldsChunk(k.d, j, packet, c.fragmentSize))
  {
    hide DecodeFragment, EncodeHeader, HoldsChunk, HoldsHeader, OpenSlot, FinishSlot, Received, Payload, ReassemblyInv,
         FragmentPayload, SlotShape, NumFragments;
    FinishFrame(c, k.open, k.f.sequence, k.d', process);
    StoredData(k.d, k.f, FragmentPayload(data, k.f), c.maxFragments, c.fragmentSize);
    CompletesExactly(k.d, k.f, packet, c.maxFragments, c.fragmentSize);
  }

  lemma WireOk(c: Config, x: Peer, y: Peer, f: Frame)
    requires c.Valid() && PeerInv(c, y, x) && f in y.wire
    ensures FrameOk(c, y, f)
  {
  }

  // ---------------------------------------------------------------- acks persist

  /** An ack survives: say the other side accepted a packet, and the datagram that brought the header was sent while
      that packet was within 32 of the mark. If it makes a packet accepted, and the sender still tracks the packet, then
      that packet has been reported as acked, unless the ack buffer is full. */
  lemma AckPersists(c: Config, x: Peer, y: Peer, f: Frame, process: Process, e: nat)
    requires c.Valid() && CanSend(c) && WindowsFit(c) && PeerInv(c, x, y) && PeerInv(c, y, x) && f in y.wire
    requires StateInv(c, x.state) && |f.data| > 0 && AcceptedOf(Receive(c, x.state, f.data, process)).Some?
    requires var g := HeaderFrame(c, x, f);
             && e < g.known && e < |y.past| && e < |y.receipts|
             && g.mark - 32 <= y.past[e].number && g.mark - c.receivedPacketsBufferSize <= y.past[e].number
    requires |x.packets| - c.sentPacketsBufferSize <= y.receipts[e].number
    ensures HeaderFrame(c, x, f) in y.wire && y.receipts[e].number < |x.packets|
    ensures var x' := PeerReceives(c, x, f, process);
            y.receipts[e].number in x'.reported || |x'.state.acks| == c.ackBufferSize
  {
    hide PeerInv, Receive, ReceivedWell, HeaderFrame, PeerReceives, Acknowledges, AckStep, ReassemblyInv, TracksWindow,
         LogOk, HistoryInv;
    var g := HeaderFrame(c, x, f);
    var p := y.receipts[e].number;
    var x' := PeerReceives(c, x, f, process);
    PeerReceivesIs(c, x, f, process);
    WireOk(c, x, y, f);
    DeliveryIsWell(c, x, y, f, process);
    ReceiptNumbers(c, x, y);
    SendPart(c, x, y);
    ReceiveKeepsHistories(c, x, f, process);
    RepeatedIn(c, x, y, g, e);
    var j := g.mark - 1 - y.past[e].number;
    TrackedAt(x.state.sent, |x.packets|, x.reported, p);
    TrackedAt(x'.state.sent, |x.packets|, x'.reported, p);
    FoundExists(x.state.sent, Wrap(p));
    AckedUnlessFull(c, x.state, x'.state, HeaderIn(g), j, Wrap(p));
    FoundExists(x'.state.sent, Wrap(p));
  }

  lemma FoundExists(b: SentBuffer, s: u16)
    requires b.WellFormed()
    ensures b.Find(s).Some? <==> b.Exists(s)
    ensures b.Find(s).Some? ==> (Unacked(b, s) <==> !b.Find(s).value.acked)
  {
  }

  lemma SendPart(c: Config, x: Peer, y: Peer)
    requires c.Valid() && PeerInv(c, x, y)
    ensures SendInv(c, SendHistory(x.state, |x.packets|, x.reported))
    ensures WindowsFit(c) ==> HistoryInv(c, History(x.state, x.mark, x.past))
    ensures |x.state.acks| <= c.ackBufferSize && x.state.sent.Size() == c.sentPacketsBufferSize
  {
  }

  /** What a datagram of the network repeats. */
  lemma RepeatedIn(c: Config, x: Peer, y: Peer, g: Frame, e: nat)
    requires c.Valid() && WindowsFit(c) && PeerInv(c, y, x) && g in y.wire && e < g.known && e < |y.past|
    requires g.mark - 32 <= y.past[e].number && g.mark - c.receivedPacketsBufferSize <= y.past[e].number
    ensures e < |y.receipts| && y.past[e].number < g.mark
    ensures Acknowledges(g.ack, g.ackBits, 0, g.mark - 1 - y.past[e].number, Wrap(y.receipts[e].number))
  {
    hide SendInv, HistoryInv, SlotKnown, Genuine, EvidenceOk, Datagrams, Backed, Acknowledges, PayloadOf;
    assert FrameOk(c, y, g);
    assert Repeats(c, g, y.past[e]);
    assert ReceiptOk(c, y, x, e);
  }

  // ---------------------------------------------------------------- every run

  /** The guarantees on acks and deliveries after every sequence of actions. */
  lemma ReliableOnEveryRun(c: Config, timeA: real, timeB: real, actions: seq<Action>, i: nat)
    requires c.Valid() && CanSend(c) && Fits(c.sentPacketsBufferSize)
    ensures var sys := Reached(c, timeA, timeB, actions);
            i < |sys.a.reported| ==>
              && i < |sys.a.evidence| && sys.a.evidence[i].receipt < |sys.b.receipts|
              && var k, t := sys.a.reported[i], sys.b.receipts[sys.a.evidence[i].receipt];
                 && 0 <= k < |sys.a.packets| && Wrap(t.number) == Wrap(k) && HandedOver(c, sys.b, t, sys.a.packets)
                 && (t.number == k <==> sys.a.evidence[i].sent - t.number <= 65536)
    ensures var sys := Reached(c, timeA, timeB, actions);
            i < |sys.b.delivered| ==>
              Genuine(c, sys.b.delivered[i].payload, sys.b.delivered[i].sequence, sys.a.packets)
  {
    hide PeerInv, Genuine, HandedOver;
    var sys := Reached(c, timeA, timeB, actions);
    if i < |sys.a.reported| {
      AckNamesThatPacket(c, sys.a, sys.b, i);
      ReceiptIsHandedOver(c, sys.a, sys.b, sys.a.evidence[i].receipt);
    }
    if i < |sys.b.delivered| {
      DeliveriesAreGenuine(c, sys.b, sys.a, i, 0);
    }
  }

  /** Acks persist in every run. The condition on `g` is that it was sent after acceptance `e`, while that was within 32
      of the mark and inside the window; the last one is that the sender still tracks the packet. */
  lemma AcksPersistOnEveryRun(c: Config, timeA: real, timeB: real, actions: seq<Action>, f: Frame, process: Process,
                              e: nat)
    requires c.Valid() && CanSend(c) && Fits(c.sentPacketsBufferSize) && WindowsFit(c)
    requires var sys := Reached(c, timeA, timeB, actions);
             && StateInv(c, sys.a.state) && f in sys.b.wire && |f.data| > 0
             && AcceptedOf(Receive(c, sys.a.state, f.data, process)).Some?
             && var g := HeaderFrame(c, sys.a, f);
                && e < g.known && e < |sys.b.past| && e < |sys.b.receipts|
                && g.mark - 32 <= sys.b.past[e].number && g.mark - c.receivedPacketsBufferSize <= sys.b.past[e].number
                && |sys.a.packets| - c.sentPacketsBufferSize <= sys.b.receipts[e].number
    ensures var sys := Reached(c, timeA, timeB, actions);
            var sys' := Reached(c, timeA, timeB, actions + [Deliver(true, f, process)]);
            sys.b.receipts[e].number in sys'.a.reported || |sys'.a.state.acks| == c.ackBufferSize
  {
    hide PeerInv, HeaderFrame, Receive, ReassemblyInv, PeerReceives;
    var sys := Reached(c, timeA, timeB, actions);
    AckPersists(c, sys.a, sys.b, f, process, e);
    RunGrows(c, timeA, timeB, actions, Deliver(true, f, process));
  }
}
