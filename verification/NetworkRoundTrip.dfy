/** The fragmentation round trip between two endpoints: what the transmit closure of one is handed for a packet,
    delivered by the network to the other, in any order and number, makes the other hand the packet over. */
module NetworkRoundTrip {
  import opened Wrappers
  import opened Sequence
  import opened Codec
  import opened Buffers
  import opened Windows
  import opened Reassembly
  import opened Protocol
  import opened Invariants
  import opened ReceiveSide
  import opened Duplicates
  import opened RoundTrip
  import opened Network
  import opened EndToEnd
  import opened Freshness
  import opened NetworkRuns

  /** A datagram that arrives at the second endpoint: one of those of the packet, by its place among what the transmit
      closure was handed, or any other of the network. */
  datatype Arrival =
    | OfPacket(id: nat, process: Process)
    | OfAnother(frame: Frame, process: Process)

  /** Datagram `i` of the packet that `x` sends next. */
  function PartOf(c: Config, x: Peer, packet: bytes, i: nat): Frame
    requires c.Valid() && CanSend(c) && StateInv(c, x.state) && |packet| > 0
  {
    NextFits(c, x.state);
    var sent := Protocol.Send(c, x.state, packet).sent;
    NextFrame(x).(data := if i < |sent| then sent[i].data else [])
  }

  function FrameOf(c: Config, x: Peer, packet: bytes, a: Arrival): Frame
    requires c.Valid() && CanSend(c) && StateInv(c, x.state) && |packet| > 0
  {
    match a
    case OfPacket(i, _) => PartOf(c, x, packet, i)
    case OfAnother(f, _) => f
  }

  function Arrive(c: Config, x: Peer, packet: bytes, a: Arrival): Action
    requires c.Valid() && CanSend(c) && StateInv(c, x.state) && |packet| > 0
  {
    Action.Deliver(false, FrameOf(c, x, packet, a), a.process)
  }

  function ArriveAll(c: Config, x: Peer, packet: bytes, arrivals: seq<Arrival>): seq<Action>
    requires c.Valid() && CanSend(c) && StateInv(c, x.state) && |packet| > 0
  {
    seq(|arrivals|, i requires 0 <= i < |arrivals| => Arrive(c, x, packet, arrivals[i]))
  }

  /** The packet that `x` sends next, where its receiver counts it as packet `n`. */
  function MessageTo(n: int, x: Peer, packet: bytes): Message
    requires x.state.received.WellFormed()
  {
    Message(n, x.state.received.Ack(), x.state.received.AckBits(), packet)
  }

  function AsDelivery(a: Arrival): RoundTrip.Delivery {
    match a
    case OfPacket(i, process) => Fragment(i, process)
    case OfAnother(f, process) => Other(f.data, process)
  }

  function AsDeliveries(arrivals: seq<Arrival>): seq<RoundTrip.Delivery> {
    seq(|arrivals|, i requires 0 <= i < |arrivals| => AsDelivery(arrivals[i]))
  }

  /** A datagram of the packet, which is accepted; or one that is on the wire and not of its sequence. */
  ghost predicate MayArrive(c: Config, x: Peer, packet: bytes, a: Arrival)
    requires c.Valid() && CanSend(c) && StateInv(c, x.state)
  {
    match a
    case OfPacket(i, process) =>
      i < NumFragments(|packet|, c.fragmentSize) && process(Wrap(|x.packets|), packet)
    case OfAnother(f, _) =>
      f in PeerSends(c, x, packet).wire && |f.data| > 0 && SequenceIn(c, f.data) != Some(Wrap(|x.packets|))
  }

  // ---------------------------------------------------------------- what the datagrams are

  lemma PartIs(c: Config, x: Peer, y: Peer, n: int, packet: bytes, i: nat)
    requires c.Valid() && CanSend(c) && PeerInv(c, x, y) && c.fragmentAbove < |packet| <= c.maxPacketSize
    requires i < NumFragments(|packet|, c.fragmentSize) && Wrap(n) == Wrap(|x.packets|)
    ensures StateInv(c, x.state)
    ensures var m := MessageTo(n, x, packet);
            && m.Fragmented(c) && i < m.Total(c) && m.Sequence() == Wrap(|x.packets|)
            && PartOf(c, x, packet, i).data == m.Datagram(c, i)
            && PartOf(c, x, packet, i) in PeerSends(c, x, packet).wire
  {
    hide PeerInv, ReassemblyInv, FragmentDatagram, NumFragments, NextFrame, PeerSends, Buffer.Insert, Buffer.AckBits,
         Buffer.Ack;
    StatePart(c, x, y);
    SendPart(c, x, y);
    SequenceIsTotal(c, x);
    NextFits(c, x.state);
    SendsReachTheWire(c, x, packet);
  }

  lemma MayBeExpected(c: Config, x: Peer, y: Peer, n: int, packet: bytes, a: Arrival)
    requires c.Valid() && CanSend(c) && PeerInv(c, x, y) && c.fragmentAbove < |packet| <= c.maxPacketSize
    requires StateInv(c, x.state) && MayArrive(c, x, packet, a) && Wrap(n) == Wrap(|x.packets|)
    ensures var m := MessageTo(n, x, packet);
            && m.Fragmented(c) && Expected(c, m, AsDelivery(a))
            && FrameOf(c, x, packet, a) in PeerSends(c, x, packet).wire
            && FrameOf(c, x, packet, a).data == DataOf(c, m, AsDelivery(a))
  {
    hide PeerInv, StateInv, PartOf, NumFragments, PeerSends, MessageTo, Message.Datagram;
    MessageIs(c, x, n, packet);
    match a
    case OfPacket(i, process) => PartIs(c, x, y, n, packet, i);
    case OfAnother(f, process) =>
  }

  lemma MessageIs(c: Config, x: Peer, n: int, packet: bytes)
    requires c.Valid() && StateInv(c, x.state) && c.fragmentAbove < |packet| <= c.maxPacketSize
    requires Wrap(n) == Wrap(|x.packets|)
    ensures var m := MessageTo(n, x, packet);
            && m.Fragmented(c) && m.Sequence() == Wrap(|x.packets|) && m.packet == packet
            && m.Total(c) == NumFragments(|packet|, c.fragmentSize)
            && m.number == n
  {
    hide ReassemblyInv, NumFragments, Buffer.AckBits, Buffer.Ack;
  }

  // ---------------------------------------------------------------- the deliveries are those of an endpoint

  /** The actions make the receiver what the deliveries make it. */
  lemma {:induction false} ArrivalsReach(c: Config, timeA: real, timeB: real, before: seq<Action>, x: Peer,
                                         m: Message, packet: bytes, arrivals: seq<Arrival>)
    requires c.Valid() && CanSend(c) && Fits(c.sentPacketsBufferSize) && StateInv(c, x.state)
    requires c.fragmentAbove < |packet| <= c.maxPacketSize && m.Fragmented(c)
    requires var sys := Reached(c, timeA, timeB, before);
             && StateInv(c, sys.b.state)
             && forall i :: 0 <= i < |arrivals| ==> Fitting(c, sys.a, x, m, packet, arrivals[i])
    ensures var sys, sys' := Reached(c, timeA, timeB, before),
            Reached(c, timeA, timeB, before + ArriveAll(c, x, packet, arrivals));
            var ds := AsDeliveries(arrivals);
            && (forall i :: 0 <= i < |ds| ==> Expected(c, m, ds[i]))
            && sys'.a == sys.a
            && sys'.b.delivered == sys.b.delivered + DeliverAll(c, sys.b.state, m, ds).calls
            && sys'.b.state == DeliverAll(c, sys.b.state, m, ds).state
    decreases |arrivals|
  {
    hide Reached, PeerInv, StateInv, FrameOf, Expected, DataOf, Receive, PeerReceives;
    var sys := Reached(c, timeA, timeB, before);
    var acts, ds := ArriveAll(c, x, packet, arrivals), AsDeliveries(arrivals);
    if arrivals == [] {
      assert before + acts == before;
      assert sys.b.delivered + [] == sys.b.delivered;
    } else {
      var a, rest := arrivals[0], arrivals[1..];
      var f := FrameOf(c, x, packet, a);
      assert Fitting(c, sys.a, x, m, packet, a);
      RunGrows(c, timeA, timeB, before, Arrive(c, x, packet, a));
      DeliveredToB(c, sys, f, a.process);
      PeerReceivesIs(c, sys.b, f, a.process);
      ReceiveKeepsInv(c, sys.b.state, f.data, a.process);
      ArrivalsReach(c, timeA, timeB, before + [Arrive(c, x, packet, a)], x, m, packet, rest);
      assert before + acts == before + [Arrive(c, x, packet, a)] + ArriveAll(c, x, packet, rest);
      assert ds[1..] == AsDeliveries(rest) && ds[0] == AsDelivery(a);
    }
  }

  lemma ValidIsFormed(c: Config, st: State)
    requires StateInv(c, st)
    ensures st.received.WellFormed()
  {
  }

  ghost predicate Fitting(c: Config, sender: Peer, x: Peer, m: Message, packet: bytes, a: Arrival)
    requires c.Valid() && CanSend(c) && StateInv(c, x.state) && |packet| > 0 && m.Fragmented(c)
  {
    && FrameOf(c, x, packet, a) in sender.wire && Expected(c, m, AsDelivery(a))
    && FrameOf(c, x, packet, a).data == DataOf(c, m, AsDelivery(a))
  }

  // ---------------------------------------------------------------- results

  /** Every datagram of the packet is among the arrivals. */
  ghost predicate AllArrive(total: nat, arrivals: seq<Arrival>) {
    forall i: nat :: i < total ==> Arrived(arrivals, i)
  }

  predicate Arrived(arrivals: seq<Arrival>, i: nat) {
    exists j :: 0 <= j < |arrivals| && arrivals[j].OfPacket? && arrivals[j].id == i
  }

  lemma {:induction false} IdsAre(arrivals: seq<Arrival>, i: nat)
    ensures i in Ids(AsDeliveries(arrivals)) <==> Arrived(arrivals, i)
    decreases |arrivals|
  {
    if arrivals != [] {
      var ds, rest := AsDeliveries(arrivals), arrivals[1..];
      IdsAre(rest, i);
      assert ds[1..] == AsDeliveries(rest);
      if j :| 0 <= j < |arrivals| && arrivals[j].OfPacket? && arrivals[j].id == i {
        if j > 0 {
          assert rest[j - 1] == arrivals[j];
        }
      }
      if j :| 0 <= j < |rest| && rest[j].OfPacket? && rest[j].id == i {
        assert arrivals[j + 1] == rest[j];
      }
      if arrivals[0].OfPacket? && arrivals[0].id == i {
        assert Arrived(arrivals, i);
      }
    }
  }

  lemma WholeIsAllArrive(c: Config, m: Message, arrivals: seq<Arrival>)
    requires m.Fragmented(c)
    ensures Whole(c, m, Ids(AsDeliveries(arrivals))) <==> AllArrive(m.Total(c), arrivals)
  {
    hide Ids, Arrived, AsDeliveries;
    forall i: nat
      ensures i in Ids(AsDeliveries(arrivals)) <==> Arrived(arrivals, i)
    {
      IdsAre(arrivals, i);
    }
  }

  /** What holds right before a packet is sent that its receiver does not know yet: the number `n` that the receiver
      will count it as is in both windows or ahead of them by less than half the number space. */
  ghost predicate Unknown(c: Config, sys: System, n: int)
    requires c.Valid() && StateInv(c, sys.b.state)
  {
    var s, mark := Wrap(|sys.a.packets|), sys.b.mark;
    && Wrap(n) == s && !sys.b.state.received.Exists(s) && !sys.b.state.reassembly.Exists(s)
    && mark - c.receivedPacketsBufferSize <= n < mark + 32767 && mark - c.fragmentReassemblyBufferSize <= n
  }

  /** The conditions of the round trip: the receiver does not know the packet, the arrivals are of the network, and its
      window does not move past the packet. */
  ghost predicate Ready(c: Config, sys: System, n: int, packet: bytes, arrivals: seq<Arrival>)
    requires c.Valid() && CanSend(c) && SystemInv(c, sys)
  {
    && StateInv(c, sys.a.state) && StateInv(c, sys.b.state) && Unknown(c, sys, n)
    && (forall i :: 0 <= i < |arrivals| ==> MayArrive(c, sys.a, packet, arrivals[i]))
    && var m, ds := MessageTo(n, sys.a, packet), AsDeliveries(arrivals);
       && m.Fragmented(c) && (forall i :: 0 <= i < |ds| ==> Expected(c, m, ds[i]))
       && Calm(c, sys.b.state, sys.b.mark, m, ds)
  }

  /** Of the calls made since, exactly one under the sequence of the packet, and of the packet, byte for byte, if every
      datagram has arrived; and none otherwise. */
  ghost predicate HandedOnce(c: Config, sys: System, sys': System, packet: bytes, arrivals: seq<Arrival>)
    requires c.Valid()
  {
    var s := Wrap(|sys.a.packets|);
    && sys.b.delivered <= sys'.b.delivered
    && CallsFor(s, sys'.b.delivered[|sys.b.delivered|..])
       == if AllArrive(NumFragments(|packet|, c.fragmentSize), arrivals) then [Call(s, packet, true)] else []
  }

  /** The round trip between two endpoints: after any run, send a packet that travels in fragments, and let its
      datagrams arrive, in any order and any number of times each, with any others of the network in between. If the
      receiver did not know the packet, its window does not move past it, and it accepts the packet, then it is handed
      the packet exactly once, and nothing else under its sequence, if every datagram has arrived; and nothing
      otherwise. */
  lemma PacketArrives(c: Config, timeA: real, timeB: real, before: seq<Action>, n: int, packet: bytes,
                      arrivals: seq<Arrival>)
    requires c.Valid() && CanSend(c) && Fits(c.sentPacketsBufferSize) && WindowsFit(c)
    requires c.fragmentAbove < |packet| <= c.maxPacketSize
    requires Ready(c, Reached(c, timeA, timeB, before), n, packet, arrivals)
    ensures StateInv(c, Reached(c, timeA, timeB, before).a.state)
    ensures var sys := Reached(c, timeA, timeB, before);
            var after := before + [Action.Send(true, packet)] + ArriveAll(c, sys.a, packet, arrivals);
            HandedOnce(c, sys, Reached(c, timeA, timeB, after), packet, arrivals)
  {
    hide Reached, SystemInv, StateInv, Ready, Fitting, HandedOnce, PeerSends, Expected, DeliverAll, ArriveAll,
         MessageTo, ActOn, AsDeliveries, NumFragments;
    var sys := Reached(c, timeA, timeB, before);
    ReadyFits(c, sys, n, packet, arrivals);
    ValidIsFormed(c, sys.a.state);
    var m := MessageTo(n, sys.a, packet);
    RunGrows(c, timeA, timeB, before, Action.Send(true, packet));
    SentByA(c, sys, packet);
    var sent := before + [Action.Send(true, packet)];
    ArrivalsReach(c, timeA, timeB, sent, sys.a, m, packet, arrivals);
    var sys' := Reached(c, timeA, timeB, sent + ArriveAll(c, sys.a, packet, arrivals));
    ReadyHandsOver(c, sys, sys', n, packet, arrivals);
  }

  lemma ReadyFits(c: Config, sys: System, n: int, packet: bytes, arrivals: seq<Arrival>)
    requires c.Valid() && CanSend(c) && SystemInv(c, sys) && Ready(c, sys, n, packet, arrivals)
    requires c.fragmentAbove < |packet| <= c.maxPacketSize
    ensures StateInv(c, sys.a.state) && StateInv(c, sys.b.state)
    ensures var m, x' := MessageTo(n, sys.a, packet), PeerSends(c, sys.a, packet);
            m.Fragmented(c) && forall i :: 0 <= i < |arrivals| ==> Fitting(c, x', sys.a, m, packet, arrivals[i])
  {
    hide PeerInv, StateInv, MayArrive, Expected, DataOf, FrameOf, PeerSends, Calm, Unknown, MessageTo, AsDelivery;
    UnknownIs(c, sys, n);
    ValidIsFormed(c, sys.a.state);
    forall i | 0 <= i < |arrivals|
      ensures Fitting(c, PeerSends(c, sys.a, packet), sys.a, MessageTo(n, sys.a, packet), packet, arrivals[i])
    {
      MayBeExpected(c, sys.a, sys.b, n, packet, arrivals[i]);
    }
  }

  lemma ReadyHandsOver(c: Config, sys: System, sys': System, n: int, packet: bytes, arrivals: seq<Arrival>)
    requires c.Valid() && CanSend(c) && WindowsFit(c) && SystemInv(c, sys) && Ready(c, sys, n, packet, arrivals)
    requires c.fragmentAbove < |packet| <= c.maxPacketSize && StateInv(c, sys.b.state)
    requires var m, ds := MessageTo(n, sys.a, packet), AsDeliveries(arrivals);
             && m.Fragmented(c) && (forall i :: 0 <= i < |ds| ==> Expected(c, m, ds[i]))
             && sys'.b.delivered == sys.b.delivered + DeliverAll(c, sys.b.state, m, ds).calls
    ensures HandedOnce(c, sys, sys', packet, arrivals)
  {
    hide PeerInv, StateInv, MayArrive, Expected, Calm, DeliverAll, AllArrive, NumFragments, InStep, Wrap, Unwrap,
         Unknown, MessageTo, AsDeliveries, AcksOnce, NeverAcks;
    ValidIsFormed(c, sys.a.state);
    var m, ds := MessageTo(n, sys.a, packet), AsDeliveries(arrivals);
    UnknownIs(c, sys, n);
    MessageIs(c, sys.a, n, packet);
    UnknownIsNew(c, sys, n, packet);
    FragmentationRoundTrip(c, sys.b.state, sys.b.mark, m, ds);
    WholeIsAllArrive(c, m, arrivals);
    var calls := DeliverAll(c, sys.b.state, m, ds).calls;
    assert (sys.b.delivered + calls)[|sys.b.delivered|..] == calls;
  }

  lemma SentByA(c: Config, sys: System, packet: bytes)
    requires c.Valid() && CanSend(c) && SystemInv(c, sys) && |packet| > 0
    ensures StateInv(c, sys.a.state)
    ensures ActOn(c, sys, Action.Send(true, packet)) == sys.(a := PeerSends(c, sys.a, packet))
  {
    hide PeerInv, PeerSends;
    StatePart(c, sys.a, sys.b);
  }

  lemma UnknownIs(c: Config, sys: System, n: int)
    requires c.Valid() && StateInv(c, sys.b.state) && Unknown(c, sys, n)
    ensures Wrap(n) == Wrap(|sys.a.packets|)
  {
    hide StateInv, Wrap;
  }

  lemma UnknownIsNew(c: Config, sys: System, n: int, packet: bytes)
    requires c.Valid() && WindowsFit(c) && SystemInv(c, sys) && StateInv(c, sys.a.state) && StateInv(c, sys.b.state)
    requires Unknown(c, sys, n) && c.fragmentAbove < |packet| <= c.maxPacketSize
    ensures var m := MessageTo(n, sys.a, packet);
            && InStep(c, sys.b.state, sys.b.mark) && Near(Reach(c), sys.b.mark, m.number)
            && !sys.b.state.received.Exists(m.Sequence()) && !sys.b.state.reassembly.Exists(m.Sequence())
  {
    hide PeerInv, StateInv, Inv, Buffer.Exists, HistoryInv, Unwrap, Wrap, MessageTo;
    MessageIs(c, sys.a, n, packet);
    PastPart(c, sys.b, sys.a);
    StateOf(c, History(sys.b.state, sys.b.mark, sys.b.past));
  }

  // ---------------------------------------------------------------- its own datagrams

  ghost predicate OnlyOfPacket(c: Config, x: Peer, packet: bytes, arrivals: seq<Arrival>)
    requires c.Valid() && CanSend(c) && StateInv(c, x.state)
  {
    forall i :: 0 <= i < |arrivals| ==> arrivals[i].OfPacket? && MayArrive(c, x, packet, arrivals[i])
  }

  /** The fragments of a packet do not move the window past it. */
  lemma {:induction false} FragmentsAreCalm(c: Config, st: State, mark: int, m: Message, ds: seq<RoundTrip.Delivery>)
    requires m.Fragmented(c) && StateInv(c, st) && InStep(c, st, mark) && Near(Reach(c), mark, m.number)
    requires forall i :: 0 <= i < |ds| ==> ds[i].Fragment? && Expected(c, m, ds[i])
    ensures Calm(c, st, mark, m, ds)
    decreases |ds|
  {
    hide StateInv, InStep, RoundTrip.Deliver, MarkAfter;
    if ds != [] {
      FragmentIsCalm(c, st, mark, m, ds[0]);
      var st' := RoundTrip.Deliver(c, st, m, ds[0]).state;
      FragmentsAreCalm(c, st', MarkAfter(mark, st.received, st'.received), m, ds[1..]);
    }
  }

  lemma FragmentIsCalm(c: Config, st: State, mark: int, m: Message, d: RoundTrip.Delivery)
    requires m.Fragmented(c) && StateInv(c, st) && InStep(c, st, mark) && Near(Reach(c), mark, m.number)
    requires d.Fragment? && Expected(c, m, d)
    ensures var st' := RoundTrip.Deliver(c, st, m, d).state;
            var mark' := MarkAfter(mark, st.received, st'.received);
            && StateInv(c, st') && InStep(c, st', mark') && Near(Reach(c), mark', m.number)
            && mark' - Reach(c) <= m.number
  {
    hide Receive, ReassemblyInv, Moved, Inv, MarkAfter, DecodeFragment, Wrap;
    MessageFits(c, m, d.id);
    DatagramMovesMark(c, st, mark, DataOf(c, m, d), d.process);
    ReceiveMoves(c, st, mark, DataOf(c, m, d), d.process);
    UnwrapIs(mark, m.number);
  }

  /** Deliver every datagram that the transmit closure was handed for a packet, in any order, any number of times, and
      nothing else: a receiver that did not know the packet and accepts it is handed it exactly once. So no datagram of
      a packet may be kept from the network. */
  lemma EveryDatagramArrives(c: Config, timeA: real, timeB: real, before: seq<Action>, n: int, packet: bytes,
                             arrivals: seq<Arrival>)
    requires c.Valid() && CanSend(c) && Fits(c.sentPacketsBufferSize) && WindowsFit(c)
    requires c.fragmentAbove < |packet| <= c.maxPacketSize
    requires var sys := Reached(c, timeA, timeB, before);
             && StateInv(c, sys.a.state) && StateInv(c, sys.b.state) && Unknown(c, sys, n)
             && OnlyOfPacket(c, sys.a, packet, arrivals)
    ensures var sys := Reached(c, timeA, timeB, before);
            var after := before + [Action.Send(true, packet)] + ArriveAll(c, sys.a, packet, arrivals);
            HandedOnce(c, sys, Reached(c, timeA, timeB, after), packet, arrivals)
  {
    hide Reached, SystemInv, StateInv, Ready, HandedOnce, ArriveAll, Unknown, OnlyOfPacket;
    OwnAreReady(c, Reached(c, timeA, timeB, before), n, packet, arrivals);
    PacketArrives(c, timeA, timeB, before, n, packet, arrivals);
  }

  lemma OwnAreReady(c: Config, sys: System, n: int, packet: bytes, arrivals: seq<Arrival>)
    requires c.Valid() && CanSend(c) && WindowsFit(c) && SystemInv(c, sys)
    requires c.fragmentAbove < |packet| <= c.maxPacketSize
    requires StateInv(c, sys.a.state) && StateInv(c, sys.b.state) && Unknown(c, sys, n)
    requires OnlyOfPacket(c, sys.a, packet, arrivals)
    ensures Ready(c, sys, n, packet, arrivals)
  {
    hide PeerInv, StateInv, MayArrive, Expected, Calm, InStep, Wrap, Unwrap, Unknown, MessageTo, PeerSends,
         NumFragments;
    ValidIsFormed(c, sys.a.state);
    var m, ds := MessageTo(n, sys.a, packet), AsDeliveries(arrivals);
    UnknownIs(c, sys, n);
    MessageIs(c, sys.a, n, packet);
    UnknownIsNew(c, sys, n, packet);
    forall i | 0 <= i < |arrivals|
      ensures Expected(c, m, ds[i])
    {
      MayBeExpected(c, sys.a, sys.b, n, packet, arrivals[i]);
    }
    FragmentsAreCalm(c, sys.b.state, sys.b.mark, m, ds);
  }
}
