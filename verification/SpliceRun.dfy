/** A run of two endpoints, with no datagram made up, that delivers a packet nobody sent: half of one packet and half of
    the packet sent a whole turn of the number space later. */
module SpliceRun {
  import opened Sequence
  import opened Codec
  import opened Buffers
  import opened Windows
  import opened Reassembly
  import opened Protocol
  import opened Invariants
  import opened ReceiveSide
  import opened SendSide
  import opened RoundTrip
  import opened Network
  import opened EndToEnd

  /** The configurations for which the run is given: two full fragments make a legal packet that travels in
      fragments. */
  predicate Splits(c: Config) {
    && c.Valid() && CanSend(c) && Fits(c.sentPacketsBufferSize) && WindowsFit(c)
    && c.fragmentAbove < 2 * c.fragmentSize <= c.maxPacketSize
  }

  function Uniform(size: nat, value: byte): bytes {
    seq(size, _ => value)
  }

  function Zeroes(c: Config): bytes {
    Uniform(2 * c.fragmentSize, 0)
  }

  function Ones(c: Config): bytes {
    Uniform(2 * c.fragmentSize, 1)
  }

  /** What arrives. */
  function Mixed(c: Config): bytes {
    Uniform(c.fragmentSize, 0) + Uniform(c.fragmentSize, 1)
  }

  /** The packets sent: number 0 is all zeroes, number 65536 all ones, and those between are of one byte. */
  function PacketAt(c: Config, i: nat): bytes {
    if i == 0 then Zeroes(c) else if i == 65536 then Ones(c) else [0]
  }

  function Sent(c: Config, n: nat): seq<bytes> {
    seq(n, i requires 0 <= i < n => PacketAt(c, i))
  }

  function SendEach(c: Config, n: nat): seq<Action> {
    seq(n, i requires 0 <= i < n => Send(true, PacketAt(c, i)))
  }

  function AcceptAny(): Process {
    (s: u16, payload: bytes) => true
  }

  /** The message that the receiver believes it is getting. */
  function MixedMessage(c: Config, time: real): Message
    requires c.Valid()
  {
    Message(0, Init(c, time).received.Ack(), Init(c, time).received.AckBits(), Mixed(c))
  }

  /** Fragment `i` of packet `number`, as sent by a peer that has received nothing. */
  function FrameAt(c: Config, time: real, number: nat, i: nat): Frame
    requires Splits(c) && i < 2 && (number == 0 || number == 65536)
  {
    MixedMessageFits(c, time);
    Frame(number, Init(c, time).received.Ack(), Init(c, time).received.AckBits(), map[], 0, 0,
          MixedMessage(c, time).Datagram(c, i))
  }

  lemma MixedMessageFits(c: Config, time: real)
    requires Splits(c)
    ensures MixedMessage(c, time).Fragmented(c) && MixedMessage(c, time).Total(c) == 2
    ensures NumFragments(2 * c.fragmentSize, c.fragmentSize) == 2
  {
    TwoFragments(c.fragmentSize);
  }

  lemma TwoFragments(fragmentSize: nat)
    requires fragmentSize > 0
    ensures NumFragments(2 * fragmentSize, fragmentSize) == 2
  {
    FragmentBounds(2 * fragmentSize, fragmentSize);
    var n := NumFragments(2 * fragmentSize, fragmentSize);
    if n >= 3 {
      Monotone(2, n - 1, fragmentSize);
    } else if n <= 1 {
      Monotone(n, 1, fragmentSize);
    }
  }

  /** The first fragment of the zeroes and the second of the ones are the fragments of the mixed packet. */
  lemma SameFragments(c: Config, time: real)
    requires Splits(c)
    ensures MixedMessage(c, time).Fragmented(c) && MixedMessage(c, time).Total(c) == 2
    ensures var m := MixedMessage(c, time);
            && |Zeroes(c)| == |Ones(c)| == |m.packet| && NumFragments(|m.packet|, c.fragmentSize) == 2
            && FragmentDatagram(c, 0, m.ack, m.ackBits, Zeroes(c), 0) == m.Datagram(c, 0)
            && FragmentDatagram(c, 0, m.ack, m.ackBits, Ones(c), 1) == m.Datagram(c, 1)
  {
    hide EncodeFragment, Init, NumFragments;
    MixedMessageFits(c, time);
    var size := c.fragmentSize;
    assert Chunk(Zeroes(c), 0, size) == Uniform(size, 0) == Chunk(Mixed(c), 0, size);
    assert Chunk(Ones(c), 1, size) == Uniform(size, 1) == Chunk(Mixed(c), 1, size);
  }

  /** What is known after the first `n` sends. */
  ghost predicate SentSoFar(c: Config, timeA: real, timeB: real, sys: System, n: nat)
    requires Splits(c)
  {
    && sys.b == StartPeer(c, timeB)
    && sys.a.packets == Sent(c, n) && sys.a.state.received == Init(c, timeA).received
    && sys.a.latest == map[] && sys.a.receipts == [] && sys.a.mark == 0
    && (n > 0 ==> FrameAt(c, timeA, 0, 0) in sys.a.wire)
    && (n > 65536 ==> FrameAt(c, timeA, 65536, 1) in sys.a.wire)
  }

  lemma {:induction false} SendsReach(c: Config, timeA: real, timeB: real, n: nat)
    requires Splits(c) && n <= 65537
    ensures SentSoFar(c, timeA, timeB, Reached(c, timeA, timeB, SendEach(c, n)), n)
    decreases n, c
  {
    hide SentSoFar, SystemInv, PacketAt;
    if n == 0 {
      StartsSending(c, timeA, timeB);
    } else {
      var sys := Reached(c, timeA, timeB, SendEach(c, n - 1));
      SendsReach(c, timeA, timeB, n - 1);
      assert SendEach(c, n)[..n - 1] == SendEach(c, n - 1) && SendEach(c, n)[n - 1] == Send(true, PacketAt(c, n - 1));
      OneMoreSent(c, timeA, timeB, sys, n - 1);
    }
  }

  lemma StartsSending(c: Config, timeA: real, timeB: real)
    requires Splits(c)
    ensures SentSoFar(c, timeA, timeB, Reached(c, timeA, timeB, SendEach(c, 0)), 0)
  {
    hide SystemInv;
    assert SendEach(c, 0) == [];
  }

  lemma OneMoreSent(c: Config, timeA: real, timeB: real, sys: System, n: nat)
    requires Splits(c) && n <= 65536 && SystemInv(c, sys) && SentSoFar(c, timeA, timeB, sys, n)
    ensures SentSoFar(c, timeA, timeB, ActOn(c, sys, Send(true, PacketAt(c, n))), n + 1)
  {
    hide PeerInv, PeerSends, FrameAt, Init, ReassemblyInv, PacketAt;
    var packet := PacketAt(c, n);
    StatePart(c, sys.a, sys.b);
    SendPart(c, sys.a, sys.b);
    SequenceIsTotal(c, sys.a);
    PacketIsLegal(c, n);
    SendAddsPacket(c, sys.a, packet);
    assert Sent(c, n + 1) == Sent(c, n) + [packet];
    if n == 0 {
      FragmentOnWire(c, timeA, sys.a, 0, 0);
    } else if n == 65536 {
      FragmentOnWire(c, timeA, sys.a, 65536, 1);
    }
  }

  lemma PacketIsLegal(c: Config, n: nat)
    requires Splits(c)
    ensures 0 < |PacketAt(c, n)| <= c.maxPacketSize
  {
  }

  /** What sending a legal packet changes of what is known. */
  lemma SendAddsPacket(c: Config, x: Peer, packet: bytes)
    requires c.Valid() && CanSend(c) && StateInv(c, x.state) && 0 < |packet| <= c.maxPacketSize
    ensures var x' := PeerSends(c, x, packet);
            && x'.packets == x.packets + [packet] && x'.state.received == x.state.received
            && x'.latest == x.latest && x'.receipts == x.receipts && x'.mark == x.mark && x.wire <= x'.wire
  {
    hide FramesOf, Datagrams, ReassemblyInv, Buffer.Insert, Buffer.AckBits;
    NextFits(c, x.state);
  }

  /** Sending a packet of two fragments puts both on the network. */
  lemma FragmentOnWire(c: Config, timeA: real, x: Peer, number: nat, i: nat)
    requires Splits(c) && StateInv(c, x.state) && |x.packets| == number && x.state.sequence == Wrap(number)
    requires x.state.received == Init(c, timeA).received && x.latest == map[] && x.receipts == [] && x.mark == 0
    requires (number == 0 && i == 0) || (number == 65536 && i == 1)
    ensures FrameAt(c, timeA, number, i) in PeerSends(c, x, PacketAt(c, number)).wire
  {
    hide Init, FragmentDatagram, ReassemblyInv, Buffer.Ack, Buffer.AckBits, Buffer.Insert, NumFragments;
    SameFragments(c, timeA);
    NextFits(c, x.state);
    var f := FrameAt(c, timeA, number, i);
    var datagrams := Datagrams(c, x.state.sequence, f.ack, f.ackBits, PacketAt(c, number));
    assert datagrams[i] == f.data;
    assert NextFrame(x).(data := datagrams[i]) == f;
  }

  /** The run: all sends, then the first fragment of packet 0 and the second of packet 65536. */
  function SpliceActions(c: Config, timeA: real): seq<Action>
    requires Splits(c)
  {
    SendEach(c, 65537) + [Deliver(false, FrameAt(c, timeA, 0, 0), AcceptAny())]
                    + [Deliver(false, FrameAt(c, timeA, 65536, 1), AcceptAny())]
  }

  /** The receiver takes the two fragments for those of the mixed packet. */
  lemma TwoArrivals(c: Config, timeA: real, timeB: real)
    requires Splits(c)
    ensures MixedMessage(c, timeA).Fragmented(c) && MixedMessage(c, timeA).Total(c) == 2
    ensures StateInv(c, Init(c, timeB))
    ensures var m := MixedMessage(c, timeA);
            && |m.Datagram(c, 0)| > 0 && |m.Datagram(c, 1)| > 0
            && var r := Receive(c, Init(c, timeB), m.Datagram(c, 0), AcceptAny());
               && r.calls == [] && StateInv(c, r.state)
               && Receive(c, r.state, m.Datagram(c, 1), AcceptAny()).calls == [Call(0, Mixed(c), true)]
  {
    hide Receive, Init, Collecting, StateInv, Mixed;
    MixedMessageFits(c, timeA);
    var m := MixedMessage(c, timeA);
    NothingYet(c, timeB, m);
    CollectingIsValid(c, Init(c, timeB), 0, m, {});
    var mark := FirstArrival(c, Init(c, timeB), m);
    SecondArrival(c, Receive(c, Init(c, timeB), m.Datagram(c, 0), AcceptAny()).state, mark, m);
  }

  lemma CollectingIsValid(c: Config, st: State, mark: int, m: Message, got: set<nat>)
    requires Collecting(c, st, mark, m, got)
    ensures StateInv(c, st)
  {
  }

  lemma FirstArrival(c: Config, st: State, m: Message) returns (mark: int)
    requires m.Fragmented(c) && m.Total(c) == 2 && Collecting(c, st, 0, m, {})
    ensures StateInv(c, st) && |m.Datagram(c, 0)| > 0
    ensures var r := Receive(c, st, m.Datagram(c, 0), AcceptAny());
            r.calls == [] && StateInv(c, r.state) && Collecting(c, r.state, mark, m, {0})
  {
    hide Receive, AckStep, Collecting, StateInv, NumFragments;
    CollectingIsValid(c, st, 0, m, {});
    var none: set<nat>, missing: nat := {}, 1;
    FragmentArrives(c, st, 0, m, none, 0, AcceptAny());
    var r := Receive(c, st, m.Datagram(c, 0), AcceptAny());
    mark := MarkAfter(0, st.received, r.state.received);
    assert missing < m.Total(c) && missing !in none + {0};
    assert none + {0} == {0};
    CollectingIsValid(c, r.state, mark, m, {0});
  }

  lemma SecondArrival(c: Config, st: State, mark: int, m: Message)
    requires m.Fragmented(c) && m.Total(c) == 2 && Collecting(c, st, mark, m, {0})
    ensures StateInv(c, st) && |m.Datagram(c, 1)| > 0
    ensures Receive(c, st, m.Datagram(c, 1), AcceptAny()).calls == [Call(m.Sequence(), m.packet, true)]
  {
    hide Receive, AckStep, Collecting, StateInv, NumFragments;
    CollectingIsValid(c, st, mark, m, {0});
    var one: set<nat> := {0};
    FragmentArrives(c, st, mark, m, one, 1, AcceptAny());
    assert Whole(c, m, one + {1});
  }

  lemma NothingYet(c: Config, time: real, m: Message)
    requires Splits(c) && m.Fragmented(c) && m.number == 0
    ensures Collecting(c, Init(c, time), 0, m, {})
  {
    hide ReassemblyInv;
    InitInv(c, time);
    EmptyRefines(c.receivedPacketsBufferSize, NO_RECEIVED);
    EmptyRefines(c.fragmentReassemblyBufferSize, NoReassembly());
  }

  lemma NeitherPacket(c: Config)
    requires c.fragmentSize > 0
    ensures Mixed(c) != Zeroes(c) && Mixed(c) != Ones(c)
  {
    assert Mixed(c)[c.fragmentSize] == 1 && Zeroes(c)[c.fragmentSize] == 0;
    assert Mixed(c)[0] == 0 && Ones(c)[0] == 1;
  }

  /** A splice is delivered: the call to the process closure is accepted, and its payload is neither of the two packets
      that were ever sent under its sequence. */
  lemma SpliceIsDelivered(c: Config, timeA: real, timeB: real)
    requires Splits(c)
    ensures var sys := Reached(c, timeA, timeB, SpliceActions(c, timeA));
            && sys.a.packets == Sent(c, 65537) && sys.b.delivered == [Call(0, Mixed(c), true)]
            && (forall p: nat :: p < |sys.a.packets| && Wrap(p) == 0 ==> sys.a.packets[p] != Mixed(c))
  {
    hide Receive, SystemInv, SentSoFar, FrameAt, SendEach, Mixed, Zeroes, Ones, AcceptAny, Reached;
    var sends := SendEach(c, 65537);
    SendsReach(c, timeA, timeB, 65537);
    var sys := Reached(c, timeA, timeB, sends);
    RunGrows(c, timeA, timeB, sends, Deliver(false, FrameAt(c, timeA, 0, 0), AcceptAny()));
    RunGrows(c, timeA, timeB, sends + [Deliver(false, FrameAt(c, timeA, 0, 0), AcceptAny())],
             Deliver(false, FrameAt(c, timeA, 65536, 1), AcceptAny()));
    BothDelivered(c, timeA, timeB, sys);
    NeitherPacket(c);
    forall p: nat | p < 65537 && Wrap(p) == 0
      ensures PacketAt(c, p) != Mixed(c)
    {
      OnlyTwo(p);
    }
  }

  lemma OnlyTwo(p: nat)
    requires p < 65537 && Wrap(p) == 0
    ensures p == 0 || p == 65536
  {
  }

  /** The last two steps of the run. */
  lemma BothDelivered(c: Config, timeA: real, timeB: real, sys: System)
    requires Splits(c) && SystemInv(c, sys) && SentSoFar(c, timeA, timeB, sys, 65537)
    ensures var first := ActOn(c, sys, Deliver(false, FrameAt(c, timeA, 0, 0), AcceptAny()));
            && SystemInv(c, first)
            && var last := ActOn(c, first, Deliver(false, FrameAt(c, timeA, 65536, 1), AcceptAny()));
               last.a.packets == Sent(c, 65537) && last.b.delivered == [Call(0, Mixed(c), true)]
  {
    hide Receive, PeerInv, HeaderFrame, SourcesOf, PartsAfter, MarkAfter, Init, Mixed;
    TwoArrivals(c, timeA, timeB);
    ActOnKeeps(c, sys, Deliver(false, FrameAt(c, timeA, 0, 0), AcceptAny()));
  }
}
