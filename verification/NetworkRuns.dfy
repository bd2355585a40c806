/** The network model adds nothing to the endpoints and takes nothing from them: each side is an endpoint on which the
    calls are made that the actions stand for, and what is on the wire is what the transmit closures were handed. So
    what holds of the runs of an endpoint holds here; above all, a packet whose datagrams arrive is handed over. */
module NetworkRuns {
  import opened Codec
  import opened Buffers
  import opened Windows
  import opened Protocol
  import opened Invariants
  import opened ReceiveSide
  import opened SendSide
  import opened Network
  import opened EndToEnd

  // ---------------------------------------------------------------- what a send puts on the wire

  /** Every datagram that the transmit closure is handed is on the network, as one of the next packet with the acks of
      the sender; and nothing else is new there. */
  lemma SendsReachTheWire(c: Config, x: Peer, packet: bytes)
    requires c.Valid() && CanSend(c) && StateInv(c, x.state) && |packet| > 0
    ensures !x.state.sent.Stale(x.state.sequence)
    ensures var sent, x' := Protocol.Send(c, x.state, packet).sent, PeerSends(c, x, packet);
            && x.wire <= x'.wire
            && (forall i :: 0 <= i < |sent| ==> IsNext(x, sent[i].data, NextFrame(x).(data := sent[i].data))
                                                && NextFrame(x).(data := sent[i].data) in x'.wire)
            && (forall f :: f in x'.wire && f !in x.wire ==>
                  exists i :: 0 <= i < |sent| && f == NextFrame(x).(data := sent[i].data))
  {
    hide Datagrams, ReassemblyInv, Buffer.Insert, Buffer.AckBits, Buffer.Ack, NextFrame;
    NextFits(c, x.state);
    NextIs(x);
    if |packet| <= c.maxPacketSize {
      var st := x.state;
      var datagrams := Datagrams(c, st.sequence, st.received.Ack(), st.received.AckBits(), packet);
      var sent, x' := Protocol.Send(c, st, packet).sent, PeerSends(c, x, packet);
      assert forall i :: 0 <= i < |sent| ==> sent[i].data == datagrams[i];
      forall i | 0 <= i < |sent|
        ensures NextFrame(x).(data := sent[i].data) in FramesOf(NextFrame(x), datagrams)
      {
        assert NextFrame(x).(data := datagrams[i]) in FramesOf(NextFrame(x), datagrams);
      }
    }
  }

  /** A datagram of the packet that `x` sends next. */
  predicate IsNext(x: Peer, data: bytes, f: Frame)
    requires x.state.received.WellFormed()
  {
    && f.number == |x.packets| && f.data == data
    && f.ack == x.state.received.Ack() && f.ackBits == x.state.received.AckBits()
  }

  lemma NextIs(x: Peer)
    requires x.state.received.WellFormed()
    ensures forall data :: IsNext(x, data, NextFrame(x).(data := data))
  {
    hide Buffer.AckBits, Buffer.Ack;
  }

  // ---------------------------------------------------------------- a peer is an endpoint

  /** The call that an action of `x` stands for: none, if it sends nothing or delivers what was never sent. */
  ghost function CallOf(y: Peer, action: Action): seq<Event> {
    match action
    case Send(_, packet) => if packet == [] then [] else [SendPacket(packet)]
    case Deliver(_, f, process) => if f in y.wire && f.data != [] then [ReceivePacket(f.data, process)] else []
    case Clear(_) => [ClearAcks]
    case Tick(_, time) => [Update(time)]
  }

  /** The calls on one side. */
  ghost function CallsOn(c: Config, timeA: real, timeB: real, actions: seq<Action>, onA: bool): seq<Event>
    requires c.Valid() && CanSend(c) && Fits(c.sentPacketsBufferSize)
    decreases |actions|
  {
    if actions == [] then []
    else
      var front, last := actions[..|actions| - 1], actions[|actions| - 1];
      var sys := Reached(c, timeA, timeB, front);
      CallsOn(c, timeA, timeB, front, onA)
      + (if ByA(last) == onA then CallOf(if onA then sys.b else sys.a, last) else [])
  }

  /** The packets that are sent, not being too large. */
  function PacketsOf(c: Config, events: seq<Event>): seq<bytes> {
    if events == [] then []
    else
      PacketsOf(c, events[..|events| - 1])
      + if events[|events| - 1].SendPacket? && |events[|events| - 1].packet| <= c.maxPacketSize
        then [events[|events| - 1].packet] else []
  }

  /** A peer is what the run of its calls makes it. */
  ghost predicate IsRun(c: Config, time: real, x: Peer, events: seq<Event>)
    requires c.Valid() && CanSend(c)
  {
    && Running(events) && LegalRun(events)
    && x.state == StateAfter(c, time, events)
    && x.delivered == HandedIn(c, time, events)
    && x.packets == PacketsOf(c, events)
    && (forall data: bytes :: OnWire(x, data) <==> Handed(HandedOut(c, time, events), data))
  }

  ghost predicate OnWire(x: Peer, data: bytes) {
    exists f :: f in x.wire && f.data == data
  }

  predicate Handed(sent: seq<Transmission>, data: bytes) {
    exists i :: 0 <= i < |sent| && sent[i].data == data
  }

  lemma StartIsRun(c: Config, time: real)
    requires c.Valid() && CanSend(c)
    ensures IsRun(c, time, StartPeer(c, time), [])
  {
    InitInv(c, time);
  }

  lemma LastCall(c: Config, time: real, events: seq<Event>, e: Event)
    requires c.Valid() && CanSend(c) && LegalRun(events) && Legal(e)
    ensures LegalRun(events + [e])
    ensures StateAfter(c, time, events + [e]) == Step(c, StateAfter(c, time, events), e)
    ensures HandedIn(c, time, events + [e])
            == HandedIn(c, time, events)
               + if e.ReceivePacket? then Receive(c, StateAfter(c, time, events), e.data, e.process).calls else []
    ensures !StateAfter(c, time, events).sent.Stale(StateAfter(c, time, events).sequence)
    ensures HandedOut(c, time, events + [e])
            == HandedOut(c, time, events)
               + if e.SendPacket? then Protocol.Send(c, StateAfter(c, time, events), e.packet).sent else []
    ensures PacketsOf(c, events + [e])
            == PacketsOf(c, events)
               + if e.SendPacket? && |e.packet| <= c.maxPacketSize then [e.packet] else []
  {
    hide Step, Receive, Protocol.Send, Init, StateInv;
    var all := events + [e];
    assert all[..|all| - 1] == events;
    StateFits(c, StateAfter(c, time, events));
  }

  lemma StateFits(c: Config, st: State)
    requires c.Valid() && CanSend(c) && StateInv(c, st)
    ensures !st.sent.Stale(st.sequence)
  {
    NextFits(c, st);
  }

  lemma SendIsRun(c: Config, time: real, x: Peer, events: seq<Event>, packet: bytes)
    requires c.Valid() && CanSend(c) && IsRun(c, time, x, events) && |packet| > 0
    ensures StateInv(c, x.state) && IsRun(c, time, PeerSends(c, x, packet), events + [SendPacket(packet)])
  {
    hide StateAfter, HandedIn, HandedOut, PacketsOf, Protocol.Send, ReassemblyInv, PeerSends, Receive;
    var e := SendPacket(packet);
    LastCall(c, time, events, e);
    NothingAdded(HandedIn(c, time, events), HandedOut(c, time, events), PacketsOf(c, events));
    PeerSendsIs(c, x, packet);
    SendsReachTheWire(c, x, packet);
    var x' := PeerSends(c, x, packet);
    var before, sent := HandedOut(c, time, events), Protocol.Send(c, x.state, packet).sent;
    forall data: bytes
      ensures OnWire(x', data) <==> Handed(before + sent, data)
    {
      WireGrows(x, x', before, sent, data);
    }
  }

  lemma PeerSendsIs(c: Config, x: Peer, packet: bytes)
    requires c.Valid() && CanSend(c) && StateInv(c, x.state) && |packet| > 0
    ensures !x.state.sent.Stale(x.state.sequence)
    ensures var x' := PeerSends(c, x, packet);
            && x'.state == Protocol.Send(c, x.state, packet).state && x'.delivered == x.delivered
            && x'.packets == x.packets + (if |packet| <= c.maxPacketSize then [packet] else [])
  {
    hide Datagrams, ReassemblyInv, Buffer.Insert, Buffer.AckBits, Buffer.Ack, NextFrame, FramesOf;
    NextFits(c, x.state);
  }

  lemma WireGrows(x: Peer, x': Peer, before: seq<Transmission>, sent: seq<Transmission>, data: bytes)
    requires x.state.received.WellFormed() && x.wire <= x'.wire && (OnWire(x, data) <==> Handed(before, data))
    requires forall i :: 0 <= i < |sent| ==> NextFrame(x).(data := sent[i].data) in x'.wire
    requires forall f :: f in x'.wire && f !in x.wire ==>
               exists i :: 0 <= i < |sent| && f == NextFrame(x).(data := sent[i].data)
    ensures OnWire(x', data) <==> Handed(before + sent, data)
  {
    hide NextFrame;
    HandedConcat(before, sent, data);
    if OnWire(x', data) {
      var f :| f in x'.wire && f.data == data;
      if f !in x.wire {
        var i :| 0 <= i < |sent| && f == NextFrame(x).(data := sent[i].data);
        assert sent[i].data == data;
      }
    }
    if Handed(sent, data) {
      var i :| 0 <= i < |sent| && sent[i].data == data;
      assert NextFrame(x).(data := sent[i].data).data == data;
    }
  }

  lemma HandedConcat(a: seq<Transmission>, b: seq<Transmission>, data: bytes)
    ensures Handed(a + b, data) <==> Handed(a, data) || Handed(b, data)
  {
    if i :| 0 <= i < |a| && a[i].data == data {
      assert (a + b)[i].data == data;
    }
    if i :| 0 <= i < |b| && b[i].data == data {
      assert (a + b)[|a| + i].data == data;
    }
  }

  lemma NothingAdded(a: seq<Call>, b: seq<Transmission>, p: seq<bytes>)
    ensures a + [] == a && b + [] == b && p + [] == p
  {
  }

  lemma ReceiveIsRun(c: Config, time: real, x: Peer, events: seq<Event>, f: Frame, process: Process)
    requires c.Valid() && CanSend(c) && IsRun(c, time, x, events) && |f.data| > 0
    ensures StateInv(c, x.state)
    ensures IsRun(c, time, PeerReceives(c, x, f, process), events + [ReceivePacket(f.data, process)])
  {
    hide StateAfter, HandedIn, HandedOut, PacketsOf, Protocol.Send, StateInv, PeerReceives, Receive, Handed;
    LastCall(c, time, events, ReceivePacket(f.data, process));
    NothingAdded(HandedIn(c, time, events), HandedOut(c, time, events), PacketsOf(c, events));
    PeerReceivesIs(c, x, f, process);
    SameWire(x, PeerReceives(c, x, f, process));
  }

  lemma SameWire(x: Peer, x': Peer)
    requires x'.wire == x.wire
    ensures forall data :: OnWire(x', data) <==> OnWire(x, data)
  {
  }

  lemma QuietIsRun(c: Config, time: real, x: Peer, events: seq<Event>, e: Event)
    requires c.Valid() && CanSend(c) && IsRun(c, time, x, events) && (e.ClearAcks? || e.Update?)
    ensures StateInv(c, x.state) && IsRun(c, time, x.(state := Step(c, x.state, e)), events + [e])
  {
    hide StateAfter, HandedIn, HandedOut, PacketsOf, Protocol.Send, StateInv, Receive, Step, Handed;
    LastCall(c, time, events, e);
    NothingAdded(HandedIn(c, time, events), HandedOut(c, time, events), PacketsOf(c, events));
    SameWire(x, x.(state := Step(c, x.state, e)));
  }

  lemma ActsIsRun(c: Config, time: real, x: Peer, y: Peer, events: seq<Event>, action: Action)
    requires c.Valid() && CanSend(c) && IsRun(c, time, x, events)
    ensures StateInv(c, x.state) && IsRun(c, time, Acts(c, x, y, action), events + CallOf(y, action))
  {
    hide IsRun, StateInv, PeerSends, PeerReceives, Step;
    RunIsValid(c, time, x, events);
    match action {
      case Send(_, packet) =>
        if packet == [] {
          SendsEmpty(c, x);
          assert events + [] == events;
        } else {
          SendIsRun(c, time, x, events, packet);
        }
      case Deliver(_, f, process) =>
        if f in y.wire && f.data != [] {
          ReceiveIsRun(c, time, x, events, f, process);
        } else {
          ReceivesEmpty(c, x, f, process);
          assert events + [] == events;
        }
      case Clear(_) =>
        QuietIsRun(c, time, x, events, ClearAcks);
        QuietSteps(c, x.state, 0.0);
      case Tick(_, t) =>
        QuietIsRun(c, time, x, events, Update(t));
        QuietSteps(c, x.state, t);
    }
  }

  lemma RunIsValid(c: Config, time: real, x: Peer, events: seq<Event>)
    requires c.Valid() && CanSend(c) && IsRun(c, time, x, events)
    ensures StateInv(c, x.state)
  {
    hide StateInv;
  }

  lemma SendsEmpty(c: Config, x: Peer)
    requires c.Valid() && CanSend(c) && StateInv(c, x.state)
    ensures PeerSends(c, x, []) == x
  {
  }

  lemma ReceivesEmpty(c: Config, x: Peer, f: Frame, process: Process)
    requires c.Valid() && StateInv(c, x.state)
    ensures f.data == [] ==> PeerReceives(c, x, f, process) == x
  {
    hide Receive, HeaderFrame, SourcesOf, PartsAfter, MarkAfter, AddedAcks, Numbers, ReassemblyInv;
  }

  lemma QuietSteps(c: Config, st: State, time: real)
    requires c.Valid() && CanSend(c) && StateInv(c, st)
    ensures Step(c, st, ClearAcks) == st.(acks := []) && Step(c, st, Update(time)) == st.(time := time)
  {
  }

  /** After every sequence of actions each side is an endpoint after its own calls: same state, same calls to the
      process closure, same packets, and on its wire exactly the datagrams that its transmit closure was handed. */
  lemma {:induction false} PeersAreRuns(c: Config, timeA: real, timeB: real, actions: seq<Action>)
    requires c.Valid() && CanSend(c) && Fits(c.sentPacketsBufferSize)
    ensures var sys := Reached(c, timeA, timeB, actions);
            && IsRun(c, timeA, sys.a, CallsOn(c, timeA, timeB, actions, true))
            && IsRun(c, timeB, sys.b, CallsOn(c, timeA, timeB, actions, false))
    decreases |actions|
  {
    hide IsRun, SystemInv, Acts, CallOf, StartPeer;
    if actions == [] {
      StartIsRun(c, timeA);
      StartIsRun(c, timeB);
    } else {
      var front, last := actions[..|actions| - 1], actions[|actions| - 1];
      PeersAreRuns(c, timeA, timeB, front);
      var sys := Reached(c, timeA, timeB, front);
      var callsA, callsB := CallsOn(c, timeA, timeB, front, true), CallsOn(c, timeA, timeB, front, false);
      assert callsA + [] == callsA && callsB + [] == callsB;
      if ByA(last) {
        ActsIsRun(c, timeA, sys.a, sys.b, callsA, last);
      } else {
        ActsIsRun(c, timeB, sys.b, sys.a, callsB, last);
      }
    }
  }
}
