/** At-most-once acceptance in the packet numbers of the sender: how the receiver's count of a packet relates to them,
    exactly when a packet is accepted a second time, and how old a datagram may be for that never to happen. */
module Freshness {
  import opened Wrappers
  import opened Sequence
  import opened Codec
  import opened CodecLaws
  import opened Buffers
  import opened Windows
  import opened Reassembly
  import opened Protocol
  import opened Invariants
  import opened ReceiveSide
  import opened Duplicates
  import opened SendSide
  import opened Network
  import opened Delivery
  import opened EndToEnd

  // ---------------------------------------------------------------- one packet, twice

  lemma PastPart(c: Config, x: Peer, y: Peer)
    requires c.Valid() && WindowsFit(c) && PeerInv(c, x, y)
    ensures HistoryInv(c, History(x.state, x.mark, x.past)) && |x.past| == |x.receipts|
    ensures forall e :: 0 <= e < |x.receipts| ==> CountedFrom(x, e) && x.past[e].sequence == Wrap(x.receipts[e].number)
  {
    hide HistoryInv, SendInv, FrameOk, Genuine, SlotKnown, EvidenceOk, ReceiptOk, CountedFrom;
  }

  /** The receiver counts an accepted packet as the number that the sender gave it if and only if that number was, when
      the datagram came in, within half the number space of the receiver's mark. */
  lemma CountedRightExactly(c: Config, x: Peer, y: Peer, e: nat)
    requires c.Valid() && WindowsFit(c) && PeerInv(c, x, y) && e < |x.receipts|
    ensures |x.past| == |x.receipts|
    ensures var t := x.receipts[e];
            x.past[e].number == t.number <==> t.mark - 32768 <= t.number < t.mark + 32768
  {
    hide PeerInv, HistoryInv;
    PastPart(c, x, y);
    assert CountedFrom(x, e);
    var t := x.receipts[e];
    if t.mark - 32768 <= t.number < t.mark + 32768 {
      UnwrapIs(t.mark, t.number);
    }
  }

  /** If a packet is accepted a second time, having been counted right the first time, then the mark was more than half
      the number space beyond it when the second datagram came in. */
  lemma TwiceOnlyFromFarBack(c: Config, x: Peer, y: Peer, i: nat, j: nat)
    requires c.Valid() && WindowsFit(c) && PeerInv(c, x, y) && i < j < |x.receipts|
    requires |x.past| == |x.receipts| && x.past[i].number == x.receipts[i].number == x.receipts[j].number
    ensures x.receipts[j].mark - x.receipts[j].number > 32768 && x.past[j].number >= x.receipts[j].number + 65536
  {
    hide PeerInv, StateInv, InStep, Live, AcceptanceOk;
    PastPart(c, x, y);
    assert CountedFrom(x, j);
    assert Apart(c, x.past[i], x.past[j]);
  }

  lemma WholeDatagram(c: Config, x: Peer, f: Frame)
    requires c.Valid() && FrameOk(c, x, f) && |x.packets[f.number]| <= c.fragmentAbove
    ensures f.data == EncodeHeader(Wrap(f.number), f.ack, f.ackBits) + x.packets[f.number]
  {
    hide EncodeHeader, Backed, Repeats;
  }

  /** Exactly when the datagram of a packet that travels whole is handed over. */
  lemma WholeHandedOver(c: Config, x: Peer, y: Peer, f: Frame, process: Process)
    requires c.Valid() && WindowsFit(c) && PeerInv(c, x, y) && PeerInv(c, y, x) && f in y.wire
    requires f.number < |y.packets| && |y.packets[f.number]| <= c.fragmentAbove
    ensures StateInv(c, x.state) && |f.data| > 0
    ensures var u := Unwrap(x.mark, Wrap(f.number));
            Receive(c, x.state, f.data, process).calls != [] <==>
            InsertReach(c.receivedPacketsBufferSize, x.mark, u) && !WasAccepted(History(x.state, x.mark, x.past), u)
  {
    hide PeerInv, HistoryInv, FrameOk, Receive, DecodeHeader, StateInv, InsertReach, WasAccepted, Wrap, Unwrap;
    StatePart(c, x, y);
    WireOk(c, x, y, f);
    FramePart(c, y, f);
    WholeDatagram(c, y, f);
    RegularReads(Wrap(f.number), f.ack, f.ackBits, y.packets[f.number]);
    ReadsAsRegular(f.data);
    ReadsHeader(c, f.data);
    PastPart(c, x, y);
    RegularHandedOverExactly(c, History(x.state, x.mark, x.past), f.data, process);
  }

  lemma ReadsHeader(c: Config, data: bytes)
    requires |data| > 0 && data[0] % 2 == 0 && DecodeHeader(data).Some?
    ensures SequenceIn(c, data) == Some(DecodeHeader(data).value.sequence)
  {
    hide DecodeHeader;
  }

  /** Exactly when a datagram of an accepted packet that travels whole is handed over once more, within one turn of the
      number space from what the packet was counted as: the receiver's mark must be half the number space and the width
      of the window beyond that. */
  lemma AcceptedAgainExactly(c: Config, x: Peer, y: Peer, f: Frame, process: Process, e: nat)
    requires c.Valid() && WindowsFit(c) && PeerInv(c, x, y) && PeerInv(c, y, x) && f in y.wire && e < |x.receipts|
    requires |x.past| == |x.receipts| && Wrap(x.receipts[e].number) == Wrap(f.number)
    requires x.mark - x.past[e].number <= 65536
    requires f.number < |y.packets| && |y.packets[f.number]| <= c.fragmentAbove
    ensures StateInv(c, x.state) && |f.data| > 0
    ensures var n, far := c.receivedPacketsBufferSize, x.mark - x.past[e].number;
            Receive(c, x.state, f.data, process).calls != [] <==>
            far > 32768 + n || (far == 32768 + n && Wrap(f.number) >= Wrap(x.mark - n))
  {
    hide PeerInv, HistoryInv, FrameOk, Receive, DecodeHeader, EncodeHeader, StateInv, Wrap, Unwrap;
    StatePart(c, x, y);
    WireOk(c, x, y, f);
    FramePart(c, y, f);
    WholeDatagram(c, y, f);
    RegularReads(Wrap(f.number), f.ack, f.ackBits, y.packets[f.number]);
    ReadsAsRegular(f.data);
    PastPart(c, x, y);
    RepeatExactly(c, History(x.state, x.mark, x.past), e, f.data, process);
  }

  /** Exactly when a fragment of an accepted packet finds a slot again, within one turn: the mark must be more than half
      the number space beyond what the packet was counted as; or the packet has left the received window, but not the
      one under reassembly, and then nothing is handed over. */
  lemma SlotAgainExactly(c: Config, x: Peer, y: Peer, f: Frame, process: Process, e: nat)
    requires c.Valid() && CanSend(c) && WindowsFit(c) && PeerInv(c, x, y) && PeerInv(c, y, x) && f in y.wire
    requires e < |x.receipts| == |x.past| && Wrap(x.receipts[e].number) == Wrap(f.number)
    requires x.mark - x.past[e].number <= 65536
    requires f.number < |y.packets| && |y.packets[f.number]| > c.fragmentAbove
    ensures StateInv(c, x.state) && |f.data| > 0
    ensures var n, m := c.receivedPacketsBufferSize, c.fragmentReassemblyBufferSize;
            var far := x.mark - x.past[e].number;
            && (FragmentFindsSlot(c, History(x.state, x.mark, x.past), f.data) <==>
                  n < far <= m || far > 32769 || (far == 32769 && Wrap(f.number + 1) > Wrap(x.mark)))
            && (far <= 32768 ==> Receive(c, x.state, f.data, process).calls == [])
  {
    hide PeerInv, HistoryInv, FrameOk, Receive, DecodeFragment, StateInv, FragmentFindsSlot, Wrap, Unwrap;
    StatePart(c, x, y);
    WireOk(c, x, y, f);
    FramePart(c, y, f);
    FragmentedDatagram(c, y, f);
    PastPart(c, x, y);
    var h := History(x.state, x.mark, x.past);
    NextRemainder(f.number);
    FragmentFindsSlotAgainExactly(c, h, e, f.data);
    if h.mark - h.accepted[e].number <= 32768 {
      RepeatIsDropped(c, h, e, f.data, process);
    }
  }

  lemma NextRemainder(a: int)
    ensures Wrap(Wrap(a) + 1) == Wrap(a + 1)
  {
  }

  lemma FragmentedDatagram(c: Config, x: Peer, f: Frame)
    requires c.Valid() && FrameOk(c, x, f) && |x.packets[f.number]| > c.fragmentAbove
    ensures 0 < |f.data| <= c.LongestDatagram() && f.data[0] % 2 == 1 && SequenceIn(c, f.data) == Some(Wrap(f.number))
  {
    hide DecodeHeader, DecodeFragment, EncodeHeader, Backed, Repeats, NumFragments;
    var packet, s := x.packets[f.number], Wrap(f.number);
    var n :| 0 <= n < |Datagrams(c, s, f.ack, f.ackBits, packet)|
        && Datagrams(c, s, f.ack, f.ackBits, packet)[n] == f.data;
    DatagramsAreReceivable(c, s, f.ack, f.ackBits, packet, n);
  }

  // ---------------------------------------------------------------- how old a datagram may be

  /** How many packets may have been sent from the packet of a datagram on, by the time it is delivered: for packets
      that travel whole, and for those that travel in fragments. */
  datatype Ages = Ages(whole: int, fragmented: int)

  function LargestAges(c: Config): Ages {
    Ages(32768, 32769 - c.receivedPacketsBufferSize)
  }

  predicate Within(a: Ages, b: Ages) {
    a.whole <= b.whole && a.fragmented <= b.fragmented
  }

  predicate Fresh(c: Config, ages: Ages, y: Peer, f: Frame)
    requires f.number < |y.packets|
  {
    |y.packets| - f.number <= if |y.packets[f.number]| <= c.fragmentAbove then ages.whole else ages.fragmented
  }

  /** An accepted packet is not counted further back than the mark is, or it is still inside the window. */
  predicate NotBehind(c: Config, x: Peer, top: int, e: nat)
    requires e < |x.receipts| == |x.past|
  {
    || x.receipts[e].number - x.past[e].number <= top - x.mark
    || x.mark <= x.past[e].number + c.receivedPacketsBufferSize
  }

  ghost predicate AllDifferent(receipts: seq<Receipt>) {
    forall i, j :: 0 <= i < j < |receipts| ==> receipts[i].number != receipts[j].number
  }

  /** What fresh deliveries keep: the mark stands for the sender's packet number `top`, and no packet of the sender has
      been accepted twice. */
  ghost predicate OnceSoFar(c: Config, x: Peer, y: Peer, top: int) {
    && |x.past| == |x.receipts|
    && x.mark <= top <= |y.packets| && Wrap(x.mark) == Wrap(top)
    && (forall e :: 0 <= e < |x.receipts| ==> NotBehind(c, x, top, e))
    && AllDifferent(x.receipts)
  }

  lemma SameRemainder(a: int, b: int)
    requires Wrap(a) == Wrap(b)
    ensures (a - b) % 65536 == 0
  {
  }

  lemma SumOfMultiples(a: int, b: int)
    requires a % 65536 == 0 && b % 65536 == 0 && a - b > -65536
    ensures a >= b
  {
  }

  /** A fresh datagram is not counted further forward than the mark is. */
  lemma NotAhead(mark: int, top: int, sent: nat, p: nat, u: int)
    requires Wrap(mark) == Wrap(top) && top <= sent && sent - p <= 32768 && u == Unwrap(mark, Wrap(p))
    ensures p - u >= top - mark
  {
    SameRemainder(p, u);
    SameRemainder(top, mark);
    SumOfMultiples(p - u, top - mark);
  }

  /** Nor further forward than a packet in the window, if it moves the mark. */
  lemma NotAheadOf(mark: int, sent: nat, p: nat, u: int, q: nat, a: int, n: nat, reach: int)
    requires q < sent && Wrap(p) == Wrap(u) && Wrap(q) == Wrap(a) && mark <= a + n && u <= mark + reach
    requires sent - p + reach + n <= 65536
    ensures p - u >= q - a
  {
    SameRemainder(p, u);
    SameRemainder(q, a);
    SumOfMultiples(p - u, q - a);
  }

  /** What a delivery does to the receiver's mark and acceptances. */
  ghost predicate Counted(c: Config, x: Peer, x': Peer, y: Peer, f: Frame) {
    var k, u := |x.receipts|, Unwrap(x.mark, Wrap(f.number));
    && f.number < |y.packets| && |x.past| == k && k <= |x'.receipts| == |x'.past| <= k + 1
    && x'.receipts[..k] == x.receipts && x'.past[..k] == x.past
    && (|x'.receipts| == k + 1 ==>
          x'.receipts[k].number == f.number && x'.past[k].number == u && x'.past[k].mark == x'.mark)
    && (x'.mark == x.mark
        || (x'.mark == u + 1 && x.mark <= u
            && (|y.packets[f.number]| <= c.fragmentAbove ==> u <= x.mark + 32768 - c.receivedPacketsBufferSize)))
  }

  lemma DeliveryCounts(c: Config, x: Peer, y: Peer, f: Frame, process: Process)
    requires c.Valid() && CanSend(c) && WindowsFit(c) && PeerInv(c, x, y) && PeerInv(c, y, x) && f in y.wire
    ensures StateInv(c, x.state) && Counted(c, x, PeerReceives(c, x, f, process), y, f)
  {
    hide Receive, PeerInv, HistoryInv, FrameOk, HeaderFrame, SourcesOf, PartsAfter, MarkAfter, AddedAcks, Numbers,
         ReassemblyInv, DecodeHeader, DecodeFragment, ReceivedWell;
    StatePart(c, x, y);
    WireOk(c, x, y, f);
    FramePart(c, y, f);
    PastPart(c, x, y);
    var i := FrameReads(c, y, f);
    StateOf(c, History(x.state, x.mark, x.past));
    DatagramMovesMark(c, x.state, x.mark, f.data, process);
  }

  lemma AcceptedNear(c: Config, x: Peer, y: Peer, e: nat)
    requires c.Valid() && WindowsFit(c) && PeerInv(c, x, y) && e < |x.receipts|
    ensures |x.past| == |x.receipts| && Wrap(x.past[e].number) == Wrap(x.receipts[e].number)
    ensures x.past[e].mark <= x.past[e].number + c.receivedPacketsBufferSize && x.past[e].mark <= x.mark
    ensures forall i :: 0 <= i < e ==> Apart(c, x.past[i], x.past[e])
  {
    hide PeerInv, StateInv, InStep, Live, Apart;
    PastPart(c, x, y);
    assert AcceptanceOk(c, History(x.state, x.mark, x.past), x.past[e]);
  }

  /** The sender's number right behind what moved the mark last. */
  function TopAfter(x: Peer, x': Peer, f: Frame, top: int): int {
    if x'.mark == x.mark then top else f.number + 1
  }

  lemma OldNotBehind(c: Config, x: Peer, x': Peer, y: Peer, f: Frame, top: int, e: nat)
    requires c.Valid() && WindowsFit(c) && PeerInv(c, x, y) && PeerInv(c, y, x)
    requires Counted(c, x, x', y, f) && Fresh(c, LargestAges(c), y, f) && OnceSoFar(c, x, y, top) && e < |x.receipts|
    ensures NotBehind(c, x', TopAfter(x, x', f, top), e)
  {
    hide PeerInv, AllDifferent;
    assert NotBehind(c, x, top, e);
    assert x'.receipts[..|x.receipts|][e] == x.receipts[e] && x'.past[..|x.receipts|][e] == x.past[e];
    var u, n := Unwrap(x.mark, Wrap(f.number)), c.receivedPacketsBufferSize;
    if x'.mark != x.mark {
      NotAhead(x.mark, top, |y.packets|, f.number, u);
      AcceptedNear(c, x, y, e);
      ReceiptNumbers(c, y, x);
      if x.mark <= x.past[e].number + n {
        var reach := if |y.packets[f.number]| <= c.fragmentAbove then 32768 - n else 32767;
        NotAheadOf(x.mark, |y.packets|, f.number, u, x.receipts[e].number, x.past[e].number, n, reach);
      }
    }
  }

  /** A fresh delivery keeps it. */
  lemma FreshDeliveryKeeps(c: Config, x: Peer, y: Peer, f: Frame, process: Process, top: int)
    requires c.Valid() && CanSend(c) && WindowsFit(c) && PeerInv(c, x, y) && PeerInv(c, y, x) && f in y.wire
    requires OnceSoFar(c, x, y, top) && f.number < |y.packets| && Fresh(c, LargestAges(c), y, f)
    ensures StateInv(c, x.state)
    ensures var x' := PeerReceives(c, x, f, process); OnceSoFar(c, x', y, TopAfter(x, x', f, top))
  {
    hide PeerInv, PeerReceives, Fresh, OnceSoFar, Counted;
    StatePart(c, x, y);
    DeliveryCounts(c, x, y, f, process);
    ReceiveKeeps(c, x, y, f, process);
    CountedKeeps(c, x, PeerReceives(c, x, f, process), y, f, top);
  }

  lemma CountedKeeps(c: Config, x: Peer, x': Peer, y: Peer, f: Frame, top: int)
    requires c.Valid() && WindowsFit(c) && PeerInv(c, x, y) && PeerInv(c, x', y) && PeerInv(c, y, x)
    requires Counted(c, x, x', y, f) && Fresh(c, LargestAges(c), y, f) && OnceSoFar(c, x, y, top)
    ensures OnceSoFar(c, x', y, TopAfter(x, x', f, top))
  {
    hide PeerInv, NotBehind, Fresh, AllDifferent, Wrap, Unwrap, TopAfter, Counted;
    var top' := TopAfter(x, x', f, top);
    var k := |x.receipts|;
    TopHolds(c, x, x', y, f, top);
    forall e | 0 <= e < |x'.receipts|
      ensures NotBehind(c, x', top', e)
    {
      if e < k {
        OldNotBehind(c, x, x', y, f, top, e);
      } else {
        NewNotBehind(c, x, x', y, f, top);
      }
    }
    NewIsDifferent(c, x, x', y, f, top);
  }

  lemma TopHolds(c: Config, x: Peer, x': Peer, y: Peer, f: Frame, top: int)
    requires 2 <= c.receivedPacketsBufferSize
    requires Counted(c, x, x', y, f) && Fresh(c, LargestAges(c), y, f) && OnceSoFar(c, x, y, top)
    ensures |x'.past| == |x'.receipts| && |x.receipts| <= |x'.receipts| <= |x.receipts| + 1
    ensures var top' := TopAfter(x, x', f, top);
            && x'.mark <= top' <= |y.packets| && Wrap(x'.mark) == Wrap(top')
            && f.number - Unwrap(x.mark, Wrap(f.number)) >= top - x.mark
  {
    hide NotBehind, Fresh, AllDifferent, Wrap, Unwrap;
    FreshIsClose(c, y, f);
    NotAhead(x.mark, top, |y.packets|, f.number, Unwrap(x.mark, Wrap(f.number)));
    WrapNext(f.number, Unwrap(x.mark, Wrap(f.number)));
  }

  lemma FreshIsClose(c: Config, y: Peer, f: Frame)
    requires 2 <= c.receivedPacketsBufferSize
    requires f.number < |y.packets| && Fresh(c, LargestAges(c), y, f)
    ensures |y.packets| - f.number <= 32768
  {
  }

  lemma WrapNext(a: int, b: int)
    ensures Wrap(a) == Wrap(b) ==> Wrap(b + 1) == Wrap(a + 1)
  {
  }

  lemma NewNotBehind(c: Config, x: Peer, x': Peer, y: Peer, f: Frame, top: int)
    requires c.Valid() && WindowsFit(c) && PeerInv(c, x', y)
    requires Counted(c, x, x', y, f) && |x'.receipts| == |x.receipts| + 1
    ensures NotBehind(c, x', TopAfter(x, x', f, top), |x.receipts|)
  {
    hide PeerInv, Wrap, Unwrap, Apart;
    AcceptedNear(c, x', y, |x.receipts|);
  }

  lemma NewIsDifferent(c: Config, x: Peer, x': Peer, y: Peer, f: Frame, top: int)
    requires c.Valid() && WindowsFit(c) && PeerInv(c, x', y) && Counted(c, x, x', y, f) && OnceSoFar(c, x, y, top)
    requires f.number - Unwrap(x.mark, Wrap(f.number)) >= top - x.mark
    ensures AllDifferent(x'.receipts)
  {
    hide PeerInv, Wrap;
    var k := |x.receipts|;
    PastPart(c, x', y);
    forall i, j | 0 <= i < j < |x'.receipts|
      ensures x'.receipts[i].number != x'.receipts[j].number
    {
      assert x'.receipts[..k][i] == x.receipts[i] && x'.past[..k][i] == x.past[i];
      if j < k {
        assert x'.receipts[..k][j] == x.receipts[j];
      } else {
        AcceptedNear(c, x', y, k);
        assert NotBehind(c, x, top, i) && Apart(c, x'.past[i], x'.past[k]);
      }
    }
  }

  // ---------------------------------------------------------------- every run

  /** In this run, everything delivered to the second endpoint was fresh at the time. */
  ghost predicate FreshRun(c: Config, ages: Ages, timeA: real, timeB: real, actions: seq<Action>)
    requires c.Valid() && CanSend(c) && Fits(c.sentPacketsBufferSize)
    decreases |actions|
  {
    actions == []
    || (var front, last := actions[..|actions| - 1], actions[|actions| - 1];
        && FreshRun(c, ages, timeA, timeB, front)
        && var a := Reached(c, timeA, timeB, front).a;
           last.Deliver? && !last.toA && last.frame in a.wire ==>
             last.frame.number < |a.packets| && Fresh(c, ages, a, last.frame))
  }

  lemma ActKeepsOnce(c: Config, sys: System, action: Action, top: int) returns (top': int)
    requires c.Valid() && CanSend(c) && WindowsFit(c) && SystemInv(c, sys) && OnceSoFar(c, sys.b, sys.a, top)
    requires action.Deliver? && !action.toA && action.frame in sys.a.wire ==>
               action.frame.number < |sys.a.packets| && Fresh(c, LargestAges(c), sys.a, action.frame)
    ensures var sys' := ActOn(c, sys, action); OnceSoFar(c, sys'.b, sys'.a, top')
  {
    hide PeerInv, PeerReceives, PeerSends, NotBehind, Fresh, AllDifferent, Wrap;
    StatePart(c, sys.a, sys.b);
    StatePart(c, sys.b, sys.a);
    top' := top;
    match action {
      case Send(_, packet) => SendKeepsOnce(c, sys, action, top);
      case Deliver(_, frame, process) =>
        if !action.toA && frame in sys.a.wire {
          FreshDeliveryKeeps(c, sys.b, sys.a, frame, process, top);
          top' := TopAfter(sys.b, PeerReceives(c, sys.b, frame, process), frame, top);
        } else if action.toA && frame in sys.b.wire {
          ReceivesKeepsPackets(c, sys.a, frame, process);
          SameOnce(c, sys.b, sys.b, sys.a, PeerReceives(c, sys.a, frame, process), top);
        }
      case Clear(_) => SameOnce(c, sys.b, ActOn(c, sys, action).b, sys.a, ActOn(c, sys, action).a, top);
      case Tick(_, time) => SameOnce(c, sys.b, ActOn(c, sys, action).b, sys.a, ActOn(c, sys, action).a, top);
    }
  }

  lemma SameOnce(c: Config, x: Peer, x': Peer, y: Peer, y': Peer, top: int)
    requires OnceSoFar(c, x, y, top) && x'.mark == x.mark && x'.past == x.past && x'.receipts == x.receipts
    requires |y.packets| <= |y'.packets|
    ensures OnceSoFar(c, x', y', top)
  {
    forall e | 0 <= e < |x'.receipts|
      ensures NotBehind(c, x', top, e)
    {
      assert NotBehind(c, x, top, e);
    }
  }

  lemma ReceivesKeepsPackets(c: Config, x: Peer, f: Frame, process: Process)
    requires c.Valid() && StateInv(c, x.state)
    ensures PeerReceives(c, x, f, process).packets == x.packets
  {
    hide Receive, HeaderFrame, SourcesOf, PartsAfter, MarkAfter, AddedAcks, Numbers, ReassemblyInv;
  }

  lemma SendKeepsOnce(c: Config, sys: System, action: Action, top: int)
    requires c.Valid() && CanSend(c) && SystemInv(c, sys) && OnceSoFar(c, sys.b, sys.a, top) && action.Send?
    ensures var sys' := ActOn(c, sys, action); OnceSoFar(c, sys'.b, sys'.a, top)
  {
    hide PeerInv, PeerSends, OnceSoFar;
    StatePart(c, sys.a, sys.b);
    StatePart(c, sys.b, sys.a);
    var sys' := ActOn(c, sys, action);
    SendsLeaveMark(c, sys.a, action.packet);
    SendsLeaveMark(c, sys.b, action.packet);
    SameOnce(c, sys.b, sys'.b, sys.a, sys'.a, top);
  }

  lemma SendsLeaveMark(c: Config, x: Peer, packet: bytes)
    requires c.Valid() && CanSend(c) && StateInv(c, x.state)
    ensures var x' := PeerSends(c, x, packet);
            x'.mark == x.mark && x'.past == x.past && x'.receipts == x.receipts && |x.packets| <= |x'.packets|
  {
    hide Datagrams, FramesOf, NextFrame, ReassemblyInv, Buffer.Insert, Buffer.AckBits, Buffer.Ack;
  }

  lemma {:induction false} OnceInFreshRuns(c: Config, ages: Ages, timeA: real, timeB: real,
                                           actions: seq<Action>)
    returns (top: int)
    requires c.Valid() && CanSend(c) && Fits(c.sentPacketsBufferSize) && WindowsFit(c)
    requires Within(ages, LargestAges(c)) && FreshRun(c, ages, timeA, timeB, actions)
    ensures var sys := Reached(c, timeA, timeB, actions); OnceSoFar(c, sys.b, sys.a, top)
    decreases |actions|
  {
    hide OnceSoFar, SystemInv, ActOn;
    if actions == [] {
      top := 0;
      StartsOnce(c, timeA, timeB);
    } else {
      var front := actions[..|actions| - 1];
      var before := OnceInFreshRuns(c, ages, timeA, timeB, front);
      top := ActKeepsOnce(c, Reached(c, timeA, timeB, front), actions[|actions| - 1], before);
    }
  }

  lemma StartsOnce(c: Config, timeA: real, timeB: real)
    requires c.Valid() && CanSend(c) && Fits(c.sentPacketsBufferSize)
    ensures var sys := Reached(c, timeA, timeB, []); OnceSoFar(c, sys.b, sys.a, 0)
  {
    hide SystemInv;
  }

  /** No packet of the sender is accepted twice, in any run, of any length, in which no more than 32768 packets had been
      sent from the packet of a datagram on when the datagram was delivered; for packets that travel in fragments, no
      more than 32769 less the width of the window. Loss, repetition and order do not matter. The mark does not run
      ahead of what was sent. */
  lemma AcceptedOnceWhenFresh(c: Config, ages: Ages, timeA: real, timeB: real, actions: seq<Action>)
    requires c.Valid() && CanSend(c) && Fits(c.sentPacketsBufferSize) && WindowsFit(c)
    requires Within(ages, LargestAges(c)) && FreshRun(c, ages, timeA, timeB, actions)
    ensures var sys := Reached(c, timeA, timeB, actions);
            sys.b.mark <= |sys.a.packets| && AllDifferent(sys.b.receipts)
  {
    hide SystemInv, NotBehind, Reached, FreshRun, AllDifferent;
    var top := OnceInFreshRuns(c, ages, timeA, timeB, actions);
  }
}
