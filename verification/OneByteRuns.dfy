/** Two runs of two endpoints, with no datagram made up and packets of one byte only, that bring out what a delay of
    more than half the number space, or of all of it, does: a packet is accepted twice, and a packet is reported as
    acked that was never accepted. */
module OneByteRuns {
  import opened Wrappers
  import opened Sequence
  import opened Codec
  import opened CodecLaws
  import opened Buffers
  import opened Windows
  import opened Protocol
  import opened Invariants
  import opened ReceiveSide
  import opened Duplicates
  import opened SendSide
  import opened Network
  import opened Delivery
  import opened EndToEnd
  import opened Freshness

  predicate Suits(c: Config) {
    c.Valid() && CanSend(c) && Fits(c.sentPacketsBufferSize) && WindowsFit(c)
  }

  /** Every valid configuration whose buffer sizes are powers of two from 2 to 16384 meets the conditions of the
      theorems on windows and runs. */
  lemma PowersOfTwoSuit(c: Config, sent: nat, received: nat, reassembly: nat)
    requires c.Valid() && 1 <= sent <= 14 && 1 <= received <= 14 && 1 <= reassembly <= 14
    requires c.sentPacketsBufferSize == Power2(sent) && c.receivedPacketsBufferSize == Power2(received)
    requires c.fragmentReassemblyBufferSize == Power2(reassembly)
    ensures Fits(c.sentPacketsBufferSize) && WindowsFit(c) && CanSend(c) && Suits(c)
  {
    hide Power2, Config.Valid;
    PowerFits(sent);
    PowerFits(received);
    PowerFits(reassembly);
  }

  lemma PowerFits(i: nat)
    requires 1 <= i <= 14
    ensures Fits(Power2(i))
  {
    assert Power2(3) == 8 && Power2(6) == 64 && Power2(9) == 512 && Power2(12) == 4096;
  }

  function OneByte(): bytes {
    [0]
  }

  function SendMany(n: nat): seq<Action> {
    seq(n, _ => Send(true, OneByte()))
  }

  function AcceptEach(): Process {
    (s: u16, payload: bytes) => true
  }

  /** The datagram of packet `k` of one byte, sent by a peer that has received what `x` has. */
  function FrameOf(x: Peer, k: nat): Frame
    requires x.state.received.WellFormed()
  {
    var f := NextFrame(x);
    f.(number := k, data := EncodeHeader(Wrap(k), f.ack, f.ackBits) + OneByte())
  }

  // ---------------------------------------------------------------- sending many

  /** All but what sending changes. */
  ghost predicate SameButSent(x: Peer, x': Peer) {
    && x'.state.received == x.state.received && x'.state.acks == x.state.acks && x'.reported == x.reported
    && x'.evidence == x.evidence && x'.receipts == x.receipts && x'.latest == x.latest && x'.mark == x.mark
    && x'.past == x.past && x'.delivered == x.delivered && x.wire <= x'.wire && x.packets <= x'.packets
  }

  ghost predicate HaveSent(x: Peer, x': Peer, n: nat)
    requires x.state.received.WellFormed()
  {
    && SameButSent(x, x') && |x'.packets| == |x.packets| + n
    && (forall k :: |x.packets| <= k < |x'.packets| ==> x'.packets[k] == OneByte() && FrameOf(x, k) in x'.wire)
  }

  lemma OneMoreSend(c: Config, x: Peer, y: Peer)
    requires c.Valid() && CanSend(c) && PeerInv(c, x, y)
    ensures StateInv(c, x.state)
    ensures HaveSent(x, PeerSends(c, x, OneByte()), 1)
  {
    hide PeerInv, ReassemblyInv, Buffer.Insert, Buffer.AckBits, Buffer.Ack, EncodeHeader;
    StatePart(c, x, y);
    SendPart(c, x, y);
    SequenceIsTotal(c, x);
    NextFits(c, x.state);
    var f := NextFrame(x);
    var datagrams := Datagrams(c, x.state.sequence, f.ack, f.ackBits, OneByte());
    assert datagrams[0] == FrameOf(x, |x.packets|).data;
    assert f.(data := datagrams[0]) in FramesOf(f, datagrams);
  }

  lemma SentInTwoSteps(x: Peer, x1: Peer, x2: Peer, n: nat)
    requires x.state.received.WellFormed() && x1.state.received.WellFormed()
    requires HaveSent(x, x1, n) && HaveSent(x1, x2, 1)
    ensures HaveSent(x, x2, n + 1)
  {
    hide EncodeHeader, Buffer.AckBits, Buffer.Ack;
    forall k | |x.packets| <= k < |x2.packets|
      ensures x2.packets[k] == OneByte() && FrameOf(x, k) in x2.wire
    {
      SameFrames(x, x1, k);
      if k < |x1.packets| {
        GrownPacket(x1.packets, x2.packets, k);
      }
    }
  }

  lemma SameFrames(x: Peer, x1: Peer, k: nat)
    requires x.state.received.WellFormed() && SameButSent(x, x1)
    ensures x1.state.received.WellFormed() && FrameOf(x1, k) == FrameOf(x, k)
  {
  }

  /** Sending `n` packets of one byte after some other actions. */
  lemma {:induction false} SendsReach(c: Config, timeA: real, timeB: real, before: seq<Action>, n: nat)
    requires Suits(c)
    ensures Reached(c, timeA, timeB, before).a.state.received.WellFormed()
    ensures var sys, sys' := Reached(c, timeA, timeB, before), Reached(c, timeA, timeB, before + SendMany(n));
            HaveSent(sys.a, sys'.a, n) && sys'.b == sys.b
    decreases n, c
  {
    hide PeerInv, HaveSent, Reached, PeerSends, ReassemblyInv;
    var sys := Reached(c, timeA, timeB, before);
    StatePart(c, sys.a, sys.b);
    if n == 0 {
      assert before + SendMany(0) == before;
      NothingSent(sys.a);
    } else {
      SendsReach(c, timeA, timeB, before, n - 1);
      var mid := Reached(c, timeA, timeB, before + SendMany(n - 1));
      StatePart(c, mid.a, mid.b);
      RunGrows(c, timeA, timeB, before + SendMany(n - 1), Send(true, OneByte()));
      assert before + SendMany(n - 1) + [Send(true, OneByte())] == before + SendMany(n);
      OneMoreSend(c, mid.a, mid.b);
      SentInTwoSteps(sys.a, mid.a, PeerSends(c, mid.a, OneByte()), n - 1);
    }
  }

  lemma NothingSent(x: Peer)
    requires x.state.received.WellFormed()
    ensures HaveSent(x, x, 0)
  {
  }

  lemma IsOnWire(x: Peer, x': Peer, n: nat, k: nat)
    requires x.state.received.WellFormed() && HaveSent(x, x', n) && |x.packets| <= k < |x.packets| + n
    ensures FrameOf(x, k) in x'.wire && |x'.packets| == |x.packets| + n && x'.packets[k] == OneByte()
  {
    hide SameButSent, FrameOf, OneByte;
  }

  // ---------------------------------------------------------------- one delivery

  /** A datagram that counts as a number within reach that was not accepted is accepted as that number. */
  lemma DatagramIsAccepted(c: Config, x: Peer, y: Peer, f: Frame, u: int)
    requires Suits(c) && PeerInv(c, x, y) && PeerInv(c, y, x) && f in y.wire
    requires f.number < |y.packets| && y.packets[f.number] == OneByte() && u == Unwrap(x.mark, Wrap(f.number))
    requires InsertReach(c.receivedPacketsBufferSize, x.mark, u)
    requires !WasAccepted(History(x.state, x.mark, x.past), u)
    ensures StateInv(c, x.state) && |f.data| > 0
    ensures AcceptedOf(Receive(c, x.state, f.data, AcceptEach())) == Some(Wrap(f.number))
    ensures var x' := PeerReceives(c, x, f, AcceptEach());
            && |x.past| == |x.receipts| && |x'.past| == |x'.receipts| == |x.receipts| + 1
            && x'.receipts[..|x.receipts|] == x.receipts && x'.past[..|x.receipts|] == x.past
            && x'.receipts[|x.receipts|].number == f.number && x'.receipts[|x.receipts|].index == |x.delivered|
            && x'.past[|x.receipts|].number == u
            && x'.mark == (if u < x.mark then x.mark else u + 1) && x'.packets == x.packets && x'.wire == x.wire
            && |x'.delivered| == |x.delivered| + 1
  {
    hide Receive, PeerInv, HistoryInv, FrameOk, HeaderFrame, SourcesOf, PartsAfter, MarkAfter, AddedAcks, Numbers,
         ReassemblyInv, DecodeHeader, DecodeFragment, EncodeHeader, WasAccepted, InsertReach, Wrap, Unwrap;
    StatePart(c, x, y);
    WireOk(c, x, y, f);
    WholeDatagram(c, y, f);
    RegularReads(Wrap(f.number), f.ack, f.ackBits, OneByte());
    ReadsAsRegular(f.data);
    PastPart(c, x, y);
    var h := History(x.state, x.mark, x.past);
    StateOf(c, h);
    RegularHandedOverExactly(c, h, f.data, AcceptEach());
    DeliveryCounts(c, x, y, f, AcceptEach());
    ReceiveKeeps(c, x, y, f, AcceptEach());
    AcceptedNear(c, PeerReceives(c, x, f, AcceptEach()), y, |x.receipts|);
    NewestBelowMark(c, PeerReceives(c, x, f, AcceptEach()), y, |x.receipts|);
  }

  lemma NewestBelowMark(c: Config, x: Peer, y: Peer, e: nat)
    requires c.Valid() && WindowsFit(c) && PeerInv(c, x, y) && e < |x.receipts|
    ensures |x.past| == |x.receipts| && x.past[e].number < x.mark
  {
    hide PeerInv, StateInv, InStep, Live, Apart;
    PastPart(c, x, y);
    assert AcceptanceOk(c, History(x.state, x.mark, x.past), x.past[e]);
  }

  // ---------------------------------------------------------------- runs, step by step

  lemma SuitsFits(c: Config, time: real)
    requires Suits(c)
    ensures c.Valid() && CanSend(c) && WindowsFit(c) && Fits(c.sentPacketsBufferSize)
    ensures 2 <= c.receivedPacketsBufferSize <= 16384 && c.ackBufferSize > 0
    ensures StartPeer(c, time).state.received.WellFormed()
  {
  }

  lemma StartsBare(c: Config, time: real)
    requires c.Valid()
    ensures StartPeer(c, time).state.acks == [] && StartPeer(c, time).reported == []
    ensures StartPeer(c, time).mark == 0 && StartPeer(c, time).packets == []
    ensures StartPeer(c, time).past == [] && StartPeer(c, time).receipts == []
  {
  }

  /** A sender that has received nothing; packet `k` of one byte has been sent by it. */
  ghost predicate Bare(c: Config, timeA: real, x: Peer)
    requires c.Valid()
  {
    SameButSent(StartPeer(c, timeA), x)
  }

  ghost predicate IsSent(c: Config, timeA: real, x: Peer, k: nat)
    requires c.Valid()
  {
    k < |x.packets| && x.packets[k] == OneByte() && FrameOf(StartPeer(c, timeA), k) in x.wire
  }

  /** What a receiver that sends nothing has accepted: of which packet numbers of the sender, and as what it counts
      them; each in a call of its own. */
  ghost predicate Seen(x: Peer, mark: int, numbers: seq<nat>, counts: seq<int>) {
    && x.packets == [] && x.mark == mark && |x.receipts| == |x.past| == |numbers| == |counts|
    && (forall i :: 0 <= i < |numbers| ==> x.receipts[i].number == numbers[i] && x.past[i].number == counts[i])
    && (forall i :: 0 <= i < |numbers| ==> x.receipts[i].index < |x.delivered|)
    && (forall i, j :: 0 <= i < j < |numbers| ==> x.receipts[i].index < x.receipts[j].index)
  }

  lemma StartIs(c: Config, ages: Ages, timeA: real, timeB: real)
    requires Suits(c)
    ensures Reached(c, timeA, timeB, []) == System(StartPeer(c, timeA), StartPeer(c, timeB))
    ensures Bare(c, timeA, StartPeer(c, timeA)) && Seen(StartPeer(c, timeB), 0, [], [])
    ensures FreshRun(c, ages, timeA, timeB, [])
  {
    hide SystemInv;
  }

  lemma NotSeen(x: Peer, mark: int, numbers: seq<nat>, counts: seq<int>, u: int)
    requires Seen(x, mark, numbers, counts) && u !in counts
    ensures !WasAccepted(History(x.state, x.mark, x.past), u)
  {
    var h := History(x.state, x.mark, x.past);
    assert forall i :: 0 <= i < |h.accepted| ==> h.accepted[i].number == counts[i];
  }

  lemma SeenOneMore(x: Peer, x': Peer, mark: int, mark': int, numbers: seq<nat>, counts: seq<int>, k: nat, u: int)
    requires Seen(x, mark, numbers, counts) && x'.packets == x.packets && x'.mark == mark'
    requires |x'.past| == |x'.receipts| == |x.receipts| + 1 && |x'.delivered| == |x.delivered| + 1
    requires x'.receipts[..|x.receipts|] == x.receipts && x'.past[..|x.receipts|] == x.past
    requires x'.receipts[|x.receipts|].number == k && x'.receipts[|x.receipts|].index == |x.delivered|
    requires x'.past[|x.receipts|].number == u
    ensures Seen(x', mark', numbers + [k], counts + [u])
  {
    forall i | 0 <= i < |x.receipts|
      ensures x'.receipts[i] == x.receipts[i] && x'.past[i] == x.past[i]
    {
      assert x'.receipts[..|x.receipts|][i] == x.receipts[i] && x'.past[..|x.receipts|][i] == x.past[i];
    }
  }

  /** The datagram of packet `k` arrives at the second endpoint. */
  function Arrives(c: Config, timeA: real, k: nat): Action
    requires c.Valid()
  {
    Deliver(false, FrameOf(StartPeer(c, timeA), k), AcceptEach())
  }

  /** It is accepted as `u`, if that is within reach and was not accepted; the run stays fresh if the datagram is. */
  lemma ArrivalReaches(c: Config, ages: Ages, timeA: real, timeB: real, before: seq<Action>, k: nat, u: int, mark: int,
                       numbers: seq<nat>, counts: seq<int>)
    requires Suits(c) && FreshRun(c, ages, timeA, timeB, before)
    requires var sys := Reached(c, timeA, timeB, before);
             && Seen(sys.b, mark, numbers, counts) && IsSent(c, timeA, sys.a, k)
             && |sys.a.packets| - k <= ages.whole
    requires u == Unwrap(mark, Wrap(k)) && InsertReach(c.receivedPacketsBufferSize, mark, u) && u !in counts
    ensures var after := before + [Arrives(c, timeA, k)];
            var sys, sys' := Reached(c, timeA, timeB, before), Reached(c, timeA, timeB, after);
            && FreshRun(c, ages, timeA, timeB, after) && sys'.a == sys.a
            && Seen(sys'.b, if u < mark then mark else u + 1, numbers + [k], counts + [u])
  {
    hide PeerInv, PeerReceives, Receive, Suits, Init, StateInv, OneByte, AcceptEach, ActOn, FrameOf, Wrap, Unwrap, Seen,
         InsertReach, WasAccepted, Reached, FreshRun, Fresh;
    SuitsFits(c, timeA);
    var sys := Reached(c, timeA, timeB, before);
    var f := FrameOf(StartPeer(c, timeA), k);
    FrameNumber(StartPeer(c, timeA), k);
    OneByteIsWhole(c);
    RunGrows(c, timeA, timeB, before, Arrives(c, timeA, k));
    FreshGrows(c, ages, timeA, timeB, before, Arrives(c, timeA, k));
    DeliveredToB(c, sys, f, AcceptEach());
    SeenMark(sys.b, mark, numbers, counts);
    NotSeen(sys.b, mark, numbers, counts, u);
    DatagramIsAccepted(c, sys.b, sys.a, f, u);
    SeenOneMore(sys.b, PeerReceives(c, sys.b, f, AcceptEach()), mark, if u < mark then mark else u + 1, numbers, counts,
                k, u);
  }

  lemma SeenMark(x: Peer, mark: int, numbers: seq<nat>, counts: seq<int>)
    requires Seen(x, mark, numbers, counts)
    ensures x.mark == mark && |x.receipts| == |x.past| == |numbers| && x.packets == []
  {
  }

  lemma FrameNumber(x: Peer, k: nat)
    requires x.state.received.WellFormed()
    ensures FrameOf(x, k).number == k
  {
  }

  lemma OneByteIsWhole(c: Config)
    requires c.Valid()
    ensures |OneByte()| <= c.fragmentAbove
  {
  }

  lemma FreshGrows(c: Config, ages: Ages, timeA: real, timeB: real, before: seq<Action>, action: Action)
    requires c.Valid() && CanSend(c) && Fits(c.sentPacketsBufferSize)
    requires FreshRun(c, ages, timeA, timeB, before)
    requires var a := Reached(c, timeA, timeB, before).a;
             action.Deliver? && !action.toA && action.frame in a.wire ==>
               && action.frame.number < |a.packets|
               && |a.packets| - action.frame.number
                  <= if |a.packets[action.frame.number]| <= c.fragmentAbove then ages.whole else ages.fragmented
    ensures FreshRun(c, ages, timeA, timeB, before + [action])
  {
    hide SystemInv, Reached;
    var all := before + [action];
    assert all[..|all| - 1] == before;
  }

  lemma {:induction false} SendsStayFresh(c: Config, ages: Ages, timeA: real, timeB: real, before: seq<Action>, n: nat)
    requires Suits(c) && FreshRun(c, ages, timeA, timeB, before)
    ensures FreshRun(c, ages, timeA, timeB, before + SendMany(n))
    decreases n, c
  {
    hide FreshRun, Reached, SystemInv;
    if n == 0 {
      assert before + SendMany(0) == before;
    } else {
      SendsStayFresh(c, ages, timeA, timeB, before, n - 1);
      FreshGrows(c, ages, timeA, timeB, before + SendMany(n - 1), Send(true, OneByte()));
      assert before + SendMany(n - 1) + [Send(true, OneByte())] == before + SendMany(n);
    }
  }

  /** Sending more: what was sent stays sent, and the new packets are. */
  lemma SendingReaches(c: Config, ages: Ages, timeA: real, timeB: real, before: seq<Action>, n: nat)
    requires Suits(c) && FreshRun(c, ages, timeA, timeB, before)
    requires Bare(c, timeA, Reached(c, timeA, timeB, before).a)
    ensures var after := before + SendMany(n);
            var sys, sys' := Reached(c, timeA, timeB, before), Reached(c, timeA, timeB, after);
            && FreshRun(c, ages, timeA, timeB, after) && sys'.b == sys.b && Bare(c, timeA, sys'.a)
            && SentMore(c, timeA, sys.a, sys'.a) && |sys'.a.packets| == |sys.a.packets| + n
            && (forall k: nat :: |sys.a.packets| <= k < |sys'.a.packets| ==> IsSent(c, timeA, sys'.a, k))
  {
    hide SystemInv, Reached, FreshRun, FrameOf, OneByte, Init;
    SuitsFits(c, timeA);
    SendsStayFresh(c, ages, timeA, timeB, before, n);
    SendsReach(c, timeA, timeB, before, n);
    var sys, sys' := Reached(c, timeA, timeB, before), Reached(c, timeA, timeB, before + SendMany(n));
    forall k: nat | |sys.a.packets| <= k < |sys'.a.packets|
      ensures IsSent(c, timeA, sys'.a, k)
    {
      SameFrames(StartPeer(c, timeA), sys.a, k);
    }
    StillSent(c, timeA, sys.a, sys'.a);
  }

  /** What was sent stays sent. */
  ghost predicate SentMore(c: Config, timeA: real, x: Peer, x': Peer)
    requires c.Valid()
  {
    x.packets <= x'.packets && x.wire <= x'.wire && forall k: nat :: IsSent(c, timeA, x, k) ==> IsSent(c, timeA, x', k)
  }

  lemma StillSent(c: Config, timeA: real, x: Peer, x': Peer)
    requires c.Valid() && x.packets <= x'.packets && x.wire <= x'.wire
    ensures SentMore(c, timeA, x, x')
  {
    hide FrameOf, OneByte, Init;
    forall k: nat | IsSent(c, timeA, x, k)
      ensures IsSent(c, timeA, x', k)
    {
      GrownPacket(x.packets, x'.packets, k);
    }
  }

  // ---------------------------------------------------------------- a packet accepted twice

  /** The run: 49153 packets are sent; the datagrams of four of them arrive, each within the reach of every window from
      the one before, and then the first once more. */
  function ReplayActions(c: Config, timeA: real): seq<Action>
    requires Suits(c)
  {
    SendMany(49153) + [Arrives(c, timeA, 0)] + [Arrives(c, timeA, 16384)] + [Arrives(c, timeA, 32768)]
                    + [Arrives(c, timeA, 49152)] + [Arrives(c, timeA, 0)]
  }

  /** Where a number is counted, next to a mark. */
  lemma CountsAs(mark: int, k: int, u: int, n: nat)
    requires mark - 32768 <= u < mark + 32768 && Wrap(u) == Wrap(k) && n <= 16384
    ensures Unwrap(mark, Wrap(k)) == u
    ensures mark - n <= u < mark + 32768 - n ==> InsertReach(n, mark, u)
  {
    UnwrapIs(mark, u);
  }

  lemma ReplayReaches(c: Config, timeA: real, timeB: real)
    requires Suits(c)
    ensures var sys := Reached(c, timeA, timeB, ReplayActions(c, timeA));
            |sys.a.packets| == 49153 && Seen(sys.b, 65537, [0, 16384, 32768, 49152, 0], [0, 16384, 32768, 49152, 65536])
  {
    hide Reached, FreshRun, SystemInv, Bare, IsSent, Seen, Suits, StartPeer, Arrives, SendMany, InsertReach, Unwrap,
         Wrap, SentMore, Fits, WindowsFit, Config.Valid, CanSend;
    WrapOfTurn(0);
    SuitsFits(c, timeA);
    var ages, n := Ages(49153, 0), c.receivedPacketsBufferSize;
    StartIs(c, ages, timeA, timeB);
    StartsBare(c, timeA);
    SendingReaches(c, ages, timeA, timeB, [], 49153);
    var r0 := SendMany(49153);
    assert [] + r0 == r0;
    CountsAs(0, 0, 0, n);
    ArrivalReaches(c, ages, timeA, timeB, r0, 0, 0, 0, [], []);
    assert [] + [0] == [0];
    var r1 := r0 + [Arrives(c, timeA, 0)];
    CountsAs(1, 16384, 16384, n);
    ArrivalReaches(c, ages, timeA, timeB, r1, 16384, 16384, 1, [0], [0]);
    assert [0] + [16384] == [0, 16384];
    var r2 := r1 + [Arrives(c, timeA, 16384)];
    CountsAs(16385, 32768, 32768, n);
    ArrivalReaches(c, ages, timeA, timeB, r2, 32768, 32768, 16385, [0, 16384], [0, 16384]);
    assert [0, 16384] + [32768] == [0, 16384, 32768];
    var r3 := r2 + [Arrives(c, timeA, 32768)];
    CountsAs(32769, 49152, 49152, n);
    ArrivalReaches(c, ages, timeA, timeB, r3, 49152, 49152, 32769, [0, 16384, 32768], [0, 16384, 32768]);
    assert [0, 16384, 32768] + [49152] == [0, 16384, 32768, 49152];
    var r4 := r3 + [Arrives(c, timeA, 49152)];
    CountsAs(49153, 0, 65536, n);
    ArrivalReaches(c, ages, timeA, timeB, r4, 0, 65536, 49153, [0, 16384, 32768, 49152], [0, 16384, 32768, 49152]);
    assert [0, 16384, 32768, 49152] + [0] == [0, 16384, 32768, 49152, 0];
    assert [0, 16384, 32768, 49152] + [65536] == [0, 16384, 32768, 49152, 65536];
  }

  /** A packet is accepted twice: the second time its datagram arrives, 49153 packets after it was sent, the receiver
      counts it as packet 65536, hands it over in another call and accepts it. */
  lemma AcceptedTwice(c: Config, timeA: real, timeB: real)
    requires Suits(c)
    ensures var sys := Reached(c, timeA, timeB, ReplayActions(c, timeA));
            && |sys.a.packets| == 49153 && |sys.b.receipts| == |sys.b.past| == 5
            && sys.b.receipts[0].number == 0 == sys.b.receipts[4].number
            && sys.b.past[0].number == 0 && sys.b.past[4].number == 65536
            && sys.b.receipts[0].index < sys.b.receipts[4].index
            && HandedOver(c, sys.b, sys.b.receipts[0], sys.a.packets)
            && HandedOver(c, sys.b, sys.b.receipts[4], sys.a.packets)
    ensures !FreshRun(c, LargestAges(c), timeA, timeB, ReplayActions(c, timeA))
  {
    hide Reached, FreshRun, ReplayActions, PeerInv, HandedOver;
    ReplayReaches(c, timeA, timeB);
    var sys := Reached(c, timeA, timeB, ReplayActions(c, timeA));
    ReceiptIsHandedOver(c, sys.a, sys.b, 0);
    ReceiptIsHandedOver(c, sys.a, sys.b, 4);
    if FreshRun(c, LargestAges(c), timeA, timeB, ReplayActions(c, timeA)) {
      AcceptedOnceWhenFresh(c, LargestAges(c), timeA, timeB, ReplayActions(c, timeA));
    }
  }

  // ---------------------------------------------------------------- an ack for a packet that was not accepted

  /** The run: one packet is sent and arrives, the other side sends a packet, a whole turn of packets is sent, and then
      the datagram of the other side arrives. */
  function FirstActions(c: Config, timeA: real): seq<Action>
    requires Suits(c)
  {
    [Send(true, OneByte())] + [Arrives(c, timeA, 0)]
  }

  function TurnActions(c: Config, timeA: real): seq<Action>
    requires Suits(c)
  {
    FirstActions(c, timeA) + [Send(false, OneByte())] + SendMany(65536)
  }

  lemma FirstReached(c: Config, timeA: real, timeB: real)
    requires Suits(c)
    ensures var sys := Reached(c, timeA, timeB, FirstActions(c, timeA));
            Bare(c, timeA, sys.a) && |sys.a.packets| == 1 && Seen(sys.b, 1, [0], [0])
  {
    hide Reached, FreshRun, SystemInv, Bare, IsSent, Seen, Suits, StartPeer, Arrives, InsertReach, Unwrap, Wrap,
         SentMore, OneByte, Fits, WindowsFit, Config.Valid, CanSend;
    SuitsFits(c, timeA);
    var ages := Ages(1, 0);
    StartIs(c, ages, timeA, timeB);
    StartsBare(c, timeA);
    SendingReaches(c, ages, timeA, timeB, [], 1);
    assert [] + SendMany(1) == [Send(true, OneByte())];
    CountsAs(0, 0, 0, c.receivedPacketsBufferSize);
    ArrivalReaches(c, ages, timeA, timeB, [Send(true, OneByte())], 0, 0, 0, [], []);
    assert [] + [0] == [0];
  }

  /** The header of a receiver that has accepted packet 0 only: its ack is 0, and bit 0 is the only one set. */
  lemma OnlyBitZero(c: Config, x: Peer, y: Peer)
    requires Suits(c) && PeerInv(c, x, y) && x.mark == 1 && |x.past| == 1 && x.past[0].number == 0
    ensures StateInv(c, x.state) && x.state.received.Ack() == 0
    ensures forall j: nat :: j < 32 ==> (Bit(x.state.received.AckBits(), j) <==> j == 0)
  {
    hide PeerInv, HistoryInv, ReassemblyInv, Bit, Buffer.AckBits, Buffer.Ack, InStep;
    StatePart(c, x, y);
    PastPart(c, x, y);
    var h := History(x.state, x.mark, x.past);
    HeaderIsExact(c, h, 0);
    forall j: nat | j < 32
      ensures Bit(x.state.received.AckBits(), j) <==> j == 0
    {
      HeaderIsExact(c, h, j);
      assert h.accepted[0].number == 0;
    }
  }

  /** What the last datagram does: its only ack names the packet sent last. */
  lemma OnlyAckReported(c: Config, x: Peer, y: Peer, f: Frame)
    requires Suits(c) && PeerInv(c, x, y) && PeerInv(c, y, x) && f in y.wire
    requires f.number == 0 && |y.packets| > 0 && y.packets[0] == OneByte() && x.mark == 0
    requires f.ack == 0 && forall j: nat :: j < 32 ==> (Bit(f.ackBits, j) <==> j == 0)
    requires |x.packets| == 65537 && x.reported == [] && x.state.acks == []
    ensures StateInv(c, x.state)
    ensures 65536 in PeerReceives(c, x, f, AcceptEach()).reported
  {
    hide Receive, PeerInv, AckStep, StateInv, FrameOk, Bit, PeerReceives, AddedAcks, OneByte, AcceptEach, Suits;
    SuitsFits(c, 0.0);
    StatePart(c, x, y);
    AcksOfWhole(c, x, y, f);
    LastIsAcked(c, x, y, Receive(c, x.state, f.data, AcceptEach()).state, f);
    AckIsReported(c, x, f, AcceptEach());
  }

  lemma AcksOfWhole(c: Config, x: Peer, y: Peer, f: Frame)
    requires Suits(c) && PeerInv(c, x, y) && PeerInv(c, y, x) && f in y.wire
    requires f.number == 0 && |y.packets| > 0 && y.packets[0] == OneByte() && x.mark == 0
    ensures StateInv(c, x.state) && |f.data| > 0
    ensures AckStep(c, x.state, Receive(c, x.state, f.data, AcceptEach()).state, Some(HeaderIn(f)))
  {
    hide Receive, PeerInv, ReceivedWell, HeaderFrame, AckStep, StateInv, FrameOk, PeerReceives, OneByte, AcceptEach,
         Suits, AcceptedOf, DecodeHeader, EncodeHeader, Wrap, Unwrap, Fits, WasAccepted, InsertReach, HistoryInv;
    SuitsFits(c, 0.0);
    StatePart(c, x, y);
    WireOk(c, x, y, f);
    FramePart(c, y, f);
    OneByteIsWhole(c);
    WholeDatagram(c, y, f);
    RegularReads(Wrap(f.number), f.ack, f.ackBits, OneByte());
    ReadsAsRegular(f.data);
    CountsAs(0, 0, 0, c.receivedPacketsBufferSize);
    PastPart(c, x, y);
    if WasAccepted(History(x.state, x.mark, x.past), 0) {
      AcceptedIsBelow(c, History(x.state, x.mark, x.past), 0);
    }
    DatagramIsAccepted(c, x, y, f, 0);
    DeliveryIsWell(c, x, y, f, AcceptEach());
    WholeIsItsHeader(c, x, f);
  }

  lemma LastIsAcked(c: Config, x: Peer, y: Peer, st': State, f: Frame)
    requires Suits(c) && PeerInv(c, x, y) && AckStep(c, x.state, st', Some(HeaderIn(f)))
    requires f.ack == 0 && forall j: nat :: j < 32 ==> (Bit(f.ackBits, j) <==> j == 0)
    requires |x.packets| == 65537 && x.reported == [] && x.state.acks == []
    ensures 0 in AddedAcks(x.state, st')
  {
    hide PeerInv, AckStep, TracksWindow, HistoryInv, Bit, AddedAcks, StateInv, LogOk;
    SendPart(c, x, y);
    var st := x.state;
    WrapOfTurn(0);
    TrackedAt(st.sent, 65537, x.reported, 65536);
    AckStepIsFormed(c, st, st', HeaderIn(f));
    FoundExists(st.sent, 0);
    AcknowledgesIs(0, f.ackBits, 0, 0);
    AckedUnlessFull(c, st, st', HeaderIn(f), 0, 0);
    OnlyZeroAdded(c, st, st', f);
  }

  lemma AckStepIsFormed(c: Config, st: State, st': State, h: PacketHeader)
    requires AckStep(c, st, st', Some(h))
    ensures st.sent.WellFormed() && st'.sent.WellFormed()
  {
  }

  lemma AckIsReported(c: Config, x: Peer, f: Frame, process: Process)
    requires c.Valid() && StateInv(c, x.state) && |f.data| > 0 && |x.packets| == 65537
    requires 0 in AddedAcks(x.state, Receive(c, x.state, f.data, process).state)
    ensures 65536 in PeerReceives(c, x, f, process).reported
  {
    hide Receive, HeaderFrame, SourcesOf, PartsAfter, MarkAfter, AddedAcks, ReassemblyInv;
    WrapOfTurn(0);
    UnwrapIs(65537, 65536);
    var acked := AddedAcks(x.state, Receive(c, x.state, f.data, process).state);
    var i :| 0 <= i < |acked| && acked[i] == 0;
    assert Numbers(65537, acked)[i] == 65536;
  }

  lemma WholeIsItsHeader(c: Config, x: Peer, f: Frame)
    requires c.Valid() && StateInv(c, x.state) && |f.data| > 0 && f.data[0] % 2 == 0
    ensures HeaderFrame(c, x, f) == f
  {
    hide ReassemblyInv;
  }

  lemma AddedFrom(c: Config, st: State, st': State, h: PacketHeader, s: u16)
    requires AckStep(c, st, st', Some(h)) && s in AddedAcks(st, st')
    ensures exists j: nat :: Acknowledges(h.ack, h.ackBits, 0, j, s)
  {
    hide Marked, Pending, Acknowledges;
    AcksInClosedForm(c, st, h.ack, h.ackBits);
  }

  lemma OnlyZero(ackBits: u32, j: nat, s: u16)
    requires Acknowledges(0, ackBits, 0, j, s) && forall j: nat :: j < 32 ==> (Bit(ackBits, j) <==> j == 0)
    ensures s == 0
  {
    hide Bit;
    AcknowledgesIs(0, ackBits, j, s);
  }

  /** An ack step whose header has bit 0 set only adds that one ack, if it adds any. */
  lemma OnlyZeroAdded(c: Config, st: State, st': State, f: Frame)
    requires AckStep(c, st, st', Some(HeaderIn(f))) && st.acks == [] && c.ackBufferSize > 0
    requires f.ack == 0 && forall j: nat :: j < 32 ==> (Bit(f.ackBits, j) <==> j == 0)
    requires |st'.acks| == c.ackBufferSize || 0 in st'.acks
    ensures 0 in AddedAcks(st, st')
  {
    hide AckStep, Bit, Acknowledges;
    if 0 !in st'.acks {
      var s := st'.acks[0];
      AddedFrom(c, st, st', HeaderIn(f), s);
      var j: nat :| Acknowledges(f.ack, f.ackBits, 0, j, s);
      OnlyZero(f.ackBits, j, s);
    }
  }

  /** Report `i` is of packet 65536, and rests on the acceptance of packet 0, 65537 packets having been sent. */
  predicate NamesAnother(x: Peer, y: Peer, i: nat) {
    && i < |x.reported| && i < |x.evidence| && x.evidence[i].receipt < |y.receipts|
    && x.reported[i] == 65536 && Named(x, y, i) == 0 && x.evidence[i].sent == 65537
  }

  lemma RestsOnPacketZero(c: Config, x: Peer, y: Peer)
    requires c.Valid() && PeerInv(c, x, y) && 65536 in x.reported && |x.packets| == 65537
    requires |y.receipts| == 1 && y.receipts[0].number == 0
    ensures exists i :: NamesAnother(x, y, i)
  {
    hide PeerInv;
    var i :| 0 <= i < |x.reported| && x.reported[i] == 65536;
    AckNamesThatPacket(c, x, y, i);
    assert NamesAnother(x, y, i);
  }

  /** A packet is reported as acked that was never accepted: the header that acks packet 0 arrives after 65537 packets
      have been sent, and packet 65536 is reported. */
  lemma ReportedUnaccepted(c: Config, timeA: real, timeB: real)
    requires Suits(c)
    ensures Reached(c, timeA, timeB, FirstActions(c, timeA)).b.state.received.WellFormed()
    ensures var g := FrameOf(Reached(c, timeA, timeB, FirstActions(c, timeA)).b, 0);
            var sys := Reached(c, timeA, timeB, TurnActions(c, timeA) + [Deliver(true, g, AcceptEach())]);
            && 65536 in sys.a.reported && |sys.b.receipts| == 1 && sys.b.receipts[0].number == 0
            && |sys.a.packets| == 65537 && exists i :: NamesAnother(sys.a, sys.b, i)
  {
    hide PeerInv, HaveSent, Reached, ReassemblyInv, PeerReceives, PeerSends, Receive, Bare, Seen, AcceptEach,
         OneByte, Init, NamesAnother;
    var first := Reached(c, timeA, timeB, FirstActions(c, timeA));
    FirstReached(c, timeA, timeB);
    StatePart(c, first.b, first.a);
    var g := FrameOf(first.b, 0);
    RunGrows(c, timeA, timeB, FirstActions(c, timeA), Send(false, OneByte()));
    var answered := FirstActions(c, timeA) + [Send(false, OneByte())];
    OneMoreSend(c, first.b, first.a);
    SendsReach(c, timeA, timeB, answered, 65536);
    RunGrows(c, timeA, timeB, TurnActions(c, timeA), Deliver(true, g, AcceptEach()));
    LateAck(c, timeA, first, Reached(c, timeA, timeB, answered), Reached(c, timeA, timeB, TurnActions(c, timeA)));
    var sys := Reached(c, timeA, timeB, TurnActions(c, timeA) + [Deliver(true, g, AcceptEach())]);
    RestsOnPacketZero(c, sys.a, sys.b);
  }

  lemma LateAck(c: Config, timeA: real, first: System, answered: System, sys: System)
    requires Suits(c) && SystemInv(c, first) && SystemInv(c, sys)
    requires Bare(c, timeA, first.a) && |first.a.packets| == 1 && Seen(first.b, 1, [0], [0])
    requires StateInv(c, first.b.state) && answered.a == first.a && answered.b == PeerSends(c, first.b, OneByte())
    requires HaveSent(first.b, answered.b, 1)
    requires answered.a.state.received.WellFormed() && HaveSent(answered.a, sys.a, 65536) && sys.b == answered.b
    ensures var sys' := ActOn(c, sys, Deliver(true, FrameOf(first.b, 0), AcceptEach()));
            && 65536 in sys'.a.reported && |sys'.b.receipts| == 1 && sys'.b.receipts[0].number == 0
            && |sys'.a.packets| == 65537
  {
    hide PeerInv, PeerReceives, PeerSends, Receive, StateInv, AcceptEach, OneByte, Init, Bit, ActOn, FrameOf, Suits,
         Buffer.AckBits, Buffer.Ack, WindowsFit;
    SuitsFits(c, timeA);
    StartsBare(c, timeA);
    OnlyBitZero(c, first.b, first.a);
    FormedWhenValid(c, first.b);
    var g := FrameOf(first.b, 0);
    IsOnWire(first.b, answered.b, 1, 0);
    FrameAcks(first.b, 0);
    OnlyAckReported(c, sys.a, sys.b, g);
    DeliveredToA(c, sys, g, AcceptEach());
    ReceivesKeepsPackets(c, sys.a, g, AcceptEach());
  }

  lemma FormedWhenValid(c: Config, x: Peer)
    requires StateInv(c, x.state)
    ensures x.state.received.WellFormed()
  {
  }

  lemma FrameAcks(x: Peer, k: nat)
    requires x.state.received.WellFormed()
    ensures var f := FrameOf(x, k);
            f.number == k && f.ack == x.state.received.Ack() && f.ackBits == x.state.received.AckBits()
  {
  }
}
