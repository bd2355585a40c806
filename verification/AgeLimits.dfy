/** How old a datagram may be without a packet ever being accepted twice: the bounds of module Freshness are the
    largest. Right past each of them there is a run, with no datagram made up, in which a packet is accepted twice; in
    both, a long gap lets a datagram be counted as one of a packet a whole turn earlier, and a late datagram closes the
    gap. */
module AgeLimits {
  import opened Sequence
  import opened Codec
  import opened Buffers
  import opened Windows
  import opened Reassembly
  import opened Protocol
  import opened Invariants
  import opened ReceiveSide
  import opened Duplicates
  import opened SendSide
  import opened Network
  import opened EndToEnd
  import opened Freshness
  import opened OneByteRuns

  /** In every run that is fresh to this extent, no packet is accepted twice. */
  ghost predicate NeverTwice(c: Config, ages: Ages)
    requires Suits(c)
  {
    forall timeA: real, timeB: real, actions: seq<Action> :: FreshRun(c, ages, timeA, timeB, actions) ==>
      AllDifferent(Reached(c, timeA, timeB, actions).b.receipts)
  }

  lemma SeenTwice(x: Peer, mark: int, numbers: seq<nat>, counts: seq<int>, i: nat, j: nat)
    requires Seen(x, mark, numbers, counts) && i < j < |numbers| && numbers[i] == numbers[j]
    ensures !AllDifferent(x.receipts)
  {
    assert x.receipts[i].number == numbers[i] && x.receipts[j].number == numbers[j];
  }

  // ---------------------------------------------------------------- packets that travel whole

  /** Both runs begin with this: packet `n - 1` arrives, so that number 0 is the bottom of the window. */
  function Opening(c: Config, timeA: real): seq<Action>
    requires Suits(c)
  {
    SendMany(c.receivedPacketsBufferSize) + [Arrives(c, timeA, c.receivedPacketsBufferSize - 1)]
  }

  lemma OpeningReaches(c: Config, ages: Ages, timeA: real, timeB: real)
    requires Suits(c) && ages.whole >= 1
    ensures var sys, n := Reached(c, timeA, timeB, Opening(c, timeA)), c.receivedPacketsBufferSize;
            && FreshRun(c, ages, timeA, timeB, Opening(c, timeA)) && Bare(c, timeA, sys.a) && |sys.a.packets| == n
            && n >= 1 && Seen(sys.b, n, [n - 1], [n - 1])
  {
    hide Reached, FreshRun, SystemInv, Bare, IsSent, Seen, Suits, StartPeer, Arrives, SendMany, InsertReach, Unwrap,
         SentMore, Fits, WindowsFit, Config.Valid, CanSend;
    SuitsFits(c, timeA);
    var n := c.receivedPacketsBufferSize;
    StartIs(c, ages, timeA, timeB);
    StartsBare(c, timeA);
    SendingReaches(c, ages, timeA, timeB, [], n);
    assert [] + SendMany(n) == SendMany(n);
    CountsAs(0, n - 1, n - 1, n);
    ArrivalReaches(c, ages, timeA, timeB, SendMany(n), n - 1, n - 1, 0, [], []);
    assert [] + [n - 1] == [n - 1];
  }

  /** Packet 65536 is taken for packet 0; the datagram of packet 32768, as old as it may not be, moves the mark half
      way; and packet 65536 is accepted once more. */
  function WholeActions(c: Config, timeA: real): seq<Action>
    requires Suits(c)
  {
    Opening(c, timeA) + SendMany(65537 - c.receivedPacketsBufferSize)
    + [Arrives(c, timeA, 65536)] + [Arrives(c, timeA, 32768)] + [Arrives(c, timeA, 49152)] + [Arrives(c, timeA, 65536)]
  }

  lemma WholeReaches(c: Config, ages: Ages, timeA: real, timeB: real)
    requires Suits(c) && ages.whole >= 32769
    ensures FreshRun(c, ages, timeA, timeB, WholeActions(c, timeA))
    ensures !AllDifferent(Reached(c, timeA, timeB, WholeActions(c, timeA)).b.receipts)
  {
    hide Reached, FreshRun, SystemInv, Bare, IsSent, Seen, Suits, StartPeer, Arrives, SendMany, InsertReach, Unwrap,
         SentMore, Fits, WindowsFit, Config.Valid, CanSend, Opening, AllDifferent, Wrap;
    SuitsFits(c, timeA);
    var n := c.receivedPacketsBufferSize;
    OpeningReaches(c, ages, timeA, timeB);
    SendingReaches(c, ages, timeA, timeB, Opening(c, timeA), 65537 - n);
    var r1 := Opening(c, timeA) + SendMany(65537 - n);
    WrapOfTurn(0);
    CountsAs(n, 65536, 0, n);
    ArrivalReaches(c, ages, timeA, timeB, r1, 65536, 0, n, [n - 1], [n - 1]);
    var r2 := r1 + [Arrives(c, timeA, 65536)];
    assert [n - 1] + [65536] == [n - 1, 65536] && [n - 1] + [0] == [n - 1, 0];
    LastReached(n);
    ArrivalReaches(c, ages, timeA, timeB, r2, 32768, 32768, n, [n - 1, 65536], [n - 1, 0]);
    var r3 := r2 + [Arrives(c, timeA, 32768)];
    assert [n - 1, 65536] + [32768] == [n - 1, 65536, 32768] && [n - 1, 0] + [32768] == [n - 1, 0, 32768];
    CountsAs(32769, 49152, 49152, n);
    ArrivalReaches(c, ages, timeA, timeB, r3, 49152, 49152, 32769, [n - 1, 65536, 32768], [n - 1, 0, 32768]);
    var r4 := r3 + [Arrives(c, timeA, 49152)];
    assert [n - 1, 65536, 32768] + [49152] == [n - 1, 65536, 32768, 49152];
    assert [n - 1, 0, 32768] + [49152] == [n - 1, 0, 32768, 49152];
    CountsAs(49153, 65536, 65536, n);
    ArrivalReaches(c, ages, timeA, timeB, r4, 65536, 65536, 49153, [n - 1, 65536, 32768, 49152],
                   [n - 1, 0, 32768, 49152]);
    SeenTwice(Reached(c, timeA, timeB, WholeActions(c, timeA)).b, 65537, [n - 1, 65536, 32768, 49152] + [65536],
              [n - 1, 0, 32768, 49152] + [65536], 1, 4);
  }

  /** The last number that `insert` takes. */
  lemma LastReached(n: nat)
    requires 2 <= n <= 16384
    ensures Unwrap(n, Wrap(32768)) == 32768 && InsertReach(n, n, 32768)
  {
    UnwrapIs(n, 32768);
  }

  // ---------------------------------------------------------------- packets that travel in fragments

  function Big(c: Config): bytes {
    seq(c.fragmentAbove + 1, _ => 0)
  }

  function RejectEach(): Process {
    (s: u16, payload: bytes) => false
  }

  lemma BigIsFragmented(c: Config)
    requires c.Valid() && c.fragmentAbove < c.maxPacketSize
    ensures c.fragmentAbove < |Big(c)| <= c.maxPacketSize && 0 < NumFragments(|Big(c)|, c.fragmentSize)
  {
    LegalPacketsFit(c, |Big(c)|);
  }

  /** The first fragment of packet `k`, if that is the big one. */
  function BigFrame(c: Config, x: Peer, k: nat): Frame
    requires c.Valid() && c.fragmentAbove < c.maxPacketSize && x.state.received.WellFormed()
  {
    BigIsFragmented(c);
    var f := NextFrame(x);
    f.(number := k, data := FragmentDatagram(c, Wrap(k), f.ack, f.ackBits, Big(c), 0))
  }

  lemma BigSent(c: Config, x: Peer, y: Peer)
    requires c.Valid() && CanSend(c) && PeerInv(c, x, y) && c.fragmentAbove < c.maxPacketSize
    ensures StateInv(c, x.state)
    ensures var x' := PeerSends(c, x, Big(c));
            && SameButSent(x, x') && x'.packets == x.packets + [Big(c)] && BigFrame(c, x, |x.packets|) in x'.wire
  {
    hide PeerInv, ReassemblyInv, Buffer.Insert, Buffer.AckBits, Buffer.Ack, FragmentDatagram, NumFragments, Big;
    StatePart(c, x, y);
    SendPart(c, x, y);
    SequenceIsTotal(c, x);
    NextFits(c, x.state);
    BigIsFragmented(c);
    var f := NextFrame(x);
    var datagrams := Datagrams(c, x.state.sequence, f.ack, f.ackBits, Big(c));
    assert datagrams[0] == BigFrame(c, x, |x.packets|).data;
    assert f.(data := datagrams[0]) in FramesOf(f, datagrams);
  }

  /** The big packet is sent after some other actions. */
  lemma BigReaches(c: Config, ages: Ages, timeA: real, timeB: real, before: seq<Action>)
    requires Suits(c) && FreshRun(c, ages, timeA, timeB, before) && c.fragmentAbove < c.maxPacketSize
    requires Bare(c, timeA, Reached(c, timeA, timeB, before).a)
    ensures var after := before + [Send(true, Big(c))];
            var sys, sys' := Reached(c, timeA, timeB, before), Reached(c, timeA, timeB, after);
            && FreshRun(c, ages, timeA, timeB, after) && sys'.b == sys.b && Bare(c, timeA, sys'.a)
            && SentMore(c, timeA, sys.a, sys'.a) && sys'.a.packets == sys.a.packets + [Big(c)]
            && BigFrame(c, StartPeer(c, timeA), |sys.a.packets|) in sys'.a.wire
  {
    hide PeerInv, Reached, FreshRun, PeerSends, ReassemblyInv, FrameOf, BigFrame, Big, Init;
    var sys := Reached(c, timeA, timeB, before);
    SuitsFits(c, timeA);
    BigSent(c, sys.a, sys.b);
    RunGrows(c, timeA, timeB, before, Send(true, Big(c)));
    FreshGrows(c, ages, timeA, timeB, before, Send(true, Big(c)));
    SameBigFrame(c, StartPeer(c, timeA), sys.a, |sys.a.packets|);
    StillSent(c, timeA, sys.a, PeerSends(c, sys.a, Big(c)));
  }

  lemma SameBigFrame(c: Config, x: Peer, x1: Peer, k: nat)
    requires c.Valid() && c.fragmentAbove < c.maxPacketSize && x.state.received.WellFormed() && SameButSent(x, x1)
    ensures x1.state.received.WellFormed() && BigFrame(c, x1, k) == BigFrame(c, x, k)
  {
    hide FragmentDatagram;
  }

  /** A first fragment ahead of the mark moves it, and if its packet is complete and rejected, does no more. */
  lemma FragmentMovesOn(c: Config, x: Peer, y: Peer, f: Frame, u: int)
    requires Suits(c) && PeerInv(c, x, y) && PeerInv(c, y, x) && f in y.wire
    requires f.number < |y.packets| && |y.packets[f.number]| > c.fragmentAbove && u == Unwrap(x.mark, Wrap(f.number))
    requires AdvanceReach(c.fragmentReassemblyBufferSize, x.mark, u) && x.mark <= u
    ensures StateInv(c, x.state)
    ensures var x' := PeerReceives(c, x, f, RejectEach());
            && x'.mark == u + 1 && x'.receipts == x.receipts && x'.past == x.past && x'.packets == x.packets
            && |x.delivered| <= |x'.delivered|
  {
    hide Receive, PeerInv, HistoryInv, FrameOk, HeaderFrame, SourcesOf, PartsAfter, MarkAfter, AddedAcks, Numbers,
         ReassemblyInv, DecodeHeader, DecodeFragment, EncodeHeader, WasAccepted, AdvanceReach, Wrap, Unwrap, Filled,
         Payload;
    StatePart(c, x, y);
    WireOk(c, x, y, f);
    FragmentedDatagram(c, y, f);
    PastPart(c, x, y);
    var h := History(x.state, x.mark, x.past);
    StateOf(c, h);
    if WasAccepted(h, u) {
      AcceptedIsBelow(c, h, u);
    }
    FragmentHandedOverExactly(c, h, f.data, RejectEach());
    FoundSlotMovesMark(c, h, f.data, RejectEach());
  }

  lemma SeenStays(x: Peer, x': Peer, mark: int, mark': int, numbers: seq<nat>, counts: seq<int>)
    requires Seen(x, mark, numbers, counts) && x'.packets == x.packets && x'.mark == mark'
    requires x'.receipts == x.receipts && x'.past == x.past && |x.delivered| <= |x'.delivered|
    ensures Seen(x', mark', numbers, counts)
  {
  }

  function BigArrives(c: Config, timeA: real, k: nat): Action
    requires c.Valid() && c.fragmentAbove < c.maxPacketSize
  {
    Deliver(false, BigFrame(c, StartPeer(c, timeA), k), RejectEach())
  }

  /** The first fragment of the big packet arrives, counted ahead of the mark. */
  lemma BigArrivalReaches(c: Config, ages: Ages, timeA: real, timeB: real, before: seq<Action>, k: nat, u: int,
                          mark: int, numbers: seq<nat>, counts: seq<int>)
    requires Suits(c) && FreshRun(c, ages, timeA, timeB, before) && c.fragmentAbove < c.maxPacketSize
    requires var sys := Reached(c, timeA, timeB, before);
             && Seen(sys.b, mark, numbers, counts) && BigFrame(c, StartPeer(c, timeA), k) in sys.a.wire
             && k < |sys.a.packets| && sys.a.packets[k] == Big(c) && |sys.a.packets| - k <= ages.fragmented
    requires u == Unwrap(mark, Wrap(k)) && AdvanceReach(c.fragmentReassemblyBufferSize, mark, u) && mark <= u
    ensures var after := before + [BigArrives(c, timeA, k)];
            var sys, sys' := Reached(c, timeA, timeB, before), Reached(c, timeA, timeB, after);
            && FreshRun(c, ages, timeA, timeB, after) && sys'.a == sys.a && Seen(sys'.b, u + 1, numbers, counts)
  {
    hide PeerInv, PeerReceives, Receive, Suits, Init, StateInv, Big, RejectEach, ActOn, BigFrame, Wrap, Unwrap, Seen,
         AdvanceReach, Reached, FreshRun, Fresh;
    SuitsFits(c, timeA);
    var sys := Reached(c, timeA, timeB, before);
    var f := BigFrame(c, StartPeer(c, timeA), k);
    BigFrameNumber(c, StartPeer(c, timeA), k);
    BigIsFragmented(c);
    RunGrows(c, timeA, timeB, before, BigArrives(c, timeA, k));
    FreshGrows(c, ages, timeA, timeB, before, BigArrives(c, timeA, k));
    DeliveredToB(c, sys, f, RejectEach());
    SeenMark(sys.b, mark, numbers, counts);
    FragmentMovesOn(c, sys.b, sys.a, f, u);
    SeenStays(sys.b, PeerReceives(c, sys.b, f, RejectEach()), mark, u + 1, numbers, counts);
  }

  lemma BigFrameNumber(c: Config, x: Peer, k: nat)
    requires c.Valid() && c.fragmentAbove < c.maxPacketSize && x.state.received.WellFormed()
    ensures BigFrame(c, x, k).number == k
  {
  }

  /** The packets of the second run: one in fragments, as far ahead of the window as a first fragment may be. */
  function GapActions(c: Config, timeA: real): seq<Action>
    requires Suits(c) && c.fragmentAbove < c.maxPacketSize
  {
    Opening(c, timeA) + SendMany(32767) + [Send(true, Big(c))] + SendMany(32769 - c.receivedPacketsBufferSize)
  }

  /** What they bring about. */
  ghost predicate GapOpen(c: Config, timeA: real, sys: System)
    requires Suits(c) && c.fragmentAbove < c.maxPacketSize
  {
    var n := c.receivedPacketsBufferSize;
    && Bare(c, timeA, sys.a) && |sys.a.packets| == 65537 && Seen(sys.b, n, [n - 1], [n - 1])
    && 2 <= n <= 16384 && sys.a.packets[n + 32767] == Big(c)
    && BigFrame(c, StartPeer(c, timeA), n + 32767) in sys.a.wire
    && (forall k: nat :: n + 32768 <= k < 65537 ==> IsSent(c, timeA, sys.a, k))
  }

  lemma GapReaches(c: Config, ages: Ages, timeA: real, timeB: real)
    requires Suits(c) && ages.whole >= 1 && c.fragmentAbove < c.maxPacketSize
    ensures FreshRun(c, ages, timeA, timeB, GapActions(c, timeA))
    ensures GapOpen(c, timeA, Reached(c, timeA, timeB, GapActions(c, timeA)))
  {
    hide Reached, FreshRun, SystemInv, Bare, IsSent, Seen, Suits, StartPeer, SendMany, Fits, WindowsFit, Config.Valid,
         CanSend, Opening, Big, BigFrame;
    SuitsFits(c, timeA);
    var n := c.receivedPacketsBufferSize;
    OpeningReaches(c, ages, timeA, timeB);
    var r1 := Opening(c, timeA) + SendMany(32767);
    SendingReaches(c, ages, timeA, timeB, Opening(c, timeA), 32767);
    BigReaches(c, ages, timeA, timeB, r1);
    var r2 := r1 + [Send(true, Big(c))];
    var sys2 := Reached(c, timeA, timeB, r2);
    SendingReaches(c, ages, timeA, timeB, r2, 32769 - n);
    GrownPacket(sys2.a.packets, Reached(c, timeA, timeB, GapActions(c, timeA)).a.packets, n + 32767);
  }

  /** Packet 65536 is taken for packet 0; the fragment, as old as it may not be, moves the mark half way; and packet
      65536 is accepted once more. */
  function FragmentActions(c: Config, timeA: real): seq<Action>
    requires Suits(c) && c.fragmentAbove < c.maxPacketSize
  {
    var n := c.receivedPacketsBufferSize;
    GapActions(c, timeA) + [Arrives(c, timeA, 65536)] + [BigArrives(c, timeA, n + 32767)]
    + [Arrives(c, timeA, n + 49151)] + [Arrives(c, timeA, 65536)]
  }

  lemma FragmentReaches(c: Config, ages: Ages, timeA: real, timeB: real)
    requires Suits(c) && c.fragmentAbove < c.maxPacketSize
    requires ages.whole >= 16384 && ages.fragmented >= 32770 - c.receivedPacketsBufferSize
    ensures FreshRun(c, ages, timeA, timeB, FragmentActions(c, timeA))
    ensures !AllDifferent(Reached(c, timeA, timeB, FragmentActions(c, timeA)).b.receipts)
  {
    hide Reached, FreshRun, SystemInv, Bare, IsSent, Seen, Suits, StartPeer, Arrives, BigArrives, InsertReach, Unwrap,
         AdvanceReach, Fits, WindowsFit, Config.Valid, CanSend, GapActions, AllDifferent, Wrap, Big, BigFrame;
    SuitsFits(c, timeA);
    var n := c.receivedPacketsBufferSize;
    var r1 := GapActions(c, timeA);
    GapReaches(c, ages, timeA, timeB);
    WrapOfTurn(0);
    CountsAs(n, 65536, 0, n);
    ArrivalReaches(c, ages, timeA, timeB, r1, 65536, 0, n, [n - 1], [n - 1]);
    var r2 := r1 + [Arrives(c, timeA, 65536)];
    assert [n - 1] + [65536] == [n - 1, 65536] && [n - 1] + [0] == [n - 1, 0];
    LastAdvanced(c, n);
    BigArrivalReaches(c, ages, timeA, timeB, r2, n + 32767, n + 32767, n, [n - 1, 65536], [n - 1, 0]);
    var r3 := r2 + [BigArrives(c, timeA, n + 32767)];
    CountsAs(n + 32768, n + 49151, n + 49151, n);
    ArrivalReaches(c, ages, timeA, timeB, r3, n + 49151, n + 49151, n + 32768, [n - 1, 65536], [n - 1, 0]);
    var r4 := r3 + [Arrives(c, timeA, n + 49151)];
    var numbers, counts := [n - 1, 65536] + [n + 49151], [n - 1, 0] + [n + 49151];
    CountsAs(n + 49152, 65536, 65536, n);
    ArrivalReaches(c, ages, timeA, timeB, r4, 65536, 65536, n + 49152, numbers, counts);
    SeenTwice(Reached(c, timeA, timeB, FragmentActions(c, timeA)).b, 65537, numbers + [65536], counts + [65536], 1, 3);
  }

  /** The last number that `insert_advance_first` takes. */
  lemma LastAdvanced(c: Config, n: nat)
    requires 2 <= n <= 16384
    ensures Unwrap(n, Wrap(n + 32767)) == n + 32767
    ensures AdvanceReach(c.fragmentReassemblyBufferSize, n, n + 32767)
  {
    UnwrapIs(n, n + 32767);
  }

  // ---------------------------------------------------------------- the largest ages

  /** The largest ages up to which no packet is ever accepted twice: 32768 for packets that travel whole, whatever the
      window, and 32769 less the width of the window for packets that travel in fragments, if any do. */
  lemma LargestAgesExactly(c: Config, ages: Ages)
    requires Suits(c)
    ensures Within(ages, LargestAges(c)) ==> NeverTwice(c, ages)
    ensures ages.whole > LargestAges(c).whole ==> !NeverTwice(c, ages)
    ensures c.fragmentAbove < c.maxPacketSize && ages.whole >= 16384 ==>
              (NeverTwice(c, ages) <==> Within(ages, LargestAges(c)))
  {
    hide Reached, FreshRun, AllDifferent, Suits;
    SuitsFits(c, 0.0);
    if Within(ages, LargestAges(c)) {
      forall timeA: real, timeB: real, actions: seq<Action> | FreshRun(c, ages, timeA, timeB, actions)
        ensures AllDifferent(Reached(c, timeA, timeB, actions).b.receipts)
      {
        AcceptedOnceWhenFresh(c, ages, timeA, timeB, actions);
      }
    } else if ages.whole > LargestAges(c).whole {
      WholeReaches(c, ages, 0.0, 0.0);
    } else if c.fragmentAbove < c.maxPacketSize && ages.whole >= 16384 {
      FragmentReaches(c, ages, 0.0, 0.0);
    }
  }
}
