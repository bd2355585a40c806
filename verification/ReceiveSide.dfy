/** The receive side over whole runs: no packet number is accepted twice, and the acks a header carries are
    exactly the packet numbers that were accepted. */
module ReceiveSide {
  import opened Wrappers
  import opened Sequence
  import opened Codec
  import opened CodecLaws
  import opened Buffers
  import opened Windows
  import opened Reassembly
  import opened Protocol
  import opened Invariants

  type ReceivedBuffer = Buffer<ReceivedPacketData>

  /** The packet numbers a buffer holds. */
  ghost function Live<T>(b: Buffer<T>, high: int): set<int>
    requires b.WellFormed()
  {
    Abs(b, high).live.Keys
  }

  // ---------------------------------------------------------------- one step

  /** One move of the received buffer: the mark only moves forward, numbers leave only at the bottom, and at most
      one number enters, which was not there. */
  ghost predicate Moved(b: ReceivedBuffer, high: int, b': ReceivedBuffer, high': int, entered: Option<int>) {
    && Inv(b, high) && Inv(b', high') && b'.Size() == b.Size() && high <= high' <= high + 32768
    && (forall k :: k in Live(b', high') <==> (k in Live(b, high) && high' - b.Size() <= k) || entered == Some(k))
    && (entered.Some? ==> entered.value !in Live(b, high) && high' - b.Size() <= entered.value < high')
  }

  /** Both receive-side buffers hold numbers of one and the same window top. */
  ghost predicate InStep(c: Config, st: State, mark: int) {
    && Sized(c, st) && Fits(c.receivedPacketsBufferSize) && Fits(c.fragmentReassemblyBufferSize)
    && Inv(st.received, mark) && Inv(st.reassembly, mark)
  }

  /** Where the mark is after the buffer went from `before` to `after`. */
  function MarkAfter(mark: int, before: ReceivedBuffer, after: ReceivedBuffer): int {
    mark + Forward(after.sequence, before.sequence)
  }

  lemma MarkAfterIs(mark: int, before: ReceivedBuffer, after: ReceivedBuffer, mark': int)
    requires before.sequence == Wrap(mark) && after.sequence == Wrap(mark') && mark <= mark' < mark + 65536
    ensures MarkAfter(mark, before, after) == mark'
  {
    WrapOfDifference(mark', mark);
    WrapOfSmall(mark' - mark);
  }

  lemma MarkStays(b: ReceivedBuffer, mark: int)
    ensures MarkAfter(mark, b, b) == mark
  {
  }

  /** Where advancing to `s` puts the mark. */
  function AdvancedMark(sequence: u16, mark: int, s: u16): int {
    if GreaterThan(Wrap(s + 1), sequence) then Unwrap(mark, s) + 1 else mark
  }

  lemma AdvanceMoves(b: ReceivedBuffer, high: int, s: u16)
    requires Inv(b, high) && Fits(b.Size())
    ensures Moved(b, high, b.Advance(s), AdvancedMark(b.sequence, high, s), None)
  {
    AdvanceRefines(b, high, s);
  }

  lemma AdvanceKeepsInv<T>(b: Buffer<T>, high: int, s: u16)
    requires Inv(b, high) && Fits(b.Size())
    ensures Inv(b.Advance(s), AdvancedMark(b.sequence, high, s))
  {
    AdvanceRefines(b, high, s);
  }

  lemma AdvancedMarkIsMarkAfter(b: ReceivedBuffer, mark: int, s: u16)
    requires Inv(b, mark) && Fits(b.Size())
    ensures MarkAfter(mark, b, b.Advance(s)) == AdvancedMark(b.sequence, mark, s)
  {
    AdvanceRefines(b, mark, s);
    MarkAfterIs(mark, b, b.Advance(s), AdvancedMark(b.sequence, mark, s));
  }

  lemma MarkAfterInsert(b: ReceivedBuffer, mark: int, s: u16, v: ReceivedPacketData)
    requires Inv(b, mark) && Fits(b.Size()) && !b.Stale(s)
    ensures MarkAfter(mark, b, b.Insert(s, v).value) == AdvancedMark(b.sequence, mark, s)
  {
    hide Inv, Fits, AdvancedMark, Buffer.Advance;
    AdvancedMarkIsMarkAfter(b, mark, s);
  }

  lemma InsertMoves(b: ReceivedBuffer, high: int, s: u16, v: ReceivedPacketData)
    requires Inv(b, high) && Fits(b.Size()) && !b.Stale(s) && !b.Exists(s)
    ensures var high' := AdvancedMark(b.sequence, high, s);
            && Moved(b, high, b.Insert(s, v).value, high', Some(Unwrap(high', s)))
            && Unwrap(high', s) == Unwrap(high, s)
  {
    InsertRefines(b, high, s, v);
    NewerExactly(b, high, s);
    StaleExactly(b, high, s);
    FindRefines(b, high, s);
    var k := Unwrap(high, s);
    var high' := AdvancedMark(b.sequence, high, s);
    UnwrapIs(high', k);
  }

  /** The sequence a datagram names, if it can be read at all. */
  function SequenceIn(c: Config, data: bytes): Option<u16>
    requires |data| > 0
  {
    if data[0] % 2 == 0 then
      match DecodeHeader(data)
      case None => None
      case Some(h) => Some(h.sequence)
    else
      match DecodeFragment(data, c.maxFragments, c.fragmentSize)
      case None => None
      case Some(f) => Some(f.sequence)
  }

  /** The sequence accepted by a receive, if any. */
  function AcceptedOf(r: Receiving): Option<u16> {
    if r.calls != [] && r.calls[0].accepted then Some(r.calls[0].sequence) else None
  }

  function NumberOf(mark: int, s: Option<u16>): Option<int> {
    match s
    case None => None
    case Some(q) => Some(Unwrap(mark, q))
  }

  /** A regular packet moves the buffers by at most one number. */
  lemma WholeMoves(c: Config, st: State, mark: int, data: bytes, process: Process)
    requires c.Valid() && InStep(c, st, mark)
    ensures var r := ReceiveWhole(c, st, data, process);
            var mark' := MarkAfter(mark, st.received, r.state.received);
            && InStep(c, r.state, mark')
            && Moved(st.received, mark, r.state.received, mark', NumberOf(mark', AcceptedOf(r)))
            && (AcceptedOf(r).Some? && Unwrap(mark, AcceptedOf(r).value) < mark ==>
                  mark' == mark && r.state.reassembly == st.reassembly)
            && (AcceptedOf(r).None? ==> mark' == mark && r.state.reassembly == st.reassembly)
            && (AcceptedOf(r).Some? ==> r.state.reassembly == st.reassembly.Advance(AcceptedOf(r).value))
  {
    WholeFrame(c, st, data, process);
    var r := ReceiveWhole(c, st, data, process);
    if r.calls != [] && r.calls[0].accepted {
      var s := r.calls[0].sequence;
      InsertMoves(st.received, mark, s, ReceivedEntry(c, st, |data|));
      AdvanceKeepsInv(st.reassembly, mark, s);
      NewerExactly(st.received, mark, s);
      MarkAfterIs(mark, st.received, r.state.received, AdvancedMark(st.received.sequence, mark, s));
    } else {
      MarkAfterIs(mark, st.received, r.state.received, mark);
    }
  }

  /** Where the packet number lies once its slot has been set up. */
  lemma OpenedInWindow(b: Buffer<FragmentReassemblyData>, mark: int, s: u16, v: FragmentReassemblyData)
    requires Inv(b, mark) && Fits(b.Size()) && b.InsertAdvanceFirst(s, v).Some?
    ensures var b', mark' := b.InsertAdvanceFirst(s, v).value, AdvancedMark(b.sequence, mark, s);
            && Inv(b', mark') && b'.Exists(s)
            && mark' - b.Size() <= Unwrap(mark, s) < mark' && Unwrap(mark', s) == Unwrap(mark, s)
  {
    hide SetAt, Abs, SlotInWindow;
    InsertAdvanceFirstRefines(b, mark, s, v);
    NewerExactly(b, mark, s);
    StaleExactly(b, mark, s);
    UnwrapIs(AdvancedMark(b.sequence, mark, s), Unwrap(mark, s));
  }

  /** Setting up or finding a slot moves both buffers alike, and afterwards the number is inside both windows. */
  lemma OpenSlotMoves(c: Config, st: State, mark: int, f: FragmentHeader)
    requires c.Valid() && InStep(c, st, mark) && OpenSlot(c, st, f).Some?
    ensures var open := OpenSlot(c, st, f).value;
            var mark' := MarkAfter(mark, st.received, open.received);
            && InStep(c, open, mark')
            && Moved(st.received, mark, open.received, mark', None)
            && open.reassembly.Exists(f.sequence)
            && mark' - c.fragmentReassemblyBufferSize <= Unwrap(mark', f.sequence) < mark'
            && Unwrap(mark', f.sequence) == Unwrap(mark, f.sequence)
  {
    var s := f.sequence;
    if st.reassembly.Exists(s) {
      FindRefines(st.reassembly, mark, s);
      MarkAfterIs(mark, st.received, st.received, mark);
    } else {
      hide Inv, Fits, Moved, MarkAfter, AdvancedMark, Buffer.Advance, Buffer.Exists, FreshReassembly;
      SameSequence(st, mark);
      OpenedInWindow(st.reassembly, mark, s, FreshReassembly(f.total, c.fragmentSize));
      AdvanceMoves(st.received, mark, s);
      AdvanceKeepsInv(st.received, mark, s);
      AdvancedMarkIsMarkAfter(st.received, mark, s);
    }
  }

  lemma SameSequence(st: State, mark: int)
    requires Inv(st.received, mark) && Inv(st.reassembly, mark)
    ensures st.received.sequence == st.reassembly.sequence
  {
  }

  lemma OpenIsThere(c: Config, st: State, f: FragmentHeader)
    requires Sized(c, st) && st.reassembly.Exists(f.sequence)
    ensures OpenSlot(c, st, f) == Some(st)
  {
  }

  lemma SetEntryInStep(c: Config, st: State, mark: int, s: u16, d: FragmentReassemblyData)
    requires InStep(c, st, mark) && st.reassembly.Exists(s)
    ensures InStep(c, SetEntry(st, s, d), mark)
  {
    var b, b' := st.reassembly, SetEntry(st, s, d).reassembly;
    forall i | 0 <= i < b'.Size() && b'.slots[i].Some?
      ensures SlotInWindow(b', mark, i)
    {
      assert SlotInWindow(b, mark, i);
    }
  }

  lemma RemoveInStep(c: Config, st: State, mark: int, s: u16)
    requires InStep(c, st, mark)
    requires mark - c.fragmentReassemblyBufferSize <= Unwrap(mark, s) < mark
    ensures InStep(c, st.(reassembly := st.reassembly.Remove(s)), mark)
  {
    RemoveRefines(st.reassembly, mark, Unwrap(mark, s));
  }

  /** A call to the process closure gets the sequence and the payload of the packet that was read. */
  lemma CallOfWhole(c: Config, st: State, data: bytes, process: Process)
    requires c.Valid() && Sized(c, st)
    ensures var r := ReceiveWhole(c, st, data, process);
            r.calls != [] ==>
              && DecodeHeader(data).Some?
              && var h := DecodeHeader(data).value;
                 r.calls == [Call(h.sequence, data[h.size..], process(h.sequence, data[h.size..]))]
  {
  }

  /** The reassembled datagram reads as the packet header stored with fragment 0 and the payload area. */
  lemma ReassembledReads(d: FragmentReassemblyData, s: u16, ack: u16, ackBits: u32)
    requires HoldsHeader(d, s, ack, ackBits) && MAX_PACKET_HEADER_BYTES + d.packetBytes <= |d.packetData|
    ensures var h := DecodeHeader(Reassembled(d));
            h.Some? && h.value.sequence == s && h.value.ack == ack && h.value.ackBits == ackBits
            && Reassembled(d)[h.value.size..] == Payload(d)
  {
    ReassembledIs(d, s, ack, ackBits);
    HeaderRoundTrip(s, ack, ackBits, Payload(d));
  }

  lemma CompleteHasHeader(d: FragmentReassemblyData, s: u16, fragmentSize: nat) returns (ack: u16, ackBits: u32)
    requires SlotShape(d, s, fragmentSize) && d.numFragmentsReceived == d.numFragmentsTotal
    ensures HoldsHeader(d, s, ack, ackBits)
    ensures d.packetHeaderBytes <= MAX_PACKET_HEADER_BYTES && MAX_PACKET_HEADER_BYTES + d.packetBytes <= |d.packetData|
  {
    CompleteSlotReads(d, s, fragmentSize);
    FullCount(d.fragmentReceived, d.numFragmentsTotal);
    ack, ackBits :| HoldsHeader(d, s, ack, ackBits);
  }

  /** The nested receive of a reassembled packet moves neither window, so removing by index frees exactly the slot
      of the completed packet and disturbs no other reassembly. */
  lemma CompletionIsLocal(c: Config, st: State, mark: int, s: u16, d: FragmentReassemblyData, process: Process)
    requires c.Valid() && InStep(c, st, mark) && st.reassembly.Exists(s)
    requires SlotShape(d, s, c.fragmentSize) && d.numFragmentsReceived == d.numFragmentsTotal
    ensures d.packetHeaderBytes <= MAX_PACKET_HEADER_BYTES && MAX_PACKET_HEADER_BYTES + d.packetBytes <= |d.packetData|
    ensures var r := Complete(c, st, s, d, process);
            && InStep(c, r.state, mark)
            && Moved(st.received, mark, r.state.received, mark, NumberOf(mark, AcceptedOf(r)))
            && (r.calls != [] ==> r.calls[0].sequence == s)
            && Abs(r.state.reassembly, mark).live == Abs(st.reassembly, mark).live - {Unwrap(mark, s)}
  {
    var ack, ackBits := CompleteHasHeader(d, s, c.fragmentSize);
    ReassembledReads(d, s, ack, ackBits);
    var taken := d.(packetData := []);
    var st0 := SetEntry(st, s, taken);
    var data := Reassembled(d);
    SetEntryInStep(c, st, mark, s, taken);
    FindRefines(st.reassembly, mark, s);
    CallOfWhole(c, st0, data, process);
    WholeMoves(c, st0, mark, data, process);
    var st1 := ReceiveWhole(c, st0, data, process).state;
    MarkAfterIs(mark, st0.received, st0.received, mark);
    RemoveInStep(c, st1, mark, s);
    var k := Unwrap(mark, s);
    RemoveRefines(st1.reassembly, mark, k);
    SameButOne(st.reassembly, mark, k, taken);
  }

  lemma SameButOne(b: Buffer<FragmentReassemblyData>, mark: int, k: int, d: FragmentReassemblyData)
    requires Inv(b, mark) && Fits(b.Size()) && mark - b.Size() <= k < mark
    ensures var b' := b.(entries := b.entries[b.Index(Wrap(k)) := d]);
            Abs(b', mark).live - {k} == Abs(b, mark).live - {k}
  {
    forall j | mark - b.Size() <= j < mark
      ensures j != k ==> b.Index(Wrap(j)) != b.Index(Wrap(k))
    {
      SameIndexSameNumber(b.Size(), j, k);
    }
  }

  lemma FinishMoves(c: Config, st: State, mark: int, s: u16, d: FragmentReassemblyData, process: Process)
    requires c.Valid() && InStep(c, st, mark) && st.reassembly.Exists(s) && SlotShape(d, s, c.fragmentSize)
    ensures var r := FinishSlot(c, st, s, d, process);
            && InStep(c, r.state, mark)
            && Moved(st.received, mark, r.state.received, mark, NumberOf(mark, AcceptedOf(r)))
  {
    if d.numFragmentsReceived == d.numFragmentsTotal {
      CompletionIsLocal(c, st, mark, s, d, process);
    } else {
      SetEntryInStep(c, st, mark, s, d);
    }
  }

  /** What one received datagram, of any bytes, does to the two windows. */
  ghost predicate StepMoves(c: Config, st: State, mark: int, r: Receiving) {
    var mark' := MarkAfter(mark, st.received, r.state.received);
    && InStep(c, r.state, mark')
    && Moved(st.received, mark, r.state.received, mark', NumberOf(mark', AcceptedOf(r)))
  }

  lemma FragmentMoves(c: Config, st: State, mark: int, data: bytes, process: Process)
    requires c.Valid() && InStep(c, st, mark) && ReassemblyInv(c, st.reassembly)
    ensures StepMoves(c, st, mark, ReceiveFragment(c, st, data, process))
  {
    MarkAfterIs(mark, st.received, st.received, mark);
    if DecodeFragment(data, c.maxFragments, c.fragmentSize).Some? {
      var f := DecodeFragment(data, c.maxFragments, c.fragmentSize).value;
      if !st.received.Exists(f.sequence) && OpenSlot(c, st, f).Some? {
        AcceptedFragmentIsLegal(data, c.maxFragments, c.fragmentSize);
        OpenSlotMoves(c, st, mark, f);
        OpenSlotInv(c, st, f);
        var open := OpenSlot(c, st, f).value;
        StoreMoves(c, open, MarkAfter(mark, st.received, open.received), f, data, process);
        TwoMoves(st.received, mark, open.received, MarkAfter(mark, st.received, open.received),
                 StoreInSlot(c, open, f, data, process).state.received,
                 NumberOf(MarkAfter(mark, st.received, open.received),
                          AcceptedOf(StoreInSlot(c, open, f, data, process))));
      }
    }
  }

  lemma StoreMoves(c: Config, st: State, mark: int, f: FragmentHeader, data: bytes, process: Process)
    requires c.Valid() && InStep(c, st, mark) && ReassemblyInv(c, st.reassembly) && st.reassembly.Exists(f.sequence)
    requires DecodeFragment(data, c.maxFragments, c.fragmentSize) == Some(f)
    ensures var r := StoreInSlot(c, st, f, data, process);
            && InStep(c, r.state, mark)
            && Moved(st.received, mark, r.state.received, mark, NumberOf(mark, AcceptedOf(r)))
  {
    var d := st.reassembly.entries[st.reassembly.Index(f.sequence)];
    SlotAt(c, st, f.sequence);
    AcceptedFragmentIsLegal(data, c.maxFragments, c.fragmentSize);
    if f.total == d.numFragmentsTotal && !d.fragmentReceived[f.id] {
      ShapeAfterStore(d, f, FragmentPayload(data, f), c.maxFragments, c.fragmentSize);
      FinishMoves(c, st, mark, f.sequence, Received(d, f, c.fragmentSize, data[FRAGMENT_HEADER_BYTES..]), process);
    }
  }

  /** A move of the mark alone, followed by a move that keeps the mark. */
  lemma TwoMoves(b: ReceivedBuffer, high: int, b1: ReceivedBuffer, high1: int, b2: ReceivedBuffer, entered: Option<int>)
    requires Moved(b, high, b1, high1, None) && Moved(b1, high1, b2, high1, entered)
    ensures Moved(b, high, b2, high1, entered) && MarkAfter(high, b, b2) == high1
  {
    MarkAfterIs(high, b, b2, high1);
    if entered.Some? {
      assert entered.value !in Live(b, high);
    }
  }

  lemma ReceiveMoves(c: Config, st: State, mark: int, data: bytes, process: Process)
    requires c.Valid() && InStep(c, st, mark) && ReassemblyInv(c, st.reassembly) && |data| > 0
    ensures StepMoves(c, st, mark, Receive(c, st, data, process))
  {
    MarkAfterIs(mark, st.received, st.received, mark);
    if |data| <= c.LongestDatagram() {
      if data[0] % 2 == 0 {
        WholeMoves(c, st, mark, data, process);
      } else {
        FragmentMoves(c, st, mark, data, process);
      }
    }
  }

  // ---------------------------------------------------------------- runs

  /** One accepted delivery: its 16-bit sequence, the packet number that stands for, and the high-water mark right
      after it. */
  datatype Acceptance = Acceptance(sequence: u16, number: int, mark: int)

  /** An endpoint together with what it has accepted since it was created. */
  datatype History = History(state: State, mark: int, accepted: seq<Acceptance>)

  /** Every call but `reset`, which starts a new life with a new history. */
  ghost predicate Running(events: seq<Event>) {
    forall e :: e in events ==> Legal(e) && !e.Reset?
  }

  function NewAcceptances(mark: int, s: Option<u16>): seq<Acceptance> {
    match s
    case None => []
    case Some(q) => [Acceptance(q, Unwrap(mark, q), mark)]
  }

  function Observe(c: Config, h: History, e: Event): History
    requires c.Valid() && CanSend(c) && StateInv(c, h.state) && Legal(e)
  {
    var st' := Step(c, h.state, e);
    var mark' := MarkAfter(h.mark, h.state.received, st'.received);
    var accepted := if e.ReceivePacket? then AcceptedOf(Receive(c, h.state, e.data, e.process)) else None;
    History(st', mark', h.accepted + NewAcceptances(mark', accepted))
  }

  function Past(c: Config, time: real, events: seq<Event>): (h: History)
    requires c.Valid() && CanSend(c) && Running(events)
    ensures StateInv(c, h.state)
    decreases |events|
  {
    if events == [] then InitInv(c, time); History(Init(c, time), 0, [])
    else
      var before := Past(c, time, events[..|events| - 1]);
      StepKeepsInv(c, before.state, events[|events| - 1]);
      Observe(c, before, events[|events| - 1])
  }

  /** A history is the run of its events. */
  lemma {:induction false} PastIsRun(c: Config, time: real, events: seq<Event>)
    requires c.Valid() && CanSend(c) && Running(events)
    ensures StateInv(c, Init(c, time)) && Past(c, time, events).state == Run(c, Init(c, time), events)
    decreases |events|
  {
    InitInv(c, time);
    if events != [] {
      PastIsRun(c, time, events[..|events| - 1]);
    }
  }

  /** What the receive side keeps: the window holds exactly the accepted numbers that are still inside it, and no
      accepted number and no high-water mark ever comes back. */
  ghost predicate HistoryInv(c: Config, h: History) {
    && StateInv(c, h.state) && InStep(c, h.state, h.mark)
    && (forall k :: k in Live(h.state.received, h.mark) <==>
          h.mark - c.receivedPacketsBufferSize <= k && exists i :: 0 <= i < |h.accepted| && h.accepted[i].number == k)
    && (forall i :: 0 <= i < |h.accepted| ==> AcceptanceOk(c, h, h.accepted[i]))
    && (forall i, j :: 0 <= i < j < |h.accepted| ==> Apart(c, h.accepted[i], h.accepted[j]))
  }

  ghost predicate AcceptanceOk(c: Config, h: History, a: Acceptance) {
    a.sequence == Wrap(a.number) && a.number < a.mark <= h.mark && a.mark <= a.number + c.receivedPacketsBufferSize
  }

  /** Two acceptances, the first before the second, are of different packet numbers; if they share the 16-bit
      sequence, the second number is a whole turn further, and right after it the mark is nearly a whole turn beyond
      where it was right after the first. */
  ghost predicate Apart(c: Config, a: Acceptance, b: Acceptance) {
    && a.number != b.number
    && (a.sequence == b.sequence ==>
          b.number >= a.number + 65536 && b.mark - a.mark >= 65537 - c.receivedPacketsBufferSize)
  }

  lemma {:induction false} HistoryHolds(c: Config, time: real, events: seq<Event>)
    requires c.Valid() && CanSend(c) && Running(events)
    requires Fits(c.receivedPacketsBufferSize) && Fits(c.fragmentReassemblyBufferSize)
    ensures HistoryInv(c, Past(c, time, events))
    decreases |events|
  {
    if events == [] {
      InitInv(c, time);
      EmptyRefines(c.receivedPacketsBufferSize, NO_RECEIVED);
      EmptyRefines(c.fragmentReassemblyBufferSize, NoReassembly());
    } else {
      var before := Past(c, time, events[..|events| - 1]);
      HistoryHolds(c, time, events[..|events| - 1]);
      ObserveKeepsInv(c, before, events[|events| - 1]);
    }
  }

  lemma ObserveKeepsInv(c: Config, h: History, e: Event)
    requires c.Valid() && CanSend(c) && Legal(e) && !e.Reset? && HistoryInv(c, h)
    ensures HistoryInv(c, Observe(c, h, e))
  {
    StepKeepsInv(c, h.state, e);
    var h' := Observe(c, h, e);
    if e.ReceivePacket? {
      ReceiveMoves(c, h.state, h.mark, e.data, e.process);
      var accepted := AcceptedOf(Receive(c, h.state, e.data, e.process));
      HistoryMoves(c, h, h', accepted);
    } else {
      MarkAfterIs(h.mark, h.state.received, h.state.received, h.mark);
      if e.SendPacket? {
        NextFits(c, h.state);
      }
      assert h'.accepted == h.accepted;
    }
  }

  lemma HistoryMoves(c: Config, h: History, h': History, accepted: Option<u16>)
    requires HistoryInv(c, h) && StateInv(c, h'.state) && InStep(c, h'.state, h'.mark)
    requires Moved(h.state.received, h.mark, h'.state.received, h'.mark, NumberOf(h'.mark, accepted))
    requires h'.accepted == h.accepted + NewAcceptances(h'.mark, accepted)
    ensures HistoryInv(c, h')
  {
    var n := |h.accepted|;
    forall k
      ensures k in Live(h'.state.received, h'.mark) <==>
              h'.mark - c.receivedPacketsBufferSize <= k
              && exists i :: 0 <= i < |h'.accepted| && h'.accepted[i].number == k
    {
      LiveAfter(c, h, h', accepted, k);
    }
    if accepted.Some? {
      var a := h'.accepted[n];
      forall i | 0 <= i < n
        ensures Apart(c, h.accepted[i], a)
      {
        NewIsApart(c, h, h'.mark, h.accepted[i], a);
      }
    }
    forall i, j | 0 <= i < j < |h'.accepted|
      ensures Apart(c, h'.accepted[i], h'.accepted[j])
    {
      assert h'.accepted[i] == h.accepted[i];
    }
    forall i | 0 <= i < |h'.accepted|
      ensures AcceptanceOk(c, h', h'.accepted[i])
    {
      if i < n {
        assert AcceptanceOk(c, h, h.accepted[i]);
      }
    }
  }

  lemma LiveAfter(c: Config, h: History, h': History, accepted: Option<u16>, k: int)
    requires HistoryInv(c, h) && Sized(c, h'.state)
    requires Moved(h.state.received, h.mark, h'.state.received, h'.mark, NumberOf(h'.mark, accepted))
    requires h'.accepted == h.accepted + NewAcceptances(h'.mark, accepted)
    ensures k in Live(h'.state.received, h'.mark) <==>
            h'.mark - c.receivedPacketsBufferSize <= k
            && exists i :: 0 <= i < |h'.accepted| && h'.accepted[i].number == k
  {
    hide StateInv, InStep, AcceptanceOk, Apart, Inv, Wrap;
    var n := |h.accepted|;
    if i :| 0 <= i < n && h.accepted[i].number == k {
      assert h'.accepted[i].number == k;
    }
    if accepted.Some? {
      assert h'.accepted[n].number == Unwrap(h'.mark, accepted.value);
    }
    if i :| 0 <= i < |h'.accepted| && h'.accepted[i].number == k {
      if i < n {
        assert h.accepted[i].number == k;
      }
    }
  }

  lemma NewIsApart(c: Config, h: History, mark: int, a: Acceptance, b: Acceptance)
    requires HistoryInv(c, h) && a in h.accepted
    requires h.mark <= mark && b.mark == mark && b.sequence == Wrap(b.number)
    requires mark - c.receivedPacketsBufferSize <= b.number < mark && b.number !in Live(h.state.received, h.mark)
    ensures Apart(c, a, b)
  {
    var i :| 0 <= i < |h.accepted| && h.accepted[i] == a;
    assert AcceptanceOk(c, h, a);
    assert a.number != b.number by {
      assert h.accepted[i].number in Live(h.state.received, h.mark) || a.number < h.mark - c.receivedPacketsBufferSize;
    }
    if a.sequence == b.sequence && b.number < a.number + 65536 {
      CloseNumbersWrapApart(b.number, a.number);
    }
  }

  /** No packet number, as the window counts them, is ever accepted twice, regular or reassembled, whatever datagrams
      arrive. If a 16-bit sequence is accepted again, then as a number that is at least a whole turn further; and that
      acceptance leaves the mark a whole turn, but for the width of the window, beyond where the earlier one left it.
      Part of that way the second acceptance itself moves the mark: when it may happen, told before the call, is the
      matter of module Duplicates. */
  lemma AtMostOnce(c: Config, time: real, events: seq<Event>, i: nat, j: nat)
    requires c.Valid() && CanSend(c) && Running(events)
    requires Fits(c.receivedPacketsBufferSize) && Fits(c.fragmentReassemblyBufferSize)
    requires i < j < |Past(c, time, events).accepted|
    ensures var accepted := Past(c, time, events).accepted;
            && accepted[i].number != accepted[j].number
            && (accepted[i].sequence == accepted[j].sequence ==>
                  && accepted[j].number >= accepted[i].number + 65536
                  && accepted[j].mark - accepted[i].mark >= 65537 - c.receivedPacketsBufferSize > HALF)
  {
    HistoryHolds(c, time, events);
    var h := Past(c, time, events);
    assert Apart(c, h.accepted[i], h.accepted[j]);
  }

  // ---------------------------------------------------------------- the acks a header carries

  /** Bit `i` of the ack bits says whether the packet number `i` below the newest is in the window. */
  lemma AckBitIs<T>(b: Buffer<T>, high: int, i: nat)
    requires Inv(b, high) && i < 32
    ensures b.Ack() == Wrap(high - 1) && Wrap(b.Ack() - i) == Wrap(high - 1 - i)
    ensures Bit(b.AckBits(), i) <==> i < b.Size() && high - 1 - i in Live(b, high)
  {
    WrapOfSum(high, -1);
    WrapOfSum(high - 1, 0 - i);
    var flags := b.AckFlags();
    BitOfFromBits(flags, i);
    var s := Wrap(high - 1 - i);
    FlagAt(b, i, s);
    UnwrapIs(high, high - 1 - i);
    FindRefines(b, high, s);
  }

  lemma HeaderIsExact(c: Config, h: History, i: nat)
    requires HistoryInv(c, h) && i < 32
    ensures h.state.received.Ack() == Wrap(h.mark - 1)
    ensures Bit(h.state.received.AckBits(), i) <==>
              i < c.receivedPacketsBufferSize
              && exists j :: 0 <= j < |h.accepted| && h.accepted[j].number == h.mark - 1 - i
  {
    AckBitIs(h.state.received, h.mark, i);
  }

  /** In every reachable state the header of the next packet is exact: its ack is the packet number below the
      high-water mark, and bit `i` is set exactly if the packet number `i` below that was accepted and the window is
      wider than `i`, also when fragments moved the window without an accepted packet. */
  lemma AckBitsAreExact(c: Config, time: real, events: seq<Event>, i: nat)
    requires c.Valid() && CanSend(c) && Running(events) && i < 32
    requires Fits(c.receivedPacketsBufferSize) && Fits(c.fragmentReassemblyBufferSize)
    ensures var h := Past(c, time, events);
            && h.state.received.Ack() == Wrap(h.mark - 1)
            && (Bit(h.state.received.AckBits(), i) <==>
                  i < c.receivedPacketsBufferSize
                  && exists j :: 0 <= j < |h.accepted| && h.accepted[j].number == h.mark - 1 - i)
  {
    HistoryHolds(c, time, events);
    HeaderIsExact(c, Past(c, time, events), i);
  }

  /** Every header sent while an accepted packet is within 32 numbers of the high-water mark carries its bit. */
  lemma AcceptedIsRepeated(c: Config, h: History, j: nat)
    requires HistoryInv(c, h) && j < |h.accepted|
    requires h.mark - h.accepted[j].number <= 32 && h.mark - h.accepted[j].number <= c.receivedPacketsBufferSize
    ensures var i := h.mark - 1 - h.accepted[j].number;
            && 0 <= i && Bit(h.state.received.AckBits(), i)
            && Wrap(h.state.received.Ack() - i) == h.accepted[j].sequence
  {
    assert AcceptanceOk(c, h, h.accepted[j]);
    var i := h.mark - 1 - h.accepted[j].number;
    HeaderIsExact(c, h, i);
    WrapOfSum(h.mark - 1, 0 - i);
  }
}
