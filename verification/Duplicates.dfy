/** When a datagram is handed to the process closure, told from the state and the datagram before the call; and so when
    one that was accepted is handed over once more. */
module Duplicates {
  import opened Wrappers
  import opened Sequence
  import opened Codec
  import opened CodecLaws
  import opened Buffers
  import opened Windows
  import opened Reassembly
  import opened Protocol
  import opened Invariants
  import opened ReceiveSide

  // ---------------------------------------------------------------- what the two inserts take

  /** The packet numbers that `insert` takes. */
  predicate InsertReach(n: nat, mark: int, u: int) {
    mark - n <= u < mark + 32768 - n || (u == mark + 32768 - n && Wrap(u) >= Wrap(mark - n))
  }

  /** The packet numbers that `insert_advance_first` takes. */
  predicate AdvanceReach(n: nat, mark: int, u: int) {
    mark - n <= u < mark + 32767 || (u == mark + 32767 && Wrap(u + 1) > Wrap(mark))
  }

  ghost predicate WasAccepted(h: History, k: int) {
    exists i :: 0 <= i < |h.accepted| && h.accepted[i].number == k
  }

  lemma StaleIsOutOfReach(b: ReceivedBuffer, mark: int, s: u16)
    requires Inv(b, mark) && Fits(b.Size())
    ensures b.Stale(s) <==> !InsertReach(b.Size(), mark, Unwrap(mark, s))
  {
    StaleExactly(b, mark, s);
  }

  lemma ThereIsAccepted(c: Config, h: History, s: u16)
    requires HistoryInv(c, h)
    ensures h.state.received.Exists(s) <==>
            h.mark - c.receivedPacketsBufferSize <= Unwrap(h.mark, s) && WasAccepted(h, Unwrap(h.mark, s))
  {
    hide StateInv, AcceptanceOk, Apart, SlotInWindow;
    FindRefines(h.state.received, h.mark, s);
    var k := Unwrap(h.mark, s);
    assert h.state.received.Exists(s) <==> k in Live(h.state.received, h.mark);
  }

  lemma AcceptedIsBelow(c: Config, h: History, k: int)
    requires HistoryInv(c, h) && WasAccepted(h, k)
    ensures k < h.mark
  {
    var i :| 0 <= i < |h.accepted| && h.accepted[i].number == k;
    assert AcceptanceOk(c, h, h.accepted[i]);
  }

  // ---------------------------------------------------------------- a regular datagram

  lemma CallsOfWhole(c: Config, st: State, data: bytes, process: Process)
    requires c.Valid() && Sized(c, st)
    ensures ReceiveWhole(c, st, data, process).calls ==
            match DecodeHeader(data)
            case None => []
            case Some(g) =>
              if |data| <= c.LongestDatagram() && |data[g.size..]| <= c.maxPacketSize
                 && !st.received.Stale(g.sequence) && !st.received.Exists(g.sequence)
              then [Call(g.sequence, data[g.size..], process(g.sequence, data[g.size..]))] else []
  {
    hide DecodeHeader, Accept, Buffer.Exists, Buffer.Stale;
  }

  /** What lets a regular datagram pass: its lengths are legal, its header reads, and its number, counted from the mark,
      is within the reach of `insert` and was not accepted. */
  ghost predicate RegularPasses(c: Config, h: History, data: bytes) {
    && |data| <= c.LongestDatagram() && DecodeHeader(data).Some?
    && var g := DecodeHeader(data).value;
       && |data[g.size..]| <= c.maxPacketSize
       && var u := Unwrap(h.mark, g.sequence);
          InsertReach(c.receivedPacketsBufferSize, h.mark, u) && !WasAccepted(h, u)
  }

  lemma RegularIsWhole(c: Config, st: State, data: bytes, process: Process)
    requires c.Valid() && Sized(c, st) && ReassemblyInv(c, st.reassembly) && |data| > 0 && data[0] % 2 == 0
    ensures Receive(c, st, data, process) == ReceiveWhole(c, st, data, process)
  {
    hide ReceiveRegular;
  }

  /** A regular datagram is handed over exactly when it passes. */
  lemma RegularHandedOverExactly(c: Config, h: History, data: bytes, process: Process)
    requires c.Valid() && HistoryInv(c, h) && |data| > 0 && data[0] % 2 == 0
    ensures var r := Receive(c, h.state, data, process);
            if RegularPasses(c, h, data) then
              var g := DecodeHeader(data).value;
              r.calls == [Call(g.sequence, data[g.size..], process(g.sequence, data[g.size..]))]
            else r.calls == []
  {
    hide Receive, ReceiveWhole, DecodeHeader, InsertReach, WasAccepted, HistoryInv, StateInv, InStep, Buffer.Exists,
         Buffer.Stale;
    StateOf(c, h);
    StateIsSized(c, h.state);
    RegularIsWhole(c, h.state, data, process);
    CallsOfWhole(c, h.state, data, process);
    if DecodeHeader(data).Some? {
      NumberPasses(c, h, DecodeHeader(data).value.sequence);
    }
  }

  lemma StateIsSized(c: Config, st: State)
    requires StateInv(c, st)
    ensures Sized(c, st) && ReassemblyInv(c, st.reassembly)
  {
  }

  lemma NumberPasses(c: Config, h: History, s: u16)
    requires HistoryInv(c, h)
    ensures var u := Unwrap(h.mark, s);
            !h.state.received.Stale(s) && !h.state.received.Exists(s) <==>
            InsertReach(c.receivedPacketsBufferSize, h.mark, u) && !WasAccepted(h, u)
  {
    hide InsertReach, WasAccepted, HistoryInv, StateInv, SlotInWindow, Buffer.Exists, Buffer.Stale;
    StateOf(c, h);
    StaleIsOutOfReach(h.state.received, h.mark, s);
    ThereIsAccepted(c, h, s);
    ReachIsAbove(c.receivedPacketsBufferSize, h.mark, Unwrap(h.mark, s));
  }

  lemma ReachIsAbove(n: nat, mark: int, u: int)
    requires n < 32768
    ensures InsertReach(n, mark, u) ==> mark - n <= u
  {
  }

  // ---------------------------------------------------------------- a fragment

  /** Setting up a slot moves the mark to right behind its number, or not at all. */
  lemma OpenMark(c: Config, st: State, mark: int, f: FragmentHeader)
    requires c.Valid() && InStep(c, st, mark) && OpenSlot(c, st, f).Some?
    ensures var mark', u := MarkAfter(mark, st.received, OpenSlot(c, st, f).value.received), Unwrap(mark, f.sequence);
            mark' == if u < mark then mark else u + 1
  {
    hide Inv, MarkAfter, Buffer.Advance, Buffer.Exists, FreshReassembly;
    var s := f.sequence;
    OpenSlotMoves(c, st, mark, f);
    MarkStays(st.received, mark);
    AdvancedMarkIsMarkAfter(st.received, mark, s);
    MarkIsThere(st, mark);
    NewerExactly(st.received, mark, s);
  }

  lemma MarkIsThere(st: State, mark: int)
    requires Inv(st.received, mark)
    ensures st.received.sequence == Wrap(mark)
  {
  }

  /** A slot for the packet of a fragment is found or set up exactly for the numbers that `insert_advance_first`
      takes. */
  lemma OpensExactly(c: Config, st: State, mark: int, f: FragmentHeader)
    requires c.Valid() && InStep(c, st, mark)
    ensures OpenSlot(c, st, f).Some? <==>
            AdvanceReach(c.fragmentReassemblyBufferSize, mark, Unwrap(mark, f.sequence))
  {
    hide FreshReassembly, SlotInWindow, Buffer.InsertAdvanceFirst, SetAt, Abs;
    var s, b := f.sequence, st.reassembly;
    InsertAdvanceFirstRefines(b, mark, s, FreshReassembly(f.total, c.fragmentSize));
    WrapOfSum(Unwrap(mark, s), 1);
    if b.Exists(s) {
      HeldIsInWindow(b, mark, s);
    }
  }

  lemma HeldIsInWindow<T>(b: Buffer<T>, mark: int, s: u16)
    requires Inv(b, mark) && b.Exists(s)
    ensures mark - b.Size() <= Unwrap(mark, s) < mark
  {
    assert SlotInWindow(b, mark, b.Index(s));
  }

  /** A fragment has a slot to go to: it is legal, its number is within the reach of `insert_advance_first`, and it is
      not that of an accepted packet of the window. */
  ghost predicate FragmentFindsSlot(c: Config, h: History, data: bytes) {
    && |data| <= c.LongestDatagram() && DecodeFragment(data, c.maxFragments, c.fragmentSize).Some?
    && var u := Unwrap(h.mark, DecodeFragment(data, c.maxFragments, c.fragmentSize).value.sequence);
       && AdvanceReach(c.fragmentReassemblyBufferSize, h.mark, u)
       && !(h.mark - c.receivedPacketsBufferSize <= u && WasAccepted(h, u))
  }

  /** Without a slot to go to, a fragment changes nothing but counters. */
  lemma FragmentWithoutSlot(c: Config, h: History, data: bytes, process: Process)
    requires c.Valid() && HistoryInv(c, h) && |data| > 0 && data[0] % 2 == 1 && !FragmentFindsSlot(c, h, data)
    ensures Filled(c, h.state, data) == None
    ensures var r := Receive(c, h.state, data, process);
            r.calls == [] && r.state == h.state.(counters := r.state.counters)
  {
    hide DecodeFragment, AdvanceReach, WasAccepted, ReassemblyInv, Buffer.Exists, Inv, Live, OpenSlot, StoreInSlot,
         FilledSlot;
    if DecodeFragment(data, c.maxFragments, c.fragmentSize).Some? {
      var f := DecodeFragment(data, c.maxFragments, c.fragmentSize).value;
      OpensExactly(c, h.state, h.mark, f);
      ThereIsAccepted(c, h, f.sequence);
    }
  }

  /** What lets a packet put together pass: its number is not below the received window, and its payload is not too
      long. That it was not accepted is part of the datagram finding a slot. */
  ghost predicate CompletedPasses(c: Config, mark: int, s: u16, d: FragmentReassemblyData) {
    mark - c.receivedPacketsBufferSize <= Unwrap(mark, s) && d.packetBytes <= c.maxPacketSize
  }

  /** A fragment has a packet handed over exactly when it fills up its slot and the packet passes. */
  lemma FragmentHandedOverExactly(c: Config, h: History, data: bytes, process: Process)
    requires c.Valid() && HistoryInv(c, h) && |data| > 0 && data[0] % 2 == 1
    ensures Filled(c, h.state, data).Some? ==> FragmentFindsSlot(c, h, data)
    ensures var r, d := Receive(c, h.state, data, process), Filled(c, h.state, data);
            if d.Some? && FragmentFindsSlot(c, h, data)
               && CompletedPasses(c, h.mark, DecodeFragment(data, c.maxFragments, c.fragmentSize).value.sequence,
                                  d.value)
            then
              var s := DecodeFragment(data, c.maxFragments, c.fragmentSize).value.sequence;
              r.calls == [Call(s, Payload(d.value), process(s, Payload(d.value)))]
            else r.calls == []
  {
    hide Receive, DecodeFragment, FragmentFindsSlot, CompletedPasses, ReassemblyInv, HistoryInv, Filled, Payload;
    assert StateInv(c, h.state) && InStep(c, h.state, h.mark) by { StateOf(c, h); }
    if !FragmentFindsSlot(c, h, data) {
      FragmentWithoutSlot(c, h, data, process);
    } else {
      FoundSlotHandsOver(c, h, data, process);
    }
  }

  lemma StateOf(c: Config, h: History)
    requires HistoryInv(c, h)
    ensures StateInv(c, h.state) && InStep(c, h.state, h.mark)
  {
  }

  lemma FoundSlotHandsOver(c: Config, h: History, data: bytes, process: Process)
    requires c.Valid() && HistoryInv(c, h) && |data| > 0 && data[0] % 2 == 1 && FragmentFindsSlot(c, h, data)
    ensures var r, d := Receive(c, h.state, data, process), Filled(c, h.state, data);
            var s := DecodeFragment(data, c.maxFragments, c.fragmentSize).value.sequence;
            r.calls == if d.Some? && CompletedPasses(c, h.mark, s, d.value)
                       then [Call(s, Payload(d.value), process(s, Payload(d.value)))] else []
  {
    hide DecodeFragment, AdvanceReach, WasAccepted, ReassemblyInv, HistoryInv, Buffer.Exists, Inv, Moved, OpenSlot,
         StoreInSlot, FilledSlot, Payload, MarkAfter;
    StateOf(c, h);
    var st, mark := h.state, h.mark;
    var f := DecodeFragment(data, c.maxFragments, c.fragmentSize).value;
    OpensExactly(c, st, mark, f);
    ThereIsAccepted(c, h, f.sequence);
    AcceptedFragmentIsLegal(data, c.maxFragments, c.fragmentSize);
    OpenSlotInv(c, st, f);
    var open := OpenSlot(c, st, f).value;
    OpenedIsNotThere(c, st, mark, f);
    StoredHandsOver(c, open, f, data, process);
  }

  /** Once the slot is there the packet is not in the received buffer, and it is stale exactly if it was below the
      received window before. */
  lemma OpenedIsNotThere(c: Config, st: State, mark: int, f: FragmentHeader)
    requires c.Valid() && InStep(c, st, mark) && OpenSlot(c, st, f).Some? && !st.received.Exists(f.sequence)
    ensures var open := OpenSlot(c, st, f).value;
            && open.received.WellFormed() && !open.received.Exists(f.sequence)
            && (open.received.Stale(f.sequence) <==>
                  Unwrap(mark, f.sequence) < mark - c.receivedPacketsBufferSize)
  {
    hide SlotInWindow, FreshReassembly, Buffer.InsertAdvanceFirst, OpenSlot, MarkAfter, Abs, Buffer.Exists,
         Buffer.Stale, ReassemblyInv;
    var s, open := f.sequence, OpenSlot(c, st, f).value;
    OpenMark(c, st, mark, f);
    OpenSlotMoves(c, st, mark, f);
    var mark' := MarkAfter(mark, st.received, open.received);
    StaleIsOutOfReach(open.received, mark', s);
    FindRefines(st.received, mark, s);
    FindRefines(open.received, mark', s);
    HasExactly(st.received, s);
    HasExactly(open.received, s);
    var u := Unwrap(mark, s);
    assert u !in Live(open.received, mark');
  }

  lemma HasExactly<T>(b: Buffer<T>, s: u16)
    requires b.WellFormed()
    ensures b.Exists(s) <==> b.Find(s).Some?
  {
  }

  lemma StoredHandsOver(c: Config, st: State, f: FragmentHeader, data: bytes, process: Process)
    requires c.Valid() && Sized(c, st) && ReassemblyInv(c, st.reassembly) && st.reassembly.Exists(f.sequence)
    requires DecodeFragment(data, c.maxFragments, c.fragmentSize) == Some(f) && !st.received.Exists(f.sequence)
    ensures var d := FilledSlot(c, st, f, data);
            StoreInSlot(c, st, f, data, process).calls ==
            if d.Some? && !st.received.Stale(f.sequence) && d.value.packetBytes <= c.maxPacketSize
            then [Call(f.sequence, Payload(d.value), process(f.sequence, Payload(d.value)))] else []
  {
    hide DecodeFragment, Complete, Payload, HoldsHeader, EncodeHeader, Buffer.Exists, Buffer.Stale;
    var d := st.reassembly.entries[st.reassembly.Index(f.sequence)];
    SlotAt(c, st, f.sequence);
    AcceptedFragmentIsLegal(data, c.maxFragments, c.fragmentSize);
    if f.total == d.numFragmentsTotal && !d.fragmentReceived[f.id] {
      ShapeAfterStore(d, f, FragmentPayload(data, f), c.maxFragments, c.fragmentSize);
      StoredData(d, f, FragmentPayload(data, f), c.maxFragments, c.fragmentSize);
      if d.numFragmentsReceived + 1 == f.total {
        var full := Received(d, f, c.fragmentSize, data[FRAGMENT_HEADER_BYTES..]);
        CompletedHandsOver(c, st, f.sequence, full, process);
      }
    }
  }

  lemma CompletedHandsOver(c: Config, st: State, s: u16, d: FragmentReassemblyData, process: Process)
    requires c.Valid() && Sized(c, st) && SlotShape(d, s, c.fragmentSize)
    requires d.numFragmentsReceived == d.numFragmentsTotal && !st.received.Exists(s)
    ensures d.packetHeaderBytes <= MAX_PACKET_HEADER_BYTES && MAX_PACKET_HEADER_BYTES + d.packetBytes <= |d.packetData|
    ensures Complete(c, st, s, d, process).calls ==
            if !st.received.Stale(s) && d.packetBytes <= c.maxPacketSize
            then [Call(s, Payload(d), process(s, Payload(d)))] else []
  {
    hide SlotShape, HoldsHeader, ReceiveWhole, DecodeHeader, Buffer.Exists, Buffer.Stale;
    var ack, ackBits := CompleteHasHeader(d, s, c.fragmentSize);
    ReassembledReads(d, s, ack, ackBits);
    CallsOfWhole(c, SetEntry(st, s, d.(packetData := [])), Reassembled(d), process);
  }

  // ---------------------------------------------------------------- repeats

  /** A datagram of an accepted packet is dropped for as long as the mark is not half the number space and the width of
      the window beyond that packet; a fragment, for as long as it is not more than half the number space. */
  lemma RepeatIsDropped(c: Config, h: History, e: nat, data: bytes, process: Process)
    requires c.Valid() && HistoryInv(c, h) && e < |h.accepted| && |data| > 0
    requires SequenceIn(c, data) == Some(h.accepted[e].sequence)
    requires var n := if data[0] % 2 == 0 then c.receivedPacketsBufferSize else 1;
             h.mark - h.accepted[e].number < 32768 + n
    ensures Receive(c, h.state, data, process).calls == []
  {
    hide Receive, DecodeFragment, DecodeHeader, HistoryInv, ReassemblyInv, Filled, Payload, Inv;
    StateOf(c, h);
    var k := h.accepted[e].number;
    AcceptedAt(c, h, e);
    WhereItIs(h.mark, k);
    if data[0] % 2 == 0 {
      RegularHandedOverExactly(c, h, data, process);
    } else {
      FragmentHandedOverExactly(c, h, data, process);
    }
  }

  lemma AcceptedAt(c: Config, h: History, e: nat)
    requires HistoryInv(c, h) && e < |h.accepted|
    ensures var a := h.accepted[e]; a.sequence == Wrap(a.number) && a.number < h.mark && WasAccepted(h, a.number)
  {
    assert AcceptanceOk(c, h, h.accepted[e]);
  }

  /** Where a number below the mark is taken to be. */
  lemma WhereItIs(mark: int, k: int)
    requires mark - 98304 <= k < mark
    ensures Unwrap(mark, Wrap(k)) == if mark - 32768 <= k then k else k + 65536
  {
    if mark - 32768 > k {
      WrapOfTurn(k);
      UnwrapIs(mark, k + 65536);
    } else {
      UnwrapIs(mark, k);
    }
  }

  /** Exactly when a regular datagram of an accepted packet is handed over once more, within one turn of the number
      space: the mark must be half the number space and the width of the window beyond the packet. */
  lemma RepeatExactly(c: Config, h: History, e: nat, data: bytes, process: Process)
    requires c.Valid() && HistoryInv(c, h) && e < |h.accepted| && |data| > 0 && data[0] % 2 == 0
    requires SequenceIn(c, data) == Some(h.accepted[e].sequence) && h.mark - h.accepted[e].number <= 65536
    requires |data| <= c.LongestDatagram() && |data[DecodeHeader(data).value.size..]| <= c.maxPacketSize
    ensures var n, far := c.receivedPacketsBufferSize, h.mark - h.accepted[e].number;
            Receive(c, h.state, data, process).calls != [] <==>
            far > 32768 + n || (far == 32768 + n && h.accepted[e].sequence >= Wrap(h.mark - n))
  {
    hide Receive, DecodeFragment, DecodeHeader, HistoryInv, ReassemblyInv, Inv;
    StateOf(c, h);
    var k, n := h.accepted[e].number, c.receivedPacketsBufferSize;
    AcceptedAt(c, h, e);
    WhereItIs(h.mark, k);
    WrapOfTurn(k);
    RegularHandedOverExactly(c, h, data, process);
    if WasAccepted(h, k + 65536) {
      AcceptedIsBelow(c, h, k + 65536);
    }
  }

  /** Exactly when a fragment of an accepted packet finds a slot again, within one turn of the number space: the mark
      must be more than half the number space beyond the packet; or the packet has left the received window, but not
      the one under reassembly. What the latter puts together is stale. */
  lemma FragmentFindsSlotAgainExactly(c: Config, h: History, e: nat, data: bytes)
    requires c.Valid() && HistoryInv(c, h) && e < |h.accepted| && |data| > 0 && data[0] % 2 == 1
    requires SequenceIn(c, data) == Some(h.accepted[e].sequence) && h.mark - h.accepted[e].number <= 65536
    requires |data| <= c.LongestDatagram()
    ensures var n, m := c.receivedPacketsBufferSize, c.fragmentReassemblyBufferSize;
            var far := h.mark - h.accepted[e].number;
            FragmentFindsSlot(c, h, data) <==>
            n < far <= m || far > 32769 || (far == 32769 && Wrap(h.accepted[e].sequence + 1) > Wrap(h.mark))
  {
    hide DecodeFragment, HistoryInv, ReassemblyInv, Inv, WasAccepted;
    StateOf(c, h);
    var k := h.accepted[e].number;
    AcceptedAt(c, h, e);
    WhereItIs(h.mark, k);
    WrapOfTurn(k);
    WrapOfSum(k, 1);
    WrapOfSum(k + 65536, 1);
    if WasAccepted(h, k + 65536) {
      AcceptedIsBelow(c, h, k + 65536);
    }
  }

  // ---------------------------------------------------------------- what a datagram does to the mark

  /** A datagram moves the mark to right behind its number, or not at all; `insert` takes no number further ahead than
      it reaches; and an accepted number is that of the datagram, counted from the mark it met. */
  ghost predicate MarkStep(c: Config, st: State, mark: int, data: bytes, r: Receiving)
    requires |data| > 0
  {
    var mark' := MarkAfter(mark, st.received, r.state.received);
    match SequenceIn(c, data)
    case None => mark' == mark && AcceptedOf(r) == None
    case Some(s) =>
      var u := Unwrap(mark, s);
      && (mark' == mark || (mark' == u + 1 && mark <= u
                            && (data[0] % 2 == 0 ==> u <= mark + 32768 - c.receivedPacketsBufferSize)))
      && (AcceptedOf(r).Some? ==> AcceptedOf(r) == Some(s) && Unwrap(mark', s) == u)
  }

  lemma DatagramMovesMark(c: Config, st: State, mark: int, data: bytes, process: Process)
    requires c.Valid() && StateInv(c, st) && InStep(c, st, mark) && |data| > 0
    ensures MarkStep(c, st, mark, data, Receive(c, st, data, process))
  {
    hide ReceiveWhole, ReceiveFragment, ReassemblyInv, DecodeHeader, DecodeFragment, MarkAfter, Inv, MarkStep;
    if |data| > c.LongestDatagram() {
      NoMove(c, st, mark, data, TooLarge(st));
    } else if data[0] % 2 == 0 {
      RegularIsWhole(c, st, data, process);
      RegularMovesMark(c, st, mark, data, process);
    } else {
      FragmentMovesMark(c, st, mark, data, process);
    }
  }

  lemma NoMove(c: Config, st: State, mark: int, data: bytes, st': State)
    requires |data| > 0 && st'.received == st.received
    ensures MarkStep(c, st, mark, data, Receiving(st', []))
  {
    hide DecodeHeader, DecodeFragment, MarkAfter;
    MarkStays(st.received, mark);
  }

  lemma RegularMovesMark(c: Config, st: State, mark: int, data: bytes, process: Process)
    requires c.Valid() && StateInv(c, st) && InStep(c, st, mark) && |data| > 0 && data[0] % 2 == 0
    ensures MarkStep(c, st, mark, data, ReceiveWhole(c, st, data, process))
  {
    hide ReceiveWhole, ReassemblyInv, DecodeHeader, DecodeFragment, MarkAfter, Inv, Moved, Buffer.Advance,
         Buffer.Exists, Buffer.Stale, Buffer.Put;
    var r := ReceiveWhole(c, st, data, process);
    WholeFrame(c, st, data, process);
    CallOfWhole(c, st, data, process);
    MarkStays(st.received, mark);
    if AcceptedOf(r).Some? {
      var s := AcceptedOf(r).value;
      StaleIsOutOfReach(st.received, mark, s);
      InsertMoves(st.received, mark, s, ReceivedEntry(c, st, |data|));
      MarkIsThere(st, mark);
      NewerExactly(st.received, mark, s);
      MarkAfterInsert(st.received, mark, s, ReceivedEntry(c, st, |data|));
    }
  }

  lemma FragmentMovesMark(c: Config, st: State, mark: int, data: bytes, process: Process)
    requires c.Valid() && StateInv(c, st) && InStep(c, st, mark) && |data| > 0 && data[0] % 2 == 1
    ensures MarkStep(c, st, mark, data, ReceiveFragment(c, st, data, process))
  {
    hide StoreInSlot, OpenSlot, ReassemblyInv, DecodeHeader, DecodeFragment, MarkAfter, Inv, Moved, Buffer.Advance,
         Buffer.Exists, MarkStep;
    match DecodeFragment(data, c.maxFragments, c.fragmentSize)
    case None => NoMove(c, st, mark, data, InvalidFragment(st));
    case Some(f) =>
      if st.received.Exists(f.sequence) {
        NoMove(c, st, mark, data, st);
      } else if OpenSlot(c, st, f).None? {
        NoMove(c, st, mark, data, InvalidFragment(st));
      } else {
        AcceptedFragmentIsLegal(data, c.maxFragments, c.fragmentSize);
        OpenSlotInv(c, st, f);
        StoredMovesMark(c, st, mark, f, data, process);
      }
  }

  lemma StoredMovesMark(c: Config, st: State, mark: int, f: FragmentHeader, data: bytes, process: Process)
    requires c.Valid() && StateInv(c, st) && InStep(c, st, mark) && |data| > 0 && data[0] % 2 == 1
    requires DecodeFragment(data, c.maxFragments, c.fragmentSize) == Some(f)
    requires OpenSlot(c, st, f).Some?
    requires var open := OpenSlot(c, st, f).value;
             Sized(c, open) && ReassemblyInv(c, open.reassembly) && open.reassembly.Exists(f.sequence)
    ensures var r := StoreInSlot(c, OpenSlot(c, st, f).value, f, data, process);
            var u := Unwrap(mark, f.sequence);
            && MarkStep(c, st, mark, data, r)
            && MarkAfter(mark, st.received, r.state.received) == if u < mark then mark else u + 1
  {
    hide StoreInSlot, OpenSlot, ReassemblyInv, DecodeFragment, MarkAfter, Inv, Buffer.Exists, Live;
    var open := OpenSlot(c, st, f).value;
    var mark1 := MarkAfter(mark, st.received, open.received);
    OpenMark(c, st, mark, f);
    OpenSlotMoves(c, st, mark, f);
    StoreMoves(c, open, mark1, f, data, process);
    var r := StoreInSlot(c, open, f, data, process);
    TwoMoves(st.received, mark, open.received, mark1, r.state.received, NumberOf(mark1, AcceptedOf(r)));
    StoredCalls(c, open, f, data, process);
  }

  lemma StoredCalls(c: Config, st: State, f: FragmentHeader, data: bytes, process: Process)
    requires c.Valid() && Sized(c, st) && ReassemblyInv(c, st.reassembly) && st.reassembly.Exists(f.sequence)
    requires DecodeFragment(data, c.maxFragments, c.fragmentSize) == Some(f)
    ensures var r := StoreInSlot(c, st, f, data, process); AcceptedOf(r).Some? ==> AcceptedOf(r) == Some(f.sequence)
  {
    hide DecodeFragment, ReceiveWhole, HoldsHeader, EncodeHeader;
    var d := st.reassembly.entries[st.reassembly.Index(f.sequence)];
    SlotAt(c, st, f.sequence);
    AcceptedFragmentIsLegal(data, c.maxFragments, c.fragmentSize);
    if f.total == d.numFragmentsTotal && !d.fragmentReceived[f.id] {
      ShapeAfterStore(d, f, FragmentPayload(data, f), c.maxFragments, c.fragmentSize);
      var d' := Received(d, f, c.fragmentSize, data[FRAGMENT_HEADER_BYTES..]);
      if d'.numFragmentsReceived == d'.numFragmentsTotal {
        var ack, ackBits := CompleteHasHeader(d', f.sequence, c.fragmentSize);
        ReassembledReads(d', f.sequence, ack, ackBits);
        CallOfWhole(c, SetEntry(st, f.sequence, d'.(packetData := [])), Reassembled(d'), process);
      }
    }
  }

  /** A fragment that finds a slot leaves the mark right behind its number, if that is not below the mark. */
  lemma FoundSlotMovesMark(c: Config, h: History, data: bytes, process: Process)
    requires c.Valid() && HistoryInv(c, h) && |data| > 0 && data[0] % 2 == 1 && FragmentFindsSlot(c, h, data)
    ensures var u := Unwrap(h.mark, DecodeFragment(data, c.maxFragments, c.fragmentSize).value.sequence);
            MarkAfter(h.mark, h.state.received, Receive(c, h.state, data, process).state.received)
            == if u < h.mark then h.mark else u + 1
  {
    hide DecodeFragment, AdvanceReach, WasAccepted, ReassemblyInv, HistoryInv, Buffer.Exists, Inv, OpenSlot,
         StoreInSlot, MarkAfter, MarkStep;
    StateOf(c, h);
    var st, mark := h.state, h.mark;
    var f := DecodeFragment(data, c.maxFragments, c.fragmentSize).value;
    OpensExactly(c, st, mark, f);
    ThereIsAccepted(c, h, f.sequence);
    AcceptedFragmentIsLegal(data, c.maxFragments, c.fragmentSize);
    OpenSlotInv(c, st, f);
    StoredMovesMark(c, st, mark, f, data, process);
  }
}
