/** Nothing is counted twice and nothing is lost from the books: the counters of an endpoint add up in every run. */
module Accounts {
  import opened Wrappers
  import opened Sequence
  import opened Codec
  import opened CodecLaws
  import opened Buffers
  import opened Windows
  import opened Reassembly
  import opened Protocol
  import opened Invariants
  import opened ReceiveSide

  type Slots = Buffer<FragmentReassemblyData>

  // ---------------------------------------------------------------- sums

  function Sum(counts: seq<nat>): nat {
    if counts == [] then 0 else counts[0] + Sum(counts[1..])
  }

  lemma {:induction false} SumOfParts(a: seq<nat>, b: seq<nat>, c: seq<nat>)
    requires |a| == |b| == |c| && forall i :: 0 <= i < |a| ==> a[i] == b[i] + c[i]
    ensures Sum(a) == Sum(b) + Sum(c)
  {
    if a != [] {
      SumOfParts(a[1..], b[1..], c[1..]);
    }
  }

  lemma {:induction false} SumAfterUpdate(a: seq<nat>, i: nat, v: nat)
    requires i < |a|
    ensures Sum(a[i := v]) == Sum(a) - a[i] + v
  {
    if i > 0 {
      SumAfterUpdate(a[1..], i - 1, v);
      assert a[i := v][1..] == a[1..][i - 1 := v];
    } else {
      assert a[i := v][1..] == a[1..];
    }
  }

  lemma {:induction false} SumOfNone(a: seq<nat>)
    requires forall i :: 0 <= i < |a| ==> a[i] == 0
    ensures Sum(a) == 0
  {
    if a != [] {
      SumOfNone(a[1..]);
    }
  }

  // ---------------------------------------------------------------- fragments in slots

  function HeldAt(b: Slots, i: nat): nat
    requires b.WellFormed() && i < b.Size()
  {
    if b.slots[i].Some? then b.entries[i].numFragmentsReceived else 0
  }

  /** Fragments of the packet in slot `i`, if its number lies below `bottom`. */
  function BelowAt(b: Slots, mark: int, bottom: int, i: nat): nat
    requires b.WellFormed() && i < b.Size()
  {
    if b.slots[i].Some? && Unwrap(mark, b.slots[i].value) < bottom then b.entries[i].numFragmentsReceived else 0
  }

  function HeldCounts(b: Slots): (r: seq<nat>)
    requires b.WellFormed()
    ensures |r| == b.Size()
  {
    seq(b.Size(), i requires 0 <= i < b.Size() => HeldAt(b, i))
  }

  function BelowCounts(b: Slots, mark: int, bottom: int): (r: seq<nat>)
    requires b.WellFormed()
    ensures |r| == b.Size()
  {
    seq(b.Size(), i requires 0 <= i < b.Size() => BelowAt(b, mark, bottom, i))
  }

  /** The fragments that packets under reassembly have received so far. */
  function Held(b: Slots): nat
    requires b.WellFormed()
  {
    Sum(HeldCounts(b))
  }

  /** The fragments of the packets that fall out of the window when its bottom rises to `bottom`. */
  function FallsOut(b: Slots, mark: int, bottom: int): nat
    requires b.WellFormed()
  {
    Sum(BelowCounts(b, mark, bottom))
  }

  /** Advancing keeps a slot exactly when its number stays in the window. */
  lemma SlotAfterAdvance(b: Slots, mark: int, s: u16, i: nat)
    requires Inv(b, mark) && Fits(b.Size()) && i < b.Size()
    ensures HeldAt(b, i) == HeldAt(b.Advance(s), i) + BelowAt(b, mark, AdvancedMark(b.sequence, mark, s) - b.Size(), i)
  {
    var n := b.Size();
    if b.slots[i].Some? {
      var m := NumberInSlot(b, mark, i);
      UnwrapIs(mark, m);
      if b.Newer(s) {
        AdvanceRefines(b, mark, s);
        var k := Unwrap(mark, s);
        if m > k - n {
          AdvanceKeepsSlots(b, mark, s, m);
        } else {
          var j := NumberOfIndex(n, k + 1, i);
          if j < mark {
            SameIndexSameNumber(n, j, m);
          }
          AdvanceKeepsSlots(b, mark, s, j);
        }
      }
    }
  }

  lemma AdvanceLoses(b: Slots, mark: int, s: u16)
    requires Inv(b, mark) && Fits(b.Size())
    ensures Held(b) == Held(b.Advance(s)) + FallsOut(b, mark, AdvancedMark(b.sequence, mark, s) - b.Size())
  {
    var bottom := AdvancedMark(b.sequence, mark, s) - b.Size();
    forall i | 0 <= i < b.Size()
      ensures HeldCounts(b)[i] == HeldCounts(b.Advance(s))[i] + BelowCounts(b, mark, bottom)[i]
    {
      SlotAfterAdvance(b, mark, s, i);
    }
    SumOfParts(HeldCounts(b), HeldCounts(b.Advance(s)), BelowCounts(b, mark, bottom));
  }

  lemma NothingFallsOut(b: Slots, mark: int, bottom: int)
    requires Inv(b, mark) && bottom <= mark - b.Size()
    ensures FallsOut(b, mark, bottom) == 0
  {
    forall i | 0 <= i < b.Size()
      ensures BelowCounts(b, mark, bottom)[i] == 0
    {
      if b.slots[i].Some? {
        assert SlotInWindow(b, mark, i);
      }
    }
    SumOfNone(BelowCounts(b, mark, bottom));
  }

  /** A slot whose number is replaced, emptied or updated changes the total by its own count only. */
  lemma HeldAfterChange(b: Slots, b': Slots, i: nat)
    requires b.WellFormed() && b'.WellFormed() && b'.Size() == b.Size() && i < b.Size()
    requires forall j :: 0 <= j < b.Size() && j != i ==> b'.slots[j] == b.slots[j] && b'.entries[j] == b.entries[j]
    ensures Held(b') == Held(b) - HeldAt(b, i) + HeldAt(b', i)
  {
    assert HeldCounts(b') == HeldCounts(b)[i := HeldAt(b', i)];
    SumAfterUpdate(HeldCounts(b), i, HeldAt(b', i));
  }

  // ---------------------------------------------------------------- one step

  /** What the books record besides the counters: calls of the process closure, whole datagrams that the length gate
      refuses, fragments of completed packets, and fragments of packets that fell out of the window. */
  datatype Ledger = Ledger(calls: nat, tooLong: nat, completed: nat, fallen: nat)

  const NOTHING := Ledger(0, 0, 0, 0)

  /** How many of the whole datagrams in this step, the one that came in or the one put together, are too long. */
  function TooLongIn(c: Config, data: bytes, filled: Option<FragmentReassemblyData>): nat
    requires filled.Some? ==> filled.value.packetHeaderBytes <= MAX_PACKET_HEADER_BYTES
                              && MAX_PACKET_HEADER_BYTES + filled.value.packetBytes <= |filled.value.packetData|
  {
    if |data| > c.LongestDatagram() then 1
    else if filled.Some? && |Reassembled(filled.value)| > c.LongestDatagram() then 1 else 0
  }

  /** The books balance for packets: every whole datagram ends in exactly one way. */
  ghost predicate PacketsBalance(st: State, l: Ledger) {
    var n := st.counters;
    n.packetsReceived + l.tooLong
    == n.packetsInvalid + n.packetsStale + n.packetsDuplicate + n.packetsTooLargeToReceive + l.calls
  }

  /** The books balance for fragments: each fragment taken in is still held, or was delivered, or fell out. */
  ghost predicate FragmentsBalance(st: State, l: Ledger)
    requires st.reassembly.WellFormed()
  {
    st.counters.fragmentsReceived == Held(st.reassembly) + l.completed + l.fallen
  }

  /** So many whole datagrams, each counted unless it is too long, and each with exactly one end. */
  ghost predicate OneEndEach(st: State, r: Receiving, tooLong: nat, wholes: nat) {
    var n, m := st.counters, r.state.counters;
    && m.packetsReceived + tooLong == n.packetsReceived + wholes
    && m.packetsInvalid + m.packetsStale + m.packetsDuplicate + m.packetsTooLargeToReceive + |r.calls|
       == n.packetsInvalid + n.packetsStale + n.packetsDuplicate + n.packetsTooLargeToReceive + wholes
  }

  lemma WholeEndsOnce(c: Config, st: State, data: bytes, process: Process)
    requires c.Valid() && Sized(c, st)
    ensures var r := ReceiveWhole(c, st, data, process);
            OneEndEach(st, r, if |data| > c.LongestDatagram() then 1 else 0, 1)
            && r.state.counters.fragmentsReceived == st.counters.fragmentsReceived
  {
    if |data| <= c.LongestDatagram() && DecodeHeader(data).Some? {
      var h := DecodeHeader(data).value;
      var st0 := CountPacket(st);
      if !st0.received.Stale(h.sequence) {
        AcksTouchOnlySent(c, st0.(received := st0.received.Insert(h.sequence, ReceivedEntry(c, st0, |data|)).value,
                                  reassembly := st0.reassembly.Advance(h.sequence)), h.ack, h.ackBits, 0);
      }
    }
  }

  lemma CompleteEndsOnce(c: Config, st: State, s: u16, d: FragmentReassemblyData, process: Process)
    requires c.Valid() && Sized(c, st)
    requires d.packetHeaderBytes <= MAX_PACKET_HEADER_BYTES && MAX_PACKET_HEADER_BYTES + d.packetBytes <= |d.packetData|
    ensures var r := Complete(c, st, s, d, process);
            OneEndEach(st, r, if |Reassembled(d)| > c.LongestDatagram() then 1 else 0, 1)
            && r.state.counters.fragmentsReceived == st.counters.fragmentsReceived
  {
    hide ReceiveWhole;
    WholeEndsOnce(c, SetEntry(st, s, d.(packetData := [])), Reassembled(d), process);
  }

  /** What a stored fragment does to the books, in the state where its slot is open. */
  lemma StoreEndsOnce(c: Config, st: State, f: FragmentHeader, data: bytes, process: Process)
    requires c.Valid() && Sized(c, st) && ReassemblyInv(c, st.reassembly) && st.reassembly.Exists(f.sequence)
    requires |data| <= c.LongestDatagram() && DecodeFragment(data, c.maxFragments, c.fragmentSize) == Some(f)
    ensures var filled := FilledSlot(c, st, f, data);
            OneEndEach(st, StoreInSlot(c, st, f, data, process), TooLongIn(c, data, filled),
                       if filled.Some? then 1 else 0)
  {
    hide Complete;
    var d := st.reassembly.entries[st.reassembly.Index(f.sequence)];
    SlotAt(c, st, f.sequence);
    AcceptedFragmentIsLegal(data, c.maxFragments, c.fragmentSize);
    if f.total == d.numFragmentsTotal && !d.fragmentReceived[f.id] {
      ShapeAfterStore(d, f, FragmentPayload(data, f), c.maxFragments, c.fragmentSize);
      StoredData(d, f, FragmentPayload(data, f), c.maxFragments, c.fragmentSize);
      if d.numFragmentsReceived + 1 == f.total {
        var full := Received(d, f, c.fragmentSize, data[FRAGMENT_HEADER_BYTES..]);
        CompleteSlotReads(full, f.sequence, c.fragmentSize);
        CompleteEndsOnce(c, st, f.sequence, full, process);
      }
    }
  }

  /** The whole datagrams in one step: the one that came in, unless it is a fragment, or the one put together. */
  function Wholes(c: Config, data: bytes, filled: Option<FragmentReassemblyData>): nat
    requires |data| > 0
  {
    if |data| > c.LongestDatagram() || data[0] % 2 == 0 || filled.Some? then 1 else 0
  }

  lemma ReceiveEndsOnce(c: Config, st: State, data: bytes, process: Process)
    requires c.Valid() && Sized(c, st) && ReassemblyInv(c, st.reassembly) && |data| > 0
    ensures var filled := Filled(c, st, data);
            OneEndEach(st, Receive(c, st, data, process), TooLongIn(c, data, filled), Wholes(c, data, filled))
  {
    hide StoreInSlot, OpenSlot, FilledSlot, ReassemblyInv, DecodeFragment, ReceiveRegular, Reassembled;
    if |data| > c.LongestDatagram() {
    } else if data[0] % 2 == 0 {
      WholeEndsOnce(c, st, data, process);
    } else if DecodeFragment(data, c.maxFragments, c.fragmentSize).Some? {
      var f := DecodeFragment(data, c.maxFragments, c.fragmentSize).value;
      if !st.received.Exists(f.sequence) && OpenSlot(c, st, f).Some? {
        AcceptedFragmentIsLegal(data, c.maxFragments, c.fragmentSize);
        OpenSlotInv(c, st, f);
        OpenCountsNothing(c, st, f);
        StoreEndsOnce(c, OpenSlot(c, st, f).value, f, data, process);
      }
    }
  }

  lemma OpenCountsNothing(c: Config, st: State, f: FragmentHeader)
    requires Sized(c, st) && OpenSlot(c, st, f).Some?
    ensures OpenSlot(c, st, f).value.counters == st.counters
  {
  }

  // ---------------------------------------------------------------- fragments in one step

  /** The nested receive leaves every slot alone. */
  lemma NestedLeavesSlots(c: Config, st: State, mark: int, s: u16, d: FragmentReassemblyData, process: Process)
    requires c.Valid() && InStep(c, st, mark) && st.reassembly.Exists(s)
    requires SlotShape(d, s, c.fragmentSize) && d.numFragmentsReceived == d.numFragmentsTotal
    ensures d.packetHeaderBytes <= MAX_PACKET_HEADER_BYTES && MAX_PACKET_HEADER_BYTES + d.packetBytes <= |d.packetData|
    ensures ReceiveWhole(c, st, Reassembled(d), process).state.reassembly == st.reassembly
  {
    hide SlotShape, ReceiveWhole, HoldsHeader;
    var ack, ackBits := CompleteHasHeader(d, s, c.fragmentSize);
    ReassembledReads(d, s, ack, ackBits);
    CallOfWhole(c, st, Reassembled(d), process);
    WholeFrame(c, st, Reassembled(d), process);
    LiveIsNotNewer(st.reassembly, mark, s);
  }

  /** Fragments taken in, against what is held before and after. */
  ghost predicate Kept(st: State, st': State, completed: nat)
    requires st.reassembly.WellFormed() && st'.reassembly.WellFormed()
  {
    st'.counters.fragmentsReceived + Held(st.reassembly)
    == st.counters.fragmentsReceived + Held(st'.reassembly) + completed
  }

  lemma CompleteFrees(c: Config, st: State, mark: int, s: u16, d: FragmentReassemblyData, process: Process)
    requires c.Valid() && InStep(c, st, mark) && st.reassembly.Exists(s)
    requires SlotShape(d, s, c.fragmentSize) && d.numFragmentsReceived == d.numFragmentsTotal
    ensures d.packetHeaderBytes <= MAX_PACKET_HEADER_BYTES && MAX_PACKET_HEADER_BYTES + d.packetBytes <= |d.packetData|
    ensures var b' := Complete(c, st, s, d, process).state.reassembly;
            b'.WellFormed() && Held(b') == Held(st.reassembly) - HeldAt(st.reassembly, st.reassembly.Index(s))
  {
    hide SlotShape, Held, ReceiveWhole, Reassembled;
    CompleteSlotReads(d, s, c.fragmentSize);
    var st0 := SetEntry(st, s, d.(packetData := []));
    SetEntryInStep(c, st, mark, s, d.(packetData := []));
    NestedLeavesSlots(c, st0, mark, s, d, process);
    HeldAfterChange(st.reassembly, st0.reassembly.Remove(s), st.reassembly.Index(s));
  }

  lemma StoreKept(c: Config, st: State, mark: int, f: FragmentHeader, data: bytes, process: Process)
    requires c.Valid() && InStep(c, st, mark) && ReassemblyInv(c, st.reassembly) && st.reassembly.Exists(f.sequence)
    requires DecodeFragment(data, c.maxFragments, c.fragmentSize) == Some(f)
    ensures var r := StoreInSlot(c, st, f, data, process);
            r.state.reassembly.WellFormed()
            && Kept(st, r.state, if FilledSlot(c, st, f, data).Some? then f.total else 0)
  {
    hide Held, Complete, Inv, Fits;
    var b := st.reassembly;
    var i := b.Index(f.sequence);
    var d := b.entries[i];
    SlotAt(c, st, f.sequence);
    AcceptedFragmentIsLegal(data, c.maxFragments, c.fragmentSize);
    if f.total == d.numFragmentsTotal && !d.fragmentReceived[f.id] {
      ShapeAfterStore(d, f, FragmentPayload(data, f), c.maxFragments, c.fragmentSize);
      StoredData(d, f, FragmentPayload(data, f), c.maxFragments, c.fragmentSize);
      var d' := Received(d, f, c.fragmentSize, data[FRAGMENT_HEADER_BYTES..]);
      if d'.numFragmentsReceived == d'.numFragmentsTotal {
        CompleteFrees(c, st, mark, f.sequence, d', process);
        CompleteEndsOnce(c, st, f.sequence, d', process);
      } else {
        HeldAfterChange(b, b.(entries := b.entries[i := d']), i);
      }
    }
  }

  /** Opening a slot takes nothing in; what it pushes out of the window is what lies below the new bottom. */
  lemma OpenLoses(c: Config, st: State, mark: int, f: FragmentHeader)
    requires c.Valid() && InStep(c, st, mark) && OpenSlot(c, st, f).Some?
    ensures var open := OpenSlot(c, st, f).value;
            var mark' := MarkAfter(mark, st.received, open.received);
            open.reassembly.WellFormed()
            && Held(st.reassembly)
               == Held(open.reassembly) + FallsOut(st.reassembly, mark, mark' - c.fragmentReassemblyBufferSize)
  {
    var s := f.sequence;
    var b := st.reassembly;
    var open := OpenSlot(c, st, f).value;
    if b.Exists(s) {
      MarkAfterIs(mark, st.received, st.received, mark);
      NothingFallsOut(b, mark, mark - b.Size());
    } else {
      AdvanceLoses(b, mark, s);
      OpensEmptySlot(b, mark, s);
      AdvancedMarkIsMarkAfter(st.received, mark, s);
      HeldAfterChange(b.Advance(s), open.reassembly, b.Index(s));
    }
  }

  /** The slot that `insert_advance_first` takes is empty, unless it is the packet's own. */
  lemma OpensEmptySlot(b: Slots, mark: int, s: u16)
    requires Inv(b, mark) && Fits(b.Size()) && !b.Exists(s) && (b.Newer(s) || !b.Stale(s))
    ensures b.Advance(s).slots[b.Index(s)] == None
  {
    AdvanceRefines(b, mark, s);
    StaleExactly(b, mark, s);
    NewerExactly(b, mark, s);
    var mark' := AdvancedMark(b.sequence, mark, s);
    var b' := b.Advance(s);
    var i := b.Index(s);
    if b'.slots[i].Some? {
      var m := NumberInSlot(b', mark', i);
      SameIndexSameNumber(b.Size(), m, Unwrap(mark, s));
    }
  }

  function Total(filled: Option<FragmentReassemblyData>): nat {
    if filled.Some? then filled.value.numFragmentsTotal else 0
  }

  /** The fragments taken in by one step, against those held, delivered and lost in it. */
  ghost predicate Conserved(c: Config, st: State, mark: int, st': State, completed: nat)
    requires st.reassembly.WellFormed() && st'.reassembly.WellFormed()
  {
    st'.counters.fragmentsReceived + Held(st.reassembly)
    == st.counters.fragmentsReceived + Held(st'.reassembly) + completed
       + FallsOut(st.reassembly, mark, MarkAfter(mark, st.received, st'.received) - c.fragmentReassemblyBufferSize)
  }

  lemma WholeConserves(c: Config, st: State, mark: int, data: bytes, process: Process)
    requires c.Valid() && InStep(c, st, mark)
    ensures var r := ReceiveWhole(c, st, data, process);
            r.state.reassembly.WellFormed() && Conserved(c, st, mark, r.state, 0)
  {
    hide ReceiveWhole, Held, FallsOut, MarkAfter, Inv, Fits, Buffer.Insert, Buffer.Advance;
    WholeEndsOnce(c, st, data, process);
    WholeFrame(c, st, data, process);
    var r := ReceiveWhole(c, st, data, process);
    var b := st.reassembly;
    if r.calls != [] && r.calls[0].accepted {
      var s := r.calls[0].sequence;
      AdvanceLoses(b, mark, s);
      SameSequence(st, mark);
      MarkAfterInsert(st.received, mark, s, ReceivedEntry(c, st, |data|));
    } else {
      MarkStays(st.received, mark);
      NothingFallsOut(b, mark, mark - b.Size());
    }
  }

  lemma UnchangedConserves(c: Config, st: State, mark: int, st': State)
    requires InStep(c, st, mark)
    requires st'.received == st.received && st'.reassembly == st.reassembly
    requires st'.counters.fragmentsReceived == st.counters.fragmentsReceived
    ensures Conserved(c, st, mark, st', 0)
  {
    MarkAfterIs(mark, st.received, st.received, mark);
    NothingFallsOut(st.reassembly, mark, mark - st.reassembly.Size());
  }

  lemma FragmentConserves(c: Config, st: State, mark: int, data: bytes, process: Process)
    requires c.Valid() && InStep(c, st, mark) && ReassemblyInv(c, st.reassembly)
    requires 0 < |data| <= c.LongestDatagram() && data[0] % 2 == 1
    ensures var r := ReceiveFragment(c, st, data, process);
            r.state.reassembly.WellFormed() && Conserved(c, st, mark, r.state, Total(Filled(c, st, data)))
  {
    hide StoreInSlot, OpenSlot, FilledSlot, Held, FallsOut, Moved, Inv, Fits, MarkAfter, DecodeFragment, LegalFragment,
         EncodeFragment, ReassemblyInv, Buffer.Exists;
    var decoded := DecodeFragment(data, c.maxFragments, c.fragmentSize);
    if decoded.None? || st.received.Exists(decoded.value.sequence) || OpenSlot(c, st, decoded.value).None? {
      UnchangedConserves(c, st, mark, ReceiveFragment(c, st, data, process).state);
    } else {
      var f := decoded.value;
      var open := OpenSlot(c, st, f).value;
      var mark' := MarkAfter(mark, st.received, open.received);
      AcceptedFragmentIsLegal(data, c.maxFragments, c.fragmentSize);
      OpenSlotInv(c, st, f);
      OpenSlotMoves(c, st, mark, f);
      OpenCountsNothing(c, st, f);
      OpenLoses(c, st, mark, f);
      StoreMoves(c, open, mark', f, data, process);
      StoreKept(c, open, mark', f, data, process);
      FilledHasTotal(c, open, f, data);
      var r := StoreInSlot(c, open, f, data, process);
      TwoMoves(st.received, mark, open.received, mark', r.state.received, NumberOf(mark', AcceptedOf(r)));
    }
  }

  lemma FilledHasTotal(c: Config, st: State, f: FragmentHeader, data: bytes)
    requires c.Valid() && Sized(c, st) && ReassemblyInv(c, st.reassembly) && st.reassembly.Exists(f.sequence)
    requires DecodeFragment(data, c.maxFragments, c.fragmentSize) == Some(f)
    ensures Total(FilledSlot(c, st, f, data)) == if FilledSlot(c, st, f, data).Some? then f.total else 0
  {
    var d := st.reassembly.entries[st.reassembly.Index(f.sequence)];
    SlotAt(c, st, f.sequence);
    AcceptedFragmentIsLegal(data, c.maxFragments, c.fragmentSize);
    if f.total == d.numFragmentsTotal && !d.fragmentReceived[f.id] {
      StoredData(d, f, FragmentPayload(data, f), c.maxFragments, c.fragmentSize);
    }
  }

  lemma ReceiveConserves(c: Config, st: State, mark: int, data: bytes, process: Process)
    requires c.Valid() && InStep(c, st, mark) && ReassemblyInv(c, st.reassembly) && |data| > 0
    ensures var r := Receive(c, st, data, process);
            r.state.reassembly.WellFormed() && Conserved(c, st, mark, r.state, Total(Filled(c, st, data)))
  {
    hide ReceiveFragment, ReceiveRegular, Conserved, InStep;
    if |data| > c.LongestDatagram() {
      UnchangedConserves(c, st, mark, TooLarge(st));
    } else if data[0] % 2 == 0 {
      WholeConserves(c, st, mark, data, process);
    } else {
      FragmentConserves(c, st, mark, data, process);
    }
  }

  // ---------------------------------------------------------------- runs

  /** The ledger since creation or the last reset, and the packet number of the window's top. */
  datatype Books = Books(mark: int, ledger: Ledger)

  function Record(c: Config, st: State, b: Books, e: Event): Books
    requires c.Valid() && StateInv(c, st) && Legal(e)
  {
    match e
    case ReceivePacket(data, process) =>
      var r := Receive(c, st, data, process);
      var filled := Filled(c, st, data);
      var mark := MarkAfter(b.mark, st.received, r.state.received);
      Books(mark, Ledger(b.ledger.calls + |r.calls|,
                         b.ledger.tooLong + TooLongIn(c, data, filled),
                         b.ledger.completed + Total(filled),
                         b.ledger.fallen + FallsOut(st.reassembly, b.mark, mark - c.fragmentReassemblyBufferSize)))
    case Reset => Books(0, NOTHING)
    case _ => b
  }

  function BooksAfter(c: Config, time: real, events: seq<Event>): Books
    requires c.Valid() && CanSend(c) && LegalRun(events)
    decreases |events|
  {
    if events == [] then Books(0, NOTHING)
    else
      var front, last := events[..|events| - 1], events[|events| - 1];
      Record(c, StateAfter(c, time, front), BooksAfter(c, time, front), last)
  }

  lemma StepPackets(c: Config, st: State, b: Books, e: Event)
    requires c.Valid() && CanSend(c) && StateInv(c, st) && Legal(e) && PacketsBalance(st, b.ledger)
    ensures PacketsBalance(Step(c, st, e), Record(c, st, b, e).ledger)
  {
    hide Receive, Filled, ReassemblyInv;
    if e.ReceivePacket? {
      ReceiveEndsOnce(c, st, e.data, e.process);
    }
  }

  /** In every run, since the last reset: every whole datagram, whether it came in whole or was put together from
      fragments, was refused by the length gate or counted as received; and it was invalid, stale, a duplicate, too
      large or handed to the process closure, exactly one of these. */
  lemma {:induction false} PacketsAddUp(c: Config, time: real, events: seq<Event>)
    requires c.Valid() && CanSend(c) && LegalRun(events)
    ensures PacketsBalance(StateAfter(c, time, events), BooksAfter(c, time, events).ledger)
    decreases |events|
  {
    hide PacketsBalance, Record, Step;
    if events == [] {
      StartsBalanced(c, time);
    } else {
      var front, last := events[..|events| - 1], events[|events| - 1];
      PacketsAddUp(c, time, front);
      StepPackets(c, StateAfter(c, time, front), BooksAfter(c, time, front), last);
    }
  }

  lemma StartsBalanced(c: Config, time: real)
    requires c.Valid()
    ensures PacketsBalance(Init(c, time), NOTHING) && FragmentsBalance(Init(c, time), NOTHING)
    ensures Fits(c.receivedPacketsBufferSize) && Fits(c.fragmentReassemblyBufferSize) ==> InStep(c, Init(c, time), 0)
  {
    SumOfNone(HeldCounts(Init(c, time).reassembly));
    if Fits(c.receivedPacketsBufferSize) && Fits(c.fragmentReassemblyBufferSize) {
      EmptyRefines(c.receivedPacketsBufferSize, NO_RECEIVED);
      EmptyRefines(c.fragmentReassemblyBufferSize, NoReassembly());
    }
  }

  lemma StepFragments(c: Config, st: State, b: Books, e: Event)
    requires c.Valid() && CanSend(c) && StateInv(c, st) && Legal(e)
    requires InStep(c, st, b.mark) && FragmentsBalance(st, b.ledger)
    ensures var st', b' := Step(c, st, e), Record(c, st, b, e);
            InStep(c, st', b'.mark) && FragmentsBalance(st', b'.ledger)
  {
    hide ReassemblyInv, Held, FallsOut, Inv, Fits, Filled, Receive, Send, Moved, MarkAfter, Init;
    match e
    case ReceivePacket(data, process) =>
      ReceiveMoves(c, st, b.mark, data, process);
      ReceiveConserves(c, st, b.mark, data, process);
    case Reset => StartsBalanced(c, st.time);
    case SendPacket(packet) => SendLeavesReceiveSide(c, st, packet);
    case _ =>
  }

  lemma SendLeavesReceiveSide(c: Config, st: State, packet: bytes)
    requires c.Valid() && CanSend(c) && StateInv(c, st) && |packet| > 0
    ensures !st.sent.Stale(st.sequence)
    ensures var st' := Send(c, st, packet).state;
            && Sized(c, st') && st'.received == st.received && st'.reassembly == st.reassembly
            && st'.counters.fragmentsReceived == st.counters.fragmentsReceived
  {
    hide ReassemblyInv, Datagrams;
    SendKeepsInv(c, st, packet);
  }

  /** In every run, since the last reset: each fragment that was counted is held by a packet under reassembly, or
      belonged to a packet that was completed, or to one whose number fell out of the window. */
  lemma {:induction false} FragmentsAddUp(c: Config, time: real, events: seq<Event>)
    requires c.Valid() && CanSend(c) && LegalRun(events)
    requires Fits(c.receivedPacketsBufferSize) && Fits(c.fragmentReassemblyBufferSize)
    ensures var st, b := StateAfter(c, time, events), BooksAfter(c, time, events);
            InStep(c, st, b.mark) && FragmentsBalance(st, b.ledger)
    decreases |events|
  {
    hide FragmentsBalance, Record, Step, InStep;
    if events == [] {
      StartsBalanced(c, time);
    } else {
      var front, last := events[..|events| - 1], events[|events| - 1];
      FragmentsAddUp(c, time, front);
      StepFragments(c, StateAfter(c, time, front), BooksAfter(c, time, front), last);
    }
  }
}
