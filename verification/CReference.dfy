/** The C reference of the same machine (wire-compat/c/reliable.c): empty slots are marked by a sentinel, and what an
    evicted slot held stays behind. Only the memory of reassembled packets is released. */
module CReference {
  import opened Wrappers
  import opened Sequence
  import opened Modular
  import opened Codec
  import opened CodecLaws
  import opened Buffers
  import opened Reassembly
  import opened Protocol
  import opened CCodec

  const EMPTY: u32 := 0xFFFF_FFFF
  const INT_MAX := 0x7FFF_FFFF

  // ---------------------------------------------------------------- sequence buffer

  datatype CBuffer<T> = CBuffer(sequence: u16, slots: seq<u32>, data: seq<T>) {

    ghost predicate WellFormed() {
      |slots| == |data| > 0
    }

    function Size(): nat {
      |slots|
    }

    function Index(s: u16): nat
      requires WellFormed()
      ensures Index(s) < Size()
    {
      s % Size()
    }

    predicate Newer(s: u16) {
      GreaterThan(Wrap(s + 1), sequence)
    }

    predicate Stale(s: u16) {
      LessThan(s, Wrap(sequence - Size()))
    }

    predicate Exists(s: u16)
      requires WellFormed()
    {
      slots[Index(s)] == s
    }

    function Find(s: u16): Option<T>
      requires WellFormed()
    {
      if Exists(s) then Some(data[Index(s)]) else None
    }

    function ClearedSlots(start: u16, finish: u16): (r: seq<u32>)
      requires WellFormed()
      ensures |r| == Size()
    {
      seq(Size(), i requires 0 <= i < Size() => if InRange(start, finish, Size(), i) then EMPTY else slots[i])
    }

    /** `advance`: the entries that fall out stay in `data`. */
    function Advance(s: u16): (b: CBuffer<T>)
      requires WellFormed()
      ensures b.WellFormed() && b.Size() == Size()
    {
      if Newer(s) then CBuffer(Wrap(s + 1), ClearedSlots(sequence, s), data) else this
    }

    /** The data after `cleanup` has been called on the entries of a range. */
    function CleanedData(start: u16, finish: u16, cleanup: T -> T): (r: seq<T>)
      requires WellFormed()
      ensures |r| == Size()
    {
      seq(Size(), i requires 0 <= i < Size() => if InRange(start, finish, Size(), i) then cleanup(data[i]) else data[i])
    }

    function AdvanceCleaning(s: u16, cleanup: T -> T): (b: CBuffer<T>)
      requires WellFormed()
      ensures b.WellFormed() && b.Size() == Size()
    {
      if Newer(s) then CBuffer(Wrap(s + 1), ClearedSlots(sequence, s), CleanedData(sequence, s, cleanup)) else this
    }

    /** Occupies the slot of `s`; `cleanup` is called on the entry it takes over, if there is one. */
    function TakeOver(s: u16, cleanup: T -> T): (b: CBuffer<T>)
      requires WellFormed()
      ensures b.WellFormed() && b.Size() == Size()
    {
      this.(slots := slots[Index(s) := s],
            data := if slots[Index(s)] == EMPTY then data else data[Index(s) := cleanup(data[Index(s)])])
    }

    /** Moves the window up to `s` and occupies its slot. */
    function ReserveCleaning(s: u16, cleanup: T -> T): (r: Option<CBuffer<T>>)
      requires WellFormed()
      ensures r.Some? ==> r.value.WellFormed() && r.value.Size() == Size()
    {
      if !Newer(s) && Stale(s) then None else Some(AdvanceCleaning(s, cleanup).TakeOver(s, cleanup))
    }

    /** The same, and then the caller stores `v` through the returned pointer. */
    function InsertCleaning(s: u16, v: T, cleanup: T -> T): (r: Option<CBuffer<T>>)
      requires WellFormed()
      ensures r.Some? ==> r.value.WellFormed() && r.value.Size() == Size()
    {
      match ReserveCleaning(s, cleanup)
      case None => None
      case Some(b) => Some(b.(data := b.data[b.Index(s) := v]))
    }

    function RemoveCleaning(s: u16, cleanup: T -> T): (b: CBuffer<T>)
      requires WellFormed()
      ensures b.WellFormed() && b.Size() == Size()
    {
      if slots[Index(s)] == EMPTY then this
      else this.(slots := slots[Index(s) := EMPTY], data := data[Index(s) := cleanup(data[Index(s)])])
    }

    /** Occupies the slot of `s`; the caller stores `v` through the returned pointer. */
    function Put(s: u16, v: T): (b: CBuffer<T>)
      requires WellFormed()
      ensures b.WellFormed() && b.Size() == Size()
    {
      this.(slots := slots[Index(s) := s], data := data[Index(s) := v])
    }

    function Insert(s: u16, v: T): (r: Option<CBuffer<T>>)
      requires WellFormed()
      ensures r.Some? ==> r.value.WellFormed() && r.value.Size() == Size()
    {
      if Stale(s) then None else Some(Advance(s).Put(s, v))
    }

    function Ack(): u16 {
      Wrap(sequence - 1)
    }

    function AckFlags(): (flags: seq<bool>)
      requires WellFormed()
      ensures |flags| == 32
    {
      seq(32, i requires 0 <= i < 32 => Exists(Wrap(Ack() - i)))
    }

    function AckBits(): u32
      requires WellFormed()
    {
      FromBitsBelow(AckFlags());
      FromBits(AckFlags())
    }
  }

  lemma CFlagAt<T>(b: CBuffer<T>, i: nat, s: u16)
    requires b.WellFormed() && i < 32 && s == Wrap(b.Ack() - i)
    ensures b.AckFlags()[i] <==> b.Exists(s)
  {
  }

  /** The buffer as the reference keeps it: two blocks of memory, one for the sentinels and one for the entries. */
  class CSequenceBuffer<T> {
    var sequence: u16
    const entrySequence: array<u32>
    const entryData: array<T>

    ghost predicate Valid()
      reads this
    {
      entrySequence.Length == entryData.Length > 0 && entrySequence as object != entryData as object
    }

    ghost function State(): CBuffer<T>
      reads this, entrySequence, entryData
    {
      CBuffer(sequence, entrySequence[..], entryData[..])
    }

    constructor (numEntries: nat, zero: T)
      requires numEntries > 0
      ensures Valid() && fresh(entrySequence) && fresh(entryData)
      ensures State() == CEmpty(numEntries, zero)
    {
      sequence := 0;
      entrySequence := new u32[numEntries](_ => EMPTY);
      entryData := new T[numEntries](_ => zero);
    }

    /** Marks every slot empty and leaves the entries behind. */
    method Reset()
      requires Valid()
      modifies this, entrySequence
      ensures Valid()
      ensures State() == CResetBuffer(old(State()))
    {
      sequence := 0;
      for i := 0 to entrySequence.Length
        invariant sequence == 0
        invariant forall j :: 0 <= j < i ==> entrySequence[j] == EMPTY
      {
        entrySequence[i] := EMPTY;
      }
      assert State() == CResetBuffer(old(State()));
    }

    /** Without a clean-up the entries stay behind; with one, it is called on every entry of the range. */
    method RemoveEntries(startSequence: u16, finishSequence: u16, cleanup: Option<T -> T>)
      requires Valid()
      modifies entrySequence, entryData
      ensures Valid()
      ensures State() == old(State()).(slots := old(State()).ClearedSlots(startSequence, finishSequence),
                                       data := old(State()).CleanedData(startSequence, finishSequence,
                                                                        OrNothing(cleanup)))
    {
      var numEntries := entryData.Length;
      var start: nat := startSequence;
      var finish: nat := finishSequence;
      if finish < start {
        finish := finish + 65536;
      }
      if finish - start < numEntries {
        ghost var steps := seq(numEntries, i => (i - start) % numEntries);
        for s := start to finish + 1
          invariant forall i :: 0 <= i < numEntries ==>
            entrySequence[i] == if steps[i] < s - start then EMPTY else old(entrySequence[i])
          invariant forall i :: 0 <= i < numEntries ==>
            entryData[i] == if steps[i] < s - start then OrNothing(cleanup)(old(entryData[i])) else old(entryData[i])
        {
          var index := s % numEntries;
          forall i | 0 <= i < numEntries
            ensures steps[i] == s - start <==> i == index
          {
            StepsFrom(start, numEntries, i, s - start);
          }
          CallCleanup(index, cleanup);
          entrySequence[index] := EMPTY;
        }
        forall i | 0 <= i < numEntries
          ensures InRange(startSequence, finishSequence, numEntries, i) <==> steps[i] < finish + 1 - start
        {
        }
      } else {
        for index := 0 to numEntries
          invariant forall i :: 0 <= i < numEntries ==>
            entrySequence[i] == if i < index then EMPTY else old(entrySequence[i])
          invariant forall i :: 0 <= i < numEntries ==>
            entryData[i] == if i < index then OrNothing(cleanup)(old(entryData[i])) else old(entryData[i])
        {
          CallCleanup(index, cleanup);
          entrySequence[index] := EMPTY;
        }
      }
      assert entrySequence[..] == old(State()).ClearedSlots(startSequence, finishSequence);
      assert entryData[..] == old(State()).CleanedData(startSequence, finishSequence, OrNothing(cleanup));
    }

    method CallCleanup(index: nat, cleanup: Option<T -> T>)
      requires Valid() && index < entryData.Length
      modifies entryData
      ensures entryData[..] == old(entryData[..])[index := OrNothing(cleanup)(old(entryData[index]))]
    {
      if cleanup.Some? {
        entryData[index] := cleanup.value(entryData[index]);
      }
    }

    /** Returns where the entry of `s` is, or None if the sequence is stale; the caller fills it in. */
    method Insert(s: u16) returns (index: Option<nat>)
      requires Valid()
      modifies this, entrySequence, entryData
      ensures Valid()
      ensures index == if old(State()).Stale(s) then None else Some(old(State()).Index(s))
      ensures index.None? ==> State() == old(State())
      ensures index.Some? ==>
                forall v :: Some(State().(data := State().data[index.value := v])) == old(State()).Insert(s, v)
    {
      if LessThan(s, Wrap(sequence - entryData.Length)) {
        return None;
      }
      Advance(s);
      var i := s % entryData.Length;
      entrySequence[i] := s;
      index := Some(i);
    }

    method Advance(s: u16)
      requires Valid()
      modifies this, entrySequence, entryData
      ensures Valid()
      ensures State() == old(State()).Advance(s)
    {
      if GreaterThan(Wrap(s + 1), sequence) {
        RemoveEntries(sequence, s, None);
        assert entryData[..] == old(entryData[..]);
        sequence := Wrap(s + 1);
      }
    }

    method AdvanceWithCleanup(s: u16, cleanup: T -> T)
      requires Valid()
      modifies this, entrySequence, entryData
      ensures Valid()
      ensures State() == old(State()).AdvanceCleaning(s, cleanup)
    {
      if GreaterThan(Wrap(s + 1), sequence) {
        RemoveEntries(sequence, s, Some(cleanup));
        sequence := Wrap(s + 1);
      }
    }

    /** Advances first, so that a number far ahead is never stale. The entry of the returned slot is what was there
        after the advance: cleaned up, if the slot was still occupied. */
    method InsertWithCleanup(s: u16, cleanup: T -> T) returns (index: Option<nat>)
      requires Valid()
      modifies this, entrySequence, entryData
      ensures Valid()
      ensures index.None? <==> old(State()).Stale(s) && !old(State()).Newer(s)
      ensures index.None? ==> State() == old(State())
      ensures index.Some? ==>
                && index.value == old(State()).Index(s)
                && Some(State()) == old(State()).ReserveCleaning(s, cleanup)
                && var advanced := old(State()).AdvanceCleaning(s, cleanup);
                   State().data[index.value] == if advanced.slots[index.value] == EMPTY then advanced.data[index.value]
                                                else cleanup(advanced.data[index.value])
    {
      if GreaterThan(Wrap(s + 1), sequence) {
        AdvanceWithCleanup(s, cleanup);
      } else if LessThan(s, Wrap(sequence - entryData.Length)) {
        return None;
      }
      ghost var mid := State();
      assert mid == old(State()).AdvanceCleaning(s, cleanup);
      var i := s % entryData.Length;
      if entrySequence[i] != EMPTY {
        entryData[i] := cleanup(entryData[i]);
      }
      entrySequence[i] := s;
      index := Some(i);
      assert entrySequence[..] == mid.slots[i := s];
      assert entryData[..] == mid.TakeOver(s, cleanup).data;
    }

    method RemoveWithCleanup(s: u16, cleanup: T -> T)
      requires Valid()
      modifies entrySequence, entryData
      ensures Valid()
      ensures State() == old(State()).RemoveCleaning(s, cleanup)
    {
      var index := s % entryData.Length;
      if entrySequence[index] != EMPTY {
        entrySequence[index] := EMPTY;
        entryData[index] := cleanup(entryData[index]);
      }
      assert State() == old(State()).RemoveCleaning(s, cleanup);
    }

    predicate Exists(s: u16)
      requires Valid()
      reads this, entrySequence, entryData
      ensures Exists(s) <==> State().Exists(s)
    {
      entrySequence[s % entryData.Length] == s
    }

    method GenerateAckBits() returns (ack: u16, ackBits: u32)
      requires Valid()
      ensures ack == State().Ack() && ackBits == State().AckBits()
    {
      ack := Wrap(sequence - 1);
      ackBits := 0;
      var mask: u32 := 1;
      ghost var flags := State().AckFlags();
      for i := 0 to 32
        invariant i < 32 ==> mask == Power2(i)
        invariant ackBits == FromBits(flags[..i])
      {
        NextAckBit(flags, i);
        CFlagAt(State(), i, Wrap(ack - i));
        if Exists(Wrap(ack - i)) {
          ackBits := ackBits + mask;
        }
        mask := ShiftLeft(mask);
      }
      assert flags[..32] == flags;
    }
  }

  /** A null clean-up does nothing. */
  function OrNothing<T>(cleanup: Option<T -> T>): T -> T {
    match cleanup
    case None => x => x
    case Some(f) => f
  }

  // ---------------------------------------------------------------- reassembly data

  /** `packetData` is None where the pointer is null. */
  datatype CReassembly = CReassembly(
    numFragmentsReceived: nat,
    numFragmentsTotal: nat,
    packetData: Option<bytes>,
    packetBytes: nat,
    packetHeaderBytes: nat,
    fragmentReceived: seq<bool>)

  type CReassemblyBuffer = CBuffer<CReassembly>

  function Cleanup(d: CReassembly): CReassembly {
    d.(packetData := None)
  }

  function AdvanceWithCleanup(b: CReassemblyBuffer, s: u16): (b': CReassemblyBuffer)
    requires b.WellFormed()
    ensures b'.WellFormed() && b'.Size() == b.Size()
  {
    b.AdvanceCleaning(s, Cleanup)
  }

  /** The slot that the caller is about to fill in. */
  function ReserveWithCleanup(b: CReassemblyBuffer, s: u16): (r: Option<CReassemblyBuffer>)
    requires b.WellFormed()
    ensures r.Some? ==> r.value.WellFormed() && r.value.Size() == b.Size()
  {
    b.ReserveCleaning(s, Cleanup)
  }

  function InsertWithCleanup(b: CReassemblyBuffer, s: u16, v: CReassembly): (r: Option<CReassemblyBuffer>)
    requires b.WellFormed()
    ensures r.Some? ==> r.value.WellFormed() && r.value.Size() == b.Size()
  {
    b.InsertCleaning(s, v, Cleanup)
  }

  function RemoveWithCleanup(b: CReassemblyBuffer, s: u16): (b': CReassemblyBuffer)
    requires b.WellFormed()
    ensures b'.WellFormed() && b'.Size() == b.Size()
  {
    b.RemoveCleaning(s, Cleanup)
  }

  const PADDING := 8

  function CFresh(total: nat, fragmentSize: nat): CReassembly {
    CReassembly(0, total, Some(Zeros(MAX_PACKET_HEADER_BYTES + total * fragmentSize + PADDING)), 0, 0, NoneReceived())
  }

  /** `reliable_store_fragment_data`, given that the slot has its memory. */
  function CStorePayload(d: CReassembly, id: nat, fragmentSize: nat, payload: bytes): CReassembly
    requires d.numFragmentsTotal > 0 && d.packetData.Some?
    requires |d.packetData.value| == MAX_PACKET_HEADER_BYTES + d.numFragmentsTotal * fragmentSize + PADDING
  {
    var packetBytes := (d.numFragmentsTotal - 1) * fragmentSize + |payload|;
    if id == d.numFragmentsTotal - 1 && packetBytes > INT_MAX then d
    else
      var d1 := if id == d.numFragmentsTotal - 1 then d.(packetBytes := packetBytes) else d;
      var offset := MAX_PACKET_HEADER_BYTES + id * fragmentSize;
      if offset + |payload| > MAX_PACKET_HEADER_BYTES + d.numFragmentsTotal * fragmentSize then d1
      else d1.(packetData := Some(Overwrite(d1.packetData.value, offset, payload)))
  }

  function CStoreHeader(d: CReassembly, header: bytes): CReassembly
    requires d.packetData.Some? && |header| <= MAX_PACKET_HEADER_BYTES <= |d.packetData.value|
  {
    d.(packetHeaderBytes := |header|,
       packetData := Some(Overwrite(d.packetData.value, MAX_PACKET_HEADER_BYTES - |header|, header)))
  }

  function CStoreFragment(d: CReassembly, f: FragmentHeader, fragmentSize: nat, data: bytes): CReassembly
    requires d.numFragmentsTotal > 0 && d.packetData.Some?
    requires |d.packetData.value| == MAX_PACKET_HEADER_BYTES + d.numFragmentsTotal * fragmentSize + PADDING
    requires 0 <= d.numFragmentsTotal * fragmentSize
    requires |CEmbedded(f)| <= |data|
  {
    if f.id == 0 then
      CStorePayload(CStoreHeader(d, CEmbedded(f)), f.id, fragmentSize, data[|CEmbedded(f)|..])
    else CStorePayload(d, f.id, fragmentSize, data)
  }

  /** `reliable_store_fragment_data`, in the memory that the slot points to. */
  method StoreFragmentData(packetData: array<byte>, d: CReassembly, f: FragmentHeader, fragmentSize: nat, data: bytes)
    returns (r: CReassembly)
    requires d.numFragmentsTotal > 0 && d.packetData == Some(packetData[..]) && 0 <= d.numFragmentsTotal * fragmentSize
    requires packetData.Length == MAX_PACKET_HEADER_BYTES + d.numFragmentsTotal * fragmentSize + PADDING
    requires |CEmbedded(f)| <= |data|
    modifies packetData
    ensures r == CStoreFragment(d, f, fragmentSize, data) && r.packetData == Some(packetData[..])
  {
    hide CWriteHeader;
    r := d;
    var fragmentData := data;
    if f.id == 0 {
      var packetHeader := new byte[MAX_PACKET_HEADER_BYTES](_ => 0);
      var packetHeaderBytes := WriteHeader(packetHeader, f.sequence, f.ack, f.ackBits);
      CopyInto(packetData, MAX_PACKET_HEADER_BYTES - packetHeaderBytes, packetHeader[..packetHeaderBytes]);
      r := r.(packetHeaderBytes := packetHeaderBytes, packetData := Some(packetData[..]));
      fragmentData := data[packetHeaderBytes..];
    }
    if f.id == r.numFragmentsTotal - 1 {
      var packetBytes := (r.numFragmentsTotal - 1) * fragmentSize + |fragmentData|;
      if packetBytes > INT_MAX {
        return;
      }
      r := r.(packetBytes := packetBytes);
    }
    var offset := MAX_PACKET_HEADER_BYTES + f.id * fragmentSize;
    var endOffset := offset + |fragmentData|;
    var maxSize := MAX_PACKET_HEADER_BYTES + r.numFragmentsTotal * fragmentSize;
    if endOffset > maxSize {
      return;
    }
    CopyInto(packetData, offset, fragmentData);
    r := r.(packetData := Some(packetData[..]));
  }

  // ---------------------------------------------------------------- configuration

  const C_MAX_PACKET_HEADER_BYTES := 9
  const C_FRAGMENT_HEADER_BYTES := 5

  /** The checks of `reliable_config_valid`, for packet lengths up to `limit`. */
  predicate CConfigChecks(c: Config, limit: int) {
    && c.maxPacketSize > 0 && c.fragmentAbove > 0 && c.fragmentSize > 0 && 0 < c.maxFragments <= 256
    && c.ackBufferSize > 0 && c.sentPacketsBufferSize > 0 && c.receivedPacketsBufferSize > 0
    && c.fragmentReassemblyBufferSize > 0
    && c.fragmentAbove <= c.maxPacketSize
    && c.maxFragments > (c.maxPacketSize - 1) / c.fragmentSize
    && c.maxFragments * c.fragmentSize <= limit - C_MAX_PACKET_HEADER_BYTES
    && c.maxPacketSize <= limit - C_MAX_PACKET_HEADER_BYTES - C_FRAGMENT_HEADER_BYTES
    && c.packetHeaderSize + c.maxPacketSize <= limit
  }

  /** The reference keeps lengths in an `int`. */
  predicate CConfigValid(c: Config) {
    CConfigChecks(c, INT_MAX)
  }

  /** Exactly how the two sets of checks differ: the port makes those of the reference with lengths of 32 bits, and
      bounds the length of a received packet as well. So a configuration that the port accepts is accepted by the
      reference if and only if three lengths fit an `int`; and the port accepts every configuration the reference
      accepts, but for that bound, which those lengths imply, and more. */
  lemma PortAcceptsMore(c: Config)
    ensures c.Valid() <==>
            CConfigChecks(c, 0xFFFF_FFFF) && c.packetHeaderSize + c.maxPacketSize + 14 <= 0xFFFF_FFFF
    ensures c.Valid() ==>
              (CConfigValid(c) <==>
               && c.maxFragments * c.fragmentSize + 9 <= 0x7FFF_FFFF && c.maxPacketSize + 14 <= 0x7FFF_FFFF
               && c.packetHeaderSize + c.maxPacketSize <= 0x7FFF_FFFF)
    ensures CConfigValid(c) ==> c.Valid()
    ensures exists c: Config :: c.Valid() && !CConfigValid(c)
  {
    var wide := Config(1, 1, 1, 1, 1, 1, 1, 1, 0x7FFF_FFFF);
    assert wide.Valid() && !CConfigValid(wide);
  }

  // ---------------------------------------------------------------- endpoint

  datatype CState = CState(
    time: real,
    sequence: u16,
    acks: seq<u16>,
    sent: CBuffer<SentPacketData>,
    received: CBuffer<ReceivedPacketData>,
    reassembly: CReassemblyBuffer,
    counters: Counters)

  ghost predicate CSized(st: CState) {
    st.sent.WellFormed() && st.received.WellFormed() && st.reassembly.WellFormed()
  }

  /** One call of the transmit function for each datagram, in order. */
  function CTransmissions(sequence: u16, datagrams: seq<bytes>): seq<Transmission> {
    if datagrams == [] then []
    else
      var last := |datagrams| - 1;
      CTransmissions(sequence, datagrams[..last]) + [Transmission(sequence, datagrams[last])]
  }

  /** The longest datagram that the reference lets in. */
  function CLongestDatagram(c: Config): nat {
    c.maxPacketSize + C_MAX_PACKET_HEADER_BYTES + C_FRAGMENT_HEADER_BYTES
  }

  datatype CSending = CSending(state: CState, sent: seq<Transmission>)

  function CSend(c: Config, st: CState, packet: bytes): CSending
    requires c.Valid() && CSized(st) && |packet| > 0 && !st.sent.Stale(st.sequence)
  {
    var counters := st.counters;
    if |packet| > c.maxPacketSize then
      CSending(st.(counters := counters.(packetsTooLargeToSend := counters.packetsTooLargeToSend + 1)), [])
    else
      var entry := SentPacketData(st.time, false, c.packetHeaderSize + |packet|);
      var datagrams := CDatagrams(c, st.sequence, st.received.Ack(), st.received.AckBits(), packet);
      CSending(st.(sequence := Wrap(st.sequence + 1),
                   sent := st.sent.Insert(st.sequence, entry).value,
                   counters := counters.(packetsSent := counters.packetsSent + 1,
                                         fragmentsSent := counters.fragmentsSent
                                           + if |packet| <= c.fragmentAbove then 0 else |datagrams|)),
               CTransmissions(st.sequence, datagrams))
  }

  datatype CReceiving = CReceiving(state: CState, calls: seq<Call>)

  function CAckOne(c: Config, st: CState, s: u16): (st': CState)
    requires CSized(st)
    ensures CSized(st')
  {
    match st.sent.Find(s)
    case None => st
    case Some(d) =>
      if d.acked || |st.acks| >= c.ackBufferSize then st
      else st.(acks := st.acks + [s],
               sent := st.sent.(data := st.sent.data[st.sent.Index(s) := d.(acked := true)]),
               counters := st.counters.(packetsAcked := st.counters.packetsAcked + 1))
  }

  function CProcessAcks(c: Config, st: CState, ack: u16, ackBits: u32, i: nat): (st': CState)
    requires CSized(st) && i <= 32
    ensures CSized(st')
    decreases 32 - i, ackBits
  {
    if i == 32 then st
    else CProcessAcks(c, if ackBits % 2 == 1 then CAckOne(c, st, Wrap(ack - i)) else st, ack, ackBits / 2, i + 1)
  }

  function CReceivePayload(c: Config, st: CState, h: PacketHeader, payload: bytes, size: nat, process: Process)
    : (r: CReceiving)
    requires c.Valid() && CSized(st) && size <= CLongestDatagram(c)
    ensures CSized(r.state)
  {
    var counters := st.counters;
    if |payload| > c.maxPacketSize then
      CReceiving(st.(counters := counters.(packetsTooLargeToReceive := counters.packetsTooLargeToReceive + 1)), [])
    else if st.received.Stale(h.sequence) then
      CReceiving(st.(counters := counters.(packetsStale := counters.packetsStale + 1)), [])
    else if st.received.Exists(h.sequence) then
      CReceiving(st.(counters := counters.(packetsDuplicate := counters.packetsDuplicate + 1)), [])
    else if process(h.sequence, payload) then
      var entry := ReceivedPacketData(st.time, c.packetHeaderSize + size);
      CReceiving(CProcessAcks(c, st.(received := st.received.Insert(h.sequence, entry).value,
                                     reassembly := AdvanceWithCleanup(st.reassembly, h.sequence)),
                              h.ack, h.ackBits, 0),
                 [Call(h.sequence, payload, true)])
    else
      CReceiving(st, [Call(h.sequence, payload, false)])
  }

  function CReceiveRegular(c: Config, st: CState, data: bytes, process: Process): (r: CReceiving)
    requires c.Valid() && CSized(st) && |data| <= CLongestDatagram(c)
    ensures CSized(r.state)
  {
    var counters := st.counters.(packetsReceived := st.counters.packetsReceived + 1);
    CReadHeaderIs(data);
    match CReadHeader(data)
    case None => CReceiving(st.(counters := counters.(packetsInvalid := counters.packetsInvalid + 1)), [])
    case Some(h) => CReceivePayload(c, st.(counters := counters), h, data[h.size..], |data|, process)
  }

  function CTooLarge(st: CState): CState {
    st.(counters := st.counters.(packetsTooLargeToReceive := st.counters.packetsTooLargeToReceive + 1))
  }

  function CReceiveWhole(c: Config, st: CState, data: bytes, process: Process): (r: CReceiving)
    requires c.Valid() && CSized(st)
    ensures CSized(r.state)
  {
    if |data| > CLongestDatagram(c) then CReceiving(CTooLarge(st), []) else CReceiveRegular(c, st, data, process)
  }

  function COpenSlot(c: Config, st: CState, f: FragmentHeader): Option<CState>
    requires CSized(st)
  {
    if st.reassembly.Exists(f.sequence) then Some(st)
    else
      match InsertWithCleanup(st.reassembly, f.sequence, CFresh(f.total, c.fragmentSize))
      case None => None
      case Some(r) => Some(st.(reassembly := r, received := st.received.Advance(f.sequence)))
  }

  function CSetEntry(st: CState, s: u16, d: CReassembly): CState
    requires st.reassembly.WellFormed()
  {
    st.(reassembly := st.reassembly.(data := st.reassembly.data[st.reassembly.Index(s) := d]))
  }

  /** Whether the accesses made through a slot stay inside the memory it points to. */
  ghost predicate Backed(d: CReassembly, fragmentSize: nat) {
    && 0 < d.numFragmentsTotal <= 256 == |d.fragmentReceived|
    && d.packetData.Some?
    && 0 <= d.numFragmentsTotal * fragmentSize
    && |d.packetData.value| == MAX_PACKET_HEADER_BYTES + d.numFragmentsTotal * fragmentSize + PADDING
    && d.packetHeaderBytes <= MAX_PACKET_HEADER_BYTES && d.packetBytes <= d.numFragmentsTotal * fragmentSize
  }

  /** The slot of `s`, if it is live, has its memory. */
  ghost predicate BackedAt(c: Config, st: CState, s: u16)
    requires CSized(st)
  {
    st.reassembly.Exists(s) ==> Backed(st.reassembly.data[st.reassembly.Index(s)], c.fragmentSize)
  }

  function CReassembled(d: CReassembly): bytes
    requires d.packetData.Some? && d.packetHeaderBytes <= MAX_PACKET_HEADER_BYTES
    requires MAX_PACKET_HEADER_BYTES + d.packetBytes <= |d.packetData.value|
  {
    d.packetData.value[MAX_PACKET_HEADER_BYTES - d.packetHeaderBytes..MAX_PACKET_HEADER_BYTES + d.packetBytes]
  }

  /** The data stays in the slot while it is received as a regular packet; then the slot is freed. */
  function CComplete(c: Config, st: CState, s: u16, d: CReassembly, process: Process): CReceiving
    requires c.Valid() && CSized(st) && Backed(d, c.fragmentSize)
  {
    var r := CReceiveWhole(c, CSetEntry(st, s, d), CReassembled(d), process);
    r.(state := r.state.(reassembly := RemoveWithCleanup(r.state.reassembly, s)))
  }

  function CCountFragment(st: CState): CState {
    st.(counters := st.counters.(fragmentsReceived := st.counters.fragmentsReceived + 1))
  }

  function CFinishSlot(c: Config, st: CState, s: u16, d: CReassembly, process: Process): CReceiving
    requires c.Valid() && CSized(st) && Backed(d, c.fragmentSize)
  {
    if d.numFragmentsReceived == d.numFragmentsTotal then
      var r := CComplete(c, st, s, d, process);
      r.(state := CCountFragment(r.state))
    else CReceiving(CCountFragment(CSetEntry(st, s, d)), [])
  }

  /** A slot with one more fragment counted and stored. */
  function CReceived(d: CReassembly, f: FragmentHeader, fragmentSize: nat, data: bytes): CReassembly
    requires Backed(d, fragmentSize) && f.id < 256 && |CEmbedded(f)| <= |data|
  {
    CStoreFragment(d.(numFragmentsReceived := d.numFragmentsReceived + 1,
                      fragmentReceived := d.fragmentReceived[f.id := true]),
                   f, fragmentSize, data)
  }

  lemma BackedAfterStore(d: CReassembly, f: FragmentHeader, payload: bytes, maxFragments: nat, fragmentSize: nat)
    requires Backed(d, fragmentSize) && LegalFragment(f, payload, maxFragments, fragmentSize)
             && f.total == d.numFragmentsTotal
    ensures Backed(CReceived(d, f, fragmentSize, CEmbedded(f) + payload), fragmentSize)
  {
    NextMultiple(d.numFragmentsTotal - 1, fragmentSize);
    assert (CEmbedded(f) + payload)[|CEmbedded(f)|..] == payload;
  }

  function CInvalidFragment(st: CState): CState {
    st.(counters := st.counters.(fragmentsInvalid := st.counters.fragmentsInvalid + 1))
  }

  function CStoreInSlot(c: Config, st: CState, f: FragmentHeader, data: bytes, process: Process): CReceiving
    requires c.Valid() && CSized(st) && st.reassembly.Exists(f.sequence) && BackedAt(c, st, f.sequence)
    requires CReadFragment(data, c.maxFragments, c.fragmentSize) == Some(f)
  {
    var d := st.reassembly.data[st.reassembly.Index(f.sequence)];
    CReadFragmentIs(data, c.maxFragments, c.fragmentSize);
    CEmbeddedIs(f);
    AcceptedFragmentIsLegal(data, c.maxFragments, c.fragmentSize);
    if f.total != d.numFragmentsTotal then CReceiving(CInvalidFragment(st), [])
    else if d.fragmentReceived[f.id] then CReceiving(st, [])
    else
      BackedAfterStore(d, f, FragmentPayload(data, f), c.maxFragments, c.fragmentSize);
      CFinishSlot(c, st, f.sequence, CReceived(d, f, c.fragmentSize, data[FRAGMENT_HEADER_BYTES..]), process)
  }

  lemma OpenIsBacked(c: Config, st: CState, f: FragmentHeader)
    requires CSized(st) && BackedAt(c, st, f.sequence) && 0 < f.total <= 256
    ensures var r := COpenSlot(c, st, f);
            r.Some? ==> CSized(r.value) && r.value.reassembly.Exists(f.sequence) && BackedAt(c, r.value, f.sequence)
  {
    Monotone(0, f.total, c.fragmentSize);
  }

  function CReceiveFragment(c: Config, st: CState, data: bytes, process: Process): CReceiving
    requires c.Valid() && CSized(st) && forall s: u16 :: BackedAt(c, st, s)
  {
    match CReadFragment(data, c.maxFragments, c.fragmentSize)
    case None => CReceiving(CInvalidFragment(st), [])
    case Some(f) =>
      if st.received.Exists(f.sequence) then CReceiving(st, [])
      else
        match COpenSlot(c, st, f)
        case None => CReceiving(CInvalidFragment(st), [])
        case Some(open) =>
          CReadFragmentIs(data, c.maxFragments, c.fragmentSize);
          AcceptedFragmentIsLegal(data, c.maxFragments, c.fragmentSize);
          OpenIsBacked(c, st, f);
          CStoreInSlot(c, open, f, data, process)
  }

  /** `reliable_endpoint_receive_packet`. */
  function CReceive(c: Config, st: CState, data: bytes, process: Process): CReceiving
    requires c.Valid() && CSized(st) && |data| > 0 && forall s: u16 :: BackedAt(c, st, s)
  {
    if |data| > CLongestDatagram(c) then CReceiving(CTooLarge(st), [])
    else if data[0] % 2 == 0 then CReceiveRegular(c, st, data, process)
    else CReceiveFragment(c, st, data, process)
  }

  // ---------------------------------------------------------------- creation and reset

  function CEmpty<T>(size: nat, zero: T): (b: CBuffer<T>)
    requires size > 0
    ensures b.WellFormed()
  {
    CBuffer(0, seq(size, _ => EMPTY), seq(size, _ => zero))
  }

  /** `reliable_sequence_buffer_reset`: marks every slot empty and leaves the data behind. */
  function CResetBuffer<T>(b: CBuffer<T>): (b': CBuffer<T>)
    requires b.WellFormed()
    ensures b'.WellFormed()
  {
    CBuffer(0, seq(b.Size(), _ => EMPTY), b.data)
  }

  /** Frees the memory of every live slot. */
  function FreeLive(b: CReassemblyBuffer): (b': CReassemblyBuffer)
    requires b.WellFormed()
    ensures b'.WellFormed() && b'.Size() == b.Size()
  {
    b.(data := seq(b.Size(), i requires 0 <= i < b.Size() =>
                   if b.slots[i] != EMPTY then Cleanup(b.data[i]) else b.data[i]))
  }

  const C_NO_COUNTS := Counters(0, 0, 0, 0, 0, 0, 0, 0, 0, 0, 0)

  function CInit(c: Config, time: real): CState
    requires c.Valid()
  {
    CState(time, 0, [], CEmpty(c.sentPacketsBufferSize, NO_SENT), CEmpty(c.receivedPacketsBufferSize, NO_RECEIVED),
           CEmpty(c.fragmentReassemblyBufferSize, CReassembly(0, 0, None, 0, 0, NoneReceived())), C_NO_COUNTS)
  }

  function CReset(st: CState): CState
    requires CSized(st)
  {
    CState(st.time, 0, [], CResetBuffer(st.sent), CResetBuffer(st.received), CResetBuffer(FreeLive(st.reassembly)),
           C_NO_COUNTS)
  }
}
