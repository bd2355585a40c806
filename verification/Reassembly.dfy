/** Splitting a packet into fragments and putting it together again (src/endpoint.rs, `send_packet`,
    `FragmentReassemblyData`). */
module Reassembly {
  import opened Sequence
  import opened Codec

  // ---------------------------------------------------------------- splitting

  /** `div_ceil`. */
  function NumFragments(size: nat, fragmentSize: nat): nat
    requires fragmentSize > 0
  {
    (size + fragmentSize - 1) / fragmentSize
  }

  function Min(a: int, b: int): int {
    if a < b then a else b
  }

  /** The part of a packet that travels in fragment `i`. */
  function Chunk(packet: bytes, i: nat, fragmentSize: nat): bytes
    requires i * fragmentSize <= |packet|
  {
    packet[i * fragmentSize..Min(i * fragmentSize + fragmentSize, |packet|)]
  }

  /** How the number of fragments relates to the size: all of them but the last are full. */
  lemma FragmentBounds(size: nat, fragmentSize: nat)
    requires size > 0 && fragmentSize > 0
    ensures var n := NumFragments(size, fragmentSize);
            n >= 1 && (n - 1) * fragmentSize < size <= n * fragmentSize
  {
    var n := NumFragments(size, fragmentSize);
    var a := size + fragmentSize - 1;
    assert a == n * fragmentSize + a % fragmentSize;
    assert (n - 1) * fragmentSize == n * fragmentSize - fragmentSize;
    if n <= 0 {
      Monotone(n, 0, fragmentSize);
    }
  }

  lemma Monotone(a: int, b: int, c: nat)
    requires a <= b
    ensures a * c <= b * c
  {
  }

  lemma NextMultiple(i: int, fragmentSize: int)
    ensures (i + 1) * fragmentSize == i * fragmentSize + fragmentSize
  {
  }

  /** Where fragment `i` of a packet lies, and how long it is. */
  lemma ChunkBounds(size: nat, i: nat, fragmentSize: nat)
    requires size > 0 && fragmentSize > 0 && i < NumFragments(size, fragmentSize)
    ensures 0 <= i * fragmentSize < size
    ensures i < NumFragments(size, fragmentSize) - 1 ==> i * fragmentSize + fragmentSize < size
    ensures i == NumFragments(size, fragmentSize) - 1 ==> size <= i * fragmentSize + fragmentSize
  {
    var n := NumFragments(size, fragmentSize);
    FragmentBounds(size, fragmentSize);
    Monotone(i, n - 1, fragmentSize);
    NextMultiple(i, fragmentSize);
    if i < n - 1 {
      Monotone(i + 1, n - 1, fragmentSize);
    } else {
      NextMultiple(n - 1, fragmentSize);
    }
  }

  lemma ChunkSize(packet: bytes, i: nat, fragmentSize: nat)
    requires |packet| > 0 && fragmentSize > 0 && i < NumFragments(|packet|, fragmentSize)
    ensures 0 <= i * fragmentSize < |packet|
    ensures var c := Chunk(packet, i, fragmentSize);
            && 0 < |c| <= fragmentSize
            && (i < NumFragments(|packet|, fragmentSize) - 1 ==> |c| == fragmentSize)
            && (i == NumFragments(|packet|, fragmentSize) - 1 ==> i * fragmentSize + |c| == |packet|)
  {
    ChunkBounds(|packet|, i, fragmentSize);
  }

  /** The first `n` fragments, laid end to end. */
  function Joined(packet: bytes, n: nat, fragmentSize: nat): bytes
    requires |packet| > 0 && fragmentSize > 0 && n <= NumFragments(|packet|, fragmentSize)
  {
    if n == 0 then [] else
      ChunkBounds(|packet|, n - 1, fragmentSize);
      Joined(packet, n - 1, fragmentSize) + Chunk(packet, n - 1, fragmentSize)
  }

  /** Nothing is lost and nothing is sent twice: the fragments concatenate to the packet. */
  lemma {:induction false} FragmentsConcatenate(packet: bytes, n: nat, fragmentSize: nat)
    requires |packet| > 0 && fragmentSize > 0 && n <= NumFragments(|packet|, fragmentSize)
    ensures 0 <= n * fragmentSize
    ensures Joined(packet, n, fragmentSize) == packet[..Min(n * fragmentSize, |packet|)]
    ensures n == NumFragments(|packet|, fragmentSize) ==> Joined(packet, n, fragmentSize) == packet
  {
    if n > 0 {
      ChunkBounds(|packet|, n - 1, fragmentSize);
      FragmentsConcatenate(packet, n - 1, fragmentSize);
      NextMultiple(n - 1, fragmentSize);
      assert n - 1 + 1 == n;
    }
    FragmentBounds(|packet|, fragmentSize);
  }

  /** Two packets with the same fragments are the same packet. */
  lemma {:induction false} SameChunksSamePacket(p: bytes, q: bytes, n: nat, fragmentSize: nat)
    requires |p| > 0 && |q| > 0 && fragmentSize > 0
    requires n <= NumFragments(|p|, fragmentSize) == NumFragments(|q|, fragmentSize)
    requires forall i: nat :: i < n ==>
               i * fragmentSize <= |p| && i * fragmentSize <= |q|
                 && Chunk(p, i, fragmentSize) == Chunk(q, i, fragmentSize)
    ensures Joined(p, n, fragmentSize) == Joined(q, n, fragmentSize)
    ensures n == NumFragments(|p|, fragmentSize) ==> p == q
  {
    hide Chunk, NumFragments;
    if n > 0 {
      SameChunksSamePacket(p, q, n - 1, fragmentSize);
    }
    if n == NumFragments(|p|, fragmentSize) {
      FragmentsConcatenate(p, n, fragmentSize);
      FragmentsConcatenate(q, n, fragmentSize);
    }
  }

  // ---------------------------------------------------------------- putting together

  datatype FragmentReassemblyData = FragmentReassemblyData(
    numFragmentsReceived: nat,
    numFragmentsTotal: nat,
    packetData: bytes,
    packetBytes: nat,
    packetHeaderBytes: nat,
    fragmentReceived: seq<bool>)

  function NoneReceived(): seq<bool> {
    seq(256, _ => false)
  }

  /** The default entry. */
  function NoReassembly(): FragmentReassemblyData {
    FragmentReassemblyData(0, 0, [], 0, 0, NoneReceived())
  }

  function Zeros(size: nat): bytes {
    seq(size, _ => 0)
  }

  /** A slot as set up by the first fragment of a packet. */
  function FreshReassembly(total: nat, fragmentSize: nat): FragmentReassemblyData {
    NoReassembly().(numFragmentsTotal := total, packetData := Zeros(MAX_PACKET_HEADER_BYTES + total * fragmentSize))
  }

  /** `copy_from_slice` into a part of a buffer. */
  function Overwrite(s: bytes, at: nat, v: bytes): (r: bytes)
    requires at + |v| <= |s|
    ensures |r| == |s|
  {
    s[..at] + v + s[at + |v|..]
  }

  /** Fragment 0: the packet header goes right in front of the payload area. */
  function StoreHeader(d: FragmentReassemblyData, header: bytes): FragmentReassemblyData
    requires |header| <= MAX_PACKET_HEADER_BYTES <= |d.packetData|
  {
    d.(packetHeaderBytes := |header|, packetData := Overwrite(d.packetData, MAX_PACKET_HEADER_BYTES - |header|, header))
  }

  function StorePayload(d: FragmentReassemblyData, id: nat, fragmentSize: nat, payload: bytes): FragmentReassemblyData
    requires d.numFragmentsTotal > 0
  {
    var d1 := if id == d.numFragmentsTotal - 1
              then d.(packetBytes := (d.numFragmentsTotal - 1) * fragmentSize + |payload|) else d;
    var offset := MAX_PACKET_HEADER_BYTES + id * fragmentSize;
    if offset + |payload| > |d1.packetData| then d1
    else d1.(packetData := Overwrite(d1.packetData, offset, payload))
  }

  /** `store_fragment`: `data` is what follows the fragment header. */
  function StoreFragment(d: FragmentReassemblyData, f: FragmentHeader, fragmentSize: nat, data: bytes)
    : FragmentReassemblyData
    requires d.numFragmentsTotal > 0
    requires f.id == 0 ==>
               |EncodeHeader(f.sequence, f.ack, f.ackBits)| <= |data| && MAX_PACKET_HEADER_BYTES <= |d.packetData|
  {
    if f.id == 0 then
      var header := EncodeHeader(f.sequence, f.ack, f.ackBits);
      StorePayload(StoreHeader(d, header), f.id, fragmentSize, data[|header|..])
    else StorePayload(d, f.id, fragmentSize, data)
  }

  /** `copy_from_slice` into a part of an array. */
  method CopyInto(buffer: array<byte>, at: nat, data: bytes)
    requires at + |data| <= buffer.Length
    modifies buffer
    ensures buffer[..] == Overwrite(old(buffer[..]), at, data)
  {
    for i := 0 to |data|
      invariant forall j :: 0 <= j < buffer.Length ==> buffer[j] == if at <= j < at + i then data[j - at]
                else old(buffer[j])
    {
      buffer[at + i] := data[i];
    }
  }

  /** The record of a packet under reassembly, updated in place. */
  class ReassemblyRecord {
    var numFragmentsReceived: nat
    var numFragmentsTotal: nat
    const packetData: array<byte>
    var packetBytes: nat
    var packetHeaderBytes: nat
    var fragmentReceived: seq<bool>

    ghost function State(): FragmentReassemblyData
      reads this, packetData
    {
      FragmentReassemblyData(numFragmentsReceived, numFragmentsTotal, packetData[..], packetBytes, packetHeaderBytes,
                             fragmentReceived)
    }

    constructor (d: FragmentReassemblyData)
      ensures State() == d && fresh(packetData)
    {
      numFragmentsReceived := d.numFragmentsReceived;
      numFragmentsTotal := d.numFragmentsTotal;
      packetBytes := d.packetBytes;
      packetHeaderBytes := d.packetHeaderBytes;
      fragmentReceived := d.fragmentReceived;
      packetData := new byte[|d.packetData|](i requires 0 <= i < |d.packetData| => d.packetData[i]);
    }

    /** The record as a value. */
    method Value() returns (d: FragmentReassemblyData)
      ensures d == State()
    {
      d := FragmentReassemblyData(numFragmentsReceived, numFragmentsTotal, packetData[..], packetBytes,
                                  packetHeaderBytes,
                                  fragmentReceived);
    }

    method CountFragment(id: nat)
      requires id < |fragmentReceived|
      modifies this
      ensures State() == old(State()).(numFragmentsReceived := old(numFragmentsReceived) + 1,
                                       fragmentReceived := old(fragmentReceived)[id := true])
    {
      numFragmentsReceived := numFragmentsReceived + 1;
      fragmentReceived := fragmentReceived[id := true];
    }

    /** Fragment 0: writes the header right in front of the payload area and returns what follows it in the data. */
    method StorePacketHeader(f: FragmentHeader, data: bytes) returns (rest: bytes)
      requires |EncodeHeader(f.sequence, f.ack, f.ackBits)| <= |data| && MAX_PACKET_HEADER_BYTES <= packetData.Length
      modifies this, packetData
      ensures State() == StoreHeader(old(State()), EncodeHeader(f.sequence, f.ack, f.ackBits))
      ensures rest == data[|EncodeHeader(f.sequence, f.ack, f.ackBits)|..]
    {
      hide EncodeHeader;
      var packetHeader := new byte[MAX_PACKET_HEADER_BYTES](_ => 0);
      packetHeaderBytes := WritePacketHeader(packetHeader, f.sequence, f.ack, f.ackBits);
      CopyInto(packetData, MAX_PACKET_HEADER_BYTES - packetHeaderBytes, packetHeader[..packetHeaderBytes]);
      rest := data[packetHeaderBytes..];
    }

    /** `store_fragment`. */
    method Store(f: FragmentHeader, fragmentSize: nat, data: bytes)
      requires numFragmentsTotal > 0
      requires f.id == 0 ==>
                 |EncodeHeader(f.sequence, f.ack, f.ackBits)| <= |data| && MAX_PACKET_HEADER_BYTES <= packetData.Length
      modifies this, packetData
      ensures State() == StoreFragment(old(State()), f, fragmentSize, data)
    {
      hide EncodeHeader;
      var fragmentData := data;
      if f.id == 0 {
        fragmentData := StorePacketHeader(f, fragmentData);
      }
      if f.id == numFragmentsTotal - 1 {
        packetBytes := (numFragmentsTotal - 1) * fragmentSize + |fragmentData|;
      }
      var offset := MAX_PACKET_HEADER_BYTES + f.id * fragmentSize;
      var endOffset := offset + |fragmentData|;
      if endOffset > packetData.Length {
        return;
      }
      CopyInto(packetData, offset, fragmentData);
    }
  }

  // ---------------------------------------------------------------- what a slot holds

  function CountTrue(flags: seq<bool>): (n: nat)
    ensures n <= |flags|
  {
    if flags == [] then 0 else BitValue(flags[0]) + CountTrue(flags[1..])
  }

  lemma {:induction false} CountAfterSet(flags: seq<bool>, i: nat)
    requires i < |flags| && !flags[i]
    ensures CountTrue(flags[i := true]) == CountTrue(flags) + 1
  {
    if i > 0 {
      CountAfterSet(flags[1..], i - 1);
      assert flags[i := true][1..] == flags[1..][i - 1 := true];
    } else {
      assert flags[i := true][1..] == flags[1..];
    }
  }

  /** Flags that are clear from `n` on and number `n` are all set below `n`. */
  lemma {:induction false} FullCount(flags: seq<bool>, n: nat)
    requires n <= |flags| && (forall i :: n <= i < |flags| ==> !flags[i])
    ensures CountTrue(flags) <= n
    ensures CountTrue(flags) == n ==> forall i :: 0 <= i < n ==> flags[i]
  {
    if flags != [] {
      if n == 0 {
        FullCount(flags[1..], 0);
      } else {
        FullCount(flags[1..], n - 1);
        if CountTrue(flags) == n {
          forall i | 0 <= i < n
            ensures flags[i]
          {
            assert i > 0 ==> flags[i] == flags[1..][i - 1];
          }
        }
      }
    }
  }

  lemma {:induction false} AllCount(flags: seq<bool>, n: nat)
    requires n <= |flags| && (forall i :: 0 <= i < |flags| ==> (flags[i] <==> i < n))
    ensures CountTrue(flags) == n
  {
    if n == 0 {
      FullCount(flags, 0);
    } else {
      AllCount(flags[1..], n - 1);
    }
  }

  lemma {:induction false} NoneCount(flags: seq<bool>)
    requires forall i :: 0 <= i < |flags| ==> !flags[i]
    ensures CountTrue(flags) == 0
  {
    FullCount(flags, 0);
  }

  /** The packet header stored with fragment 0. */
  ghost predicate HoldsHeader(d: FragmentReassemblyData, sequence: u16, ack: u16, ackBits: u32) {
    var header := EncodeHeader(sequence, ack, ackBits);
    && d.packetHeaderBytes == |header|
    && MAX_PACKET_HEADER_BYTES <= |d.packetData|
    && d.packetData[MAX_PACKET_HEADER_BYTES - |header|..MAX_PACKET_HEADER_BYTES] == header
  }

  /** A slot between two calls. */
  ghost predicate SlotInv(d: FragmentReassemblyData, sequence: u16, maxFragments: nat, fragmentSize: nat) {
    && 0 < d.numFragmentsTotal <= maxFragments && d.numFragmentsTotal <= 256
    && SlotShape(d, sequence, fragmentSize)
    && d.numFragmentsReceived < d.numFragmentsTotal
  }

  ghost predicate SlotShape(d: FragmentReassemblyData, sequence: u16, fragmentSize: nat) {
    var total := d.numFragmentsTotal;
    && 0 < total <= |d.fragmentReceived| == 256
    && |d.packetData| == MAX_PACKET_HEADER_BYTES + total * fragmentSize
    && (forall i :: total <= i < 256 ==> !d.fragmentReceived[i])
    && d.numFragmentsReceived == CountTrue(d.fragmentReceived)
    && (d.fragmentReceived[0] ==> exists ack, ackBits :: HoldsHeader(d, sequence, ack, ackBits))
    && (d.fragmentReceived[total - 1] ==> (total - 1) * fragmentSize <= d.packetBytes <= total * fragmentSize)
  }

  /** The slot holds fragment `i` of this packet, at the place of fragment `i`. */
  ghost predicate HoldsChunk(d: FragmentReassemblyData, i: nat, packet: bytes, fragmentSize: nat) {
    && 0 < fragmentSize && 0 < |packet| && NumFragments(|packet|, fragmentSize) == d.numFragmentsTotal
    && i < d.numFragmentsTotal && i < |d.fragmentReceived| && d.fragmentReceived[i]
    && |d.packetData| == MAX_PACKET_HEADER_BYTES + d.numFragmentsTotal * fragmentSize
    && ChunkAt(d.packetData, i, packet, fragmentSize)
    && (i == d.numFragmentsTotal - 1 ==> d.packetBytes == |packet|)
  }

  ghost predicate ChunkAt(data: bytes, i: nat, packet: bytes, fragmentSize: nat) {
    && i * fragmentSize <= |packet|
    && var c := Chunk(packet, i, fragmentSize);
       var offset := MAX_PACKET_HEADER_BYTES + i * fragmentSize;
       offset + |c| <= |data| && data[offset..offset + |c|] == c
  }

  lemma FreshSlot(sequence: u16, total: nat, maxFragments: nat, fragmentSize: nat)
    requires 0 < total <= maxFragments && total <= 256 && fragmentSize > 0
    ensures SlotInv(FreshReassembly(total, fragmentSize), sequence, maxFragments, fragmentSize)
  {
    hide HoldsHeader, CountTrue;
    NoneCount(NoneReceived());
  }

  /** A slot with one more fragment counted and stored. */
  function Received(d: FragmentReassemblyData, f: FragmentHeader, fragmentSize: nat,
                    data: bytes): FragmentReassemblyData
    requires d.numFragmentsTotal > 0 && f.id < |d.fragmentReceived|
    requires f.id == 0 ==>
               |EncodeHeader(f.sequence, f.ack, f.ackBits)| <= |data| && MAX_PACKET_HEADER_BYTES <= |d.packetData|
  {
    StoreFragment(d.(numFragmentsReceived := d.numFragmentsReceived + 1,
                     fragmentReceived := d.fragmentReceived[f.id := true]),
                  f, fragmentSize, data)
  }

  /** Counts and stores a fragment in the record of its packet. The record is built from the entry and written back to
      it by the caller. */
  method UpdateRecord(d: FragmentReassemblyData, f: FragmentHeader, fragmentSize: nat, data: bytes)
    returns (r: FragmentReassemblyData)
    requires d.numFragmentsTotal > 0 && f.id < |d.fragmentReceived|
    requires f.id == 0 ==>
               |EncodeHeader(f.sequence, f.ack, f.ackBits)| <= |data| && MAX_PACKET_HEADER_BYTES <= |d.packetData|
    ensures r == Received(d, f, fragmentSize, data)
  {
    hide EncodeHeader, StoreFragment;
    var record := new ReassemblyRecord(d);
    record.CountFragment(f.id);
    record.Store(f, fragmentSize, data);
    r := record.Value();
  }

  /** A legal fragment that the slot still lacks. */
  ghost predicate Fitting(d: FragmentReassemblyData, f: FragmentHeader, payload: bytes, maxFragments: nat,
                          fragmentSize: nat) {
    && SlotInv(d, f.sequence, maxFragments, fragmentSize)
    && fragmentSize > 0 && LegalFragment(f, payload, maxFragments, fragmentSize)
    && f.total == d.numFragmentsTotal && !d.fragmentReceived[f.id]
  }

  /** The slot with a fitting fragment counted and stored. */
  function Gained(d: FragmentReassemblyData, f: FragmentHeader, payload: bytes, maxFragments: nat, fragmentSize: nat)
    : FragmentReassemblyData
    requires Fitting(d, f, payload, maxFragments, fragmentSize)
  {
    FittingIsStorable(d, f, payload, maxFragments, fragmentSize);
    Received(d, f, fragmentSize, EmbeddedHeader(f) + payload)
  }

  lemma FittingIsStorable(d: FragmentReassemblyData, f: FragmentHeader, payload: bytes, maxFragments: nat,
                          fragmentSize: nat)
    requires Fitting(d, f, payload, maxFragments, fragmentSize)
    ensures d.numFragmentsTotal > 0 && f.id < |d.fragmentReceived|
    ensures f.id == 0 ==> |EncodeHeader(f.sequence, f.ack, f.ackBits)| <= |EmbeddedHeader(f) + payload|
    ensures MAX_PACKET_HEADER_BYTES <= |d.packetData|
  {
    hide EncodeHeader;
    Monotone(0, d.numFragmentsTotal, fragmentSize);
  }

  lemma PayloadFits(d: FragmentReassemblyData, f: FragmentHeader, payload: bytes, maxFragments: nat, fragmentSize: nat)
    requires Fitting(d, f, payload, maxFragments, fragmentSize)
    ensures 0 <= f.id * fragmentSize
    ensures MAX_PACKET_HEADER_BYTES + f.id * fragmentSize + |payload| <= |d.packetData|
  {
    Monotone(f.id + 1, f.total, fragmentSize);
    NextMultiple(f.id, fragmentSize);
    Monotone(0, f.id, fragmentSize);
  }

  // ---------------------------------------------------------------- storing keeps and adds

  lemma OverwriteElsewhere(s: bytes, at: nat, v: bytes, from: nat, to: nat)
    requires at + |v| <= |s| && from <= to <= |s| && (to <= at || at + |v| <= from)
    ensures Overwrite(s, at, v)[from..to] == s[from..to]
  {
  }

  lemma OverwriteThere(s: bytes, at: nat, v: bytes)
    requires at + |v| <= |s|
    ensures Overwrite(s, at, v)[at..at + |v|] == v
  {
  }

  /** What storing a fitting fragment does: it never meets the "would write past" branch, and it changes the
      header area for fragment 0 only and the payload area at its own place only. */
  lemma StoredData(d: FragmentReassemblyData, f: FragmentHeader, payload: bytes, maxFragments: nat, fragmentSize: nat)
    requires Fitting(d, f, payload, maxFragments, fragmentSize)
    ensures var offset := MAX_PACKET_HEADER_BYTES + f.id * fragmentSize;
            var d' := Received(d, f, fragmentSize, EmbeddedHeader(f) + payload);
            && MAX_PACKET_HEADER_BYTES <= offset && offset + |payload| <= |d.packetData| == |d'.packetData|
            && d'.packetData == Overwrite(
                 if f.id == 0 then StoreHeader(d, EmbeddedHeader(f)).packetData else d.packetData, offset, payload)
            && d'.packetHeaderBytes == (if f.id == 0 then |EmbeddedHeader(f)| else d.packetHeaderBytes)
            && d'.packetBytes == (if f.id == f.total - 1 then f.id * fragmentSize + |payload| else d.packetBytes)
            && d'.numFragmentsReceived == d.numFragmentsReceived + 1 && d'.numFragmentsTotal == d.numFragmentsTotal
            && d'.fragmentReceived == d.fragmentReceived[f.id := true]
  {
    hide EncodeHeader, Overwrite, HoldsHeader, CountTrue;
    PayloadFits(d, f, payload, maxFragments, fragmentSize);
    var data := EmbeddedHeader(f) + payload;
    assert data[|EmbeddedHeader(f)|..] == payload;
  }

  lemma HeaderAfterStore(d: FragmentReassemblyData, f: FragmentHeader, payload: bytes, maxFragments: nat,
                         fragmentSize: nat,
                         ack: u16, ackBits: u32)
    requires Fitting(d, f, payload, maxFragments, fragmentSize)
    requires if f.id == 0 then ack == f.ack && ackBits == f.ackBits else HoldsHeader(d, f.sequence, ack, ackBits)
    ensures HoldsHeader(Received(d, f, fragmentSize, EmbeddedHeader(f) + payload), f.sequence, ack, ackBits)
  {
    StoredData(d, f, payload, maxFragments, fragmentSize);
    var header := EncodeHeader(f.sequence, ack, ackBits);
    var offset := MAX_PACKET_HEADER_BYTES + f.id * fragmentSize;
    var front := if f.id == 0 then StoreHeader(d, header).packetData else d.packetData;
    if f.id == 0 {
      OverwriteThere(d.packetData, MAX_PACKET_HEADER_BYTES - |header|, header);
    }
    OverwriteElsewhere(front, offset, payload, MAX_PACKET_HEADER_BYTES - |header|, MAX_PACKET_HEADER_BYTES);
  }

  /** The slot invariant survives; only the count may now reach the total. */
  lemma ShapeAfterStore(d: FragmentReassemblyData, f: FragmentHeader, payload: bytes, maxFragments: nat,
                        fragmentSize: nat)
    requires Fitting(d, f, payload, maxFragments, fragmentSize)
    ensures var d' := Received(d, f, fragmentSize, EmbeddedHeader(f) + payload);
            SlotShape(d', f.sequence, fragmentSize) && d'.numFragmentsReceived <= d'.numFragmentsTotal
              == d.numFragmentsTotal
  {
    hide EncodeHeader, Received, HoldsHeader, CountTrue, Overwrite;
    StoredData(d, f, payload, maxFragments, fragmentSize);
    CountAfterSet(d.fragmentReceived, f.id);
    NextMultiple(f.total - 1, fragmentSize);
    if f.id == 0 {
      HeaderAfterStore(d, f, payload, maxFragments, fragmentSize, f.ack, f.ackBits);
    } else if d.fragmentReceived[0] {
      var ack, ackBits :| HoldsHeader(d, f.sequence, ack, ackBits);
      HeaderAfterStore(d, f, payload, maxFragments, fragmentSize, ack, ackBits);
    }
  }

  lemma RangeAfterStore(d: FragmentReassemblyData, f: FragmentHeader, payload: bytes, maxFragments: nat,
                        fragmentSize: nat, from: nat, to: nat)
    requires Fitting(d, f, payload, maxFragments, fragmentSize)
    requires MAX_PACKET_HEADER_BYTES <= from <= to <= |d.packetData|
    requires var at := MAX_PACKET_HEADER_BYTES + f.id * fragmentSize; to <= at || at + |payload| <= from
    ensures var d' := Gained(d, f, payload, maxFragments, fragmentSize);
            |d'.packetData| == |d.packetData| && d'.packetData[from..to] == d.packetData[from..to]
  {
    hide EncodeHeader, Received, HoldsHeader, CountTrue, Overwrite;
    StoredData(d, f, payload, maxFragments, fragmentSize);
    var at := MAX_PACKET_HEADER_BYTES + f.id * fragmentSize;
    var header := EmbeddedHeader(f);
    var front := if f.id == 0 then StoreHeader(d, header).packetData else d.packetData;
    OverwriteElsewhere(front, at, payload, from, to);
    if f.id == 0 {
      OverwriteElsewhere(d.packetData, MAX_PACKET_HEADER_BYTES - |header|, header, from, to);
    }
  }

  lemma PlacesApart(i: nat, j: nat, fragmentSize: nat)
    requires i != j
    ensures i * fragmentSize + fragmentSize <= j * fragmentSize || j * fragmentSize + fragmentSize <= i * fragmentSize
  {
    NextMultiple(i, fragmentSize);
    NextMultiple(j, fragmentSize);
    if i < j {
      Monotone(i + 1, j, fragmentSize);
    } else {
      Monotone(j + 1, i, fragmentSize);
    }
  }

  /** Fragments already stored stay where they are. */
  lemma ChunkKept(d: FragmentReassemblyData, f: FragmentHeader, payload: bytes, maxFragments: nat, fragmentSize: nat,
                  j: nat, packet: bytes)
    requires Fitting(d, f, payload, maxFragments, fragmentSize)
    requires HoldsChunk(d, j, packet, fragmentSize)
    ensures HoldsChunk(Gained(d, f, payload, maxFragments, fragmentSize), j, packet, fragmentSize)
  {
    hide EncodeHeader, Received, HoldsHeader, CountTrue, NumFragments, Chunk;
    ChunkSize(packet, j, fragmentSize);
    PlacesApart(j, f.id, fragmentSize);
    var from := MAX_PACKET_HEADER_BYTES + j * fragmentSize;
    RangeAfterStore(d, f, payload, maxFragments, fragmentSize, from, from + |Chunk(packet, j, fragmentSize)|);
    StoredData(d, f, payload, maxFragments, fragmentSize);
  }

  /** A fragment cut from a packet is held once stored. */
  lemma ChunkStored(d: FragmentReassemblyData, f: FragmentHeader, packet: bytes, maxFragments: nat, fragmentSize: nat)
    requires fragmentSize > 0 && |packet| > 0 && f.id < NumFragments(|packet|, fragmentSize) == f.total
    requires f.id * fragmentSize <= |packet|
    requires Fitting(d, f, Chunk(packet, f.id, fragmentSize), maxFragments, fragmentSize)
    ensures HoldsChunk(Gained(d, f, Chunk(packet, f.id, fragmentSize), maxFragments, fragmentSize),
                       f.id, packet, fragmentSize)
  {
    hide EncodeHeader, Received, HoldsHeader, CountTrue, NumFragments;
    var payload := Chunk(packet, f.id, fragmentSize);
    StoredData(d, f, payload, maxFragments, fragmentSize);
    ChunkSize(packet, f.id, fragmentSize);
    var front := if f.id == 0 then StoreHeader(d, EmbeddedHeader(f)).packetData else d.packetData;
    OverwriteThere(front, MAX_PACKET_HEADER_BYTES + f.id * fragmentSize, payload);
  }

  /** The payload area of a complete slot. */
  function Payload(d: FragmentReassemblyData): bytes
    requires MAX_PACKET_HEADER_BYTES + d.packetBytes <= |d.packetData|
  {
    d.packetData[MAX_PACKET_HEADER_BYTES..MAX_PACKET_HEADER_BYTES + d.packetBytes]
  }

  /** A packet is a splice of a family of packets when each of its fragments is a fragment of one of them. */
  ghost predicate Splice(packet: bytes, parts: seq<bytes>, fragmentSize: nat) {
    && fragmentSize > 0 && |packet| > 0 && |parts| == NumFragments(|packet|, fragmentSize)
    && forall i :: 0 <= i < |parts| ==> SameChunk(packet, parts[i], i, fragmentSize)
  }

  ghost predicate SameChunk(p: bytes, q: bytes, i: nat, fragmentSize: nat) {
    && fragmentSize > 0 && |q| > 0 && NumFragments(|p|, fragmentSize) == NumFragments(|q|, fragmentSize)
    && i * fragmentSize <= |p| && i * fragmentSize <= |q| && Chunk(p, i, fragmentSize) == Chunk(q, i, fragmentSize)
  }

  /** A complete slot delivers, fragment by fragment, what was stored in it. */
  lemma CompleteSlot(d: FragmentReassemblyData, parts: seq<bytes>, fragmentSize: nat)
    requires |parts| == d.numFragmentsTotal > 0
    requires forall i :: 0 <= i < |parts| ==> HoldsChunk(d, i, parts[i], fragmentSize)
    ensures MAX_PACKET_HEADER_BYTES + d.packetBytes <= |d.packetData|
    ensures Splice(Payload(d), parts, fragmentSize)
  {
    var n := |parts|;
    var last := parts[n - 1];
    assert HoldsChunk(d, n - 1, last, fragmentSize);
    FragmentBounds(|last|, fragmentSize);
    forall i | 0 <= i < n
      ensures SameChunk(Payload(d), parts[i], i, fragmentSize)
    {
      assert HoldsChunk(d, i, parts[i], fragmentSize);
      ChunkOfPayload(d, i, parts[i], fragmentSize);
    }
  }

  lemma ChunkOfPayload(d: FragmentReassemblyData, i: nat, packet: bytes, fragmentSize: nat)
    requires HoldsChunk(d, i, packet, fragmentSize)
    requires 0 < d.packetBytes && MAX_PACKET_HEADER_BYTES + d.packetBytes <= |d.packetData|
    requires NumFragments(d.packetBytes, fragmentSize) == d.numFragmentsTotal
    ensures SameChunk(Payload(d), packet, i, fragmentSize)
  {
    hide NumFragments;
    ChunkBounds(d.packetBytes, i, fragmentSize);
    ChunkSize(packet, i, fragmentSize);
    var at := i * fragmentSize;
    var c := Chunk(packet, i, fragmentSize);
    assert Min(at + fragmentSize, d.packetBytes) == at + |c|;
    SliceOfSlice(d.packetData, MAX_PACKET_HEADER_BYTES, MAX_PACKET_HEADER_BYTES + d.packetBytes, at, at + |c|);
  }

  lemma SliceOfSlice(s: bytes, a: nat, b: nat, from: nat, to: nat)
    requires a <= b <= |s| && from <= to <= b - a
    ensures s[a..b][from..to] == s[a + from..a + to]
  {
    var inner, direct := s[a..b][from..to], s[a + from..a + to];
    forall i | 0 <= i < to - from
      ensures inner[i] == direct[i]
    {
      assert inner[i] == s[a..b][from + i];
    }
  }

  /** A splice of one packet with itself is that packet. */
  lemma SpliceOfOne(packet: bytes, parts: seq<bytes>, fragmentSize: nat, whole: bytes)
    requires Splice(packet, parts, fragmentSize) && forall i :: 0 <= i < |parts| ==> parts[i] == whole
    ensures packet == whole
  {
    FragmentBounds(|packet|, fragmentSize);
    assert SameChunk(packet, parts[0], 0, fragmentSize);
    forall i: nat | i < |parts|
      ensures i * fragmentSize <= |packet| && i * fragmentSize <= |whole|
      ensures Chunk(packet, i, fragmentSize) == Chunk(whole, i, fragmentSize)
    {
      assert SameChunk(packet, parts[i], i, fragmentSize);
    }
    SameChunksSamePacket(packet, whole, |parts|, fragmentSize);
  }

  /** A splice is one certain packet exactly when each of its parts agrees with that packet on its fragment. */
  lemma SpliceIsExactly(payload: bytes, parts: seq<bytes>, fragmentSize: nat, packet: bytes)
    requires Splice(payload, parts, fragmentSize) && |packet| > 0
    ensures payload == packet <==> forall i :: 0 <= i < |parts| ==> SameChunk(packet, parts[i], i, fragmentSize)
  {
    hide Chunk, NumFragments;
    FragmentBounds(|payload|, fragmentSize);
    if payload == packet {
      forall i | 0 <= i < |parts|
        ensures SameChunk(packet, parts[i], i, fragmentSize)
      {
        assert SameChunk(payload, parts[i], i, fragmentSize);
      }
    } else if forall i :: 0 <= i < |parts| ==> SameChunk(packet, parts[i], i, fragmentSize) {
      assert SameChunk(packet, parts[0], 0, fragmentSize) && SameChunk(payload, parts[0], 0, fragmentSize);
      forall i: nat | i < |parts|
        ensures i * fragmentSize <= |packet| && i * fragmentSize <= |payload|
        ensures Chunk(packet, i, fragmentSize) == Chunk(payload, i, fragmentSize)
      {
        assert SameChunk(packet, parts[i], i, fragmentSize) && SameChunk(payload, parts[i], i, fragmentSize);
      }
      SameChunksSamePacket(packet, payload, |parts|, fragmentSize);
    }
  }

  /** A fragment completes its slot to exactly its own packet if and only if every other fragment in the slot is that of
      the packet; this is told from the slot before the fragment is stored. */
  lemma CompletesExactly(d: FragmentReassemblyData, f: FragmentHeader, packet: bytes, maxFragments: nat,
                         fragmentSize: nat)
    requires fragmentSize > 0 && |packet| > 0 && f.id < NumFragments(|packet|, fragmentSize) == f.total
    requires f.id * fragmentSize <= |packet|
    requires Fitting(d, f, Chunk(packet, f.id, fragmentSize), maxFragments, fragmentSize)
    requires d.numFragmentsReceived + 1 == f.total
    ensures var d' := Gained(d, f, Chunk(packet, f.id, fragmentSize), maxFragments, fragmentSize);
            && MAX_PACKET_HEADER_BYTES + d'.packetBytes <= |d'.packetData|
            && (Payload(d') == packet <==>
                  forall j: nat :: j < f.total && j != f.id ==> HoldsChunk(d, j, packet, fragmentSize))
  {
    hide NumFragments, Chunk, EncodeHeader, Received, HoldsHeader, HoldsChunk, CountTrue, Payload;
    var payload := Chunk(packet, f.id, fragmentSize);
    var d' := Gained(d, f, payload, maxFragments, fragmentSize);
    ShapeAfterStore(d, f, payload, maxFragments, fragmentSize);
    StoredData(d, f, payload, maxFragments, fragmentSize);
    FullCount(d'.fragmentReceived, f.total);
    if forall j: nat :: j < f.total && j != f.id ==> HoldsChunk(d, j, packet, fragmentSize) {
      var parts := seq(f.total, _ => packet);
      forall j | 0 <= j < f.total
        ensures HoldsChunk(d', j, parts[j], fragmentSize)
      {
        if j == f.id {
          ChunkStored(d, f, packet, maxFragments, fragmentSize);
        } else {
          ChunkKept(d, f, payload, maxFragments, fragmentSize, j, packet);
        }
      }
      CompleteSlot(d', parts, fragmentSize);
      SpliceOfOne(Payload(d'), parts, fragmentSize, packet);
    } else if MAX_PACKET_HEADER_BYTES + d'.packetBytes <= |d'.packetData| && Payload(d') == packet {
      forall j: nat | j < f.total && j != f.id
        ensures HoldsChunk(d, j, packet, fragmentSize)
      {
        ChunkWasThere(d, f, packet, maxFragments, fragmentSize, j);
      }
    }
  }

  lemma ChunkWasThere(d: FragmentReassemblyData, f: FragmentHeader, packet: bytes, maxFragments: nat,
                      fragmentSize: nat, j: nat)
    requires fragmentSize > 0 && |packet| > 0 && f.id < NumFragments(|packet|, fragmentSize) == f.total
    requires f.id * fragmentSize <= |packet| && j < f.total && j != f.id
    requires Fitting(d, f, Chunk(packet, f.id, fragmentSize), maxFragments, fragmentSize)
    requires var d' := Gained(d, f, Chunk(packet, f.id, fragmentSize), maxFragments, fragmentSize);
             && MAX_PACKET_HEADER_BYTES + d'.packetBytes <= |d'.packetData| && Payload(d') == packet
             && j < |d'.fragmentReceived| && d'.fragmentReceived[j]
    ensures HoldsChunk(d, j, packet, fragmentSize)
  {
    hide NumFragments, EncodeHeader, Received, HoldsHeader, CountTrue, Overwrite;
    var payload := Chunk(packet, f.id, fragmentSize);
    var d' := Gained(d, f, payload, maxFragments, fragmentSize);
    StoredData(d, f, payload, maxFragments, fragmentSize);
    ChunkSize(packet, j, fragmentSize);
    ChunkSize(packet, f.id, fragmentSize);
    PlacesApart(j, f.id, fragmentSize);
    var at := j * fragmentSize;
    var size := |Chunk(packet, j, fragmentSize)|;
    var from := MAX_PACKET_HEADER_BYTES + at;
    RangeAfterStore(d, f, payload, maxFragments, fragmentSize, from, from + size);
    SliceOfSlice(d'.packetData, MAX_PACKET_HEADER_BYTES, MAX_PACKET_HEADER_BYTES + d'.packetBytes, at, at + size);
  }
}
