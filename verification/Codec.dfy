/** The wire format (src/packet.rs; STANDARD.md, sections "Packet Header" and "Fragments").
    Masks and shifts over bytes and 32-bit words are written as the equal division and remainder. */
module Codec {
  import opened Wrappers
  import opened Sequence

  const MAX_PACKET_HEADER_BYTES := 9
  const FRAGMENT_HEADER_BYTES := 5

  type byte = x: int | 0 <= x < 256
  type u32 = x: int | 0 <= x < 0x1_0000_0000
  type bytes = seq<byte>

  datatype PacketHeader = PacketHeader(size: nat, sequence: u16, ack: u16, ackBits: u32)

  datatype FragmentHeader = FragmentHeader(id: nat, total: nat, sequence: u16, ack: u16, ackBits: u32)

  // ---------------------------------------------------------------- fields

  function Le16(x: u16): bytes {
    [x % 256, x / 256]
  }

  function U16(low: byte, high: byte): u16 {
    low + 256 * high
  }

  /** Byte `i` of a 32-bit word, counted from the low end. */
  function ByteOf(word: u32, i: nat): byte
    requires i < 4
  {
    match i
    case 0 => word % 256
    case 1 => word / 256 % 256
    case 2 => word / 256 / 256 % 256
    case _ => word / 256 / 256 / 256
  }

  function Word(b0: byte, b1: byte, b2: byte, b3: byte): u32 {
    b0 + 256 * (b1 + 256 * (b2 + 256 * b3))
  }

  /** Clears byte `i` of the word and puts `b` there. */
  function SetByte(word: u32, i: nat, b: byte): u32
    requires i < 4
  {
    Word(if i == 0 then b else ByteOf(word, 0), if i == 1 then b else ByteOf(word, 1),
         if i == 2 then b else ByteOf(word, 2), if i == 3 then b else ByteOf(word, 3))
  }

  lemma WordOfBytes(word: u32)
    ensures Word(ByteOf(word, 0), ByteOf(word, 1), ByteOf(word, 2), ByteOf(word, 3)) == word
  {
    var q := word / 256;
    assert word == word % 256 + 256 * q && q == q % 256 + 256 * (q / 256);
  }

  lemma BytesOfWord(b0: byte, b1: byte, b2: byte, b3: byte)
    ensures var w := Word(b0, b1, b2, b3);
            ByteOf(w, 0) == b0 && ByteOf(w, 1) == b1 && ByteOf(w, 2) == b2 && ByteOf(w, 3) == b3
  {
    var w := Word(b0, b1, b2, b3);
    assert w / 256 == b1 + 256 * (b2 + 256 * b3);
    assert w / 256 / 256 == b2 + 256 * b3;
  }

  /** Bit `i`, counted from the low end. */
  predicate Bit(x: nat, i: nat) {
    if i == 0 then x % 2 == 1 else Bit(x / 2, i - 1)
  }

  function BitValue(b: bool): nat {
    if b then 1 else 0
  }

  /** The low `n` bits of a number, as a number. */
  function LowBits(x: nat, n: nat): nat {
    if n == 0 then 0 else BitValue(Bit(x, 0)) + 2 * LowBits(x / 2, n - 1)
  }

  lemma {:induction false} SameBitsSameLowBits(x: nat, y: nat, n: nat)
    requires forall i: nat :: i < n ==> (Bit(x, i) <==> Bit(y, i))
    ensures LowBits(x, n) == LowBits(y, n)
  {
    if n > 0 {
      forall i: nat | i < n - 1
        ensures Bit(x / 2, i) <==> Bit(y / 2, i)
      {
        assert Bit(x, i + 1) <==> Bit(y, i + 1);
      }
      SameBitsSameLowBits(x / 2, y / 2, n - 1);
    }
  }

  /** The bits of a byte determine it. */
  lemma SameBitsSameByte(x: byte, y: byte)
    requires forall i: nat :: i < 8 ==> (Bit(x, i) <==> Bit(y, i))
    ensures x == y
  {
    SameBitsSameLowBits(x, y, 8);
    LowBitsOfByte(x);
    LowBitsOfByte(y);
  }

  lemma {:induction false} LowBitsBelow(x: nat, n: nat, bound: nat)
    requires x < bound && bound == Power2(n)
    ensures LowBits(x, n) == x
  {
    if n > 0 {
      LowBitsBelow(x / 2, n - 1, Power2(n - 1));
    }
  }

  function Power2(n: nat): nat {
    if n == 0 then 1 else 2 * Power2(n - 1)
  }

  lemma LowBitsOfByte(x: byte)
    ensures LowBits(x, 8) == x
  {
    assert Power2(8) == 256;
    LowBitsBelow(x, 8, 256);
  }

  // ---------------------------------------------------------------- packet header

  /** Whether byte `i` of the ack bits travels: an all-ones byte is left out. */
  predicate Transmitted(ackBits: u32, i: nat)
    requires i < 4
  {
    ByteOf(ackBits, i) != 255
  }

  /** Whether the ack travels as a one-byte distance behind the sequence. */
  predicate RelativeAck(sequence: u16, ack: u16) {
    Wrap(sequence - ack) <= 255
  }

  function Prefix(sequence: u16, ack: u16, ackBits: u32): byte {
    (if Transmitted(ackBits, 0) then 2 else 0) +
    (if Transmitted(ackBits, 1) then 4 else 0) +
    (if Transmitted(ackBits, 2) then 8 else 0) +
    (if Transmitted(ackBits, 3) then 16 else 0) +
    (if RelativeAck(sequence, ack) then 32 else 0)
  }

  function AckField(sequence: u16, ack: u16): bytes {
    if RelativeAck(sequence, ack) then [Wrap(sequence - ack)] else Le16(ack)
  }

  /** A byte of the ack bits as it travels. */
  function Present(b: byte): bytes {
    if b == 255 then [] else [b]
  }

  function FourBytes(b0: byte, b1: byte, b2: byte, b3: byte): (data: bytes)
    ensures |data| <= 4
  {
    Present(b0) + Present(b1) + Present(b2) + Present(b3)
  }

  function AckBytes(ackBits: u32): bytes {
    FourBytes(ByteOf(ackBits, 0), ByteOf(ackBits, 1), ByteOf(ackBits, 2), ByteOf(ackBits, 3))
  }

  /** The layout of a packet header, field after field. */
  function EncodeHeader(sequence: u16, ack: u16, ackBits: u32): (data: bytes)
    ensures 4 <= |data| <= MAX_PACKET_HEADER_BYTES
    ensures data[0] % 2 == 0
  {
    [Prefix(sequence, ack, ackBits)] + Le16(sequence) + AckField(sequence, ack) + AckBytes(ackBits)
  }

  /** Stores one byte at the cursor and steps over it. */
  method WriteByte(packetData: array<byte>, p: nat, value: byte) returns (next: nat)
    requires p < packetData.Length
    modifies packetData
    ensures next == p + 1
    ensures packetData[..next] == old(packetData[..p]) + [value]
    ensures forall j :: next <= j < packetData.Length ==> packetData[j] == old(packetData[j])
  {
    packetData[p] := value;
    next := p + 1;
  }

  /** Stores one byte of the ack bits at the cursor, unless it is all ones. */
  method WriteAckByte(packetData: array<byte>, p: nat, b: byte) returns (next: nat)
    requires p + |Present(b)| <= packetData.Length
    modifies packetData
    ensures next == p + |Present(b)|
    ensures packetData[..next] == old(packetData[..p]) + Present(b)
    ensures forall j :: next <= j < packetData.Length ==> packetData[j] == old(packetData[j])
  {
    if b != 255 {
      next := WriteByte(packetData, p, b);
    } else {
      next := p;
    }
  }

  /** Stores the ack bits at the cursor, without their all-ones bytes. */
  method WriteAckBytes(packetData: array<byte>, p: nat, ackBits: u32) returns (next: nat)
    requires p + |AckBytes(ackBits)| <= packetData.Length
    modifies packetData
    ensures next == p + |AckBytes(ackBits)|
    ensures packetData[..next] == old(packetData[..p]) + AckBytes(ackBits)
    ensures forall j :: next <= j < packetData.Length ==> packetData[j] == old(packetData[j])
  {
    next := WriteAckByte(packetData, p, ByteOf(ackBits, 0));
    next := WriteAckByte(packetData, next, ByteOf(ackBits, 1));
    next := WriteAckByte(packetData, next, ByteOf(ackBits, 2));
    next := WriteAckByte(packetData, next, ByteOf(ackBits, 3));
  }

  method BuildPrefix(sequence: u16, ack: u16, ackBits: u32) returns (prefix: byte)
    ensures prefix == Prefix(sequence, ack, ackBits)
  {
    prefix := 0;
    if ByteOf(ackBits, 0) != 255 {
      prefix := prefix + 2;
    }
    if ByteOf(ackBits, 1) != 255 {
      prefix := prefix + 4;
    }
    if ByteOf(ackBits, 2) != 255 {
      prefix := prefix + 8;
    }
    if ByteOf(ackBits, 3) != 255 {
      prefix := prefix + 16;
    }
    if Wrap(sequence - ack) <= 255 {
      prefix := prefix + 32;
    }
  }

  /** Writes the header into the front of the buffer and leaves the rest of it alone. */
  method WritePacketHeader(packetData: array<byte>, sequence: u16, ack: u16, ackBits: u32) returns (p: nat)
    requires |EncodeHeader(sequence, ack, ackBits)| <= packetData.Length
    modifies packetData
    ensures p == |EncodeHeader(sequence, ack, ackBits)|
    ensures packetData[..p] == EncodeHeader(sequence, ack, ackBits)
    ensures forall j :: p <= j < packetData.Length ==> packetData[j] == old(packetData[j])
  {
    var prefix := BuildPrefix(sequence, ack, ackBits);
    var sequenceDifference := Wrap(sequence - ack);
    p := WriteByte(packetData, 0, prefix);
    p := WriteByte(packetData, p, sequence % 256);
    p := WriteByte(packetData, p, sequence / 256);
    if sequenceDifference <= 255 {
      p := WriteByte(packetData, p, sequenceDifference);
    } else {
      p := WriteByte(packetData, p, ack % 256);
      p := WriteByte(packetData, p, ack / 256);
    }
    assert packetData[..p] == [prefix] + Le16(sequence) + AckField(sequence, ack);
    p := WriteAckBytes(packetData, p, ackBits);
  }

  /** Where the ack-bits bytes of a header with this prefix start. */
  function AckBytesStart(prefix: byte): nat {
    if Bit(prefix, 5) then 4 else 5
  }

  /** How many of the first `i` ack-bits bytes a header with this prefix carries. */
  function AckBytesBefore(prefix: byte, i: nat): (n: nat)
    requires i <= 4
  {
    (if i > 0 && Bit(prefix, 1) then 1 else 0) +
    (if i > 1 && Bit(prefix, 2) then 1 else 0) +
    (if i > 2 && Bit(prefix, 3) then 1 else 0) +
    (if i > 3 && Bit(prefix, 4) then 1 else 0)
  }

  /** The total length of a header with this prefix. */
  function HeaderLength(prefix: byte): (n: nat)
    ensures 4 <= n <= MAX_PACKET_HEADER_BYTES
  {
    AckBytesStart(prefix) + AckBytesBefore(prefix, 4)
  }

  /** Ack-bits byte `i` of a header: the transmitted byte, or all ones when left out. */
  function ReadAckByte(data: bytes, i: nat): byte
    requires i < 4 && |data| > 0 && |data| >= HeaderLength(data[0])
  {
    if Bit(data[0], i + 1) then data[AckBytesStart(data[0]) + AckBytesBefore(data[0], i)] else 255
  }

  function ReadAckBits(data: bytes): u32
    requires |data| > 0 && |data| >= HeaderLength(data[0])
  {
    Word(ReadAckByte(data, 0), ReadAckByte(data, 1), ReadAckByte(data, 2), ReadAckByte(data, 3))
  }

  function ReadAck(data: bytes): u16
    requires |data| > 0 && |data| >= HeaderLength(data[0])
  {
    if Bit(data[0], 5) then Wrap(U16(data[1], data[2]) - data[3]) else U16(data[3], data[4])
  }

  function DecodeHeader(data: bytes): Option<PacketHeader> {
    if |data| < 3 || Bit(data[0], 0) || |data| < HeaderLength(data[0]) then None
    else Some(PacketHeader(HeaderLength(data[0]), U16(data[1], data[2]), ReadAck(data), ReadAckBits(data)))
  }

  /** Replaces byte `i` of the ack bits by the one at the cursor, if that byte was transmitted. */
  method ReadAckByteAt(packetData: bytes, p: nat, ackBits: u32, i: nat) returns (next: nat, bits: u32)
    requires i < 4 && |packetData| > 0 && |packetData| >= HeaderLength(packetData[0])
    requires p == AckBytesStart(packetData[0]) + AckBytesBefore(packetData[0], i)
    requires ByteOf(ackBits, i) == 255
    ensures next == AckBytesStart(packetData[0]) + AckBytesBefore(packetData[0], i + 1)
    ensures ByteOf(bits, i) == ReadAckByte(packetData, i)
    ensures forall j: nat :: j < 4 && j != i ==> ByteOf(bits, j) == ByteOf(ackBits, j)
  {
    next, bits := p, ackBits;
    if Bit(packetData[0], i + 1) {
      BytesOfWord(if i == 0 then packetData[p] else ByteOf(ackBits, 0),
                  if i == 1 then packetData[p] else ByteOf(ackBits, 1),
                  if i == 2 then packetData[p] else ByteOf(ackBits, 2),
                  if i == 3 then packetData[p] else ByteOf(ackBits, 3));
      bits := SetByte(ackBits, i, packetData[p]);
      next := p + 1;
    }
  }

  method ReadPacketHeader(packetData: bytes) returns (header: Option<PacketHeader>)
    ensures header == DecodeHeader(packetData)
  {
    var packetBytes := |packetData|;
    if packetBytes < 3 {
      return None;
    }
    var prefix := packetData[0];
    if Bit(prefix, 0) {
      return None;
    }
    var sequence := U16(packetData[1], packetData[2]);
    var p := 3;
    var ack: u16;
    if Bit(prefix, 5) {
      if packetBytes < 3 + 1 {
        return None;
      }
      ack := Wrap(sequence - packetData[p]);
      p := p + 1;
    } else {
      if packetBytes < 3 + 2 {
        return None;
      }
      ack := U16(packetData[p], packetData[p + 1]);
      p := p + 2;
    }

    var expectedBytes := 0;
    for i := 1 to 5
      invariant expectedBytes == AckBytesBefore(prefix, i - 1)
    {
      if Bit(prefix, i) {
        expectedBytes := expectedBytes + 1;
      }
    }
    if packetBytes < p + expectedBytes {
      return None;
    }

    var ackBits: u32 := 0xFFFF_FFFF;
    p, ackBits := ReadAckByteAt(packetData, p, ackBits, 0);
    p, ackBits := ReadAckByteAt(packetData, p, ackBits, 1);
    p, ackBits := ReadAckByteAt(packetData, p, ackBits, 2);
    p, ackBits := ReadAckByteAt(packetData, p, ackBits, 3);
    header := Some(PacketHeader(p, sequence, ack, ackBits));
  }

  // ---------------------------------------------------------------- fragment header

  /** A fragment on the wire: its own five bytes, the packet header on fragment 0 only, then data. */
  function EncodeFragment(f: FragmentHeader, payload: bytes): bytes
    requires f.id < 256 && 0 < f.total <= 256
  {
    [1] + Le16(f.sequence) + [f.id, f.total - 1] + EmbeddedHeader(f) + payload
  }

  function EmbeddedHeader(f: FragmentHeader): bytes {
    if f.id == 0 then EncodeHeader(f.sequence, f.ack, f.ackBits) else []
  }

  /** What a receiver demands of a fragment. */
  predicate LegalFragment(f: FragmentHeader, payload: bytes, maxFragments: nat, fragmentSize: nat) {
    && f.id < f.total <= 256 && f.total <= maxFragments
    && |payload| <= fragmentSize
    && (f.id != f.total - 1 ==> |payload| == fragmentSize)
    && (f.id != 0 ==> f.ack == 0 && f.ackBits == 0)
  }

  /** The packet header embedded in fragment 0, if it is well formed, names the sequence of the fragment
      and is encoded canonically. */
  function DecodeEmbedded(data: bytes, sequence: u16): Option<PacketHeader> {
    match DecodeHeader(data)
    case None => None
    case Some(h) =>
      if h.sequence == sequence && EncodeHeader(h.sequence, h.ack, h.ackBits) == data[..h.size] then Some(h) else None
  }

  /** What stands between the fragment header and the data: nothing, except on fragment 0. */
  function DecodeOptionalHeader(id: nat, data: bytes, sequence: u16): Option<PacketHeader> {
    if id == 0 then DecodeEmbedded(data, sequence) else Some(PacketHeader(0, sequence, 0, 0))
  }

  function DecodeFragment(data: bytes, maxFragments: nat, fragmentSize: nat): Option<FragmentHeader> {
    if |data| < FRAGMENT_HEADER_BYTES || data[0] != 1 then None
    else
      var sequence := U16(data[1], data[2]);
      var id := data[3];
      var total: nat := data[4] as int + 1;
      if total > maxFragments || id >= total then None
      else
        match DecodeOptionalHeader(id, data[FRAGMENT_HEADER_BYTES..], sequence)
        case None => None
        case Some(h) =>
          var size := |data| - h.size - FRAGMENT_HEADER_BYTES;
          if size > fragmentSize || (id != total - 1 && size != fragmentSize) then None
          else Some(FragmentHeader(id, total, sequence, h.ack, h.ackBits))
  }

  method ReadFragmentHeader(packetData: bytes, maxFragments: nat, fragmentSize: nat)
    returns (header: Option<FragmentHeader>)
    ensures header == DecodeFragment(packetData, maxFragments, fragmentSize)
  {
    var packetBytes := |packetData|;
    if packetBytes < FRAGMENT_HEADER_BYTES {
      return None;
    }
    if packetData[0] != 1 {
      return None;
    }
    var sequence := U16(packetData[1], packetData[2]);
    var fragmentId := packetData[3];
    var numFragments: nat := packetData[4] as int + 1;
    if numFragments > maxFragments {
      return None;
    }
    if fragmentId >= numFragments {
      return None;
    }
    var fragmentBytes: int := packetBytes - FRAGMENT_HEADER_BYTES;
    var ack: u16, ackBits: u32 := 0, 0;
    if fragmentId == 0 {
      var r := ReadPacketHeader(packetData[FRAGMENT_HEADER_BYTES..]);
      if r.None? {
        return None;
      }
      var packetHeader := r.value;
      if packetHeader.sequence != sequence {
        return None;
      }
      var canonicalHeader := new byte[MAX_PACKET_HEADER_BYTES](_ => 0);
      var canonicalHeaderBytes :=
        WritePacketHeader(canonicalHeader, packetHeader.sequence, packetHeader.ack, packetHeader.ackBits);
      if canonicalHeaderBytes != packetHeader.size
         || canonicalHeader[..canonicalHeaderBytes] != packetData[FRAGMENT_HEADER_BYTES..][..canonicalHeaderBytes] {
        return None;
      }
      ack, ackBits := packetHeader.ack, packetHeader.ackBits;
      fragmentBytes := packetBytes - packetHeader.size - FRAGMENT_HEADER_BYTES;
    }
    if fragmentBytes > fragmentSize {
      return None;
    }
    if fragmentId != numFragments - 1 && fragmentBytes != fragmentSize {
      return None;
    }
    header := Some(FragmentHeader(fragmentId, numFragments, sequence, ack, ackBits));
  }
}
