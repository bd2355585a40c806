/** The wire format as the C reference writes and reads it (wire-compat/c/reliable.c): its masks over the whole word of
    ack bits, its cursors, its signed difference and its pointer-driven fragment loop, and the proofs that the bytes and
    the outcomes are those of the port. */
module CCodec {
  import opened Wrappers
  import opened Sequence
  import opened Modular
  import opened Codec
  import opened Reassembly
  import opened Protocol

  // ---------------------------------------------------------------- the word of ack bits

  /** The place value of byte `i` of a word. */
  function Scale(i: nat): nat
    requires i < 4
  {
    match i
    case 0 => 0x1
    case 1 => 0x100
    case 2 => 0x1_0000
    case _ => 0x100_0000
  }

  /** `word & (0xFF << 8 * i)`. */
  function Field(word: u32, i: nat): nat
    requires i < 4
  {
    word / Scale(i) % 256 * Scale(i)
  }

  /** Clears byte `i` of the word by a mask and puts `b`, shifted, in its place. */
  function ReplaceField(word: u32, i: nat, b: byte): u32
    requires i < 4
  {
    ReplaceInWord(ByteOf(word, 0), ByteOf(word, 1), ByteOf(word, 2), ByteOf(word, 3), i, b);
    WordOfBytes(word);
    Replaced(word, i, b)
  }

  function Replaced(word: u32, i: nat, b: byte): int
    requires i < 4
  {
    word as int - Field(word, i) + b as int * Scale(i)
  }

  lemma FieldIsByte(word: u32, i: nat)
    requires i < 4
    ensures Field(word, i) == ByteOf(word, i) * Scale(i)
    ensures Field(word, i) / Scale(i) == ByteOf(word, i)
    ensures Field(word, i) != 255 * Scale(i) <==> Transmitted(word, i)
  {
    QuotientsCompose(word);
    RemainderIs(ByteOf(word, i) * Scale(i), Scale(i), ByteOf(word, i), 0);
  }

  lemma QuotientsCompose(word: u32)
    ensures word / 0x1_0000 == word / 256 / 256
    ensures word / 0x100_0000 == word / 256 / 256 / 256 && word / 0x100_0000 < 256
  {
    var q1 := word / 256;
    var q2 := q1 / 256;
    var q3 := q2 / 256;
    assert word == 256 * q1 + word % 256 && q1 == 256 * q2 + q1 % 256 && q2 == 256 * q3 + q2 % 256;
    RemainderIs(word, 0x1_0000, q2, 256 * (q1 % 256) + word % 256);
    RemainderIs(word, 0x100_0000, q3, 0x1_0000 * (q2 % 256) + 256 * (q1 % 256) + word % 256);
  }

  lemma ReplaceInWord(b0: byte, b1: byte, b2: byte, b3: byte, i: nat, b: byte)
    requires i < 4
    ensures Replaced(Word(b0, b1, b2, b3), i, b)
            == Word(if i == 0 then b else b0, if i == 1 then b else b1,
                    if i == 2 then b else b2, if i == 3 then b else b3)
  {
    hide Field, ByteOf;
    FieldIsByte(Word(b0, b1, b2, b3), i);
    BytesOfWord(b0, b1, b2, b3);
  }

  // ---------------------------------------------------------------- writing a packet header

  function CDifference(sequence: u16, ack: u16): int {
    var difference := sequence as int - ack as int;
    if difference < 0 then difference + 65536 else difference
  }

  function CPrefix(sequence: u16, ack: u16, ackBits: u32): byte {
    (if Field(ackBits, 0) != 0x0000_00FF then 2 else 0) +
    (if Field(ackBits, 1) != 0x0000_FF00 then 4 else 0) +
    (if Field(ackBits, 2) != 0x00FF_0000 then 8 else 0) +
    (if Field(ackBits, 3) != 0xFF00_0000 then 16 else 0) +
    (if CDifference(sequence, ack) <= 255 then 32 else 0)
  }

  /** A byte of the ack bits as it is written: nothing if it is all ones. */
  function CAckByte(ackBits: u32, i: nat): bytes
    requires i < 4
  {
    FieldIsByte(ackBits, i);
    if Field(ackBits, i) != 255 * Scale(i) then [Field(ackBits, i) / Scale(i)] else []
  }

  function CUint16(value: u16): bytes {
    [value % 256, value / 256]
  }

  function CAckField(sequence: u16, ack: u16): bytes {
    var difference := CDifference(sequence, ack);
    if difference <= 255 then [difference] else CUint16(ack)
  }

  /** What `reliable_write_packet_header` writes. */
  function CWriteHeader(sequence: u16, ack: u16, ackBits: u32): (data: bytes)
    ensures 4 <= |data| <= MAX_PACKET_HEADER_BYTES
  {
    [CPrefix(sequence, ack, ackBits)] + CUint16(sequence) + CAckField(sequence, ack)
    + CAckByte(ackBits, 0) + CAckByte(ackBits, 1) + CAckByte(ackBits, 2) + CAckByte(ackBits, 3)
  }

  /** Both write the same bytes. */
  lemma CWriteHeaderIs(sequence: u16, ack: u16, ackBits: u32)
    ensures CWriteHeader(sequence, ack, ackBits) == EncodeHeader(sequence, ack, ackBits)
  {
    hide CPrefix, Prefix, CUint16, Le16, CAckField, AckField, CAckByte, Present, ByteOf;
    CFrontIs(sequence, ack, ackBits);
    CAckByteIs(ackBits, 0);
    CAckByteIs(ackBits, 1);
    CAckByteIs(ackBits, 2);
    CAckByteIs(ackBits, 3);
    Regroup([CPrefix(sequence, ack, ackBits)] + CUint16(sequence) + CAckField(sequence, ack),
            CAckByte(ackBits, 0), CAckByte(ackBits, 1), CAckByte(ackBits, 2), CAckByte(ackBits, 3));
  }

  lemma CFrontIs(sequence: u16, ack: u16, ackBits: u32)
    ensures CPrefix(sequence, ack, ackBits) == Prefix(sequence, ack, ackBits)
    ensures CUint16(sequence) == Le16(sequence) && CAckField(sequence, ack) == AckField(sequence, ack)
  {
    hide Field, ByteOf;
    FieldIsByte(ackBits, 0);
    FieldIsByte(ackBits, 1);
    FieldIsByte(ackBits, 2);
    FieldIsByte(ackBits, 3);
    DifferenceIsDistance(sequence, ack);
  }

  lemma CAckByteIs(ackBits: u32, i: nat)
    requires i < 4
    ensures CAckByte(ackBits, i) == Present(ByteOf(ackBits, i))
  {
    hide Field, ByteOf;
    FieldIsByte(ackBits, i);
  }

  lemma Regroup(front: bytes, a: bytes, b: bytes, c: bytes, d: bytes)
    ensures front + a + b + c + d == front + (a + b + c + d)
  {
  }

  lemma DifferenceIsDistance(sequence: u16, ack: u16)
    ensures CDifference(sequence, ack) == Wrap(sequence - ack)
  {
  }

  method WriteUint8(packetData: array<byte>, p: nat, value: byte) returns (next: nat)
    requires p < packetData.Length
    modifies packetData
    ensures next == p + 1
    ensures packetData[..next] == old(packetData[..p]) + [value]
  {
    packetData[p] := value;
    next := p + 1;
  }

  method WriteUint16(packetData: array<byte>, p: nat, value: u16) returns (next: nat)
    requires p + 2 <= packetData.Length
    modifies packetData
    ensures next == p + 2
    ensures packetData[..next] == old(packetData[..p]) + CUint16(value)
  {
    packetData[p] := value % 256;
    packetData[p + 1] := value / 256;
    next := p + 2;
  }

  method WriteField(packetData: array<byte>, p: nat, ackBits: u32, i: nat) returns (next: nat)
    requires i < 4 && p + |CAckByte(ackBits, i)| <= packetData.Length
    modifies packetData
    ensures next == p + |CAckByte(ackBits, i)|
    ensures packetData[..next] == old(packetData[..p]) + CAckByte(ackBits, i)
  {
    next := p;
    if Field(ackBits, i) != 255 * Scale(i) {
      FieldIsByte(ackBits, i);
      next := WriteUint8(packetData, p, Field(ackBits, i) / Scale(i));
    }
  }

  method BuildPrefixByte(sequence: u16, ack: u16, ackBits: u32) returns (prefix: byte)
    ensures prefix == CPrefix(sequence, ack, ackBits)
  {
    prefix := 0;
    if Field(ackBits, 0) != 0x0000_00FF {
      prefix := prefix + 2;
    }
    if Field(ackBits, 1) != 0x0000_FF00 {
      prefix := prefix + 4;
    }
    if Field(ackBits, 2) != 0x00FF_0000 {
      prefix := prefix + 8;
    }
    if Field(ackBits, 3) != 0xFF00_0000 {
      prefix := prefix + 16;
    }
    var sequenceDifference := sequence as int - ack as int;
    if sequenceDifference < 0 {
      sequenceDifference := sequenceDifference + 65536;
    }
    if sequenceDifference <= 255 {
      prefix := prefix + 32;
    }
  }

  lemma AckByteLengths(ackBits: u32)
    ensures |CAckByte(ackBits, 0)| <= 1 && |CAckByte(ackBits, 1)| <= 1
    ensures |CAckByte(ackBits, 2)| <= 1 && |CAckByte(ackBits, 3)| <= 1
  {
  }

  method WriteHeader(packetData: array<byte>, sequence: u16, ack: u16, ackBits: u32) returns (p: nat)
    requires MAX_PACKET_HEADER_BYTES <= packetData.Length
    modifies packetData
    ensures p == |CWriteHeader(sequence, ack, ackBits)|
    ensures packetData[..p] == CWriteHeader(sequence, ack, ackBits)
  {
    hide CPrefix, CUint16, CAckField, CAckByte;
    AckByteLengths(ackBits);
    p := WriteFront(packetData, sequence, ack, ackBits);
    p := WriteField(packetData, p, ackBits, 0);
    p := WriteField(packetData, p, ackBits, 1);
    p := WriteField(packetData, p, ackBits, 2);
    p := WriteField(packetData, p, ackBits, 3);
  }

  /** Prefix byte, sequence and ack. */
  method WriteFront(packetData: array<byte>, sequence: u16, ack: u16, ackBits: u32) returns (p: nat)
    requires MAX_PACKET_HEADER_BYTES <= packetData.Length
    modifies packetData
    ensures p == 3 + |CAckField(sequence, ack)| <= 5
    ensures packetData[..p] == [CPrefix(sequence, ack, ackBits)] + CUint16(sequence) + CAckField(sequence, ack)
  {
    hide CPrefix;
    var prefix := BuildPrefixByte(sequence, ack, ackBits);
    var sequenceDifference := CDifference(sequence, ack);
    p := WriteUint8(packetData, 0, prefix);
    p := WriteUint16(packetData, p, sequence);
    if sequenceDifference <= 255 {
      p := WriteUint8(packetData, p, sequenceDifference);
    } else {
      p := WriteUint16(packetData, p, ack);
    }
  }

  // ---------------------------------------------------------------- reading a packet header

  /** The reader's cursor and the ack bits it has so far. */
  datatype Cursor = Cursor(p: nat, ackBits: u32)

  /** How many of the flags `i` to 4 are set. */
  function FlagsFrom(prefix: byte, i: nat): (n: nat)
    requires 1 <= i <= 5
    ensures n <= 5 - i
    decreases 5 - i, prefix
  {
    if i == 5 then 0 else (if Bit(prefix, i) then 1 else 0) + FlagsFrom(prefix, i + 1)
  }

  /** Reads byte `i` of the ack bits at the cursor, if the prefix says that it is there. */
  function ReadField(data: bytes, cursor: Cursor, i: nat): Cursor
    requires i < 4 && |data| > 0 && (Bit(data[0], i + 1) ==> cursor.p < |data|)
  {
    if Bit(data[0], i + 1) then Cursor(cursor.p + 1, ReplaceField(cursor.ackBits, i, data[cursor.p])) else cursor
  }

  /** Starting from all ones, the bytes that are there are put in one after the other. */
  function ReadFields(data: bytes, p: nat): Cursor
    requires |data| > 0 && p + FlagsFrom(data[0], 1) <= |data|
  {
    FlagsUnfold(data[0]);
    var c0 := ReadField(data, Cursor(p, 0xFFFF_FFFF), 0);
    var c1 := ReadField(data, c0, 1);
    var c2 := ReadField(data, c1, 2);
    ReadField(data, c2, 3)
  }

  lemma FlagsUnfold(prefix: byte)
    ensures FlagsFrom(prefix, 1) == AckBytesBefore(prefix, 4)
  {
    assert FlagsFrom(prefix, 5) == 0;
    assert FlagsFrom(prefix, 4) == if Bit(prefix, 4) then 1 else 0;
    assert FlagsFrom(prefix, 3) == (if Bit(prefix, 3) then 1 else 0) + FlagsFrom(prefix, 4);
  }

  function CReadUint16(data: bytes, p: nat): u16
    requires p + 2 <= |data|
  {
    data[p] as int + data[p + 1] as int * 256
  }

  /** What `reliable_read_packet_header` makes of the bytes. */
  function CReadHeader(data: bytes): Option<PacketHeader> {
    if |data| < 3 then None
    else
      var prefix := data[0];
      if Bit(prefix, 0) then None
      else
        var sequence := CReadUint16(data, 1);
        if Bit(prefix, 5) then
          if |data| < 3 + 1 then None
          else CReadRest(data, sequence, Wrap(sequence - data[3]), 4)
        else if |data| < 3 + 2 then None
        else CReadRest(data, sequence, CReadUint16(data, 3), 5)
  }

  function CReadRest(data: bytes, sequence: u16, ack: u16, p: nat): Option<PacketHeader>
    requires |data| > 0
  {
    if |data| < p + FlagsFrom(data[0], 1) then None
    else
      var cursor := ReadFields(data, p);
      Some(PacketHeader(cursor.p, sequence, ack, cursor.ackBits))
  }

  /** Both read the same. */
  lemma CReadHeaderIs(data: bytes)
    ensures CReadHeader(data) == DecodeHeader(data)
  {
    if |data| >= 3 && !Bit(data[0], 0) {
      FlagsUnfold(data[0]);
      var p := AckBytesStart(data[0]);
      if |data| >= p + FlagsFrom(data[0], 1) {
        ReadFieldsIs(data, p);
      }
    }
  }

  lemma ReadFieldsIs(data: bytes, p: nat)
    requires |data| > 0 && p == AckBytesStart(data[0]) && p + FlagsFrom(data[0], 1) <= |data|
    ensures |data| >= HeaderLength(data[0])
    ensures ReadFields(data, p) == Cursor(HeaderLength(data[0]), ReadAckBits(data))
  {
    hide Replaced, Bit, FlagsFrom, Word, ByteOf;
    FlagsUnfold(data[0]);
    AllOnes();
    var b0, b1, b2, b3 := ReadAckByte(data, 0), ReadAckByte(data, 1), ReadAckByte(data, 2), ReadAckByte(data, 3);
    ReplacedIs(255, 255, 255, 255, 0, b0);
    ReplacedIs(b0, 255, 255, 255, 1, b1);
    ReplacedIs(b0, b1, 255, 255, 2, b2);
    ReplacedIs(b0, b1, b2, 255, 3, b3);
  }

  lemma AllOnes()
    ensures Word(255, 255, 255, 255) == 0xFFFF_FFFF
  {
  }

  /** Replacing a byte by itself is no change, so a byte that was left out may be taken as read. */
  lemma ReplacedIs(b0: byte, b1: byte, b2: byte, b3: byte, i: nat, b: byte)
    requires i < 4
    ensures var w := Word(if i == 0 then b else b0, if i == 1 then b else b1,
                          if i == 2 then b else b2, if i == 3 then b else b3);
            ReplaceField(Word(b0, b1, b2, b3), i, b) == w
  {
    hide Replaced, Word;
    ReplaceInWord(b0, b1, b2, b3, i, b);
  }

  method ReadUint16(packetData: bytes, p: nat) returns (value: u16, next: nat)
    requires p + 2 <= |packetData|
    ensures next == p + 2 && value == CReadUint16(packetData, p)
  {
    value := packetData[p];
    value := value + packetData[p + 1] as int * 256;
    next := p + 2;
  }

  method CountFlags(prefix: byte) returns (expectedBytes: nat)
    ensures expectedBytes == FlagsFrom(prefix, 1)
  {
    expectedBytes := 0;
    var i := 1;
    while i <= 4
      invariant 1 <= i <= 5
      invariant expectedBytes + FlagsFrom(prefix, i) == FlagsFrom(prefix, 1)
    {
      if Bit(prefix, i) {
        expectedBytes := expectedBytes + 1;
      }
      i := i + 1;
    }
  }

  method ReadHeader(packetData: bytes) returns (header: Option<PacketHeader>)
    ensures header == CReadHeader(packetData)
  {
    hide ReplaceField, Bit;
    var packetBytes := |packetData|;
    if packetBytes < 3 {
      return None;
    }
    var prefix := packetData[0];
    if Bit(prefix, 0) {
      return None;
    }
    var sequence, p := ReadUint16(packetData, 1);
    var ack: u16;
    if Bit(prefix, 5) {
      if packetBytes < 3 + 1 {
        return None;
      }
      ack := Wrap(sequence - packetData[p]);
      p := p + 1;
    } else {
      if packetBytes < 3 + 2 {
        return None;
      }
      ack, p := ReadUint16(packetData, p);
    }
    var expectedBytes := CountFlags(prefix);
    if packetBytes < p + expectedBytes {
      return None;
    }
    var cursor := ReadFields(packetData, p);
    header := Some(PacketHeader(cursor.p, sequence, ack, cursor.ackBits));
  }

  // ---------------------------------------------------------------- reading a fragment header

  /** What `reliable_read_fragment_header` makes of the bytes. */
  function CReadFragment(data: bytes, maxFragments: nat, fragmentSize: nat): Option<FragmentHeader> {
    if |data| < FRAGMENT_HEADER_BYTES || data[0] != 1 then None
    else
      var sequence := CReadUint16(data, 1);
      var id, total: nat := data[3], data[4] as int + 1;
      if total > maxFragments || id >= total then None
      else if id != 0 then
        CCheckSize(FragmentHeader(id, total, sequence, 0, 0), |data| - FRAGMENT_HEADER_BYTES, fragmentSize)
      else
        var rest := data[FRAGMENT_HEADER_BYTES..];
        match CReadHeader(rest)
        case None => None
        case Some(h) =>
          var canonical := CWriteHeader(h.sequence, h.ack, h.ackBits);
          if h.sequence != sequence || |canonical| != h.size || |rest| < |canonical|
            || rest[..|canonical|] != canonical then None
          else CCheckSize(FragmentHeader(id, total, sequence, h.ack, h.ackBits),
                          |data| - h.size - FRAGMENT_HEADER_BYTES, fragmentSize)
  }

  function CCheckSize(f: FragmentHeader, fragmentBytes: int, fragmentSize: nat): Option<FragmentHeader> {
    if fragmentBytes > fragmentSize then None
    else if f.id != f.total - 1 && fragmentBytes != fragmentSize then None
    else Some(f)
  }

  /** Both accept the same fragments and read them alike. */
  lemma CReadFragmentIs(data: bytes, maxFragments: nat, fragmentSize: nat)
    ensures CReadFragment(data, maxFragments, fragmentSize) == DecodeFragment(data, maxFragments, fragmentSize)
  {
    hide EncodeHeader, DecodeHeader, CWriteHeader, CReadHeader;
    if |data| >= FRAGMENT_HEADER_BYTES {
      var rest := data[FRAGMENT_HEADER_BYTES..];
      CReadHeaderIs(rest);
      if DecodeHeader(rest).Some? {
        var h := DecodeHeader(rest).value;
        CWriteHeaderIs(h.sequence, h.ack, h.ackBits);
        HeaderFits(rest);
      }
    }
  }

  lemma HeaderFits(data: bytes)
    requires DecodeHeader(data).Some?
    ensures 4 <= DecodeHeader(data).value.size <= |data|
  {
  }

  method ReadFragment(packetData: bytes, maxFragments: nat, fragmentSize: nat) returns (header: Option<FragmentHeader>)
    ensures header == CReadFragment(packetData, maxFragments, fragmentSize)
  {
    hide CWriteHeader, CReadHeader;
    var packetBytes := |packetData|;
    if packetBytes < FRAGMENT_HEADER_BYTES {
      return None;
    }
    if packetData[0] != 1 {
      return None;
    }
    var sequence, p := ReadUint16(packetData, 1);
    var fragmentId := packetData[p];
    var numFragments: nat := packetData[p + 1] as int + 1;
    if numFragments > maxFragments {
      return None;
    }
    if fragmentId >= numFragments {
      return None;
    }
    var fragmentBytes: int := packetBytes - FRAGMENT_HEADER_BYTES;
    var ack: u16, ackBits: u32 := 0, 0;
    if fragmentId == 0 {
      var rest := packetData[FRAGMENT_HEADER_BYTES..];
      var r := ReadHeader(rest);
      if r.None? {
        return None;
      }
      var packetHeader := r.value;
      if packetHeader.sequence != sequence {
        return None;
      }
      var canonicalHeader := new byte[MAX_PACKET_HEADER_BYTES];
      var canonicalBytes := WriteHeader(canonicalHeader, packetHeader.sequence, packetHeader.ack, packetHeader.ackBits);
      if canonicalBytes != packetHeader.size || |rest| < canonicalBytes
         || canonicalHeader[..canonicalBytes] != rest[..canonicalBytes] {
        return None;
      }
      fragmentBytes := packetBytes - packetHeader.size - FRAGMENT_HEADER_BYTES;
      ack, ackBits := packetHeader.ack, packetHeader.ackBits;
    }
    if fragmentBytes > fragmentSize {
      return None;
    }
    if fragmentId != numFragments - 1 && fragmentBytes != fragmentSize {
      return None;
    }
    header := Some(FragmentHeader(fragmentId, numFragments, sequence, ack, ackBits));
  }

  /** The packet header that fragment 0 carries. */
  function CEmbedded(f: FragmentHeader): bytes {
    if f.id == 0 then CWriteHeader(f.sequence, f.ack, f.ackBits) else []
  }

  lemma CEmbeddedIs(f: FragmentHeader)
    ensures CEmbedded(f) == EmbeddedHeader(f)
  {
    hide CWriteHeader, EncodeHeader;
    CWriteHeaderIs(f.sequence, f.ack, f.ackBits);
  }

  // ---------------------------------------------------------------- the fragment loop

  function CNumFragments(size: nat, fragmentSize: nat): nat
    requires fragmentSize > 0
  {
    size / fragmentSize + (if size % fragmentSize != 0 then 1 else 0)
  }

  lemma CNumFragmentsIs(size: nat, fragmentSize: nat)
    requires fragmentSize > 0
    ensures CNumFragments(size, fragmentSize) == NumFragments(size, fragmentSize)
  {
    var q, r := size / fragmentSize, size % fragmentSize;
    assert size == q * fragmentSize + r;
    if r == 0 {
      RemainderIs(size + fragmentSize - 1, fragmentSize, q, fragmentSize - 1);
    } else {
      assert (q + 1) * fragmentSize == q * fragmentSize + fragmentSize;
      RemainderIs(size + fragmentSize - 1, fragmentSize, q + 1, r - 1);
    }
  }

  /** `value` cast to a byte. */
  function Cast8(value: nat): byte {
    value % 256
  }

  /** How far the source pointer moves: a fragment, or what is left. */
  function CBytesToCopy(size: nat, fragmentSize: nat, q: nat): nat
    requires q <= size
  {
    if q + fragmentSize > size then size - q else fragmentSize
  }

  /** The datagrams from fragment `id` on, with the source pointer at `q`. */
  function CFragments(sequence: u16, header: bytes, packet: bytes, fragmentSize: nat, total: nat, id: nat, q: nat)
    : seq<bytes>
    requires q <= |packet| && id <= total && 0 < total
    decreases total - id, packet
  {
    if id == total then []
    else
      var n := CBytesToCopy(|packet|, fragmentSize, q);
      [CFragmentBytes(sequence, header, total, id) + packet[q..q + n]]
      + CFragments(sequence, header, packet, fragmentSize, total, id + 1, q + n)
  }

  /** The fragment header and, on fragment 0, the packet header. */
  function CFragmentBytes(sequence: u16, header: bytes, total: nat, id: nat): bytes
    requires 0 < total
  {
    [1] + CUint16(sequence) + [Cast8(id)] + [Cast8(total - 1)] + (if id == 0 then header else [])
  }

  /** The datagrams of a packet. */
  function CDatagrams(c: Config, sequence: u16, ack: u16, ackBits: u32, packet: bytes): seq<bytes>
    requires c.Valid() && 0 < |packet| <= c.maxPacketSize
  {
    var header := CWriteHeader(sequence, ack, ackBits);
    if |packet| <= c.fragmentAbove then [header + packet]
    else
      CNumFragmentsIs(|packet|, c.fragmentSize);
      LegalPacketsFit(c, |packet|);
      CFragments(sequence, header, packet, c.fragmentSize, CNumFragments(|packet|, c.fragmentSize), 0, 0)
  }

  /** Both cut a packet into the same datagrams. */
  lemma CDatagramsIs(c: Config, sequence: u16, ack: u16, ackBits: u32, packet: bytes)
    requires c.Valid() && 0 < |packet| <= c.maxPacketSize
    ensures CDatagrams(c, sequence, ack, ackBits, packet) == Datagrams(c, sequence, ack, ackBits, packet)
  {
    hide CWriteHeader, EncodeHeader, CNumFragments, NumFragments, FragmentDatagram;
    CWriteHeaderIs(sequence, ack, ackBits);
    if |packet| > c.fragmentAbove {
      CNumFragmentsIs(|packet|, c.fragmentSize);
      LegalPacketsFit(c, |packet|);
      CFragmentsIs(c, sequence, ack, ackBits, packet, 0, 0);
    }
  }

  lemma {:induction false} CFragmentsIs(c: Config, sequence: u16, ack: u16, ackBits: u32, packet: bytes, id: nat,
                                        q: nat)
    requires c.Valid() && c.fragmentAbove < |packet| <= c.maxPacketSize && id <= NumFragments(|packet|, c.fragmentSize)
    requires q == Min(id * c.fragmentSize, |packet|)
    ensures NumFragments(|packet|, c.fragmentSize) > 0
    ensures var total := NumFragments(|packet|, c.fragmentSize);
            CFragments(sequence, EncodeHeader(sequence, ack, ackBits), packet, c.fragmentSize, total, id, q)
            == Datagrams(c, sequence, ack, ackBits, packet)[id..]
    decreases NumFragments(|packet|, c.fragmentSize) - id
  {
    hide EncodeHeader, NumFragments, FragmentDatagram;
    var total := NumFragments(|packet|, c.fragmentSize);
    var all := Datagrams(c, sequence, ack, ackBits, packet);
    LegalPacketsFit(c, |packet|);
    if id < total {
      CFragmentIs(c, sequence, ack, ackBits, packet, id, q);
      CFragmentsIs(c, sequence, ack, ackBits, packet, id + 1, q + CBytesToCopy(|packet|, c.fragmentSize, q));
      assert all[id..] == [all[id]] + all[id + 1..];
    }
  }

  lemma CFragmentIs(c: Config, sequence: u16, ack: u16, ackBits: u32, packet: bytes, id: nat, q: nat)
    requires c.Valid() && 0 < |packet| <= c.maxPacketSize && id < NumFragments(|packet|, c.fragmentSize)
    requires q == Min(id * c.fragmentSize, |packet|)
    ensures 0 <= q <= |packet|
    ensures var n := CBytesToCopy(|packet|, c.fragmentSize, q);
            && q + n == Min((id + 1) * c.fragmentSize, |packet|)
            && CFragmentBytes(sequence, EncodeHeader(sequence, ack, ackBits), NumFragments(|packet|, c.fragmentSize),
                              id)
               + packet[q..q + n]
               == FragmentDatagram(c, sequence, ack, ackBits, packet, id)
  {
    hide EncodeHeader, NumFragments, CFragmentBytes, Chunk, EmbeddedHeader, Le16;
    LegalPacketsFit(c, |packet|);
    ChunkSize(packet, id, c.fragmentSize);
    CopyIsChunk(packet, c.fragmentSize, id, q);
    NextMultiple(id, c.fragmentSize);
    CFragmentBytesIs(FragmentOf(sequence, ack, ackBits, NumFragments(|packet|, c.fragmentSize), id));
  }

  lemma CFragmentBytesIs(f: FragmentHeader)
    requires f.id < f.total <= 256
    ensures CFragmentBytes(f.sequence, EncodeHeader(f.sequence, f.ack, f.ackBits), f.total, f.id)
            == [1] + Le16(f.sequence) + [f.id, f.total - 1] + EmbeddedHeader(f)
    ensures f.id != 0 ==> forall header: bytes ::
              CFragmentBytes(f.sequence, header, f.total, f.id)
              == [1] + Le16(f.sequence) + [f.id, f.total - 1] + EmbeddedHeader(f)
  {
    hide EncodeHeader;
  }

  lemma CopyIsChunk(packet: bytes, fragmentSize: nat, id: nat, q: nat)
    requires fragmentSize > 0 && 0 <= id * fragmentSize < |packet| && q == id * fragmentSize
    ensures packet[q..q + CBytesToCopy(|packet|, fragmentSize, q)] == Chunk(packet, id, fragmentSize)
  {
  }

  /** The loop itself, over the transmit buffer and the two pointers. */
  method SendFragments(buffer: array<byte>, sequence: u16, header: bytes, packetData: bytes, fragmentSize: nat,
                       numFragments: nat)
    returns (sent: seq<bytes>)
    requires 0 < numFragments && |header| <= MAX_PACKET_HEADER_BYTES
    requires buffer.Length >= FRAGMENT_HEADER_BYTES + MAX_PACKET_HEADER_BYTES + fragmentSize
    modifies buffer
    ensures sent == CFragments(sequence, header, packetData, fragmentSize, numFragments, 0, 0)
  {
    hide CFragmentBytes, CUint16;
    var q: nat := 0;
    sent := [];
    var fragmentId: nat := 0;
    while fragmentId < numFragments
      invariant fragmentId <= numFragments && q <= |packetData|
      invariant sent + CFragments(sequence, header, packetData, fragmentSize, numFragments, fragmentId, q)
                == CFragments(sequence, header, packetData, fragmentSize, numFragments, 0, 0)
    {
      var p := StartFragment(buffer, sequence, header, fragmentId, numFragments);
      var bytesToCopy := fragmentSize;
      if q + bytesToCopy > |packetData| {
        bytesToCopy := |packetData| - q;
      }
      p := CopyAt(buffer, p, packetData[q..q + bytesToCopy]);
      ghost var rest := CFragments(sequence, header, packetData, fragmentSize, numFragments, fragmentId + 1,
                                   q + bytesToCopy);
      assert sent + ([buffer[..p]] + rest) == sent + [buffer[..p]] + rest;
      q := q + bytesToCopy;
      sent := sent + [buffer[..p]];
      fragmentId := fragmentId + 1;
    }
    assert sent + [] == sent;
  }

  method StartFragment(buffer: array<byte>, sequence: u16, header: bytes, fragmentId: nat, numFragments: nat)
    returns (p: nat)
    requires 0 < numFragments && |header| <= MAX_PACKET_HEADER_BYTES
    requires buffer.Length >= FRAGMENT_HEADER_BYTES + MAX_PACKET_HEADER_BYTES
    modifies buffer
    ensures p == |CFragmentBytes(sequence, header, numFragments, fragmentId)| <= FRAGMENT_HEADER_BYTES
            + MAX_PACKET_HEADER_BYTES
    ensures buffer[..p] == CFragmentBytes(sequence, header, numFragments, fragmentId)
  {
    p := WriteUint8(buffer, 0, 1);
    p := WriteUint16(buffer, p, sequence);
    p := WriteUint8(buffer, p, Cast8(fragmentId));
    p := WriteUint8(buffer, p, Cast8(numFragments - 1));
    if fragmentId == 0 {
      p := CopyAt(buffer, p, header);
    }
  }

  /** `memcpy` to the cursor. */
  method CopyAt(buffer: array<byte>, p: nat, data: bytes) returns (next: nat)
    requires p + |data| <= buffer.Length
    modifies buffer
    ensures next == p + |data|
    ensures buffer[..next] == old(buffer[..p]) + data
  {
    ghost var before := buffer[..];
    CopyInto(buffer, p, data);
    next := p + |data|;
    assert buffer[..next] == before[..p] + data;
  }
}
