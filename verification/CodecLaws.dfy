/** What the wire format promises: every header survives a round trip whatever follows it, encodings are
    unambiguous and unique, and a receiver accepts exactly the fragments a sender can produce. */
module CodecLaws {
  import opened Wrappers
  import opened Sequence
  import opened Codec

  function PrefixOf(b1: bool, b2: bool, b3: bool, b4: bool, b5: bool): byte {
    2 * BitValue(b1) + 4 * BitValue(b2) + 8 * BitValue(b3) + 16 * BitValue(b4) + 32 * BitValue(b5)
  }

  lemma BitsOfPrefix(b1: bool, b2: bool, b3: bool, b4: bool, b5: bool)
    ensures var p := PrefixOf(b1, b2, b3, b4, b5);
            !Bit(p, 0) && Bit(p, 1) == b1 && Bit(p, 2) == b2 && Bit(p, 3) == b3 && Bit(p, 4) == b4 && Bit(p, 5) == b5
            && !Bit(p, 6) && !Bit(p, 7)
  {
    var p := PrefixOf(b1, b2, b3, b4, b5);
    var p1 := BitValue(b1) + 2 * BitValue(b2) + 4 * BitValue(b3) + 8 * BitValue(b4) + 16 * BitValue(b5);
    var p2 := BitValue(b2) + 2 * BitValue(b3) + 4 * BitValue(b4) + 8 * BitValue(b5);
    var p3 := BitValue(b3) + 2 * BitValue(b4) + 4 * BitValue(b5);
    var p4 := BitValue(b4) + 2 * BitValue(b5);
    assert p / 2 == p1 && p1 / 2 == p2 && p2 / 2 == p3 && p3 / 2 == p4 && p4 / 2 == BitValue(b5);
    BitByBit(p);
  }

  lemma BitByBit(x: nat)
    ensures Bit(x, 1) == Bit(x / 2, 0) && Bit(x, 2) == Bit(x / 2 / 2, 0) && Bit(x, 3) == Bit(x / 2 / 2 / 2, 0)
    ensures Bit(x, 4) == Bit(x / 2 / 2 / 2 / 2, 0) && Bit(x, 5) == Bit(x / 2 / 2 / 2 / 2 / 2, 0)
    ensures Bit(x, 6) == Bit(x / 2 / 2 / 2 / 2 / 2 / 2, 0) && Bit(x, 7) == Bit(x / 2 / 2 / 2 / 2 / 2 / 2 / 2, 0)
  {
  }

  lemma PrefixBits(sequence: u16, ack: u16, ackBits: u32)
    ensures var p := Prefix(sequence, ack, ackBits);
            && !Bit(p, 0) && !Bit(p, 6) && !Bit(p, 7)
            && (Bit(p, 1) <==> Transmitted(ackBits, 0))
            && (Bit(p, 2) <==> Transmitted(ackBits, 1))
            && (Bit(p, 3) <==> Transmitted(ackBits, 2))
            && (Bit(p, 4) <==> Transmitted(ackBits, 3))
            && (Bit(p, 5) <==> RelativeAck(sequence, ack))
  {
    BitsOfPrefix(Transmitted(ackBits, 0), Transmitted(ackBits, 1), Transmitted(ackBits, 2), Transmitted(ackBits, 3),
                 RelativeAck(sequence, ack));
  }

  /** The length of an encoding, from the three values alone. */
  lemma EncodedLength(sequence: u16, ack: u16, ackBits: u32)
    ensures |EncodeHeader(sequence, ack, ackBits)| ==
            4 + BitValue(Wrap(sequence - ack) > 255) + BitValue(ByteOf(ackBits, 0) != 255)
              + BitValue(ByteOf(ackBits, 1) != 255)
              + BitValue(ByteOf(ackBits, 2) != 255) + BitValue(ByteOf(ackBits, 3) != 255)
    ensures |EncodeHeader(sequence, ack, ackBits)| == HeaderLength(Prefix(sequence, ack, ackBits))
  {
    PrefixBits(sequence, ack, ackBits);
  }

  /** Each transmitted byte sits behind the transmitted bytes before it. */
  lemma FourBytesReadBack(front: bytes, b0: byte, b1: byte, b2: byte, b3: byte, rest: bytes)
    ensures var data := front + FourBytes(b0, b1, b2, b3) + rest;
            var p1 := |front| + BitValue(b0 != 255);
            var p2 := p1 + BitValue(b1 != 255);
            var p3 := p2 + BitValue(b2 != 255);
            && |data| == p3 + BitValue(b3 != 255) + |rest|
            && (b0 != 255 ==> data[|front|] == b0)
            && (b1 != 255 ==> data[p1] == b1)
            && (b2 != 255 ==> data[p2] == b2)
            && (b3 != 255 ==> data[p3] == b3)
  {
  }

  lemma AckBytesReadBack(data: bytes, front: bytes, b0: byte, b1: byte, b2: byte, b3: byte, rest: bytes)
    requires data == front + FourBytes(b0, b1, b2, b3) + rest && |front| > 0
    requires |front| == AckBytesStart(data[0])
    requires Bit(data[0], 1) == (b0 != 255) && Bit(data[0], 2) == (b1 != 255)
    requires Bit(data[0], 3) == (b2 != 255) && Bit(data[0], 4) == (b3 != 255)
    ensures |data| >= HeaderLength(data[0])
    ensures ReadAckByte(data, 0) == b0 && ReadAckByte(data, 1) == b1
    ensures ReadAckByte(data, 2) == b2 && ReadAckByte(data, 3) == b3
  {
    FourBytesReadBack(front, b0, b1, b2, b3, rest);
  }

  /** The ack bits read back from where the layout put them. */
  lemma AckBitsReadBack(sequence: u16, ack: u16, ackBits: u32, rest: bytes)
    ensures var data := EncodeHeader(sequence, ack, ackBits) + rest;
            |data| >= HeaderLength(data[0]) && ReadAckBits(data) == ackBits
  {
    PrefixBits(sequence, ack, ackBits);
    var front := [Prefix(sequence, ack, ackBits)] + Le16(sequence) + AckField(sequence, ack);
    var data := EncodeHeader(sequence, ack, ackBits) + rest;
    assert data == front + AckBytes(ackBits) + rest && data[0] == front[0];
    AckBytesReadBack(data, front,
                     ByteOf(ackBits, 0), ByteOf(ackBits, 1), ByteOf(ackBits, 2), ByteOf(ackBits, 3), rest);
    WordOfBytes(ackBits);
  }

  lemma Le16RoundTrip(x: u16)
    ensures U16(x % 256, x / 256) == x
  {
  }

  lemma U16RoundTrip(low: byte, high: byte)
    ensures Le16(U16(low, high)) == [low, high]
  {
  }

  lemma RelativeRoundTrip(sequence: u16, ack: u16)
    ensures Wrap(sequence - Wrap(sequence - ack)) == ack
  {
  }

  /** The fields in front of the ack bits sit at fixed places. */
  lemma FrontInPlace(prefix: byte, low: byte, high: byte, ackField: bytes, rest: bytes)
    requires |ackField| == 1 || |ackField| == 2
    ensures var data := [prefix] + [low, high] + ackField + rest;
            && |data| >= 3 + |ackField| && data[0] == prefix && data[1] == low && data[2] == high
            && data[3] == ackField[0] && (|ackField| == 2 ==> data[4] == ackField[1])
  {
  }

  lemma ReadAckIs(data: bytes, sequence: u16, ack: u16)
    requires |data| > 0 && |data| >= HeaderLength(data[0])
    requires U16(data[1], data[2]) == sequence
    requires Bit(data[0], 5) ==> data[3] == Wrap(sequence - ack)
    requires !Bit(data[0], 5) ==> data[3] == ack % 256 && data[4] == ack / 256
    ensures ReadAck(data) == ack
  {
    if Bit(data[0], 5) {
      RelativeRoundTrip(sequence, ack);
    } else {
      Le16RoundTrip(ack);
    }
  }

  lemma FrontReadsBack(sequence: u16, ack: u16, ackBits: u32, rest: bytes)
    ensures var data := EncodeHeader(sequence, ack, ackBits) + rest;
            && |data| >= 4 && data[0] == Prefix(sequence, ack, ackBits)
            && data[1] == sequence % 256 && data[2] == sequence / 256
            && data[3] == AckField(sequence, ack)[0]
            && (|AckField(sequence, ack)| == 2 ==> |data| >= 5 && data[4] == AckField(sequence, ack)[1])
  {
    var data := EncodeHeader(sequence, ack, ackBits) + rest;
    var prefix, field := Prefix(sequence, ack, ackBits), AckField(sequence, ack);
    FrontInPlace(prefix, sequence % 256, sequence / 256, field, AckBytes(ackBits) + rest);
    assert data == [prefix] + [sequence % 256, sequence / 256] + field + (AckBytes(ackBits) + rest);
  }

  lemma AckReadsBack(sequence: u16, ack: u16, ackBits: u32, rest: bytes)
    ensures var data := EncodeHeader(sequence, ack, ackBits) + rest;
            && |data| >= HeaderLength(data[0]) == |EncodeHeader(sequence, ack, ackBits)|
            && U16(data[1], data[2]) == sequence && ReadAck(data) == ack && !Bit(data[0], 0)
  {
    PrefixBits(sequence, ack, ackBits);
    EncodedLength(sequence, ack, ackBits);
    FrontReadsBack(sequence, ack, ackBits, rest);
    Le16RoundTrip(sequence);
    ReadAckIs(EncodeHeader(sequence, ack, ackBits) + rest, sequence, ack);
  }

  /** Reading recovers exactly what was written, and consumes exactly what was written, whatever follows. */
  lemma HeaderRoundTrip(sequence: u16, ack: u16, ackBits: u32, rest: bytes)
    ensures var header := EncodeHeader(sequence, ack, ackBits);
            DecodeHeader(header + rest) == Some(PacketHeader(|header|, sequence, ack, ackBits))
  {
    AckReadsBack(sequence, ack, ackBits, rest);
    AckBitsReadBack(sequence, ack, ackBits, rest);
  }

  /** No encoding is a prefix of another one, so none is shared by two different triples. */
  lemma EncodingsArePrefixFree(s1: u16, a1: u16, b1: u32, s2: u16, a2: u16, b2: u32, rest1: bytes, rest2: bytes)
    requires EncodeHeader(s1, a1, b1) + rest1 == EncodeHeader(s2, a2, b2) + rest2
    ensures s1 == s2 && a1 == a2 && b1 == b2 && rest1 == rest2
  {
    HeaderRoundTrip(s1, a1, b1, rest1);
    HeaderRoundTrip(s2, a2, b2, rest2);
    var n := |EncodeHeader(s1, a1, b1)|;
    assert rest1 == (EncodeHeader(s1, a1, b1) + rest1)[n..];
    assert rest2 == (EncodeHeader(s2, a2, b2) + rest2)[n..];
  }

  /** Ack-bits byte `i` travels although it is all ones. */
  predicate WastedByte(data: bytes, i: nat)
    requires i < 4 && |data| > 0 && |data| >= HeaderLength(data[0])
  {
    Bit(data[0], i + 1) && ReadAckByte(data, i) == 255
  }

  /** The ack travels in two bytes although it is within reach of the one-byte form. */
  predicate WastedAck(data: bytes)
    requires |data| > 0 && |data| >= HeaderLength(data[0])
  {
    !Bit(data[0], 5) && RelativeAck(U16(data[1], data[2]), ReadAck(data))
  }

  /** A header that reads but spends bits or bytes it could have spared. */
  predicate Wasteful(data: bytes)
    requires |data| > 0 && |data| >= HeaderLength(data[0])
  {
    || Bit(data[0], 6) || Bit(data[0], 7)
    || WastedByte(data, 0) || WastedByte(data, 1) || WastedByte(data, 2) || WastedByte(data, 3)
    || WastedAck(data)
  }

  /** The canonical headers among those that read are exactly the ones that waste nothing. */
  lemma CanonicalExactlyWhenNotWasteful(data: bytes)
    requires DecodeHeader(data).Some?
    ensures var h := DecodeHeader(data).value;
            && |data| >= h.size == HeaderLength(data[0])
            && (EncodeHeader(h.sequence, h.ack, h.ackBits) == data[..h.size] <==> !Wasteful(data))
  {
    hide Bit, U16, Wrap, Word, ByteOf, FourBytes;
    var h := DecodeHeader(data).value;
    var sequence, ack, ackBits := h.sequence, h.ack, h.ackBits;
    BytesRead(data, ackBits);
    PrefixBits(sequence, ack, ackBits);
    if EncodeHeader(sequence, ack, ackBits) == data[..HeaderLength(data[0])] {
      assert Prefix(sequence, ack, ackBits) == data[..HeaderLength(data[0])][0] == data[0];
    } else if !Wasteful(data) {
      var start, size := AckBytesStart(data[0]), HeaderLength(data[0]);
      assert Prefix(sequence, ack, ackBits) == data[0] by {
        ShortFormIsNear(sequence, data[3]);
        SameBitsSameByte(Prefix(sequence, ack, ackBits), data[0]);
      }
      assert Le16(sequence) == data[1..3] by { U16RoundTrip(data[1], data[2]); }
      assert AckField(sequence, ack) == data[3..start] by { SameAckField(Bit(data[0], 5), sequence, data[3..start]); }
      assert AckBytes(ackBits) == data[start..size] by {
        AckBytesInPlace(data, start, Bit(data[0], 1), Bit(data[0], 2), Bit(data[0], 3), Bit(data[0], 4),
                        ReadAckByte(data, 0), ReadAckByte(data, 1), ReadAckByte(data, 2), ReadAckByte(data, 3));
      }
      FieldsInPlace(data, size, start, [data[0]], Le16(sequence), AckField(sequence, ack), AckBytes(ackBits));
    }
  }

  /** A header with an unused prefix bit set, one with an all-ones ack-bits byte, and one with the long form of a near
      ack: each reads as packet 1 with ack 0 and all ack bits set, and none is what the encoder writes. */
  function UnusedBitSet(): bytes {
    [0x60, 1, 0, 1]
  }

  function AllOnesByte(): bytes {
    [0x22, 1, 0, 1, 255]
  }

  function LongFormAck(): bytes {
    [0, 1, 0, 0, 0]
  }

  lemma ReadsButIsNotCanonical(data: bytes)
    requires data == UnusedBitSet() || data == AllOnesByte() || data == LongFormAck()
    ensures DecodeHeader(data) == Some(PacketHeader(|data|, 1, 0, 0xFFFF_FFFF))
    ensures Wasteful(data) && EncodeHeader(1, 0, 0xFFFF_FFFF) != data
    ensures EncodeHeader(1, 0, 0xFFFF_FFFF) == [0x20, 1, 0, 1]
  {
    hide DecodeHeader, EncodeHeader, Wasteful;
    ReadsUnusedBit();
    ReadsAllOnes();
    ReadsLongForm();
    EncodesShort();
  }

  lemma EncodesShort()
    ensures EncodeHeader(1, 0, 0xFFFF_FFFF) == [0x20, 1, 0, 1]
  {
  }

  lemma ReadsUnusedBit()
    ensures DecodeHeader(UnusedBitSet()) == Some(PacketHeader(4, 1, 0, 0xFFFF_FFFF)) && Wasteful(UnusedBitSet())
  {
    BitByBit(UnusedBitSet()[0]);
  }

  lemma ReadsAllOnes()
    ensures DecodeHeader(AllOnesByte()) == Some(PacketHeader(5, 1, 0, 0xFFFF_FFFF)) && Wasteful(AllOnesByte())
  {
    BitByBit(AllOnesByte()[0]);
  }

  lemma ReadsLongForm()
    ensures DecodeHeader(LongFormAck()) == Some(PacketHeader(5, 1, 0, 0xFFFF_FFFF)) && Wasteful(LongFormAck())
  {
    BitByBit(LongFormAck()[0]);
  }

  /** What follows a header does not change how it reads. */
  lemma SuffixIgnored(data: bytes, rest: bytes)
    requires DecodeHeader(data).Some?
    ensures DecodeHeader(data + rest) == DecodeHeader(data)
  {
    hide Bit;
    forall i | 0 <= i < |data|
      ensures (data + rest)[i] == data[i]
    {
    }
  }

  lemma ReadsAsRegular(data: bytes)
    requires DecodeHeader(data).Some?
    ensures |data| > 0 && data[0] % 2 == 0
  {
  }

  /** No header that reads alike is shorter than the canonical one. */
  lemma CanonicalIsShortest(data: bytes)
    requires DecodeHeader(data).Some?
    ensures var h := DecodeHeader(data).value;
            |EncodeHeader(h.sequence, h.ack, h.ackBits)| <= h.size <= |data|
  {
    hide EncodeHeader, Bit;
    var h := DecodeHeader(data).value;
    EncodedLength(h.sequence, h.ack, h.ackBits);
    BytesRead(data, h.ackBits);
    ShortFormIsNear(h.sequence, data[3]);
  }

  lemma BytesRead(data: bytes, ackBits: u32)
    requires |data| > 0 && |data| >= HeaderLength(data[0]) && ackBits == ReadAckBits(data)
    ensures ByteOf(ackBits, 0) == ReadAckByte(data, 0) && ByteOf(ackBits, 1) == ReadAckByte(data, 1)
    ensures ByteOf(ackBits, 2) == ReadAckByte(data, 2) && ByteOf(ackBits, 3) == ReadAckByte(data, 3)
  {
    BytesOfWord(ReadAckByte(data, 0), ReadAckByte(data, 1), ReadAckByte(data, 2), ReadAckByte(data, 3));
  }

  /** What the one-byte form can say is within its reach. */
  lemma ShortFormIsNear(sequence: u16, difference: byte)
    ensures RelativeAck(sequence, Wrap(sequence - difference))
  {
    RelativeBack(sequence, difference);
  }

  lemma FieldsInPlace(data: bytes, size: nat, start: nat, f0: bytes, f1: bytes, f2: bytes, f3: bytes)
    requires 3 <= start <= size <= |data|
    requires f0 == [data[0]] && f1 == data[1..3] && f2 == data[3..start] && f3 == data[start..size]
    ensures f0 + f1 + f2 + f3 == data[..size]
  {
  }

  /** The ack field of a header that uses the one-byte form exactly when it can. */
  lemma SameAckField(short: bool, sequence: u16, field: bytes)
    requires |field| == if short then 1 else 2
    requires var ack := if short then Wrap(sequence - field[0]) else U16(field[0], field[1]);
             short <==> RelativeAck(sequence, ack)
    ensures AckField(sequence, if short then Wrap(sequence - field[0]) else U16(field[0], field[1])) == field
  {
    if short {
      ShortAck(sequence, field[0]);
    } else {
      LongAck(sequence, field[0], field[1]);
    }
  }

  lemma ShortAck(sequence: u16, difference: byte)
    ensures AckField(sequence, Wrap(sequence - difference)) == [difference]
  {
    RelativeBack(sequence, difference);
  }

  lemma LongAck(sequence: u16, low: byte, high: byte)
    requires !RelativeAck(sequence, U16(low, high))
    ensures AckField(sequence, U16(low, high)) == [low, high]
  {
    U16RoundTrip(low, high);
  }

  lemma RelativeBack(sequence: u16, difference: byte)
    ensures Wrap(sequence - Wrap(sequence - difference)) == difference
  {
  }

  /** Four ack-bits bytes, each there if its flag is set and all ones otherwise, and none of the former all ones. */
  lemma AckBytesInPlace(data: bytes, start: nat, f0: bool, f1: bool, f2: bool, f3: bool,
                        b0: byte, b1: byte, b2: byte, b3: byte)
    requires start + BitValue(f0) + BitValue(f1) + BitValue(f2) + BitValue(f3) <= |data|
    requires b0 == (if f0 then data[start] else 255)
    requires b1 == (if f1 then data[start + BitValue(f0)] else 255)
    requires b2 == (if f2 then data[start + BitValue(f0) + BitValue(f1)] else 255)
    requires b3 == (if f3 then data[start + BitValue(f0) + BitValue(f1) + BitValue(f2)] else 255)
    requires f0 == (b0 != 255) && f1 == (b1 != 255) && f2 == (b2 != 255) && f3 == (b3 != 255)
    ensures FourBytes(b0, b1, b2, b3)
            == data[start..start + BitValue(f0) + BitValue(f1) + BitValue(f2) + BitValue(f3)]
  {
    var part := data[start..start + BitValue(f0) + BitValue(f1) + BitValue(f2) + BitValue(f3)];
    FourBytesInPlace(part, b0, b1, b2, b3);
  }

  lemma FourBytesInPlace(data: bytes, b0: byte, b1: byte, b2: byte, b3: byte)
    requires var p1 := BitValue(b0 != 255);
             var p2 := p1 + BitValue(b1 != 255);
             var p3 := p2 + BitValue(b2 != 255);
             && |data| == p3 + BitValue(b3 != 255)
             && (b0 != 255 ==> data[0] == b0) && (b1 != 255 ==> data[p1] == b1)
             && (b2 != 255 ==> data[p2] == b2) && (b3 != 255 ==> data[p3] == b3)
    ensures data == FourBytes(b0, b1, b2, b3)
  {
    FourBytesReadBack([], b0, b1, b2, b3, []);
    assert [] + FourBytes(b0, b1, b2, b3) + [] == FourBytes(b0, b1, b2, b3);
  }

  // ---------------------------------------------------------------- fragments

  lemma EmbeddedRoundTrip(sequence: u16, ack: u16, ackBits: u32, rest: bytes)
    ensures var header := EncodeHeader(sequence, ack, ackBits);
            DecodeEmbedded(header + rest, sequence) == Some(PacketHeader(|header|, sequence, ack, ackBits))
  {
    HeaderRoundTrip(sequence, ack, ackBits, rest);
    var header := EncodeHeader(sequence, ack, ackBits);
    assert (header + rest)[..|header|] == header;
  }

  lemma EmbeddedReadsBack(f: FragmentHeader, payload: bytes)
    requires f.id != 0 ==> f.ack == 0 && f.ackBits == 0
    ensures DecodeOptionalHeader(f.id, EmbeddedHeader(f) + payload, f.sequence)
            == Some(PacketHeader(|EmbeddedHeader(f)|, f.sequence, f.ack, f.ackBits))
  {
    if f.id == 0 {
      EmbeddedRoundTrip(f.sequence, f.ack, f.ackBits, payload);
    }
  }

  /** A legal fragment is read back as sent. */
  lemma FragmentRoundTrip(f: FragmentHeader, payload: bytes, maxFragments: nat, fragmentSize: nat)
    requires LegalFragment(f, payload, maxFragments, fragmentSize)
    ensures DecodeFragment(EncodeFragment(f, payload), maxFragments, fragmentSize) == Some(f)
    ensures EncodeFragment(f, payload)[FRAGMENT_HEADER_BYTES..] == EmbeddedHeader(f) + payload
  {
    hide EncodeHeader, EmbeddedHeader, DecodeOptionalHeader;
    var data := EncodeFragment(f, payload);
    var front := [1] + Le16(f.sequence) + [f.id, f.total - 1];
    assert data == front + (EmbeddedHeader(f) + payload);
    assert data[FRAGMENT_HEADER_BYTES..] == EmbeddedHeader(f) + payload;
    assert data[0] == front[0] && data[1] == front[1] && data[2] == front[2] && data[3] == front[3]
           && data[4] == front[4];
    Le16RoundTrip(f.sequence);
    EmbeddedReadsBack(f, payload);
  }

  /** The data a decoded fragment carries. */
  function FragmentPayload(data: bytes, f: FragmentHeader): bytes {
    if |data| < FRAGMENT_HEADER_BYTES + |EmbeddedHeader(f)| then []
    else data[FRAGMENT_HEADER_BYTES + |EmbeddedHeader(f)|..]
  }

  lemma AcceptedFront(data: bytes, maxFragments: nat, fragmentSize: nat)
    requires DecodeFragment(data, maxFragments, fragmentSize).Some?
    ensures var f := DecodeFragment(data, maxFragments, fragmentSize).value;
            f.id < f.total <= 256 && data[..FRAGMENT_HEADER_BYTES] == [1] + Le16(f.sequence) + [f.id, f.total - 1]
  {
    var f := DecodeFragment(data, maxFragments, fragmentSize).value;
    U16RoundTrip(data[1], data[2]);
    assert data[..FRAGMENT_HEADER_BYTES] == [data[0]] + [data[1], data[2]] + [data[3], data[4]];
  }

  lemma AcceptedOptionalHeader(id: nat, data: bytes, sequence: u16, h: PacketHeader)
    requires DecodeOptionalHeader(id, data, sequence) == Some(h)
    ensures h.size <= |data| && (id != 0 ==> h.ack == 0 && h.ackBits == 0)
    ensures data[..h.size] == if id == 0 then EncodeHeader(sequence, h.ack, h.ackBits) else []
  {
  }

  lemma AcceptedBody(data: bytes, maxFragments: nat, fragmentSize: nat)
    requires DecodeFragment(data, maxFragments, fragmentSize).Some?
    ensures var f := DecodeFragment(data, maxFragments, fragmentSize).value;
            && data[FRAGMENT_HEADER_BYTES..] == EmbeddedHeader(f) + FragmentPayload(data, f)
            && LegalFragment(f, FragmentPayload(data, f), maxFragments, fragmentSize)
  {
    var f := DecodeFragment(data, maxFragments, fragmentSize).value;
    var body := data[FRAGMENT_HEADER_BYTES..];
    var h := DecodeOptionalHeader(f.id, body, f.sequence).value;
    AcceptedOptionalHeader(f.id, body, f.sequence, h);
    var embedded := EmbeddedHeader(f);
    assert embedded == body[..h.size] && |embedded| == h.size;
    assert FragmentPayload(data, f) == body[h.size..];
  }

  /** A receiver accepts nothing but legal fragments, byte for byte as a sender writes them. */
  lemma AcceptedFragmentIsLegal(data: bytes, maxFragments: nat, fragmentSize: nat)
    requires DecodeFragment(data, maxFragments, fragmentSize).Some?
    ensures var f := DecodeFragment(data, maxFragments, fragmentSize).value;
            && LegalFragment(f, FragmentPayload(data, f), maxFragments, fragmentSize)
            && data == EncodeFragment(f, FragmentPayload(data, f))
            && data[FRAGMENT_HEADER_BYTES..] == EmbeddedHeader(f) + FragmentPayload(data, f)
  {
    AcceptedFront(data, maxFragments, fragmentSize);
    AcceptedBody(data, maxFragments, fragmentSize);
    assert data == data[..FRAGMENT_HEADER_BYTES] + data[FRAGMENT_HEADER_BYTES..];
  }

  /** Both directions: the accepted datagrams are exactly the encodings of legal fragments. */
  lemma AcceptedExactlyTheLegalFragments(data: bytes, f: FragmentHeader, maxFragments: nat, fragmentSize: nat)
    ensures DecodeFragment(data, maxFragments, fragmentSize) == Some(f)
            <==> exists payload :: LegalFragment(f, payload, maxFragments, fragmentSize)
                                   && data == EncodeFragment(f, payload)
  {
    if DecodeFragment(data, maxFragments, fragmentSize) == Some(f) {
      AcceptedFragmentIsLegal(data, maxFragments, fragmentSize);
    }
    forall payload | LegalFragment(f, payload, maxFragments, fragmentSize) && data == EncodeFragment(f, payload)
      ensures DecodeFragment(data, maxFragments, fragmentSize) == Some(f)
    {
      FragmentRoundTrip(f, payload, maxFragments, fragmentSize);
    }
  }
}
