/** What the transmit closure is handed, told from the bytes alone; and the gate at the other end. */
module Transmitted {
  import opened Wrappers
  import opened Sequence
  import opened Codec
  import opened CodecLaws
  import opened Buffers
  import opened Reassembly
  import opened Protocol
  import opened Delivery

  // ---------------------------------------------------------------- what is handed over

  /** A packet that is not too large to travel whole: one datagram under the sequence of the packet, whose header reads
      as that sequence with the acks of the sender, and the packet behind it. */
  lemma SendsWhole(c: Config, st: State, packet: bytes)
    requires c.Valid() && Sized(c, st) && 0 < |packet| <= c.fragmentAbove && !st.sent.Stale(st.sequence)
    ensures var sent := Send(c, st, packet).sent;
            && |sent| == 1 && sent[0].sequence == st.sequence
            && var g := DecodeHeader(sent[0].data);
               && g.Some? && g.value.size <= |sent[0].data| && sent[0].data[g.value.size..] == packet
               && g.value.sequence == st.sequence
               && g.value.ack == st.received.Ack() && g.value.ackBits == st.received.AckBits()
  {
    hide EncodeHeader, DecodeHeader, Buffer.AckBits, Buffer.Ack, Buffer.Insert;
    RegularReads(st.sequence, st.received.Ack(), st.received.AckBits(), packet);
  }

  /** What a datagram carries behind its headers, if it reads as a fragment. */
  function PayloadIn(c: Config, data: bytes): bytes {
    match DecodeFragment(data, c.maxFragments, c.fragmentSize)
    case None => []
    case Some(f) => FragmentPayload(data, f)
  }

  /** The payloads of some datagrams, laid end to end. */
  function Payloads(c: Config, sent: seq<Transmission>): bytes {
    if sent == [] then [] else Payloads(c, sent[..|sent| - 1]) + PayloadIn(c, sent[|sent| - 1].data)
  }

  /** A larger packet: as many datagrams as there are fragments, all under the sequence of the packet; number `i` reads
      as fragment `i` of that total, fragment 0 with the acks of the sender; and the payloads laid end to end are the
      packet. */
  lemma SendsFragments(c: Config, st: State, packet: bytes)
    requires c.Valid() && Sized(c, st) && c.fragmentAbove < |packet| <= c.maxPacketSize
    requires !st.sent.Stale(st.sequence)
    ensures var sent, n := Send(c, st, packet).sent, NumFragments(|packet|, c.fragmentSize);
            && |sent| == n && Payloads(c, sent) == packet
            && forall i :: 0 <= i < n ==>
                 && sent[i].sequence == st.sequence
                 && var f := DecodeFragment(sent[i].data, c.maxFragments, c.fragmentSize);
                    && f.Some? && f.value.id == i && f.value.total == n && f.value.sequence == st.sequence
                    && f.value.ack == (if i == 0 then st.received.Ack() else 0)
                    && f.value.ackBits == (if i == 0 then st.received.AckBits() else 0)
  {
    hide EncodeFragment, DecodeFragment, FragmentDatagram, NumFragments, FragmentPayload, Chunk, Buffer.AckBits,
         Buffer.Ack, Buffer.Insert, Payloads;
    LegalPacketsFit(c, |packet|);
    var sent, n := Send(c, st, packet).sent, NumFragments(|packet|, c.fragmentSize);
    forall i | 0 <= i < n
      ensures i * c.fragmentSize <= |packet|
      ensures DecodeFragment(sent[i].data, c.maxFragments, c.fragmentSize)
              == Some(FragmentOf(st.sequence, st.received.Ack(), st.received.AckBits(), n, i))
      ensures PayloadIn(c, sent[i].data) == Chunk(packet, i, c.fragmentSize)
    {
      FragmentReads(c, st.sequence, st.received.Ack(), st.received.AckBits(), packet, i);
    }
    PayloadsJoin(c, sent, packet, n);
    FragmentsConcatenate(packet, n, c.fragmentSize);
    assert sent[..n] == sent;
  }

  lemma {:induction false} PayloadsJoin(c: Config, sent: seq<Transmission>, packet: bytes, n: nat)
    requires |packet| > 0 && c.fragmentSize > 0 && n <= |sent| == NumFragments(|packet|, c.fragmentSize)
    requires forall i: nat :: i < n ==>
               i * c.fragmentSize <= |packet| && PayloadIn(c, sent[i].data) == Chunk(packet, i, c.fragmentSize)
    ensures Payloads(c, sent[..n]) == Joined(packet, n, c.fragmentSize)
  {
    hide PayloadIn, Chunk, NumFragments;
    if n > 0 {
      PayloadsJoin(c, sent, packet, n - 1);
      assert sent[..n][..n - 1] == sent[..n - 1];
    }
  }

  /** A packet that is too large is only counted. */
  lemma SendsNothing(c: Config, st: State, packet: bytes)
    requires c.Valid() && Sized(c, st) && |packet| > c.maxPacketSize && !st.sent.Stale(st.sequence)
    ensures var r := Send(c, st, packet);
            && r.sent == []
            && r.state == st.(counters := st.counters.(packetsTooLargeToSend := st.counters.packetsTooLargeToSend + 1))
  {
  }

  // ---------------------------------------------------------------- the gate

  /** A datagram of more than the largest packet and the longest two headers, 9 and 5 bytes, is counted as too large to
      receive, and nothing else happens. */
  lemma TooLongIsOnlyCounted(c: Config, st: State, data: bytes, process: Process)
    requires c.Valid() && Sized(c, st) && ReassemblyInv(c, st.reassembly) && |data| > c.maxPacketSize + 9 + 5
    ensures var n := st.counters.packetsTooLargeToReceive;
            Receive(c, st, data, process)
            == Receiving(st.(counters := st.counters.(packetsTooLargeToReceive := n + 1)), [])
  {
  }

  /** The packet of the largest size, all zeroes, with an ack that is far behind and no acks: the longest header. */
  function LongestFragment(c: Config, s: u16): seq<bytes>
    requires c.Valid()
  {
    Datagrams(c, s, Wrap(s - 256), 0, Zeros(c.maxPacketSize))
  }

  /** The gate is not too wide: where a packet of the largest size travels in one fragment, that fragment may be as long
      as the gate allows. So no narrower gate lets every datagram in that a peer may send. */
  lemma GateIsReached(c: Config, s: u16)
    requires c.Valid() && c.fragmentAbove < c.maxPacketSize <= c.fragmentSize
    ensures |LongestFragment(c, s)| == 1
    ensures |LongestFragment(c, s)[0]| == c.maxPacketSize + 9 + 5
    ensures c.LongestDatagram() == c.maxPacketSize + 9 + 5
  {
    hide EncodeHeader;
    var packet := Zeros(c.maxPacketSize);
    OneFragment(c.maxPacketSize, c.fragmentSize);
    assert Chunk(packet, 0, c.fragmentSize) == packet;
    FarAck(s);
    EncodedLength(s, Wrap(s - 256), 0);
  }

  lemma FarAck(s: u16)
    ensures Wrap(s - Wrap(s - 256)) == 256
  {
  }

  lemma OneFragment(size: nat, fragmentSize: nat)
    requires 0 < size <= fragmentSize
    ensures NumFragments(size, fragmentSize) == 1
  {
    FragmentBounds(size, fragmentSize);
    var n := NumFragments(size, fragmentSize);
    if n >= 2 {
      Monotone(1, n - 1, fragmentSize);
    }
  }
}
