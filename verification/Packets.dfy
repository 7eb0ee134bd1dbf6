/**
 The packets the translator synthesises, src/nat64/packet.go and
 buildIPv6ICMPErrorPacket of src/nat64/icmperr.go, written field by field into
 a buffer: every one of them verifies and carries what it was built from.
 */
module Packets {
  import opened Octets
  import opened Buffers
  import opened InternetChecksum

  const HOP_LIMIT := 64

  // ---------------------------------------------------------------------
  // The fixed IPv6 header.

  function HeaderAt(buf: seq<byte>, base: nat, plen: uint16, next: byte, hops: byte, src: Octets16, dst: Octets16): (r: seq<byte>)
    requires base + 40 <= |buf|
    ensures |r| == |buf|
  {
    var a := Put(Put(buf, base, [0x60]), base + 4, Be16(plen));
    Put(Put(Put(a, base + 6, [next, hops]), base + 8, src), base + 24, dst)
  }

  /** What a reader finds in the header, and that nothing else was touched. */
  lemma HeaderLayout(buf: seq<byte>, base: nat, plen: uint16, next: byte, hops: byte, src: Octets16, dst: Octets16)
    requires base + 40 <= |buf|
    ensures var r := HeaderAt(buf, base, plen, next, hops, src, dst);
            && r[base] == 0x60 && r[base + 4..base + 6] == Be16(plen) && r[base + 6] == next && r[base + 7] == hops
            && r[base + 8..base + 24] == src && r[base + 24..base + 40] == dst
            && r[..base] == buf[..base] && r[base + 40..] == buf[base + 40..]
  {
    var len := Be16(plen);
    hide Be16;
  }

  method WriteHeader(p: array<byte>, base: nat, plen: uint16, next: byte, hops: byte, src: Octets16, dst: Octets16)
    requires base + 40 <= p.Length
    modifies p
    ensures p[..] == HeaderAt(old(p[..]), base, plen, next, hops, src, dst)
  {
    hide Put;
    Copy(p, base, [0x60]);
    Copy(p, base + 4, Be16(plen));
    Copy(p, base + 6, [next, hops]);
    Copy(p, base + 8, src);
    Copy(p, base + 24, dst);
  }

  /** A whole packet: a header, then a segment whose checksum field at `at` holds `cs`. */
  function Sealed(buf: seq<byte>, at: nat, cs: uint16): (r: seq<byte>)
    requires at + 2 <= |buf|
    ensures |r| == |buf|
  {
    Put(buf, at, Be16(cs))
  }

  /** With a zeroed checksum field, sealing a packet with its own checksum makes the segment verify. */
  lemma SealedVerifies(buf: seq<byte>, at: nat, src: Octets16, dst: Octets16, next: byte, orOnes: bool)
    requires 40 <= at && at + 2 <= |buf| && at % 2 == 0 && buf[at..at + 2] == [0, 0] && next > 0
    requires buf[8..24] == src && buf[24..40] == dst
    ensures var cs := Checksum(src, dst, next, buf[40..]);
            var r := Sealed(buf, at, if orOnes then NonZero(cs) else cs);
            && Checksum(src, dst, next, r[40..]) == 0
            && r[at..at + 2] == Be16(if orOnes then NonZero(cs) else cs)
            && r[..at] == buf[..at] && r[at + 2..] == buf[at + 2..]
  {
    var upper := buf[40..];
    assert upper[at - 40..at - 38] == buf[at..at + 2];
    PutSame(upper, at - 40, [0, 0]);
    StoredChecksumVerifies(src, dst, next, upper, at - 40);
    var cs := Checksum(src, dst, next, upper);
    var v := if orOnes then NonZero(cs) else cs;
    PutBehind(buf, at, Be16(v), 40);
    hide Checksum, Be16;
  }

  // ---------------------------------------------------------------------
  // UDP datagrams injected under endpoint-independent filtering.

  function UnsealedUdp(src: Octets16, dst: Octets16, srcPort: uint16, dstPort: uint16, payload: seq<byte>): (r: seq<byte>)
    requires |payload| <= TOP - 8
    ensures |r| == 48 + |payload|
  {
    var n := 8 + |payload|;
    var b := HeaderAt(Zeros(40 + n), 0, n, UDP, HOP_LIMIT, src, dst);
    Put(Put(Put(Put(b, 40, Be16(srcPort)), 42, Be16(dstPort)), 44, Be16(n)), 48, payload)
  }

  function UdpDatagram(src: Octets16, dst: Octets16, srcPort: uint16, dstPort: uint16, payload: seq<byte>): (r: seq<byte>)
    requires |payload| <= TOP - 8
    ensures |r| == 48 + |payload|
  {
    var b := UnsealedUdp(src, dst, srcPort, dstPort, payload);
    Sealed(b, 46, NonZero(Checksum(b[8..24], b[24..40], UDP, b[40..])))
  }

  method BuildUdpDatagram(src: Octets16, dst: Octets16, srcPort: uint16, dstPort: uint16, payload: seq<byte>)
    returns (p: array<byte>)
    requires |payload| <= TOP - 8
    ensures fresh(p) && p[..] == UdpDatagram(src, dst, srcPort, dstPort, payload)
  {
    hide Put, HeaderAt, Be16, Checksum;
    var n := 8 + |payload|;
    p := NewBuffer(40 + n);
    WriteHeader(p, 0, n, UDP, HOP_LIMIT, src, dst);
    Copy(p, 40, Be16(srcPort));
    Copy(p, 42, Be16(dstPort));
    Copy(p, 44, Be16(n));
    Copy(p, 48, payload);
    var cs := UpperLayerChecksum(p[..][8..24], p[..][24..40], UDP, p[..][40..]);
    if cs == 0 {
      cs := TOP;
    }
    Copy(p, 46, Be16(cs));
  }

  lemma UnsealedUdpLayout(src: Octets16, dst: Octets16, srcPort: uint16, dstPort: uint16, payload: seq<byte>)
    requires |payload| <= TOP - 8
    ensures var b := UnsealedUdp(src, dst, srcPort, dstPort, payload);
            && b[0] == 0x60 && b[4..6] == Be16(8 + |payload|) && b[6] == UDP && b[7] == 64 && b[8..24] == src && b[24..40] == dst
            && b[40..42] == Be16(srcPort) && b[42..44] == Be16(dstPort) && b[44..46] == Be16(8 + |payload|)
            && b[46..48] == [0, 0] && b[48..] == payload
  {
    var n := 8 + |payload|;
    HeaderLayout(Zeros(40 + n), 0, n, UDP, HOP_LIMIT, src, dst);
    hide HeaderAt, Be16;
  }

  /** An injected datagram verifies, never claims to have no checksum, and carries its ports, lengths and payload. */
  lemma UdpDatagramIsRight(src: Octets16, dst: Octets16, srcPort: uint16, dstPort: uint16, payload: seq<byte>)
    requires |payload| <= TOP - 8
    ensures var r := UdpDatagram(src, dst, srcPort, dstPort, payload);
            && Checksum(src, dst, UDP, r[40..]) == 0 && Word16(r, 46) != 0
            && r[0] == 0x60 && r[8..24] == src && r[24..40] == dst && r[6] == UDP && r[7] == 64
            && Word16(r, 4) == Word16(r, 44) == |r| - 40
            && Word16(r, 40) == srcPort && Word16(r, 42) == dstPort && r[48..] == payload
  {
    var b := UnsealedUdp(src, dst, srcPort, dstPort, payload);
    var r := UdpDatagram(src, dst, srcPort, dstPort, payload);
    UnsealedUdpLayout(src, dst, srcPort, dstPort, payload);
    SealedVerifies(b, 46, src, dst, UDP, true);
    hide UnsealedUdp, Sealed, Checksum, Be16, Word16;
    assert r[..46][4..6] == b[..46][4..6] && r[..46][40..42] == b[..46][40..42]
        && r[..46][42..44] == b[..46][42..44] && r[..46][44..46] == b[..46][44..46];
    Word16OfBe16(r, 4, 8 + |payload|);
    Word16OfBe16(r, 40, srcPort);
    Word16OfBe16(r, 42, dstPort);
    Word16OfBe16(r, 44, 8 + |payload|);
    Word16OfBe16(r, 46, NonZero(Checksum(src, dst, UDP, b[40..])));
    assert r[..46][8..24] == b[..46][8..24] && r[..46][24..40] == b[..46][24..40] && r[..46][6] == b[..46][6] && r[..46][7] == b[..46][7] && r[..46][0] == b[..46][0];
  }

  // ---------------------------------------------------------------------
  // Echo replies.

  const ECHO_REPLY := 129

  function UnsealedEchoReply(src: Octets16, dst: Octets16, id: uint16, sequence: uint16, data: seq<byte>): (r: seq<byte>)
    requires |data| <= TOP - 8
    ensures |r| == 48 + |data|
  {
    var n := 8 + |data|;
    var b := HeaderAt(Zeros(40 + n), 0, n, ICMPV6, HOP_LIMIT, src, dst);
    Put(Put(Put(Put(b, 40, [ECHO_REPLY, 0]), 44, Be16(id)), 46, Be16(sequence)), 48, data)
  }

  function EchoReply(src: Octets16, dst: Octets16, id: uint16, sequence: uint16, data: seq<byte>): (r: seq<byte>)
    requires |data| <= TOP - 8
    ensures |r| == 48 + |data|
  {
    var b := UnsealedEchoReply(src, dst, id, sequence, data);
    Sealed(b, 42, Checksum(b[8..24], b[24..40], ICMPV6, b[40..]))
  }

  method BuildEchoReply(src: Octets16, dst: Octets16, id: uint16, sequence: uint16, data: seq<byte>) returns (p: array<byte>)
    requires |data| <= TOP - 8
    ensures fresh(p) && p[..] == EchoReply(src, dst, id, sequence, data)
  {
    hide Put, HeaderAt, Be16, Checksum;
    var n := 8 + |data|;
    p := NewBuffer(40 + n);
    WriteHeader(p, 0, n, ICMPV6, HOP_LIMIT, src, dst);
    Copy(p, 40, [ECHO_REPLY, 0]);
    Copy(p, 44, Be16(id));
    Copy(p, 46, Be16(sequence));
    Copy(p, 48, data);
    var cs := UpperLayerChecksum(p[..][8..24], p[..][24..40], ICMPV6, p[..][40..]);
    Copy(p, 42, Be16(cs));
  }

  lemma UnsealedEchoReplyLayout(src: Octets16, dst: Octets16, id: uint16, sequence: uint16, data: seq<byte>)
    requires |data| <= TOP - 8
    ensures var b := UnsealedEchoReply(src, dst, id, sequence, data);
            && b[0] == 0x60 && b[4..6] == Be16(8 + |data|) && b[6] == ICMPV6 && b[7] == 64 && b[8..24] == src && b[24..40] == dst
            && b[40..42] == [ECHO_REPLY, 0] && b[42..44] == [0, 0]
            && b[44..46] == Be16(id) && b[46..48] == Be16(sequence) && b[48..] == data
  {
    var n := 8 + |data|;
    HeaderLayout(Zeros(40 + n), 0, n, ICMPV6, HOP_LIMIT, src, dst);
    hide HeaderAt, Be16;
  }

  /** A translated echo reply verifies and carries its addresses, identifier, sequence number and data. */
  lemma EchoReplyIsRight(src: Octets16, dst: Octets16, id: uint16, sequence: uint16, data: seq<byte>)
    requires |data| <= TOP - 8
    ensures var r := EchoReply(src, dst, id, sequence, data);
            && Checksum(src, dst, ICMPV6, r[40..]) == 0
            && r[0] == 0x60 && r[8..24] == src && r[24..40] == dst && r[6] == ICMPV6 && r[7] == 64 && r[40] == ECHO_REPLY && r[41] == 0
            && Word16(r, 4) == |r| - 40
            && Word16(r, 44) == id && Word16(r, 46) == sequence && r[48..] == data
  {
    var b := UnsealedEchoReply(src, dst, id, sequence, data);
    var r := EchoReply(src, dst, id, sequence, data);
    UnsealedEchoReplyLayout(src, dst, id, sequence, data);
    SealedVerifies(b, 42, src, dst, ICMPV6, false);
    hide UnsealedEchoReply, Sealed, Checksum, Be16, Word16;
    assert r[..42][4..6] == b[..42][4..6] && r[44..][..2] == b[44..][..2] && r[44..][2..4] == b[44..][2..4];
    Word16OfBe16(r, 4, 8 + |data|);
    Word16OfBe16(r, 44, id);
    Word16OfBe16(r, 46, sequence);
    assert r[..42][8..24] == b[..42][8..24] && r[..42][24..40] == b[..42][24..40] && r[..42][6] == b[..42][6] && r[..42][7] == b[..42][7] && r[..42][0] == b[..42][0];
    assert r[..42][40..] == b[40..42];
    assert r[44..][4..] == b[44..][4..];
  }
}
