/** Built packets on their way through fragmentation and reassembly. */
module EndToEnd {
  import opened Octets
  import opened InternetChecksum
  import opened Packets
  import opened Fragmentation
  import opened DatagramRun
  import Ipv6Chain
  import I = Interceptor
  import R = ReasmTable

  lemma EchoReplyIsCuttable(src: Octets16, dst: Octets16, id: uint16, sequence: uint16, data: seq<byte>, mtu: int)
    requires |data| <= TOP - 8 && 56 <= mtu < 48 + |data|
    ensures Cuttable(EchoReply(src, dst, id, sequence, data), mtu)
  {
    EchoReplyIsRight(src, dst, id, sequence, data);
    hide EchoReply;
  }

  /**
   An echo request too large for the link, cut by the rule of fragmentIPv6Packet
   into at most sixteen fragments and intercepted in any order by a table with
   room: silence until the last fragment, then the verdict the packet would get
   in one piece.
   */
  lemma FragmentedEchoRequestGetsThrough(pkt: seq<byte>, mtu: int, ident: uint32, m: R.Entries, order: seq<nat>, nows: seq<int>,
                                         ps: seq<seq<byte>>, k: nat)
    requires I.WholeRequest(pkt) && Cuttable(pkt, mtu)
    requires Roomy(m, I.KeyOf(pkt[8..24], pkt[24..40], ident), pkt[40..], SharesOf(pkt, mtu), order, nows)
    requires Arranged(ps, Fragments(pkt, mtu, ident), order) && k < |ps|
    ensures R.Inv(m) && |nows| == |ps|
    ensures var verdict := I.Intercepted(I.Seen(m, ps, nows, k), ps[k], nows[k]).1;
            if k + 1 < |ps| then verdict == I.Drop
            else
              && verdict == I.Intercepted(m, pkt, nows[k]).1
              && verdict == if Checksum(pkt[8..24], pkt[24..40], ICMPV6, pkt[40..]) == 0 then I.Request(pkt[40..]) else I.Drop
  {
    hide R.Inv, Roomy, Arranged, Fragments, SharesOf, Checksum, I.Intercepted, I.Seen, I.Pieces;
    RoomyStart(m, I.KeyOf(pkt[8..24], pkt[24..40], ident), pkt[40..], SharesOf(pkt, mtu), order, nows);
    I.FragmentsArePieces(pkt, mtu, ident, order, ps);
    I.FragmentedRequestGetsThrough(pkt[8..24], pkt[24..40], ident, pkt[40..], SharesOf(pkt, mtu), m, order, nows, ps, k);
    I.WholeRequestVerdict(m, pkt, nows[k]);
  }

  /**
   An echo reply too large for the link, cut into at most sixteen fragments; a
   receiver that walks the chain and reassembles as this code does gets nothing
   until the last fragment, then a message that verifies for its addresses and
   carries the client's identifier, the sequence number and the data.
   */
  lemma FragmentedEchoReplyVerifies(src: Octets16, dst: Octets16, id: uint16, sequence: uint16, data: seq<byte>, mtu: int,
                                    ident: uint32, m: R.Entries, key: R.Key, order: seq<nat>, nows: seq<int>, ps: seq<seq<byte>>, k: nat)
    requires |data| <= TOP - 8 && 56 <= mtu < 48 + |data|
    requires Cuttable(EchoReply(src, dst, id, sequence, data), mtu)
    requires var pkt := EchoReply(src, dst, id, sequence, data);
             Roomy(m, key, pkt[40..], SharesOf(pkt, mtu), order, nows) && Arranged(ps, Fragments(pkt, mtu, ident), order) && k < |ps|
    ensures R.Inv(m) && Readable(ps) && |nows| == |ps|
    ensures var out := ReadAndAdded(Caught(m, key, ps, nows, k), key, ps[k], nows[k]).1;
            if k + 1 < |ps| then out == None
            else
              && out.Some? && |out.value| == 8 + |data|
              && Checksum(src, dst, ICMPV6, out.value) == 0 && out.value[0] == ECHO_REPLY
              && Word16(out.value, 4) == id && Word16(out.value, 6) == sequence && out.value[8..] == data
  {
    hide *;
    var pkt := EchoReply(src, dst, id, sequence, data);
    EchoReplyIsRight(src, dst, id, sequence, data);
    CutParseReassembleWithRoom(pkt, mtu, ident, m, key, order, nows, ps, k);
    BehindHeader(pkt, 44);
    BehindHeader(pkt, 46);
    assert pkt[40..][8..] == pkt[48..];
  }

  /** What a receiver makes of a packet: its message if it is whole, else what the table hands out. */
  ghost function Heard(m: R.Entries, key: R.Key, p: seq<byte>, now: int): Option<seq<byte>>
    requires R.Inv(m) && Ipv6Chain.Parsed(p).0.l4Offset <= |p|
  {
    if Ipv6Chain.Parsed(p).0.isFrag then ReadAndAdded(m, key, p, now).1 else Some(p[Ipv6Chain.Parsed(p).0.l4Offset..])
  }

  /** The message is an echo reply that verifies, with these contents. */
  ghost predicate IsReply(msg: seq<byte>, src: Octets16, dst: Octets16, id: uint16, sequence: uint16, data: seq<byte>) {
    && |msg| == 8 + |data| && Checksum(src, dst, ICMPV6, msg) == 0 && msg[0] == ECHO_REPLY
    && Word16(msg, 4) == id && Word16(msg, 6) == sequence && msg[8..] == data
  }

  lemma WholeReplyIsHeard(src: Octets16, dst: Octets16, id: uint16, sequence: uint16, data: seq<byte>)
    requires |data| <= TOP - 8
    ensures var pkt := EchoReply(src, dst, id, sequence, data);
            Ipv6Chain.Parsed(pkt) == (Ipv6Chain.NO_INFO.(l4Offset := 40), Ipv6Chain.ChainIcmpv6)
            && |pkt| == 48 + |data| && IsReply(pkt[40..], src, dst, id, sequence, data)
  {
    var pkt := EchoReply(src, dst, id, sequence, data);
    EchoReplyIsRight(src, dst, id, sequence, data);
    hide EchoReply, Checksum;
    BehindHeader(pkt, 44);
    BehindHeader(pkt, 46);
    assert pkt[40..][8..] == pkt[48..];
  }

  /**
   A reply always reaches its client, for every link of at least 56 octets: in
   one packet if it fits, and else cut, in any order, by any receiver with room.
   Nothing is heard before the last packet, and then the reply.
   */
  lemma EchoReplyArrives(src: Octets16, dst: Octets16, id: uint16, sequence: uint16, data: seq<byte>, mtu: int,
                         ident: uint32, m: R.Entries, key: R.Key, order: seq<nat>, nows: seq<int>, ps: seq<seq<byte>>, k: nat)
    requires |data| <= TOP - 8 && mtu >= 56 && R.Inv(m) && |nows| == |ps|
    requires var pkt := EchoReply(src, dst, id, sequence, data);
             && (|pkt| > mtu ==> Cuttable(pkt, mtu) && Roomy(m, key, pkt[40..], SharesOf(pkt, mtu), order, nows))
             && Arranged(ps, Fragments(pkt, mtu, ident), order) && k < |ps|
    ensures 48 + |data| <= mtu ==> |ps| == 1
    ensures Readable(ps)
    ensures var out := Heard(Caught(m, key, ps, nows, k), key, ps[k], nows[k]);
            if k + 1 < |ps| then out == None else out.Some? && IsReply(out.value, src, dst, id, sequence, data)
  {
    hide R.Inv, Roomy, Fragments, SharesOf, EchoReply, Checksum, Ipv6Chain.Parsed, ReadAndAdded, Caught;
    var pkt := EchoReply(src, dst, id, sequence, data);
    WholeReplyIsHeard(src, dst, id, sequence, data);
    if |pkt| <= mtu {
      SentUnless(pkt, mtu, ident);
      assert ps[0] == Fragments(pkt, mtu, ident)[order[0]];
    } else {
      FragmentedEchoReplyVerifies(src, dst, id, sequence, data, mtu, ident, m, key, order, nows, ps, k);
      SomeShare(pkt, mtu);
      EachFragmentIsRight(pkt, mtu, ident, 0);
      EachFragmentIsRight(pkt, mtu, ident, order[k]);
    }
  }

  lemma BehindHeader(pkt: seq<byte>, at: nat)
    requires 40 <= at && at + 2 <= |pkt|
    ensures Word16(pkt[40..], at - 40) == Word16(pkt, at)
  {
  }

  /**
   What src/nat64/udp.go passes to the fragmenter is a UDP datagram: every one
   of its fragments says ICMPv6 where the datagram said UDP, and the chain walk
   of a receiver takes it for an ICMPv6 message.
   */
  lemma FragmentedUdpSaysIcmpv6(src: Octets16, dst: Octets16, srcPort: uint16, dstPort: uint16, payload: seq<byte>,
                                mtu: int, ident: uint32, i: nat)
    requires |payload| <= TOP - 8 && 56 <= mtu < 48 + |payload|
    ensures Cuttable(UdpDatagram(src, dst, srcPort, dstPort, payload), mtu)
    ensures var pkt := UdpDatagram(src, dst, srcPort, dstPort, payload);
            && |Fragments(pkt, mtu, ident)| == |SharesOf(pkt, mtu)| && pkt[6] == UDP
            && (i < |SharesOf(pkt, mtu)| ==>
                  var p := Fragments(pkt, mtu, ident)[i];
                  |p| > 40 && p[40] == ICMPV6 && Ipv6Chain.Parsed(p).1 == Ipv6Chain.ChainIcmpv6)
  {
    hide UdpDatagram, Fragments, SharesOf, Ipv6Chain.Parsed;
    var pkt := UdpDatagram(src, dst, srcPort, dstPort, payload);
    UdpDatagramIsRight(src, dst, srcPort, dstPort, payload);
    SomeShare(pkt, mtu);
    EachFragmentIsRight(pkt, mtu, ident, 0);
    if i < |SharesOf(pkt, mtu)| {
      ProtocolSurvivesIffIcmpv6(pkt, mtu, ident, i);
      EachFragmentIsRight(pkt, mtu, ident, i);
    }
  }

  lemma SomeShare(pkt: seq<byte>, mtu: int)
    requires Cuttable(pkt, mtu)
    ensures |SharesOf(pkt, mtu)| > 0
  {
  }
}
