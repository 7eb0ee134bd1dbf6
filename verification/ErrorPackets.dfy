/**
 The ICMPv6 errors the translator synthesises, buildIPv6ICMPErrorPacket of
 src/nat64/icmperr.go: an outer header, the error, and a quoted packet whose
 transport checksum is rebuilt after truncation.
 */
module ErrorPackets {
  import opened Octets
  import opened Buffers
  import opened InternetChecksum
  import opened Packets
  import Prefixes

  const PACKET_MAX := 1280
  const FIXED := 88
  const QUOTE_MAX := PACKET_MAX - FIXED

  datatype Error = Error(src: Octets16, dst: Octets16, kind: byte, code: byte, extra: uint32)

  /** The quoted packet: its addresses, hop limit, protocol and transport octets. */
  datatype Quoted = Quoted(src: Octets16, dst: Octets16, hops: byte, proto: byte, l4: seq<byte>)

  predicate Usable(q: Quoted) {
    |q.l4| >= 8 && (q.proto == TCP ==> |q.l4| >= 18)
  }

  function Truncated(q: Quoted): (r: Quoted)
    ensures |r.l4| <= QUOTE_MAX && r.l4 <= q.l4 && (|r.l4| < |q.l4| ==> |r.l4| == QUOTE_MAX)
  {
    if |q.l4| > QUOTE_MAX then q.(l4 := q.l4[..QUOTE_MAX]) else q
  }

  // ---------------------------------------------------------------------
  // The quoted segment.

  /** A checksum field zeroed, computed and stored. */
  function Reckoned(seg: seq<byte>, at: nat, src: Octets16, dst: Octets16, proto: byte): (r: seq<byte>)
    requires at + 2 <= |seg|
    ensures |r| == |seg|
  {
    var z := Put(seg, at, [0, 0]);
    Put(z, at, Be16(Checksum(src, dst, proto, z)))
  }

  /** The length field follows the data; a checksum is recomputed over whatever non-zero value it held. */
  function UdpRebuilt(seg: seq<byte>, src: Octets16, dst: Octets16): (r: seq<byte>)
    requires 8 <= |seg| <= TOP
    ensures |r| == |seg|
  {
    var s := Put(seg, 4, Be16(|seg|));
    if Word16(s, 6) == 0 then s else Put(s, 6, Be16(NonZero(Checksum(src, dst, UDP, s))))
  }

  function Rebuilt(q: Quoted): (r: seq<byte>)
    requires Usable(q) && |q.l4| <= QUOTE_MAX
    ensures |r| == |q.l4|
  {
    if q.proto == UDP then UdpRebuilt(q.l4, q.src, q.dst)
    else if q.proto == ICMPV6 then Reckoned(q.l4, 2, q.src, q.dst, ICMPV6)
    else if q.proto == TCP then Reckoned(q.l4, 16, q.src, q.dst, TCP)
    else q.l4
  }

  lemma ReckonedVerifies(seg: seq<byte>, at: nat, src: Octets16, dst: Octets16, proto: byte)
    requires at % 2 == 0 && at + 2 <= |seg| && proto > 0
    ensures var r := Reckoned(seg, at, src, dst, proto);
            && Checksum(src, dst, proto, r) == 0
            && r[..at] == seg[..at] && r[at + 2..] == seg[at + 2..]
  {
    var z := Put(seg, at, [0, 0]);
    PutSame(z, at, [0, 0]);
    StoredChecksumVerifies(src, dst, proto, z, at);
    hide Checksum, Be16;
  }

  /** A quoted TCP segment or ICMPv6 message verifies and is otherwise as it was; what is no UDP, TCP or ICMPv6 is left alone. */
  lemma RebuiltByProtocol(q: Quoted)
    requires Usable(q) && |q.l4| <= QUOTE_MAX
    ensures q.proto == 6 ==> Checksum(q.src, q.dst, 6, Rebuilt(q)) == 0 && Rebuilt(q)[..16] == q.l4[..16] && Rebuilt(q)[18..] == q.l4[18..]
    ensures q.proto == 58 ==> Checksum(q.src, q.dst, 58, Rebuilt(q)) == 0 && Rebuilt(q)[..2] == q.l4[..2] && Rebuilt(q)[4..] == q.l4[4..]
    ensures q.proto != 6 && q.proto != 17 && q.proto != 58 ==> Rebuilt(q) == q.l4
  {
    if q.proto == TCP {
      ReckonedVerifies(q.l4, 16, q.src, q.dst, TCP);
    } else if q.proto == ICMPV6 {
      ReckonedVerifies(q.l4, 2, q.src, q.dst, ICMPV6);
    }
    hide Reckoned, UdpRebuilt, Checksum;
  }

  /**
   A rebuilt UDP segment announces its own length, keeps a zero checksum zero,
   and otherwise verifies exactly when the field came in as all ones.
   */
  lemma UdpRebuiltVerifiesIff(seg: seq<byte>, src: Octets16, dst: Octets16)
    requires 8 <= |seg| <= TOP
    ensures var r := UdpRebuilt(seg, src, dst);
            && Word16(r, 4) == |r| && r[..4] == seg[..4] && r[8..] == seg[8..]
            && (Word16(seg, 6) == 0 <==> Word16(r, 6) == 0)
            && (Word16(seg, 6) != 0 ==> (Checksum(src, dst, UDP, r) == 0 <==> Word16(seg, 6) == TOP))
  {
    var s := Put(seg, 4, Be16(|seg|));
    var w := Word16(s, 6);
    assert w == Word16(seg, 6);
    var r := UdpRebuilt(seg, src, dst);
    assert s[4..6] == Be16(|seg|);
    assert s[6..8] == Be16(w) by { Be16OfWord(s, 6); }
    PutSame(s, 6, Be16(w));
    UdpFields(seg, s, src, dst);
    if w != 0 {
      PlaceholderIsNeutralIff(src, dst, UDP, s, 6, w);
    }
  }

  lemma UdpFields(seg: seq<byte>, s: seq<byte>, src: Octets16, dst: Octets16)
    requires 8 <= |seg| <= TOP && s == Put(seg, 4, Be16(|seg|)) && s[4..6] == Be16(|seg|)
    ensures var r := UdpRebuilt(seg, src, dst);
            && Word16(r, 4) == |r| && r[..4] == seg[..4] && r[8..] == seg[8..]
            && (Word16(s, 6) == 0 <==> Word16(r, 6) == 0)
  {
    var r := UdpRebuilt(seg, src, dst);
    var cs := NonZero(Checksum(src, dst, UDP, s));
    assert Word16(s, 6) != 0 ==> r == Put(s, 6, Be16(cs));
    hide Checksum, Be16, UdpRebuilt;
    assert r[4..6] == Be16(|seg|);
    Word16OfBe16(r, 4, |seg|);
    if Word16(s, 6) != 0 {
      assert r[6..8] == Be16(cs);
      Word16OfBe16(r, 6, cs);
    }
  }

  // ---------------------------------------------------------------------
  // The packet.

  /** The outer header and the error it announces, over n octets. */
  function Announced(e: Error, n: nat): (r: seq<byte>)
    requires FIXED <= n <= PACKET_MAX
    ensures |r| == n
  {
    var b := HeaderAt(Zeros(n), 0, n - 40, ICMPV6, HOP_LIMIT, e.src, e.dst);
    Put(Put(b, 40, [e.kind, e.code]), 44, Be32(e.extra))
  }

  function Assembled(e: Error, q: Quoted): (r: seq<byte>)
    requires |q.l4| <= QUOTE_MAX
    ensures |r| == FIXED + |q.l4|
  {
    var b := Announced(e, FIXED + |q.l4|);
    Put(HeaderAt(b, 48, |q.l4|, q.proto, q.hops, q.src, q.dst), FIXED, q.l4)
  }

  function ErrorPacket(e: Error, q: Quoted): (r: seq<byte>)
    requires Usable(q)
    ensures |r| == FIXED + |Truncated(q).l4|
  {
    var t := Truncated(q);
    var b := Put(Assembled(e, t), FIXED, Rebuilt(t));
    Sealed(b, 42, Checksum(e.src, e.dst, ICMPV6, b[40..]))
  }

  predicate Announces(r: seq<byte>, e: Error)
    requires |r| >= FIXED
  {
    && r[0] == 0x60 && r[6..8] == [ICMPV6, 64] && r[8..24] == e.src && r[24..40] == e.dst
    && r[40..42] == [e.kind, e.code] && r[44..48] == Be32(e.extra)
  }

  predicate Quotes(r: seq<byte>, q: Quoted)
    requires |r| >= FIXED
  {
    r[48] == 0x60 && r[54] == q.proto && r[55] == q.hops && r[56..72] == q.src && r[72..88] == q.dst
  }

  lemma AnnouncedLayout(e: Error, n: nat)
    requires FIXED <= n <= PACKET_MAX
    ensures var r := Announced(e, n); Announces(r, e) && r[4..6] == Be16(n - 40) && r[42..44] == [0, 0]
  {
    HeaderLayout(Zeros(n), 0, n - 40, ICMPV6, HOP_LIMIT, e.src, e.dst);
    var b := HeaderAt(Zeros(n), 0, n - 40, ICMPV6, HOP_LIMIT, e.src, e.dst);
    var c := Put(b, 40, [e.kind, e.code]);
    var r := Put(c, 44, Be32(e.extra));
    PutHolds(b, 40, [e.kind, e.code]);
    PutHolds(c, 44, Be32(e.extra));
    PutElsewhere(b, 40, [e.kind, e.code], 0, 40);
    PutElsewhere(c, 44, Be32(e.extra), 0, 40);
    PutElsewhere(c, 44, Be32(e.extra), 40, 42);
    PutElsewhere(b, 40, [e.kind, e.code], 42, 44);
    PutElsewhere(c, 44, Be32(e.extra), 42, 44);
    assert b[42..44] == b[40..][2..4];
    hide HeaderAt, Be16, Be32, Put;
    PartOf(r, b, 0, 40, 4, 6);
    PartOf(r, b, 0, 40, 0, 1);
    PartOf(r, b, 0, 40, 6, 8);
    PartOf(r, b, 0, 40, 8, 24);
    PartOf(r, b, 0, 40, 24, 40);
    assert r[0..1][0] == b[0..1][0];
  }

  /** Octets before the quoted packet depend on the first 48 only. */
  lemma SameAnnouncement(r: seq<byte>, s: seq<byte>, e: Error)
    requires |r| == |s| >= FIXED && r[..42] == s[..42] && r[44..48] == s[44..48]
    ensures Announces(r, e) == Announces(s, e) && r[4..6] == s[4..6]
  {
    assert r[..42] == r[0..42] && s[..42] == s[0..42];
    PartOf(r, s, 0, 42, 4, 6);
    PartOf(r, s, 0, 42, 0, 1);
    PartOf(r, s, 0, 42, 6, 8);
    PartOf(r, s, 0, 42, 8, 24);
    PartOf(r, s, 0, 42, 24, 40);
    PartOf(r, s, 0, 42, 40, 42);
    assert r[0..1][0] == r[0] && s[0..1][0] == s[0];
  }

  lemma SameQuote(r: seq<byte>, s: seq<byte>, q: Quoted)
    requires |r| == |s| >= FIXED && r[44..88] == s[44..88]
    ensures Quotes(r, q) == Quotes(s, q) && r[52..54] == s[52..54]
  {
    PartOf(r, s, 44, 88, 52, 54);
    PartOf(r, s, 44, 88, 48, 49);
    PartOf(r, s, 44, 88, 54, 56);
    PartOf(r, s, 44, 88, 56, 72);
    PartOf(r, s, 44, 88, 72, 88);
    assert r[48..49][0] == r[48] && s[48..49][0] == s[48];
    assert r[54..56][0] == r[54] && r[54..56][1] == r[55] && s[54..56][0] == s[54] && s[54..56][1] == s[55];
  }

  lemma AssembledLayout(e: Error, q: Quoted)
    requires |q.l4| <= QUOTE_MAX
    ensures var r := Assembled(e, q);
            && Announces(r, e) && r[4..6] == Be16(|r| - 40) && r[42..44] == [0, 0]
            && Quotes(r, q) && r[52..54] == Be16(|q.l4|)
  {
    var n := FIXED + |q.l4|;
    var b := Announced(e, n);
    AnnouncedLayout(e, n);
    HeaderLayout(b, 48, |q.l4|, q.proto, q.hops, q.src, q.dst);
    var d := HeaderAt(b, 48, |q.l4|, q.proto, q.hops, q.src, q.dst);
    var r := Assembled(e, q);
    hide Announced, HeaderAt, Be16, Announces;
    assert d[..48] == b[..48];
    assert r[..48] == d[..48];
    assert r[..48][..42] == b[..48][..42] && r[..48][42..44] == b[..48][42..44] && r[..48][44..] == b[..48][44..];
    assert r[..48][44..] == r[44..48] && b[..48][44..] == b[44..48];
    SameAnnouncement(r, b, e);
    assert r[44..88] == d[44..88];
    SameQuote(r, d, q);
  }

  /**
   Every synthesised error fits 1280 octets, verifies, announces lengths that
   match its truncated contents and carries the error and the quoted addresses.
   */
  lemma ErrorPacketIsRight(e: Error, q: Quoted)
    requires Usable(q)
    ensures var r, t := ErrorPacket(e, q), Truncated(q);
            && |r| <= PACKET_MAX
            && Checksum(e.src, e.dst, ICMPV6, r[40..]) == 0
            && Announces(r, e) && Word16(r, 4) == |r| - 40
            && Quotes(r, q) && Word16(r, 52) == |r| - FIXED
            && r[FIXED..] == Rebuilt(t)
  {
    var t := Truncated(q);
    var a := Assembled(e, t);
    AssembledLayout(e, t);
    var seg := Rebuilt(t);
    var b := Put(a, FIXED, seg);
    var r := ErrorPacket(e, q);
    PutElsewhere(a, FIXED, seg, 0, FIXED);
    assert b[FIXED..] == seg;
    assert r == Sealed(b, 42, Checksum(e.src, e.dst, ICMPV6, b[40..]));
    assert Quotes(a, t) == Quotes(a, q);
    hide Assembled, Rebuilt, ErrorPacket, Checksum, Announces, Quotes, Be16, Be32, Word16, Put, Sealed;
    PartOf(b, a, 0, FIXED, 0, 42);
    PartOf(b, a, 0, FIXED, 42, 44);
    PartOf(b, a, 0, FIXED, 44, 48);
    PartOf(b, a, 0, FIXED, 44, 88);
    assert b[..42] == b[0..42] && a[..42] == a[0..42];
    SameAnnouncement(b, a, e);
    SameQuote(b, a, q);
    Finished(e, q, b, r);
  }

  lemma Finished(e: Error, q: Quoted, b: seq<byte>, r: seq<byte>)
    requires FIXED <= |b| <= PACKET_MAX && Announces(b, e) && Quotes(b, q)
    requires b[42..44] == [0, 0] && b[4..6] == Be16(|b| - 40) && b[52..54] == Be16(|b| - FIXED)
    requires r == Sealed(b, 42, Checksum(e.src, e.dst, ICMPV6, b[40..]))
    ensures Checksum(e.src, e.dst, ICMPV6, r[40..]) == 0
    ensures Announces(r, e) && Word16(r, 4) == |r| - 40
    ensures Quotes(r, q) && Word16(r, 52) == |r| - FIXED && r[FIXED..] == b[FIXED..]
  {
    SealedVerifies(b, 42, e.src, e.dst, ICMPV6, false);
    hide Sealed, Checksum, Announces, Quotes, Be16, Word16;
    assert r[44..][..4] == b[44..][..4] && r[44..][..44] == b[44..][..44] && r[44..][44..] == b[44..][44..];
    SameAnnouncement(r, b, e);
    SameQuote(r, b, q);
    Word16OfBe16(r, 4, |b| - 40);
    Word16OfBe16(r, 52, |b| - FIXED);
  }

  // ---------------------------------------------------------------------
  // The code.

  method RebuildSegment(p: array<byte>, ghost q: Quoted, proto: byte, src: Octets16, dst: Octets16)
    requires FIXED + 8 <= p.Length <= PACKET_MAX
    requires proto == TCP ==> p.Length >= FIXED + 18
    requires q.proto == proto && q.src == src && q.dst == dst && q.l4 == p[FIXED..]
    modifies p
    ensures p[..] == Put(old(p[..]), FIXED, Rebuilt(q))
  {
    var a := p[..];
    var seg := p[FIXED..];
    assert a[FIXED..] == seg;
    hide Be16, Checksum, Word16, Put;
    if proto == UDP {
      PutInTail(a, FIXED, 4, Be16(|seg|));
      Copy(p, FIXED + 4, Be16(|seg|));
      var s := p[FIXED..];
      TailOf(a, seg, s, p[..], Be16(|seg|), 4);
      if Word16(s, 6) != 0 {
        var cs := UpperLayerChecksum(src, dst, UDP, s);
        if cs == 0 {
          cs := TOP;
        }
        PutInTail(p[..], FIXED, 6, Be16(cs));
        PutTwice(a, s, Put(s, 6, Be16(cs)));
        Copy(p, FIXED + 6, Be16(cs));
      }
    } else if proto == ICMPV6 {
      Reckon(p, 2, src, dst, ICMPV6);
    } else if proto == TCP {
      Reckon(p, 16, src, dst, TCP);
    } else {
      PutSame(a, FIXED, seg);
    }
  }

  lemma TailOf(a: seq<byte>, seg: seq<byte>, s: seq<byte>, b: seq<byte>, v: seq<byte>, at: nat)
    requires |a| >= FIXED && seg == a[FIXED..] && at + |v| <= |seg|
    requires b == Put(a, FIXED + at, v) && s == b[FIXED..]
    ensures s == Put(seg, at, v)
  {
    PutBehind(a, FIXED + at, v, FIXED);
  }

  lemma PutTwice(a: seq<byte>, s: seq<byte>, t: seq<byte>)
    requires FIXED + |s| == |a| && |t| == |s|
    ensures Put(Put(a, FIXED, s), FIXED, t) == Put(a, FIXED, t)
  {
  }

  method Reckon(p: array<byte>, at: nat, src: Octets16, dst: Octets16, proto: byte)
    requires FIXED + at + 2 <= p.Length <= PACKET_MAX
    modifies p
    ensures p[..] == Put(old(p[..]), FIXED, Reckoned(old(p[FIXED..]), at, src, dst, proto))
  {
    var a := p[..];
    var seg := p[FIXED..];
    assert a[FIXED..] == seg;
    hide Be16, Checksum, Put;
    PutInTail(a, FIXED, at, [0, 0]);
    Copy(p, FIXED + at, [0, 0]);
    var z := p[FIXED..];
    TailOf(a, seg, z, p[..], [0, 0], at);
    var cs := UpperLayerChecksum(src, dst, proto, z);
    PutInTail(p[..], FIXED, at, Be16(cs));
    PutTwice(a, z, Put(z, at, Be16(cs)));
    Copy(p, FIXED + at, Be16(cs));
  }

  /** buildIPv6ICMPErrorPacket. */
  method BuildErrorPacket(e: Error, q: Quoted) returns (p: array<byte>)
    requires Usable(q)
    ensures fresh(p) && p[..] == ErrorPacket(e, q)
  {
    var l4 := q.l4;
    if |l4| > QUOTE_MAX {
      l4 := l4[..QUOTE_MAX];
    }
    ghost var t := Truncated(q);
    hide Put, HeaderAt, Be16, Be32, Checksum, Rebuilt;
    var n := FIXED + |l4|;
    p := NewBuffer(n);
    WriteHeader(p, 0, n - 40, ICMPV6, HOP_LIMIT, e.src, e.dst);
    Copy(p, 40, [e.kind, e.code]);
    Copy(p, 44, Be32(e.extra));
    WriteHeader(p, 48, |l4|, q.proto, q.hops, q.src, q.dst);
    ghost var before := p[..];
    Copy(p, FIXED, l4);
    PutHolds(before, FIXED, l4);
    RebuildSegment(p, t, q.proto, q.src, q.dst);
    var cs := UpperLayerChecksum(e.src, e.dst, ICMPV6, p[..][40..]);
    Copy(p, 42, Be16(cs));
  }

  // ---------------------------------------------------------------------
  // What is quoted back to a client.

  /** translateUDPQuotedError: ports rewritten, the checksum field holding all ones, the payload kept. */
  function UdpQuote(l4: seq<byte>, natPort: uint16, clientPort: uint16): (r: seq<byte>)
    requires 8 <= |l4| <= TOP
    ensures |r| == |l4|
  {
    var b := Put(Put(Zeros(|l4|), 0, Be16(natPort)), 2, Be16(clientPort));
    Put(Put(Put(b, 4, Be16(|l4|)), 6, Be16(TOP)), 8, l4[8..])
  }

  /** translateEchoQuotedError: an echo request with the client's own identifier. */
  function EchoQuote(l4: seq<byte>, clientId: uint16): (r: seq<byte>)
    requires 8 <= |l4|
    ensures |r| == |l4|
  {
    Put(Put(Put(Put(Zeros(|l4|), 0, [128, 0]), 4, Be16(clientId)), 6, Be16(Word16(l4, 6))), 8, l4[8..])
  }

  lemma UdpQuoteLayout(l4: seq<byte>, natPort: uint16, clientPort: uint16)
    requires 8 <= |l4| <= TOP
    ensures var r := UdpQuote(l4, natPort, clientPort);
            && r[0..2] == Be16(natPort) && r[2..4] == Be16(clientPort)
            && r[6..8] == Be16(TOP) && r[8..] == l4[8..]
  {
    hide Be16;
  }

  /** A truncated quote keeps its header and the front of its payload. */
  lemma TruncatedQuote(full: seq<byte>, cut: seq<byte>, l4: seq<byte>)
    requires 8 <= |cut| && cut <= full && |full| == |l4| && full[8..] == l4[8..]
    ensures cut[..8] == full[..8] && cut[8..] <= l4[8..]
  {
    assert cut == full[..|cut|];
    assert cut[8..] == full[8..][..|cut| - 8];
  }

  predicate IsUdpQuote(s: seq<byte>, src: Octets16, dst: Octets16, l4: seq<byte>, natPort: uint16, clientPort: uint16)
    requires |s| >= 8 && |l4| >= 8
  {
    && Checksum(src, dst, UDP, s) == 0 && Word16(s, 6) != 0
    && Word16(s, 0) == natPort && Word16(s, 2) == clientPort
    && Word16(s, 4) == |s| && s[8..] <= l4[8..]
  }

  lemma UdpSegmentIsRight(cut: seq<byte>, src: Octets16, dst: Octets16, l4: seq<byte>, natPort: uint16, clientPort: uint16)
    requires 8 <= |cut| <= |l4| <= TOP && cut <= UdpQuote(l4, natPort, clientPort)
    ensures IsUdpQuote(UdpRebuilt(cut, src, dst), src, dst, l4, natPort, clientPort)
  {
    var full := UdpQuote(l4, natPort, clientPort);
    var s := UdpRebuilt(cut, src, dst);
    UdpQuoteLayout(l4, natPort, clientPort);
    TruncatedQuote(full, cut, l4);
    UdpRebuiltVerifiesIff(cut, src, dst);
    hide UdpQuote, UdpRebuilt, Checksum, Be16, Word16;
    assert cut[..8] == cut[0..8] && full[..8] == full[0..8];
    assert cut[0..8][6..8] == cut[6..8] && full[0..8][6..8] == full[6..8];
    Word16OfBe16(cut, 6, TOP);
    assert s[..4][0..2] == s[0..2] && cut[..4][0..2] == cut[0..2] && cut[0..8][0..2] == cut[0..2] && full[0..8][0..2] == full[0..2];
    Word16OfBe16(s, 0, natPort);
    assert s[..4][2..4] == s[2..4] && cut[..4][2..4] == cut[2..4] && cut[0..8][2..4] == cut[2..4] && full[0..8][2..4] == full[2..4];
    Word16OfBe16(s, 2, clientPort);
  }

  /**
   The UDP error sent to a client: outside and inside verify, the ports and as
   much of the quoted payload as fits are there.
   */
  lemma UdpErrorVerifies(e: Error, src: Octets16, dst: Octets16, hops: byte, l4: seq<byte>, natPort: uint16, clientPort: uint16)
    requires 8 <= |l4| <= TOP
    ensures var r := ErrorPacket(e, Quoted(src, dst, hops, UDP, UdpQuote(l4, natPort, clientPort)));
            && Checksum(e.src, e.dst, ICMPV6, r[40..]) == 0
            && IsUdpQuote(r[FIXED..], src, dst, l4, natPort, clientPort)
  {
    var q := Quoted(src, dst, hops, UDP, UdpQuote(l4, natPort, clientPort));
    var t := Truncated(q);
    ErrorPacketIsRight(e, q);
    assert Rebuilt(t) == UdpRebuilt(t.l4, src, dst);
    hide *;
    UdpSegmentIsRight(t.l4, src, dst, l4, natPort, clientPort);
  }

  predicate IsEchoQuote(s: seq<byte>, src: Octets16, dst: Octets16, l4: seq<byte>, clientId: uint16)
    requires |s| >= 8 && |l4| >= 8
  {
    && Checksum(src, dst, ICMPV6, s) == 0 && s[..2] == [128, 0]
    && Word16(s, 4) == clientId && Word16(s, 6) == Word16(l4, 6) && s[8..] <= l4[8..]
  }

  lemma EchoSegmentIsRight(cut: seq<byte>, src: Octets16, dst: Octets16, l4: seq<byte>, clientId: uint16)
    requires 8 <= |cut| <= |l4| && cut <= EchoQuote(l4, clientId)
    ensures IsEchoQuote(Reckoned(cut, 2, src, dst, ICMPV6), src, dst, l4, clientId)
  {
    var full := EchoQuote(l4, clientId);
    var s := Reckoned(cut, 2, src, dst, ICMPV6);
    EchoQuoteLayout(l4, clientId);
    TruncatedQuote(full, cut, l4);
    ReckonedVerifies(cut, 2, src, dst, ICMPV6);
    hide EchoQuote, Reckoned, Checksum, Be16, Word16;
    assert cut[..8][..2] == cut[..2] && full[..8][..2] == full[0..2];
    assert s[4..][..2] == s[4..6] && cut[4..][..2] == cut[4..6] && cut[..8][4..6] == cut[4..6] && full[..8][4..6] == full[4..6];
    Word16OfBe16(s, 4, clientId);
    assert s[4..][2..4] == s[6..8] && cut[4..][2..4] == cut[6..8] && cut[..8][6..8] == cut[6..8] && full[..8][6..8] == full[6..8];
    Word16OfBe16(s, 6, Word16(l4, 6));
    assert s[4..][4..] == s[8..] && cut[4..][4..] == cut[8..];
  }

  /** The same for a quoted echo request, with the client's identifier in it. */
  lemma EchoErrorVerifies(e: Error, src: Octets16, dst: Octets16, hops: byte, l4: seq<byte>, clientId: uint16)
    requires 8 <= |l4|
    ensures var r := ErrorPacket(e, Quoted(src, dst, hops, ICMPV6, EchoQuote(l4, clientId)));
            && Checksum(e.src, e.dst, ICMPV6, r[40..]) == 0
            && IsEchoQuote(r[FIXED..], src, dst, l4, clientId)
  {
    var q := Quoted(src, dst, hops, ICMPV6, EchoQuote(l4, clientId));
    var t := Truncated(q);
    ErrorPacketIsRight(e, q);
    assert Rebuilt(t) == Reckoned(t.l4, 2, src, dst, ICMPV6);
    hide *;
    EchoSegmentIsRight(t.l4, src, dst, l4, clientId);
  }

  lemma EchoQuoteLayout(l4: seq<byte>, clientId: uint16)
    requires 8 <= |l4|
    ensures var r := EchoQuote(l4, clientId);
            && r[0..2] == [128, 0] && r[4..6] == Be16(clientId)
            && r[6..8] == Be16(Word16(l4, 6)) && r[8..] == l4[8..]
  {
    var w := Word16(l4, 6);
    hide Be16, Word16;
  }

  /**
   The error for a client's datagram to `server` through a socket on `egress`:
   the quoted addresses are those of the datagram the client sent only if the
   client is the embedded server and the socket has the server's address.
   */
  lemma QuotedAddressesAreOriginalIff(e: Error, pool: Prefixes.Pref64, egress: Octets4, server: Octets4, client: Octets16, hops: byte, l4: seq<byte>)
    requires Prefixes.Valid(pool) && 8 <= |l4|
    ensures var r := ErrorPacket(e, Quoted(Prefixes.Embed(pool, egress), client, hops, UDP, l4));
            (r[56..72] == client && r[72..88] == Prefixes.Embed(pool, server)
             <==> client == Prefixes.Embed(pool, server) && egress == server)
  {
    var q := Quoted(Prefixes.Embed(pool, egress), client, hops, UDP, l4);
    ErrorPacketIsRight(e, q);
    var r := ErrorPacket(e, q);
    assert r[56..72] == Prefixes.Embed(pool, egress) && r[72..88] == client;
    hide ErrorPacket, Prefixes.Embed;
    if Prefixes.Embed(pool, egress) == Prefixes.Embed(pool, server) {
      Prefixes.EmbedIsInjective(pool, egress, server);
    }
  }
}
