/**
 interceptICMPPacket of src/nat64/icmp.go behind its address filters: which
 packets reach the echo translator, and as what message.
 */
module Interceptor {
  import opened Octets
  import InternetChecksum
  import opened Ipv6Chain
  import opened Reassembly
  import opened ReasmTable
  import opened Datagram
  import opened DatagramRun
  import H = HandedOut
  import F = Fragmentation

  const ECHO_REQUEST := 128

  /** A packet is left to the local stack, dropped, or its message goes to the echo translator. */
  datatype Verdict = Pass | Drop | Request(msg: seq<byte>)

  /** The number sixteen octets spell. */
  function AddrOf(s: Octets16): Addr6 {
    var w0: int, w1: int, w2: int, w3: int := Word32(s, 0), Word32(s, 4), Word32(s, 8), Word32(s, 12);
    w0 * 0x1_0000_0000_0000_0000_0000_0000 + w1 * 0x1_0000_0000_0000_0000 + w2 * 0x1_0000_0000 + w3
  }

  function KeyOf(src: Octets16, dst: Octets16, ident: uint32): Key {
    Key(AddrOf(src), AddrOf(dst), ident)
  }

  /** The octets behind the header chain. */
  function Behind(p: seq<byte>): seq<byte>
    requires Parsed(p).1 != ChainInvalid
  {
    ParsedWithin(p);
    p[Parsed(p).0.l4Offset..]
  }

  lemma ParsedWithin(p: seq<byte>)
    requires Parsed(p).1 != ChainInvalid
    ensures |p| >= 40 && Parsed(p).0.l4Offset <= |p|
  {
    WalkEndsWithin(p, p[6], 40, NO_INFO);
  }

  lemma {:induction false} WalkEndsWithin(p: seq<byte>, nh: byte, off: nat, info: Info)
    requires off <= |p| && WalkChain(p, nh, off, info).1 != ChainInvalid
    ensures WalkChain(p, nh, off, info).0.l4Offset <= |p|
    decreases |p| - off
  {
    if !IsTerminal(nh) {
      var len, info' := WalkUnfolds(p, nh, off, info);
      WalkEndsWithin(p, p[off], off + len, info');
    }
  }

  /** A complete message of type 128 goes on if its checksum verifies. */
  function Verified(src: seq<byte>, dst: seq<byte>, msg: seq<byte>): Verdict {
    if InternetChecksum.Checksum(src, dst, ICMPV6, msg) == 0 then Request(msg) else Drop
  }

  function Unfragmented(src: seq<byte>, dst: seq<byte>, msg: seq<byte>): Verdict {
    if |msg| < 8 then Drop
    else if msg[0] != ECHO_REQUEST then Pass
    else Verified(src, dst, msg)
  }

  /** The verdict on what the table handed out. */
  function Completed(src: seq<byte>, dst: seq<byte>, full: Option<seq<byte>>): Verdict
    requires full.Some? ==> full.value != []
  {
    if full.None? || full.value[0] != ECHO_REQUEST then Drop else Verified(src, dst, full.value)
  }

  /** A fragment of another kind of message takes its datagram with it; the others are added. */
  ghost function Fragmented(m: Entries, key: Key, src: seq<byte>, dst: seq<byte>, off: uint16, more: bool, frag: seq<byte>, now: int)
    : (Entries, Verdict)
    requires Inv(m)
  {
    if frag == [] then (m - {key}, Drop)
    else if off == 0 && frag[0] != ECHO_REQUEST then (m - {key}, if key in m then Drop else Pass)
    else
      var (r, full) := Added(m, key, off, more, frag, now);
      H.HandedOutIsNotEmpty(m, key, off, more, frag, now);
      (r, Completed(src, dst, full))
  }

  /** Long enough, an ICMPv6 message at the end of the chain, and the length field right. */
  predicate WellFramed(p: seq<byte>) {
    |p| >= 48 && Parsed(p).1 == ChainIcmpv6 && Word16(p, 4) >= 8 && |p| - 40 == Word16(p, 4)
  }

  ghost function Intercepted(m: Entries, p: seq<byte>, now: int): (Entries, Verdict)
    requires Inv(m)
  {
    if |p| < 48 || Parsed(p).1 != ChainIcmpv6 then (m, Pass)
    else if !WellFramed(p) then (m, Drop)
    else
      var info, src, dst := Parsed(p).0, p[8..24], p[24..40];
      if !info.isFrag then (m, Unfragmented(src, dst, Behind(p)))
      else Fragmented(m, KeyOf(src, dst, info.fragIdent), src, dst, info.fragOffset, info.fragMore, Behind(p), now)
  }

  lemma InterceptedKeeps(m: Entries, p: seq<byte>, now: int)
    requires Inv(m)
    ensures Inv(Intercepted(m, p, now).0)
  {
    hide Inv, Added, Parsed, Behind, AddrOf, InternetChecksum.Checksum;
    if WellFramed(p) {
      var info := Parsed(p).0;
      var key := KeyOf(p[8..24], p[24..40], info.fragIdent);
      WithoutInv(m, key);
      AddedKeeps(m, key, info.fragOffset, info.fragMore, Behind(p), now);
    }
  }

  method InterceptFragment(t: ReasmTable, key: Key, src: seq<byte>, dst: seq<byte>, info: Info, frag: seq<byte>, now: int)
    returns (v: Verdict)
    requires t.Valid()
    modifies t
    ensures t.Valid() && (t.entries, v) == Fragmented(old(t.entries), key, src, dst, info.fragOffset, info.fragMore, frag, now)
  {
    hide Inv, Added, InternetChecksum.Checksum;
    if |frag| == 0 {
      var _ := t.Cancel(key);
      return Drop;
    }
    if info.fragOffset == 0 && frag[0] != ECHO_REQUEST {
      var existed := t.Cancel(key);
      return if existed then Drop else Pass;
    }
    H.HandedOutIsNotEmpty(t.entries, key, info.fragOffset, info.fragMore, frag, now);
    var complete := t.Add(key, info.fragOffset, info.fragMore, frag, now);
    if complete.None? {
      return Drop;
    }
    if complete.value[0] != ECHO_REQUEST {
      return Drop;
    }
    if InternetChecksum.Checksum(src, dst, ICMPV6, complete.value) != 0 {
      return Drop;
    }
    v := Request(complete.value);
  }

  /** interceptICMPPacket, from the checks on the frame on. */
  method Intercept(t: ReasmTable, p: seq<byte>, now: int) returns (v: Verdict)
    requires t.Valid()
    modifies t
    ensures t.Valid() && (t.entries, v) == Intercepted(old(t.entries), p, now)
  {
    hide Inv, Added, InternetChecksum.Checksum, Parsed, Fragmented;
    if |p| < 48 {
      return Pass;
    }
    var info, status := ParseHeaderChain(p);
    if status != ChainIcmpv6 {
      return Pass;
    }
    var src, dst := p[8..24], p[24..40];
    var plen := Word16(p, 4);
    if plen < 8 || |p| - 40 != plen {
      return Drop;
    }
    ParsedWithin(p);
    if !info.isFrag {
      var msg := p[info.l4Offset..];
      if |msg| < 8 {
        return Drop;
      }
      if msg[0] != ECHO_REQUEST {
        return Pass;
      }
      return if InternetChecksum.Checksum(src, dst, ICMPV6, msg) != 0 then Drop else Request(msg);
    }
    v := InterceptFragment(t, KeyOf(src, dst, info.fragIdent), src, dst, info, p[info.l4Offset..], now);
  }

  // ---------------------------------------------------------------------
  // Only echo requests that verify get through.

  /** Other protocols, broken header chains and, unfragmented, other ICMPv6 messages are left to the local stack, the table as it was. */
  lemma OthersPass(m: Entries, p: seq<byte>, now: int)
    requires Inv(m)
    ensures Parsed(p).1 != ChainIcmpv6 ==> Intercepted(m, p, now) == (m, Pass)
    ensures WellFramed(p) && !Parsed(p).0.isFrag && |Behind(p)| >= 8 && Behind(p)[0] != 128 ==> Intercepted(m, p, now) == (m, Pass)
  {
    hide Inv, Parsed, Behind, InternetChecksum.Checksum, Fragmented;
  }

  /** What is refused at the door: too short or of the wrong length it leaves the table alone. */
  lemma RefusedFrames(m: Entries, p: seq<byte>, now: int)
    requires Inv(m) && Parsed(p).1 == ChainIcmpv6
    ensures |p| < 48 ==> Intercepted(m, p, now) == (m, Pass)
    ensures |p| >= 48 && (Word16(p, 4) < 8 || Word16(p, 4) != |p| - 40) ==> Intercepted(m, p, now) == (m, Drop)
    ensures WellFramed(p) && !Parsed(p).0.isFrag && |Behind(p)| < 8 ==> Intercepted(m, p, now) == (m, Drop)
  {
    hide Inv, Parsed, Behind, InternetChecksum.Checksum, Fragmented;
  }

  /**
   A fragment that cannot belong to an echo request, being empty or the
   beginning of another message, takes what its datagram had collected along;
   with nothing collected the other message is left to the local stack.
   */
  lemma ForeignFragmentsCancel(m: Entries, p: seq<byte>, now: int)
    requires Inv(m) && WellFramed(p) && Parsed(p).0.isFrag
    ensures var r, key := Intercepted(m, p, now), KeyOf(p[8..24], p[24..40], Parsed(p).0.fragIdent);
            && (Behind(p) == [] ==> r == (m - {key}, Drop))
            && (Behind(p) != [] && Parsed(p).0.fragOffset == 0 && Behind(p)[0] != 128 ==>
                  r == (m - {key}, if key in m then Drop else Pass))
  {
    hide Inv, Parsed, Behind, InternetChecksum.Checksum, Added, AddrOf;
  }

  /** However its headers are chained, a packet of another protocol passes. */
  lemma OtherProtocolsPass(m: Entries, header: seq<byte>, xs: seq<Ext>, proto: byte, payload: seq<byte>, now: int)
    requires Inv(m) && |header| == 40 && header[0] / 16 == 6 && header[6] == FirstKind(xs, proto)
    requires WfChain(xs) && IsTerminal(proto) && proto != 58
    ensures Intercepted(m, header + Encode(xs, proto) + payload, now) == (m, Pass)
  {
    ParseOfEncoded(header, xs, proto, payload);
    OthersPass(m, header + Encode(xs, proto) + payload, now);
    hide Inv, Parsed, Intercepted, Encode;
  }

  /** Whatever the table holds, a message that goes on is an echo request whose checksum verifies for the packet's addresses. */
  lemma OnlyVerifiedRequestsGoOn(m: Entries, p: seq<byte>, now: int)
    requires Inv(m)
    ensures Intercepted(m, p, now).1.Request? ==>
              var msg := Intercepted(m, p, now).1.msg;
              |p| >= 48 && msg != [] && msg[0] == 128 && InternetChecksum.Checksum(p[8..24], p[24..40], 58, msg) == 0
  {
    hide Inv, Parsed, Behind, InternetChecksum.Checksum, Added, AddrOf;
    if WellFramed(p) {
      var info := Parsed(p).0;
      H.HandedOutIsNotEmpty(m, KeyOf(p[8..24], p[24..40], info.fragIdent), info.fragOffset, info.fragMore, Behind(p), now);
    }
  }

  /** Every stored first fragment begins an echo request. */
  ghost predicate HoldsRequests(m: Entries) {
    forall k :: k in m && 0 in m[k].frags ==> m[k].frags[0] != [] && m[k].frags[0][0] == ECHO_REQUEST
  }

  lemma FragmentedKeepsRequests(m: Entries, key: Key, src: seq<byte>, dst: seq<byte>, off: uint16, more: bool, frag: seq<byte>, now: int)
    requires Inv(m) && HoldsRequests(m)
    ensures HoldsRequests(Fragmented(m, key, src, dst, off, more, frag, now).0)
  {
    hide Inv, InternetChecksum.Checksum, Joins, Storable, HasRoom, ContiguousLen, Assembled;
  }

  /** Whatever packets arrive, a table that began empty holds the beginnings of echo requests only. */
  lemma {:induction false} RunsHoldRequests(m: Entries, ps: seq<seq<byte>>, nows: seq<int>, k: nat)
    requires Inv(m) && HoldsRequests(m) && k <= |ps| == |nows|
    ensures HoldsRequests(Seen(m, ps, nows, k))
  {
    hide Inv, HoldsRequests, Fragmented, Parsed, AddrOf, Behind;
    if k > 0 {
      RunsHoldRequests(m, ps, nows, k - 1);
      SeenOneMore(m, ps, nows, k - 1);
      hide Seen;
      var r, p, now := Seen(m, ps, nows, k - 1), ps[k - 1], nows[k - 1];
      if WellFramed(p) {
        var info, src, dst := Parsed(p).0, p[8..24], p[24..40];
        FragmentedKeepsRequests(r, KeyOf(src, dst, info.fragIdent), src, dst, info.fragOffset, info.fragMore, Behind(p), now);
      }
    }
  }

  /** With requests in the table, what it hands out begins with a request: the test behind it never fires. */
  lemma OnlyRequestsComplete(m: Entries, key: Key, off: uint16, more: bool, frag: seq<byte>, now: int)
    requires Inv(m) && HoldsRequests(m) && frag != [] && (off == 0 ==> frag[0] == ECHO_REQUEST)
    ensures var full := Added(m, key, off, more, frag, now).1;
            full.Some? ==> full.value != [] && full.value[0] == ECHO_REQUEST
  {
    var full, f := Added(m, key, off, more, frag, now).1, H.Gathered(m, key, off, frag, now);
    assert 0 in f ==> f[0] != [] && f[0][0] == ECHO_REQUEST;
    hide Inv, Added, H.Gathered, HoldsRequests;
    H.AddedHandsOut(m, key, off, more, frag, now);
    H.HandedOutIsNotEmpty(m, key, off, more, frag, now);
    if full.Some? {
      StartsWithFirst(f);
    }
  }

  /** An assembled datagram starts with its fragment at offset zero. */
  lemma StartsWithFirst(f: Frags)
    requires f != map[] && WellSized(f) && ContiguousLen(f) > 0
    ensures 0 in f && f[0] != [] && Assembled(f, ContiguousLen(f))[0] == f[0][0]
  {
    var total := ContiguousLen(f);
    assert 0 in f;
    var n := if |f[0]| < total then |f[0]| else total;
    assert [] + f[0][..n] == f[0][..n];
    var full := Copied(f, total, 1, f[0][..n]);
    assert f[0][..n] <= full;
  }

  // ---------------------------------------------------------------------
  // A fragmented echo request.

  /** p is a fragment bringing share c of a message, behind whatever other extension headers. */
  ghost predicate IsPiece(p: seq<byte>, src: Octets16, dst: Octets16, ident: uint32, body: seq<byte>, c: Cut, more: bool) {
    && WellFramed(p) && p[8..24] == src && p[24..40] == dst
    && Parsed(p).0.isFrag && Parsed(p).0.fragIdent == ident && Parsed(p).0.fragOffset == c.unit && Parsed(p).0.fragMore == more
    && c.Start() <= c.end <= |body| && Behind(p) == Share(body, c)
  }

  /** The pieces of a message as they arrive. */
  ghost predicate Pieces(ps: seq<seq<byte>>, src: Octets16, dst: Octets16, ident: uint32, body: seq<byte>, cuts: seq<Cut>, order: seq<nat>) {
    && |ps| == |cuts| == |order|
    && forall k :: 0 <= k < |order| ==>
         order[k] < |cuts| && IsPiece(ps[k], src, dst, ident, body, cuts[order[k]], More(cuts, order[k]))
  }

  lemma PieceAt(ps: seq<seq<byte>>, src: Octets16, dst: Octets16, ident: uint32, body: seq<byte>, cuts: seq<Cut>, order: seq<nat>, k: nat)
    requires Pieces(ps, src, dst, ident, body, cuts, order) && k < |order|
    ensures |ps| == |cuts| == |order| && order[k] < |cuts|
    ensures IsPiece(ps[k], src, dst, ident, body, cuts[order[k]], More(cuts, order[k]))
  {
  }

  lemma FirstShareBegins(body: seq<byte>, cuts: seq<Cut>, j: nat)
    requires Cutting(cuts, |body|) && j < |cuts| && body != [] && cuts[j].Start() <= cuts[j].end <= |body|
    ensures Share(body, cuts[j]) != [] && (cuts[j].unit == 0 ==> Share(body, cuts[j])[0] == body[0])
  {
  }

  /** A piece of an echo request is fed to the table as it is. */
  lemma PieceIsFed(m: Entries, p: seq<byte>, src: Octets16, dst: Octets16, ident: uint32, body: seq<byte>, cuts: seq<Cut>, j: nat, now: int)
    requires Inv(m) && Cutting(cuts, |body|) && j < |cuts| && body != [] && body[0] == ECHO_REQUEST
    requires IsPiece(p, src, dst, ident, body, cuts[j], More(cuts, j))
    ensures var fed := Fed(m, KeyOf(src, dst, ident), body, cuts, j, now);
            fed.1 != Some([]) && Intercepted(m, p, now) == (fed.0, Completed(src, dst, fed.1))
  {
    hide Inv, Added, Parsed, Behind, AddrOf, InternetChecksum.Checksum, Cutting, Share;
    FirstShareBegins(body, cuts, j);
    H.HandedOutIsNotEmpty(m, KeyOf(src, dst, ident), cuts[j].unit, More(cuts, j), Share(body, cuts[j]), now);
  }

  /** The table after the first k packets were intercepted. */
  ghost function Seen(m: Entries, ps: seq<seq<byte>>, nows: seq<int>, k: nat): (r: Entries)
    requires Inv(m) && k <= |ps| == |nows|
    ensures Inv(r)
  {
    if k == 0 then m
    else
      InterceptedKeeps(Seen(m, ps, nows, k - 1), ps[k - 1], nows[k - 1]);
      Intercepted(Seen(m, ps, nows, k - 1), ps[k - 1], nows[k - 1]).0
  }

  lemma NothingSeen(m: Entries, ps: seq<seq<byte>>, nows: seq<int>)
    requires Inv(m) && |ps| == |nows|
    ensures Seen(m, ps, nows, 0) == m
  {
  }

  lemma SeenOneMore(m: Entries, ps: seq<seq<byte>>, nows: seq<int>, k: nat)
    requires Inv(m) && k < |ps| == |nows|
    ensures Seen(m, ps, nows, k + 1) == Intercepted(Seen(m, ps, nows, k), ps[k], nows[k]).0
  {
    hide Inv, Intercepted;
  }

  lemma {:induction false} SeenIsFed(src: Octets16, dst: Octets16, ident: uint32, body: seq<byte>, cuts: seq<Cut>, m: Entries,
                                     order: seq<nat>, nows: seq<int>, ps: seq<seq<byte>>, k: nat)
    requires body != [] && body[0] == ECHO_REQUEST && Roomy(m, KeyOf(src, dst, ident), body, cuts, order, nows)
    requires Pieces(ps, src, dst, ident, body, cuts, order) && k <= |ps| == |cuts| == |nows| && Inv(m)
    ensures Seen(m, ps, nows, k) == TableAfter(m, KeyOf(src, dst, ident), body, cuts, order, nows, k)
  {
    hide *;
    var key := KeyOf(src, dst, ident);
    if k == 0 {
      NothingSeen(m, ps, nows);
      NothingFed(m, key, body, cuts, order, nows);
    } else {
      SeenIsFed(src, dst, ident, body, cuts, m, order, nows, ps, k - 1);
      SeenOneMore(m, ps, nows, k - 1);
      FedOneMore(m, key, body, cuts, order, nows, k - 1);
      PieceAt(ps, src, dst, ident, body, cuts, order, k - 1);
      PieceIsFed(Seen(m, ps, nows, k - 1), ps[k - 1], src, dst, ident, body, cuts, order[k - 1], nows[k - 1]);
    }
  }

  lemma CompletedRequest(src: seq<byte>, dst: seq<byte>, body: seq<byte>)
    requires body != [] && body[0] == ECHO_REQUEST
    ensures Completed(src, dst, Some(body)) == Verified(src, dst, body) && Completed(src, dst, None) == Drop
  {
  }

  /**
   An echo request cut into any fragments, arriving in any order within thirty
   seconds at a table with room: every fragment but the last is consumed
   silently, and at the last one the very request goes on if and only if its
   checksum verifies.
   */
  lemma FragmentedRequestGetsThrough(src: Octets16, dst: Octets16, ident: uint32, body: seq<byte>, cuts: seq<Cut>, m: Entries,
                                     order: seq<nat>, nows: seq<int>, ps: seq<seq<byte>>, k: nat)
    requires body != [] && body[0] == ECHO_REQUEST && Roomy(m, KeyOf(src, dst, ident), body, cuts, order, nows)
    requires Pieces(ps, src, dst, ident, body, cuts, order) && k < |ps|
    ensures Inv(m) && |nows| == |ps|
    ensures Intercepted(Seen(m, ps, nows, k), ps[k], nows[k]).1 == if k + 1 < |ps| then Drop else Verified(src, dst, body)
  {
    hide *;
    var key := KeyOf(src, dst, ident);
    RoomyStart(m, key, body, cuts, order, nows);
    PieceAt(ps, src, dst, ident, body, cuts, order, k);
    SeenIsFed(src, dst, ident, body, cuts, m, order, nows, ps, k);
    PieceIsFed(Seen(m, ps, nows, k), ps[k], src, dst, ident, body, cuts, order[k], nows[k]);
    FedInAnyOrder(m, key, body, cuts, order, nows, k);
    CompletedRequest(src, dst, body);
  }

  /** An echo request in one packet without extension headers. */
  predicate WholeRequest(pkt: seq<byte>) {
    && 40 < |pkt| && pkt[0] / 16 == 6 && pkt[6] == ICMPV6 && Word16(pkt, 4) == |pkt| - 40 && pkt[40] == ECHO_REQUEST
  }

  lemma WholeIsRead(pkt: seq<byte>)
    requires WholeRequest(pkt)
    ensures Parsed(pkt) == (NO_INFO.(l4Offset := 40), ChainIcmpv6)
  {
  }

  /** Sent whole it is judged by the same checksum, if it has the eight octets of an echo header. */
  lemma WholeRequestVerdict(m: Entries, pkt: seq<byte>, now: int)
    requires Inv(m) && WholeRequest(pkt)
    ensures Intercepted(m, pkt, now) == (m, if |pkt| < 48 then Pass else Verified(pkt[8..24], pkt[24..40], pkt[40..]))
  {
    WholeIsRead(pkt);
    hide Inv, Parsed, InternetChecksum.Checksum;
  }

  /**
   Cutting changes nothing: the last fragment of a request gets the verdict the
   whole packet would get, if and only if the request has an echo header's
   eight octets. A shorter one is left to the local stack when sent whole.
   */
  lemma CutOrWhole(pkt: seq<byte>, ident: uint32, cuts: seq<Cut>, m: Entries, order: seq<nat>, nows: seq<int>, ps: seq<seq<byte>>, r: Entries, now: int)
    requires WholeRequest(pkt) && Inv(r) && Roomy(m, KeyOf(pkt[8..24], pkt[24..40], ident), pkt[40..], cuts, order, nows)
    requires Pieces(ps, pkt[8..24], pkt[24..40], ident, pkt[40..], cuts, order) && ps != []
    ensures Inv(m) && |nows| == |ps|
    ensures Intercepted(Seen(m, ps, nows, |ps| - 1), ps[|ps| - 1], nows[|ps| - 1]).1 == Intercepted(r, pkt, now).1 <==> |pkt| >= 48
  {
    hide Inv, Roomy, Pieces, Intercepted, Seen, InternetChecksum.Checksum;
    FragmentedRequestGetsThrough(pkt[8..24], pkt[24..40], ident, pkt[40..], cuts, m, order, nows, ps, |ps| - 1);
    WholeRequestVerdict(r, pkt, now);
  }

  /** The fragments that fragmentIPv6Packet cuts are such pieces. */
  lemma FragmentsArePieces(pkt: seq<byte>, mtu: int, ident: uint32, order: seq<nat>, ps: seq<seq<byte>>)
    requires F.Cuttable(pkt, mtu) && |order| == |F.SharesOf(pkt, mtu)| && F.Arranged(ps, F.Fragments(pkt, mtu, ident), order)
    ensures Pieces(ps, pkt[8..24], pkt[24..40], ident, pkt[40..], F.SharesOf(pkt, mtu), order)
  {
    var cuts := F.SharesOf(pkt, mtu);
    forall k | 0 <= k < |order|
      ensures order[k] < |cuts| && IsPiece(ps[k], pkt[8..24], pkt[24..40], ident, pkt[40..], cuts[order[k]], More(cuts, order[k]))
    {
      F.ArrangedAt(ps, F.Fragments(pkt, mtu, ident), order, k);
      hide F.Fragments, F.SharesOf, F.Carries, F.Arranged, IsPiece;
      F.EachFragmentIsRight(pkt, mtu, ident, order[k]);
      CarriedIsPiece(ps[k], pkt, cuts[order[k]], More(cuts, order[k]), ident);
    }
  }

  lemma SameAddresses(p: seq<byte>, q: seq<byte>)
    requires |p| >= 40 && |q| >= 40 && p[7..40] == q[7..40]
    ensures p[8..24] == q[8..24] && p[24..40] == q[24..40]
  {
    forall i | 8 <= i < 40
      ensures p[i] == q[i]
    {
      assert p[i] == p[7..40][i - 7] && q[i] == q[7..40][i - 7];
    }
  }

  lemma CarriedIsPiece(p: seq<byte>, pkt: seq<byte>, c: Cut, more: bool, ident: uint32)
    requires |pkt| >= 40 && |p| - 40 <= 0xFFFF && F.Carries(p, pkt, c, more, ident)
    ensures IsPiece(p, pkt[8..24], pkt[24..40], ident, pkt[40..], c, more)
  {
    hide Parsed;
    SameAddresses(p, pkt);
  }
}
