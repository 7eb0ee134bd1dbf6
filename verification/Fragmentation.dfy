/**
 Outbound fragmentation, fragmentIPv6Packet in src/nat64/ipv6chain.go, and its
 composition with the header-chain walk and the reassembly table.
 */
module Fragmentation {
  import opened Octets
  import opened Buffers
  import opened Ipv6Chain
  import opened ReasmTable
  import opened Datagram
  import opened DatagramRun

  const HEADERS := 48   // fixed header and Fragment header

  /** Whole eight-octet units that fit a fragment; nothing fits when it is not positive. */
  function UnitsPerFragment(mtu: int): int {
    (mtu - HEADERS) / 8
  }

  /** The shares of a body of n octets from a unit on, per units each. */
  function Cuts(n: nat, per: nat, unit: nat): (cuts: seq<Cut>)
    requires per > 0 && 8 * unit < n
    ensures cuts != [] && cuts[0].unit == unit
    decreases n - 8 * unit
  {
    if 8 * (unit + per) < n then [Cut(unit, 8 * (unit + per))] + Cuts(n, per, unit + per)
    else [Cut(unit, n)]
  }

  /** The Fragment header word: offset in the top 13 bits, M flag in the last, all in sixteen bits. */
  function OffsetWord(unit: nat, more: bool): uint16 {
    (unit % 0x1_0000) * 8 % 0x1_0000 + if more then 1 else 0
  }

  /** One fragment: the fixed header with its length and Next Header rewritten, a Fragment header, the share. */
  function FragmentOf(pkt: seq<byte>, c: Cut, more: bool, ident: uint32): (p: seq<byte>)
    requires |pkt| >= 40 && c.Start() <= c.end <= |pkt| - 40
    ensures |p| == HEADERS + c.end - c.Start()
  {
    var header := Put(Zeros(HEADERS + c.end - c.Start()), 0, pkt[..40]);
    var length := Put(header, 4, Be16((8 + c.end - c.Start()) % 0x1_0000));
    var next := Put(Put(length, 6, [FRAGMENT]), 40, [ICMPV6]);
    var word := Put(next, 42, Be16(OffsetWord(c.unit, more)));
    Put(Put(word, 44, Be32(ident)), HEADERS, pkt[40 + c.Start()..40 + c.end])
  }

  function FragmentsFrom(pkt: seq<byte>, per: nat, unit: nat, ident: uint32): seq<seq<byte>>
    requires |pkt| >= 40 && per > 0 && 8 * unit < |pkt| - 40
    decreases |pkt| - 8 * unit
  {
    if 8 * (unit + per) < |pkt| - 40 then
      [FragmentOf(pkt, Cut(unit, 8 * (unit + per)), true, ident)] + FragmentsFrom(pkt, per, unit + per, ident)
    else [FragmentOf(pkt, Cut(unit, |pkt| - 40), false, ident)]
  }

  function Fragments(pkt: seq<byte>, mtu: int, ident: uint32): seq<seq<byte>> {
    if |pkt| <= 40 || |pkt| <= mtu then [pkt]
    else if UnitsPerFragment(mtu) <= 0 then []
    else FragmentsFrom(pkt, UnitsPerFragment(mtu), 0, ident)
  }

  /** One fragment written into a fresh buffer. */
  method WriteFragment(pkt: seq<byte>, sent: nat, end: nat, more: bool, ident: uint32, ghost c: Cut) returns (p: array<byte>)
    requires |pkt| >= 40 && sent <= end <= |pkt| - 40 && c.Start() == sent && c.end == end
    ensures fresh(p) && p[..] == FragmentOf(pkt, c, more, ident)
  {
    hide Put, Be16, Be32, OffsetWord;
    p := NewBuffer(HEADERS + end - sent);
    Copy(p, 0, pkt[..40]);
    Copy(p, 4, Be16((p.Length - 40) % 0x1_0000));
    Copy(p, 6, [FRAGMENT]);
    Copy(p, 40, [ICMPV6]);
    assert sent / 8 == c.unit;
    Copy(p, 42, Be16(OffsetWord(sent / 8, more)));
    Copy(p, 44, Be32(ident));
    Copy(p, HEADERS, pkt[40 + sent..40 + end]);
  }

  /** The first fragment and the ones behind it; `end` is where its share ends. */
  lemma FirstFragment(pkt: seq<byte>, per: nat, unit: nat, ident: uint32, end: nat)
    requires |pkt| >= 40 && per > 0 && 8 * unit < |pkt| - 40
    requires end == if 8 * (unit + per) < |pkt| - 40 then 8 * (unit + per) else |pkt| - 40
    ensures FragmentsFrom(pkt, per, unit, ident)
         == [FragmentOf(pkt, Cut(unit, end), end < |pkt| - 40, ident)]
            + if end < |pkt| - 40 then FragmentsFrom(pkt, per, unit + per, ident) else []
  {
    hide FragmentOf;
  }

  lemma Shift<T>(front: seq<T>, x: T, back: seq<T>)
    ensures front + ([x] + back) == front + [x] + back
  {
  }

  /** The loop of fragmentIPv6Packet. */
  method CutUp(pkt: seq<byte>, per: nat, ident: uint32) returns (out: seq<seq<byte>>)
    requires |pkt| > 40 && per > 0
    ensures out == FragmentsFrom(pkt, per, 0, ident)
  {
    hide FragmentOf, FragmentsFrom;
    out := [];
    var n, sent := |pkt| - 40, 0;
    ghost var unit, rest := 0, FragmentsFrom(pkt, per, 0, ident);
    while sent < n
      invariant 0 <= sent <= n && 0 <= unit && (sent < n ==> sent == 8 * unit)
      invariant out + rest == FragmentsFrom(pkt, per, 0, ident)
      invariant rest == if sent < n then FragmentsFrom(pkt, per, unit, ident) else []
      decreases n - sent
    {
      var end := sent + 8 * per;
      if end > n {
        end := n;
      }
      FirstFragment(pkt, per, unit, ident, end);
      var p := WriteFragment(pkt, sent, end, end < n, ident, Cut(unit, end));
      ghost var behind := if end < n then FragmentsFrom(pkt, per, unit + per, ident) else [];
      Shift(out, p[..], behind);
      out, rest := out + [p[..]], behind;
      sent, unit := end, unit + per;
    }
  }

  /** fragmentIPv6Packet. */
  method FragmentPacket(pkt: seq<byte>, mtu: int, ident: uint32) returns (out: seq<seq<byte>>)
    ensures out == Fragments(pkt, mtu, ident)
    ensures |pkt| <= mtu ==> out == [pkt]
  {
    if |pkt| <= 40 || |pkt| <= mtu {
      return [pkt];
    }
    var per := UnitsPerFragment(mtu);
    if per <= 0 {
      return [];
    }
    out := CutUp(pkt, per, ident);
  }

  // ---------------------------------------------------------------------
  // What a fragment is to its receiver.

  lemma {:induction false} CutsAreACutting(n: nat, per: nat, unit: nat)
    requires per > 0 && 8 * unit < n
    ensures var cuts := Cuts(n, per, unit);
            && cuts[|cuts| - 1].end == n
            && (forall i :: 0 <= i < |cuts| ==> cuts[i].Start() < cuts[i].end <= cuts[i].Start() + 8 * per && cuts[i].end <= n)
            && (forall i :: 0 <= i < |cuts| - 1 ==> cuts[i].end == cuts[i].Start() + 8 * per)
            && (forall i :: 0 <= i < |cuts| - 1 ==> cuts[i].end == cuts[i + 1].Start())
    decreases n - 8 * unit
  {
    if 8 * (unit + per) < n {
      CutsAreACutting(n, per, unit + per);
    }
  }

  lemma {:induction false} FragmentAt(pkt: seq<byte>, per: nat, unit: nat, ident: uint32, i: nat)
    requires |pkt| >= 40 && per > 0 && 8 * unit < |pkt| - 40
    requires i < |Cuts(|pkt| - 40, per, unit)|
    ensures |FragmentsFrom(pkt, per, unit, ident)| == |Cuts(|pkt| - 40, per, unit)|
    ensures var cuts := Cuts(|pkt| - 40, per, unit);
            && cuts[i].Start() <= cuts[i].end <= |pkt| - 40
            && FragmentsFrom(pkt, per, unit, ident)[i] == FragmentOf(pkt, cuts[i], More(cuts, i), ident)
    decreases |pkt| - 8 * unit
  {
    hide FragmentOf;
    if 8 * (unit + per) < |pkt| - 40 {
      FragmentAt(pkt, per, unit + per, ident, if i > 0 then i - 1 else 0);
    }
  }

  /** The octets of a fragment its receiver reads. */
  lemma FragmentLayout(pkt: seq<byte>, c: Cut, more: bool, ident: uint32)
    requires |pkt| >= 40 && c.Start() <= c.end <= |pkt| - 40
    ensures var p := FragmentOf(pkt, c, more, ident);
            && p[..4] == pkt[..4] && p[4..6] == Be16((8 + c.end - c.Start()) % 0x1_0000) && p[6] == FRAGMENT
            && p[7..40] == pkt[7..40]
            && p[40] == ICMPV6 && p[41] == 0 && p[42..44] == Be16(OffsetWord(c.unit, more)) && p[44..48] == Be32(ident)
            && p[48..] == pkt[40 + c.Start()..40 + c.end]
  {
    var p := FragmentOf(pkt, c, more, ident);
    var len, word, id := Be16((8 + c.end - c.Start()) % 0x1_0000), Be16(OffsetWord(c.unit, more)), Be32(ident);
    hide Be16, Be32, OffsetWord;
  }

  /** The Fragment header of a fragment, as the chain walk knows it. */
  lemma FragmentHeader(pkt: seq<byte>, c: Cut, more: bool, ident: uint32)
    requires 40 <= |pkt| && c.Start() <= c.end <= |pkt| - 40 && c.unit < 0x2000
    ensures FragmentOf(pkt, c, more, ident)[40..48] == EncodeExt(Fragment(0, c.unit, 0, more, ident), ICMPV6)
  {
    var p := FragmentOf(pkt, c, more, ident);
    FragmentLayout(pkt, c, more, ident);
    assert OffsetWord(c.unit, more) == FragmentWord(c.unit, 0, more);
    hide FragmentOf, Be16, Be32, OffsetWord, FragmentWord;
    assert p[40..48] == [p[40], p[41]] + p[42..44] + p[44..48];
  }

  /** A fragment parses back to its offset, M flag and identification, with an ICMPv6 message behind. */
  lemma FragmentParsesBack(pkt: seq<byte>, c: Cut, more: bool, ident: uint32)
    requires 40 <= |pkt| <= 40 + 0xFFFF && pkt[0] / 16 == 6 && c.Start() < c.end <= |pkt| - 40
    ensures c.unit < 0x2000
    ensures Parsed(FragmentOf(pkt, c, more, ident)) == (Info(HEADERS, c.unit, ident, more, true), ChainIcmpv6)
  {
    hide FragmentOf, Be16, Be32, OffsetWord, EncodeExt, Parsed, WithFragment;
    var p := FragmentOf(pkt, c, more, ident);
    FragmentLayout(pkt, c, more, ident);
    FragmentHeader(pkt, c, more, ident);
    assert p[0] == p[..4][0] == pkt[..4][0];
    EncodedFragment(p, 40, Fragment(0, c.unit, 0, more, ident), ICMPV6, NO_INFO);
    WalkOneFragment(p);
  }

  lemma WalkOneFragment(p: seq<byte>)
    requires |p| >= HEADERS && p[0] / 16 == 6 && p[6] == FRAGMENT && p[40] == ICMPV6
    ensures Parsed(p) == (WithFragment(NO_INFO, p, 40).(l4Offset := HEADERS), ChainIcmpv6)
  {
    assert WalkChain(p, FRAGMENT, 40, NO_INFO) == WalkChain(p, ICMPV6, 48, WithFragment(NO_INFO, p, 40));
  }

  /** The packets that need cutting and can be cut. */
  predicate Cuttable(pkt: seq<byte>, mtu: int) {
    40 < |pkt| <= 40 + 0xFFFF && |pkt| > mtu && mtu >= 56 && pkt[0] / 16 == 6
  }

  function SharesOf(pkt: seq<byte>, mtu: int): seq<Cut>
    requires Cuttable(pkt, mtu)
  {
    Cuts(|pkt| - 40, UnitsPerFragment(mtu), 0)
  }

  lemma SharesAreACutting(pkt: seq<byte>, mtu: int)
    requires Cuttable(pkt, mtu)
    ensures Cutting(SharesOf(pkt, mtu), |pkt[40..]|)
    ensures forall i :: 0 <= i < |SharesOf(pkt, mtu)| ==>
              SharesOf(pkt, mtu)[i].end - SharesOf(pkt, mtu)[i].Start() <= mtu - HEADERS
    ensures forall i :: 0 <= i < |SharesOf(pkt, mtu)| - 1 ==>
              SharesOf(pkt, mtu)[i].end - SharesOf(pkt, mtu)[i].Start() + 8 > mtu - HEADERS
  {
    CutsAreACutting(|pkt| - 40, UnitsPerFragment(mtu), 0);
  }

  /** The fragment p carries share c of the packet. */
  ghost predicate Carries(p: seq<byte>, pkt: seq<byte>, c: Cut, more: bool, ident: uint32)
    requires |pkt| >= 40
  {
    && |p| == HEADERS + c.end - c.Start() && c.Start() < c.end <= |pkt| - 40 && c.unit < 0x2000
    && Parsed(p) == (Info(HEADERS, c.unit, ident, more, true), ChainIcmpv6)
    && p[HEADERS..] == Share(pkt[40..], c)
    && (|p| - 40 <= 0xFFFF ==> Word16(p, 4) == |p| - 40)
    && p[..4] == pkt[..4] && p[7..40] == pkt[7..40]
  }

  lemma FragmentCarriesItsShare(pkt: seq<byte>, c: Cut, more: bool, ident: uint32)
    requires 40 <= |pkt| <= 40 + 0xFFFF && pkt[0] / 16 == 6 && c.Start() < c.end <= |pkt| - 40
    ensures Carries(FragmentOf(pkt, c, more, ident), pkt, c, more, ident)
  {
    var p := FragmentOf(pkt, c, more, ident);
    FragmentParsesBack(pkt, c, more, ident);
    FragmentLayout(pkt, c, more, ident);
    hide FragmentOf, Parsed;
    if |p| - 40 <= 0xFFFF {
      assert Word16(p, 4) == Word16(p[4..6], 0);
    }
  }

  /**
   Every fragment fits the MTU, and all but the last leave no room for another
   eight octets; it states its own length, keeps the rest of the
   fixed header, parses back to its place in the datagram and carries exactly
   its share of the body.
   */
  lemma EachFragmentIsRight(pkt: seq<byte>, mtu: int, ident: uint32, i: nat)
    requires Cuttable(pkt, mtu) && i < |SharesOf(pkt, mtu)|
    ensures |Fragments(pkt, mtu, ident)| == |SharesOf(pkt, mtu)|
    ensures var p, cuts := Fragments(pkt, mtu, ident)[i], SharesOf(pkt, mtu);
            |p| <= mtu && Carries(p, pkt, cuts[i], More(cuts, i), ident) && (i + 1 < |cuts| ==> mtu < |p| + 8)
  {
    var cuts := SharesOf(pkt, mtu);
    SharesAreACutting(pkt, mtu);
    CutEndsWithin(cuts, |pkt[40..]|, i);
    FragmentAt(pkt, UnitsPerFragment(mtu), 0, ident, i);
    hide FragmentOf, Carries;
    FragmentCarriesItsShare(pkt, cuts[i], More(cuts, i), ident);
  }

  /** The Next Header of every fragment is ICMPv6, so the protocol survives if and only if it was ICMPv6. */
  lemma ProtocolSurvivesIffIcmpv6(pkt: seq<byte>, mtu: int, ident: uint32, i: nat)
    requires Cuttable(pkt, mtu) && i < |SharesOf(pkt, mtu)|
    ensures |Fragments(pkt, mtu, ident)| == |SharesOf(pkt, mtu)| && |Fragments(pkt, mtu, ident)[i]| > 40
    ensures Fragments(pkt, mtu, ident)[i][40] == ICMPV6
    ensures Fragments(pkt, mtu, ident)[i][40] == pkt[6] <==> pkt[6] == ICMPV6
  {
    SharesAreACutting(pkt, mtu);
    FragmentAt(pkt, UnitsPerFragment(mtu), 0, ident, i);
    FragmentLayout(pkt, SharesOf(pkt, mtu)[i], More(SharesOf(pkt, mtu), i), ident);
    hide FragmentOf;
  }

  /** Every packet is sent, whole or cut, unless it is too long for the link and the link has no room for a fragment. */
  lemma SentUnless(pkt: seq<byte>, mtu: int, ident: uint32)
    ensures |pkt| <= 40 || |pkt| <= mtu ==> Fragments(pkt, mtu, ident) == [pkt]
    ensures Fragments(pkt, mtu, ident) == [] <==> 40 < |pkt| && |pkt| > mtu && mtu < 56
    ensures Fragments(pkt, mtu, ident) != [pkt] ==> 40 < |pkt| && |pkt| > mtu
  {
    hide FragmentOf;
  }

  /** A fragment read by the chain walk and added to the table. */
  ghost function ReadAndAdded(m: Entries, key: Key, p: seq<byte>, now: int): (Entries, Option<seq<byte>>)
    requires Inv(m) && Parsed(p).0.l4Offset <= |p|
  {
    var info := Parsed(p).0;
    Added(m, key, info.fragOffset, info.fragMore, p[info.l4Offset..], now)
  }

  /**
   Cut, parse and reassemble is the identity: the fragments of a packet, taken
   in any order, yield nothing until the last one arrives and then the very body.
   */
  lemma CutParseReassemble(pkt: seq<byte>, mtu: int, ident: uint32, key: Key, order: seq<nat>,
                           tables: seq<Entries>, nows: seq<int>, k: nat)
    requires Cuttable(pkt, mtu) && k < |SharesOf(pkt, mtu)|
    requires Arrivals(key, pkt[40..], SharesOf(pkt, mtu), order, tables, nows)
    ensures |Fragments(pkt, mtu, ident)| == |order| == |tables| == |nows| && order[k] < |order| && Inv(tables[k])
    ensures var p := Fragments(pkt, mtu, ident)[order[k]];
            && Parsed(p).0.l4Offset <= |p|
            && ReadAndAdded(tables[k], key, p, nows[k]).1 == if k + 1 < |order| then None else Some(pkt[40..])
  {
    var cuts := SharesOf(pkt, mtu);
    ArrivalAt(key, pkt[40..], cuts, order, tables, nows, k);
    EachFragmentIsRight(pkt, mtu, ident, order[k]);
    ReassembledInAnyOrder(key, pkt[40..], cuts, order, tables, nows, k);
    hide Arrivals, Inv, Added, Fragments, Parsed, SharesOf, Cutting, Ready;
  }

  // ---------------------------------------------------------------------
  // From room at the start.

  lemma ReadIsFed(pkt: seq<byte>, mtu: int, ident: uint32, m: Entries, key: Key, j: nat, now: int)
    requires Cuttable(pkt, mtu) && j < |SharesOf(pkt, mtu)| && Inv(m)
    ensures Cutting(SharesOf(pkt, mtu), |pkt[40..]|) && |Fragments(pkt, mtu, ident)| == |SharesOf(pkt, mtu)|
    ensures var p := Fragments(pkt, mtu, ident)[j];
            && Parsed(p).0.l4Offset <= |p|
            && ReadAndAdded(m, key, p, now) == Fed(m, key, pkt[40..], SharesOf(pkt, mtu), j, now)
  {
    SharesAreACutting(pkt, mtu);
    EachFragmentIsRight(pkt, mtu, ident, j);
    hide Inv, Added, Fragments, Parsed, SharesOf, Cutting;
  }

  /** Packets the chain walk finds a place in. */
  ghost predicate Readable(ps: seq<seq<byte>>) {
    forall i :: 0 <= i < |ps| ==> Parsed(ps[i]).0.l4Offset <= |ps[i]|
  }

  /** The table after the first k packets were read and added. */
  ghost function Caught(m: Entries, key: Key, ps: seq<seq<byte>>, nows: seq<int>, k: nat): (r: Entries)
    requires Inv(m) && Readable(ps) && k <= |ps| == |nows|
    ensures Inv(r)
  {
    if k == 0 then m
    else
      var before := Caught(m, key, ps, nows, k - 1);
      var info := Parsed(ps[k - 1]).0;
      AddedKeeps(before, key, info.fragOffset, info.fragMore, ps[k - 1][info.l4Offset..], nows[k - 1]);
      ReadAndAdded(before, key, ps[k - 1], nows[k - 1]).0
  }

  /** The fragments in the order they arrive. */
  ghost predicate Arranged(ps: seq<seq<byte>>, frs: seq<seq<byte>>, order: seq<nat>) {
    |ps| == |frs| == |order| && forall k :: 0 <= k < |order| ==> order[k] < |frs| && ps[k] == frs[order[k]]
  }

  lemma ArrangedAt(ps: seq<seq<byte>>, frs: seq<seq<byte>>, order: seq<nat>, k: nat)
    requires Arranged(ps, frs, order) && k < |order|
    ensures |ps| == |order| && order[k] < |frs| && ps[k] == frs[order[k]]
  {
  }

  lemma NothingYet(m: Entries, key: Key, ps: seq<seq<byte>>, nows: seq<int>)
    requires Inv(m) && Readable(ps) && |ps| == |nows|
    ensures Caught(m, key, ps, nows, 0) == m
  {
  }

  lemma CaughtOneMore(m: Entries, key: Key, ps: seq<seq<byte>>, nows: seq<int>, k: nat)
    requires Inv(m) && Readable(ps) && k < |ps| == |nows|
    ensures Parsed(ps[k]).0.l4Offset <= |ps[k]|
    ensures Caught(m, key, ps, nows, k + 1) == ReadAndAdded(Caught(m, key, ps, nows, k), key, ps[k], nows[k]).0
  {
    hide Inv, Parsed, ReadAndAdded;
  }

  lemma CaughtStep(pkt: seq<byte>, mtu: int, ident: uint32, body: seq<byte>, cuts: seq<Cut>, r: Entries, key: Key, j: nat, p: seq<byte>, now: int)
    requires Cuttable(pkt, mtu) && body == pkt[40..] && cuts == SharesOf(pkt, mtu) && Inv(r) && j < |cuts|
    requires |Fragments(pkt, mtu, ident)| == |cuts| ==> p == Fragments(pkt, mtu, ident)[j]
    ensures Cutting(cuts, |body|) && Parsed(p).0.l4Offset <= |p|
    ensures ReadAndAdded(r, key, p, now) == Fed(r, key, body, cuts, j, now)
  {
    hide Cuttable, Inv, SharesOf, Fragments, ReadAndAdded, Fed, Parsed, Cutting;
    ReadIsFed(pkt, mtu, ident, r, key, j, now);
  }

  lemma {:induction false} CaughtIsFed(pkt: seq<byte>, mtu: int, ident: uint32, body: seq<byte>, cuts: seq<Cut>, m: Entries, key: Key,
                                       order: seq<nat>, nows: seq<int>, ps: seq<seq<byte>>, k: nat)
    requires Cuttable(pkt, mtu) && body == pkt[40..] && cuts == SharesOf(pkt, mtu) && Roomy(m, key, body, cuts, order, nows)
    requires Arranged(ps, Fragments(pkt, mtu, ident), order) && |nows| == |ps| == |cuts| && k <= |ps|
    requires Inv(m) && Readable(ps)
    ensures Caught(m, key, ps, nows, k) == TableAfter(m, key, body, cuts, order, nows, k)
  {
    hide *;
    if k == 0 {
      NothingYet(m, key, ps, nows);
      NothingFed(m, key, body, cuts, order, nows);
    } else {
      CaughtIsFed(pkt, mtu, ident, body, cuts, m, key, order, nows, ps, k - 1);
      CaughtOneMore(m, key, ps, nows, k - 1);
      FedOneMore(m, key, body, cuts, order, nows, k - 1);
      ArrangedAt(ps, Fragments(pkt, mtu, ident), order, k - 1);
      CaughtStep(pkt, mtu, ident, body, cuts, Caught(m, key, ps, nows, k - 1), key, order[k - 1], ps[k - 1], nows[k - 1]);
    }
  }

  lemma ArrangedIsReadable(pkt: seq<byte>, mtu: int, ident: uint32, m: Entries, key: Key, order: seq<nat>, nows: seq<int>, ps: seq<seq<byte>>)
    requires Cuttable(pkt, mtu) && Roomy(m, key, pkt[40..], SharesOf(pkt, mtu), order, nows)
    requires Arranged(ps, Fragments(pkt, mtu, ident), order)
    ensures Inv(m) && Readable(ps) && |nows| == |ps| == |SharesOf(pkt, mtu)|
  {
    hide Roomy, Inv, Fragments, SharesOf, ReadAndAdded, Fed, Parsed;
    RoomyStart(m, key, pkt[40..], SharesOf(pkt, mtu), order, nows);
    ReadIsFed(pkt, mtu, ident, m, key, 0, 0);
    forall i | 0 <= i < |ps|
      ensures Parsed(ps[i]).0.l4Offset <= |ps[i]|
    {
      ReadIsFed(pkt, mtu, ident, m, key, order[i], 0);
    }
  }

  /**
   Cut, parse and reassemble from any table that has a free entry and room for
   the body: the fragments, in any order and all within thirty seconds of the
   first, yield nothing until the last one arrives and then the very body.
   */
  lemma CutParseReassembleWithRoom(pkt: seq<byte>, mtu: int, ident: uint32, m: Entries, key: Key, order: seq<nat>,
                                   nows: seq<int>, ps: seq<seq<byte>>, k: nat)
    requires Cuttable(pkt, mtu) && Roomy(m, key, pkt[40..], SharesOf(pkt, mtu), order, nows)
    requires Arranged(ps, Fragments(pkt, mtu, ident), order) && k < |ps|
    ensures Inv(m) && Readable(ps) && |nows| == |ps|
    ensures ReadAndAdded(Caught(m, key, ps, nows, k), key, ps[k], nows[k]).1
         == if k + 1 < |ps| then None else Some(pkt[40..])
  {
    hide Roomy, Inv, Fragments, SharesOf, ReadAndAdded, Fed, Readable, Caught, TableAfter;
    ArrangedIsReadable(pkt, mtu, ident, m, key, order, nows, ps);
    CaughtIsFed(pkt, mtu, ident, pkt[40..], SharesOf(pkt, mtu), m, key, order, nows, ps, k);
    ReadIsFed(pkt, mtu, ident, Caught(m, key, ps, nows, k), key, order[k], nows[k]);
    FedInAnyOrder(m, key, pkt[40..], SharesOf(pkt, mtu), order, nows, k);
  }
}
