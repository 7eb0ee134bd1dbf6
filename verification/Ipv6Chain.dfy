/**
 IPv6 header chains and outbound fragmentation, src/nat64/ipv6chain.go
 (sections 4 and 4.5 of RFC 8200).
 */
module Ipv6Chain {
  import opened Octets

  const FRAGMENT := 44

  datatype Status = ChainIcmpv6 | ChainOther | ChainInvalid

  datatype Info = Info(l4Offset: nat, fragOffset: uint16, fragIdent: uint32, fragMore: bool, isFrag: bool)

  const NO_INFO := Info(0, 0, 0, false, false)

  /** Hop-by-Hop Options, Routing, Destination Options. */
  predicate IsOptions(nh: byte) {
    nh == 0 || nh == 43 || nh == 60
  }

  /** Neither an extension header the walk follows nor a Fragment header. */
  predicate IsTerminal(nh: byte) {
    !IsOptions(nh) && nh != FRAGMENT
  }

  function TerminalStatus(nh: byte): Status {
    if nh == ICMPV6 then ChainIcmpv6 else ChainOther
  }

  // ---------------------------------------------------------------------
  // The walk.

  /** The Fragment header at `off`: offset in the top 13 bits, M flag in the last. */
  function WithFragment(info: Info, pkt: seq<byte>, off: nat): Info
    requires off + 8 <= |pkt|
  {
    var word := Word16(pkt, off + 2);
    info.(isFrag := true, fragOffset := word / 8, fragMore := word % 2 != 0, fragIdent := Word32(pkt, off + 4))
  }

  function OptionsLength(pkt: seq<byte>, off: nat): nat
    requires off + 2 <= |pkt|
  {
    var units: int := pkt[off + 1];
    (units + 1) * 8
  }

  /** The walk from the header of kind nh at offset `off`. */
  function WalkChain(pkt: seq<byte>, nh: byte, off: nat, info: Info): (Info, Status)
    requires off <= |pkt|
    decreases |pkt| - off
  {
    if IsOptions(nh) then
      if off + 2 > |pkt| || off + OptionsLength(pkt, off) > |pkt| then (info, ChainInvalid)
      else WalkChain(pkt, pkt[off], off + OptionsLength(pkt, off), info)
    else if nh == FRAGMENT then
      if info.isFrag || off + 8 > |pkt| then (info, ChainInvalid)
      else WalkChain(pkt, pkt[off], off + 8, WithFragment(info, pkt, off))
    else (info.(l4Offset := off), TerminalStatus(nh))
  }

  function Parsed(pkt: seq<byte>): (Info, Status) {
    if |pkt| < 40 || pkt[0] / 16 != 6 then (NO_INFO, ChainInvalid)
    else WalkChain(pkt, pkt[6], 40, NO_INFO)
  }

  method ParseHeaderChain(pkt: seq<byte>) returns (info: Info, status: Status)
    ensures (info, status) == Parsed(pkt)
  {
    info := NO_INFO;
    if |pkt| < 40 || pkt[0] / 16 != 6 {
      return info, ChainInvalid;
    }
    var nh, off := pkt[6], 40;
    while !IsTerminal(nh)
      invariant 40 <= off <= |pkt|
      invariant WalkChain(pkt, nh, off, info) == Parsed(pkt)
      decreases |pkt| - off
    {
      if nh == FRAGMENT {
        if info.isFrag || off + 8 > |pkt| {
          return info, ChainInvalid;
        }
        info := WithFragment(info, pkt, off);
        nh, off := pkt[off], off + 8;
      } else {
        if off + 2 > |pkt| || off + OptionsLength(pkt, off) > |pkt| {
          return info, ChainInvalid;
        }
        nh, off := pkt[off], off + OptionsLength(pkt, off);
      }
    }
    info := info.(l4Offset := off);
    status := if nh == ICMPV6 then ChainIcmpv6 else ChainOther;
  }

  // ---------------------------------------------------------------------
  // What the walk inverts: header chains written out.

  datatype Ext =
    | Options(kind: byte, body: seq<byte>)
    | Fragment(reserved: byte, offset: nat, bits: nat, more: bool, ident: uint32)

  predicate WfExt(x: Ext) {
    match x
    case Options(kind, body) => IsOptions(kind) && |body| % 8 == 6 && |body| < 2048
    case Fragment(_, offset, bits, _, _) => offset < 0x2000 && bits < 4
  }

  predicate WfChain(xs: seq<Ext>) {
    forall i :: 0 <= i < |xs| ==> WfExt(xs[i])
  }

  function KindOf(x: Ext): byte {
    if x.Options? then x.kind else FRAGMENT
  }

  function FirstKind(xs: seq<Ext>, proto: byte): byte {
    if xs == [] then proto else KindOf(xs[0])
  }

  function FragmentWord(offset: nat, bits: nat, more: bool): uint16
    requires offset < 0x2000 && bits < 4
  {
    offset * 8 + bits * 2 + if more then 1 else 0
  }

  function EncodeExt(x: Ext, next: byte): (s: seq<byte>)
    requires WfExt(x)
    ensures |s| >= 8 && s[0] == next
  {
    match x
    case Options(_, body) => [next, (|body| + 2) / 8 - 1] + body
    case Fragment(reserved, offset, bits, more, ident) =>
      [next, reserved] + Be16(FragmentWord(offset, bits, more)) + Be32(ident)
  }

  function Encode(xs: seq<Ext>, proto: byte): seq<byte>
    requires WfChain(xs)
  {
    if xs == [] then [] else EncodeExt(xs[0], FirstKind(xs[1..], proto)) + Encode(xs[1..], proto)
  }

  /** The fragment fields a chain carries; None if it nests Fragment headers. */
  function Fields(xs: seq<Ext>, info: Info): Option<Info>
    requires WfChain(xs)
  {
    if xs == [] then Some(info)
    else
      match xs[0]
      case Options(_, _) => Fields(xs[1..], info)
      case Fragment(_, offset, _, more, ident) =>
        if info.isFrag then None
        else Fields(xs[1..], info.(isFrag := true, fragOffset := offset, fragMore := more, fragIdent := ident))
  }

  lemma EncodedOptions(pkt: seq<byte>, off: nat, x: Ext, next: byte)
    requires WfExt(x) && x.Options? && off + |EncodeExt(x, next)| <= |pkt|
    requires pkt[off..off + |EncodeExt(x, next)|] == EncodeExt(x, next)
    ensures pkt[off] == next && off + 2 <= |pkt| && OptionsLength(pkt, off) == |EncodeExt(x, next)|
  {
    var s := EncodeExt(x, next);
    assert pkt[off..off + |s|][0] == s[0] && pkt[off..off + |s|][1] == s[1];
  }

  lemma EncodedFragment(pkt: seq<byte>, off: nat, x: Ext, next: byte, info: Info)
    requires WfExt(x) && x.Fragment? && off + 8 <= |pkt| && pkt[off..off + 8] == EncodeExt(x, next)
    ensures pkt[off] == next
    ensures WithFragment(info, pkt, off)
         == info.(isFrag := true, fragOffset := x.offset, fragMore := x.more, fragIdent := x.ident)
  {
    var s, h := EncodeExt(x, next), pkt[off..off + 8];
    var word := FragmentWord(x.offset, x.bits, x.more);
    assert h[0] == s[0] && h[2] == s[2] && h[3] == s[3];
    assert s[2] == word / 256 && s[3] == word % 256;
    assert Word16(pkt, off + 2) == word;
    Be32RoundTrip(x.ident);
    assert h[4..] == Be32(x.ident);
    assert Word32(pkt, off + 4) == Word32(h[4..], 0);
  }

  /** The chain xs, then proto, stand at offset `off` of the packet. */
  ghost predicate StandsAt(pkt: seq<byte>, off: nat, xs: seq<Ext>, proto: byte) {
    WfChain(xs) && off + |Encode(xs, proto)| <= |pkt| && pkt[off..off + |Encode(xs, proto)|] == Encode(xs, proto)
  }

  /** The outcome of a walk; what an invalid one leaves in its info is of no use. */
  function Outcome(r: (Info, Status)): Option<(Info, Status)> {
    if r.1 == ChainInvalid then None else Some(r)
  }

  /** What a walk should report on a chain: its end, its fragment fields and what follows, unless it nests fragments. */
  function Expected(xs: seq<Ext>, proto: byte, off: nat, info: Info): Option<(Info, Status)>
    requires WfChain(xs)
  {
    match Fields(xs, info)
    case None => None
    case Some(f) => Some((f.(l4Offset := off + |Encode(xs, proto)|), TerminalStatus(proto)))
  }

  ghost predicate WalkFinds(pkt: seq<byte>, off: nat, xs: seq<Ext>, proto: byte, info: Info)
    requires WfChain(xs) && off <= |pkt|
  {
    Outcome(WalkChain(pkt, FirstKind(xs, proto), off, info)) == Expected(xs, proto, off, info)
  }

  lemma OneHeader(pkt: seq<byte>, off: nat, xs: seq<Ext>, proto: byte) returns (len: nat)
    requires xs != [] && StandsAt(pkt, off, xs, proto)
    ensures len == |EncodeExt(xs[0], FirstKind(xs[1..], proto))| >= 8 && off + len <= |pkt|
    ensures |Encode(xs, proto)| == len + |Encode(xs[1..], proto)|
    ensures pkt[off..off + len] == EncodeExt(xs[0], FirstKind(xs[1..], proto))
    ensures StandsAt(pkt, off + len, xs[1..], proto)
  {
    var s, rest := EncodeExt(xs[0], FirstKind(xs[1..], proto)), Encode(xs[1..], proto);
    len := |s|;
    SplitSlice(pkt, off, s, rest);
  }

  lemma OptionsUnfold(pkt: seq<byte>, nh: byte, off: nat, info: Info)
    requires IsOptions(nh) && off + 2 <= |pkt| && off + OptionsLength(pkt, off) <= |pkt|
    ensures WalkChain(pkt, nh, off, info) == WalkChain(pkt, pkt[off], off + OptionsLength(pkt, off), info)
  {
  }

  lemma WfOptions(x: Ext)
    requires WfExt(x) && x.Options?
    ensures KindOf(x) == x.kind && IsOptions(x.kind)
  {
  }

  lemma OptionsFacts(pkt: seq<byte>, off: nat, xs: seq<Ext>, proto: byte, info: Info) returns (len: nat)
    requires xs != [] && xs[0].Options? && StandsAt(pkt, off, xs, proto)
    ensures len == |EncodeExt(xs[0], FirstKind(xs[1..], proto))| && off + len <= |pkt|
    ensures |Encode(xs, proto)| == len + |Encode(xs[1..], proto)|
    ensures WalkChain(pkt, KindOf(xs[0]), off, info) == WalkChain(pkt, FirstKind(xs[1..], proto), off + len, info)
  {
    hide WalkChain, Encode, EncodeExt, WfExt, OptionsLength;
    assert WfExt(xs[0]);
    WfOptions(xs[0]);
    len := OneHeader(pkt, off, xs, proto);
    hide *;
    EncodedOptions(pkt, off, xs[0], FirstKind(xs[1..], proto));
    OptionsUnfold(pkt, KindOf(xs[0]), off, info);
  }

  lemma ExpectedPastOptions(xs: seq<Ext>, proto: byte, off: nat, info: Info, len: nat)
    requires WfChain(xs) && xs != [] && xs[0].Options? && |Encode(xs, proto)| == len + |Encode(xs[1..], proto)|
    ensures Expected(xs, proto, off, info) == Expected(xs[1..], proto, off + len, info)
  {
    hide Encode;
  }

  lemma PastOptions(pkt: seq<byte>, off: nat, xs: seq<Ext>, proto: byte, info: Info)
    requires xs != [] && xs[0].Options? && StandsAt(pkt, off, xs, proto)
    requires var len := |EncodeExt(xs[0], FirstKind(xs[1..], proto))|;
             off + len <= |pkt| && WalkFinds(pkt, off + len, xs[1..], proto, info)
    ensures WalkFinds(pkt, off, xs, proto, info)
  {
    hide WalkChain, Expected, EncodeExt, Encode, Outcome;
    var len := OptionsFacts(pkt, off, xs, proto, info);
    ExpectedPastOptions(xs, proto, off, info, len);
  }

  lemma FragmentUnfold(pkt: seq<byte>, off: nat, info: Info)
    requires off + 8 <= |pkt|
    ensures WalkChain(pkt, FRAGMENT, off, info) ==
            if info.isFrag then (info, ChainInvalid) else WalkChain(pkt, pkt[off], off + 8, WithFragment(info, pkt, off))
  {
  }

  lemma ExpectedPastFragment(xs: seq<Ext>, proto: byte, off: nat, info: Info)
    requires WfChain(xs) && xs != [] && xs[0].Fragment? && |Encode(xs, proto)| == 8 + |Encode(xs[1..], proto)|
    ensures var x := xs[0];
            Expected(xs, proto, off, info) ==
            if info.isFrag then None
            else Expected(xs[1..], proto, off + 8, info.(isFrag := true, fragOffset := x.offset, fragMore := x.more, fragIdent := x.ident))
  {
    hide Encode;
  }

  lemma PastFragment(pkt: seq<byte>, off: nat, xs: seq<Ext>, proto: byte, info: Info)
    requires xs != [] && xs[0].Fragment? && StandsAt(pkt, off, xs, proto)
    requires !info.isFrag ==> off + 8 <= |pkt| && WalkFinds(pkt, off + 8, xs[1..], proto, WithFragment(info, pkt, off))
    ensures WalkFinds(pkt, off, xs, proto, info)
  {
    var next := FirstKind(xs[1..], proto);
    var len := OneHeader(pkt, off, xs, proto);
    assert len == 8;
    EncodedFragment(pkt, off, xs[0], next, info);
    hide WalkChain, Expected, EncodeExt, Encode, WithFragment, StandsAt;
    FragmentUnfold(pkt, off, info);
    ExpectedPastFragment(xs, proto, off, info);
  }

  lemma {:induction false} WalkOfEncoded(pkt: seq<byte>, off: nat, xs: seq<Ext>, proto: byte, info: Info)
    requires IsTerminal(proto) && StandsAt(pkt, off, xs, proto)
    ensures WfChain(xs) && off <= |pkt| && WalkFinds(pkt, off, xs, proto, info)
    decreases |xs|
  {
    if xs != [] {
      var len := OneHeader(pkt, off, xs, proto);
      if xs[0].Options? {
        WalkOfEncoded(pkt, off + len, xs[1..], proto, info);
        hide WalkFinds;
        PastOptions(pkt, off, xs, proto, info);
      } else {
        assert len == 8;
        if !info.isFrag {
          WalkOfEncoded(pkt, off + 8, xs[1..], proto, WithFragment(info, pkt, off));
        }
        hide WalkFinds;
        PastFragment(pkt, off, xs, proto, info);
      }
    }
  }

  lemma SplitSlice(pkt: seq<byte>, off: nat, s: seq<byte>, rest: seq<byte>)
    requires off + |s + rest| <= |pkt| && pkt[off..off + |s + rest|] == s + rest
    ensures pkt[off..off + |s|] == s && pkt[off + |s|..off + |s| + |rest|] == rest
  {
    var all := pkt[off..off + |s + rest|];
    assert pkt[off..off + |s|] == all[..|s|];
    assert pkt[off + |s|..off + |s| + |rest|] == all[|s|..];
  }

  /** Parsing a packet finds the end, the fragment fields and the protocol of the chain it was written with. */
  lemma ParseOfEncoded(header: seq<byte>, xs: seq<Ext>, proto: byte, payload: seq<byte>)
    requires |header| == 40 && header[0] / 16 == 6 && header[6] == FirstKind(xs, proto)
    requires WfChain(xs) && IsTerminal(proto)
    ensures Outcome(Parsed(header + Encode(xs, proto) + payload)) == Expected(xs, proto, 40, NO_INFO)
  {
    var pkt := header + Encode(xs, proto) + payload;
    assert pkt[0] == header[0] && pkt[6] == header[6];
    assert pkt[40..40 + |Encode(xs, proto)|] == Encode(xs, proto);
    WalkOfEncoded(pkt, 40, xs, proto, NO_INFO);
  }

  /** The octets from `off` on are a legal chain of first kind nh, up to the upper-layer header at l4. */
  ghost predicate Reads(pkt: seq<byte>, nh: byte, off: nat, info: Info, xs: seq<Ext>, proto: byte, l4: nat) {
    && WfChain(xs) && IsTerminal(proto) && FirstKind(xs, proto) == nh
    && off <= l4 <= |pkt| && pkt[off..l4] == Encode(xs, proto)
    && Fields(xs, info).Some?
  }

  lemma ReadsOneMore(pkt: seq<byte>, nh: byte, off: nat, info: Info, x: Ext, len: nat, xs: seq<Ext>, proto: byte, l4: nat)
    requires off + len <= l4 && len >= 2 && off < |pkt| && WfExt(x) && KindOf(x) == nh
    requires Reads(pkt, pkt[off], off + len,
                   if x.Options? then info else info.(isFrag := true, fragOffset := x.offset, fragMore := x.more, fragIdent := x.ident),
                   xs, proto, l4)
    requires EncodeExt(x, pkt[off]) == pkt[off..off + len] && (x.Fragment? ==> !info.isFrag)
    ensures Reads(pkt, nh, off, info, [x] + xs, proto, l4)
  {
    var all := [x] + xs;
    assert all[1..] == xs;
    assert pkt[off..l4] == pkt[off..off + len] + pkt[off + len..l4];
    hide EncodeExt, WfExt;
  }

  lemma EmptyChain(pkt: seq<byte>, nh: byte, off: nat, info: Info)
    requires off <= |pkt| && IsTerminal(nh)
    ensures Reads(pkt, nh, off, info, [], nh, WalkChain(pkt, nh, off, info).0.l4Offset)
  {
    assert WalkChain(pkt, nh, off, info).0.l4Offset == off;
    hide WalkChain;
    assert Encode([], nh) == [] && Fields([], info) == Some(info);
  }

  /** Every packet the walk accepts is such a chain, so parsing and writing are exact inverses. */
  lemma {:induction false} WalkedIsEncoded(pkt: seq<byte>, nh: byte, off: nat, info: Info)
    returns (xs: seq<Ext>, proto: byte)
    requires off <= |pkt| && WalkChain(pkt, nh, off, info).1 != ChainInvalid
    ensures Reads(pkt, nh, off, info, xs, proto, WalkChain(pkt, nh, off, info).0.l4Offset)
    decreases |pkt| - off
  {
    hide *;
    if IsTerminal(nh) {
      EmptyChain(pkt, nh, off, info);
      xs, proto := [], nh;
    } else {
      var x, len, info' := HeaderWalked(pkt, nh, off, info);
      xs, proto := WalkedIsEncoded(pkt, pkt[off], off + len, info');
      ReadsOneMore(pkt, nh, off, info, x, len, xs, proto, WalkChain(pkt, nh, off, info).0.l4Offset);
      xs := [x] + xs;
    }
  }

  /** One header of an accepted chain: what it is and where the walk goes on. */
  lemma HeaderWalked(pkt: seq<byte>, nh: byte, off: nat, info: Info) returns (x: Ext, len: nat, info': Info)
    requires off <= |pkt| && !IsTerminal(nh) && WalkChain(pkt, nh, off, info).1 != ChainInvalid
    ensures len >= 8 && off + len <= |pkt| && WfExt(x) && KindOf(x) == nh && EncodeExt(x, pkt[off]) == pkt[off..off + len]
    ensures info' == if x.Options? then info else info.(isFrag := true, fragOffset := x.offset, fragMore := x.more, fragIdent := x.ident)
    ensures x.Fragment? ==> !info.isFrag
    ensures WalkChain(pkt, nh, off, info) == WalkChain(pkt, pkt[off], off + len, info')
    ensures off + len <= WalkChain(pkt, nh, off, info).0.l4Offset
  {
    hide WalkChain, WithFragment, OptionsLength, EncodeExt, WfExt, IsOptions;
    len, info' := WalkUnfolds(pkt, nh, off, info);
    x := HeaderAt(pkt, nh, off, len);
    if nh == FRAGMENT {
      EncodedFragment(pkt, off, x, pkt[off], info);
    }
    EndsAfter(pkt, pkt[off], off + len, info');
  }

  lemma {:induction false} EndsAfter(pkt: seq<byte>, nh: byte, off: nat, info: Info)
    requires off <= |pkt| && WalkChain(pkt, nh, off, info).1 != ChainInvalid
    ensures off <= WalkChain(pkt, nh, off, info).0.l4Offset
    decreases |pkt| - off
  {
    if !IsTerminal(nh) {
      var len, info' := WalkUnfolds(pkt, nh, off, info);
      EndsAfter(pkt, pkt[off], off + len, info');
    }
  }

  lemma WalkUnfolds(pkt: seq<byte>, nh: byte, off: nat, info: Info) returns (len: nat, info': Info)
    requires off <= |pkt| && !IsTerminal(nh) && WalkChain(pkt, nh, off, info).1 != ChainInvalid
    ensures len >= 8 && off + len <= |pkt|
    ensures if nh == FRAGMENT then !info.isFrag && len == 8 && info' == WithFragment(info, pkt, off)
            else IsOptions(nh) && len == OptionsLength(pkt, off) && info' == info
    ensures WalkChain(pkt, nh, off, info) == WalkChain(pkt, pkt[off], off + len, info')
  {
    len := if nh == FRAGMENT then 8 else OptionsLength(pkt, off);
    info' := if nh == FRAGMENT then WithFragment(info, pkt, off) else info;
  }

  lemma StoredFragment(pkt: seq<byte>, off: nat) returns (x: Ext)
    requires off + 8 <= |pkt|
    ensures WfExt(x) && x.Fragment? && EncodeExt(x, pkt[off]) == pkt[off..off + 8]
  {
    var word := Word16(pkt, off + 2);
    x := Fragment(pkt[off + 1], word / 8, word / 2 % 4, word % 2 != 0, Word32(pkt, off + 4));
    assert FragmentWord(x.offset, x.bits, x.more) == word;
    Be16OfWord(pkt, off + 2);
    Be32OfWord(pkt, off + 4);
    hide Be16, Be32, FragmentWord, Word16, Word32;
    assert pkt[off..off + 8] == [pkt[off], pkt[off + 1]] + pkt[off + 2..off + 4] + pkt[off + 4..off + 8];
  }

  /** The extension header stored at an offset. */
  lemma HeaderAt(pkt: seq<byte>, nh: byte, off: nat, len: nat) returns (x: Ext)
    requires off + len <= |pkt| && off + 2 <= |pkt|
    requires if nh == FRAGMENT then len == 8 else IsOptions(nh) && len == OptionsLength(pkt, off)
    ensures WfExt(x) && KindOf(x) == nh && x.Fragment? == (nh == FRAGMENT)
    ensures EncodeExt(x, pkt[off]) == pkt[off..off + len]
  {
    if nh == FRAGMENT {
      x := StoredFragment(pkt, off);
    } else {
      x := Options(nh, pkt[off + 2..off + len]);
      assert pkt[off..off + len] == [pkt[off], pkt[off + 1]] + pkt[off + 2..off + len];
    }
  }
}
