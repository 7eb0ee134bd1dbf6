/**
 NAT64 prefixes and IPv4-embedded addresses, src/config/pref64.go: the offset
 table of the code against the layout of section 2.2 of RFC 6052.
 */
module Prefixes {
  import opened Octets
  import opened Buffers

  /** A prefix as its masked network address and its length in bits. */
  datatype Pref64 = Pref64(net: Octets16, bits: nat)

  const U_OCTET := 8

  predicate Supported(bits: nat) {
    bits == 32 || bits == 40 || bits == 48 || bits == 56 || bits == 64 || bits == 96
  }

  /** pref64V4Offsets. */
  function Offsets(bits: nat): (r: seq<nat>)
    requires Supported(bits)
    ensures |r| == 4 && forall j :: 0 <= j < 4 ==> bits / 8 <= r[j] < 16
    ensures forall j, k :: 0 <= j < k < 4 ==> r[j] < r[k]
  {
    if bits == 32 then [4, 5, 6, 7]
    else if bits == 40 then [5, 6, 7, 9]
    else if bits == 48 then [6, 7, 9, 10]
    else if bits == 56 then [7, 9, 10, 11]
    else if bits == 64 then [9, 10, 11, 12]
    else [12, 13, 14, 15]
  }

  /** ::ffff:0:0/96, the addresses the standard library takes for IPv4 ones. */
  predicate V4Mapped(a: Octets16) {
    (forall i :: 0 <= i < 10 ==> a[i] == 0) && a[10] == 255 && a[11] == 255
  }

  function Masked(a: Octets16, bits: nat): (r: Octets16) {
    seq(16, i requires 0 <= i < 16 => if i < bits / 8 then a[i] else 0)
  }

  ghost predicate Valid(p: Pref64) {
    Supported(p.bits) && p.net == Masked(p.net, p.bits) && !V4Mapped(p.net)
  }

  // ---------------------------------------------------------------------
  // The layout of section 2.2 of RFC 6052: prefix, then the IPv4 octets in a
  // row except that octet 8 is skipped below /96, then zeros.

  function OctetAt(p: Pref64, v: Octets4, i: nat): byte
    requires i < 16
  {
    var k := if p.bits < 96 && i > U_OCTET then i - p.bits / 8 - 1 else i - p.bits / 8;
    if i < p.bits / 8 then p.net[i]
    else if p.bits < 96 && i == U_OCTET then 0
    else if 0 <= k < 4 then v[k] else 0
  }

  function Embed(p: Pref64, v: Octets4): (r: Octets16) {
    seq(16, i requires 0 <= i < 16 => OctetAt(p, v, i))
  }

  /** The octets the table points at. */
  function Gathered(a: Octets16, bits: nat): (v: Octets4)
    requires Supported(bits)
  {
    var o := Offsets(bits);
    [a[o[0]], a[o[1]], a[o[2]], a[o[3]]]
  }

  /** IPNet.Contains: an IPv4-mapped address is compared as four octets and belongs to no IPv6 prefix. */
  predicate Contains(p: Pref64, a: Octets16) {
    !V4Mapped(a) && Masked(a, p.bits) == p.net
  }

  function Extract(p: Pref64, a: Octets16): Option<Octets4>
    requires Supported(p.bits)
  {
    if Contains(p, a) && a == Embed(p, Gathered(a, p.bits)) then Some(Gathered(a, p.bits)) else None
  }

  lemma GatheredOfEmbed(p: Pref64, v: Octets4)
    requires Supported(p.bits)
    ensures Gathered(Embed(p, v), p.bits) == v
  {
  }

  lemma MaskedOfEmbed(p: Pref64, v: Octets4)
    requires Valid(p)
    ensures Masked(Embed(p, v), p.bits) == p.net
  {
    assert forall i :: 0 <= i < p.bits / 8 ==> Embed(p, v)[i] == p.net[i];
  }

  /** Extraction accepts exactly the canonical addresses of the pool that are not IPv4-mapped. */
  lemma ExtractIff(p: Pref64, a: Octets16, v: Octets4)
    requires Valid(p)
    ensures Extract(p, a) == Some(v) <==> a == Embed(p, v) && !V4Mapped(a)
  {
    if a == Embed(p, v) {
      GatheredOfEmbed(p, v);
      MaskedOfEmbed(p, v);
    }
  }

  lemma EmbedIsInjective(p: Pref64, v: Octets4, w: Octets4)
    requires Supported(p.bits) && Embed(p, v) == Embed(p, w)
    ensures v == w
  {
    GatheredOfEmbed(p, v);
    GatheredOfEmbed(p, w);
  }

  // ---------------------------------------------------------------------
  // Where the round trip fails.

  /** An embedded address reads as IPv4-mapped. */
  predicate Hidden(p: Pref64, v: Octets4) {
    && p.net == Zeros(16)
    && ((p.bits == 56 && v == [0, 0, 255, 255]) || (p.bits == 64 && v[..3] == [0, 255, 255]))
  }

  lemma MappedIsHidden(p: Pref64, v: Octets4)
    requires Valid(p) && V4Mapped(Embed(p, v))
    ensures Hidden(p, v)
  {
    var e := Embed(p, v);
    assert forall i :: 0 <= i < p.bits / 8 ==> p.net[i] == e[i];
    assert p.bits != 96 ==> p.net == Zeros(16);
    assert p.bits == 56 ==> v[0] == e[7] && v[1] == e[9] && v[2] == e[10] && v[3] == e[11];
    assert p.bits == 64 ==> v[0] == e[9] && v[1] == e[10] && v[2] == e[11];
  }

  lemma HiddenIsMapped(p: Pref64, v: Octets4)
    requires Hidden(p, v)
    ensures V4Mapped(Embed(p, v))
  {
    var e := Embed(p, v);
    assert p.bits == 64 ==> v[0] == v[..3][0] && v[1] == v[..3][1] && v[2] == v[..3][2];
    assert forall i :: 0 <= i < 10 ==> e[i] == 0;
  }

  /**
   Extract undoes Embed if and only if the prefix is not all zeros at /56 or
   /64 together with an IPv4 address that spells the IPv4-mapped marker.
   */
  lemma RoundTripIff(p: Pref64, v: Octets4)
    requires Valid(p)
    ensures Extract(p, Embed(p, v)) == Some(v) <==> !Hidden(p, v)
  {
    ExtractIff(p, Embed(p, v), v);
    if V4Mapped(Embed(p, v)) {
      MappedIsHidden(p, v);
    } else if Hidden(p, v) {
      HiddenIsMapped(p, v);
    }
  }

  lemma ZeroPrefixLosesAnAddress()
    ensures Valid(Pref64(Zeros(16), 56))
    ensures Extract(Pref64(Zeros(16), 56), Embed(Pref64(Zeros(16), 56), [0, 0, 255, 255])) == None
  {
    var p := Pref64(Zeros(16), 56);
    assert Masked(p.net, 56) == p.net;
    HiddenIsMapped(p, [0, 0, 255, 255]);
  }

  /** The reserved octet of section 2.2 of RFC 6052 is zero unless a /96 prefix itself fills it. */
  lemma ReservedOctetIsZeroIff(p: Pref64, v: Octets4)
    requires Valid(p)
    ensures Embed(p, v)[U_OCTET] == 0 <==> (p.bits < 96 || p.net[U_OCTET] == 0)
  {
    assert p.bits < 96 ==> p.bits / 8 <= U_OCTET;
  }

  // ---------------------------------------------------------------------
  // The code.

  /** Everything outside prefix and embedded IPv4 address is zero. */
  predicate Clean(a: Octets16, bits: nat)
    requires Supported(bits)
  {
    forall i :: bits / 8 <= i < 16 && i !in Offsets(bits) ==> a[i] == 0
  }

  /** ParsePref64, from the address and the mask length the CIDR text spells. */
  method ParsePref64(ip: Octets16, ones: nat) returns (r: Option<Pref64>)
    ensures r.Some? <==> !V4Mapped(ip) && Supported(ones) && Clean(ip, ones)
    ensures r.Some? ==> Valid(r.value) && r.value.bits == ones && Contains(r.value, ip)
  {
    if V4Mapped(ip) {
      return None;
    }
    if !Supported(ones) {
      return None;
    }
    var offs := Offsets(ones);
    var i := 0;
    while i < 16
      invariant 0 <= i <= 16
      invariant forall k :: ones / 8 <= k < i && k !in offs ==> ip[k] == 0
    {
      if i >= ones / 8 {
        var inV4 := false;
        var j := 0;
        while j < 4 && !inV4
          invariant 0 <= j <= 4
          invariant inV4 ==> i in offs
          invariant !inV4 ==> forall k :: 0 <= k < j ==> offs[k] != i
          decreases 4 - j, !inV4
        {
          if offs[j] == i {
            inV4 := true;
          }
          j := j + 1;
        }
        if !inV4 && ip[i] != 0 {
          return None;
        }
      }
      i := i + 1;
    }
    MaskedStaysUnmapped(ip, ones);
    r := Some(Pref64(Masked(ip, ones), ones));
  }

  /** 2001:db8:0:0:0100::/96 passes every check, and all it embeds has octet 8 set. */
  lemma ReservedOctetCanBeSet(v: Octets4)
    ensures var net: Octets16 := [0x20, 1, 0xd, 0xb8, 0, 0, 0, 0, 1, 0, 0, 0, 0, 0, 0, 0];
            && !V4Mapped(net) && Supported(96) && Clean(net, 96) && Valid(Pref64(net, 96))
            && Embed(Pref64(net, 96), v)[U_OCTET] == 1
  {
    var net: Octets16 := [0x20, 1, 0xd, 0xb8, 0, 0, 0, 0, 1, 0, 0, 0, 0, 0, 0, 0];
    assert Masked(net, 96) == net && net[0] != 0;
  }

  lemma MaskedStaysUnmapped(a: Octets16, bits: nat)
    requires Supported(bits) && !V4Mapped(a)
    ensures !V4Mapped(Masked(a, bits)) && Masked(Masked(a, bits), bits) == Masked(a, bits)
  {
    var m := Masked(a, bits);
    assert forall i :: 0 <= i < bits / 8 ==> a[i] == m[i];
  }

  /** The table points at the places the layout gives the IPv4 octets. */
  lemma TableIsLayout(p: Pref64, v: Octets4, s: Octets16)
    requires Valid(p)
    requires forall k :: 0 <= k < 4 ==> s[Offsets(p.bits)[k]] == v[k]
    requires forall i :: 0 <= i < 16 && i !in Offsets(p.bits) ==> s[i] == if p.bits < 96 && i == U_OCTET then 0 else p.net[i]
    ensures s == Embed(p, v)
  {
    var o := Offsets(p.bits);
    assert forall k :: p.bits / 8 <= k < 16 ==> p.net[k] == 0;
    assert s[o[0]] == v[0] && s[o[1]] == v[1] && s[o[2]] == v[2] && s[o[3]] == v[3];
    assert forall i :: 0 <= i < 16 ==> s[i] == OctetAt(p, v, i);
  }

  /** embedInto: the network address copied, octet 8 cleared, the IPv4 octets written through the table. */
  method EmbedInto(p: Pref64, v: Octets4) returns (out: array<byte>)
    requires Valid(p)
    ensures fresh(out) && out[..] == Embed(p, v)
  {
    var offs := Offsets(p.bits);
    hide Offsets;
    out := NewBuffer(16);
    Copy(out, 0, p.net);
    if p.bits < 96 {
      out[U_OCTET] := 0;
    }
    var j := 0;
    while j < 4
      invariant 0 <= j <= 4
      invariant forall k :: 0 <= k < j ==> out[offs[k]] == v[k]
      invariant forall i :: 0 <= i < 16 && i !in offs ==> out[i] == if p.bits < 96 && i == U_OCTET then 0 else p.net[i]
    {
      out[offs[j]] := v[j];
      j := j + 1;
    }
    TableIsLayout(p, v, out[..]);
  }

  /** Extract: an address is taken apart and compared with its own embedding. */
  method ExtractFrom(p: Pref64, a: Octets16) returns (r: Option<Octets4>)
    requires Valid(p)
    ensures r == Extract(p, a)
  {
    if !Contains(p, a) {
      return None;
    }
    var offs := Offsets(p.bits);
    var v4: Octets4 := [0, 0, 0, 0];
    var j := 0;
    while j < 4
      invariant 0 <= j <= 4
      invariant forall k :: 0 <= k < j ==> v4[k] == a[offs[k]]
    {
      v4 := v4[j := a[offs[j]]];
      j := j + 1;
    }
    assert v4 == Gathered(a, p.bits);
    var e := EmbedInto(p, v4);
    r := if e[..] == a then Some(v4) else None;
  }
}
