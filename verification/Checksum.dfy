/** The one's-complement checksum of src/nat64/packet.go (section 8.1 of RFC 8200). */
module InternetChecksum {
  import opened Octets
  import opened Buffers

  const TOP := 0xFFFF

  /** The 16-bit words of an octet sequence added up; an odd last octet counts as a high one. */
  function Words(b: seq<byte>): nat {
    if |b| == 0 then 0
    else if |b| == 1 then 256 * b[0] as int
    else Word16(b, 0) + Words(b[2..])
  }

  /** End-around carry until sixteen bits are left. */
  function Folded(n: nat): (r: nat)
    ensures r <= TOP
  {
    if n <= TOP then n else Folded(n / 0x1_0000 + n % 0x1_0000)
  }

  /** The sum over pseudo-header and segment. */
  function Total(src: seq<byte>, dst: seq<byte>, nextHeader: byte, upper: seq<byte>): nat {
    Words(src) + Words(dst) + Words(Be32(|upper| % 0x1_0000_0000)) + nextHeader + Words(upper)
  }

  function Checksum(src: seq<byte>, dst: seq<byte>, nextHeader: byte, upper: seq<byte>): (cs: uint16) {
    TOP - Folded(Total(src, dst, nextHeader, upper))
  }

  // ---------------------------------------------------------------------
  // What is summed.

  lemma {:induction false} WordsOfSum(a: seq<byte>, b: seq<byte>)
    requires |a| % 2 == 0
    ensures Words(a + b) == Words(a) + Words(b)
  {
    if a == [] {
      assert a + b == b;
    } else {
      WordsOfSum(a[2..], b);
      assert (a + b)[2..] == a[2..] + b;
    }
  }

  lemma FourPartsAdd(a: seq<byte>, b: seq<byte>, c: seq<byte>, d: seq<byte>)
    requires |a| % 2 == |b| % 2 == |c| % 2 == 0
    ensures Words(a + b + c + d) == Words(a) + Words(b) + Words(c) + Words(d)
  {
    hide Words;
    WordsOfSum(a, b);
    WordsOfSum(a + b, c);
    WordsOfSum(a + b + c, d);
  }

  lemma LastFour(n: byte)
    ensures Words([0, 0, 0, n]) == n
  {
    var tail: seq<byte> := [0, 0, 0, n];
    assert tail[2..] == [0, n] && tail[2..][2..] == [];
    assert Words(tail[2..]) == n;
  }

  /** The pseudo-header of section 8.1 of RFC 8200, with a 32-bit length. */
  function PseudoHeader(src: seq<byte>, dst: seq<byte>, nextHeader: byte, length: uint32): seq<byte> {
    src + dst + Be32(length) + [0, 0, 0, nextHeader]
  }

  /** The checksum is the complemented sum of the words of one octet string: pseudo-header, then segment. */
  lemma ChecksumCoversPseudoHeader(src: Octets16, dst: Octets16, nextHeader: byte, upper: seq<byte>)
    ensures Total(src, dst, nextHeader, upper) == Words(PseudoHeader(src, dst, nextHeader, |upper| % 0x1_0000_0000) + upper)
  {
    hide Words, Be32;
    var length := Be32(|upper| % 0x1_0000_0000);
    LastFour(nextHeader);
    FourPartsAdd(src, dst, length, [0, 0, 0, nextHeader]);
    WordsOfSum(src + dst + length + [0, 0, 0, nextHeader], upper);
  }

  // ---------------------------------------------------------------------
  // Folding is arithmetic modulo 2^16 - 1 that tells zero from its multiples.

  lemma {:induction false} FoldedIsModular(n: nat)
    ensures Folded(n) % TOP == n % TOP
    ensures Folded(n) == 0 <==> n == 0
  {
    if n > TOP {
      var hi, lo := n / 0x1_0000, n % 0x1_0000;
      assert n == hi * TOP + (hi + lo);
      AddMultiple(hi, hi + lo);
      FoldedIsModular(hi + lo);
    }
  }

  lemma {:induction false} AddMultiple(k: nat, n: nat)
    ensures (k * TOP + n) % TOP == n % TOP
  {
    if k > 0 {
      AddMultiple(k - 1, n);
      assert k * TOP + n == (k - 1) * TOP + n + TOP;
    }
  }

  lemma ChecksumIsZeroIff(n: nat)
    requires n > 0
    ensures TOP - Folded(n) == 0 <==> n % TOP == 0
  {
    FoldedIsModular(n);
  }

  // ---------------------------------------------------------------------
  // The sum in place.

  lemma {:induction false} WordsAreBounded(b: seq<byte>)
    ensures 2 * Words(b) <= TOP * (|b| + 1)
  {
    if |b| >= 2 {
      WordsAreBounded(b[2..]);
    }
  }

  /** A word written over zeros at an even offset adds its value to the sum. */
  lemma {:induction false} WordsOfPut(b: seq<byte>, at: nat, v: uint16)
    requires at % 2 == 0 && at + 2 <= |b|
    ensures Words(Put(b, at, Be16(v))) == Words(Put(b, at, [0, 0])) + v
    decreases at
  {
    var x, z := Put(b, at, Be16(v)), Put(b, at, [0, 0]);
    if at == 0 {
      assert x[2..] == z[2..];
      assert Word16(x, 0) == v;
    } else {
      WordsOfPut(b[2..], at - 2, v);
      assert x[2..] == Put(b[2..], at - 2, Be16(v));
      assert z[2..] == Put(b[2..], at - 2, [0, 0]);
      assert x[0] == z[0] && x[1] == z[1];
    }
  }

  /** The value stored makes the segment verify exactly when it completes the sum to a multiple of 2^16 - 1. */
  lemma VerifiesIff(src: seq<byte>, dst: seq<byte>, nextHeader: byte, upper: seq<byte>, at: nat, v: uint16)
    requires nextHeader > 0 && at % 2 == 0 && at + 2 <= |upper|
    ensures Checksum(src, dst, nextHeader, Put(upper, at, Be16(v))) == 0
       <==> (Total(src, dst, nextHeader, Put(upper, at, [0, 0])) + v) % TOP == 0
  {
    WordsOfPut(upper, at, v);
    hide Put, Be16, Words;
    ChecksumIsZeroIff(Total(src, dst, nextHeader, Put(upper, at, Be16(v))));
  }

  lemma Complement(n: nat, v: nat)
    requires v == TOP - Folded(n) || (v == TOP && Folded(n) == TOP)
    ensures (n + v) % TOP == 0
  {
    FoldedIsModular(n);
    var k := n / TOP;
    assert n == k * TOP + n % TOP;
    if Folded(n) == TOP {
      AddMultiple(k, v);
    } else {
      AddMultiple(k, n % TOP + v);
    }
  }

  /** RFC 768: a computed zero is sent as all ones. */
  function NonZero(cs: uint16): uint16 {
    if cs == 0 then TOP else cs
  }

  /** A checksum computed over a zeroed field and stored there verifies, also in its non-zero form. */
  lemma StoredChecksumVerifies(src: seq<byte>, dst: seq<byte>, nextHeader: byte, upper: seq<byte>, at: nat)
    requires nextHeader > 0 && at % 2 == 0 && at + 2 <= |upper|
    ensures var cs := Checksum(src, dst, nextHeader, Put(upper, at, [0, 0]));
            && Checksum(src, dst, nextHeader, Put(upper, at, Be16(cs))) == 0
            && Checksum(src, dst, nextHeader, Put(upper, at, Be16(NonZero(cs)))) == 0
  {
    var n := Total(src, dst, nextHeader, Put(upper, at, [0, 0]));
    var cs := Checksum(src, dst, nextHeader, Put(upper, at, [0, 0]));
    hide Put, Be16, Total;
    VerifiesIff(src, dst, nextHeader, upper, at, cs);
    VerifiesIff(src, dst, nextHeader, upper, at, NonZero(cs));
    Complement(n, cs);
    Complement(n, NonZero(cs));
  }

  /**
   A checksum computed with some non-zero w still in the field, as for a quoted
   UDP header, verifies if and only if that w was all ones.
   */
  lemma PlaceholderIsNeutralIff(src: seq<byte>, dst: seq<byte>, nextHeader: byte, upper: seq<byte>, at: nat, w: uint16)
    requires nextHeader > 0 && at % 2 == 0 && at + 2 <= |upper| && w > 0
    ensures var cs := NonZero(Checksum(src, dst, nextHeader, Put(upper, at, Be16(w))));
            Checksum(src, dst, nextHeader, Put(upper, at, Be16(cs))) == 0 <==> w == TOP
  {
    var n := Total(src, dst, nextHeader, Put(upper, at, [0, 0]));
    WordsOfPut(upper, at, w);
    assert Total(src, dst, nextHeader, Put(upper, at, Be16(w))) == n + w;
    var cs := NonZero(Checksum(src, dst, nextHeader, Put(upper, at, Be16(w))));
    hide Put, Be16, Total;
    VerifiesIff(src, dst, nextHeader, upper, at, cs);
    Complement(n + w, cs);
    Shifted(n + cs, w);
  }

  lemma Shifted(m: nat, w: uint16)
    requires (m + w) % TOP == 0
    ensures m % TOP == 0 <==> w % TOP == 0
  {
  }

  // ---------------------------------------------------------------------
  // The code.

  method AddBytes(sum: uint32, b: seq<byte>) returns (r: uint32)
    requires sum + Words(b) < 0x1_0000_0000
    ensures r == sum + Words(b)
  {
    r := sum;
    var i := 0;
    while i + 1 < |b|
      invariant 0 <= i <= |b| && i % 2 == 0
      invariant r + Words(b[i..]) == sum + Words(b)
      decreases |b| - i
    {
      assert b[i..][2..] == b[i + 2..];
      r := r + Word16(b, i);
      i := i + 2;
    }
    if |b| % 2 != 0 {
      assert b[i..] == [b[|b| - 1]];
      r := r + 256 * b[|b| - 1] as int;
    }
  }

  method Fold(sum: uint32) returns (r: uint32)
    ensures r == Folded(sum)
  {
    r := sum;
    while r > TOP
      invariant 0 <= r && Folded(r) == Folded(sum)
      decreases r
    {
      r := r / 0x1_0000 + r % 0x1_0000;
    }
  }

  lemma WordsFit(b: seq<byte>)
    ensures |b| <= 16 ==> Words(b) <= 0x10_0000
    ensures |b| <= TOP ==> Words(b) <= 0x8000_0000
  {
    WordsAreBounded(b);
    hide Words;
  }

  lemma SumsFit(src: seq<byte>, dst: seq<byte>, nextHeader: byte, upper: seq<byte>)
    requires |src| == |dst| == 16 && |upper| <= TOP
    ensures Total(src, dst, nextHeader, upper) < 0x1_0000_0000
  {
    hide Words, Be32;
    WordsFit(src);
    WordsFit(dst);
    WordsFit(upper);
    WordsFit(Be32(|upper|));
  }

  /**
   ipv6UpperLayerChecksum. With addresses of sixteen octets and a segment that
   fits a 16-bit length no addition overflows its 32 bits.
   */
  method UpperLayerChecksum(src: seq<byte>, dst: seq<byte>, nextHeader: byte, upper: seq<byte>) returns (cs: uint16)
    requires |src| == |dst| == 16 && |upper| <= TOP
    ensures cs == Checksum(src, dst, nextHeader, upper)
  {
    SumsFit(src, dst, nextHeader, upper);
    hide Words, Be32;
    var sum := AddBytes(0, src);
    sum := AddBytes(sum, dst);
    sum := AddBytes(sum, Be32(|upper|));
    sum := sum + nextHeader;
    sum := AddBytes(sum, upper);
    sum := Fold(sum);
    cs := TOP - sum;
  }
}
