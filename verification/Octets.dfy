/** Octets, fixed-width integers and addresses shared by every module. */
module Octets {

  type byte = b: int | 0 <= b < 256
  type uint16 = n: int | 0 <= n < 0x1_0000
  type uint32 = n: int | 0 <= n < 0x1_0000_0000

  /** Protocol numbers, as in a Next Header field. */
  const TCP := 6
  const UDP := 17
  const ICMPV6 := 58

  /** Four and sixteen octets in network order. */
  type Octets4 = s: seq<byte> | |s| == 4 witness [0, 0, 0, 0]
  type Octets16 = s: seq<byte> | |s| == 16 witness seq(16, _ => 0)

  /** An address where it is only ever compared: the number its octets spell. */
  type Addr4 = uint32
  type Addr6 = n: int | 0 <= n < 0x1_0000_0000_0000_0000_0000_0000_0000_0000

  datatype Option<+T> = None | Some(value: T)

  /** Big-endian encoding of a 16-bit word. */
  function Be16(n: uint16): (s: seq<byte>)
    ensures |s| == 2
  {
    [n / 256, n % 256]
  }

  /** Big-endian encoding of a 32-bit word. */
  function Be32(n: uint32): (s: seq<byte>)
    ensures |s| == 4
  {
    Be16(n / 0x1_0000) + Be16(n % 0x1_0000)
  }

  /** The 16-bit word stored at offset i. */
  function Word16(s: seq<byte>, i: nat): (n: uint16)
    requires i + 2 <= |s|
  {
    var hi: int := s[i];
    hi * 256 + s[i + 1]
  }

  /** The 32-bit word stored at offset i. */
  function Word32(s: seq<byte>, i: nat): (n: uint32)
    requires i + 4 <= |s|
  {
    var hi: int := Word16(s, i);
    hi * 0x1_0000 + Word16(s, i + 2)
  }

  /** The sixteen octets of an IPv6 address. */
  function Be128(n: Addr6): (s: Octets16) {
    Be32(n / 0x1_0000_0000_0000_0000_0000_0000) + Be32(n / 0x1_0000_0000_0000_0000 % 0x1_0000_0000)
    + Be32(n / 0x1_0000_0000 % 0x1_0000_0000) + Be32(n % 0x1_0000_0000)
  }

  lemma Be32RoundTrip(n: uint32)
    ensures Word32(Be32(n), 0) == n
  {
    var hi, lo := n / 0x1_0000, n % 0x1_0000;
    assert Be32(n)[0] == hi / 256 && Be32(n)[1] == hi % 256;
    assert Be32(n)[2] == lo / 256 && Be32(n)[3] == lo % 256;
  }

  lemma Be16OfWord(s: seq<byte>, i: nat)
    requires i + 2 <= |s|
    ensures Be16(Word16(s, i)) == s[i..i + 2]
  {
    var hi: int, lo: int := s[i], s[i + 1];
    assert (hi * 256 + lo) / 256 == hi && (hi * 256 + lo) % 256 == lo;
  }

  lemma Be32OfWord(s: seq<byte>, i: nat)
    requires i + 4 <= |s|
    ensures Be32(Word32(s, i)) == s[i..i + 4]
  {
    var hi: int, lo: int := Word16(s, i), Word16(s, i + 2);
    assert (hi * 0x1_0000 + lo) / 0x1_0000 == hi && (hi * 0x1_0000 + lo) % 0x1_0000 == lo;
    Be16OfWord(s, i);
    Be16OfWord(s, i + 2);
  }
}
