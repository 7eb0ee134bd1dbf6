/** Packet buffers and writes into them: copy and binary.BigEndian.Put of the original. */
module Buffers {
  import opened Octets

  function Zeros(n: nat): (s: seq<byte>)
    ensures |s| == n && forall i :: 0 <= i < n ==> s[i] == 0
  {
    seq(n, _ => 0)
  }

  /** The buffer after `src` is copied to offset `at`. */
  function Put(s: seq<byte>, at: nat, src: seq<byte>): (r: seq<byte>)
    requires at + |src| <= |s|
    ensures |r| == |s|
    ensures forall i :: 0 <= i < |s| ==> r[i] == if at <= i < at + |src| then src[i - at] else s[i]
  {
    s[..at] + src + s[at + |src|..]
  }

  lemma PutHolds(s: seq<byte>, at: nat, src: seq<byte>)
    requires at + |src| <= |s|
    ensures Put(s, at, src)[at..at + |src|] == src
  {
  }

  /** A write leaves every range it does not meet as it was. */
  lemma PutElsewhere(s: seq<byte>, at: nat, src: seq<byte>, lo: nat, hi: nat)
    requires at + |src| <= |s| && lo <= hi <= |s| && (hi <= at || at + |src| <= lo)
    ensures Put(s, at, src)[lo..hi] == s[lo..hi]
  {
  }

  /** Writing behind k is writing into what lies behind k. */
  lemma PutBehind(s: seq<byte>, at: nat, src: seq<byte>, k: nat)
    requires k <= at && at + |src| <= |s|
    ensures Put(s, at, src)[k..] == Put(s[k..], at - k, src)
  {
  }

  /** Writing what is there already changes nothing. */
  lemma PutSame(s: seq<byte>, at: nat, src: seq<byte>)
    requires at + |src| <= |s| && s[at..at + |src|] == src
    ensures Put(s, at, src) == s
  {
    assert forall i :: at <= i < at + |src| ==> s[i] == s[at..at + |src|][i - at];
  }

  /** Changing a part of the tail is replacing the tail by its changed form. */
  lemma PutInTail(s: seq<byte>, k: nat, at: nat, src: seq<byte>)
    requires k + at + |src| <= |s|
    ensures Put(s, k + at, src) == Put(s, k, Put(s[k..], at, src))
  {
  }

  /** Where two buffers agree they agree on every part. */
  lemma PartOf(r: seq<byte>, s: seq<byte>, lo: nat, hi: nat, i: nat, j: nat)
    requires |r| == |s| && lo <= i <= j <= hi <= |r| && r[lo..hi] == s[lo..hi]
    ensures r[i..j] == s[i..j]
  {
    forall k | i <= k < j
      ensures r[k] == s[k]
    {
      assert r[k] == r[lo..hi][k - lo] && s[k] == s[lo..hi][k - lo];
    }
  }

  lemma Word16OfBe16(s: seq<byte>, at: nat, v: uint16)
    requires at + 2 <= |s| && s[at..at + 2] == Be16(v)
    ensures Word16(s, at) == v
  {
    assert s[at] == s[at..at + 2][0] && s[at + 1] == s[at..at + 2][1];
  }

  method Copy(p: array<byte>, at: nat, src: seq<byte>)
    requires at + |src| <= p.Length
    modifies p
    ensures p[..] == Put(old(p[..]), at, src)
  {
    forall i | 0 <= i < |src| {
      p[at + i] := src[i];
    }
  }

  method NewBuffer(n: nat) returns (p: array<byte>)
    ensures fresh(p) && p.Length == n && p[..] == Zeros(n)
  {
    p := new byte[n](_ => 0);
  }
}
