/**
 Fragment reassembly, src/nat64/reasm.go (section 4.5 of RFC 8200, RFC 5722):
 what the assembly of one datagram computes and exactly when it is right.
 */
module Reassembly {
  import opened Octets

  /** Fragments of one datagram by offset, in units of eight octets. */
  type Frags = map<uint16, seq<byte>>

  function End(frags: Frags, o: uint16): nat
    requires o in frags
  {
    8 * o + |frags[o]|
  }

  /** Every fragment holds something, and offsets lie within a maximal datagram. */
  ghost predicate WellSized(frags: Frags) {
    forall o :: o in frags ==> frags[o] != [] && o < 0x2000 && |frags[o]| <= 0x1_0000
  }

  ghost predicate Disjoint(frags: Frags) {
    forall o, p :: o in frags && p in frags && o < p ==> End(frags, o) <= 8 * p
  }

  /** The overlap test of a new fragment against the stored ones. */
  predicate Overlaps(frags: Frags, start: int, end: int) {
    exists o :: o in frags && start < End(frags, o) && 8 * o < end
  }

  ghost function MaxEnd(frags: Frags): (end: nat)
    ensures forall o :: o in frags ==> End(frags, o) <= end
    ensures if frags == map[] then end == 0 else exists o :: o in frags && End(frags, o) == end
    decreases |frags|
  {
    if frags == map[] then 0
    else
      var o :| o in frags;
      var rest := frags - {o};
      var m := MaxEnd(rest);
      assert forall p :: p in rest ==> End(rest, p) == End(frags, p);
      if End(frags, o) > m then End(frags, o) else m
  }

  /** The contiguity walk from `at`: the end if every hop lands on a stored unit, else -1. */
  function Walk(frags: Frags, at: nat, end: nat): (r: int)
    ensures r == end || r == -1
    decreases end - at
  {
    if at >= end then end
    else
      var unit := (at / 8) % 0x1_0000;
      if unit !in frags || frags[unit] == [] then -1
      else Walk(frags, at + |frags[unit]|, end)
  }

  ghost function ContiguousLen(frags: Frags): int {
    Walk(frags, 0, MaxEnd(frags))
  }

  // ---------------------------------------------------------------------
  // The assembly loop, which counts units modulo 2^16.

  ghost function AnyUnit(frags: Frags): (u: uint16)
    requires frags != map[]
    ensures u in frags
  {
    var u :| u in frags;
    u
  }

  /** Steps until the loop meets a stored unit again, wrap-around included. */
  ghost function Distance(frags: Frags, off: uint16): nat
    requires frags != map[]
  {
    (AnyUnit(frags) - off) % 0x1_0000
  }

  /** What the loop has copied when it ends; `got` is what it has copied at unit `off`. */
  ghost function Copied(frags: Frags, total: nat, off: uint16, got: seq<byte>): (full: seq<byte>)
    requires frags != map[] && WellSized(frags) && |got| <= total
    ensures |full| == total && got <= full
    decreases total - |got|, Distance(frags, off)
  {
    if |got| >= total then got
    else
      var next := (off + 1) % 0x1_0000;
      if off in frags then
        var n := if |frags[off]| < total - |got| then |frags[off]| else total - |got|;
        Copied(frags, total, next, got + frags[off][..n])
      else
        Copied(frags, total, next, got)
  }

  ghost function Assembled(frags: Frags, total: nat): seq<byte>
    requires frags != map[] && WellSized(frags)
  {
    Copied(frags, total, 0, [])
  }

  // ---------------------------------------------------------------------
  // Coverage.

  ghost predicate Covered(frags: Frags, i: nat) {
    exists o :: o in frags && 8 * o <= i < End(frags, o)
  }

  ghost predicate GapFree(frags: Frags, end: nat) {
    forall i :: 0 <= i < end ==> Covered(frags, i)
  }

  /** Every fragment but those that reach the end is a multiple of eight long. */
  ghost predicate Aligned(frags: Frags, end: nat) {
    forall o :: o in frags && End(frags, o) < end ==> |frags[o]| % 8 == 0
  }

  /** No fragment straddles `at`. */
  ghost predicate Boundary(frags: Frags, at: nat) {
    forall o :: o in frags ==> End(frags, o) <= at || at <= 8 * o
  }

  lemma {:induction false} WalkCovers(frags: Frags, at: nat, end: nat)
    requires WellSized(frags) && Aligned(frags, end) && end <= 0x2_0000
    requires Walk(frags, at, end) == end && (at % 8 == 0 || at >= end)
    ensures forall i :: at <= i < end ==> Covered(frags, i)
    decreases end - at
  {
    if at < end {
      var unit := at / 8;
      assert unit in frags && 8 * unit == at;
      assert forall i :: at <= i < at + |frags[unit]| ==> Covered(frags, i);
      assert End(frags, unit) == at + |frags[unit]|;
      WalkCovers(frags, at + |frags[unit]|, end);
    }
  }

  lemma {:induction false} WalkReachesEnd(frags: Frags, at: nat, end: nat)
    requires WellSized(frags) && Disjoint(frags) && GapFree(frags, end)
    requires Boundary(frags, at)
    ensures Walk(frags, at, end) == end
    decreases end - at
  {
    if at < end {
      assert Covered(frags, at);
      var o :| o in frags && 8 * o <= at < End(frags, o);
      assert at == 8 * o;
      WalkStep(frags, at, end, o);
      EndIsBoundary(frags, o);
      hide Walk, WellSized, Disjoint, GapFree, Boundary;
      WalkReachesEnd(frags, End(frags, o), end);
    }
  }

  lemma WalkStep(frags: Frags, at: nat, end: nat, unit: uint16)
    requires at < end && unit in frags && frags[unit] != [] && unit == (at / 8) % 0x1_0000
    ensures Walk(frags, at, end) == Walk(frags, at + |frags[unit]|, end)
  {
  }

  lemma EndIsBoundary(frags: Frags, o: uint16)
    requires Disjoint(frags) && o in frags
    ensures Boundary(frags, End(frags, o))
  {
    forall p | p in frags
      ensures End(frags, p) <= End(frags, o) || End(frags, o) <= 8 * p
    {
      assert p < o ==> End(frags, p) <= 8 * o;
    }
  }

  /** A gap-free set of fragments can only be unaligned at its end. */
  lemma GapFreeIsAligned(frags: Frags, end: nat)
    requires WellSized(frags) && Disjoint(frags) && GapFree(frags, end)
    ensures Aligned(frags, end)
  {
    forall o | o in frags && End(frags, o) < end
      ensures |frags[o]| % 8 == 0
    {
      var e := End(frags, o);
      assert Covered(frags, e);
      var p :| p in frags && 8 * p <= e < End(frags, p);
      assert o < p ==> End(frags, o) <= 8 * p;
    }
  }

  lemma EndIsBounded(frags: Frags)
    requires WellSized(frags)
    ensures MaxEnd(frags) <= 0x2_0000
  {
  }

  /**
   When the walk succeeds the datagram has no hole if and only if every
   fragment that ends early is a multiple of eight long. The length of an M=0
   fragment is not checked, so one stored below others can leave a hole.
   */
  lemma NoHolesIffAligned(frags: Frags)
    requires WellSized(frags) && Disjoint(frags) && ContiguousLen(frags) >= 0
    ensures GapFree(frags, MaxEnd(frags)) <==> Aligned(frags, MaxEnd(frags))
  {
    EndIsBounded(frags);
    if Aligned(frags, MaxEnd(frags)) {
      WalkCovers(frags, 0, MaxEnd(frags));
    }
    if GapFree(frags, MaxEnd(frags)) {
      GapFreeIsAligned(frags, MaxEnd(frags));
    }
  }

  /** Aligned and disjoint, the walk succeeds exactly when nothing is missing. */
  lemma WalkDetectsGaps(frags: Frags)
    requires WellSized(frags) && Disjoint(frags) && Aligned(frags, MaxEnd(frags))
    ensures ContiguousLen(frags) >= 0 <==> GapFree(frags, MaxEnd(frags))
  {
    EndIsBounded(frags);
    if ContiguousLen(frags) >= 0 {
      WalkCovers(frags, 0, MaxEnd(frags));
    }
    if GapFree(frags, MaxEnd(frags)) {
      WalkReachesEnd(frags, 0, MaxEnd(frags));
    }
  }

  /** Every stored octet is where its fragment says. */
  ghost predicate Holds(full: seq<byte>, frags: Frags, o: uint16)
    requires o in frags
  {
    End(frags, o) <= |full| && full[8 * o..End(frags, o)] == frags[o]
  }

  /** Units below `off` are copied and nothing else is. */
  ghost predicate CopiedUpTo(frags: Frags, off: nat, got: seq<byte>) {
    && (forall o :: o in frags && o < off ==> Holds(got, frags, o))
    && (forall o :: o in frags && off <= o ==> |got| <= 8 * o)
  }

  lemma CopyOne(frags: Frags, off: uint16, got: seq<byte>)
    requires WellSized(frags) && Disjoint(frags) && CopiedUpTo(frags, off, got)
    requires off in frags && 8 * off == |got|
    ensures CopiedUpTo(frags, off + 1, got + frags[off])
  {
    var more := got + frags[off];
    forall o | o in frags && o < off + 1
      ensures Holds(more, frags, o)
    {
      if o < off {
        assert Holds(got, frags, o);
        assert more[8 * o..End(frags, o)] == got[8 * o..End(frags, o)];
      }
    }
    assert forall o :: o in frags && off < o ==> End(frags, off) <= 8 * o;
  }

  /** The next octet to copy starts a fragment not copied yet. */
  lemma NextFragment(frags: Frags, total: nat, off: nat, got: seq<byte>) returns (o: uint16)
    requires GapFree(frags, total) && CopiedUpTo(frags, off, got) && |got| < total
    ensures o in frags && off <= o && 8 * o == |got|
  {
    assert Covered(frags, |got|);
    assert forall p :: p in frags && p < off ==> End(frags, p) <= |got| by {
      assert forall p :: p in frags && p < off ==> Holds(got, frags, p);
    }
    o :| o in frags && 8 * o <= |got| < End(frags, o);
  }

  lemma SkipOne(frags: Frags, off: uint16, got: seq<byte>, o: uint16)
    requires CopiedUpTo(frags, off, got) && o in frags && off < o && 8 * o == |got|
    ensures off !in frags && CopiedUpTo(frags, off + 1, got)
  {
    hide Holds;
  }

  lemma CopiedUnfold(frags: Frags, total: nat, off: uint16, got: seq<byte>)
    requires frags != map[] && WellSized(frags) && |got| < total && off < 0x2000
    ensures off in frags && |got| + |frags[off]| <= total ==>
              Copied(frags, total, off, got) == Copied(frags, total, off + 1, got + frags[off])
    ensures off !in frags ==> Copied(frags, total, off, got) == Copied(frags, total, off + 1, got)
  {
    assert off in frags ==> frags[off][..|frags[off]|] == frags[off];
  }

  lemma {:induction false} CopiedHolds(frags: Frags, total: nat, off: uint16, got: seq<byte>)
    requires frags != map[] && WellSized(frags) && Disjoint(frags) && GapFree(frags, total) && |got| <= total
    requires forall o :: o in frags ==> End(frags, o) <= total
    requires CopiedUpTo(frags, off, got)
    ensures forall o :: o in frags ==> Holds(Copied(frags, total, off, got), frags, o)
    decreases total - |got|, 0x1_0000 - off
  {
    if |got| >= total {
      forall o | o in frags
        ensures Holds(got, frags, o)
      {
        assert frags[o] != [] && End(frags, o) <= total;
      }
    } else {
      var o := NextFragment(frags, total, off, got);
      assert off < 0x2000 && |got| + |frags[o]| <= total;
      CopiedUnfold(frags, total, off, got);
      hide Copied, GapFree, CopiedUpTo, Holds;
      if off == o {
        CopyOne(frags, off, got);
        CopiedHolds(frags, total, off + 1, got + frags[off]);
      } else {
        SkipOne(frags, off, got, o);
        CopiedHolds(frags, total, off + 1, got);
      }
    }
  }

  /** Without holes the assembled datagram is the fragments, each at its offset. */
  lemma AssemblyIsExact(frags: Frags)
    requires frags != map[] && WellSized(frags) && Disjoint(frags) && GapFree(frags, MaxEnd(frags))
    ensures ContiguousLen(frags) == MaxEnd(frags)
    ensures |Assembled(frags, MaxEnd(frags))| == MaxEnd(frags)
    ensures forall o :: o in frags ==> Holds(Assembled(frags, MaxEnd(frags)), frags, o)
  {
    WalkReachesEnd(frags, 0, MaxEnd(frags));
    CopiedHolds(frags, MaxEnd(frags), 0, []);
  }

  // ---------------------------------------------------------------------
  // The loop past the last stored unit.

  /** Units without a fragment are passed over. */
  lemma {:induction false} CopiedSkips(frags: Frags, total: nat, off: uint16, to: uint16, got: seq<byte>)
    requires frags != map[] && WellSized(frags) && |got| <= total && off <= to
    requires forall o :: o in frags ==> o < off || to <= o
    ensures Copied(frags, total, off, got) == Copied(frags, total, to, got)
    decreases 0x1_0000 - off as int
  {
    if off < to {
      CopiedSkips(frags, total, off + 1, to, got);
    }
  }

  /** Behind the last stored unit the counter wraps and the loop starts over. */
  lemma CopiedWraps(frags: Frags, total: nat, off: uint16, got: seq<byte>)
    requires frags != map[] && WellSized(frags) && |got| <= total
    requires forall o :: o in frags ==> o < off
    ensures Copied(frags, total, off, got) == Copied(frags, total, 0, got)
  {
    CopiedSkips(frags, total, off, 0xFFFF, got);
  }

  lemma CopiedTakes(frags: Frags, total: nat, off: uint16, got: seq<byte>, n: nat)
    requires frags != map[] && WellSized(frags) && off in frags && |got| < total
    requires n == if |frags[off]| < total - |got| then |frags[off]| else total - |got|
    ensures off < 0x2000 && Copied(frags, total, off, got) == Copied(frags, total, off + 1, got + frags[off][..n])
  {
  }

  // ---------------------------------------------------------------------
  // The hole that alignment would have prevented.

  /** Three octets at unit 0 and eight at unit 1: octets 3 to 7 are in neither. */
  predicate ShortFirst(frags: Frags) {
    frags.Keys == {0, 1} && |frags[0]| == 3 && |frags[1]| == 8
  }

  lemma ShortFirstShape(frags: Frags)
    requires ShortFirst(frags)
    ensures WellSized(frags) && frags != map[] && MaxEnd(frags) == 16
    ensures forall i :: 3 <= i < 8 ==> !Covered(frags, i)
  {
    assert 0 in frags && 1 in frags && End(frags, 0) == 3 && End(frags, 1) == 16;
    assert forall o :: o in frags ==> o == 0 || o == 1;
  }

  /** The walk takes three octets at unit 0 three times over, then eight at unit 1. */
  lemma WalkOverShortFirst(frags: Frags)
    requires ShortFirst(frags)
    ensures Walk(frags, 0, 16) == 16
  {
    assert 0 in frags && 1 in frags;
    assert Walk(frags, 9, 16) == Walk(frags, 17, 16) == 16 by {
      WalkStep(frags, 9, 16, 1);
    }
    assert Walk(frags, 3, 16) == Walk(frags, 9, 16) by {
      WalkStep(frags, 3, 16, 0);
      WalkStep(frags, 6, 16, 0);
    }
    WalkStep(frags, 0, 16, 0);
  }

  /** The copy loop runs the fragments together, wraps, and fills up with their first octets again. */
  lemma ShortFirstAssembled(frags: Frags)
    requires ShortFirst(frags) && WellSized(frags) && frags != map[]
    ensures Assembled(frags, 16) == frags[0] + frags[1] + frags[0] + frags[1][..2]
  {
    assert 0 in frags && 1 in frags && forall o :: o in frags ==> o == 0 || o == 1;
    var a, b := frags[0], frags[1];
    assert a[..3] == a && b[..8] == b;
    assert [] + a == a;
    hide Copied;
    CopiedTakes(frags, 16, 0, [], 3);
    CopiedTakes(frags, 16, 1, a, 8);
    CopiedWraps(frags, 16, 2, a + b);
    CopiedTakes(frags, 16, 0, a + b, 3);
    CopiedTakes(frags, 16, 1, a + b + a, 2);
    CopiedEnds(frags, 16, 2, a + b + a + b[..2]);
  }

  lemma CopiedEnds(frags: Frags, total: nat, off: uint16, got: seq<byte>)
    requires frags != map[] && WellSized(frags) && |got| == total
    ensures Copied(frags, total, off, got) == got
  {
  }
}
