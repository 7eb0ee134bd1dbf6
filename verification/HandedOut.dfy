/** What src/nat64/reasm.go hands out, seen from its callers: over every run, and where it is not what was sent. */
module HandedOut {
  import opened Octets
  import opened Reassembly
  import opened ReasmTable

  /** The fragments of the datagram that one more fragment belongs to, that one included. */
  ghost function Gathered(m: Entries, key: Key, off: uint16, frag: seq<byte>, now: int): Frags {
    EntryFor(Unexpired(m, now), key, now).frags[off := frag]
  }

  lemma StoredHandsOut(m: Entries, key: Key, e: Entry)
    requires Storable(e) && Stored(m, key, e).1.Some?
    ensures ContiguousLen(e.frags) >= 0 && Stored(m, key, e).1.value == Assembled(e.frags, ContiguousLen(e.frags))
  {
    hide ContiguousLen, Assembled;
  }

  lemma AddedHandsOut(m: Entries, key: Key, off: uint16, more: bool, frag: seq<byte>, now: int)
    requires Inv(m)
    ensures var f, d := Gathered(m, key, off, frag, now), Added(m, key, off, more, frag, now).1;
            d.Some? ==>
              && f != map[] && WellSized(f) && Disjoint(f) && ContiguousLen(f) >= 0
              && d.value == Assembled(f, ContiguousLen(f))
  {
    var r := Unexpired(m, now);
    UnexpiredInv(m, now);
    EntryForSound(r, key, now);
    var e := EntryFor(r, key, now);
    hide Inv, ContiguousLen, Assembled, Unexpired, Total, Overlaps, WellSized, Disjoint;
    if Added(m, key, off, more, frag, now).1.Some? {
      ExtendedIsStorable(r, key, off, more, frag, now);
      ExtendedSound(e, off, more, frag);
      StoredHandsOut(r, key, Extended(e, off, more, frag));
    }
  }

  /**
   A datagram handed out has no hole if and only if each of its fragments that
   ends early is a multiple of eight long, and then it is those fragments, each
   at its offset, and nothing else.
   */
  lemma HandedOutIsExactIff(m: Entries, key: Key, off: uint16, more: bool, frag: seq<byte>, now: int)
    requires Inv(m)
    ensures var f, d := Gathered(m, key, off, frag, now), Added(m, key, off, more, frag, now).1;
            d.Some? ==>
              && (GapFree(f, MaxEnd(f)) <==> Aligned(f, MaxEnd(f)))
              && (Aligned(f, MaxEnd(f)) ==> |d.value| == MaxEnd(f) && forall o :: o in f ==> Holds(d.value, f, o))
  {
    hide Inv, Added, Gathered, GapFree, Aligned, WellSized, Disjoint, MaxEnd, Assembled;
    AddedHandsOut(m, key, off, more, frag, now);
    var f := Gathered(m, key, off, frag, now);
    if Added(m, key, off, more, frag, now).1.Some? {
      NoHolesIffAligned(f);
      if Aligned(f, MaxEnd(f)) {
        AssemblyIsExact(f);
      }
    }
  }

  lemma HandedOutIsNotEmpty(m: Entries, key: Key, off: uint16, more: bool, frag: seq<byte>, now: int)
    requires Inv(m)
    ensures Added(m, key, off, more, frag, now).1 != Some([])
  {
    hide Inv, Added, Gathered;
    AddedHandsOut(m, key, off, more, frag, now);
    var f := Gathered(m, key, off, frag, now);
    if Added(m, key, off, more, frag, now).1.Some? {
      var o :| o in f;
      assert 0 < End(f, o) <= MaxEnd(f);
    }
  }

  // ---------------------------------------------------------------------
  // What an add refuses.

  /** Some octet of the fragment is there already. */
  ghost predicate Meets(frags: Frags, off: uint16, frag: seq<byte>) {
    exists i :: 8 * off <= i < 8 * off + |frag| && Covered(frags, i)
  }

  lemma MeetsIffOverlaps(frags: Frags, off: uint16, frag: seq<byte>)
    requires WellSized(frags) && frag != []
    ensures Meets(frags, off, frag) <==> Overlaps(frags, 8 * off, 8 * off + |frag|)
  {
    if o :| o in frags && 8 * off < End(frags, o) && 8 * o < 8 * off + |frag| {
      var i := if off <= o then 8 * o else 8 * off;
      assert 8 * o <= i < End(frags, o);
      assert Covered(frags, i);
    }
  }

  /** The fragment can be no part of its datagram: it is cut wrongly, reaches too far, meets another or is one too many. */
  ghost predicate Spoils(frags: Frags, off: uint16, more: bool, frag: seq<byte>) {
    || frag == [] || (more && |frag| % 8 != 0)
    || off >= 0x2000 || (!more && 8 * off + |frag| > 0x1_0000)
    || Meets(frags, off, frag) || |frags| >= 16
  }

  /** The fragments of a datagram that are not too old. */
  ghost function Waiting(m: Entries, key: Key, now: int): Frags {
    if key in m && m[key].createdAt >= now - MAX_AGE then m[key].frags else map[]
  }

  lemma UnexpiredAt(m: Entries, key: Key, now: int)
    ensures key in Unexpired(m, now) <==> key in m && m[key].createdAt >= now - MAX_AGE
    ensures key in Unexpired(m, now) ==> Unexpired(m, now)[key] == m[key]
    ensures EntryFor(Unexpired(m, now), key, now).frags == Waiting(m, key, now)
  {
  }

  lemma JoinsUnlessSpoils(e: Entry, off: uint16, more: bool, frag: seq<byte>)
    requires WellSized(e.frags)
    ensures !Malformed(more, frag) && Joins(e, off, more, frag) <==> !Spoils(e.frags, off, more, frag)
  {
    if frag != [] {
      MeetsIffOverlaps(e.frags, off, frag);
    }
    hide Meets, Overlaps, WellSized;
  }

  lemma StoredKeepsOthers(m: Entries, key: Key, e: Entry)
    requires Storable(e)
    ensures var (r, d) := Stored(m, key, e);
            && (forall k :: k != key ==> (k in r <==> k in m) && (k in r ==> r[k] == m[k]))
            && if d == None then key in r && r[key] == e else key !in r
  {
    hide ContiguousLen, Assembled, WellSized;
  }

  /** The cases of an add once the old entries are gone. */
  lemma AddedNowCases(u: Entries, key: Key, off: uint16, more: bool, frag: seq<byte>, now: int)
    requires Inv(u)
    ensures var r, d, f := AddedNow(u, key, off, more, frag, now).0, AddedNow(u, key, off, more, frag, now).1, EntryFor(u, key, now).frags;
            && (forall k :: k != key ==> (k in r <==> k in u) && (k in r ==> r[k] == u[k]))
            && if !Malformed(more, frag) && !HasRoom(u, key, frag) then r == u && d == None
               else if Spoils(f, off, more, frag) then key !in r && d == None
               else if d == None then key in r && r[key].frags == f[off := frag]
               else key !in r
  {
    var e := EntryFor(u, key, now);
    EntryForSound(u, key, now);
    JoinsUnlessSpoils(e, off, more, frag);
    hide Inv, Total, Spoils, Joins, WellSized, HasRoom, Stored, EntryFor;
    if !Malformed(more, frag) && HasRoom(u, key, frag) && Joins(e, off, more, frag) {
      ExtendedIsStorable(u, key, off, more, frag, now);
      StoredKeepsOthers(u, key, Extended(e, off, more, frag));
    }
  }

  /**
   A fragment that spoils its datagram, as one that overlaps another does
   (RFC 5722), takes all of it along when there is room for it, and hands out
   nothing; one without room leaves the table to its ageing. Every other
   fragment is kept until its datagram is handed out. Nothing else changes.
   */
  lemma SpoiledDatagramGoes(m: Entries, key: Key, off: uint16, more: bool, frag: seq<byte>, now: int)
    requires Inv(m)
    ensures var r, d := Added(m, key, off, more, frag, now).0, Added(m, key, off, more, frag, now).1;
            var u, malformed := Unexpired(m, now), frag == [] || (more && |frag| % 8 != 0);
            var room := Total(u) + |frag| <= 0x1_0000 && (key in u || |u| < 64);
            && (forall k :: k != key ==> (k in r <==> k in m && m[k].createdAt >= now - MAX_AGE) && (k in r ==> r[k] == m[k]))
            && if !malformed && !room then r == u && d == None
               else if Spoils(Waiting(m, key, now), off, more, frag) then key !in r && d == None
               else if d == None then key in r && r[key].frags == Waiting(m, key, now)[off := frag]
               else key !in r
  {
    var u := Unexpired(m, now);
    UnexpiredInv(m, now);
    forall k
      ensures k in u <==> k in m && m[k].createdAt >= now - MAX_AGE
      ensures k in u ==> u[k] == m[k]
    {
      UnexpiredAt(m, k, now);
    }
    UnexpiredAt(m, key, now);
    hide Inv, Total, Unexpired, Spoils, Waiting, EntryFor, AddedNow;
    AddedNowCases(u, key, off, more, frag, now);
  }

  // ---------------------------------------------------------------------
  // Where the fragments come from.

  /** Event i added this fragment to the datagram, which was not cancelled since. */
  ghost predicate Brought(es: seq<Event>, i: nat, key: Key, off: uint16, frag: seq<byte>) {
    && i < |es| && es[i].AddFragment? && es[i].key == key && es[i].off == off && es[i].frag == frag
    && forall j :: i < j < |es| ==> es[j] != Cancel(key)
  }

  /** A stored fragment is the one just added or was stored before. */
  lemma AddedOrStored(m: Entries, at: Key, off: uint16, more: bool, frag: seq<byte>, now: int, key: Key, o: uint16)
    requires Inv(m)
    requires var r := Added(m, at, off, more, frag, now).0; key in r && o in r[key].frags
    ensures var f := Added(m, at, off, more, frag, now).0[key].frags[o];
            || (key == at && o == off && f == frag)
            || (key in m && o in m[key].frags && f == m[key].frags[o])
  {
    hide Inv, Joins, Storable, HasRoom, ContiguousLen, Assembled, Total;
  }

  lemma GatheredOrStored(m: Entries, key: Key, off: uint16, frag: seq<byte>, now: int, o: uint16)
    requires o in Gathered(m, key, off, frag, now)
    ensures var f := Gathered(m, key, off, frag, now)[o];
            (o == off && f == frag) || (key in m && o in m[key].frags && f == m[key].frags[o])
  {
  }

  /** One step of a run: what is stored after it was brought by it or stored before, and then it was no cancel. */
  lemma StoredByStep(es: seq<Event>, n: nat, key: Key, o: uint16)
    requires n + 1 == |es| && key in After(es) && o in After(es)[key].frags
    ensures var m, f := After(es[..n]), After(es)[key].frags[o];
            || Brought(es, n, key, o, f)
            || (es[n] != Cancel(key) && key in m && o in m[key].frags && f == m[key].frags[o])
  {
    var m, e := After(es[..n]), es[n];
    if e.AddFragment? {
      assert After(es) == Added(m, e.key, e.off, e.more, e.frag, e.now).0;
      hide After, Added, Inv;
      AddedOrStored(m, e.key, e.off, e.more, e.frag, e.now, key, o);
    } else {
      assert After(es) == m - {e.key};
      hide After, Inv;
    }
  }

  lemma StillBrought(es: seq<Event>, e: Event, i: nat, key: Key, off: uint16, frag: seq<byte>)
    requires Brought(es, i, key, off, frag) && e != Cancel(key)
    ensures Brought(es + [e], i, key, off, frag)
  {
  }

  lemma NothingStoredYet()
    ensures After([]) == map[]
  {
  }

  lemma {:induction false} StoredWasBrought(es: seq<Event>, key: Key, o: uint16) returns (i: nat)
    requires key in After(es) && o in After(es)[key].frags
    ensures Brought(es, i, key, o, After(es)[key].frags[o])
  {
    hide *;
    NothingStoredYet();
    var n := |es| - 1;
    StoredByStep(es, n, key, o);
    if Brought(es, n, key, o, After(es)[key].frags[o]) {
      i := n;
    } else {
      i := StoredWasBrought(es[..n], key, o);
      StillBrought(es[..n], es[n], i, key, o, After(es)[key].frags[o]);
      assert es[..n] + [es[n]] == es;
    }
  }

  lemma GatheredWasBrought(es: seq<Event>, key: Key, off: uint16, more: bool, frag: seq<byte>, now: int, o: uint16) returns (i: nat)
    requires o in Gathered(After(es), key, off, frag, now)
    ensures Brought(es + [AddFragment(key, off, more, frag, now)], i, key, o, Gathered(After(es), key, off, frag, now)[o])
  {
    hide After, Gathered;
    GatheredOrStored(After(es), key, off, frag, now, o);
    i := |es|;
    if !(o == off && Gathered(After(es), key, off, frag, now)[o] == frag) {
      hide Brought;
      i := StoredWasBrought(es, key, o);
      StillBrought(es, AddFragment(key, off, more, frag, now), i, key, o, After(es)[key].frags[o]);
    }
  }

  /**
   Over every run of the table: a datagram that the next add hands out is put
   together from fragments added in the run under its own key and not cancelled
   since, and where those end on eight octets it is each of them at its offset
   and nothing else.
   */
  lemma RunsHandOutExactly(es: seq<Event>, key: Key, off: uint16, more: bool, frag: seq<byte>, now: int)
    ensures var m := After(es);
            var f, d := Gathered(m, key, off, frag, now), Added(m, key, off, more, frag, now).1;
            d.Some? ==>
              && (forall o :: o in f ==> exists i :: Brought(es + [AddFragment(key, off, more, frag, now)], i, key, o, f[o]))
              && (GapFree(f, MaxEnd(f)) <==> Aligned(f, MaxEnd(f)))
              && (Aligned(f, MaxEnd(f)) ==> |d.value| == MaxEnd(f) && forall o :: o in f ==> Holds(d.value, f, o))
  {
    hide Inv, Added, Gathered, GapFree, Aligned, MaxEnd, Brought;
    HandedOutIsExactIff(After(es), key, off, more, frag, now);
    forall o | o in Gathered(After(es), key, off, frag, now)
      ensures exists i :: Brought(es + [AddFragment(key, off, more, frag, now)], i, key, o, Gathered(After(es), key, off, frag, now)[o])
    {
      var i := GatheredWasBrought(es, key, off, more, frag, now, o);
    }
  }

  // ---------------------------------------------------------------------
  // A datagram with a hole.

  lemma EmptyInv()
    ensures Inv(map[]) && Total(map[]) == 0
  {
    assert Buffered(map[]) == map[];
  }

  /** The entry after eight octets at unit 1, with more to come. */
  function Half(eight: seq<byte>, now: int): Entry {
    Entry(now, map[1 := eight], 8, false)
  }

  lemma FirstAdd(key: Key, eight: seq<byte>, now: int)
    requires |eight| == 8
    ensures Inv(map[]) && Added(map[], key, 1, true, eight, now) == (map[key := Half(eight, now)], None)
  {
    EmptyInv();
    assert Unexpired(map[], now) == map[];
    var e := Entry(now, map[], 0, false);
    assert EntryFor(map[], key, now) == e;
    assert Extended(e, 1, true, eight) == Half(eight, now);
    assert WellSized(map[1 := eight]);
    hide Inv, Total;
  }

  lemma HalfTable(key: Key, eight: seq<byte>, now: int)
    requires |eight| == 8
    ensures var m := map[key := Half(eight, now)]; Inv(m) && Total(m) == 8 && Unexpired(m, now) == m
  {
    EmptyInv();
    FirstAdd(key, eight, now);
    hide Inv, Added, Total;
    AddedKeeps(map[], key, 1, true, eight, now);
    PutTotal(map[], key, Half(eight, now));
    assert map[][key := Half(eight, now)] == map[key := Half(eight, now)];
  }

  lemma ThreeJoin(eight: seq<byte>, three: seq<byte>, now: int)
    requires |eight| == 8 && |three| == 3
    ensures Joins(Half(eight, now), 0, false, three)
    ensures Extended(Half(eight, now), 0, false, three) == Entry(now, map[1 := eight, 0 := three], 11, true)
  {
    assert map[1 := eight].Keys == {1};
    assert map[1 := eight][0 := three] == map[1 := eight, 0 := three];
  }

  lemma WholeIsShortFirst(eight: seq<byte>, three: seq<byte>)
    requires |eight| == 8 && |three| == 3
    ensures ShortFirst(map[1 := eight, 0 := three])
  {
    assert map[1 := eight, 0 := three].Keys == {0, 1};
  }

  lemma SecondAdd(key: Key, eight: seq<byte>, three: seq<byte>, now: int)
    requires |eight| == 8 && |three| == 3
    ensures var m, f := map[key := Half(eight, now)], map[1 := eight, 0 := three];
            && Inv(m) && f != map[] && WellSized(f) && ContiguousLen(f) == 16
            && Added(m, key, 0, false, three, now) == (map[], Some(Assembled(f, 16)))
  {
    hide Inv, Total, Unexpired, Assembled, WellSized, Joins, Extended, ShortFirst;
    var m, f := map[key := Half(eight, now)], map[1 := eight, 0 := three];
    HalfTable(key, eight, now);
    WholeIsShortFirst(eight, three);
    ShortFirstShape(f);
    WalkOverShortFirst(f);
    ThreeJoin(eight, three, now);
    assert EntryFor(m, key, now) == Half(eight, now);
    assert m - {key} == map[];
  }

  /**
   Two adds to an empty table: eight octets at unit 1, then three marked as the
   last fragment at unit 0. Octets 3 to 7 never arrived, and yet sixteen octets
   come out: the three, the eight, and the front of both once more.
   */
  lemma ShortLastFragmentLeavesAHole(key: Key, eight: seq<byte>, three: seq<byte>, now: int)
    requires |eight| == 8 && |three| == 3
    ensures Inv(map[]) && Inv(Added(map[], key, 1, true, eight, now).0) && Added(map[], key, 1, true, eight, now).1 == None
    ensures var m := Added(map[], key, 1, true, eight, now).0;
            && Added(m, key, 0, false, three, now).1 == Some(three + eight + three + eight[..2])
            && forall i :: 3 <= i < 8 ==> !Covered(Gathered(m, key, 0, three, now), i)
  {
    hide Inv, Added, Assembled, WellSized, Covered, ShortFirst, Unexpired;
    var m, f := map[key := Half(eight, now)], map[1 := eight, 0 := three];
    FirstAdd(key, eight, now);
    HalfTable(key, eight, now);
    SecondAdd(key, eight, three, now);
    WholeIsShortFirst(eight, three);
    ShortFirstShape(f);
    ShortFirstAssembled(f);
    assert map[1 := eight][0 := three] == f;
    assert Gathered(m, key, 0, three, now) == f;
  }
}
