/**
 A datagram cut into fragments and put together again: whatever order the
 fragments arrive in and whatever else the table handles meanwhile, nothing
 comes out before the last one and then exactly the datagram does.
 */
module Datagram {
  import opened Octets
  import opened Reassembly
  import opened ReasmTable
  import opened Cardinality

  /** One fragment's share of the body: where it starts, in units of eight octets, and where it ends. */
  datatype Cut = Cut(unit: nat, end: nat) {
    function Start(): nat {
      8 * unit
    }
  }

  /** Consecutive, non-empty shares that start on eight-octet boundaries. */
  ghost predicate Cutting(cuts: seq<Cut>, n: nat) {
    && 1 <= |cuts| && n <= 0xFFFF
    && cuts[0].unit == 0 && cuts[|cuts| - 1].end == n
    && (forall i :: 0 <= i < |cuts| ==> cuts[i].Start() < cuts[i].end)
    && (forall i :: 0 <= i < |cuts| - 1 ==> cuts[i].end == cuts[i + 1].Start())
  }

  lemma {:induction false} CutsAreOrdered(cuts: seq<Cut>, n: nat, i: nat, j: nat)
    requires Cutting(cuts, n) && i < j < |cuts|
    ensures cuts[i].end <= cuts[j].Start() && cuts[j].end <= n
    decreases |cuts| - i
  {
    if i + 1 < j {
      CutsAreOrdered(cuts, n, i + 1, j);
    } else if j + 1 < |cuts| {
      CutsAreOrdered(cuts, n, j, j + 1);
      CutEndsWithin(cuts, n, j);
    }
  }

  lemma {:induction false} CutEndsWithin(cuts: seq<Cut>, n: nat, i: nat)
    requires Cutting(cuts, n) && i < |cuts|
    ensures cuts[i].end <= n
    decreases |cuts| - i
  {
    if i + 1 < |cuts| {
      CutEndsWithin(cuts, n, i + 1);
    }
  }

  /** Every octet belongs to some share. */
  lemma {:induction false} ShareOf(cuts: seq<Cut>, n: nat, x: nat, from: nat) returns (i: nat)
    requires Cutting(cuts, n) && from < |cuts| && cuts[from].Start() <= x < n
    ensures i < |cuts| && cuts[i].Start() <= x < cuts[i].end
    decreases |cuts| - from
  {
    if x < cuts[from].end {
      i := from;
    } else {
      i := ShareOf(cuts, n, x, from + 1);
    }
  }

  function Share(body: seq<byte>, c: Cut): seq<byte>
    requires c.Start() <= c.end <= |body|
  {
    body[c.Start()..c.end]
  }

  /** The stored fragments are exactly the shares with the given indices. */
  ghost predicate Holding(frags: Frags, body: seq<byte>, cuts: seq<Cut>, idx: seq<nat>)
    requires Cutting(cuts, |body|)
  {
    && (forall i :: i in idx ==> i < |cuts| && Stores(frags, body, cuts, i))
    && (forall o :: o in frags ==> exists i :: i in idx && i < |cuts| && o == cuts[i].unit)
  }

  ghost predicate Stores(frags: Frags, body: seq<byte>, cuts: seq<Cut>, i: nat)
    requires i < |cuts|
  {
    var c := cuts[i];
    && c.Start() <= c.end <= |body| && c.unit < 0x2000
    && c.unit in frags && frags[c.unit] == Share(body, c)
  }

  lemma HeldFragment(frags: Frags, body: seq<byte>, cuts: seq<Cut>, idx: seq<nat>, o: uint16) returns (i: nat)
    requires Cutting(cuts, |body|) && Holding(frags, body, cuts, idx) && o in frags
    ensures i in idx && i < |cuts| && 8 * o == cuts[i].Start() && End(frags, o) == cuts[i].end
    ensures frags[o] == Share(body, cuts[i]) && cuts[i].end <= |body|
  {
    i :| i in idx && i < |cuts| && o == cuts[i].unit;
    assert Stores(frags, body, cuts, i);
  }

  lemma HeldFits(frags: Frags, body: seq<byte>, cuts: seq<Cut>, idx: seq<nat>, o: uint16)
    requires Cutting(cuts, |body|) && Holding(frags, body, cuts, idx) && o in frags
    ensures frags[o] != [] && o < 0x2000 && |frags[o]| <= 0x1_0000 && End(frags, o) <= |body|
    ensures End(frags, o) < |body| ==> |frags[o]| % 8 == 0
  {
    var i := HeldFragment(frags, body, cuts, idx, o);
    hide Holding;
    if i + 1 < |cuts| {
      assert |frags[o]| == 8 * (cuts[i + 1].unit - cuts[i].unit);
    }
  }

  lemma HeldAreApart(frags: Frags, body: seq<byte>, cuts: seq<Cut>, idx: seq<nat>, o: uint16, p: uint16)
    requires Cutting(cuts, |body|) && Holding(frags, body, cuts, idx) && o in frags && p in frags && o < p
    ensures End(frags, o) <= 8 * p
  {
    var i := HeldFragment(frags, body, cuts, idx, o);
    var j := HeldFragment(frags, body, cuts, idx, p);
    hide Holding;
    if j < i {
      CutsAreOrdered(cuts, |body|, j, i);
    } else if i < j {
      CutsAreOrdered(cuts, |body|, i, j);
    }
  }

  lemma HeldIsOrderly(frags: Frags, body: seq<byte>, cuts: seq<Cut>, idx: seq<nat>)
    requires Cutting(cuts, |body|) && Holding(frags, body, cuts, idx)
    ensures WellSized(frags) && Disjoint(frags) && Aligned(frags, |body|) && MaxEnd(frags) <= |body|
  {
    hide Holding, Cutting;
    forall o | o in frags
      ensures frags[o] != [] && o < 0x2000 && |frags[o]| <= 0x1_0000 && End(frags, o) <= |body|
      ensures End(frags, o) < |body| ==> |frags[o]| % 8 == 0
    {
      HeldFits(frags, body, cuts, idx, o);
    }
    forall o, p | o in frags && p in frags && o < p
      ensures End(frags, o) <= 8 * p
    {
      HeldAreApart(frags, body, cuts, idx, o, p);
    }
  }

  /** A share not stored yet meets none of the stored ones. */
  lemma NewShareFits(frags: Frags, body: seq<byte>, cuts: seq<Cut>, idx: seq<nat>, j: nat)
    requires Cutting(cuts, |body|) && Holding(frags, body, cuts, idx) && j < |cuts| && j !in idx
    ensures !Overlaps(frags, cuts[j].Start(), cuts[j].end)
  {
    forall o | o in frags
      ensures !(cuts[j].Start() < End(frags, o) && 8 * o < cuts[j].end)
    {
      var i := HeldFragment(frags, body, cuts, idx, o);
      if i < j {
        CutsAreOrdered(cuts, |body|, i, j);
      } else {
        CutsAreOrdered(cuts, |body|, j, i);
      }
    }
  }

  lemma HoldingOneMore(frags: Frags, body: seq<byte>, cuts: seq<Cut>, idx: seq<nat>, j: nat)
    requires Cutting(cuts, |body|) && Holding(frags, body, cuts, idx) && j < |cuts| && j !in idx
    ensures cuts[j].end <= |body| && cuts[j].unit < 0x2000 && cuts[j].unit !in frags
    ensures Holding(frags[cuts[j].unit := Share(body, cuts[j])], body, cuts, idx + [j])
  {
    CutEndsWithin(cuts, |body|, j);
    var u: uint16 := cuts[j].unit;
    if u in frags {
      NewShareFits(frags, body, cuts, idx, j);
      var i := HeldFragment(frags, body, cuts, idx, u);
      assert false;
    }
    var r := frags[u := Share(body, cuts[j])];
    forall i | i in idx + [j]
      ensures i < |cuts| && Stores(r, body, cuts, i)
    {
      if i in idx {
        assert Stores(frags, body, cuts, i);
      }
    }
    forall o | o in r
      ensures exists i :: i in idx + [j] && i < |cuts| && o == cuts[i].unit
    {
      if o != u {
        var i := HeldFragment(frags, body, cuts, idx, o);
        assert i in idx + [j];
      } else {
        assert j in idx + [j];
      }
    }
  }

  /** While a share is missing its first octet is covered by nothing. */
  lemma MissingShareIsAGap(frags: Frags, body: seq<byte>, cuts: seq<Cut>, idx: seq<nat>, j: nat)
    requires Cutting(cuts, |body|) && Holding(frags, body, cuts, idx) && j < |cuts| && j !in idx
    ensures cuts[j].Start() < |body| && !GapFree(frags, |body|)
  {
    CutEndsWithin(cuts, |body|, j);
    NewShareFits(frags, body, cuts, idx, j);
    assert !Covered(frags, cuts[j].Start());
  }

  lemma LastShareEnds(frags: Frags, body: seq<byte>, cuts: seq<Cut>, idx: seq<nat>)
    requires Cutting(cuts, |body|) && Holding(frags, body, cuts, idx) && |cuts| - 1 in idx
    ensures MaxEnd(frags) == |body|
  {
    HeldIsOrderly(frags, body, cuts, idx);
    assert Stores(frags, body, cuts, |cuts| - 1);
    var u: uint16 := cuts[|cuts| - 1].unit;
    assert End(frags, u) == |body|;
  }

  /** With a share missing the table keeps waiting. */
  lemma IncompleteIsDetected(frags: Frags, body: seq<byte>, cuts: seq<Cut>, idx: seq<nat>, j: nat)
    requires Cutting(cuts, |body|) && Holding(frags, body, cuts, idx)
    requires |cuts| - 1 in idx && j < |cuts| && j !in idx
    ensures ContiguousLen(frags) < 0
  {
    HeldIsOrderly(frags, body, cuts, idx);
    LastShareEnds(frags, body, cuts, idx);
    MissingShareIsAGap(frags, body, cuts, idx, j);
    WalkDetectsGaps(frags);
  }

  lemma OctetIsStored(frags: Frags, body: seq<byte>, cuts: seq<Cut>, idx: seq<nat>, x: nat) returns (u: uint16)
    requires Cutting(cuts, |body|) && Holding(frags, body, cuts, idx) && x < |body|
    requires forall i :: 0 <= i < |cuts| ==> i in idx
    ensures u in frags && 8 * u <= x < End(frags, u) && frags[u][x - 8 * u] == body[x]
  {
    var i := ShareOf(cuts, |body|, x, 0);
    assert Stores(frags, body, cuts, i);
    u := cuts[i].unit;
  }

  lemma CompleteIsGapFree(frags: Frags, body: seq<byte>, cuts: seq<Cut>, idx: seq<nat>)
    requires Cutting(cuts, |body|) && Holding(frags, body, cuts, idx)
    requires forall i :: 0 <= i < |cuts| ==> i in idx
    ensures GapFree(frags, |body|) && MaxEnd(frags) == |body| && frags != map[]
  {
    assert |cuts| - 1 in idx;
    LastShareEnds(frags, body, cuts, idx);
    assert Stores(frags, body, cuts, 0);
    hide Holding, Cutting;
    forall x | 0 <= x < |body|
      ensures Covered(frags, x)
    {
      var u := OctetIsStored(frags, body, cuts, idx, x);
    }
  }

  lemma SameOctets(full: seq<byte>, frags: Frags, body: seq<byte>, cuts: seq<Cut>, idx: seq<nat>)
    requires Cutting(cuts, |body|) && Holding(frags, body, cuts, idx) && |full| == |body|
    requires forall i :: 0 <= i < |cuts| ==> i in idx
    requires forall o :: o in frags ==> Holds(full, frags, o)
    ensures full == body
  {
    hide Holding, Cutting;
    forall x | 0 <= x < |body|
      ensures full[x] == body[x]
    {
      var u := OctetIsStored(frags, body, cuts, idx, x);
      assert Holds(full, frags, u);
      var unit: int := u;
      var start := 8 * unit;
      assert full[start..End(frags, u)][x - start] == frags[u][x - start];
    }
  }

  /** With all shares the table puts the body together. */
  lemma CompleteIsAssembled(frags: Frags, body: seq<byte>, cuts: seq<Cut>, idx: seq<nat>)
    requires Cutting(cuts, |body|) && Holding(frags, body, cuts, idx)
    requires forall i :: 0 <= i < |cuts| ==> i in idx
    ensures frags != map[] && WellSized(frags)
    ensures ContiguousLen(frags) == |body| && Assembled(frags, |body|) == body
  {
    hide *;
    HeldIsOrderly(frags, body, cuts, idx);
    CompleteIsGapFree(frags, body, cuts, idx);
    AssemblyIsExact(frags);
    SameOctets(Assembled(frags, |body|), frags, body, cuts, idx);
  }

  // ---------------------------------------------------------------------
  // Feeding the shares in some order.

  ghost predicate Distinct(idx: seq<nat>) {
    forall i, j :: 0 <= i < j < |idx| ==> idx[i] != idx[j]
  }

  /** An order of all n indices. */
  ghost predicate IsOrder(order: seq<nat>, n: nat) {
    |order| == n && Distinct(order) && forall i :: 0 <= i < n ==> order[i] < n
  }

  function Elements(idx: seq<nat>): set<nat> {
    set i | i in idx
  }

  lemma {:induction false} AsManyAsDistinct(idx: seq<nat>)
    requires Distinct(idx)
    ensures |Elements(idx)| == |idx|
  {
    if idx != [] {
      var front, last := idx[..|idx| - 1], idx[|idx| - 1];
      AsManyAsDistinct(front);
      assert last !in front;
      assert Elements(idx) == Elements(front) + {last};
    }
  }

  /** A full order leaves no index out. */
  lemma OrderIsComplete(order: seq<nat>, n: nat)
    requires IsOrder(order, n)
    ensures forall i :: 0 <= i < n ==> i in order
  {
    AsManyAsDistinct(order);
    var all, got := UpTo(n), Elements(order);
    assert got <= all;
    assert all == got + (all - got);
    assert |all - got| == 0;
    forall i | 0 <= i < n
      ensures i in order
    {
      assert i in all;
    }
  }

  /** What the table holds of the datagram after the shares idx arrived, the first one at t0. */
  ghost predicate Partial(e: Entry, body: seq<byte>, cuts: seq<Cut>, idx: seq<nat>, t0: int)
    requires Cutting(cuts, |body|)
  {
    && e.createdAt == t0
    && Holding(e.frags, body, cuts, idx)
    && |e.frags| == |idx|
    && (e.haveLast <==> |cuts| - 1 in idx)
  }

  ghost predicate Awaits(m: Entries, key: Key, body: seq<byte>, cuts: seq<Cut>, idx: seq<nat>, t0: int)
    requires Cutting(cuts, |body|)
  {
    if idx == [] then key !in m else key in m && Partial(m[key], body, cuts, idx, t0)
  }

  /** The M flag of a share. */
  predicate More(cuts: seq<Cut>, i: nat) {
    i + 1 < |cuts|
  }

  lemma ShareIsWellCut(body: seq<byte>, cuts: seq<Cut>, j: nat)
    requires Cutting(cuts, |body|) && j < |cuts|
    ensures cuts[j].Start() < cuts[j].end <= |body| && cuts[j].unit < 0x2000
    ensures |Share(body, cuts[j])| == cuts[j].end - cuts[j].Start()
    ensures !Malformed(More(cuts, j), Share(body, cuts[j]))
  {
    CutEndsWithin(cuts, |body|, j);
    if More(cuts, j) {
      assert |Share(body, cuts[j])| == 8 * (cuts[j + 1].unit - cuts[j].unit);
    }
  }

  /** Share j joins the entry: sizes, range, overlap and count all pass. */
  lemma ShareJoins(e: Entry, body: seq<byte>, cuts: seq<Cut>, idx: seq<nat>, j: nat, t0: int)
    requires Cutting(cuts, |body|) && |cuts| <= MAX_FRAGMENTS && j < |cuts| && j !in idx && |idx| < |cuts|
    requires Partial(e, body, cuts, idx, t0)
    ensures cuts[j].end <= |body| && cuts[j].unit < 0x2000
    ensures !Malformed(More(cuts, j), Share(body, cuts[j]))
    ensures Joins(e, cuts[j].unit, More(cuts, j), Share(body, cuts[j]))
  {
    hide Overlaps, Holding;
    ShareIsWellCut(body, cuts, j);
    NewShareFits(e.frags, body, cuts, idx, j);
    hide Cutting, Malformed;
  }

  lemma LastOneMore(idx: seq<nat>, j: nat, n: nat)
    requires j < n
    ensures n - 1 in idx + [j] <==> n - 1 in idx || !(j + 1 < n)
  {
    assert (idx + [j])[|idx|] == j;
  }

  lemma PartialOneMore(e: Entry, body: seq<byte>, cuts: seq<Cut>, idx: seq<nat>, j: nat, t0: int, u: uint16, share: seq<byte>)
    requires Cutting(cuts, |body|) && j < |cuts| && Partial(e, body, cuts, idx, t0)
    requires Holding(e.frags[u := share], body, cuts, idx + [j]) && |e.frags[u := share]| == |e.frags| + 1
    ensures Partial(Extended(e, u, More(cuts, j), share), body, cuts, idx + [j], t0)
  {
    hide Holding, Cutting;
    LastOneMore(idx, j, |cuts|);
  }

  lemma StillPartial(e: Entry, body: seq<byte>, cuts: seq<Cut>, idx: seq<nat>, j: nat, t0: int)
    requires Cutting(cuts, |body|) && j < |cuts| && j !in idx && Partial(e, body, cuts, idx, t0)
    ensures cuts[j].end <= |body| && cuts[j].unit < 0x2000
    ensures Partial(Extended(e, cuts[j].unit, More(cuts, j), Share(body, cuts[j])), body, cuts, idx + [j], t0)
  {
    HoldingOneMore(e.frags, body, cuts, idx, j);
    var u: uint16, share := cuts[j].unit, Share(body, cuts[j]);
    SizeWith(e.frags, u, share);
    hide *;
    PartialOneMore(e, body, cuts, idx, j, t0, u, share);
  }

  /** An index not among distinct ones that are too few. */
  lemma MissingIndex(idx: seq<nat>, n: nat) returns (j: nat)
    requires |idx| < n
    ensures j < n && j !in idx
  {
    ElementsAtMost(idx);
    assert exists i: nat :: i in UpTo(n) && i !in Elements(idx) by {
      if UpTo(n) <= Elements(idx) {
        SubsetSize(UpTo(n), Elements(idx));
      }
    }
    j :| j in UpTo(n) && j !in Elements(idx);
  }

  lemma {:induction false} ElementsAtMost(idx: seq<nat>)
    ensures |Elements(idx)| <= |idx|
  {
    if idx != [] {
      var front, last := idx[..|idx| - 1], idx[|idx| - 1];
      ElementsAtMost(front);
      assert Elements(idx) == Elements(front) + {last};
    }
  }

  /** Storing the next share: nothing comes out until it was the last one missing. */
  lemma StoreShare(m: Entries, key: Key, e: Entry, body: seq<byte>, cuts: seq<Cut>, idx: seq<nat>, t0: int)
    requires Cutting(cuts, |body|) && Partial(e, body, cuts, idx, t0) && Storable(e)
    requires |idx| == |cuts| ==> IsOrder(idx, |cuts|)
    ensures |idx| < |cuts| ==> Stored(m, key, e) == (m[key := e], None)
    ensures |idx| == |cuts| ==> Stored(m, key, e) == (m - {key}, Some(body))
  {
    if |idx| == |cuts| {
      OrderIsComplete(idx, |cuts|);
      CompleteIsAssembled(e.frags, body, cuts, idx);
    } else if |idx| < |cuts| && e.haveLast {
      var j := MissingIndex(idx, |cuts|);
      IncompleteIsDetected(e.frags, body, cuts, idx, j);
    }
  }

  /** What add makes of share j. */
  ghost function Fed(m: Entries, key: Key, body: seq<byte>, cuts: seq<Cut>, j: nat, now: int): (Entries, Option<seq<byte>>)
    requires Inv(m) && Cutting(cuts, |body|) && j < |cuts|
  {
    CutEndsWithin(cuts, |body|, j);
    Added(m, key, cuts[j].unit, More(cuts, j), Share(body, cuts[j]), now)
  }

  /** The table has room for share j, and the entry it belongs to is not older than thirty seconds. */
  ghost predicate Ready(m: Entries, key: Key, body: seq<byte>, cuts: seq<Cut>, j: nat, t0: int, now: int)
    requires Cutting(cuts, |body|) && j < |cuts|
  {
    CutEndsWithin(cuts, |body|, j);
    t0 >= now - MAX_AGE && HasRoom(Unexpired(m, now), key, Share(body, cuts[j]))
  }

  lemma EntrySurvives(m: Entries, key: Key, body: seq<byte>, cuts: seq<Cut>, idx: seq<nat>, t0: int, now: int)
    requires Cutting(cuts, |body|) && Awaits(m, key, body, cuts, idx, t0)
    requires t0 >= now - MAX_AGE && (idx == [] ==> t0 == now)
    ensures Partial(EntryFor(Unexpired(m, now), key, now), body, cuts, idx, t0)
  {
  }

  /** One more share: the entry now holds it, or the datagram is complete and comes out. */
  lemma FeedOne(m: Entries, key: Key, body: seq<byte>, cuts: seq<Cut>, idx: seq<nat>, j: nat, t0: int, now: int)
    requires Inv(m) && Cutting(cuts, |body|) && |cuts| <= MAX_FRAGMENTS
    requires j < |cuts| && |idx| < |cuts| && j !in idx
    requires |idx| + 1 == |cuts| ==> IsOrder(idx + [j], |cuts|)
    requires Awaits(m, key, body, cuts, idx, t0) && (idx == [] ==> t0 == now)
    requires Ready(m, key, body, cuts, j, t0, now)
    ensures |idx| + 1 < |cuts| ==>
              Fed(m, key, body, cuts, j, now).1 == None
              && Awaits(Fed(m, key, body, cuts, j, now).0, key, body, cuts, idx + [j], t0)
    ensures |idx| + 1 == |cuts| ==>
              Fed(m, key, body, cuts, j, now).1 == Some(body) && key !in Fed(m, key, body, cuts, j, now).0
  {
    hide *;
    var e := FedIsStored(m, key, body, cuts, idx, j, t0, now);
    var room := Unexpired(m, now);
    StoreShare(room, key, e, body, cuts, idx + [j], t0);
    StoredIsAwaited(room, key, e, body, cuts, idx + [j], t0);
  }

  lemma StoredIsAwaited(m: Entries, key: Key, e: Entry, body: seq<byte>, cuts: seq<Cut>, idx: seq<nat>, t0: int)
    requires Cutting(cuts, |body|) && Partial(e, body, cuts, idx, t0) && idx != []
    ensures Awaits(m[key := e], key, body, cuts, idx, t0) && key !in m - {key}
  {
  }

  /** A share of a datagram with room is stored in its entry. */
  lemma FedIsStored(m: Entries, key: Key, body: seq<byte>, cuts: seq<Cut>, idx: seq<nat>, j: nat, t0: int, now: int)
    returns (e: Entry)
    requires Inv(m) && Cutting(cuts, |body|) && |cuts| <= MAX_FRAGMENTS
    requires j < |cuts| && |idx| < |cuts| && j !in idx
    requires Awaits(m, key, body, cuts, idx, t0) && (idx == [] ==> t0 == now)
    requires Ready(m, key, body, cuts, j, t0, now)
    ensures Partial(e, body, cuts, idx + [j], t0) && Storable(e)
    ensures Fed(m, key, body, cuts, j, now) == Stored(Unexpired(m, now), key, e)
  {
    var room := Unexpired(m, now);
    var before := EntryFor(room, key, now);
    UnexpiredInv(m, now);
    EntrySurvives(m, key, body, cuts, idx, t0, now);
    ShareJoins(before, body, cuts, idx, j, t0);
    StillPartial(before, body, cuts, idx, j, t0);
    ExtendedIsStorable(room, key, cuts[j].unit, More(cuts, j), Share(body, cuts[j]), now);
    e := Extended(before, cuts[j].unit, More(cuts, j), Share(body, cuts[j]));
    hide Inv, Cutting, Partial, Joins, Malformed, HasRoom, Storable, EntryFor, Unexpired, Stored, Extended, Awaits;
  }

  /**
   A run of the table seen from one datagram: share order[k] arrives at nows[k]
   and finds tables[k]. In between, other datagrams may do anything to the rest
   of the table.
   */
  ghost predicate Arrivals(key: Key, body: seq<byte>, cuts: seq<Cut>, order: seq<nat>, tables: seq<Entries>, nows: seq<int>) {
    && Cutting(cuts, |body|) && |cuts| <= MAX_FRAGMENTS && IsOrder(order, |cuts|)
    && |tables| == |nows| == |cuts| && key !in tables[0]
    && (forall k :: 0 <= k < |cuts| ==> Inv(tables[k]) && Ready(tables[k], key, body, cuts, order[k], nows[0], nows[k]))
    && (forall k :: 0 <= k < |cuts| - 1 ==>
          SameEntry(Fed(tables[k], key, body, cuts, order[k], nows[k]).0, tables[k + 1], key))
  }

  ghost predicate SameEntry(m: Entries, r: Entries, key: Key) {
    (key in m <==> key in r) && (key in m ==> m[key] == r[key])
  }

  /** The k-th arrival, on its own. */
  lemma ArrivalAt(key: Key, body: seq<byte>, cuts: seq<Cut>, order: seq<nat>,
                  tables: seq<Entries>, nows: seq<int>, k: nat)
    requires Arrivals(key, body, cuts, order, tables, nows) && k < |cuts|
    ensures Cutting(cuts, |body|) && |cuts| <= MAX_FRAGMENTS && |order| == |tables| == |nows| == |cuts|
    ensures order[k] < |cuts| && Inv(tables[k]) && Ready(tables[k], key, body, cuts, order[k], nows[0], nows[k])
    ensures order[k] !in order[..k] && order[..k] + [order[k]] == order[..k + 1]
    ensures k + 1 == |cuts| ==> IsOrder(order[..k + 1], |cuts|)
    ensures k + 1 < |cuts| ==>
              SameEntry(Fed(tables[k], key, body, cuts, order[k], nows[k]).0, tables[k + 1], key)
    ensures Awaits(tables[0], key, body, cuts, order[..0], nows[0])
  {
    OrderAt(order, |cuts|, k);
    FirstAwaits(key, body, cuts, order, tables[0], nows[0]);
    hide Inv, Ready, Cutting, Fed, SameEntry, IsOrder, Awaits;
  }

  lemma OrderAt(order: seq<nat>, n: nat, k: nat)
    requires IsOrder(order, n) && k < n
    ensures order[k] < n && order[k] !in order[..k] && order[..k] + [order[k]] == order[..k + 1]
    ensures k + 1 == n ==> IsOrder(order[..k + 1], n)
  {
    assert k + 1 == n ==> order[..k + 1] == order;
  }

  lemma FirstAwaits(key: Key, body: seq<byte>, cuts: seq<Cut>, order: seq<nat>, m: Entries, t0: int)
    requires Cutting(cuts, |body|) && key !in m
    ensures Awaits(m, key, body, cuts, order[..0], t0)
  {
  }

  lemma SameEntryAwaits(m: Entries, r: Entries, key: Key, body: seq<byte>, cuts: seq<Cut>, idx: seq<nat>, t0: int)
    requires Cutting(cuts, |body|) && SameEntry(m, r, key) && Awaits(m, key, body, cuts, idx, t0)
    ensures Awaits(r, key, body, cuts, idx, t0)
  {
  }

  lemma {:induction false} AwaitsTheRest(key: Key, body: seq<byte>, cuts: seq<Cut>, order: seq<nat>,
                                         tables: seq<Entries>, nows: seq<int>, k: nat)
    requires Arrivals(key, body, cuts, order, tables, nows) && k < |cuts|
    ensures Cutting(cuts, |body|) && |order| == |tables| == |nows| == |cuts|
    ensures Awaits(tables[k], key, body, cuts, order[..k], nows[0])
  {
    hide *;
    ArrivalAt(key, body, cuts, order, tables, nows, k);
    if k > 0 {
      AwaitsTheRest(key, body, cuts, order, tables, nows, k - 1);
      ArrivalAt(key, body, cuts, order, tables, nows, k - 1);
      FeedNth(key, body, cuts, order, tables, nows, k - 1);
      SameEntryAwaits(Fed(tables[k - 1], key, body, cuts, order[k - 1], nows[k - 1]).0, tables[k],
                      key, body, cuts, order[..k], nows[0]);
    }
  }

  lemma FeedNth(key: Key, body: seq<byte>, cuts: seq<Cut>, order: seq<nat>,
                tables: seq<Entries>, nows: seq<int>, k: nat)
    requires Arrivals(key, body, cuts, order, tables, nows) && k < |cuts|
    requires Awaits(tables[k], key, body, cuts, order[..k], nows[0])
    ensures var r := Fed(tables[k], key, body, cuts, order[k], nows[k]);
            if k + 1 < |cuts| then r.1 == None && Awaits(r.0, key, body, cuts, order[..k + 1], nows[0])
            else r.1 == Some(body) && key !in r.0
  {
    hide *;
    ArrivalAt(key, body, cuts, order, tables, nows, k);
    FeedOne(tables[k], key, body, cuts, order[..k], order[k], nows[0], nows[k]);
  }

  /** In any order, every share but the last to arrive yields nothing and that one yields exactly the body. */
  lemma ReassembledInAnyOrder(key: Key, body: seq<byte>, cuts: seq<Cut>, order: seq<nat>,
                              tables: seq<Entries>, nows: seq<int>, k: nat)
    requires Arrivals(key, body, cuts, order, tables, nows) && k < |cuts|
    ensures Fed(tables[k], key, body, cuts, order[k], nows[k]).1 == if k + 1 < |cuts| then None else Some(body)
  {
    AwaitsTheRest(key, body, cuts, order, tables, nows, k);
    FeedNth(key, body, cuts, order, tables, nows, k);
  }
}
