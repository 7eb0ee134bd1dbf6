/** The bounded reassembly table, src/nat64/reasm.go, over every sequence of operations. */
module ReasmTable {
  import opened Octets
  import opened Reassembly
  import MapSum
  import opened Cardinality

  const MAX_REASSEMBLIES := 64
  const MAX_FRAGMENTS := 16
  const MAX_BYTES := 0x1_0000
  const MAX_AGE := 30_000_000_000   // thirty seconds, in nanoseconds

  datatype Key = Key(src: Addr6, dst: Addr6, ident: uint32)
  datatype Entry = Entry(createdAt: int, frags: Frags, bytes: nat, haveLast: bool)
  type Entries = map<Key, Entry>

  function Sizes(frags: Frags): map<uint16, nat> {
    map o | o in frags :: |frags[o]|
  }

  function Buffered(m: Entries): map<Key, nat> {
    map k | k in m :: m[k].bytes
  }

  /** The octets a table holds, by its own accounts. */
  ghost function Total(m: Entries): nat {
    MapSum.Sum(Buffered(m))
  }

  // ---------------------------------------------------------------------
  // The operations as functions of the entries.

  function Unexpired(m: Entries, now: int): Entries {
    map k | k in m && !(m[k].createdAt < now - MAX_AGE) :: m[k]
  }

  predicate Malformed(more: bool, frag: seq<byte>) {
    |frag| == 0 || (more && |frag| % 8 != 0)
  }

  predicate OutOfRange(off: uint16, more: bool, frag: seq<byte>) {
    8 * off >= 0x1_0000 || (!more && 8 * off + |frag| > 0x1_0000)
  }

  /** The entry a fragment goes to. */
  function EntryFor(m: Entries, key: Key, now: int): Entry {
    if key in m then m[key] else Entry(now, map[], 0, false)
  }

  function Extended(e: Entry, off: uint16, more: bool, frag: seq<byte>): Entry {
    Entry(e.createdAt, e.frags[off := frag], e.bytes + |frag|, e.haveLast || !more)
  }

  ghost predicate Storable(e: Entry) {
    WellSized(e.frags) && e.frags != map[]
  }

  /** A fragment that joins entry e: the table afterwards, and the datagram if it is now complete. */
  ghost function Stored(m: Entries, key: Key, e: Entry): (Entries, Option<seq<byte>>)
    requires Storable(e)
  {
    if !e.haveLast || ContiguousLen(e.frags) < 0 then (m[key := e], None)
    else (m - {key}, Some(Assembled(e.frags, ContiguousLen(e.frags))))
  }

  /** The octets and table slots a fragment needs are there. */
  ghost predicate HasRoom(m: Entries, key: Key, frag: seq<byte>) {
    Total(m) + |frag| <= MAX_BYTES && (key in m || |m| < MAX_REASSEMBLIES)
  }

  ghost predicate Joins(e: Entry, off: uint16, more: bool, frag: seq<byte>) {
    && !OutOfRange(off, more, frag)
    && !Overlaps(e.frags, 8 * off, 8 * off + |frag|)
    && |e.frags| < MAX_FRAGMENTS
  }

  /** Disjoint fragments within bounds, and their total length as the entry's own account. */
  ghost predicate Sound(e: Entry) {
    && WellSized(e.frags) && Disjoint(e.frags)
    && |e.frags| <= MAX_FRAGMENTS
    && e.bytes == MapSum.Sum(Sizes(e.frags))
  }

  ghost predicate EntryOk(e: Entry) {
    Sound(e) && 1 <= |e.frags|
  }

  ghost predicate Inv(m: Entries) {
    && (forall k :: k in m ==> EntryOk(m[k]))
    && |m| <= MAX_REASSEMBLIES
    && Total(m) <= MAX_BYTES
  }

  /** add, after the sweep of old entries. */
  ghost function AddedNow(m: Entries, key: Key, off: uint16, more: bool, frag: seq<byte>, now: int): (Entries, Option<seq<byte>>)
    requires Inv(m)
  {
    if Malformed(more, frag) then (m - {key}, None)
    else if !HasRoom(m, key, frag) then (m, None)
    else
      var e := EntryFor(m, key, now);
      if !Joins(e, off, more, frag) then (m - {key}, None)
      else
        ExtendedIsStorable(m, key, off, more, frag, now);
        Stored(m, key, Extended(e, off, more, frag))
  }

  ghost function Added(m: Entries, key: Key, off: uint16, more: bool, frag: seq<byte>, now: int): (Entries, Option<seq<byte>>)
    requires Inv(m)
  {
    UnexpiredInv(m, now);
    AddedNow(Unexpired(m, now), key, off, more, frag, now)
  }

  lemma ExtendedIsStorable(m: Entries, key: Key, off: uint16, more: bool, frag: seq<byte>, now: int)
    requires Inv(m) && !Malformed(more, frag) && HasRoom(m, key, frag)
    requires Joins(EntryFor(m, key, now), off, more, frag)
    ensures Storable(Extended(EntryFor(m, key, now), off, more, frag))
  {
    assert off in Extended(EntryFor(m, key, now), off, more, frag).frags;
  }

  // ---------------------------------------------------------------------
  // The invariant.

  lemma UnexpiredInv(m: Entries, now: int)
    requires Inv(m)
    ensures Inv(Unexpired(m, now))
  {
    var r := Unexpired(m, now);
    MapSum.SumOfPart(Buffered(r), Buffered(m));
    assert r.Keys <= m.Keys;
    SubsetSize(r.Keys, m.Keys);
  }

  lemma WithoutInv(m: Entries, key: Key)
    requires Inv(m)
    ensures Inv(m - {key})
  {
    MapSum.SumOfPart(Buffered(m - {key}), Buffered(m));
    SubsetSize((m - {key}).Keys, m.Keys);
  }

  lemma ExtendedIsDisjoint(frags: Frags, off: uint16, frag: seq<byte>)
    requires WellSized(frags) && Disjoint(frags) && frag != []
    requires !Overlaps(frags, 8 * off, 8 * off + |frag|)
    ensures off !in frags && Disjoint(frags[off := frag])
  {
    var r := frags[off := frag];
    forall o, p | o in r && p in r && o < p
      ensures End(r, o) <= 8 * p
    {
      if o == off {
        assert !(8 * off < End(frags, p) && 8 * p < 8 * off + |frag|);
      } else if p == off {
        assert !(8 * off < End(frags, o) && 8 * o < 8 * off + |frag|);
      } else {
        assert End(frags, o) <= 8 * p;
      }
    }
  }

  lemma ExtendedSound(e: Entry, off: uint16, more: bool, frag: seq<byte>)
    requires Sound(e) && frag != [] && |frag| <= MAX_BYTES && Joins(e, off, more, frag)
    ensures off !in e.frags
    ensures EntryOk(Extended(e, off, more, frag))
  {
    ExtendedIsDisjoint(e.frags, off, frag);
    SizesGrow(e.frags, off, frag);
    SizeWith(e.frags, off, frag);
    ExtendedIsWellSized(e.frags, off, frag);
    hide WellSized, Disjoint, Sizes, Overlaps;
  }

  lemma ExtendedIsWellSized(frags: Frags, off: uint16, frag: seq<byte>)
    requires WellSized(frags) && frag != [] && |frag| <= MAX_BYTES && off < 0x2000
    ensures WellSized(frags[off := frag])
  {
  }

  lemma SizesGrow(frags: Frags, off: uint16, frag: seq<byte>)
    requires off !in frags
    ensures MapSum.Sum(Sizes(frags[off := frag])) == MapSum.Sum(Sizes(frags)) + |frag|
  {
    assert Sizes(frags[off := frag]) == Sizes(frags)[off := |frag|];
    MapSum.SumWith(Sizes(frags), off, |frag|);
  }

  lemma EntryForSound(m: Entries, key: Key, now: int)
    requires Inv(m)
    ensures Sound(EntryFor(m, key, now))
  {
    if key !in m {
      assert Sizes(map[]) == map[];
    } else {
      assert EntryOk(m[key]);
    }
  }

  lemma PutTotal(m: Entries, key: Key, e: Entry)
    ensures Total(m[key := e]) == Total(m) - (if key in m then m[key].bytes else 0) + e.bytes
  {
    assert Buffered(m[key := e]) == Buffered(m)[key := e.bytes];
    if key in m {
      MapSum.SumReplaced(Buffered(m), key, e.bytes);
    } else {
      MapSum.SumWith(Buffered(m), key, e.bytes);
    }
  }

  lemma TotalWithout(m: Entries, key: Key)
    requires key in m
    ensures Total(m - {key}) == Total(m) - m[key].bytes
  {
    MapSum.SumWithout(Buffered(m), key);
    assert Buffered(m - {key}) == Buffered(m) - {key};
  }

  lemma PutInv(m: Entries, key: Key, e: Entry, extra: nat)
    requires Inv(m) && EntryOk(e) && (key in m || |m| < MAX_REASSEMBLIES)
    requires e.bytes == (if key in m then m[key].bytes else 0) + extra && Total(m) + extra <= MAX_BYTES
    ensures Inv(m[key := e])
  {
    PutTotal(m, key, e);
    hide EntryOk, Total;
    if key in m {
      assert m[key := e].Keys == m.Keys;
    } else {
      SizeWith(m, key, e);
    }
  }

  lemma AddedNowInv(m: Entries, key: Key, off: uint16, more: bool, frag: seq<byte>, now: int)
    requires Inv(m)
    ensures Inv(AddedNow(m, key, off, more, frag, now).0)
  {
    hide Inv, Sound, EntryOk, Joins, Storable, Assembled, ContiguousLen, Total;
    WithoutInv(m, key);
    if !Malformed(more, frag) && HasRoom(m, key, frag) {
      var e := EntryFor(m, key, now);
      if Joins(e, off, more, frag) {
        EntryForSound(m, key, now);
        ExtendedIsStorable(m, key, off, more, frag, now);
        ExtendedSound(e, off, more, frag);
        PutInv(m, key, Extended(e, off, more, frag), |frag|);
      }
    }
  }

  /** No entry is older than thirty seconds. */
  ghost predicate Recent(m: Entries, now: int) {
    forall k :: k in m ==> m[k].createdAt >= now - MAX_AGE
  }

  lemma AddedNowRecent(m: Entries, key: Key, off: uint16, more: bool, frag: seq<byte>, now: int)
    requires Inv(m) && Recent(m, now)
    ensures Recent(AddedNow(m, key, off, more, frag, now).0, now)
  {
    hide Inv, Joins, Assembled, ContiguousLen, HasRoom;
  }

  lemma AddedKeeps(m: Entries, key: Key, off: uint16, more: bool, frag: seq<byte>, now: int)
    requires Inv(m)
    ensures Inv(Added(m, key, off, more, frag, now).0)
    ensures Recent(Added(m, key, off, more, frag, now).0, now)
  {
    UnexpiredInv(m, now);
    assert Recent(Unexpired(m, now), now);
    hide Inv, Recent, AddedNow;
    AddedNowInv(Unexpired(m, now), key, off, more, frag, now);
    AddedNowRecent(Unexpired(m, now), key, off, more, frag, now);
  }

  datatype Event = AddFragment(key: Key, off: uint16, more: bool, frag: seq<byte>, now: int) | Cancel(key: Key)

  ghost function After(es: seq<Event>): (m: Entries)
    ensures Inv(m)
  {
    if es == [] then map[]
    else
      var m := After(es[..|es| - 1]);
      match es[|es| - 1]
      case AddFragment(key, off, more, frag, now) =>
        AddedKeeps(m, key, off, more, frag, now);
        Added(m, key, off, more, frag, now).0
      case Cancel(key) =>
        WithoutInv(m, key);
        m - {key}
  }

  /** Whatever is thrown at it, the table stays bounded, its accounts stay exact and an add leaves nothing old. */
  lemma TableStaysBounded(es: seq<Event>)
    ensures var m := After(es);
            && |m| <= MAX_REASSEMBLIES && Total(m) <= MAX_BYTES
            && (forall k :: k in m ==> 1 <= |m[k].frags| <= MAX_FRAGMENTS && Disjoint(m[k].frags)
                                       && m[k].bytes == MapSum.Sum(Sizes(m[k].frags)))
            && (es != [] && es[|es| - 1].AddFragment? ==> Recent(m, es[|es| - 1].now))
  {
    if es != [] {
      match es[|es| - 1]
      case AddFragment(key, off, more, frag, now) =>
        AddedKeeps(After(es[..|es| - 1]), key, off, more, frag, now);
      case _ =>
    }
  }

  // ---------------------------------------------------------------------
  // The loops over one datagram's fragments.

  /** Whether [start, end) meets a stored fragment; the original's range over the map. */
  method FindOverlap(frags: Frags, start: int, end: int) returns (found: bool)
    ensures found == Overlaps(frags, start, end)
  {
    var todo := frags.Keys;
    while todo != {}
      invariant todo <= frags.Keys
      invariant forall o :: o in frags && o !in todo ==> !(start < End(frags, o) && 8 * o < end)
      decreases |todo|
    {
      var o: uint16 :| o in todo;
      if start < 8 * o + |frags[o]| && 8 * o < end {
        assert start < End(frags, o) && 8 * o < end;
        return true;
      }
      todo := todo - {o};
    }
    return false;
  }

  /** contiguousLen: a running maximum, then the walk. */
  method FindContiguousLen(frags: Frags) returns (total: int)
    requires WellSized(frags)
    ensures total == ContiguousLen(frags)
  {
    var end := 0;
    var todo := frags.Keys;
    while todo != {}
      invariant todo <= frags.Keys
      invariant forall o :: o in frags && o !in todo ==> End(frags, o) <= end
      invariant end == 0 || exists o :: o in frags && End(frags, o) == end
      invariant end >= 0 && (todo != frags.Keys ==> end > 0)
      decreases |todo|
    {
      var o: uint16 :| o in todo;
      var fe := 8 * o + |frags[o]|;
      assert fe == End(frags, o) && fe > 0;
      if fe > end {
        end := fe;
      }
      todo := todo - {o};
    }
    assert end == MaxEnd(frags);
    var at := 0;
    while at < end
      invariant 0 <= at && Walk(frags, at, end) == Walk(frags, 0, end)
      decreases end - at
    {
      var unit := (at / 8) % 0x1_0000;
      if unit !in frags || |frags[unit]| == 0 {
        return -1;
      }
      at := at + |frags[unit]|;
    }
    return end;
  }

  /**
   The copy loop over units, which wraps at 2^16. It ends because it meets a
   stored unit again within one turn and every stored unit fills some more.
   */
  method Assemble(frags: Frags, total: nat) returns (full: array<byte>)
    requires frags != map[] && WellSized(frags)
    ensures fresh(full) && full[..] == Assembled(frags, total)
  {
    full := new byte[total](_ => 0);
    var at, off := 0, 0;
    while at < total
      invariant 0 <= at <= total && 0 <= off < 0x1_0000
      invariant Copied(frags, total, off, full[..at]) == Assembled(frags, total)
      decreases total - at, Distance(frags, off)
    {
      if off in frags {
        var f := frags[off];
        var n := if |f| < total - at then |f| else total - at;
        ghost var got := full[..at];
        forall i | 0 <= i < n {
          full[at + i] := f[i];
        }
        assert full[..at + n] == got + f[..n];
        at := at + n;
      }
      off := (off + 1) % 0x1_0000;
    }
    assert full[..at] == full[..];
  }

  class ReasmTable {
    var entries: Entries
    var bufByte: int

    ghost predicate Valid()
      reads this
    {
      Inv(entries) && bufByte == Total(entries)
    }

    constructor ()
      ensures Valid() && entries == map[]
    {
      entries, bufByte := map[], 0;
      new;
      assert Buffered(entries) == map[];
    }

    /** Drops one entry. The clamp at zero never fires: the account is exact. */
    method Release(key: Key)
      requires Valid() && key in entries
      modifies this
      ensures Valid() && entries == old(entries) - {key}
      ensures bufByte == old(bufByte) - old(entries)[key].bytes
    {
      hide Inv, Total;
      WithoutInv(entries, key);
      TotalWithout(entries, key);
      var e := entries[key];
      entries := entries - {key};
      bufByte := if bufByte - e.bytes < 0 then 0 else bufByte - e.bytes;
    }

    method Expire(now: int)
      requires Valid()
      modifies this
      ensures Valid() && entries == Unexpired(old(entries), now)
    {
      hide Inv, Total;
      var cutoff := now - MAX_AGE;
      var todo := entries.Keys;
      while todo != {}
        invariant todo <= old(entries).Keys && Valid()
        invariant forall k :: k in entries <==>
                    k in old(entries) && (k in todo || !(old(entries)[k].createdAt < cutoff))
        invariant forall k :: k in entries ==> entries[k] == old(entries)[k]
        decreases |todo|
      {
        var k :| k in todo;
        if entries[k].createdAt < cutoff {
          Release(k);
        }
        todo := todo - {k};
      }
      assert entries == Unexpired(old(entries), now);
    }

    /** Drops a partial datagram, reporting whether there was one. */
    method Cancel(key: Key) returns (existed: bool)
      requires Valid()
      modifies this
      ensures Valid() && entries == old(entries) - {key} && existed == (key in old(entries))
    {
      existed := key in entries;
      if existed {
        Release(key);
      } else {
        assert entries - {key} == entries;
      }
    }

    /** Stores a fragment that joins its entry, and hands out the datagram it completes. */
    method Store(key: Key, e: Entry, extra: nat) returns (full: Option<seq<byte>>)
      requires Valid() && EntryOk(e) && Storable(e) && (key in entries || |entries| < MAX_REASSEMBLIES)
      requires e.bytes == (if key in entries then entries[key].bytes else 0) + extra
      requires Total(entries) + extra <= MAX_BYTES
      modifies this
      ensures Valid() && (entries, full) == Stored(old(entries), key, e)
    {
      hide Inv, Total, EntryOk, ContiguousLen, Assembled;
      PutInv(entries, key, e, extra);
      PutTotal(entries, key, e);
      entries := entries[key := e];
      bufByte := bufByte + extra;
      if !e.haveLast {
        return None;
      }
      var total := FindContiguousLen(e.frags);
      if total < 0 {
        return None;
      }
      var buf := Assemble(e.frags, total);
      Release(key);
      assert old(entries)[key := e] - {key} == old(entries) - {key};
      return Some(buf[..]);
    }

    method Add(key: Key, off: uint16, more: bool, frag: seq<byte>, now: int) returns (full: Option<seq<byte>>)
      requires Valid()
      modifies this
      ensures Valid() && (entries, full) == Added(old(entries), key, off, more, frag, now)
    {
      hide EntryOk, Total, Storable, Joins, Stored, Inv;
      UnexpiredInv(entries, now);
      Expire(now);
      if |frag| == 0 || (more && |frag| % 8 != 0) {
        var _ := Cancel(key);
        return None;
      }
      if bufByte + |frag| > MAX_BYTES {
        return None;
      }
      if key !in entries && |entries| >= MAX_REASSEMBLIES {
        return None;
      }
      var e := EntryFor(entries, key, now);
      var joins := CanJoin(e, off, more, frag);
      if !joins {
        var _ := Cancel(key);
        return None;
      }
      ExtendedIsStorable(entries, key, off, more, frag, now);
      EntryForSound(entries, key, now);
      ExtendedSound(e, off, more, frag);
      full := Store(key, Extended(e, off, more, frag), |frag|);
    }

    /** Range, overlap and fragment-count tests. */
    method CanJoin(e: Entry, off: uint16, more: bool, frag: seq<byte>) returns (joins: bool)
      ensures joins == Joins(e, off, more, frag)
    {
      var start := 8 * off;
      var end := start + |frag|;
      if start >= 0x1_0000 || (!more && end > 0x1_0000) {
        return false;
      }
      var overlap := FindOverlap(e.frags, start, end);
      return !overlap && |e.frags| < MAX_FRAGMENTS;
    }
  }
}
