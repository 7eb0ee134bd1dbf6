/**
 The answer cache of src/dns64/cache.go: entries expire, hits are aged by the
 time they spent in the cache, the size is bounded and a reload flushes.
 */
module DnsCaches {
  import opened Octets
  import opened Records
  import opened Cardinality

  /** Nanoseconds in a second. */
  const SECOND := 1_000_000_000

  datatype Key = Key(name: string, qtype: uint16)

  /** A zero expiration never comes. */
  datatype Item = Item(value: seq<RR>, expiration: int, ttl: int)

  datatype Cache = Cache(items: map<Key, Item>, defaultExp: int, maxEntries: int)

  /** The smallest TTL of the records, zero if there are none. */
  function MinTtl(rrs: seq<RR>): (m: uint32)
    ensures rrs == [] ==> m == 0
    ensures forall i :: 0 <= i < |rrs| ==> m <= rrs[i].ttl
    ensures rrs != [] ==> exists i :: 0 <= i < |rrs| && m == rrs[i].ttl
  {
    if rrs == [] then 0
    else if |rrs| == 1 then rrs[0].ttl
    else
      var m := MinTtl(rrs[..|rrs| - 1]);
      if rrs[|rrs| - 1].ttl < m then rrs[|rrs| - 1].ttl else m
  }

  /** How long an answer is kept. */
  function Lifetime(rrs: seq<RR>, defaultExp: int): int {
    var m := MinTtl(rrs) * SECOND;
    if m > 0 && m < defaultExp then m else defaultExp
  }

  function NewItem(rrs: seq<RR>, defaultExp: int, now: int): Item {
    if defaultExp > 0 then Item(rrs, now + Lifetime(rrs, defaultExp), Lifetime(rrs, defaultExp)) else Item(rrs, 0, 0)
  }

  predicate Expired(it: Item, now: int) {
    it.expiration > 0 && now > it.expiration
  }

  function Live(items: map<Key, Item>, now: int): map<Key, Item> {
    map k | k in items && !Expired(items[k], now) :: items[k]
  }

  /** makeRoomLocked; `victim` is the entry the iteration order offers first. */
  function Roomy(c: Cache, k: Key, now: int, victim: Key): map<Key, Item> {
    if c.maxEntries <= 0 || |c.items| < c.maxEntries || k in c.items then c.items
    else
      var live := Live(c.items, now);
      if |live| < c.maxEntries then live else live - {victim}
  }

  /** set, with the clock as read before and inside the lock. */
  function Stored(c: Cache, k: Key, rrs: seq<RR>, now: int, later: int, victim: Key): Cache {
    c.(items := Roomy(c, k, later, victim)[k := NewItem(rrs, c.defaultExp, now)])
  }

  function Purged(c: Cache, now: int): Cache {
    c.(items := Live(c.items, now))
  }

  function Reloaded(c: Cache, defaultExp: int, maxEntries: int): Cache {
    Cache(map[], defaultExp, if maxEntries > 0 then maxEntries else c.maxEntries)
  }

  /** A TTL after `dec` seconds in the cache, clamped at zero. */
  function AgedTtl(ttl: uint32, dec: uint32): uint32 {
    if dec >= ttl then 0 else ttl - dec
  }

  function Aged(rrs: seq<RR>, dec: uint32): (r: seq<RR>)
    ensures |r| == |rrs|
  {
    seq(|rrs|, i requires 0 <= i < |rrs| => WithTtl(rrs[i], AgedTtl(rrs[i].ttl, dec)))
  }

  /** Whole seconds, truncated to 32 bits as the conversion does. */
  function Seconds(elapsed: nat): uint32 {
    (elapsed / SECOND) % 0x1_0000_0000
  }

  function Got(c: Cache, k: Key, now: int): Option<seq<RR>> {
    if k !in c.items || Expired(c.items[k], now) then None
    else
      var it := c.items[k];
      if it.ttl <= 0 || it.expiration <= 0 then Some(it.value)
      else
        var elapsed := it.ttl - (it.expiration - now);
        Some(Aged(it.value, Seconds(if elapsed < 0 then 0 else elapsed)))
  }

  // ---------------------------------------------------------------------
  // One entry.

  /**
   The documented lifetime, the smaller of the smallest TTL and the default,
   is met if and only if no record has TTL zero: an answer with a zero TTL
   stays for the whole default.
   */
  lemma LifetimeIsSmallestIff(rrs: seq<RR>, defaultExp: int)
    requires defaultExp > 0 && rrs != []
    ensures var m := MinTtl(rrs) * SECOND;
            Lifetime(rrs, defaultExp) == (if m < defaultExp then m else defaultExp) <==> forall i :: 0 <= i < |rrs| ==> rrs[i].ttl > 0
  {
    var m := MinTtl(rrs);
    if m == 0 {
      var i :| 0 <= i < |rrs| && m == rrs[i].ttl;
    }
  }

  /** An AAAA record with TTL zero, as upstream may send it, is still served a minute later. */
  lemma ZeroTtlOutlivesItself(name: string, v6: Octets16)
    ensures var k, r := Key(name, 28), Aaaa(name, 0, v6);
            Got(Stored(Cache(map[], 60 * SECOND, 1), k, [r], 0, 0, k), k, 60 * SECOND) == Some([r])
  {
    var k, r := Key(name, 28), Aaaa(name, 0, v6);
    var c := Stored(Cache(map[], 60 * SECOND, 1), k, [r], 0, 0, k);
    assert MinTtl([r]) == 0;
    assert c.items[k] == Item([r], 60 * SECOND, 60 * SECOND);
    assert Aged([r], Seconds(60 * SECOND)) == [r];
  }

  /**
   Reading an entry back: present exactly up to its lifetime, every TTL less by
   the whole seconds since it was stored. With no zero TTL nothing is clamped.
   */
  lemma ReadBack(rrs: seq<RR>, defaultExp: int, now: int, later: int, k: Key, c: Cache)
    requires defaultExp > 0 && now <= later && now >= 0
    requires k in c.items && c.items[k] == NewItem(rrs, defaultExp, now)
    ensures Got(c, k, later) == if later - now > Lifetime(rrs, defaultExp) then None else Some(Aged(rrs, Seconds(later - now)))
  {
  }

  lemma NothingIsClamped(rrs: seq<RR>, defaultExp: int, elapsed: nat, i: nat)
    requires defaultExp > 0 && elapsed <= Lifetime(rrs, defaultExp) && i < |rrs|
    requires forall j :: 0 <= j < |rrs| ==> rrs[j].ttl > 0
    ensures Aged(rrs, Seconds(elapsed))[i].ttl == rrs[i].ttl - elapsed / SECOND
    ensures Aged(rrs, Seconds(elapsed))[i] == WithTtl(rrs[i], rrs[i].ttl - elapsed / SECOND)
  {
    var m := MinTtl(rrs);
    assert m > 0 by {
      var j :| 0 <= j < |rrs| && m == rrs[j].ttl;
    }
    assert elapsed <= m * SECOND;
    assert elapsed / SECOND <= m;
    assert Seconds(elapsed) == elapsed / SECOND;
  }

  /** Ageing takes the seconds off every TTL, down to zero, and changes nothing else. */
  lemma AgedRecord(rrs: seq<RR>, dec: uint32, i: nat)
    requires i < |rrs|
    ensures Aged(rrs, dec)[i] == WithTtl(rrs[i], if rrs[i].ttl < dec then 0 else rrs[i].ttl - dec)
  {
  }

  /** Without a default lifetime an answer is kept, and served as it was stored, for ever. */
  lemma KeptForEver(c: Cache, k: Key, rrs: seq<RR>, now: int, later: int, victim: Key, asked: int)
    requires c.defaultExp <= 0
    ensures Got(Stored(c, k, rrs, now, later, victim), k, asked) == Some(rrs)
  {
    hide Roomy;
  }

  // ---------------------------------------------------------------------
  // Runs.

  datatype Event =
    | Set(key: Key, rrs: seq<RR>, now: int, later: int, victim: Key)
    | Purge(now: int)
    | Reload(defaultExp: int, maxEntries: int)

  function Next(c: Cache, e: Event): Cache {
    match e
    case Set(k, rrs, now, later, victim) => Stored(c, k, rrs, now, later, victim)
    case Purge(now) => Purged(c, now)
    case Reload(d, m) => Reloaded(c, d, m)
  }

  function After(c: Cache, es: seq<Event>): Cache {
    if es == [] then c else Next(After(c, es[..|es| - 1]), es[|es| - 1])
  }

  predicate Replaces(e: Event, k: Key) {
    e.Reload? || (e.Set? && e.key == k)
  }

  /** Step i stored the answer for k and nothing since replaced or flushed it. */
  ghost predicate LastSet(es: seq<Event>, i: nat, k: Key) {
    i < |es| && es[i].Set? && es[i].key == k && forall j :: i < j < |es| ==> !Replaces(es[j], k)
  }

  lemma NextKeepsEntry(c: Cache, e: Event, k: Key)
    requires k in Next(c, e).items && !Replaces(e, k)
    ensures k in c.items && Next(c, e).items[k] == c.items[k] && Next(c, e).defaultExp == c.defaultExp
  {
  }

  /** An entry is what its last set stored. */
  lemma {:induction false} EntryIsLastSet(c: Cache, es: seq<Event>, k: Key) returns (i: nat)
    requires c.items == map[] && k in After(c, es).items
    ensures LastSet(es, i, k) && After(c, es).items[k] == NewItem(es[i].rrs, After(c, es).defaultExp, es[i].now)
  {
    var n := |es| - 1;
    var s, e := After(c, es[..n]), es[n];
    if Replaces(e, k) {
      i := n;
    } else {
      NextKeepsEntry(s, e, k);
      i := EntryIsLastSet(c, es[..n], k);
      assert forall j :: i < j < n ==> es[j] == es[..n][j];
    }
  }

  /**
   A hit serves the records of the last answer stored since the last reload,
   within its lifetime, each TTL less by the whole seconds in between.
   */
  lemma HitIsAgedLastSet(c: Cache, es: seq<Event>, k: Key, now: int) returns (i: nat)
    requires c.items == map[] && Got(After(c, es), k, now).Some?
    requires forall j :: 0 <= j < |es| && es[j].Set? ==> 0 <= es[j].now <= now
    ensures LastSet(es, i, k)
    ensures var s := After(c, es);
            if s.defaultExp > 0
            then now - es[i].now <= Lifetime(es[i].rrs, s.defaultExp) && Got(s, k, now) == Some(Aged(es[i].rrs, Seconds(now - es[i].now)))
            else Got(s, k, now) == Some(es[i].rrs)
  {
    i := EntryIsLastSet(c, es, k);
    var s := After(c, es);
    hide After;
    if s.defaultExp > 0 {
      ReadBack(es[i].rrs, s.defaultExp, es[i].now, now, k, s);
    }
  }

  // ---------------------------------------------------------------------
  // Size and eviction.

  /** The eviction, where there is one, takes an entry that is there. */
  predicate Picks(c: Cache, e: Event) {
    e.Set? ==> var live := Live(c.items, e.later); |live| >= c.maxEntries > 0 ==> e.victim in live
  }

  ghost predicate Legal(c: Cache, es: seq<Event>) {
    forall j :: 0 <= j < |es| ==> Picks(After(c, es[..j]), es[j])
  }

  lemma LiveIsSmaller(items: map<Key, Item>, now: int)
    ensures |Live(items, now)| <= |items|
    ensures |Live(items, now)| == |items| ==> Live(items, now) == items
  {
    var live := Live(items, now);
    assert live.Keys <= items.Keys;
    assert items.Keys == live.Keys + (items.Keys - live.Keys);
    assert |live| == |live.Keys| && |items| == |items.Keys|;
    if |live| == |items| {
      assert items.Keys - live.Keys == {};
      assert live.Keys == items.Keys;
    }
  }

  lemma StoredIsBounded(c: Cache, e: Event)
    requires e.Set? && Picks(c, e) && 0 < c.maxEntries && |c.items| <= c.maxEntries
    ensures |Next(c, e).items| <= c.maxEntries
  {
    var live := Live(c.items, e.later);
    var room := Roomy(c, e.key, e.later, e.victim);
    LiveIsSmaller(c.items, e.later);
    SizeWith(room, e.key, NewItem(e.rrs, c.defaultExp, e.now));
    hide Live, NewItem;
    if |c.items| == c.maxEntries && e.key !in c.items && |live| >= c.maxEntries {
      SizeWithout(live, e.victim);
    }
  }

  /** The number of entries never exceeds a positive bound, through lowered bounds too. */
  lemma {:induction false} CacheStaysBounded(c: Cache, es: seq<Event>)
    requires c.items == map[] && Legal(c, es)
    ensures After(c, es).maxEntries > 0 ==> |After(c, es).items| <= After(c, es).maxEntries
  {
    if es != [] {
      var n := |es| - 1;
      var s, e := After(c, es[..n]), es[n];
      assert forall j :: 0 <= j < n ==> es[..n][..j] == es[..j];
      CacheStaysBounded(c, es[..n]);
      assert Picks(s, e);
      hide After, Legal, Picks;
      match e
      case Set(_, _, _, _, _) =>
        if s.maxEntries > 0 {
          StoredIsBounded(s, e);
        }
      case Purge(now) => LiveIsSmaller(s.items, now);
      case Reload(_, _) =>
    }
  }

  /** The size bound in force: that of the last reload with a positive one. */
  function BoundInForce(es: seq<Event>, first: int): int {
    if es == [] then first
    else
      var e := es[|es| - 1];
      if e.Reload? && e.maxEntries > 0 then e.maxEntries else BoundInForce(es[..|es| - 1], first)
  }

  /** The default lifetime in force: that of the last reload. */
  function DefaultInForce(es: seq<Event>, first: int): int {
    if es == [] then first
    else if es[|es| - 1].Reload? then es[|es| - 1].defaultExp
    else DefaultInForce(es[..|es| - 1], first)
  }

  /** Over every run the settings are those of the reloads, and a reload leaves no entry. */
  lemma {:induction false} ReloadsDecide(c: Cache, es: seq<Event>)
    ensures After(c, es).maxEntries == BoundInForce(es, c.maxEntries) && After(c, es).defaultExp == DefaultInForce(es, c.defaultExp)
    ensures es != [] && es[|es| - 1].Reload? ==> After(c, es).items == map[]
  {
    if es != [] {
      ReloadsDecide(c, es[..|es| - 1]);
    }
  }

  /** A purge drops the expired entries and no other, and changes none. */
  lemma PurgedExactly(c: Cache, now: int, k: Key)
    ensures k in Purged(c, now).items <==> k in c.items && !Expired(c.items[k], now)
    ensures k in Purged(c, now).items ==> Purged(c, now).items[k] == c.items[k]
  {
  }

  /** A set keeps every entry that is live, or that it does not need the room of, except at most the one victim. */
  lemma SetKeepsTheRest(c: Cache, e: Event, q: Key)
    requires e.Set? && q in c.items && q != e.key
    ensures q in Next(c, e).items <==>
              || e.key in c.items || c.maxEntries <= 0 || |c.items| < c.maxEntries
              || (!Expired(c.items[q], e.later) && (q != e.victim || |Purged(c, e.later).items| < c.maxEntries))
    ensures q in Next(c, e).items ==> Next(c, e).items[q] == c.items[q]
  {
    PurgedExactly(c, e.later, q);
    hide NewItem;
  }

  /** An entry still live is given up only when every entry is, and then it is the only one. */
  lemma LiveEvictedOnlyIfAllLive(c: Cache, e: Event, q: Key)
    requires e.Set? && (c.maxEntries > 0 ==> |c.items| <= c.maxEntries)
    requires q in c.items && !Expired(c.items[q], e.later) && q !in Next(c, e).items
    ensures (forall k :: k in c.items ==> !Expired(c.items[k], e.later)) && |c.items| == c.maxEntries && e.key !in c.items
    ensures q == e.victim && Next(c, e).items == (c.items - {q})[e.key := NewItem(e.rrs, c.defaultExp, e.now)]
  {
    LiveIsSmaller(c.items, e.later);
    hide NewItem;
    assert q in Live(c.items, e.later);
    forall k | k in c.items
      ensures !Expired(c.items[k], e.later)
    {
      PurgedExactly(c, e.later, k);
    }
  }

  // ---------------------------------------------------------------------
  // The code.

  /** minRRTTL. */
  method SmallestTtl(rrs: seq<RR>) returns (min: uint32)
    ensures min == MinTtl(rrs)
  {
    min := 0;
    var i := 0;
    while i < |rrs|
      invariant 0 <= i <= |rrs| && min == MinTtl(rrs[..i])
    {
      assert rrs[..i + 1][..i] == rrs[..i];
      var ttl := rrs[i].ttl;
      if i == 0 || ttl < min {
        min := ttl;
      }
      i := i + 1;
    }
    assert rrs[..|rrs|] == rrs;
  }

  class DnsCache {
    var items: map<Key, Item>
    var defaultExp: int
    var maxEntries: int

    ghost function View(): Cache
      reads this
    {
      Cache(items, defaultExp, maxEntries)
    }

    constructor (defaultExp: int, maxEntries: int)
      ensures View() == Cache(map[], defaultExp, if maxEntries > 0 then maxEntries else 0)
    {
      this.items, this.defaultExp := map[], defaultExp;
      this.maxEntries := if maxEntries > 0 then maxEntries else 0;
    }

    /** The purge loop shared by the janitor and makeRoomLocked. */
    method Purge(now: int)
      modifies this`items
      ensures View() == Purged(old(View()), now)
    {
      var todo := items.Keys;
      while todo != {}
        invariant todo <= items.Keys <= old(items).Keys
        invariant forall k :: k in items ==> items[k] == old(items)[k]
        invariant forall k :: k in old(items) && k !in todo ==> (k in items <==> !Expired(old(items)[k], now))
        decreases |todo|
      {
        var k :| k in todo;
        todo := todo - {k};
        if Expired(items[k], now) {
          items := items - {k};
        }
      }
      assert items == Live(old(items), now);
    }

    method MakeRoom(k: Key, now: int) returns (ghost victim: Key)
      modifies this`items
      ensures items == Roomy(old(View()), k, now, victim)
      ensures var live := Live(old(items), now); |live| >= maxEntries > 0 ==> victim in live
    {
      ghost var live := Live(items, now);
      assert |live| >= maxEntries > 0 ==> live.Keys != {};
      if |live| >= maxEntries > 0 {
        victim :| victim in live;
      } else {
        victim := k;
      }
      if maxEntries <= 0 || |items| < maxEntries {
        return;
      }
      if k in items {
        return;
      }
      Purge(now);
      if |items| < maxEntries {
        return;
      }
      var any :| any in items;
      victim := any;
      items := items - {any};
    }

    method Set(k: Key, rrs: seq<RR>, now: int, later: int) returns (ghost victim: Key)
      modifies this`items
      ensures View() == Stored(old(View()), k, rrs, now, later, victim)
      ensures Picks(old(View()), Event.Set(k, rrs, now, later, victim))
    {
      var exp, eff := 0, 0;
      if defaultExp > 0 {
        eff := defaultExp;
        var min := SmallestTtl(rrs);
        if min * SECOND > 0 && min * SECOND < eff {
          eff := min * SECOND;
        }
        exp := now + eff;
      }
      victim := MakeRoom(k, later);
      items := items[k := Item(rrs, exp, eff)];
    }

    method Get(k: Key, now: int) returns (r: Option<seq<RR>>)
      ensures r == Got(View(), k, now)
    {
      if k !in items {
        return None;
      }
      var item := items[k];
      if item.expiration > 0 && now > item.expiration {
        return None;
      }
      if item.ttl <= 0 || item.expiration <= 0 {
        return Some(item.value);
      }
      var elapsed := item.ttl - (item.expiration - now);
      if elapsed < 0 {
        elapsed := 0;
      }
      var dec := Seconds(elapsed);
      var out: seq<RR> := [];
      var i := 0;
      while i < |item.value|
        invariant 0 <= i <= |item.value| && out == Aged(item.value, dec)[..i]
      {
        var cp := item.value[i];
        cp := if dec >= cp.ttl then WithTtl(cp, 0) else WithTtl(cp, cp.ttl - dec);
        out := out + [cp];
        i := i + 1;
      }
      assert out == Aged(item.value, dec);
      r := Some(out);
    }

    method Reload(defaultExp: int, maxEntries: int)
      modifies this
      ensures View() == Reloaded(old(View()), defaultExp, maxEntries)
    {
      this.defaultExp := defaultExp;
      if maxEntries > 0 {
        this.maxEntries := maxEntries;
      }
      items := map[];
    }
  }
}
