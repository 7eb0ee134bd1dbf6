/**
 registerICMPSession and the cleanup pass as code over the shared tables. Run
 without interruption, each is a run of the step machine.
 */
module EchoNats {
  import opened Octets
  import opened IcmpNat
  import opened IcmpNatLaws

  lemma RunExtended(s: State, es: seq<Event>, e: Event)
    ensures Run(s, es + [e]) == Next(Run(s, es), e)
  {
    assert (es + [e])[..|es|] == es;
  }

  lemma {:induction false} RunKeeps(s: State, es: seq<Event>)
    requires Linked(s) && Counted(s) && Probed(s)
    ensures Linked(Run(s, es)) && Counted(Run(s, es)) && Probed(Run(s, es))
  {
    if es != [] {
      var n := |es| - 1;
      RunKeeps(s, es[..n]);
      hide Linked, Counted, Probed, Next;
      NextKeepsLinked(Run(s, es[..n]), es[n]);
      NextKeepsCounted(Run(s, es[..n]), es[n]);
      NextKeepsProbed(Run(s, es[..n]), es[n]);
    }
  }

  /** Of the entries visited so far exactly the idle ones are gone. */
  ghost predicate Remain(queries: map<QueryKey, nat>, was: map<QueryKey, nat>, store: seq<Session>, todo: set<QueryKey>, cutoff: int) {
    && (forall q :: q in was ==> was[q] < |store|)
    && (forall q :: q in queries ==> q in was && queries[q] == was[q])
    && (forall q :: q in was && q !in todo ==> (q in queries <==> store[was[q]].lastSeen >= cutoff))
  }

  lemma StillKnown(queries: map<QueryKey, nat>, was: map<QueryKey, nat>, store: seq<Session>, todo: set<QueryKey>, cutoff: int, q: QueryKey)
    requires Remain(queries, was, store, todo, cutoff) && q in todo && todo <= queries.Keys
    ensures queries[q] < |store|
    ensures store[queries[q]].lastSeen < cutoff ==> Remain(queries - {q}, was, store, todo - {q}, cutoff)
    ensures store[queries[q]].lastSeen >= cutoff ==> Remain(queries, was, store, todo - {q}, cutoff)
  {
  }

  lemma NoneLeft(queries: map<QueryKey, nat>, was: map<QueryKey, nat>, store: seq<Session>, cutoff: int)
    requires Remain(queries, was, store, {}, cutoff)
    ensures forall q :: q in queries <==> q in was && was[q] < |store| && store[was[q]].lastSeen >= cutoff
    ensures forall q :: q in queries ==> queries[q] == was[q]
  {
  }

  class EchoNat {
    var store: seq<Session>
    var queries: map<QueryKey, nat>
    var slots: map<SlotKey, nat>
    var count: int
    var nextId: uint32
    var clock: int

    ghost function View(r: Reader, w: Sweeper): State
      reads this
    {
      State(store, queries, slots, count, nextId, r, w, Waiting, clock)
    }

    ghost predicate Valid()
      reads this
    {
      var s := View(Idle, Resting);
      Linked(s) && Counted(s)
    }

    constructor (seed: uint32)
      ensures View(Idle, Resting) == Init(seed) && Valid()
    {
      store, queries, slots, count, nextId, clock := [], map[], map[], 0, seed, 0;
    }

    /** registerICMPSession. */
    method Register(q: QueryKey, now: int) returns (r: Option<nat>, ghost es: seq<Event>)
      requires Valid() && clock <= now
      modifies this
      ensures Valid() && View(Idle, Resting) == Run(old(View(Idle, Resting)), es)
      ensures r.Some? <==> q in queries
      ensures r.Some? ==> queries == old(queries)[q := r.value]
      ensures r.Some? ==> r.value < |store| && store[r.value].lastSeen == now
      ensures r.None? ==> queries == old(queries) && slots == old(slots) && count == old(count)
      ensures r.None? ==> old(count) >= MAX_SESSIONS || |IdsToward(old(slots), q.server)| >= MAX_ATTEMPTS - 1
    {
      ghost var s0 := View(Idle, Resting);
      EntriesExist(s0);
      assert Probed(s0);
      hide Run, Next, Linked, Counted, Probed, IdsToward;
      es := LookUp(s0, q);
      if q in queries {
        var sid := queries[q];
        es := DoRefresh(s0, es, now);
        store, clock := Touched(store, sid, now), now;
        r := Some(sid);
      } else {
        es := DoCheck(s0, es, now);
        if count >= MAX_SESSIONS {
          clock := now;
          r := None;
        } else {
          ghost var first, busy := nextId, IdsToward(slots, q.server);
          var sid := |store|;
          store, clock := store + [Session(q.server, q.client, q.id, 0, now)], now;
          r, es := Allocate(s0, es, q, sid, first, busy);
        }
      }
      RunKeeps(s0, es);
    }

    /** One entry of the cleanup pass. */
    method VisitEntry(ghost s0: State, ghost es0: seq<Event>, q: QueryKey, cutoff: int) returns (ghost es: seq<Event>)
      requires q in queries && queries[q] < |store|
      requires Run(s0, es0) == View(Idle, Sweeping(cutoff))
      modifies this`queries, this`slots, this`count
      ensures Run(s0, es) == View(Idle, Sweeping(cutoff))
      ensures queries == if store[old(queries)[q]].lastSeen < cutoff then old(queries) - {q} else old(queries)
    {
      hide Run;
      es := DoVisit(s0, es0, q);
      var sid := queries[q];
      if store[sid].lastSeen < cutoff {
        queries := queries - {q};
        slots := slots - {SlotKey(q.server, store[sid].allocId)};
        count := count - 1;
      }
    }

    /** The cleanup pass: exactly the entries idle for longer than the timeout go. */
    method Sweep(now: int) returns (ghost es: seq<Event>)
      requires Valid() && clock <= now
      modifies this
      ensures Valid() && View(Idle, Resting) == Run(old(View(Idle, Resting)), es)
      ensures store == old(store)
      ensures forall q :: q in queries <==>
                q in old(queries) && old(queries)[q] < |store| && store[old(queries)[q]].lastSeen >= now - TIMEOUT
      ensures forall q :: q in queries ==> queries[q] == old(queries)[q]
    {
      ghost var s0 := View(Idle, Resting);
      EntriesExist(s0);
      assert Probed(s0);
      hide Run, Next, Linked, Counted, Probed;
      var cutoff := now - TIMEOUT;
      assert Remain(queries, queries, store, queries.Keys, cutoff);
      hide Remain;
      es := DoBegin(s0, now);
      clock := now;
      var todo := queries.Keys;
      while todo != {}
        invariant todo <= queries.Keys && store == old(store) && clock == now
        invariant Run(s0, es) == View(Idle, Sweeping(cutoff))
        invariant Remain(queries, old(queries), store, todo, cutoff)
        decreases |todo|
      {
        var q :| q in todo;
        StillKnown(queries, old(queries), store, todo, cutoff, q);
        todo := todo - {q};
        es := VisitEntry(s0, es, q, cutoff);
      }
      es := DoEnd(s0, es);
      RunKeeps(s0, es);
      NoneLeft(queries, old(queries), store, cutoff);
    }

    /** The probing loop of registerICMPSession and the three writes that follow it. */
    method Allocate(ghost s0: State, ghost es0: seq<Event>, q: QueryKey, sid: nat, ghost first: uint32, ghost busy: set<uint16>)
      returns (r: Option<nat>, ghost es: seq<Event>)
      requires Linked(s0) && Counted(s0) && Probed(s0) && sid < |store|
      requires Run(s0, es0) == View(Probing(q, sid, 0, first, busy), Resting)
      modifies this
      ensures Run(s0, es) == View(Idle, Resting)
      ensures clock == old(clock) && |store| == |old(store)| && store[sid].lastSeen == old(store[sid]).lastSeen
      ensures r.Some? ==> r.value == sid && queries == old(queries)[q := sid]
      ensures r.None? ==> queries == old(queries) && slots == old(slots) && count == old(count) && |busy| >= MAX_ATTEMPTS - 1
    {
      es := es0;
      hide Run, Next, Linked, Counted, Probed;
      var i := 0;
      while i < MAX_ATTEMPTS
        invariant 0 <= i <= MAX_ATTEMPTS
        invariant Run(s0, es) == View(Probing(q, sid, i, first, busy), Resting)
        invariant queries == old(queries) && slots == old(slots) && count == old(count) && clock == old(clock) && store == old(store)
      {
        es := DoProbe(s0, es);
        nextId := (nextId + 1) % 0x1_0000_0000;
        var cand: uint16 := nextId % 0x1_0000;
        i := i + 1;
        if cand == 0 {
          continue;
        }
        if SlotKey(q.server, cand) in slots {
          continue;
        }
        store := store[sid := store[sid].(allocId := cand)];
        es := DoPublish(s0, es);
        slots := slots[SlotKey(q.server, cand) := sid];
        queries := queries[q := sid];
        count := count + 1;
        return Some(sid), es;
      }
      RunKeeps(s0, es);
      Exhausted(Run(s0, es));
      es := DoGiveUp(s0, es);
      r := None;
    }
  }

  // ---------------------------------------------------------------------
  // The steps between two points of the code.

  /** A visit: an entry idle since before the cutoff goes, with its slot and its count. */
  function Visited(t: State, q: QueryKey): State
    requires t.sweeper.Sweeping? && q in t.queries && t.queries[q] < |t.store|
  {
    var x := t.store[t.queries[q]];
    if x.lastSeen >= t.sweeper.cutoff then t
    else t.(queries := t.queries - {q}, slots := t.slots - {SlotKey(q.server, x.allocId)}, count := t.count - 1)
  }

  lemma DoVisit(s: State, es: seq<Event>, q: QueryKey) returns (fs: seq<Event>)
    requires var t := Run(s, es); t.sweeper.Sweeping? && q in t.queries && t.queries[q] < |t.store|
    ensures Run(s, fs) == Visited(Run(s, es), q)
  {
    hide Run;
    RunExtended(s, es, Visit(q));
    RunExtended(s, es + [Visit(q)], CheckIdle);
    fs := es + [Visit(q)] + [CheckIdle];
    if Run(s, fs).sweeper.Condemned? {
      fs := DoDrop(s, fs);
    }
  }

  lemma DoDrop(s: State, es: seq<Event>) returns (fs: seq<Event>)
    requires var t := Run(s, es);
             && t.sweeper.Condemned? && t.sweeper.sid < |t.store|
             && t.sweeper.q in t.queries && t.queries[t.sweeper.q] == t.sweeper.sid
    ensures var t := Run(s, es);
            var w := t.sweeper;
            Run(s, fs) == t.(queries := t.queries - {w.q}, slots := t.slots - {SlotKey(w.q.server, t.store[w.sid].allocId)},
                             count := t.count - 1, sweeper := Sweeping(w.cutoff))
  {
    hide Run;
    RunExtended(s, es, CompareAndDelete);
    RunExtended(s, es + [CompareAndDelete], DeleteSlot);
    RunExtended(s, es + [CompareAndDelete] + [DeleteSlot], CountDown);
    fs := es + [CompareAndDelete] + [DeleteSlot] + [CountDown];
  }

  lemma DoBegin(s: State, now: int) returns (es: seq<Event>)
    requires s.sweeper.Resting? && s.clock <= now
    ensures Run(s, es) == s.(sweeper := Sweeping(now - TIMEOUT), clock := now)
  {
    RunExtended(s, [], BeginSweep(now));
    es := [] + [BeginSweep(now)];
  }

  lemma DoEnd(s: State, es: seq<Event>) returns (fs: seq<Event>)
    requires Run(s, es).sweeper.Sweeping?
    ensures Run(s, fs) == Run(s, es).(sweeper := Resting)
  {
    RunExtended(s, es, EndSweep);
    fs := es + [EndSweep];
  }

  lemma Exhausted(s: State)
    requires Probed(s) && s.reader.Probing? && s.reader.tries >= MAX_ATTEMPTS
    ensures |s.reader.busy| >= MAX_ATTEMPTS - 1
  {
    CrowdedSize(s.reader.first, s.reader.busy);
  }

  lemma LookUp(s: State, q: QueryKey) returns (es: seq<Event>)
    requires s.reader.Idle?
    ensures Run(s, es) == s.(reader := if q in s.queries then Refreshing(q, s.queries[q]) else Checking(q))
  {
    RunExtended(s, [], Request(q));
    RunExtended(s, [] + [Request(q)], LoadQuery);
    es := [] + [Request(q)] + [LoadQuery];
  }

  lemma DoRefresh(s: State, es: seq<Event>, now: int) returns (fs: seq<Event>)
    requires var t := Run(s, es); t.reader.Refreshing? && t.reader.sid < |t.store| && t.clock <= now
    ensures var t := Run(s, es); Run(s, fs) == t.(store := Touched(t.store, t.reader.sid, now), clock := now, reader := Idle)
  {
    RunExtended(s, es, Refresh(now));
    fs := es + [Refresh(now)];
  }

  lemma DoCheck(s: State, es: seq<Event>, now: int) returns (fs: seq<Event>)
    requires var t := Run(s, es); t.reader.Checking? && t.clock <= now
    ensures Run(s, fs) == Checked(Run(s, es), now)
  {
    RunExtended(s, es, CheckCount(now));
    fs := es + [CheckCount(now)];
  }

  /** One turn of the probing loop. */
  lemma DoProbe(s: State, es: seq<Event>) returns (fs: seq<Event>)
    requires var t := Run(s, es); t.reader.Probing? && t.reader.sid < |t.store| && t.reader.tries < MAX_ATTEMPTS
    ensures var t := Run(s, es);
            var n: uint32 := (t.nextId + 1) % 0x1_0000_0000;
            var cand: uint16 := n % 0x1_0000;
            var r := t.reader;
            Run(s, fs) ==
              if cand == 0 || SlotKey(r.q.server, cand) in t.slots
              then t.(nextId := n, reader := Probing(r.q, r.sid, r.tries + 1, r.first, r.busy))
              else t.(nextId := n, store := t.store[r.sid := t.store[r.sid].(allocId := cand)], reader := Claiming(r.q, r.sid))
  {
    hide Run;
    RunExtended(s, es, NextCandidate);
    RunExtended(s, es + [NextCandidate], LoadSlot);
    fs := es + [NextCandidate];
    if Run(s, fs).reader.Trying? {
      fs := fs + [LoadSlot];
    }
  }

  lemma DoGiveUp(s: State, es: seq<Event>) returns (fs: seq<Event>)
    requires var t := Run(s, es); t.reader.Probing? && t.reader.tries >= MAX_ATTEMPTS
    ensures Run(s, fs) == Run(s, es).(reader := Idle)
  {
    RunExtended(s, es, GiveUp);
    fs := es + [GiveUp];
  }

  /** The last three steps of a registration. */
  lemma DoPublish(s: State, es: seq<Event>) returns (fs: seq<Event>)
    requires var t := Run(s, es); t.reader.Claiming? && t.reader.sid < |t.store|
    ensures var t := Run(s, es);
            Run(s, fs) == t.(slots := t.slots[SlotKey(t.reader.q.server, t.store[t.reader.sid].allocId) := t.reader.sid],
                             queries := t.queries[t.reader.q := t.reader.sid], count := t.count + 1, reader := Idle)
  {
    hide Run;
    RunExtended(s, es, StoreSlot);
    RunExtended(s, es + [StoreSlot], StoreQuery);
    RunExtended(s, es + [StoreSlot] + [StoreQuery], CountUp);
    fs := es + [StoreSlot] + [StoreQuery] + [CountUp];
  }
}
