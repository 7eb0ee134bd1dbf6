/**
 The ICMP echo NAT of src/nat64/icmp.go and src/nat64/service.go, one map
 operation per step. Three goroutines interleave: the read loop that registers
 sessions, the cleanup goroutine that drops idle ones and the reply loop.
 */
module IcmpNat {
  import opened Octets

  const MAX_SESSIONS := 4096
  const MAX_ATTEMPTS := 64
  const TIMEOUT := 60_000_000_000

  /** (client, destination, client identifier). */
  datatype QueryKey = QueryKey(client: Addr6, server: Addr4, id: uint16)

  /** (destination, identifier on the IPv4 side). */
  datatype SlotKey = SlotKey(server: Addr4, id: uint16)

  /** A session; `server` is the IPv4 address its pool address embeds. */
  datatype Session = Session(server: Addr4, client: Addr6, clientId: uint16, allocId: uint16, lastSeen: int)

  function QueryOf(x: Session): QueryKey {
    QueryKey(x.client, x.server, x.clientId)
  }

  function SlotOf(x: Session): SlotKey {
    SlotKey(x.server, x.allocId)
  }

  /**
   Where the read loop stands in registerICMPSession. `first` and `busy` are
   what the identifier counter and the identifiers in use toward the
   destination were when probing began.
   */
  datatype Reader =
    | Idle
    | Loading(q: QueryKey)
    | Refreshing(q: QueryKey, sid: nat)
    | Checking(q: QueryKey)
    | Probing(q: QueryKey, sid: nat, tries: nat, first: uint32, busy: set<uint16>)
    | Trying(q: QueryKey, sid: nat, tries: nat, first: uint32, busy: set<uint16>, cand: uint16)
    | Claiming(q: QueryKey, sid: nat)
    | Publishing(q: QueryKey, sid: nat)
    | Counting(q: QueryKey, sid: nat)

  /** Where the cleanup goroutine stands; `seen` is the stamp it found too old. */
  datatype Sweeper =
    | Resting
    | Sweeping(cutoff: int)
    | Visiting(cutoff: int, q: QueryKey, sid: nat)
    | Condemned(cutoff: int, q: QueryKey, sid: nat, seen: int)
    | Unlinking(cutoff: int, q: QueryKey, sid: nat)
    | Uncounting(cutoff: int)

  datatype Replier = Waiting | Matched(sid: nat)

  /** `store` holds every session ever made, in order; the tables refer to it. */
  datatype State = State(
    store: seq<Session>,
    queries: map<QueryKey, nat>,
    slots: map<SlotKey, nat>,
    count: int,
    nextId: uint32,
    reader: Reader,
    sweeper: Sweeper,
    replier: Replier,
    clock: int)

  datatype Event =
    | Request(q: QueryKey)
    | LoadQuery
    | Refresh(now: int)
    | CheckCount(now: int)
    | NextCandidate
    | GiveUp
    | LoadSlot
    | StoreSlot
    | StoreQuery
    | CountUp
    | BeginSweep(now: int)
    | Visit(key: QueryKey)
    | CheckIdle
    | CompareAndDelete
    | DeleteSlot
    | CountDown
    | EndSweep
    | ReplyLoad(server: Addr4, id: uint16)
    | ReplyRefresh(now: int)

  /** A fresh service; the identifier counter starts anywhere. */
  function Init(seed: uint32): State {
    State([], map[], map[], 0, seed, Idle, Resting, Waiting, 0)
  }

  function IdsToward(slots: map<SlotKey, nat>, server: Addr4): (ids: set<uint16>)
    ensures forall id: uint16 :: id in ids <==> SlotKey(server, id) in slots
  {
    set k | k in slots && k.server == server :: k.id
  }

  function Touched(store: seq<Session>, sid: nat, now: int): (r: seq<Session>)
    requires sid < |store|
    ensures |r| == |store|
  {
    store[sid := store[sid].(lastSeen := now)]
  }

  /** The clock does not run backwards. */
  predicate Timely(s: State, e: Event) {
    match e
    case Refresh(now) => s.clock <= now
    case CheckCount(now) => s.clock <= now
    case BeginSweep(now) => s.clock <= now
    case ReplyRefresh(now) => s.clock <= now
    case _ => true
  }

  predicate Enabled(s: State, e: Event) {
    && Timely(s, e)
    && match e
       case Request(_) => s.reader.Idle?
       case LoadQuery => s.reader.Loading?
       case Refresh(_) => s.reader.Refreshing? && s.reader.sid < |s.store|
       case CheckCount(_) => s.reader.Checking?
       case NextCandidate => s.reader.Probing? && s.reader.tries < MAX_ATTEMPTS
       case GiveUp => s.reader.Probing? && s.reader.tries >= MAX_ATTEMPTS
       case LoadSlot => s.reader.Trying? && s.reader.sid < |s.store|
       case StoreSlot => s.reader.Claiming? && s.reader.sid < |s.store|
       case StoreQuery => s.reader.Publishing?
       case CountUp => s.reader.Counting?
       case BeginSweep(_) => s.sweeper.Resting?
       case Visit(q) => s.sweeper.Sweeping? && q in s.queries
       case CheckIdle => s.sweeper.Visiting? && s.sweeper.sid < |s.store|
       case CompareAndDelete => s.sweeper.Condemned?
       case DeleteSlot => s.sweeper.Unlinking? && s.sweeper.sid < |s.store|
       case CountDown => s.sweeper.Uncounting?
       case EndSweep => s.sweeper.Sweeping?
       case ReplyLoad(_, _) => s.replier.Waiting?
       case ReplyRefresh(_) => s.replier.Matched? && s.replier.sid < |s.store|
  }

  // ---------------------------------------------------------------------
  // The read loop.

  function QueryLoaded(s: State): State
    requires s.reader.Loading?
  {
    var q := s.reader.q;
    s.(reader := if q in s.queries then Refreshing(q, s.queries[q]) else Checking(q))
  }

  function Refreshed(s: State, now: int): State
    requires s.reader.Refreshing? && s.reader.sid < |s.store|
  {
    s.(store := Touched(s.store, s.reader.sid, now), reader := Idle, clock := now)
  }

  function Checked(s: State, now: int): State
    requires s.reader.Checking?
  {
    var q := s.reader.q;
    if s.count >= MAX_SESSIONS then s.(reader := Idle, clock := now)
    else s.(store := s.store + [Session(q.server, q.client, q.id, 0, now)],
            reader := Probing(q, |s.store|, 0, s.nextId, IdsToward(s.slots, q.server)), clock := now)
  }

  function Advanced(s: State): State
    requires s.reader.Probing?
  {
    var r := s.reader;
    var n: uint32 := (s.nextId + 1) % 0x1_0000_0000;
    var cand: uint16 := n % 0x1_0000;
    s.(nextId := n, reader := if cand == 0 then Probing(r.q, r.sid, r.tries + 1, r.first, r.busy)
                              else Trying(r.q, r.sid, r.tries + 1, r.first, r.busy, cand))
  }

  function SlotLoaded(s: State): State
    requires s.reader.Trying? && s.reader.sid < |s.store|
  {
    var r := s.reader;
    if SlotKey(r.q.server, r.cand) in s.slots then s.(reader := Probing(r.q, r.sid, r.tries, r.first, r.busy))
    else s.(store := s.store[r.sid := s.store[r.sid].(allocId := r.cand)], reader := Claiming(r.q, r.sid))
  }

  function SlotStored(s: State): State
    requires s.reader.Claiming? && s.reader.sid < |s.store|
  {
    var r := s.reader;
    s.(slots := s.slots[SlotKey(r.q.server, s.store[r.sid].allocId) := r.sid], reader := Publishing(r.q, r.sid))
  }

  function QueryStored(s: State): State
    requires s.reader.Publishing?
  {
    s.(queries := s.queries[s.reader.q := s.reader.sid], reader := Counting(s.reader.q, s.reader.sid))
  }

  // ---------------------------------------------------------------------
  // The cleanup goroutine.

  function IdleChecked(s: State): State
    requires s.sweeper.Visiting? && s.sweeper.sid < |s.store|
  {
    var w := s.sweeper;
    var seen := s.store[w.sid].lastSeen;
    s.(sweeper := if seen < w.cutoff then Condemned(w.cutoff, w.q, w.sid, seen) else Sweeping(w.cutoff))
  }

  function ComparedAndDeleted(s: State): State
    requires s.sweeper.Condemned?
  {
    var w := s.sweeper;
    if w.q in s.queries && s.queries[w.q] == w.sid
    then s.(queries := s.queries - {w.q}, sweeper := Unlinking(w.cutoff, w.q, w.sid))
    else s.(sweeper := Sweeping(w.cutoff))
  }

  function SlotDeleted(s: State): State
    requires s.sweeper.Unlinking? && s.sweeper.sid < |s.store|
  {
    var w := s.sweeper;
    s.(slots := s.slots - {SlotKey(w.q.server, s.store[w.sid].allocId)}, sweeper := Uncounting(w.cutoff))
  }

  function Step(s: State, e: Event): State
    requires Enabled(s, e)
  {
    match e
    case Request(q) => s.(reader := Loading(q))
    case LoadQuery => QueryLoaded(s)
    case Refresh(now) => Refreshed(s, now)
    case CheckCount(now) => Checked(s, now)
    case NextCandidate => Advanced(s)
    case GiveUp => s.(reader := Idle)
    case LoadSlot => SlotLoaded(s)
    case StoreSlot => SlotStored(s)
    case StoreQuery => QueryStored(s)
    case CountUp => s.(count := s.count + 1, reader := Idle)
    case BeginSweep(now) => s.(sweeper := Sweeping(now - TIMEOUT), clock := now)
    case Visit(q) => s.(sweeper := Visiting(s.sweeper.cutoff, q, s.queries[q]))
    case CheckIdle => IdleChecked(s)
    case CompareAndDelete => ComparedAndDeleted(s)
    case DeleteSlot => SlotDeleted(s)
    case CountDown => s.(count := s.count - 1, sweeper := Sweeping(s.sweeper.cutoff))
    case EndSweep => s.(sweeper := Resting)
    case ReplyLoad(server, id) =>
      var k := SlotKey(server, id);
      if k in s.slots then s.(replier := Matched(s.slots[k])) else s
    case ReplyRefresh(now) => s.(store := Touched(s.store, s.replier.sid, now), replier := Waiting, clock := now)
  }

  function Next(s: State, e: Event): State {
    if Enabled(s, e) then Step(s, e) else s
  }

  /** The state a sequence of events leads to. */
  function Run(s: State, es: seq<Event>): State {
    if es == [] then s else Next(Run(s, es[..|es| - 1]), es[|es| - 1])
  }

  function After(seed: uint32, es: seq<Event>): State {
    Run(Init(seed), es)
  }
}
