/**
 One DNS-over-TCP connection of src/dns64/server.go: a read loop, one handler
 goroutine per query and a writer mutex, one synchronisation step at a time.
 */
module TcpPipeline {
  import opened Cardinality
  import MapSum

  const MAX_IN_FLIGHT := 32

  /** The read loop; the message in hand is always the last one read. */
  datatype Reader =
    | Reading
    | Metering
    | Acquiring
    | Blocked
    | Holding
    | Checking
    | GivingUp
    | Spawning
    | Closing
    | Draining
    | Returned

  /** A handler: lookup, writer lock, write, unlock, slot given back. */
  datatype Handler =
    | Working
    | Ready
    | Locked
    | Writing
    | Failing
    | Unlocking
    | Unlocked
    | SlotFreed

  datatype Mutex = Free | ByReader | ByHandler(n: nat)

  /** A response put on the connection for query n, or an attempt that failed. */
  datatype Wrote = Wrote(n: nat, ok: bool)

  /** Queries are numbered as they are read; the first `spawned` have, or had, a handler. */
  datatype Conn = Conn(
    reader: Reader,
    read: nat,
    spawned: nat,
    slots: nat,
    handlers: map<nat, Handler>,
    mutex: Mutex,
    broken: bool,
    closed: bool,
    log: seq<Wrote>)

  datatype Event =
    | ReadMsg
    | ReadFails
    | Meter(allowed: bool)
    | TryAcquire
    | Acquire
    | GiveUpWaiting
    | LockCheck
    | CheckBroken
    | ReturnSlot
    | Spawn
    | CloseConn
    | WaitDone
    | Resolve(n: nat)
    | Lock(n: nat)
    | LookBroken(n: nat)
    | Write(n: nat, ok: bool)
    | Fail(n: nat)
    | Unlock(n: nat)
    | FreeSlot(n: nat)
    | Done(n: nat)

  const INIT := Conn(Reading, 0, 0, 0, map[], Free, false, false, [])

  predicate At(c: Conn, n: nat, h: Handler) {
    n in c.handlers && c.handlers[n] == h
  }

  predicate Enabled(c: Conn, e: Event) {
    match e
    case ReadMsg => c.reader.Reading? && !c.closed
    case ReadFails => c.reader.Reading?
    case Meter(_) => c.reader.Metering?
    case TryAcquire => c.reader.Acquiring?
    case Acquire => c.reader.Blocked? && c.slots < MAX_IN_FLIGHT
    case GiveUpWaiting => c.reader.Blocked?
    case LockCheck => c.reader.Holding? && c.mutex.Free?
    case CheckBroken => c.reader.Checking?
    case ReturnSlot => c.reader.GivingUp? && c.slots > 0
    case Spawn => c.reader.Spawning?
    case CloseConn => c.reader.Closing?
    case WaitDone => c.reader.Draining? && c.handlers == map[]
    case Resolve(n) => At(c, n, Working)
    case Lock(n) => At(c, n, Ready) && c.mutex.Free?
    case LookBroken(n) => At(c, n, Locked)
    case Write(n, ok) => At(c, n, Writing) && (ok ==> !c.closed)
    case Fail(n) => At(c, n, Failing)
    case Unlock(n) => At(c, n, Unlocking)
    case FreeSlot(n) => At(c, n, Unlocked) && c.slots > 0
    case Done(n) => At(c, n, SlotFreed)
  }

  function Moved(c: Conn, n: nat, h: Handler): Conn {
    c.(handlers := c.handlers[n := h])
  }

  function Step(c: Conn, e: Event): Conn
    requires Enabled(c, e)
  {
    match e
    case ReadMsg => c.(read := c.read + 1, reader := Metering)
    case ReadFails => c.(reader := Closing)
    case Meter(allowed) => c.(reader := if allowed then Acquiring else Closing)
    case TryAcquire => if c.slots < MAX_IN_FLIGHT then c.(slots := c.slots + 1, reader := Holding) else c.(reader := Blocked)
    case Acquire => c.(slots := c.slots + 1, reader := Holding)
    case GiveUpWaiting => c.(reader := Closing)
    case LockCheck => c.(mutex := ByReader, reader := Checking)
    case CheckBroken => c.(mutex := Free, reader := if c.broken then GivingUp else Spawning)
    case ReturnSlot => c.(slots := c.slots - 1, reader := Closing)
    case Spawn => c.(handlers := c.handlers[c.spawned := Working], spawned := c.spawned + 1, reader := Reading)
    case CloseConn => c.(closed := true, reader := Draining)
    case WaitDone => c.(reader := Returned)
    case Resolve(n) => Moved(c, n, Ready)
    case Lock(n) => Moved(c, n, Locked).(mutex := ByHandler(n))
    case LookBroken(n) => Moved(c, n, if c.broken then Unlocking else Writing)
    case Write(n, ok) =>
      var d := c.(log := c.log + [Wrote(n, ok)]);
      if ok then Moved(d, n, Unlocking) else Moved(d, n, Failing).(broken := true)
    case Fail(n) => Moved(c, n, Unlocking).(closed := true)
    case Unlock(n) => Moved(c, n, Unlocked).(mutex := Free)
    case FreeSlot(n) => Moved(c, n, SlotFreed).(slots := c.slots - 1)
    case Done(n) => c.(handlers := c.handlers - {n})
  }

  function Next(c: Conn, e: Event): Conn {
    if Enabled(c, e) then Step(c, e) else c
  }

  function After(es: seq<Event>): Conn {
    if es == [] then INIT else Next(After(es[..|es| - 1]), es[|es| - 1])
  }

  // ---------------------------------------------------------------------
  // Slots.

  /** Handlers that still hold their slot. */
  function Running(handlers: map<nat, Handler>): set<nat> {
    set n | n in handlers && !handlers[n].SlotFreed?
  }

  predicate InHand(r: Reader) {
    r.Metering? || r.Acquiring? || r.Blocked? || HoldsSlot(r)
  }

  predicate HoldsSlot(r: Reader) {
    r.Holding? || r.Checking? || r.GivingUp? || r.Spawning?
  }

  /** Occupied slots are exactly those of running handlers and of the message being admitted. */
  ghost predicate SlotsExact(c: Conn) {
    c.slots == |Running(c.handlers)| + One(HoldsSlot(c.reader)) && c.slots <= MAX_IN_FLIGHT
  }

  /** Handlers belong to queries that were handed out; the next one is the message in hand. */
  ghost predicate Numbered(c: Conn) {
    && (forall n :: n in c.handlers ==> n < c.spawned)
    && c.spawned <= c.read <= c.spawned + 1
    && (InHand(c.reader) ==> c.read == c.spawned + 1)
    && (c.reader.Reading? ==> c.read == c.spawned)
    && (c.reader.Returned? ==> c.handlers == map[])
  }

  lemma NextKeepsNumbered(c: Conn, e: Event)
    requires Numbered(c)
    ensures Numbered(Next(c, e))
  {
  }

  lemma RunningAfter(c: Conn, e: Event)
    requires Enabled(c, e)
    ensures Running(Step(c, e).handlers) ==
            if e.Spawn? then Running(c.handlers) + {c.spawned}
            else if e.FreeSlot? then Running(c.handlers) - {e.n}
            else Running(c.handlers)
  {
  }

  lemma RunningCount(c: Conn, e: Event)
    requires Numbered(c) && Enabled(c, e)
    ensures |Running(Step(c, e).handlers)| == |Running(c.handlers)| + One(e.Spawn?) - One(e.FreeSlot?)
  {
    RunningAfter(c, e);
    assert e.FreeSlot? ==> e.n in Running(c.handlers);
    assert e.Spawn? ==> c.spawned !in Running(c.handlers);
    hide Running, Step, Enabled, Numbered;
  }

  lemma SlotCount(c: Conn, e: Event)
    requires Enabled(c, e) && c.slots <= MAX_IN_FLIGHT
    ensures var d := Step(c, e);
            && d.slots - One(HoldsSlot(d.reader)) == c.slots - One(HoldsSlot(c.reader)) + One(e.Spawn?) - One(e.FreeSlot?)
            && d.slots <= MAX_IN_FLIGHT
  {
    hide At;
  }

  lemma NextKeepsSlots(c: Conn, e: Event)
    requires Numbered(c) && SlotsExact(c)
    ensures SlotsExact(Next(c, e))
  {
    if Enabled(c, e) {
      RunningCount(c, e);
      SlotCount(c, e);
    }
    hide Running, Step, Enabled, Numbered;
  }

  // ---------------------------------------------------------------------
  // The writer.

  predicate Inside(h: Handler) {
    h.Locked? || h.Writing? || h.Failing? || h.Unlocking?
  }

  /** Exactly who is between lock and unlock owns the mutex; who is about to write found the connection whole. */
  ghost predicate Exclusive(c: Conn) {
    && (forall n :: n in c.handlers && Inside(c.handlers[n]) ==> c.mutex == ByHandler(n))
    && (c.reader.Checking? <==> c.mutex.ByReader?)
    && (c.mutex.ByHandler? ==> c.mutex.n in c.handlers && Inside(c.handlers[c.mutex.n]))
    && (forall n :: n in c.handlers && c.handlers[n].Writing? ==> !c.broken)
  }

  lemma NextKeepsExclusive(c: Conn, e: Event)
    requires Numbered(c) && Exclusive(c)
    ensures Exclusive(Next(c, e))
  {
  }

  // ---------------------------------------------------------------------
  // What goes on the wire.

  /** The queries a response was written, or tried, for. */
  function Answered(log: seq<Wrote>): (s: set<nat>)
    ensures forall n :: n in s <==> exists i :: 0 <= i < |log| && log[i].n == n
  {
    set i | 0 <= i < |log| :: log[i].n
  }

  predicate Before(h: Handler) {
    h.Working? || h.Ready? || h.Locked? || h.Writing?
  }

  /** Responses answer distinct queries; only the last write can have failed, and it broke the connection. */
  ghost predicate LogIsSound(log: seq<Wrote>, spawned: nat, broken: bool) {
    && (forall i :: 0 <= i < |log| ==> log[i].n < spawned)
    && (forall i, j :: 0 <= i < j < |log| ==> log[i].n != log[j].n)
    && (forall i :: 0 <= i < |log| - 1 ==> log[i].ok)
    && (broken <==> |log| > 0 && !log[|log| - 1].ok)
  }

  /** The queries whose response is still to be written. */
  function Owing(handlers: map<nat, Handler>): set<nat> {
    set n | n in handlers && Before(handlers[n])
  }

  /** A query handed out is owed an answer, was answered, or came too late for a broken connection. */
  ghost predicate NoneForgotten(answered: set<nat>, owing: set<nat>, spawned: nat, broken: bool) {
    && answered !! owing
    && (forall n :: 0 <= n < spawned ==> n in answered || n in owing || broken)
  }

  lemma AnsweredOneMore(log: seq<Wrote>, w: Wrote)
    ensures Answered(log + [w]) == Answered(log) + {w.n}
  {
    var more := log + [w];
    forall n
      ensures n in Answered(more) <==> n in Answered(log) + {w.n}
    {
      if i :| 0 <= i < |log| && log[i].n == n {
        assert more[i].n == n;
      }
      if n == w.n {
        assert more[|log|].n == n;
      }
    }
  }

  ghost predicate Accounted(c: Conn) {
    LogIsSound(c.log, c.spawned, c.broken) && NoneForgotten(Answered(c.log), Owing(c.handlers), c.spawned, c.broken)
  }

  /** Only a write settles what is owed, except that a broken connection's handlers skip it; a new handler owes. */
  lemma OwingAfter(c: Conn, e: Event)
    requires Enabled(c, e)
    ensures var d := Step(c, e);
            && Owing(d.handlers) <= Owing(c.handlers) + (if e.Spawn? then {c.spawned} else {})
            && (!c.broken && !e.Write? ==> Owing(c.handlers) <= Owing(d.handlers))
            && (e.Spawn? ==> c.spawned in Owing(d.handlers))
            && (e.Write? ==> Owing(d.handlers) == Owing(c.handlers) - {e.n} && e.n in Owing(c.handlers))
  {
  }

  lemma LogExtended(log: seq<Wrote>, spawned: nat, n: nat, ok: bool)
    requires LogIsSound(log, spawned, false) && n < spawned && n !in Answered(log)
    ensures LogIsSound(log + [Wrote(n, ok)], spawned, !ok)
  {
    assert forall i :: 0 <= i < |log| ==> log[i].n in Answered(log);
    hide Answered;
  }

  lemma WriteKeepsAccounts(c: Conn, n: nat, ok: bool)
    requires Numbered(c) && Exclusive(c) && Accounted(c) && Enabled(c, Write(n, ok))
    ensures Accounted(Step(c, Write(n, ok)))
  {
    AnsweredOneMore(c.log, Wrote(n, ok));
    OwingAfter(c, Write(n, ok));
    assert !c.broken && n < c.spawned;
    LogExtended(c.log, c.spawned, n, ok);
    var d := Step(c, Write(n, ok));
    assert d.log == c.log + [Wrote(n, ok)] && d.broken == !ok && d.spawned == c.spawned;
    hide Answered, LogIsSound, Owing, Step, Enabled;
  }

  lemma OthersKeepAccounts(c: Conn, e: Event)
    requires Numbered(c) && Accounted(c) && Enabled(c, e) && !e.Write?
    ensures Accounted(Step(c, e))
  {
    OwingAfter(c, e);
    var d := Step(c, e);
    assert d.log == c.log && d.broken == c.broken && d.spawned == c.spawned + One(e.Spawn?);
    assert forall n :: n in Answered(c.log) ==> n < c.spawned;
    assert LogIsSound(d.log, d.spawned, d.broken);
    hide Answered, LogIsSound, Owing, Step, Enabled, Numbered;
  }

  ghost predicate Inv(c: Conn) {
    Numbered(c) && SlotsExact(c) && Exclusive(c) && Accounted(c)
  }

  lemma NextKeepsInv(c: Conn, e: Event)
    requires Inv(c)
    ensures Inv(Next(c, e))
  {
    NextKeepsNumbered(c, e);
    NextKeepsSlots(c, e);
    NextKeepsExclusive(c, e);
    if Enabled(c, e) {
      if e.Write? {
        WriteKeepsAccounts(c, e.n, e.ok);
      } else {
        OthersKeepAccounts(c, e);
      }
    }
    hide Numbered, SlotsExact, Exclusive, Accounted, Step, Enabled;
  }

  lemma {:induction false} RunsKeepInv(es: seq<Event>)
    ensures Inv(After(es))
  {
    if es != [] {
      RunsKeepInv(es[..|es| - 1]);
      hide Inv, Next;
      NextKeepsInv(After(es[..|es| - 1]), es[|es| - 1]);
    } else {
      assert Running(map[]) == {};
    }
  }

  // ---------------------------------------------------------------------
  // The laws.

  /** At most 32 queries are in flight, and each holds one of the occupied slots. */
  lemma InFlightIsBounded(es: seq<Event>)
    ensures var c := After(es); |Running(c.handlers)| <= c.slots <= MAX_IN_FLIGHT
    ensures var c := After(es); c.slots - |Running(c.handlers)| == One(HoldsSlot(c.reader))
  {
    RunsKeepInv(es);
    hide After;
  }

  /** Every response written answers a query already read, and no two the same one. */
  lemma ResponsesAnswerDistinctQueries(es: seq<Event>, i: nat, j: nat)
    requires i < j < |After(es).log|
    ensures After(es).log[i].n != After(es).log[j].n
    ensures After(es).log[i].n < After(es).read && After(es).log[j].n < After(es).read
  {
    RunsKeepInv(es);
    hide After;
  }

  lemma {:induction false} LogOnlyGrows(es: seq<Event>, fs: seq<Event>)
    ensures After(es).log <= After(es + fs).log
  {
    if fs == [] {
      assert es + fs == es;
    } else {
      var n := |fs| - 1;
      LogOnlyGrows(es, fs[..n]);
      assert (es + fs)[..|es + fs| - 1] == es + fs[..n];
      LogStep(After(es + fs[..n]), fs[n]);
      hide Next;
    }
  }

  lemma LogStep(c: Conn, e: Event)
    ensures c.log <= Next(c, e).log
  {
  }

  /** Once a write has failed nothing more is written, however long the connection's goroutines go on. */
  lemma NothingAfterFailure(es: seq<Event>, fs: seq<Event>)
    requires |After(es).log| > 0 && !After(es).log[|After(es).log| - 1].ok
    ensures After(es + fs).log == After(es).log
  {
    LogOnlyGrows(es, fs);
    RunsKeepInv(es + fs);
    hide After;
    var a, b := After(es).log, After(es + fs).log;
    assert b[|a| - 1] == a[|a| - 1];
  }

  lemma {:induction false} AnsweredSize(log: seq<Wrote>)
    requires forall i, j :: 0 <= i < j < |log| ==> log[i].n != log[j].n
    ensures |Answered(log)| == |log|
  {
    if log != [] {
      var front, last := log[..|log| - 1], log[|log| - 1];
      AnsweredSize(front);
      AnsweredOneMore(front, last);
      assert log == front + [last];
      assert last.n !in Answered(front);
    }
  }

  lemma AllAnswered(log: seq<Wrote>, spawned: nat)
    requires LogIsSound(log, spawned, false) && NoneForgotten(Answered(log), {}, spawned, false)
    ensures |log| == spawned && Answered(log) == UpTo(spawned)
  {
    AnsweredSize(log);
    assert forall n :: n in Answered(log) ==> n < spawned;
    var answered := Answered(log);
    assert forall n :: 0 <= n < spawned ==> n in answered;
    SameRange(answered, spawned);
  }

  lemma SameRange(s: set<nat>, n: nat)
    requires forall i :: i in s <==> 0 <= i < n
    ensures s == UpTo(n)
  {
    hide UpTo;
  }

  lemma CleanAtRest(c: Conn)
    requires Inv(c) && c.reader.Returned?
    ensures c.handlers == map[] && c.slots == 0 && Owing(c.handlers) == {}
  {
    hide Exclusive, Accounted;
    assert Running(c.handlers) == {};
  }

  lemma AllServed(c: Conn)
    requires Accounted(c) && Owing(c.handlers) == {} && !c.broken
    ensures |c.log| == c.spawned && Answered(c.log) == UpTo(c.spawned) && forall i :: 0 <= i < |c.log| ==> c.log[i].ok
  {
    hide Answered, Owing, UpTo;
    AllAnswered(c.log, c.spawned);
  }

  /**
   serveTCPConn returns only with every handler finished and every slot free;
   and if no write failed, every query handed out was answered exactly once.
   */
  lemma ReturnsClean(es: seq<Event>)
    requires After(es).reader.Returned?
    ensures var c := After(es); c.handlers == map[] && c.slots == 0
    ensures var c := After(es);
            !c.broken ==> |c.log| == c.spawned && Answered(c.log) == UpTo(c.spawned) && forall i :: 0 <= i < |c.log| ==> c.log[i].ok
  {
    hide After, Numbered, SlotsExact, Exclusive, Accounted, Answered, Owing, UpTo;
    RunsKeepInv(es);
    var c := After(es);
    CleanAtRest(c);
    if !c.broken {
      AllServed(c);
    }
  }

  // ---------------------------------------------------------------------
  // Progress.

  /** The next step of a handler that needs nobody else. */
  function OwnStep(n: nat, h: Handler): Event {
    match h
    case Working => Resolve(n)
    case Ready => Lock(n)
    case Locked => LookBroken(n)
    case Writing => Write(n, false)
    case Failing => Fail(n)
    case Unlocking => Unlock(n)
    case Unlocked => FreeSlot(n)
    case SlotFreed => Done(n)
  }

  lemma OwnStepIsEnabled(c: Conn, n: nat)
    requires SlotsExact(c) && n in c.handlers && (c.handlers[n].Ready? ==> c.mutex.Free?)
    ensures Enabled(c, OwnStep(n, c.handlers[n]))
  {
    if c.handlers[n].Unlocked? {
      assert n in Running(c.handlers);
    }
  }

  /** Some handler can always go on: if one waits for the mutex, its owner does not. */
  lemma SomeHandlerGoesOn(c: Conn) returns (e: Event)
    requires SlotsExact(c) && Exclusive(c) && c.handlers != map[] && !c.mutex.ByReader?
    ensures Enabled(c, e)
  {
    var n :| n in c.handlers;
    var m := if c.mutex.ByHandler? then c.mutex.n else n;
    OwnStepIsEnabled(c, m);
    e := OwnStep(m, c.handlers[m]);
  }

  /** No connection is ever stuck: until it returns, some step is possible. */
  lemma NeverStuck(es: seq<Event>) returns (e: Event)
    requires !After(es).reader.Returned?
    ensures Enabled(After(es), e)
  {
    hide After, Running, LogIsSound, NoneForgotten;
    RunsKeepInv(es);
    var c := After(es);
    match c.reader
    case Reading => e := ReadFails;
    case Metering => e := Meter(false);
    case Acquiring => e := TryAcquire;
    case Blocked => e := GiveUpWaiting;
    case Checking => e := CheckBroken;
    case GivingUp => e := ReturnSlot;
    case Spawning => e := Spawn;
    case Closing => e := CloseConn;
    case Holding =>
      if c.mutex.Free? {
        e := LockCheck;
      } else {
        e := SomeHandlerGoesOn(c);
      }
    case Draining =>
      if c.handlers == map[] {
        e := WaitDone;
      } else {
        e := SomeHandlerGoesOn(c);
      }
  }

  /** The steps a handler has before it at most. */
  function StepsLeft(h: Handler): nat {
    match h
    case Working => 8
    case Ready => 7
    case Locked => 6
    case Writing => 5
    case Failing => 4
    case Unlocking => 3
    case Unlocked => 2
    case SlotFreed => 1
  }

  function AllSteps(handlers: map<nat, Handler>): map<nat, nat> {
    map n | n in handlers :: StepsLeft(handlers[n])
  }

  ghost function Work(c: Conn): nat {
    MapSum.Sum(AllSteps(c.handlers)) + One(c.reader.Draining?)
  }

  lemma MovedWork(handlers: map<nat, Handler>, n: nat, h: Handler)
    requires n in handlers && StepsLeft(h) < StepsLeft(handlers[n])
    ensures MapSum.Sum(AllSteps(handlers[n := h])) < MapSum.Sum(AllSteps(handlers))
  {
    assert AllSteps(handlers[n := h]) == AllSteps(handlers)[n := StepsLeft(h)];
    MapSum.SumReplaced(AllSteps(handlers), n, StepsLeft(h));
  }

  lemma DoneWork(handlers: map<nat, Handler>, n: nat)
    requires n in handlers
    ensures MapSum.Sum(AllSteps(handlers - {n})) < MapSum.Sum(AllSteps(handlers))
  {
    assert AllSteps(handlers - {n}) == AllSteps(handlers) - {n};
    MapSum.SumWithout(AllSteps(handlers), n);
  }

  /** Once the read loop waits for its handlers, every step is one step less to go. */
  lemma DrainingGetsDone(c: Conn, e: Event)
    requires c.reader.Draining? && Enabled(c, e)
    ensures Work(Step(c, e)) < Work(c) && (Step(c, e).reader.Draining? || Step(c, e).reader.Returned?)
  {
    hide AllSteps;
    match e
    case Done(n) => DoneWork(c.handlers, n);
    case Resolve(n) => MovedWork(c.handlers, n, Ready);
    case Lock(n) => MovedWork(c.handlers, n, Locked);
    case LookBroken(n) => MovedWork(c.handlers, n, if c.broken then Unlocking else Writing);
    case Write(n, ok) => MovedWork(c.handlers, n, if ok then Unlocking else Failing);
    case Fail(n) => MovedWork(c.handlers, n, Unlocking);
    case Unlock(n) => MovedWork(c.handlers, n, Unlocked);
    case FreeSlot(n) => MovedWork(c.handlers, n, SlotFreed);
    case WaitDone =>
  }

  /** Every event of the sequence is a step, up to the return. */
  ghost predicate Steps(c: Conn, es: seq<Event>)
    decreases |es|
  {
    es == [] || (Enabled(c, es[0]) && !c.reader.Returned? && Steps(Step(c, es[0]), es[1..]))
  }

  /**
   A draining connection returns: it can take no more than Work(c) steps,
   however its goroutines interleave, and as NeverStuck says one is always
   possible until it has returned.
   */
  lemma {:induction false} DrainingEnds(c: Conn, es: seq<Event>)
    requires c.reader.Draining? && Steps(c, es)
    ensures |es| <= Work(c)
    decreases |es|
  {
    if es != [] {
      var d := Step(c, es[0]);
      hide Step, Work;
      DrainingGetsDone(c, es[0]);
      if d.reader.Draining? {
        DrainingEnds(d, es[1..]);
      }
    }
  }

  // ---------------------------------------------------------------------
  // What becomes of a query.

  /** The read loop is on its way out. */
  predicate Leaving(r: Reader) {
    r.Closing? || r.Draining? || r.Returned?
  }

  lemma StaysLeaving(c: Conn, e: Event)
    requires Leaving(c.reader)
    ensures Leaving(Next(c, e).reader) && Next(c, e).spawned == c.spawned && Next(c, e).read == c.read
  {
  }

  lemma {:induction false} NothingStartsAfter(es: seq<Event>, fs: seq<Event>)
    requires Leaving(After(es).reader)
    ensures Leaving(After(es + fs).reader) && After(es + fs).spawned == After(es).spawned && After(es + fs).read == After(es).read
  {
    if fs == [] {
      assert es + fs == es;
    } else {
      var n := |fs| - 1;
      NothingStartsAfter(es, fs[..n]);
      assert (es + fs)[..|es + fs| - 1] == es + fs[..n] && (es + fs)[|es + fs| - 1] == fs[n];
      hide Next, Leaving;
      StaysLeaving(After(es + fs[..n]), fs[n]);
    }
  }

  /** A query refused by the rate limiter, a wait for a slot that is given up, or a failed read: what ends the read loop. */
  predicate EndsReading(e: Event) {
    e == Meter(false) || e.GiveUpWaiting? || e.ReadFails?
  }

  /** The connection ends with it: the query in hand gets no handler, and no later one is read. */
  lemma ReadingEnds(es: seq<Event>, e: Event, fs: seq<Event>)
    requires EndsReading(e) && Enabled(After(es), e)
    ensures var c, d := After(es), After(es + [e] + fs);
            d.spawned == c.spawned && d.read == c.read && Leaving(d.reader)
  {
    assert (es + [e])[..|es|] == es;
    NothingStartsAfter(es + [e], fs);
  }

  /** A query with its slot goes to its handler. */
  function Handed(c: Conn): Conn {
    Next(Next(Next(c, LockCheck), CheckBroken), Spawn)
  }

  lemma HeldQueryIsHanded(c: Conn)
    requires c.reader.Holding? && c.mutex.Free? && !c.broken
    ensures Handed(c) == c.(reader := Reading, handlers := c.handlers[c.spawned := Working], spawned := c.spawned + 1)
  {
  }

  /** The next query is read and, if allowed, gets its handler and its slot, if one is free, the writer is not busy and no write has failed. */
  lemma AllowedQueryGetsItsHandler(c: Conn)
    requires c.reader.Reading? && !c.closed && c.slots < 32 && c.mutex.Free? && !c.broken
    ensures Handed(Next(Next(Next(c, ReadMsg), Meter(true)), TryAcquire))
         == c.(read := c.read + 1, slots := c.slots + 1, handlers := c.handlers[c.spawned := Working], spawned := c.spawned + 1)
  {
    var d := Next(Next(Next(c, ReadMsg), Meter(true)), TryAcquire);
    assert d == c.(read := c.read + 1, slots := c.slots + 1, reader := Holding);
    HeldQueryIsHanded(d);
    hide Next;
  }

  /** With all slots taken it waits, and gets its handler once one is given back. */
  lemma WaitingQueryGetsItsHandler(c: Conn, d: Conn)
    requires c.reader.Acquiring? && c.slots >= 32
    requires d.reader.Blocked? && d.slots < 32 && d.mutex.Free? && !d.broken
    ensures Next(c, TryAcquire) == c.(reader := Blocked)
    ensures Handed(Next(d, Acquire))
         == d.(reader := Reading, slots := d.slots + 1, handlers := d.handlers[d.spawned := Working], spawned := d.spawned + 1)
  {
    assert Next(d, Acquire) == d.(slots := d.slots + 1, reader := Holding);
    HeldQueryIsHanded(Next(d, Acquire));
  }

  /** The connection is closed before its handlers are waited for, and returns when there are none. */
  lemma ClosesThenReturns(c: Conn)
    requires c.reader.Closing? && c.handlers == map[]
    ensures Next(c, CloseConn) == c.(closed := true, reader := Draining)
    ensures Next(Next(c, CloseConn), WaitDone) == c.(closed := true, reader := Returned)
  {
  }

  /** After a failed write none does: the slot goes back and the connection ends. */
  lemma BrokenConnectionAdmitsNothing(c: Conn)
    requires c.reader.Checking? && c.broken && c.slots > 0
    ensures var d := Next(Next(c, CheckBroken), ReturnSlot);
            d == c.(mutex := Free, slots := c.slots - 1, reader := Closing)
  {
  }

  /** A handler that is not disturbed writes the one response to its query and gives its slot back. */
  lemma HandlerAnswers(c: Conn, n: nat)
    requires At(c, n, Working) && c.mutex.Free? && !c.broken && !c.closed && c.slots > 0
    ensures var w := Next(Next(Next(Next(c, Resolve(n)), Lock(n)), LookBroken(n)), Write(n, true));
            Next(Next(Next(w, Unlock(n)), FreeSlot(n)), Done(n))
              == c.(log := c.log + [Wrote(n, true)], slots := c.slots - 1, handlers := c.handlers - {n})
  {
    HandlerWrites(c, n);
    var w := Moved(c, n, Unlocking).(mutex := ByHandler(n), log := c.log + [Wrote(n, true)]);
    hide Next;
    HandlerLeaves(w, n);
    assert w.handlers - {n} == c.handlers - {n};
  }

  lemma HandlerWrites(c: Conn, n: nat)
    requires At(c, n, Working) && c.mutex.Free? && !c.broken && !c.closed
    ensures Next(Next(Next(Next(c, Resolve(n)), Lock(n)), LookBroken(n)), Write(n, true))
         == Moved(c, n, Unlocking).(mutex := ByHandler(n), log := c.log + [Wrote(n, true)])
  {
    var x := Next(Next(c, Resolve(n)), Lock(n));
    assert x == Moved(c, n, Locked).(mutex := ByHandler(n));
  }

  lemma HandlerLeaves(c: Conn, n: nat)
    requires At(c, n, Unlocking) && c.slots > 0
    ensures Next(Next(Next(c, Unlock(n)), FreeSlot(n)), Done(n)) == c.(mutex := Free, slots := c.slots - 1, handlers := c.handlers - {n})
  {
    var x := Next(Next(c, Unlock(n)), FreeSlot(n));
    assert x == Moved(c, n, SlotFreed).(mutex := Free, slots := c.slots - 1);
    assert x.handlers - {n} == c.handlers - {n};
  }

  /** A failed write closes the connection, at the latest when its handler moves on. */
  ghost predicate BrokenIsClosed(c: Conn) {
    c.broken ==> c.closed || exists n :: At(c, n, Failing)
  }

  lemma NextKeepsBrokenClosed(c: Conn, e: Event)
    requires Numbered(c) && BrokenIsClosed(c)
    ensures BrokenIsClosed(Next(c, e))
  {
    var d := Next(c, e);
    if c.broken && !c.closed {
      var n :| At(c, n, Failing);
      assert d.closed || At(d, n, Failing);
    } else if Enabled(c, e) && e.Write? && !e.ok {
      assert At(d, e.n, Failing);
    }
  }

  lemma {:induction false} FailedWriteCloses(es: seq<Event>)
    ensures BrokenIsClosed(After(es))
  {
    if es != [] {
      FailedWriteCloses(es[..|es| - 1]);
      RunsKeepInv(es[..|es| - 1]);
      hide BrokenIsClosed, Next;
      NextKeepsBrokenClosed(After(es[..|es| - 1]), es[|es| - 1]);
    }
  }
}
