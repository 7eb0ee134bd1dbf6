/**
 The service-wide query semaphore of src/dns64/server.go over every
 interleaving of UDP queries and pipelined TCP connections.
 */
module QuerySlots {
  import T = TcpPipeline
  import opened Cardinality

  /** `cap` zero means no limit; `taken` counts what is in the semaphore. */
  datatype Service = Service(cap: nat, taken: int, conns: map<nat, T.Conn>, udp: nat)

  datatype Event =
    | Accept(id: nat)
    | Within(id: nat, e: T.Event)
    | Release(id: nat)
    | UdpStart
    | UdpEnd

  function Start(cap: nat): Service {
    Service(cap, 0, map[], 0)
  }

  predicate HasRoom(s: Service) {
    s.cap == 0 || s.taken < s.cap
  }

  predicate Enabled(s: Service, e: Event) {
    match e
    case Accept(id) => id !in s.conns && HasRoom(s)
    case Within(id, _) => id in s.conns
    case Release(id) => id in s.conns && s.conns[id].reader.Returned?
    case UdpStart => HasRoom(s)
    case UdpEnd => s.udp > 0
  }

  function Next(s: Service, e: Event): Service {
    if !Enabled(s, e) then s
    else
      match e
      case Accept(id) => s.(taken := s.taken + 1, conns := s.conns[id := T.INIT])
      case Within(id, f) => s.(conns := s.conns[id := T.Next(s.conns[id], f)])
      case Release(id) => s.(taken := s.taken - 1, conns := s.conns - {id})
      case UdpStart => s.(taken := s.taken + 1, udp := s.udp + 1)
      case UdpEnd => s.(taken := s.taken - 1, udp := s.udp - 1)
  }

  function After(cap: nat, es: seq<Event>): Service {
    if es == [] then Start(cap) else Next(After(cap, es[..|es| - 1]), es[|es| - 1])
  }

  ghost predicate Inv(s: Service) {
    && s.taken == |s.conns| + s.udp
    && (s.cap > 0 ==> s.taken <= s.cap)
    && forall id :: id in s.conns ==> T.Inv(s.conns[id])
  }

  lemma FreshConnection()
    ensures T.Inv(T.INIT)
  {
    T.RunsKeepInv([]);
  }

  lemma WithinKeepsInv(s: Service, id: nat, f: T.Event)
    requires Inv(s) && id in s.conns
    ensures Inv(s.(conns := s.conns[id := T.Next(s.conns[id], f)]))
  {
    hide T.Inv, T.Next;
    T.NextKeepsInv(s.conns[id], f);
    SizeWith(s.conns, id, T.Next(s.conns[id], f));
  }

  lemma NextKeepsInv(s: Service, e: Event)
    requires Inv(s)
    ensures Inv(Next(s, e)) && Next(s, e).cap == s.cap
  {
    hide T.Inv, T.Next;
    if Enabled(s, e) {
      match e
      case Accept(id) =>
        FreshConnection();
        SizeWith(s.conns, id, T.INIT);
      case Within(id, f) => WithinKeepsInv(s, id, f);
      case Release(id) => SizeWithout(s.conns, id);
      case _ =>
    }
  }

  lemma {:induction false} RunsKeepInv(cap: nat, es: seq<Event>)
    ensures Inv(After(cap, es)) && After(cap, es).cap == cap
  {
    if es != [] {
      RunsKeepInv(cap, es[..|es| - 1]);
      hide Inv, Next;
      NextKeepsInv(After(cap, es[..|es| - 1]), es[|es| - 1]);
    }
  }

  /** The semaphore holds exactly one slot per open connection and per UDP query, within its limit. */
  lemma SemaphoreIsExact(cap: nat, es: seq<Event>)
    ensures var s := After(cap, es); s.taken == |s.conns| + s.udp && (cap > 0 ==> |s.conns| + s.udp <= cap)
  {
    RunsKeepInv(cap, es);
    hide After;
  }

  /** A connection's slot is given back only when none of its handlers runs and its own slots are empty. */
  lemma ReleasedConnectionsAreQuiet(cap: nat, es: seq<Event>, id: nat)
    requires Enabled(After(cap, es), Release(id))
    ensures var c := After(cap, es).conns[id]; c.handlers == map[] && c.slots == 0
  {
    RunsKeepInv(cap, es);
    var c := After(cap, es).conns[id];
    hide After;
    assert T.Numbered(c) && T.SlotsExact(c);
    assert T.Running(c.handlers) == {};
  }

  // ---------------------------------------------------------------------
  // Who gets a slot, and that connections do not disturb each other.

  /** In every run a connection or UDP query is taken up if and only if those at work are fewer than the limit; zero is none. */
  lemma TakenUpIffRoom(cap: nat, es: seq<Event>, id: nat)
    ensures var s := After(cap, es);
            var room := cap == 0 || |s.conns| + s.udp < cap;
            && (id !in s.conns ==> Next(s, Accept(id)).conns == if room then s.conns[id := T.INIT] else s.conns)
            && Next(s, UdpStart).udp == s.udp + (if room then 1 else 0)
            && Next(s, UdpEnd).udp == (if s.udp > 0 then s.udp - 1 else 0)
            && (id in s.conns ==> Next(s, Release(id)).conns == if s.conns[id].reader.Returned? then s.conns - {id} else s.conns)
  {
    RunsKeepInv(cap, es);
    hide After, T.Inv;
  }

  /** What happened on connection id since it was last accepted. */
  function EventsOf(cap: nat, es: seq<Event>, id: nat): seq<T.Event> {
    if es == [] then []
    else
      var e, before := es[|es| - 1], EventsOf(cap, es[..|es| - 1], id);
      if e == Accept(id) && id !in After(cap, es[..|es| - 1]).conns then []
      else if e.Within? && e.id == id then before + [e.e]
      else before
  }

  lemma OneMoreWithin(fs: seq<T.Event>, f: T.Event)
    ensures T.After(fs + [f]) == T.Next(T.After(fs), f)
  {
    assert (fs + [f])[..|fs|] == fs;
  }

  lemma NothingWithin()
    ensures T.After([]) == T.INIT
  {
  }

  /** In every interleaving an open connection is where its own events alone would have led it. */
  lemma {:induction false} ConnectionsAreIndependent(cap: nat, es: seq<Event>, id: nat)
    requires id in After(cap, es).conns
    ensures After(cap, es).conns[id] == T.After(EventsOf(cap, es, id))
  {
    hide T.After, T.Next;
    NothingWithin();
    var front, e := es[..|es| - 1], es[|es| - 1];
    if id in After(cap, front).conns {
      ConnectionsAreIndependent(cap, front, id);
      if e.Within? && e.id == id {
        OneMoreWithin(EventsOf(cap, front, id), e.e);
      }
    }
  }
}
