/**
 What every run of the UDP translator keeps: endpoint-independent mapping,
 conservation of the counters, and agreement of the flow index with the session
 table.
 */
module UdpNatLaws {
  import opened Octets
  import opened UdpNat
  import PerSource

  // ---------------------------------------------------------------------
  // Invariants.

  /** The sessions a client address holds. */
  function SessionsOf(m: map<SessionKey, nat>, src: Addr6): set<SessionKey> {
    set k | k in m && k.srcAddr == src
  }

  ghost predicate CountedIn(sessions: map<SessionKey, nat>, counts: PerSource.Table, n: int) {
    && n == |sessions|
    && PerSource.Pruned(counts)
    && forall a :: PerSource.CountOf(counts, a, PerSource.Udp) == |SessionsOf(sessions, a)|
  }

  ghost predicate Counted(s: State) {
    CountedIn(s.sessions, s.srcCounts, s.udpCount)
  }

  /** A session is mapped while its BIB is the registered one of its client. */
  predicate Mapped(s: State, x: Session) {
    x.key.Client() in s.bibs && s.bibs[x.key.Client()] == x.bib
  }

  ghost predicate OpenIsMapped(s: State) {
    forall i :: 0 <= i < |s.sess| && !s.sess[i].closed ==> Listed(s, i) && Mapped(s, s.sess[i])
  }

  /** A BIB is at least as recent as each of its sessions, and no stamp is later than t. */
  ghost predicate Stamped(s: State, t: Time)
    requires Wf(s)
  {
    && (forall i :: 0 <= i < |s.sess| ==> s.sess[i].lastSeen <= s.bib[s.sess[i].bib].lastSeen)
    && (forall b :: 0 <= b < |s.bib| ==> s.bib[b].lastSeen <= t)
  }

  ghost predicate PendingIsFree(s: State) {
    forall i :: 0 <= i < |s.sess| && !s.sess[i].closed ==> s.sess[i].key !in s.pending
  }

  ghost predicate Core(s: State, t: Time) {
    Wf(s) && OpenIsMapped(s) && Stamped(s, t) && PendingIsFree(s)
  }

  /** The flow table of a registered BIB and the session table say the same about one tuple. */
  ghost predicate FlowAgrees(s: State, c: BibKey, t: V4Tuple)
    requires Wf(s) && c in s.bibs
  {
    var b, k := s.bibs[c], KeyFor(c, t);
    var flows := s.bib[b].flows;
    && (t in flows <==> k in s.sessions && s.sess[s.sessions[k]].bib == b)
    && (t in flows ==> flows[t] == s.sessions[k])
  }

  ghost predicate FlowIndex(s: State)
    requires Wf(s)
  {
    forall c, t :: c in s.bibs ==> FlowAgrees(s, c, t)
  }

  ghost predicate DistinctSockets(s: State)
    requires Wf(s)
  {
    forall c, d :: c in s.bibs && d in s.bibs && External(s, c) == External(s, d) ==> c == d
  }

  // ---------------------------------------------------------------------
  // Conservation.

  lemma SessionsOfInsert(m: map<SessionKey, nat>, k: SessionKey, i: nat, a: Addr6)
    requires k !in m
    ensures |SessionsOf(m[k := i], a)| == |SessionsOf(m, a)| + if k.srcAddr == a then 1 else 0
  {
    assert SessionsOf(m[k := i], a) == SessionsOf(m, a) + if k.srcAddr == a then {k} else {};
  }

  lemma SessionsOfRemove(m: map<SessionKey, nat>, k: SessionKey, a: Addr6)
    requires k in m
    ensures |SessionsOf(m - {k}, a)| == |SessionsOf(m, a)| - if k.srcAddr == a then 1 else 0
  {
    assert SessionsOf(m - {k}, a) == SessionsOf(m, a) - {k};
  }

  lemma DeletedCounted(s: State, i: nat)
    requires Wf(s) && i < |s.sess| && Counted(s)
    ensures Counted(Deleted(s, i))
  {
    var r, k := Deleted(s, i), s.sess[i].key;
    if Listed(s, i) {
      PerSource.RemovedCounts(s.srcCounts, k.srcAddr, PerSource.Udp);
      forall a
        ensures PerSource.CountOf(r.srcCounts, a, PerSource.Udp) == |SessionsOf(r.sessions, a)|
      {
        SessionsOfRemove(s.sessions, k, a);
        if a == k.srcAddr {
          assert k in SessionsOf(s.sessions, a);
        }
      }
      assert r.sessions.Keys == s.sessions.Keys - {k};
    }
  }

  lemma InsertCounted(m: map<SessionKey, nat>, counts: PerSource.Table, n: int, k: SessionKey, i: nat)
    requires CountedIn(m, counts, n) && k !in m
    ensures CountedIn(m[k := i], PerSource.Added(counts, k.srcAddr, PerSource.Udp), n + 1)
  {
    PerSource.AddedCounts(counts, k.srcAddr, PerSource.Udp);
    hide SessionsOf, PerSource.CountOf, PerSource.Added;
    forall a
      ensures |SessionsOf(m[k := i], a)| == |SessionsOf(m, a)| + if k.srcAddr == a then 1 else 0
    {
      SessionsOfInsert(m, k, i, a);
    }
    assert m[k := i].Keys == m.Keys + {k};
  }

  lemma ReplaceCounted(m: map<SessionKey, nat>, counts: PerSource.Table, n: int, k: SessionKey, i: nat)
    requires CountedIn(m, counts, n) && k in m
    ensures CountedIn(m[k := i], counts, n)
  {
    assert m[k := i].Keys == m.Keys;
    assert forall a :: SessionsOf(m[k := i], a) == SessionsOf(m, a);
  }

  lemma RegisteredCounted(s: State, k: SessionKey, now: Time)
    requires Wf(s) && k.Client() in s.bibs && Counted(s)
    ensures Counted(Registered(s, k, now))
  {
    hide CountedIn;
    if k !in s.sessions {
      InsertCounted(s.sessions, s.srcCounts, s.udpCount, k, |s.sess|);
    } else {
      ReplaceCounted(s.sessions, s.srcCounts, s.udpCount, k, |s.sess|);
    }
  }

  lemma {:induction false} EvictedAllCounted(s: State, vs: seq<SessionKey>)
    requires Wf(s) && Counted(s)
    ensures Counted(EvictedAll(s, vs))
    decreases |vs|
  {
    if vs != [] {
      if vs[0] in s.sessions {
        DeletedCounted(s, s.sessions[vs[0]]);
        EvictedAllCounted(Evicted(s, vs[0]), vs[1..]);
      } else {
        EvictedAllCounted(s, vs[1..]);
      }
    }
  }

  lemma SetUpCounted(s: State, now: Time, k: SessionKey, bound: Option<V4Tuple>)
    requires Wf(s) && Counted(s)
    ensures Counted(SetUp(s, now, k, bound))
  {
    var done := s.(pending := s.pending - {k});
    if k.Client() in s.bibs {
      RegisteredCounted(done, k, now);
    } else if bound.Some? {
      BoundWf(done, k.Client(), now, bound.value);
      RegisteredCounted(Bound(done, k.Client(), now, bound.value), k, now);
    }
  }

  lemma NextCounted(s: State, e: Event)
    requires Wf(s) && Counted(s)
    ensures Counted(Next(s, e))
  {
    hide Wf;
    if Enabled(s, e) {
      match e
      case Arrive(k, vs, _) => EvictedAllCounted(s, vs);
      case Setup(now, k, bound) => SetUpCounted(s, now, k, bound);
      case Teardown(i) => DeletedCounted(s, i);
      case TcpOpen(src) => PerSource.AddedCounts(s.srcCounts, src, PerSource.Tcp);
      case TcpClose(src) => PerSource.RemovedCounts(s.srcCounts, src, PerSource.Tcp);
      case _ =>
    }
  }

  /** In every reachable state both counters equal the number of sessions they count. */
  lemma {:induction false} CountersAreExact(settings: Settings, es: seq<Event>)
    ensures Counted(After(Init(settings), es))
  {
    if es == [] {
      forall a
        ensures SessionsOf(Init(settings).sessions, a) == {}
      {
      }
    } else {
      CountersAreExact(settings, es[..|es| - 1]);
      NextCounted(After(Init(settings), es[..|es| - 1]), es[|es| - 1]);
    }
  }

  /** A session already torn down, by eviction or otherwise, is not uncounted a second time. */
  lemma TeardownOnce(s: State, i: nat)
    requires Wf(s) && i < |s.sess|
    ensures Wf(Deleted(s, i)) && Deleted(Deleted(s, i), i) == Deleted(s, i)
  {
    DeletedWf(s, i);
    var r := Deleted(s, i);
    assert !Listed(r, i);
    assert r.sess[i := r.sess[i].(closed := true)] == r.sess;
  }

  // ---------------------------------------------------------------------
  // Mapping and time stamps.

  lemma DeletedStays(s: State, i: nat)
    requires Wf(s) && i < |s.sess|
    ensures s.sess[i].bib < |s.bib|
    ensures var r := Deleted(s, i);
            && r.bibs == s.bibs && r.pending == s.pending && |r.sess| == |s.sess| && |r.bib| == |s.bib|
            && (forall j :: 0 <= j < |s.sess| ==> r.sess[j] == if j == i then s.sess[j].(closed := true) else s.sess[j])
            && (forall j :: 0 <= j < |s.sess| && j != i && Listed(s, j) ==> Listed(r, j))
            && (forall b :: 0 <= b < |s.bib| ==> r.bib[b].lastSeen == s.bib[b].lastSeen)
  {
    hide WfTable, WfBibs, WfFlows;
  }

  lemma DeletedCore(s: State, i: nat, t: Time)
    requires Core(s, t) && i < |s.sess|
    ensures Core(Deleted(s, i), t)
  {
    DeletedWf(s, i);
    DeletedStays(s, i);
    hide Deleted, Listed, WfTable, WfBibs, WfFlows, WfSession;
  }

  lemma EvictedCore(s: State, k: SessionKey, t: Time)
    requires Core(s, t) && Wf(s) && k in s.sessions
    ensures var r := Evicted(s, k);
            && Core(r, t) && r.pending == s.pending && |r.sess| == |s.sess|
            && (forall i :: 0 <= i < |s.sess| ==> r.sess[i].key == s.sess[i].key && (s.sess[i].closed ==> r.sess[i].closed))
  {
    DeletedCore(s, s.sessions[k], t);
    DeletedParts(s, s.sessions[k]);
    hide Core, Listed, WfSessions, WfBibs, WfFlows;
  }

  lemma CoreIsWf(s: State, t: Time)
    requires Core(s, t)
    ensures Wf(s)
  {
  }

  lemma {:induction false} EvictedAllCore(s: State, vs: seq<SessionKey>, t: Time)
    requires Core(s, t)
    ensures Core(EvictedAll(s, vs), t)
    ensures EvictedAll(s, vs).pending == s.pending
    ensures |EvictedAll(s, vs).sess| == |s.sess|
    ensures forall i :: 0 <= i < |s.sess| ==>
              EvictedAll(s, vs).sess[i].key == s.sess[i].key
              && (s.sess[i].closed ==> EvictedAll(s, vs).sess[i].closed)
    decreases |vs|
  {
    CoreIsWf(s, t);
    hide Core, Wf, Evicted;
    if vs != [] {
      if vs[0] in s.sessions {
        EvictedCore(s, vs[0], t);
        EvictedAllCore(Evicted(s, vs[0]), vs[1..], t);
      } else {
        EvictedAllCore(s, vs[1..], t);
      }
    }
  }

  lemma ArrivedCore(s: State, k: SessionKey, vs: seq<SessionKey>, endpointOk: bool, t: Time)
    requires Core(s, t) && !HasEndpoint(s, k)
    ensures Core(Arrived(s, k, vs, endpointOk), t)
  {
    EvictedAllCore(s, vs, t);
  }

  lemma BoundStays(s: State, c: BibKey, now: Time, addr: V4Tuple)
    requires Wf(s)
    ensures var r := Bound(s, c, now, addr);
            && r.sess == s.sess && r.sessions == s.sessions && r.pending == s.pending && |s.bib| <= |r.bib|
            && (forall b :: 0 <= b < |s.bib| ==> r.bib[b] == s.bib[b])
            && (forall b :: |s.bib| <= b < |r.bib| ==> r.bib[b].lastSeen == now)
            && (forall x :: Mapped(s, x) ==> Mapped(r, x))
  {
    hide WfTable, WfBibs, WfFlows, WfSessions;
  }

  lemma BoundCore(s: State, c: BibKey, now: Time, addr: V4Tuple, t: Time)
    requires Core(s, t) && t <= now
    ensures Core(Bound(s, c, now, addr), now)
  {
    BoundWf(s, c, now, addr);
    BoundStays(s, c, now, addr);
    assert forall i :: 0 <= i < |s.sess| ==> s.sess[i].bib < |s.bib|;
    hide Bound, Mapped, WfTable, WfBibs, WfFlows, WfSession;
  }

  lemma RegisteredCore(s: State, k: SessionKey, now: Time)
    requires Core(s, now) && k.Client() in s.bibs && !HasEndpoint(s, k)
    ensures Core(Registered(s, k, now), now)
  {
    RegisteredWf(s, k, now);
    hide WfTable, WfBibs, WfFlows;
    var r := Registered(s, k, now);
    forall i | 0 <= i < |r.sess| && !r.sess[i].closed
      ensures Listed(r, i) && Mapped(r, r.sess[i]) && r.sess[i].key !in r.pending
    {
      if i < |s.sess| {
        assert r.sess[i] == s.sess[i];
        assert Listed(s, i) && Mapped(s, s.sess[i]);
        assert s.sess[i].key != k;
      }
    }
    assert forall i :: 0 <= i < |s.sess| ==> r.sess[i] == s.sess[i] && WfSession(s.sess[i], s.bib);
  }

  lemma SetUpCore(s: State, now: Time, k: SessionKey, bound: Option<V4Tuple>, t: Time)
    requires Core(s, t) && t <= now && k in s.pending
    ensures Core(SetUp(s, now, k, bound), now)
  {
    var done := s.(pending := s.pending - {k});
    assert Core(done, now);
    assert !HasEndpoint(done, k);
    if k.Client() in s.bibs {
      RegisteredCore(done, k, now);
    } else if bound.Some? {
      BoundCore(done, k.Client(), now, bound.value, now);
      RegisteredCore(Bound(done, k.Client(), now, bound.value), k, now);
    }
  }

  lemma ForwardedCore(s: State, i: nat, now: Time, t: Time)
    requires Core(s, t) && t <= now && i < |s.sess|
    ensures Core(Forwarded(s, i, now), now)
  {
    ForwardedWf(s, i, now);
    var r := Forwarded(s, i, now);
    forall j | 0 <= j < |r.sess| && !r.sess[j].closed
      ensures Listed(r, j) && Mapped(r, r.sess[j]) && r.sess[j].key !in r.pending
    {
      assert Listed(s, j) && Mapped(s, s.sess[j]);
    }
    assert forall j :: 0 <= j < |s.sess| ==> s.sess[j].bib < |s.bib| && s.bib[s.sess[j].bib].lastSeen <= t;
  }

  /** A listed session whose BIB is its client's and at least as recent. */
  ghost predicate Freshened(s: State, j: nat)
    requires j < |s.sess| && s.sess[j].bib < |s.bib|
  {
    Listed(s, j) && Mapped(s, s.sess[j]) && s.sess[j].lastSeen <= s.bib[s.sess[j].bib].lastSeen
  }

  lemma ExpiredStays(s: State, now: Time)
    requires Wf(s)
    ensures var r := Expired(s, now);
            && r.sessions == s.sessions && r.pending == s.pending && r.bib == s.bib && |r.sess| == |s.sess|
            && (forall j :: 0 <= j < |s.sess| ==> r.sess[j] == s.sess[j] || r.sess[j] == s.sess[j].(closed := true))
            && (forall j :: 0 <= j < |s.sess| && Listed(s, j) ==> Listed(r, j))
            && (forall j :: 0 <= j < |s.sess| && !r.sess[j].closed && Freshened(s, j) ==> Mapped(r, r.sess[j]))
  {
    hide WfTable, WfFlows;
  }

  lemma ExpiredCore(s: State, now: Time, t: Time)
    requires Core(s, t) && t <= now
    ensures Core(Expired(s, now), now)
  {
    ExpiredWf(s, now);
    ExpiredStays(s, now);
    hide Expired, Listed, Mapped, WfTable, WfBibs, WfFlows, WfSession;
  }

  /** The time an event reads the clock at, if it does. */
  predicate Reads(e: Event) {
    e.Setup? || e.Forward? || e.Tick? || e.Inbound?
  }

  /** The clock never goes backwards during a run. */
  ghost predicate Timed(es: seq<Event>) {
    forall i, j :: 0 <= i <= j < |es| && Reads(es[i]) && Reads(es[j]) ==> es[i].now <= es[j].now
  }

  ghost predicate AllBefore(es: seq<Event>, t: Time) {
    forall i :: 0 <= i < |es| && Reads(es[i]) ==> es[i].now <= t
  }

  /** The mapping depends on the five tables alone. */
  lemma SameTablesCore(s: State, r: State, t: Time, u: Time)
    requires Core(s, t) && t <= u
    requires r.sessions == s.sessions && r.bibs == s.bibs && r.sess == s.sess && r.bib == s.bib && r.pending == s.pending
    ensures Core(r, u)
  {
  }

  lemma NextCore(s: State, e: Event, t: Time)
    requires Wf(s) && Core(s, t) && (Reads(e) ==> t <= e.now)
    ensures Core(Next(s, e), if Reads(e) then e.now else t)
  {
    hide Core, Wf;
    var u := if Reads(e) then e.now else t;
    if !Enabled(s, e) {
      SameTablesCore(s, s, t, u);
    } else {
      match e
      case Arrive(k, vs, ok) => ArrivedCore(s, k, vs, ok, t);
      case Setup(now, k, bound) => SetUpCore(s, now, k, bound, t);
      case Forward(now, i) => ForwardedCore(s, i, now, t);
      case Teardown(i) => DeletedCore(s, i, t);
      case Tick(now) => ExpiredCore(s, now, t);
      case _ => SameTablesCore(s, Step(s, e), t, u);
    }
  }

  lemma {:induction false} RunsKeepCore(settings: Settings, es: seq<Event>, t: Time)
    requires Timed(es) && AllBefore(es, t)
    ensures Core(After(Init(settings), es), t)
  {
    if es != [] {
      var front, e := es[..|es| - 1], es[|es| - 1];
      var u := if Reads(e) then e.now else t;
      assert forall i :: 0 <= i < |front| ==> front[i] == es[i];
      RunsKeepCore(settings, front, u);
      NextCore(After(Init(settings), front), e, u);
    }
  }

  /**
   Endpoint-independent mapping (section 4.1 of RFC 4787): in every reachable
   state the open sessions of one client socket go through one BIB, the
   registered one, and so through one external address and port.
   */
  lemma EndpointIndependentMapping(settings: Settings, es: seq<Event>, t: Time, i: nat, j: nat)
    requires Timed(es) && AllBefore(es, t)
    requires var s := After(Init(settings), es);
             && i < |s.sess| && j < |s.sess| && !s.sess[i].closed && !s.sess[j].closed
             && s.sess[i].key.Client() == s.sess[j].key.Client()
    ensures var s := After(Init(settings), es);
            && s.sess[i].bib == s.sess[j].bib
            && s.sess[i].localIP == s.sess[j].localIP && s.sess[i].localPort == s.sess[j].localPort
            && s.sess[i].key.Client() in s.bibs
            && External(s, s.sess[i].key.Client()) == V4Tuple(s.sess[i].localIP, s.sess[i].localPort)
  {
    RunsKeepCore(settings, es, t);
    var s := After(Init(settings), es);
    assert Mapped(s, s.sess[i]) && Mapped(s, s.sess[j]);
  }

  /** A record in a store keeps what identifies it. */
  ghost predicate Grows(s: State, r: State) {
    && |s.sess| <= |r.sess| && |s.bib| <= |r.bib|
    && (forall i :: 0 <= i < |s.sess| ==> SameFlow(s.sess[i], r.sess[i]))
    && (forall b :: 0 <= b < |s.bib| ==> SameSocket(s.bib[b], r.bib[b]))
  }

  ghost predicate SameFlow(x: Session, y: Session) {
    x.key == y.key && x.bib == y.bib && x.localIP == y.localIP && x.localPort == y.localPort
    && (x.closed ==> y.closed)
  }

  lemma GrowsTransitive(s: State, r: State, q: State)
    requires Grows(s, r) && Grows(r, q)
    ensures Grows(s, q)
  {
    forall i | 0 <= i < |s.sess|
      ensures SameFlow(s.sess[i], q.sess[i])
    {
      assert SameFlow(s.sess[i], r.sess[i]) && SameFlow(r.sess[i], q.sess[i]);
    }
    forall b | 0 <= b < |s.bib|
      ensures SameSocket(s.bib[b], q.bib[b])
    {
      assert SameSocket(s.bib[b], r.bib[b]) && SameSocket(r.bib[b], q.bib[b]);
    }
  }

  lemma DeletedGrows(s: State, i: nat)
    requires Wf(s) && i < |s.sess|
    ensures s.sess[i].bib < |s.bib| && Grows(s, Deleted(s, i))
  {
    DeletedParts(s, i);
    hide Deleted, Wf;
  }

  lemma {:induction false} EvictedAllGrows(s: State, vs: seq<SessionKey>)
    requires Wf(s)
    ensures Grows(s, EvictedAll(s, vs))
    decreases |vs|
  {
    if vs != [] {
      if vs[0] in s.sessions {
        DeletedGrows(s, s.sessions[vs[0]]);
        hide Grows, Deleted;
        EvictedAllGrows(Evicted(s, vs[0]), vs[1..]);
        GrowsTransitive(s, Evicted(s, vs[0]), EvictedAll(s, vs));
      } else {
        EvictedAllGrows(s, vs[1..]);
      }
    }
  }

  lemma SetUpGrows(s: State, now: Time, k: SessionKey, bound: Option<V4Tuple>)
    requires Wf(s)
    ensures Grows(s, SetUp(s, now, k, bound))
  {
    hide WfTable, WfFlows;
  }

  lemma ForwardedGrows(s: State, i: nat, now: Time)
    requires Wf(s) && i < |s.sess|
    ensures Grows(s, Forwarded(s, i, now))
  {
  }

  lemma NextGrows(s: State, e: Event)
    requires Wf(s)
    ensures Grows(s, Next(s, e))
  {
    hide Wf;
    if Enabled(s, e) {
      match e
      case Arrive(k, vs, _) => EvictedAllGrows(s, vs);
      case Setup(now, k, bound) => SetUpGrows(s, now, k, bound);
      case Forward(now, i) => ForwardedGrows(s, i, now);
      case Teardown(i) => DeletedGrows(s, i);
      case _ =>
    }
  }

  /** No step ever moves a session to another external address or reopens a closed one. */
  lemma {:induction false} MappingIsStable(s: State, es: seq<Event>)
    requires Wf(s)
    ensures Grows(s, After(s, es))
  {
    if es != [] {
      MappingIsStable(s, es[..|es| - 1]);
      NextGrows(After(s, es[..|es| - 1]), es[|es| - 1]);
    }
  }

  // ---------------------------------------------------------------------
  // The flow index.

  /** What deleting session i leaves of the tables. */
  lemma DeletedEffect(s: State, i: nat)
    requires Wf(s) && i < |s.sess|
    ensures s.sess[i].bib < |s.bib|
    ensures var r, x := Deleted(s, i), s.sess[i];
            && r.bibs == s.bibs && |r.sess| == |s.sess| && |r.bib| == |s.bib|
            && r.sessions == (if Listed(s, i) then s.sessions - {x.key} else s.sessions)
            && (forall j :: 0 <= j < |s.sess| ==> r.sess[j].bib == s.sess[j].bib)
            && (forall b :: 0 <= b < |s.bib| ==>
                  r.bib[b].flows ==
                  if Listed(s, i) && b == x.bib then Without(s.bib[b].flows, x.key.Tuple(), i) else s.bib[b].flows)
  {
  }

  lemma FlowFacts(s: State, i: nat, c: BibKey, k: SessionKey)
    requires Wf(s) && i < |s.sess| && c in s.bibs
    ensures s.bibs[c] < |s.bib| && s.bib[s.bibs[c]].client == c
    ensures s.sess[i].bib < |s.bib| && s.bib[s.sess[i].bib].client == s.sess[i].key.Client()
    ensures k in s.sessions ==> s.sessions[k] < |s.sess|
  {
  }

  lemma DeletedFlowAgrees(s: State, i: nat, c: BibKey, t: V4Tuple)
    requires Wf(s) && i < |s.sess| && c in s.bibs && FlowAgrees(s, c, t)
    requires Wf(Deleted(s, i))
    ensures c in Deleted(s, i).bibs && FlowAgrees(Deleted(s, i), c, t)
  {
    hide Wf, Deleted;
    var x, k, b := s.sess[i], KeyFor(c, t), s.bibs[c];
    FlowFacts(s, i, c, k);
    DeletedEffect(s, i);
    var r := Deleted(s, i);
    if Listed(s, i) {
      assert k == x.key ==> k !in r.sessions && t !in r.bib[b].flows;
      assert k != x.key ==> (k in r.sessions <==> k in s.sessions);
      assert k != x.key ==> (t in r.bib[b].flows <==> t in s.bib[b].flows);
    }
  }

  lemma DeletedFlowIndex(s: State, i: nat)
    requires Wf(s) && i < |s.sess| && FlowIndex(s)
    ensures Wf(Deleted(s, i)) && FlowIndex(Deleted(s, i))
  {
    DeletedWf(s, i);
    hide Deleted;
    DeletedEffect(s, i);
    forall c, t | c in Deleted(s, i).bibs
      ensures FlowAgrees(Deleted(s, i), c, t)
    {
      DeletedFlowAgrees(s, i, c, t);
    }
  }

  lemma {:induction false} EvictedAllFlowIndex(s: State, vs: seq<SessionKey>)
    requires Wf(s) && FlowIndex(s)
    ensures FlowIndex(EvictedAll(s, vs))
    decreases |vs|
  {
    if vs != [] {
      if vs[0] in s.sessions {
        DeletedFlowIndex(s, s.sessions[vs[0]]);
        EvictedAllFlowIndex(Evicted(s, vs[0]), vs[1..]);
      } else {
        EvictedAllFlowIndex(s, vs[1..]);
      }
    }
  }

  lemma BoundFlowIndex(s: State, c: BibKey, now: Time, addr: V4Tuple)
    requires Wf(s) && FlowIndex(s)
    ensures Wf(Bound(s, c, now, addr)) && FlowIndex(Bound(s, c, now, addr))
  {
    BoundWf(s, c, now, addr);
    var r := Bound(s, c, now, addr);
    forall d, t | d in r.bibs
      ensures FlowAgrees(r, d, t)
    {
      assert d in s.bibs ==> FlowAgrees(s, d, t);
    }
  }

  lemma RegisteredFlowIndex(s: State, k: SessionKey, now: Time)
    requires Wf(s) && k.Client() in s.bibs && FlowIndex(s)
    ensures Wf(Registered(s, k, now)) && FlowIndex(Registered(s, k, now))
  {
    RegisteredWf(s, k, now);
    var r := Registered(s, k, now);
    forall c, t | c in r.bibs
      ensures FlowAgrees(r, c, t)
    {
      assert FlowAgrees(s, c, t);
      assert KeyFor(c, t) == k <==> c == k.Client() && t == k.Tuple();
    }
  }

  lemma SetUpFlowIndex(s: State, now: Time, k: SessionKey, bound: Option<V4Tuple>)
    requires Wf(s) && FlowIndex(s)
    ensures FlowIndex(SetUp(s, now, k, bound))
  {
    var done := s.(pending := s.pending - {k});
    assert FlowIndex(done) by { SameTablesFlowIndex(s, done); }
    if k.Client() in s.bibs {
      RegisteredFlowIndex(done, k, now);
    } else if bound.Some? {
      BoundFlowIndex(done, k.Client(), now, bound.value);
      RegisteredFlowIndex(Bound(done, k.Client(), now, bound.value), k, now);
    }
  }

  lemma SameTablesFlowIndex(s: State, r: State)
    requires Wf(s) && FlowIndex(s) && Wf(r) && r.sessions == s.sessions
    requires r.bibs.Items <= s.bibs.Items && |r.sess| == |s.sess| && |r.bib| == |s.bib|
    requires forall i :: 0 <= i < |s.sess| ==> r.sess[i].bib == s.sess[i].bib
    requires forall b :: 0 <= b < |s.bib| ==> r.bib[b].flows == s.bib[b].flows
    ensures FlowIndex(r)
  {
    forall c, t | c in r.bibs
      ensures FlowAgrees(r, c, t)
    {
      assert (c, r.bibs[c]) in r.bibs.Items;
      assert FlowAgrees(s, c, t);
    }
  }

  lemma ForwardedFlowIndex(s: State, i: nat, now: Time)
    requires Wf(s) && i < |s.sess| && FlowIndex(s)
    ensures Wf(Forwarded(s, i, now)) && FlowIndex(Forwarded(s, i, now))
  {
    ForwardedWf(s, i, now);
    SameTablesFlowIndex(s, Forwarded(s, i, now));
  }

  lemma NextFlowIndex(s: State, e: Event)
    requires Wf(s) && FlowIndex(s)
    ensures FlowIndex(Next(s, e))
  {
    hide Wf, FlowIndex;
    if Enabled(s, e) {
      match e
      case Arrive(k, vs, ok) =>
        EvictedAllFlowIndex(s, vs);
        SameTablesFlowIndex(EvictedAll(s, vs), Next(s, e));
      case Setup(now, k, bound) => SetUpFlowIndex(s, now, k, bound);
      case Teardown(i) => DeletedFlowIndex(s, i);
      case Forward(now, i) => ForwardedFlowIndex(s, i, now);
      case _ => SameTablesFlowIndex(s, Next(s, e));
    }
  }

  /** In every reachable state each registered BIB's flow table is the session table cut down to that BIB. */
  lemma {:induction false} FlowIndexAgrees(settings: Settings, es: seq<Event>)
    ensures FlowIndex(After(Init(settings), es))
  {
    if es != [] {
      FlowIndexAgrees(settings, es[..|es| - 1]);
      NextFlowIndex(After(Init(settings), es[..|es| - 1]), es[|es| - 1]);
    }
  }

  /** The same choice made over the whole session table, without the flow index. */
  ghost predicate DemuxesGlobally(s: State, c: BibKey, from: V4Tuple, r: Option<nat>)
    requires Wf(s) && c in s.bibs
  {
    if HasFlow(s, c, from) then r == Some(s.sessions[KeyFor(c, from)])
    else if s.settings.filtering != AddressDependent then r == None
    else
      match r
      case None => forall t :: HasFlow(s, c, t) ==> t.addr != from.addr
      case Some(i) =>
        && (exists t :: HasFlow(s, c, t) && s.sessions[KeyFor(c, t)] == i && t.addr == from.addr)
        && (forall t :: HasFlow(s, c, t) && t.addr == from.addr ==>
              s.sess[s.sessions[KeyFor(c, t)]].lastSeen <= s.sess[i].lastSeen)
  }

  /** The client has a registered session toward t through its current BIB. */
  predicate HasFlow(s: State, c: BibKey, t: V4Tuple)
    requires c in s.bibs
  {
    var k := KeyFor(c, t);
    k in s.sessions && s.sessions[k] < |s.sess| && s.sess[s.sessions[k]].bib == s.bibs[c]
  }

  lemma HasFlowIsInIndex(s: State, c: BibKey)
    requires Wf(s) && FlowIndex(s) && c in s.bibs
    ensures forall t :: t in s.bib[s.bibs[c]].flows <==> HasFlow(s, c, t)
    ensures forall t :: HasFlow(s, c, t) ==> s.bib[s.bibs[c]].flows[t] == s.sessions[KeyFor(c, t)]
  {
    forall t
      ensures t in s.bib[s.bibs[c]].flows <==> HasFlow(s, c, t)
      ensures HasFlow(s, c, t) ==> s.bib[s.bibs[c]].flows[t] == s.sessions[KeyFor(c, t)]
    {
      assert FlowAgrees(s, c, t);
    }
  }

  /** In every reachable state demuxing over a BIB's flows is filtering the whole session table. */
  lemma DemuxIsGlobalFilter(settings: Settings, es: seq<Event>, c: BibKey, from: V4Tuple, r: Option<nat>)
    requires c in After(Init(settings), es).bibs
    ensures var s := After(Init(settings), es);
            Demuxes(s, s.bibs[c], from, r) <==> DemuxesGlobally(s, c, from, r)
  {
    FlowIndexAgrees(settings, es);
    HasFlowIsInIndex(After(Init(settings), es), c);
  }

  /** A datagram that demuxes to an open session is relayed into it. */
  lemma InboundRelays(s: State, i: nat, from: V4Tuple, now: Time)
    requires Wf(s) && i < |s.sess| && !s.sess[i].closed && Mapped(s, s.sess[i]) && Demuxes(s, s.sess[i].bib, from, Some(i))
    ensures Next(s, Inbound(now, s.sess[i].bib, from, Some(i))).delivered == s.delivered + [Relayed(i, from)]
  {
    assert s.bib[s.sess[i].bib].client == s.sess[i].key.Client();
    hide Demuxes, WfSessions, WfTable, WfFlows;
  }

  /** A true reply reaches its own open session in every filtering mode. */
  lemma RepliesReachTheirSession(settings: Settings, es: seq<Event>, t: Time, i: nat, r: Option<nat>, now: Time)
    requires Timed(es) && AllBefore(es, t)
    requires var s := After(Init(settings), es); i < |s.sess| && !s.sess[i].closed
    requires var s := After(Init(settings), es); Demuxes(s, s.sess[i].bib, s.sess[i].key.Tuple(), r)
    ensures r == Some(i)
    ensures var s := After(Init(settings), es);
            Next(s, Inbound(now, s.sess[i].bib, s.sess[i].key.Tuple(), r)).delivered
              == s.delivered + [Relayed(i, s.sess[i].key.Tuple())]
  {
    RunsKeepCore(settings, es, t);
    FlowIndexAgrees(settings, es);
    var s := After(Init(settings), es);
    var k := s.sess[i].key;
    assert Listed(s, i) && Mapped(s, s.sess[i]);
    assert FlowAgrees(s, k.Client(), k.Tuple());
    hide After, Core, FlowIndex, FlowAgrees;
    InboundRelays(s, i, s.sess[i].key.Tuple(), now);
  }

  // ---------------------------------------------------------------------
  // External addresses and quoted errors.

  lemma SocketsStayDistinct(s: State, r: State)
    requires Wf(s) && Wf(r) && DistinctSockets(s) && Grows(s, r) && r.bibs.Items <= s.bibs.Items
    ensures DistinctSockets(r)
  {
    forall c | c in r.bibs
      ensures c in s.bibs && External(r, c) == External(s, c)
    {
      assert (c, r.bibs[c]) in r.bibs.Items;
      assert SameSocket(s.bib[s.bibs[c]], r.bib[r.bibs[c]]);
    }
  }

  lemma SetUpBibs(s: State, now: Time, k: SessionKey, bound: Option<V4Tuple>)
    requires Wf(s)
    ensures var r, n := SetUp(s, now, k, bound), |s.bib|;
            if k.Client() in s.bibs || bound.None? then r.bibs == s.bibs
            else
              && r.bibs == s.bibs[k.Client() := n] && n < |r.bib|
              && r.bib[n].localIP == bound.value.addr && r.bib[n].localPort == bound.value.port
  {
    hide WfTable, WfFlows, WfSessions, WfSession;
  }

  /** A new socket with an address nobody has leaves all addresses distinct. */
  lemma NewSocketIsDistinct(s: State, r: State, c: BibKey, addr: V4Tuple)
    requires Wf(s) && Wf(r) && DistinctSockets(s) && Grows(s, r) && r.bibs == s.bibs[c := |s.bib|] && |s.bib| < |r.bib|
    requires r.bib[|s.bib|].localIP == addr.addr && r.bib[|s.bib|].localPort == addr.port
    requires forall d :: d in s.bibs ==> External(s, d) != addr
    ensures DistinctSockets(r)
  {
    hide WfTable, WfFlows, WfSessions;
    forall d | d in r.bibs
      ensures External(r, d) == if d == c then addr else External(s, d)
    {
      if d != c {
        assert SameSocket(s.bib[s.bibs[d]], r.bib[r.bibs[d]]);
      }
    }
  }

  lemma SetUpSockets(s: State, now: Time, k: SessionKey, bound: Option<V4Tuple>)
    requires Wf(s) && DistinctSockets(s) && Enabled(s, Setup(now, k, bound))
    ensures DistinctSockets(SetUp(s, now, k, bound))
  {
    hide Wf, SetUp, Grows, DistinctSockets;
    var r := SetUp(s, now, k, bound);
    SetUpGrows(s, now, k, bound);
    SetUpBibs(s, now, k, bound);
    if k.Client() in s.bibs || bound.None? {
      SocketsStayDistinct(s, r);
    } else {
      NewSocketIsDistinct(s, r, k.Client(), bound.value);
    }
  }

  lemma {:induction false} EvictedAllKeepsBibs(s: State, vs: seq<SessionKey>)
    requires Wf(s)
    ensures EvictedAll(s, vs).bibs == s.bibs
    decreases |vs|
  {
    if vs != [] {
      EvictedAllKeepsBibs(if vs[0] in s.sessions then Evicted(s, vs[0]) else s, vs[1..]);
    }
  }

  lemma NextSockets(s: State, e: Event)
    requires Wf(s) && DistinctSockets(s)
    ensures DistinctSockets(Next(s, e))
  {
    hide Wf, DistinctSockets, Grows;
    if Enabled(s, e) {
      NextGrows(s, e);
      match e
      case Setup(now, k, bound) => SetUpSockets(s, now, k, bound);
      case Arrive(k, vs, _) =>
        EvictedAllKeepsBibs(s, vs);
        SocketsStayDistinct(s, Next(s, e));
      case _ => SocketsStayDistinct(s, Next(s, e));
    }
  }

  lemma {:induction false} RunsKeepSocketsDistinct(settings: Settings, es: seq<Event>)
    ensures DistinctSockets(After(Init(settings), es))
  {
    if es != [] {
      RunsKeepSocketsDistinct(settings, es[..|es| - 1]);
      NextSockets(After(Init(settings), es[..|es| - 1]), es[|es| - 1]);
    }
  }

  /** Two open sessions named by one quoted packet are the same session, so the error goes to its client. */
  lemma QuotedErrorIsUnambiguous(settings: Settings, es: seq<Event>, t: Time, i: nat, j: nat, local: V4Tuple, dst: V4Tuple)
    requires Timed(es) && AllBefore(es, t)
    requires var s := After(Init(settings), es);
             && i < |s.sess| && j < |s.sess| && !s.sess[i].closed && !s.sess[j].closed
             && Listed(s, i) && Listed(s, j)
             && Quotes(s, s.sess[i].key, local, dst) && Quotes(s, s.sess[j].key, local, dst)
    ensures i == j
  {
    RunsKeepCore(settings, es, t);
    RunsKeepSocketsDistinct(settings, es);
    var s := After(Init(settings), es);
    assert Mapped(s, s.sess[i]) && Mapped(s, s.sess[j]);
    assert External(s, s.sess[i].key.Client()) == External(s, s.sess[j].key.Client());
  }
}
