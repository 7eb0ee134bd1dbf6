/**
 The UDP half of the translator, src/nat64/udp.go and the UDP part of
 src/nat64/service.go, as a state machine over its atomic steps.

 Go pointers to sessions and BIBs are indices into two stores that only grow,
 so comparing two pointers is comparing two indices.
 */
module UdpNat {
  import opened Octets
  import opened TokenBucket
  import PerSource

  const MAX_INT64 := 0x7fff_ffff_ffff_ffff
  const EVICT_ATTEMPTS := 8

  /** A clock reading in Unix nanoseconds; the largest int64 is never read. */
  type Time = t: int | t < MAX_INT64 witness 0

  datatype BibKey = BibKey(srcAddr: Addr6, srcPort: uint16)
  datatype V4Tuple = V4Tuple(addr: Addr4, port: uint16)

  datatype SessionKey = SessionKey(srcAddr: Addr6, srcPort: uint16, dstAddr: Addr4, dstPort: uint16) {
    function Client(): BibKey { BibKey(srcAddr, srcPort) }
    function Tuple(): V4Tuple { V4Tuple(dstAddr, dstPort) }
  }

  function KeyFor(c: BibKey, t: V4Tuple): (k: SessionKey)
    ensures k.Client() == c && k.Tuple() == t
  {
    SessionKey(c.srcAddr, c.srcPort, t.addr, t.port)
  }

  /** One client-to-destination flow; `key` is the tuple its forward loop was started with. */
  datatype Session = Session(
    key: SessionKey,
    bib: nat,
    localIP: Addr4,
    localPort: uint16,
    lastSeen: Time,
    closed: bool)

  /** The external mapping of one client socket. */
  datatype Bib = Bib(
    client: BibKey,
    localIP: Addr4,
    localPort: uint16,
    lastSeen: Time,
    flows: map<V4Tuple, nat>)

  datatype Filtering = AddressDependent | AddressAndPortDependent | EndpointIndependent

  /** The reloadable settings; a limit or timeout of zero or less means none. */
  datatype Settings = Settings(udpTimeout: int, filtering: Filtering, maxSessions: int, perSrcMax: int)

  datatype Delivery =
    | Relayed(session: nat, from: V4Tuple)
    | Injected(client: BibKey, from: V4Tuple)
    | ErrorTo(key: SessionKey)

  datatype State = State(
    settings: Settings,
    sessions: map<SessionKey, nat>,
    bibs: map<BibKey, nat>,
    sess: seq<Session>,
    bib: seq<Bib>,
    udpCount: int,
    srcCounts: PerSource.Table,
    pending: set<SessionKey>,
    eif: Lazy,
    delivered: seq<Delivery>)

  function Init(settings: Settings): State {
    State(settings, map[], map[], [], [], 0, map[], {}, FRESH, [])
  }

  /** Every index points into its store and every record agrees with what it points at. */
  ghost predicate Wf(s: State) {
    WfSessions(s.sess, s.bib) && WfTable(s.sessions, s.sess) && WfBibs(s.bibs, s.bib) && WfFlows(s.bib, s.sess)
  }

  ghost predicate WfSessions(sess: seq<Session>, bib: seq<Bib>) {
    forall i :: 0 <= i < |sess| ==> WfSession(sess[i], bib)
  }

  ghost predicate WfSession(x: Session, bib: seq<Bib>) {
    && x.bib < |bib|
    && bib[x.bib].client == x.key.Client()
    && bib[x.bib].localIP == x.localIP && bib[x.bib].localPort == x.localPort
  }

  ghost predicate WfTable(sessions: map<SessionKey, nat>, sess: seq<Session>) {
    forall k :: k in sessions ==> sessions[k] < |sess| && sess[sessions[k]].key == k
  }

  ghost predicate WfBibs(bibs: map<BibKey, nat>, bib: seq<Bib>) {
    forall c :: c in bibs ==> bibs[c] < |bib| && bib[bibs[c]].client == c
  }

  ghost predicate WfFlows(bib: seq<Bib>, sess: seq<Session>) {
    forall b :: 0 <= b < |bib| ==> WfFlow(bib[b], sess)
  }

  ghost predicate WfFlow(b: Bib, sess: seq<Session>) {
    forall t :: t in b.flows ==> b.flows[t] < |sess| && sess[b.flows[t]].key == KeyFor(b.client, t)
  }

  // ---------------------------------------------------------------------
  // The operations as functions of the state.

  predicate Listed(s: State, i: nat)
    requires i < |s.sess|
  {
    s.sess[i].key in s.sessions && s.sessions[s.sess[i].key] == i
  }

  /** CompareAndDelete: the entry goes only if it still holds i. */
  function Without(flows: map<V4Tuple, nat>, t: V4Tuple, i: nat): map<V4Tuple, nat> {
    if t in flows && flows[t] == i then flows - {t} else flows
  }

  /** deleteSession: close the client leg, and unregister only what is still this session's. */
  function Deleted(s: State, i: nat): State
    requires i < |s.sess| && s.sess[i].bib < |s.bib|
  {
    var x := s.sess[i];
    var closed := s.(sess := s.sess[i := x.(closed := true)]);
    if !Listed(s, i) then closed
    else
      var b := s.bib[x.bib];
      closed.(sessions := s.sessions - {x.key},
              udpCount := s.udpCount - 1,
              srcCounts := PerSource.Removed(s.srcCounts, x.key.srcAddr, PerSource.Udp),
              bib := s.bib[x.bib := b.(flows := Without(b.flows, x.key.Tuple(), i))])
  }

  lemma DeletedParts(s: State, i: nat)
    requires Wf(s) && i < |s.sess|
    ensures s.sess[i].bib < |s.bib|
    ensures var r := Deleted(s, i);
            && r.bibs == s.bibs && |r.sess| == |s.sess| && |r.bib| == |s.bib|
            && (forall k :: k in r.sessions ==> k in s.sessions && r.sessions[k] == s.sessions[k])
            && (forall j :: 0 <= j < |s.sess| ==> r.sess[j] == s.sess[j] || r.sess[j] == s.sess[j].(closed := true))
            && (forall b :: 0 <= b < |s.bib| ==> SameSocket(s.bib[b], r.bib[b]) && FewerFlows(s.bib[b], r.bib[b]))
  {
    hide WfTable, WfBibs, WfFlows;
  }

  ghost predicate FewerFlows(b: Bib, c: Bib) {
    forall t :: t in c.flows ==> t in b.flows && c.flows[t] == b.flows[t]
  }

  lemma DeletedWf(s: State, i: nat)
    requires Wf(s) && i < |s.sess|
    ensures Wf(Deleted(s, i))
  {
    DeletedParts(s, i);
    hide Deleted, FewerFlows, WfFlow;
    var r := Deleted(s, i);
    forall b | 0 <= b < |r.bib|
      ensures WfFlow(r.bib[b], r.sess)
    {
      FewerFlowsWf(s.bib[b], s.sess, r.bib[b], r.sess);
    }
  }

  ghost predicate SameSocket(b: Bib, c: Bib) {
    b.client == c.client && b.localIP == c.localIP && b.localPort == c.localPort
  }

  lemma FewerFlowsWf(b: Bib, sess: seq<Session>, c: Bib, sess': seq<Session>)
    requires WfFlow(b, sess) && SameSocket(b, c) && FewerFlows(b, c)
    requires |sess| == |sess'| && forall j :: 0 <= j < |sess| ==> sess'[j].key == sess[j].key
    ensures WfFlow(c, sess')
  {
  }

  ghost function Evicted(s: State, k: SessionKey): (r: State)
    requires Wf(s) && k in s.sessions
    ensures Wf(r)
  {
    DeletedWf(s, s.sessions[k]);
    Deleted(s, s.sessions[k])
  }

  /** No registered session was idle for longer than this one. */
  ghost predicate IsOldest(s: State, k: SessionKey)
    requires Wf(s)
  {
    && k in s.sessions
    && forall j :: j in s.sessions ==> s.sess[s.sessions[k]].lastSeen <= s.sess[s.sessions[j]].lastSeen
  }

  /** The sessions that admission may evict, in order; which of two equally idle ones goes is open. */
  ghost predicate Victims(s: State, max: int, attempts: nat, vs: seq<SessionKey>)
    requires Wf(s)
    decreases attempts
  {
    if s.udpCount < max || attempts == 0 || s.sessions == map[] then vs == []
    else
      && vs != []
      && IsOldest(s, vs[0])
      && Victims(Evicted(s, vs[0]), max, attempts - 1, vs[1..])
  }

  ghost function EvictedAll(s: State, vs: seq<SessionKey>): (r: State)
    requires Wf(s)
    ensures Wf(r)
    decreases |vs|
  {
    if vs == [] then s
    else if vs[0] !in s.sessions then EvictedAll(s, vs[1..])
    else EvictedAll(Evicted(s, vs[0]), vs[1..])
  }

  predicate OverSourceLimit(s: State, src: Addr6) {
    s.settings.perSrcMax > 0 && PerSource.CountOf(s.srcCounts, src, PerSource.Udp) >= s.settings.perSrcMax
  }

  predicate BelowLimit(s: State) {
    s.settings.maxSessions <= 0 || s.udpCount < s.settings.maxSessions
  }

  /** A client tuple has an endpoint in the stack from its admission until its session is closed. */
  ghost predicate HasEndpoint(s: State, k: SessionKey) {
    k in s.pending || exists i :: 0 <= i < |s.sess| && s.sess[i].key == k && !s.sess[i].closed
  }

  /** The BIB of a client after getOrCreateBIB, with `addr` the address a new socket would get. */
  function Bound(s: State, c: BibKey, now: Time, addr: V4Tuple): (r: State)
    ensures c in r.bibs
  {
    if c in s.bibs then s
    else s.(bibs := s.bibs[c := |s.bib|], bib := s.bib + [Bib(c, addr.addr, addr.port, now, map[])])
  }

  /** The registration block on a BIB in hand: session table, counters, flow table, both stamps. */
  function RegisteredOn(s: State, k: SessionKey, bi: nat, now: Time): State
    requires bi < |s.bib|
  {
    var b := s.bib[bi];
    var i := |s.sess|;
    var isNew := k !in s.sessions;
    s.(sess := s.sess + [Session(k, bi, b.localIP, b.localPort, now, false)],
       sessions := s.sessions[k := i],
       udpCount := if isNew then s.udpCount + 1 else s.udpCount,
       srcCounts := if isNew then PerSource.Added(s.srcCounts, k.srcAddr, PerSource.Udp) else s.srcCounts,
       bib := s.bib[bi := b.(flows := b.flows[k.Tuple() := i], lastSeen := now)])
  }

  function Registered(s: State, k: SessionKey, now: Time): State
    requires k.Client() in s.bibs && s.bibs[k.Client()] < |s.bib|
  {
    RegisteredOn(s, k, s.bibs[k.Client()], now)
  }

  function Forwarded(s: State, i: nat, now: Time): State
    requires i < |s.sess| && s.sess[i].bib < |s.bib|
  {
    var x := s.sess[i];
    s.(sess := s.sess[i := x.(lastSeen := now)], bib := s.bib[x.bib := s.bib[x.bib].(lastSeen := now)])
  }

  /** Registered sessions idle since before the cutoff are closed. */
  function IdleClosed(s: State, cutoff: int): seq<Session> {
    seq(|s.sess|, i requires 0 <= i < |s.sess| =>
      if Listed(s, i) && s.sess[i].lastSeen < cutoff then s.sess[i].(closed := true) else s.sess[i])
  }

  function IdleDropped(bibs: map<BibKey, nat>, bib: seq<Bib>, cutoff: int): map<BibKey, nat>
    requires WfBibs(bibs, bib)
  {
    map c | c in bibs && !(bib[bibs[c]].lastSeen < cutoff) :: bibs[c]
  }

  /** One cleanup tick: close idle registered sessions, drop idle BIBs. */
  function Expired(s: State, now: Time): State
    requires WfBibs(s.bibs, s.bib)
  {
    if s.settings.udpTimeout <= 0 then s
    else
      var cutoff := now - s.settings.udpTimeout;
      s.(sess := IdleClosed(s, cutoff), bibs := IdleDropped(s.bibs, s.bib, cutoff))
  }

  /** The flow an inbound datagram belongs to: exact tuple, else the latest flow to that address if filtering allows. */
  ghost predicate Demuxes(s: State, b: nat, from: V4Tuple, r: Option<nat>)
    requires Wf(s) && b < |s.bib|
  {
    var flows := s.bib[b].flows;
    if from in flows then r == Some(flows[from])
    else if s.settings.filtering != AddressDependent then r == None
    else
      match r
      case None => forall t :: t in flows ==> t.addr != from.addr
      case Some(i) =>
        && (exists t :: t in flows && flows[t] == i && t.addr == from.addr)
        && (forall t :: t in flows && t.addr == from.addr ==> s.sess[flows[t]].lastSeen <= s.sess[i].lastSeen)
  }

  function Seconds(t: Time): real {
    t as real / 1000000000.0
  }

  /** An inbound datagram: relayed into its flow, or injected under endpoint-independent filtering, or dropped. */
  function Received(s: State, b: nat, from: V4Tuple, now: Time, target: Option<nat>): State
    requires b < |s.bib| && (target.Some? ==> target.value < |s.sess|)
  {
    match target
    case Some(i) => if s.sess[i].closed then s else s.(delivered := s.delivered + [Relayed(i, from)])
    case None =>
      if s.settings.filtering != EndpointIndependent then s
      else
        var (eif, ok) := SpendLazily(s.eif, Seconds(now), EIF_RATE, EIF_BURST);
        s.(eif := eif, delivered := if ok then s.delivered + [Injected(s.bib[b].client, from)] else s.delivered)
  }

  /** The session a quoted ICMPv4 error names: our address and port as source, the flow's tuple as destination. */
  predicate Quotes(s: State, k: SessionKey, local: V4Tuple, dst: V4Tuple)
    requires k in s.sessions && s.sessions[k] < |s.sess|
  {
    var x := s.sess[s.sessions[k]];
    x.localPort == local.port && x.localIP == local.addr && k.dstAddr == dst.addr && k.dstPort == dst.port
  }

  // ---------------------------------------------------------------------
  // Events and runs.

  datatype Event =
    | Arrive(key: SessionKey, victims: seq<SessionKey>, endpointOk: bool)
    | Setup(now: Time, key: SessionKey, bound: Option<V4Tuple>)
    | Forward(now: Time, i: nat)
    | Teardown(i: nat)
    | Tick(now: Time)
    | Reload(settings: Settings)
    | TcpOpen(src: Addr6)
    | TcpClose(src: Addr6)
    | Inbound(now: Time, b: nat, from: V4Tuple, target: Option<nat>)
    | QuotedError(local: V4Tuple, dst: V4Tuple, hit: Option<SessionKey>)

  /** The external address of a client's BIB. */
  function External(s: State, c: BibKey): V4Tuple
    requires Wf(s) && c in s.bibs
  {
    V4Tuple(s.bib[s.bibs[c]].localIP, s.bib[s.bibs[c]].localPort)
  }

  /**
   When an event can happen. Arrive: the stack hands over a datagram only if no
   endpoint has its tuple. Setup: the system gives a new socket an address that
   no open socket has.
   */
  ghost predicate Enabled(s: State, e: Event)
    requires Wf(s)
  {
    match e
    case Arrive(k, vs, _) =>
      && !HasEndpoint(s, k)
      && if OverSourceLimit(s, k.srcAddr) || s.settings.maxSessions <= 0 then vs == []
         else Victims(s, s.settings.maxSessions, EVICT_ATTEMPTS, vs)
    case Setup(_, k, bound) =>
      && k in s.pending
      && (bound.Some? && k.Client() !in s.bibs ==> forall c :: c in s.bibs ==> External(s, c) != bound.value)
    case Forward(_, i) => i < |s.sess|
    case Teardown(i) => i < |s.sess|
    case Inbound(_, b, from, target) =>
      && b < |s.bib|
      && s.bib[b].client in s.bibs && s.bibs[s.bib[b].client] == b
      && Demuxes(s, b, from, target)
    case QuotedError(local, dst, hit) =>
      if hit.Some? then hit.value in s.sessions && Quotes(s, hit.value, local, dst)
      else forall k :: k in s.sessions ==> !Quotes(s, k, local, dst)
    case _ => true
  }

  /** handleUDPForward up to CreateEndpoint: the two limits, evictions, and a pending setup if admitted. */
  ghost function Arrived(s: State, k: SessionKey, vs: seq<SessionKey>, endpointOk: bool): (r: State)
    requires Wf(s)
    ensures Wf(r)
  {
    if OverSourceLimit(s, k.srcAddr) then s
    else
      var room := EvictedAll(s, vs);
      if BelowLimit(room) && endpointOk then room.(pending := room.pending + {k}) else room
  }

  /** The goroutine of an admitted flow; without a BIB and without a socket it gives up. */
  ghost function SetUp(s: State, now: Time, k: SessionKey, bound: Option<V4Tuple>): (r: State)
    requires Wf(s)
    ensures Wf(r)
  {
    var done := s.(pending := s.pending - {k});
    if k.Client() in s.bibs then
      RegisteredWf(done, k, now);
      Registered(done, k, now)
    else if bound.None? then done
    else
      BoundWf(done, k.Client(), now, bound.value);
      var withBib := Bound(done, k.Client(), now, bound.value);
      RegisteredWf(withBib, k, now);
      Registered(withBib, k, now)
  }

  ghost function Step(s: State, e: Event): State
    requires Wf(s) && Enabled(s, e)
  {
    match e
    case Arrive(k, vs, endpointOk) => Arrived(s, k, vs, endpointOk)
    case Setup(now, k, bound) => SetUp(s, now, k, bound)
    case Forward(now, i) => Forwarded(s, i, now)
    case Teardown(i) => Deleted(s, i)
    case Tick(now) => Expired(s, now)
    case Reload(settings) => s.(settings := settings)
    case TcpOpen(src) => s.(srcCounts := PerSource.Added(s.srcCounts, src, PerSource.Tcp))
    case TcpClose(src) => s.(srcCounts := PerSource.Removed(s.srcCounts, src, PerSource.Tcp))
    case Inbound(now, b, from, target) => Received(s, b, from, now, target)
    case QuotedError(_, _, hit) =>
      if hit.Some? then s.(delivered := s.delivered + [ErrorTo(hit.value)]) else s
  }

  lemma BoundWf(s: State, c: BibKey, now: Time, addr: V4Tuple)
    requires Wf(s)
    ensures Wf(Bound(s, c, now, addr))
  {
    var r := Bound(s, c, now, addr);
    assert forall b :: 0 <= b < |s.bib| ==> r.bib[b] == s.bib[b];
  }

  lemma RegisteredWf(s: State, k: SessionKey, now: Time)
    requires Wf(s) && k.Client() in s.bibs
    ensures Wf(Registered(s, k, now))
  {
    var r := Registered(s, k, now);
    assert forall i :: 0 <= i < |s.sess| ==> r.sess[i] == s.sess[i];
    assert WfSessions(r.sess, r.bib);
    assert WfTable(r.sessions, r.sess);
    assert WfFlows(r.bib, r.sess);
  }

  lemma ForwardedWf(s: State, i: nat, now: Time)
    requires Wf(s) && i < |s.sess|
    ensures Wf(Forwarded(s, i, now))
  {
    var r := Forwarded(s, i, now);
    assert forall j :: 0 <= j < |s.sess| ==> r.sess[j].key == s.sess[j].key;
    assert WfSessions(r.sess, r.bib);
    assert WfFlows(r.bib, r.sess);
  }

  lemma ExpiredParts(s: State, now: Time)
    requires Wf(s)
    ensures WfBibs(s.bibs, s.bib)
    ensures s.settings.udpTimeout <= 0 ==> Expired(s, now) == s
    ensures s.settings.udpTimeout > 0 ==>
              var cutoff := now - s.settings.udpTimeout;
              Expired(s, now) == s.(sess := IdleClosed(s, cutoff), bibs := IdleDropped(s.bibs, s.bib, cutoff))
  {
  }

  lemma ExpiredWf(s: State, now: Time)
    requires Wf(s)
    ensures Wf(Expired(s, now))
  {
    var r := Expired(s, now);
    assert forall i :: 0 <= i < |s.sess| ==> r.sess[i].key == s.sess[i].key;
    assert WfFlows(r.bib, r.sess);
  }

  lemma StepWf(s: State, e: Event)
    requires Wf(s) && Enabled(s, e)
    ensures Wf(Step(s, e))
  {
    match e
    case Forward(now, i) => ForwardedWf(s, i, now);
    case Teardown(i) => DeletedWf(s, i);
    case Tick(now) => ExpiredWf(s, now);
    case _ =>
  }

  /** An event whose guard fails does not happen. */
  ghost function Next(s: State, e: Event): (r: State)
    requires Wf(s)
    ensures Wf(r)
  {
    if Enabled(s, e) then StepWf(s, e); Step(s, e) else s
  }

  /** The state a sequence of events leads to. */
  ghost function After(s: State, es: seq<Event>): (r: State)
    requires Wf(s)
    ensures Wf(r)
  {
    if es == [] then s else Next(After(s, es[..|es| - 1]), es[|es| - 1])
  }
}
