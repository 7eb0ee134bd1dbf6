/** Admission under the two session limits, and what inbound traffic cannot do. */
module UdpNatLimits {
  import opened Octets
  import opened UdpNat
  import opened UdpNatLaws
  import opened Cardinality
  import TB = TokenBucket

  // ---------------------------------------------------------------------
  // Admission evicts exactly as many sessions as it needs, the idlest first.

  function Min(a: int, b: int): int {
    if a < b then a else b
  }

  /** How many sessions have to go before a new one fits. */
  function Excess(count: int, max: int): int {
    if count < max then 0 else count - max + 1
  }

  /** The idle stamps of the registered sessions. */
  ghost function Stamps(s: State): map<SessionKey, Time>
    requires Wf(s)
  {
    map k | k in s.sessions :: s.sess[s.sessions[k]].lastSeen
  }

  lemma EvictedEffect(s: State, k: SessionKey)
    requires Wf(s) && k in s.sessions
    ensures var r := Evicted(s, k);
            && r.sessions == s.sessions - {k}
            && r.udpCount == s.udpCount - 1
            && r.settings == s.settings && r.pending == s.pending
            && |r.sess| == |s.sess|
            && forall i :: 0 <= i < |s.sess| ==> s.sess[i].lastSeen == r.sess[i].lastSeen
  {
  }

  /** The victims were registered, and what survives is exactly the rest, none of it idler than a victim. */
  ghost predicate IdlestWent(all: map<SessionKey, Time>, vs: seq<SessionKey>, left: map<SessionKey, Time>) {
    && (forall v :: v in vs ==> v in all)
    && (forall k :: k in left <==> k in all && k !in vs)
    && (forall k :: k in left ==> left[k] == all[k])
    && (forall v, k :: v in vs && k in left ==> all[v] <= left[k])
  }

  lemma OneMoreVictim(all: map<SessionKey, Time>, k: SessionKey, vs: seq<SessionKey>, left: map<SessionKey, Time>)
    requires k in all && forall j :: j in all ==> all[k] <= all[j]
    requires IdlestWent(all - {k}, vs, left)
    ensures IdlestWent(all, [k] + vs, left)
  {
    assert forall v :: v in [k] + vs <==> v == k || v in vs;
  }

  lemma VictimsUnfold(s: State, max: int, attempts: nat, vs: seq<SessionKey>)
    requires Wf(s) && vs != [] && Victims(s, max, attempts, vs)
    ensures s.udpCount >= max && attempts > 0
    ensures vs[0] in s.sessions && IsOldest(s, vs[0])
    ensures Victims(Evicted(s, vs[0]), max, attempts - 1, vs[1..])
    ensures EvictedAll(s, vs) == EvictedAll(Evicted(s, vs[0]), vs[1..])
  {
  }

  lemma EvictedCounted(s: State, k: SessionKey)
    requires Wf(s) && Counted(s) && k in s.sessions
    ensures Counted(Evicted(s, k)) && Evicted(s, k).udpCount == s.udpCount - 1
  {
    DeletedCounted(s, s.sessions[k]);
  }

  lemma {:induction false} AdmissionCounts(s: State, max: int, attempts: nat, vs: seq<SessionKey>)
    requires Wf(s) && Counted(s) && max > 0 && Victims(s, max, attempts, vs)
    ensures |vs| == Min(attempts, Excess(s.udpCount, max))
    ensures EvictedAll(s, vs).udpCount == s.udpCount - |vs|
    decreases attempts
  {
    hide *;
    if vs == [] {
      NoVictim(s, max, attempts, vs);
    } else {
      VictimsUnfold(s, max, attempts, vs);
      EvictedCounted(s, vs[0]);
      AdmissionCounts(Evicted(s, vs[0]), max, attempts - 1, vs[1..]);
      OneMore(s.udpCount, max, attempts);
    }
  }

  lemma OneMore(count: int, max: int, attempts: nat)
    requires attempts > 0 && count >= max
    ensures Min(attempts, Excess(count, max)) == 1 + Min(attempts - 1, Excess(count - 1, max))
  {
  }

  lemma {:induction false} IdlestGoFirst(s: State, max: int, attempts: nat, vs: seq<SessionKey>)
    requires Wf(s) && Counted(s) && max > 0 && Victims(s, max, attempts, vs)
    ensures IdlestWent(Stamps(s), vs, Stamps(EvictedAll(s, vs)))
    decreases attempts
  {
    hide *;
    if vs == [] {
      NoVictim(s, max, attempts, vs);
    } else {
      VictimsUnfold(s, max, attempts, vs);
      EvictedCounted(s, vs[0]);
      FirstVictim(s, vs[0]);
      IdlestGoFirst(Evicted(s, vs[0]), max, attempts - 1, vs[1..]);
      OneMoreVictim(Stamps(s), vs[0], vs[1..], Stamps(EvictedAll(s, vs)));
      assert vs == [vs[0]] + vs[1..];
    }
  }

  /**
   With c sessions and a limit of max, admission evicts min(attempts, c-max+1)
   of them, the least recently active ones, and succeeds exactly when that
   brings the count below the limit.
   */
  lemma AdmissionIsExact(s: State, max: int, attempts: nat, vs: seq<SessionKey>)
    requires Wf(s) && Counted(s) && max > 0 && Victims(s, max, attempts, vs)
    ensures var r := EvictedAll(s, vs);
            && |vs| == Min(attempts, Excess(s.udpCount, max))
            && r.udpCount == s.udpCount - |vs|
            && (r.udpCount < max <==> Excess(s.udpCount, max) <= attempts)
            && IdlestWent(Stamps(s), vs, Stamps(r))
  {
    AdmissionCounts(s, max, attempts, vs);
    IdlestGoFirst(s, max, attempts, vs);
  }

  lemma NoVictim(s: State, max: int, attempts: nat, vs: seq<SessionKey>)
    requires Wf(s) && Counted(s) && max > 0 && Victims(s, max, attempts, vs) && vs == []
    ensures Min(attempts, Excess(s.udpCount, max)) == 0
    ensures EvictedAll(s, vs) == s
    ensures IdlestWent(Stamps(s), vs, Stamps(s))
  {
    assert s.sessions == map[] ==> s.udpCount == 0;
  }

  lemma FirstVictim(s: State, k: SessionKey)
    requires Wf(s) && k in s.sessions && IsOldest(s, k)
    ensures k in Stamps(s) && forall j :: j in Stamps(s) ==> Stamps(s)[k] <= Stamps(s)[j]
    ensures Stamps(Evicted(s, k)) == Stamps(s) - {k}
  {
    hide *;
    EvictedEffect(s, k);
    StampsWithout(s, Evicted(s, k), k);
    OldestStamp(s, k);
  }

  lemma OldestStamp(s: State, k: SessionKey)
    requires Wf(s) && IsOldest(s, k)
    ensures k in Stamps(s) && forall j :: j in Stamps(s) ==> Stamps(s)[k] <= Stamps(s)[j]
  {
  }

  lemma StampsWithout(s: State, r: State, k: SessionKey)
    requires Wf(s) && Wf(r) && |r.sess| == |s.sess| && r.sessions == s.sessions - {k}
    requires forall i :: 0 <= i < |s.sess| ==> s.sess[i].lastSeen == r.sess[i].lastSeen
    ensures Stamps(r) == Stamps(s) - {k}
  {
  }

  // ---------------------------------------------------------------------
  // The limits hold up to the setups in flight.

  function PendingOf(pending: set<SessionKey>, src: Addr6): set<SessionKey> {
    set k | k in pending && k.srcAddr == src
  }

  /** Sessions and setups in flight, of all sources or of one. */
  function Load(s: State, src: Option<Addr6>): int {
    match src
    case None => |s.sessions.Keys| + |s.pending|
    case Some(a) => |SessionsOf(s.sessions, a)| + |PendingOf(s.pending, a)|
  }

  function InFlight(s: State, src: Option<Addr6>): int {
    match src
    case None => |s.pending|
    case Some(a) => |PendingOf(s.pending, a)|
  }

  function LimitOf(settings: Settings, src: Option<Addr6>): int {
    if src.None? then settings.maxSessions else settings.perSrcMax
  }

  /** Fewer sessions and no more setups mean no more load. */
  lemma LessLoad(s: State, r: State, src: Option<Addr6>)
    requires r.sessions.Keys <= s.sessions.Keys && r.pending <= s.pending
    ensures Load(r, src) <= Load(s, src)
  {
    match src
    case None =>
      SubsetSize(r.sessions.Keys, s.sessions.Keys);
      SubsetSize(r.pending, s.pending);
    case Some(a) =>
      SubsetSize(SessionsOf(r.sessions, a), SessionsOf(s.sessions, a));
      SubsetSize(PendingOf(r.pending, a), PendingOf(s.pending, a));
  }

  lemma MovedOne<T>(from: set<T>, k: T, from': set<T>, to: set<T>, to': set<T>)
    requires k in from && from' == from - {k} && to' <= to + {k}
    ensures |to'| + |from'| <= |to| + |from|
  {
    SubsetSize(to', to + {k});
  }

  lemma SetUpEffect(s: State, now: Time, k: SessionKey, bound: Option<V4Tuple>)
    requires Wf(s)
    ensures var r := SetUp(s, now, k, bound);
            r.pending == s.pending - {k} && r.sessions.Keys <= s.sessions.Keys + {k}
  {
  }

  /** A setup that completes turns from in flight into at most one session. */
  lemma SetUpLoad(s: State, now: Time, k: SessionKey, bound: Option<V4Tuple>, src: Option<Addr6>)
    requires Wf(s) && k in s.pending
    ensures Load(SetUp(s, now, k, bound), src) <= Load(s, src)
  {
    hide Wf, SetUp;
    var r := SetUp(s, now, k, bound);
    SetUpEffect(s, now, k, bound);
    match src
    case None => MovedOne(s.pending, k, r.pending, s.sessions.Keys, r.sessions.Keys);
    case Some(a) =>
      var before, after := SessionsOf(s.sessions, a), SessionsOf(r.sessions, a);
      if k.srcAddr == a {
        assert PendingOf(r.pending, a) == PendingOf(s.pending, a) - {k};
        MovedOne(PendingOf(s.pending, a), k, PendingOf(r.pending, a), before, after);
      } else {
        assert PendingOf(r.pending, a) == PendingOf(s.pending, a);
        SubsetSize(after, before);
      }
  }

  lemma {:induction false} EvictedAllShrinks(s: State, vs: seq<SessionKey>)
    requires Wf(s)
    ensures var r := EvictedAll(s, vs);
            r.sessions.Keys <= s.sessions.Keys && r.pending == s.pending && r.settings == s.settings
    decreases |vs|
  {
    if vs != [] {
      if vs[0] in s.sessions {
        EvictedEffect(s, vs[0]);
      }
      EvictedAllShrinks(if vs[0] in s.sessions then Evicted(s, vs[0]) else s, vs[1..]);
    }
  }

  lemma ArrivedLoad(s: State, k: SessionKey, vs: seq<SessionKey>, ok: bool, src: Option<Addr6>, p: int)
    requires Wf(s) && Counted(s) && LimitOf(s.settings, src) > 0
    requires Load(s, src) <= LimitOf(s.settings, src) - 1 + p
    requires InFlight(Arrived(s, k, vs, ok), src) <= p
    ensures Load(Arrived(s, k, vs, ok), src) <= LimitOf(s.settings, src) - 1 + p
  {
    var r := Arrived(s, k, vs, ok);
    if OverSourceLimit(s, k.srcAddr) {
      assert r == s;
    } else {
      var room := EvictedAll(s, vs);
      EvictedAllShrinks(s, vs);
      LessLoad(s, room, src);
      EvictedAllCounted(s, vs);
      match src
      case None =>
      case Some(a) =>
        if k.srcAddr != a {
          assert PendingOf(r.pending, a) == PendingOf(s.pending, a);
        } else {
          SubsetSize(SessionsOf(r.sessions, a), SessionsOf(s.sessions, a));
        }
    }
  }

  lemma NextLoad(s: State, e: Event, src: Option<Addr6>, p: int)
    requires Wf(s) && Counted(s) && LimitOf(s.settings, src) > 0
    requires Load(s, src) <= LimitOf(s.settings, src) - 1 + p
    requires InFlight(Next(s, e), src) <= p
    ensures Load(Next(s, e), src) <= LimitOf(s.settings, src) - 1 + p
  {
    hide Wf, Counted, Load, InFlight;
    if Enabled(s, e) {
      match e
      case Arrive(k, vs, ok) => ArrivedLoad(s, k, vs, ok, src, p);
      case Setup(now, k, bound) => SetUpLoad(s, now, k, bound, src);
      case _ => LessLoad(s, Next(s, e), src);
    }
  }

  /** The limit concerned never changes during the run; timeouts and filtering may. */
  ghost predicate FixedLimit(settings: Settings, es: seq<Event>, src: Option<Addr6>) {
    forall e :: e in es && e.Reload? ==> LimitOf(e.settings, src) == LimitOf(settings, src)
  }

  lemma {:induction false} SettingsFollowReloads(settings: Settings, es: seq<Event>, src: Option<Addr6>)
    requires FixedLimit(settings, es, src)
    ensures LimitOf(After(Init(settings), es).settings, src) == LimitOf(settings, src)
  {
    if es != [] {
      var front, e := es[..|es| - 1], es[|es| - 1];
      SettingsFollowReloads(settings, front, src);
      assert e in es;
      NextSettings(After(Init(settings), front), e);
    }
  }

  lemma NextSettings(s: State, e: Event)
    requires Wf(s)
    ensures Next(s, e).settings == if e.Reload? then e.settings else s.settings
  {
    hide Wf;
    if e.Arrive? {
      EvictedAllShrinks(s, e.victims);
    }
  }

  /**
   With a fixed limit M and never more than p setups in flight, sessions plus
   setups stay within M - 1 + p: globally (src is None) and per source.
   */
  lemma {:induction false} LimitHolds(settings: Settings, es: seq<Event>, src: Option<Addr6>, p: nat)
    requires LimitOf(settings, src) > 0 && FixedLimit(settings, es, src)
    requires forall n :: 0 <= n <= |es| ==> InFlight(After(Init(settings), es[..n]), src) <= p
    ensures Load(After(Init(settings), es), src) <= LimitOf(settings, src) - 1 + p
  {
    if es == [] {
      assert Load(Init(settings), src) == 0 by {
        if src.Some? {
          assert SessionsOf(map[], src.value) == {} && PendingOf({}, src.value) == {};
        }
      }
    } else {
      var front, e := es[..|es| - 1], es[|es| - 1];
      forall n | 0 <= n <= |front|
        ensures InFlight(After(Init(settings), front[..n]), src) <= p
      {
        assert front[..n] == es[..n];
      }
      assert es[..|es|] == es;
      LimitHolds(settings, front, src, p);
      CountersAreExact(settings, front);
      SettingsFollowReloads(settings, front, src);
      NextLoad(After(Init(settings), front), e, src, p);
    }
  }

  // ---------------------------------------------------------------------
  // Inbound traffic does not touch the translator's state.

  predicate FromOutside(e: Event) {
    e.Inbound? || e.QuotedError?
  }

  /** The run with everything the IPv4 side sent removed. */
  function Outbound(es: seq<Event>): seq<Event> {
    if es == [] then []
    else Outbound(es[..|es| - 1]) + if FromOutside(es[|es| - 1]) then [] else [es[|es| - 1]]
  }

  /** A state with another injection budget and another record of deliveries. */
  function WithIo(s: State, x: State): State {
    s.(eif := x.eif, delivered := x.delivered)
  }

  lemma {:induction false} EvictionIgnoresIo(s: State, x: State, vs: seq<SessionKey>)
    requires Wf(s)
    ensures Wf(WithIo(s, x)) && EvictedAll(WithIo(s, x), vs) == WithIo(EvictedAll(s, vs), x)
    decreases |vs|
  {
    if vs != [] {
      if vs[0] in s.sessions {
        assert Evicted(WithIo(s, x), vs[0]) == WithIo(Evicted(s, vs[0]), x);
        EvictionIgnoresIo(Evicted(s, vs[0]), x, vs[1..]);
      } else {
        EvictionIgnoresIo(s, x, vs[1..]);
      }
    }
  }

  lemma EvictedIgnoresIo(s: State, x: State, k: SessionKey)
    requires Wf(s) && Wf(WithIo(s, x)) && k in s.sessions
    ensures Evicted(WithIo(s, x), k) == WithIo(Evicted(s, k), x)
  {
  }

  lemma {:induction false} VictimsIgnoreIo(s: State, x: State, max: int, attempts: nat, vs: seq<SessionKey>)
    requires Wf(s) && Wf(WithIo(s, x))
    ensures Victims(WithIo(s, x), max, attempts, vs) == Victims(s, max, attempts, vs)
    decreases attempts
  {
    hide Wf, Evicted;
    if !(s.udpCount < max || attempts == 0 || s.sessions == map[]) && vs != [] && IsOldest(s, vs[0]) {
      EvictedIgnoresIo(s, x, vs[0]);
      VictimsIgnoreIo(Evicted(s, vs[0]), x, max, attempts - 1, vs[1..]);
    }
  }

  lemma ArriveIgnoresIo(s: State, x: State, k: SessionKey, vs: seq<SessionKey>, ok: bool)
    requires Wf(s) && Wf(WithIo(s, x))
    ensures Enabled(WithIo(s, x), Arrive(k, vs, ok)) == Enabled(s, Arrive(k, vs, ok))
    ensures Arrived(WithIo(s, x), k, vs, ok) == WithIo(Arrived(s, k, vs, ok), x)
  {
    hide Wf, EvictedAll, Victims;
    VictimsIgnoreIo(s, x, s.settings.maxSessions, EVICT_ATTEMPTS, vs);
    EvictionIgnoresIo(s, x, vs);
  }

  lemma BoundIgnoresIo(s: State, x: State, c: BibKey, now: Time, addr: V4Tuple)
    requires Wf(s)
    ensures Bound(WithIo(s, x), c, now, addr) == WithIo(Bound(s, c, now, addr), x)
  {
  }

  lemma RegisteredIgnoresIo(s: State, x: State, k: SessionKey, now: Time)
    requires Wf(s) && k.Client() in s.bibs
    ensures Registered(WithIo(s, x), k, now) == WithIo(Registered(s, k, now), x)
  {
  }

  lemma SetUpIgnoresIo(s: State, x: State, now: Time, k: SessionKey, bound: Option<V4Tuple>)
    requires Wf(s) && Wf(WithIo(s, x))
    ensures SetUp(WithIo(s, x), now, k, bound) == WithIo(SetUp(s, now, k, bound), x)
  {
    hide Wf, Bound, Registered;
    var done := s.(pending := s.pending - {k});
    assert WithIo(s, x).(pending := s.pending - {k}) == WithIo(done, x);
    assert Wf(done) by { PendingIsNotWf(s, done); }
    if k.Client() in s.bibs {
      RegisteredIgnoresIo(done, x, k, now);
    } else if bound.Some? {
      BoundIgnoresIo(done, x, k.Client(), now, bound.value);
      BoundWf(done, k.Client(), now, bound.value);
      RegisteredIgnoresIo(Bound(done, k.Client(), now, bound.value), x, k, now);
    }
  }

  lemma PendingIsNotWf(s: State, r: State)
    requires Wf(s) && r == s.(pending := r.pending)
    ensures Wf(r)
  {
  }

  lemma EnablingIgnoresIo(s: State, x: State, e: Event)
    requires Wf(s) && Wf(WithIo(s, x)) && !FromOutside(e)
    ensures Enabled(WithIo(s, x), e) == Enabled(s, e)
  {
    match e
    case Arrive(k, vs, ok) =>
      hide Wf;
      ArriveIgnoresIo(s, x, k, vs, ok);
    case Setup(now, k, bound) =>
      assert forall c :: c in s.bibs ==> External(WithIo(s, x), c) == External(s, c);
    case _ =>
  }

  /** No step but the inbound ones reads the injection budget or the deliveries. */
  lemma NextIgnoresIo(s: State, x: State, e: Event)
    requires Wf(s) && !FromOutside(e)
    ensures Wf(WithIo(s, x)) && Next(WithIo(s, x), e) == WithIo(Next(s, e), x)
  {
    assert Wf(WithIo(s, x));
    EnablingIgnoresIo(s, x, e);
    hide Wf, Arrived, SetUp, Deleted, Victims, Expired;
    if Enabled(s, e) {
      match e
      case Arrive(k, vs, ok) => ArriveIgnoresIo(s, x, k, vs, ok);
      case Setup(now, k, bound) => SetUpIgnoresIo(s, x, now, k, bound);
      case Teardown(i) => DeletedIgnoresIo(s, x, i);
      case Tick(now) => ExpiredIgnoresIo(s, x, now);
      case _ =>
    }
  }

  lemma ExpiredIgnoresIo(s: State, x: State, now: Time)
    requires Wf(s)
    ensures Expired(WithIo(s, x), now) == WithIo(Expired(s, now), x)
  {
    var a, b := Expired(WithIo(s, x), now), WithIo(Expired(s, now), x);
    assert a.sess == b.sess && a.bibs == b.bibs;
  }

  lemma DeletedIgnoresIo(s: State, x: State, i: nat)
    requires Wf(s) && i < |s.sess|
    ensures Deleted(WithIo(s, x), i) == WithIo(Deleted(s, i), x)
  {
  }

  /** An inbound step changes nothing else. */
  lemma InboundChangesOnlyIo(s: State, e: Event)
    requires Wf(s) && FromOutside(e)
    ensures Next(s, e) == WithIo(s, Next(s, e))
  {
  }

  /**
   Non-interference (section 4.3 of RFC 4787): drop every inbound datagram,
   injection and quoted error from a run, in any filtering mode, and the
   sessions, BIBs, flows, counters and stamps it ends with are the same.
   */
  lemma {:induction false} InboundDoesNotInterfere(settings: Settings, es: seq<Event>)
    ensures var s := After(Init(settings), es);
            After(Init(settings), Outbound(es)) == WithIo(s, Init(settings))
  {
    if es != [] {
      var front, e := es[..|es| - 1], es[|es| - 1];
      InboundDoesNotInterfere(settings, front);
      var s := After(Init(settings), front);
      if FromOutside(e) {
        InboundChangesOnlyIo(s, e);
        assert Outbound(es) == Outbound(front);
      } else {
        NextIgnoresIo(s, Init(settings), e);
        assert Outbound(es)[..|Outbound(es)| - 1] == Outbound(front);
      }
    }
  }

  // ---------------------------------------------------------------------
  // Unsolicited datagrams.

  /** A datagram that belongs to no flow, while filtering is endpoint-independent. */
  ghost predicate Unsolicited(s: State, e: Event)
    requires Wf(s)
  {
    e.Inbound? && Enabled(s, e) && e.target.None? && s.settings.filtering == EndpointIndependent
  }

  /** When they came. */
  ghost function UnsolicitedTimes(s: State, es: seq<Event>): seq<real>
    requires Wf(s)
  {
    if es == [] then []
    else
      var before, e := After(s, es[..|es| - 1]), es[|es| - 1];
      UnsolicitedTimes(s, es[..|es| - 1]) + if Unsolicited(before, e) then [e.now as real / 1000000000.0] else []
  }

  /** The budget is where these times leave it. */
  ghost predicate Spent(l: TB.Lazy, ts: seq<real>) {
    if ts == [] then l == TB.FRESH
    else
      var b := TB.After(ts, TB.EIF_RATE, TB.EIF_BURST, |ts| - 1);
      l == TB.Lazy(b.tokens, Some(b.last))
  }

  lemma SpentOneMore(l: TB.Lazy, ts: seq<real>, now: real)
    requires Spent(l, ts)
    ensures Spent(TB.SpendLazily(l, now, TB.EIF_RATE, TB.EIF_BURST).0, ts + [now])
    ensures TB.SpendLazily(l, now, TB.EIF_RATE, TB.EIF_BURST).1 == TB.Allowed(ts + [now], TB.EIF_RATE, TB.EIF_BURST, |ts|)
  {
    TB.Continues(ts, now, TB.EIF_RATE, TB.EIF_BURST);
  }

  lemma {:induction false} EvictedAllKeepsIo(s: State, vs: seq<SessionKey>)
    requires Wf(s)
    ensures EvictedAll(s, vs).eif == s.eif && EvictedAll(s, vs).delivered == s.delivered
    decreases |vs|
  {
    hide Wf;
    if vs != [] {
      EvictedAllKeepsIo(if vs[0] in s.sessions then Evicted(s, vs[0]) else s, vs[1..]);
    }
  }

  /** Nothing but traffic from outside spends the budget or delivers anything. */
  lemma NextKeepsIo(s: State, e: Event)
    requires Wf(s) && !Unsolicited(s, e)
    ensures Next(s, e).eif == s.eif && (!e.Inbound? && !e.QuotedError? ==> Next(s, e).delivered == s.delivered)
  {
    hide Wf;
    if e.Arrive? {
      EvictedAllKeepsIo(s, e.victims);
    }
  }

  lemma NextSpends(s: State, e: Event, ts: seq<real>)
    requires Wf(s) && Spent(s.eif, ts)
    ensures Spent(Next(s, e).eif, ts + if Unsolicited(s, e) then [e.now as real / 1000000000.0] else [])
  {
    hide Spent, Wf, TB.SpendLazily;
    if Unsolicited(s, e) {
      SpentOneMore(s.eif, ts, Seconds(e.now));
    } else {
      NextKeepsIo(s, e);
      assert ts + [] == ts;
    }
  }

  lemma {:induction false} BudgetFollowsTimes(settings: Settings, es: seq<Event>)
    ensures Spent(After(Init(settings), es).eif, UnsolicitedTimes(Init(settings), es))
  {
    hide Next, Unsolicited, TB.After;
    if es != [] {
      var front := es[..|es| - 1];
      BudgetFollowsTimes(settings, front);
      hide Spent;
      NextSpends(After(Init(settings), front), es[|es| - 1], UnsolicitedTimes(Init(settings), front));
    }
  }

  /**
   In every run an unsolicited datagram is injected toward the client of the
   BIB it came in on exactly when the token-bucket law, at 100 a second and 200
   at once, allows it after all unsolicited datagrams before it; under the other
   two filterings it is dropped.
   */
  lemma UnsolicitedMeetsTheLaw(settings: Settings, es: seq<Event>, now: Time, b: nat, from: V4Tuple)
    requires var s := After(Init(settings), es); Enabled(s, Inbound(now, b, from, None))
    ensures var s := After(Init(settings), es);
            var ts := UnsolicitedTimes(Init(settings), es) + [now as real / 1000000000.0];
            b < |s.bib| && Next(s, Inbound(now, b, from, None)).delivered
              == s.delivered + if s.settings.filtering == EndpointIndependent && TB.Allowed(ts, 100.0, 200.0, |ts| - 1)
                               then [Injected(s.bib[b].client, from)] else []
  {
    hide After;
    var s := After(Init(settings), es);
    BudgetFollowsTimes(settings, es);
    SpentOneMore(s.eif, UnsolicitedTimes(Init(settings), es), Seconds(now));
    hide UnsolicitedTimes, TB.SpendLazily, TB.Allowed, Spent;
  }
}
