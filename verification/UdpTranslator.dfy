/**
 The translator object: the tables of src/nat64/udp.go updated in place, each
 method proved to take exactly one step of the state machine in UdpNat. The
 loops of the original range over its maps in an unspecified order, and so do
 these.
 */
module UdpTranslator {
  import opened Octets
  import opened TokenBucket
  import opened UdpNat
  import PerSource

  // ---------------------------------------------------------------------
  // Evictions seen from the loop: the ones made so far.

  ghost predicate EvictedSoFar(s: State, max: int, attempts: nat, vs: seq<SessionKey>, r: State)
    requires Wf(s)
    decreases |vs|
  {
    if vs == [] then r == s
    else
      && s.udpCount >= max && attempts > 0
      && IsOldest(s, vs[0])
      && EvictedSoFar(Evicted(s, vs[0]), max, attempts - 1, vs[1..], r)
  }

  lemma {:induction false} OneMoreEviction(s: State, max: int, attempts: nat, vs: seq<SessionKey>, r: State, k: SessionKey)
    requires Wf(s) && Wf(r) && EvictedSoFar(s, max, attempts, vs, r)
    requires r.udpCount >= max && |vs| < attempts && IsOldest(r, k)
    ensures EvictedSoFar(s, max, attempts, vs + [k], Evicted(r, k))
    decreases |vs|
  {
    hide Evicted, Wf;
    if vs == [] {
      assert (vs + [k])[1..] == [];
    } else {
      OneMoreEviction(Evicted(s, vs[0]), max, attempts - 1, vs[1..], r, k);
      assert (vs + [k])[1..] == vs[1..] + [k];
    }
  }

  /** Once the loop stops, the evictions made are those the state machine calls for. */
  lemma {:induction false} EvictionsDone(s: State, max: int, attempts: nat, vs: seq<SessionKey>, r: State)
    requires Wf(s) && EvictedSoFar(s, max, attempts, vs, r)
    requires r.udpCount < max || |vs| == attempts || r.sessions == map[]
    ensures Victims(s, max, attempts, vs) && EvictedAll(s, vs) == r
    decreases |vs|
  {
    hide Evicted, Wf;
    if vs != [] {
      EvictionsDone(Evicted(s, vs[0]), max, attempts - 1, vs[1..], r);
    }
  }

  class UdpTranslator {
    var settings: Settings
    var sessions: map<SessionKey, nat>
    var bibs: map<BibKey, nat>
    var sess: seq<Session>
    var bib: seq<Bib>
    var udpCount: int
    const srcCounts: PerSource.SrcTracker
    var pending: set<SessionKey>
    var eif: Lazy
    var delivered: seq<Delivery>

    ghost function View(): State
      reads this, srcCounts
    {
      State(settings, sessions, bibs, sess, bib, udpCount, srcCounts.counts, pending, eif, delivered)
    }

    ghost predicate Valid()
      reads this, srcCounts
    {
      Wf(View())
    }

    constructor (settings: Settings)
      ensures Valid() && View() == Init(settings) && fresh(srcCounts)
    {
      this.settings := settings;
      sessions, bibs, sess, bib, udpCount := map[], map[], [], [], 0;
      srcCounts := new PerSource.SrcTracker();
      pending, eif, delivered := {}, FRESH, [];
    }

    method Reload(settings: Settings)
      requires Valid()
      modifies this
      ensures Valid() && View() == old(View()).(settings := settings)
    {
      this.settings := settings;
    }

    method DeleteSession(i: nat)
      requires Valid() && i < |sess|
      modifies this, srcCounts
      ensures Valid() && View() == Deleted(old(View()), i)
    {
      DeletedWf(View(), i);
      var x := sess[i];
      assert x.bib < |bib|;
      hide Wf;
      sess := sess[i := x.(closed := true)];
      if x.key in sessions && sessions[x.key] == i {
        sessions := sessions - {x.key};
        udpCount := udpCount - 1;
        srcCounts.Remove(x.key.srcAddr, PerSource.Udp);
        var b := bib[x.bib];
        bib := bib[x.bib := b.(flows := Without(b.flows, x.key.Tuple(), i))];
      }
    }

    /** Finds a least recently active session, if there is any. */
    method FindOldest() returns (oldest: Option<SessionKey>)
      requires Valid()
      ensures oldest.None? <==> sessions == map[]
      ensures oldest.Some? ==> IsOldest(View(), oldest.value)
    {
      oldest := None;
      var oldestSeen := MAX_INT64;
      var todo := sessions.Keys;
      while todo != {}
        invariant todo <= sessions.Keys
        invariant oldest.None? ==> todo == sessions.Keys && oldestSeen == MAX_INT64
        invariant oldest.Some? ==> oldest.value in sessions && oldestSeen == sess[sessions[oldest.value]].lastSeen
        invariant forall k :: k in sessions && k !in todo ==> oldestSeen <= sess[sessions[k]].lastSeen
        decreases |todo|
      {
        var k :| k in todo;
        var seen := sess[sessions[k]].lastSeen;
        if seen < oldestSeen {
          oldestSeen, oldest := seen, Some(k);
        }
        todo := todo - {k};
      }
    }

    /** Evicts a least recently active session. */
    method EvictOldest() returns (ghost victim: Option<SessionKey>)
      requires Valid()
      modifies this, srcCounts
      ensures Valid()
      ensures victim.None? ==> old(sessions) == map[] && View() == old(View())
      ensures victim.Some? ==> IsOldest(old(View()), victim.value) && View() == Evicted(old(View()), victim.value)
    {
      var oldest := FindOldest();
      victim := oldest;
      if oldest.Some? {
        DeleteSession(sessions[oldest.value]);
      }
    }

    /** The global limit: eviction until a slot is free, at most eight times. */
    method Admit() returns (ok: bool, ghost victims: seq<SessionKey>)
      requires Valid()
      modifies this, srcCounts
      ensures Valid() && ok == BelowLimit(View())
      ensures View() == EvictedAll(old(View()), victims)
      ensures if old(settings).maxSessions <= 0 then victims == []
              else Victims(old(View()), old(settings).maxSessions, EVICT_ATTEMPTS, victims)
    {
      var max := settings.maxSessions;
      victims := [];
      if max <= 0 {
        return true, [];
      }
      ghost var start := View();
      var attempt := 0;
      while attempt < EVICT_ATTEMPTS && !(udpCount < max)
        invariant 0 <= attempt <= EVICT_ATTEMPTS && Valid() && settings.maxSessions == max
        invariant EvictedSoFar(start, max, EVICT_ATTEMPTS, victims, View())
        invariant |victims| == attempt || (sessions == map[] && |victims| <= attempt)
      {
        ghost var before := View();
        ghost var victim := EvictOldest();
        if victim.Some? {
          OneMoreEviction(start, max, EVICT_ATTEMPTS, victims, before, victim.value);
          victims := victims + [victim.value];
        }
        attempt := attempt + 1;
      }
      EvictionsDone(start, max, EVICT_ATTEMPTS, victims, View());
      ok := udpCount < max;
    }

    /** A datagram no endpoint matched, already accepted by policy: shed it, or make room and start a setup. */
    method HandleForward(key: SessionKey, endpointOk: bool) returns (admitted: bool, ghost victims: seq<SessionKey>)
      requires Valid()
      modifies this, srcCounts
      ensures Valid() && View() == Arrived(old(View()), key, victims, endpointOk)
      ensures admitted == (!old(OverSourceLimit(View(), key.srcAddr)) && BelowLimit(View()))
      ensures if old(OverSourceLimit(View(), key.srcAddr)) || old(settings).maxSessions <= 0 then victims == []
              else Victims(old(View()), old(settings).maxSessions, EVICT_ATTEMPTS, victims)
    {
      victims := [];
      var c := srcCounts.Count(key.srcAddr, PerSource.Udp);
      if settings.perSrcMax > 0 && c >= settings.perSrcMax {
        return false, [];
      }
      admitted, victims := Admit();
      if admitted && endpointOk {
        pending := pending + {key};
      }
    }

    /** The client's BIB, created on first use with the address the system bound. */
    method GetOrCreateBib(client: BibKey, now: Time, addr: V4Tuple) returns (b: nat)
      requires Valid()
      modifies this
      ensures Valid() && View() == Bound(old(View()), client, now, addr)
      ensures client in bibs && b == bibs[client]
    {
      BoundWf(View(), client, now, addr);
      if client in bibs {
        return bibs[client];
      }
      b := |bib|;
      bib := bib + [Bib(client, addr.addr, addr.port, now, map[])];
      bibs := bibs[client := b];
    }

    /** Registers the session of an admitted flow on the client's BIB. */
    method Register(key: SessionKey, b: nat, now: Time)
      requires Valid() && key.Client() in bibs && b == bibs[key.Client()]
      modifies this, srcCounts
      ensures Valid() && View() == Registered(old(View()), key, now)
    {
      RegisteredWf(View(), key, now);
      var i := |sess|;
      sess := sess + [Session(key, b, bib[b].localIP, bib[b].localPort, now, false)];
      var loaded := key in sessions;
      sessions := sessions[key := i];
      if !loaded {
        udpCount := udpCount + 1;
        srcCounts.Add(key.srcAddr, PerSource.Udp);
      }
      bib := bib[b := bib[b].(flows := bib[b].flows[key.Tuple() := i], lastSeen := now)];
    }

    /** The goroutine of an admitted flow, as one step. */
    method CompleteSetup(key: SessionKey, now: Time, bound: Option<V4Tuple>)
      requires Valid() && key in pending
      modifies this, srcCounts
      ensures Valid() && View() == SetUp(old(View()), now, key, bound)
    {
      hide Registered, Bound;
      pending := pending - {key};
      if key.Client() in bibs {
        Register(key, bibs[key.Client()], now);
      } else if bound.Some? {
        var b := GetOrCreateBib(key.Client(), now, bound.value);
        Register(key, b, now);
      }
    }

    /** One datagram from the client: both activity stamps move. */
    method ForwardDatagram(i: nat, now: Time)
      requires Valid() && i < |sess|
      modifies this
      ensures Valid() && View() == Forwarded(old(View()), i, now)
    {
      ForwardedWf(View(), i, now);
      sess := sess[i := sess[i].(lastSeen := now)];
      bib := bib[sess[i].bib := bib[sess[i].bib].(lastSeen := now)];
    }

    /** The session loop of a cleanup tick. */
    method CloseIdle(cutoff: int)
      requires Valid()
      modifies this`sess
      ensures View() == old(View()).(sess := IdleClosed(old(View()), cutoff))
    {
      hide WfSessions, WfBibs, WfFlows;
      var todo := sessions.Keys;
      while todo != {}
        invariant todo <= sessions.Keys && |sess| == |old(sess)|
        invariant forall i :: 0 <= i < |sess| ==>
                    sess[i] == if old(Listed(View(), i)) && old(sess)[i].key !in todo && old(sess)[i].lastSeen < cutoff
                               then old(sess)[i].(closed := true) else old(sess)[i]
        decreases |todo|
      {
        var k :| k in todo;
        var i := sessions[k];
        assert old(sess)[i].key == k;
        if sess[i].lastSeen < cutoff {
          sess := sess[i := sess[i].(closed := true)];
        }
        todo := todo - {k};
      }
      assert sess == IdleClosed(old(View()), cutoff);
    }

    /** The BIB loop of a cleanup tick. */
    method DropIdleBibs(cutoff: int)
      requires WfBibs(View().bibs, View().bib)
      modifies this`bibs
      ensures View() == old(View()).(bibs := IdleDropped(old(View()).bibs, old(View()).bib, cutoff))
    {
      var todo := bibs.Keys;
      while todo != {}
        invariant todo <= old(bibs).Keys
        invariant forall c :: c in bibs <==> c in old(bibs) && (c in todo || !(bib[old(bibs)[c]].lastSeen < cutoff))
        invariant forall c :: c in bibs ==> bibs[c] == old(bibs)[c]
        decreases |todo|
      {
        var c :| c in todo;
        if bib[bibs[c]].lastSeen < cutoff {
          bibs := bibs - {c};
        }
        todo := todo - {c};
      }
    }

    /** Both loops of a cleanup tick, on one cutoff. */
    method ExpireIdle(cutoff: int)
      requires Valid()
      modifies this`sess, this`bibs
      ensures WfBibs(old(View()).bibs, old(View()).bib)
      ensures View() == old(View()).(sess := IdleClosed(old(View()), cutoff),
                                     bibs := IdleDropped(old(View()).bibs, old(View()).bib, cutoff))
    {
      assert WfBibs(View().bibs, View().bib);
      hide *;
      CloseIdle(cutoff);
      DropIdleBibs(cutoff);
    }

    method Tick(now: Time)
      requires Valid()
      modifies this`sess, this`bibs
      ensures Valid() && View() == Expired(old(View()), now)
    {
      hide Wf, Expired, IdleClosed, IdleDropped;
      ExpiredWf(View(), now);
      ExpiredParts(View(), now);
      if settings.udpTimeout > 0 {
        ExpireIdle(now - settings.udpTimeout);
      }
    }

    /** The session an inbound datagram belongs to. */
    method Demux(b: nat, from: V4Tuple) returns (r: Option<nat>)
      requires Valid() && b < |bib|
      ensures Demuxes(View(), b, from, r)
    {
      var flows := bib[b].flows;
      if from in flows {
        return Some(flows[from]);
      }
      r := None;
      if settings.filtering == AddressDependent {
        var todo := flows.Keys;
        while todo != {}
          invariant todo <= flows.Keys
          invariant r.None? ==> forall t :: t in flows && t !in todo ==> t.addr != from.addr
          invariant r.Some? ==> exists t :: t in flows && flows[t] == r.value && t.addr == from.addr
          invariant r.Some? ==> r.value < |sess| && forall t :: t in flows && t !in todo && t.addr == from.addr ==>
                                  sess[flows[t]].lastSeen <= sess[r.value].lastSeen
          decreases |todo|
        {
          var t :| t in todo;
          var i := flows[t];
          assert WfFlow(bib[b], sess);
          if sess[i].key.dstAddr == from.addr {
            if r.None? || sess[i].lastSeen > sess[r.value].lastSeen {
              r := Some(i);
            }
          }
          todo := todo - {t};
        }
      }
    }

    /** One datagram off a BIB's socket. */
    method HandleInbound(b: nat, from: V4Tuple, now: Time) returns (target: Option<nat>)
      requires Valid() && b < |bib|
      modifies this`eif, this`delivered
      ensures Valid()
      ensures Demuxes(old(View()), b, from, target) && (target.Some? ==> target.value < |sess|)
      ensures View() == Received(old(View()), b, from, now, target)
    {
      target := Demux(b, from);
      assert target.Some? ==> target.value < |sess| by {
        assert WfFlow(bib[b], sess);
      }
      match target {
        case None =>
          if settings.filtering == EndpointIndependent {
            var (l, ok) := SpendLazily(eif, Seconds(now), EIF_RATE, EIF_BURST);
            eif := l;
            if ok {
              delivered := delivered + [Injected(bib[b].client, from)];
            }
          }
        case Some(i) =>
          if !sess[i].closed {
            delivered := delivered + [Relayed(i, from)];
          }
      }
    }

    /** The first session found that a quoted ICMPv4 error names. */
    method FindQuoted(local: V4Tuple, dst: V4Tuple) returns (hit: Option<SessionKey>)
      requires Valid()
      ensures Enabled(View(), QuotedError(local, dst, hit))
    {
      hit := None;
      var todo := sessions.Keys;
      while todo != {}
        invariant todo <= sessions.Keys
        invariant forall k :: k in sessions && k !in todo ==> !Quotes(View(), k, local, dst)
        decreases |todo|
      {
        var k :| k in todo;
        var x := sess[sessions[k]];
        if x.localPort == local.port && x.localIP == local.addr && k.dstAddr == dst.addr && k.dstPort == dst.port {
          return Some(k);
        }
        todo := todo - {k};
      }
    }
  }
}
