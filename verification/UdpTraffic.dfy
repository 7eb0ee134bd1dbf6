/** Who gets in and what reaches a client of the UDP translator. */
module UdpTraffic {
  import opened Octets
  import opened UdpNat
  import opened UdpNatLaws
  import opened UdpNatLimits
  import PerSource
  import SS = SplitSetup

  // ---------------------------------------------------------------------
  // Inbound datagrams.

  /** A datagram that demuxes to a session is relayed into it if it is open, and lost if it is closed. */
  lemma RelayedIffOpen(s: State, now: Time, b: nat, from: V4Tuple, i: nat)
    requires Wf(s) && Enabled(s, Inbound(now, b, from, Some(i)))
    ensures i < |s.sess| && Next(s, Inbound(now, b, from, Some(i))).delivered
              == s.delivered + if s.sess[i].closed then [] else [Relayed(i, from)]
  {
    DemuxedIsPeer(s, b, from, i);
    hide Demuxes, Wf;
  }

  /** The session is one of the BIB's client with the sender's address. */
  lemma DemuxedIsPeer(s: State, b: nat, from: V4Tuple, i: nat)
    requires Wf(s) && b < |s.bib| && Demuxes(s, b, from, Some(i))
    ensures i < |s.sess| && s.sess[i].key.dstAddr == from.addr && s.sess[i].key.Client() == s.bib[b].client
    ensures s.settings.filtering != AddressDependent ==> s.sess[i].key.dstPort == from.port
  {
    assert WfFlow(s.bib[b], s.sess);
    if from !in s.bib[b].flows {
      var t :| t in s.bib[b].flows && s.bib[b].flows[t] == i && t.addr == from.addr;
      assert s.sess[s.bib[b].flows[t]].key == KeyFor(s.bib[b].client, t);
    }
    hide WfSessions, WfTable, WfBibs, WfFlows;
  }

  /** Everything relayed so far came from the host its session sends to. */
  ghost predicate FromPeers(s: State) {
    forall n :: 0 <= n < |s.delivered| && s.delivered[n].Relayed? ==>
      s.delivered[n].session < |s.sess| && s.sess[s.delivered[n].session].key.dstAddr == s.delivered[n].from.addr
  }

  lemma SameDeliveries(s: State, r: State)
    requires FromPeers(s) && Grows(s, r) && r.delivered == s.delivered
    ensures FromPeers(r)
  {
    forall n | 0 <= n < |r.delivered| && r.delivered[n].Relayed?
      ensures r.delivered[n].session < |r.sess| && r.sess[r.delivered[n].session].key.dstAddr == r.delivered[n].from.addr
    {
      assert s.delivered[n].Relayed?;
      assert SameFlow(s.sess[s.delivered[n].session], r.sess[s.delivered[n].session]);
    }
  }

  lemma InboundFromPeers(s: State, e: Event)
    requires Wf(s) && FromPeers(s) && e.Inbound? && Enabled(s, e)
    ensures FromPeers(Next(s, e))
  {
    if e.target.Some? {
      DemuxedIsPeer(s, e.b, e.from, e.target.value);
    }
    hide Demuxes, Wf;
  }

  lemma NextFromPeers(s: State, e: Event)
    requires Wf(s) && FromPeers(s)
    ensures FromPeers(Next(s, e))
  {
    hide Wf, FromPeers;
    if e.Inbound? && Enabled(s, e) {
      InboundFromPeers(s, e);
    } else if e.QuotedError? && Enabled(s, e) {
      ErrorFromPeers(s, e);
    } else {
      NextGrows(s, e);
      if !e.Inbound? {
        hide Enabled, Next;
        NextKeepsIo(s, e);
      }
      SameDeliveries(s, Next(s, e));
    }
  }

  lemma ErrorFromPeers(s: State, e: Event)
    requires Wf(s) && FromPeers(s) && e.QuotedError? && Enabled(s, e)
    ensures FromPeers(Next(s, e))
  {
    hide Wf;
  }

  /** Address filtering (section 3.5.1 of RFC 6146): in every run nothing is relayed into a session but from the host it sends to. */
  lemma {:induction false} RelayedOnlyFromPeers(settings: Settings, es: seq<Event>)
    ensures FromPeers(After(Init(settings), es))
  {
    if es != [] {
      RelayedOnlyFromPeers(settings, es[..|es| - 1]);
      hide FromPeers, Next;
      NextFromPeers(After(Init(settings), es[..|es| - 1]), es[|es| - 1]);
    }
  }

  // ---------------------------------------------------------------------
  // Errors.

  /**
   In every timed run an error quoting a datagram of an open session is
   reported to that session's client, unless the search comes first upon a
   closed session, not yet unregistered, that once had the same address.
   */
  lemma ErrorsReachTheirSession(settings: Settings, es: seq<Event>, t: Time, i: nat, hit: Option<SessionKey>)
    requires Timed(es) && AllBefore(es, t)
    requires var s := After(Init(settings), es); i < |s.sess| && !s.sess[i].closed
    requires var s := After(Init(settings), es);
             Enabled(s, QuotedError(V4Tuple(s.sess[i].localIP, s.sess[i].localPort), s.sess[i].key.Tuple(), hit))
    ensures var s := After(Init(settings), es);
            && hit.Some? && hit.value in s.sessions
            && (hit.value == s.sess[i].key || s.sess[s.sessions[hit.value]].closed)
            && Next(s, QuotedError(V4Tuple(s.sess[i].localIP, s.sess[i].localPort), s.sess[i].key.Tuple(), hit)).delivered
                 == s.delivered + [ErrorTo(hit.value)]
  {
    hide After, Core, Timed, AllBefore;
    var s := After(Init(settings), es);
    var local, dst := V4Tuple(s.sess[i].localIP, s.sess[i].localPort), s.sess[i].key.Tuple();
    RunsKeepCore(settings, es, t);
    OpenIsQuoted(s, t, i);
    if hit.Some? && !s.sess[s.sessions[hit.value]].closed {
      ListedByKey(s, hit.value);
      QuotedErrorIsUnambiguous(settings, es, t, i, s.sessions[hit.value], local, dst);
    }
  }

  lemma OpenIsQuoted(s: State, t: Time, i: nat)
    requires Core(s, t) && i < |s.sess| && !s.sess[i].closed
    ensures Listed(s, i) && Quotes(s, s.sess[i].key, V4Tuple(s.sess[i].localIP, s.sess[i].localPort), s.sess[i].key.Tuple())
  {
  }

  lemma ListedByKey(s: State, k: SessionKey)
    requires Wf(s) && k in s.sessions
    ensures s.sessions[k] < |s.sess| && s.sess[s.sessions[k]].key == k && Listed(s, s.sessions[k])
  {
  }

  /**
   It can: one client's flow idles out, its socket's address goes to another
   client that talks to the same destination, and an error about the second
   client's open flow is reported to the first.
   */
  lemma ErrorReachesAnotherClient(settings: Settings, k1: SessionKey, k2: SessionKey, addr: V4Tuple, now: Time) returns (es: seq<Event>)
    requires SS.Unlimited(settings) && settings.udpTimeout < now && k1.Tuple() == k2.Tuple() && k1.Client() != k2.Client()
    ensures Timed(es)
    ensures var s := After(Init(settings), es);
            && |s.sess| == 2 && s.sess[1].key == k2 && !s.sess[1].closed && V4Tuple(s.sess[1].localIP, s.sess[1].localPort) == addr
            && Enabled(s, QuotedError(addr, k2.Tuple(), Some(k1)))
            && Next(s, QuotedError(addr, k2.Tuple(), Some(k1))).delivered == s.delivered + [ErrorTo(k1)]
  {
    hide After, Wf;
    var i := Init(settings);
    SS.InitWf(settings);
    var f := SS.FirstFlow(k1, addr);
    SS.AfterFirstFlow(settings, k1, addr);
    var g := f + [Tick(now)];
    SS.OneStepMore(i, f, Tick(now));
    var h := g + [Arrive(k2, [], true)];
    SS.OneStepMore(i, g, Arrive(k2, [], true));
    es := h + [Setup(now, k2, Some(addr))];
    SS.OneStepMore(i, h, Setup(now, k2, Some(addr)));
    assert es == [Arrive(k1, [], true), Setup(0, k1, Some(addr)), Tick(now), Arrive(k2, [], true), Setup(now, k2, Some(addr))];
    hide Next;
    SS.TickDropsOnly(After(i, f), k1.Client(), now);
    SS.ArrivesFreely(After(i, g), k2);
    SS.FirstSetup(After(i, h), k2, now, addr);
    QuotedStep(After(i, es), addr, k2.Tuple(), k1);
  }

  lemma QuotedStep(s: State, local: V4Tuple, dst: V4Tuple, k: SessionKey)
    requires Wf(s) && k in s.sessions && s.sessions[k] < |s.sess| && Quotes(s, k, local, dst)
    ensures Enabled(s, QuotedError(local, dst, Some(k)))
    ensures Next(s, QuotedError(local, dst, Some(k))).delivered == s.delivered + [ErrorTo(k)]
  {
    hide Wf;
  }

  // ---------------------------------------------------------------------
  // Admission.

  /**
   In every run a new flow is admitted if and only if its source is below its
   limit, the table can be brought below its own by at most eight evictions and
   the stack makes an endpoint; a limit of zero or less is none.
   */
  lemma AdmittedIff(settings: Settings, es: seq<Event>, k: SessionKey, vs: seq<SessionKey>, endpointOk: bool)
    requires var s := After(Init(settings), es); Enabled(s, Arrive(k, vs, endpointOk))
    ensures var s := After(Init(settings), es);
            k in Next(s, Arrive(k, vs, endpointOk)).pending <==>
              && endpointOk
              && (s.settings.perSrcMax <= 0 || |SessionsOf(s.sessions, k.srcAddr)| < s.settings.perSrcMax)
              && (s.settings.maxSessions <= 0 || |s.sessions| < s.settings.maxSessions + 8)
  {
    var s := After(Init(settings), es);
    hide After;
    CountersAreExact(settings, es);
    EvictedAllKeepsPending(s, vs);
    hide EvictedAll, HasEndpoint;
    if OverSourceLimit(s, k.srcAddr) {
    } else if s.settings.maxSessions > 0 {
      AdmissionIsExact(s, s.settings.maxSessions, EVICT_ATTEMPTS, vs);
    }
  }

  lemma {:induction false} EvictedAllKeepsPending(s: State, vs: seq<SessionKey>)
    requires Wf(s)
    ensures EvictedAll(s, vs).pending == s.pending && EvictedAll(s, vs).settings == s.settings
    decreases |vs|
  {
    hide Wf;
    if vs != [] {
      EvictedAllKeepsPending(if vs[0] in s.sessions then Evicted(s, vs[0]) else s, vs[1..]);
    }
  }

  /**
   A teardown closes its session and gives its place back: out of the table, of
   its BIB's flows and of both counts, if the tuple is still this session's. All
   other sessions keep their entries.
   */
  lemma TeardownGivesThePlaceBack(s: State, i: nat)
    requires Wf(s) && Counted(s) && i < |s.sess|
    ensures var r, k, src := Next(s, Teardown(i)), s.sess[i].key, s.sess[i].key.srcAddr;
            && |r.sess| == |s.sess| && r.sess[i].closed && s.sess[i].bib < |r.bib|
            && (forall j :: 0 <= j < |s.sess| && j != i ==> r.sess[j] == s.sess[j])
            && (k in r.sessions <==> k in s.sessions && s.sessions[k] != i)
            && (forall q :: q != k ==> (q in r.sessions <==> q in s.sessions))
            && (forall q :: q in r.sessions ==> r.sessions[q] == s.sessions[q])
            && |r.sessions| == |s.sessions| - (if Listed(s, i) then 1 else 0) && r.udpCount == |r.sessions|
            && (Listed(s, i) ==> k.Tuple() !in r.bib[s.sess[i].bib].flows || r.bib[s.sess[i].bib].flows[k.Tuple()] != i)
            && PerSource.CountOf(r.srcCounts, src, PerSource.Udp) == |SessionsOf(r.sessions, src)|
  {
    DeletedCounted(s, i);
    DeletedParts(s, i);
    hide Wf, PerSource.CountOf, PerSource.Removed, SessionsOf;
  }

  // ---------------------------------------------------------------------
  // TCP connections share the table of sources.

  /** Connections opened less those closed; a close too many counts for nothing. */
  function TcpBalance(es: seq<Event>, src: Addr6): nat {
    if es == [] then 0
    else
      var e, before := es[|es| - 1], TcpBalance(es[..|es| - 1], src);
      if e == TcpOpen(src) then before + 1 else if e == TcpClose(src) && before > 0 then before - 1 else before
  }

  lemma DeletedTcp(s: State, i: nat, src: Addr6)
    requires Wf(s) && Counted(s) && i < |s.sess|
    ensures s.sess[i].bib < |s.bib|
    ensures PerSource.CountOf(Deleted(s, i).srcCounts, src, PerSource.Tcp) == PerSource.CountOf(s.srcCounts, src, PerSource.Tcp)
  {
    PerSource.RemovedCounts(s.srcCounts, s.sess[i].key.srcAddr, PerSource.Udp);
    hide PerSource.Removed, PerSource.CountOf, PerSource.Pruned;
  }

  lemma {:induction false} EvictedAllTcp(s: State, vs: seq<SessionKey>, src: Addr6)
    requires Wf(s) && Counted(s)
    ensures PerSource.CountOf(EvictedAll(s, vs).srcCounts, src, PerSource.Tcp) == PerSource.CountOf(s.srcCounts, src, PerSource.Tcp)
    decreases |vs|
  {
    hide Wf, Counted, PerSource.CountOf, Deleted;
    if vs != [] {
      if vs[0] in s.sessions {
        ListedByKey(s, vs[0]);
        DeletedTcp(s, s.sessions[vs[0]], src);
        DeletedCounted(s, s.sessions[vs[0]]);
        EvictedAllTcp(Evicted(s, vs[0]), vs[1..], src);
      } else {
        EvictedAllTcp(s, vs[1..], src);
      }
    }
  }

  lemma SetUpTcp(s: State, now: Time, k: SessionKey, bound: Option<V4Tuple>, src: Addr6)
    requires Wf(s) && Counted(s)
    ensures PerSource.CountOf(SetUp(s, now, k, bound).srcCounts, src, PerSource.Tcp) == PerSource.CountOf(s.srcCounts, src, PerSource.Tcp)
  {
    PerSource.AddedCounts(s.srcCounts, k.srcAddr, PerSource.Udp);
    hide PerSource.Added, PerSource.CountOf, WfSessions, WfTable, WfFlows;
  }

  lemma ConnectionTcp(s: State, e: Event, src: Addr6)
    requires Wf(s) && Counted(s) && (e.TcpOpen? || e.TcpClose?)
    ensures PerSource.CountOf(Next(s, e).srcCounts, src, PerSource.Tcp) == PerSource.CountOf(s.srcCounts, src, PerSource.Tcp)
            + (if e == TcpOpen(src) then 1 else 0)
            - (if e == TcpClose(src) && PerSource.CountOf(s.srcCounts, src, PerSource.Tcp) > 0 then 1 else 0)
  {
    PerSource.AddedCounts(s.srcCounts, e.src, PerSource.Tcp);
    PerSource.RemovedCounts(s.srcCounts, e.src, PerSource.Tcp);
    hide Wf, PerSource.Added, PerSource.Removed, PerSource.CountOf;
  }

  lemma NextTcp(s: State, e: Event, src: Addr6)
    requires Wf(s) && Counted(s)
    ensures PerSource.CountOf(Next(s, e).srcCounts, src, PerSource.Tcp) == PerSource.CountOf(s.srcCounts, src, PerSource.Tcp)
            + (if e == TcpOpen(src) then 1 else 0)
            - (if e == TcpClose(src) && PerSource.CountOf(s.srcCounts, src, PerSource.Tcp) > 0 then 1 else 0)
  {
    hide Wf, Counted, PerSource.CountOf;
    if e.TcpOpen? || e.TcpClose? {
      ConnectionTcp(s, e, src);
    } else if Enabled(s, e) {
      match e
      case Arrive(k, vs, _) => EvictedAllTcp(s, vs, src);
      case Setup(now, k, bound) => SetUpTcp(s, now, k, bound, src);
      case Teardown(i) => DeletedTcp(s, i, src);
      case _ =>
    }
  }

  /** In every run the TCP count of a source is its open connections, whatever UDP does. */
  lemma {:induction false} TcpCountsAreExact(settings: Settings, es: seq<Event>, src: Addr6)
    ensures PerSource.CountOf(After(Init(settings), es).srcCounts, src, PerSource.Tcp) == TcpBalance(es, src)
  {
    if es != [] {
      var front := es[..|es| - 1];
      TcpCountsAreExact(settings, front, src);
      CountersAreExact(settings, front);
      hide Next, PerSource.CountOf, Counted;
      NextTcp(After(Init(settings), front), es[|es| - 1], src);
    }
  }
}
