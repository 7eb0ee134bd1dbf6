/**
 What becomes of a setup in src/nat64/udp.go that is not one step: the BIB is
 obtained, other goroutines run, and the session is registered on it later.
 */
module SplitSetup {
  import opened Octets
  import opened UdpNat
  import opened UdpNatLaws

  /** The second half of a setup, on the BIB obtained in the first. */
  function RegisteredLate(s: State, k: SessionKey, bi: nat, now: Time): State
    requires bi < |s.bib|
  {
    RegisteredOn(s.(pending := s.pending - {k}), k, bi, now)
  }

  /**
   Binding and registering have to be one step: with a BIB in hand from before,
   registration of a pending tuple keeps every open session mapped if and only
   if that BIB is still the client's registered one.
   */
  lemma SplitSetupIsSafeIff(s: State, k: SessionKey, bi: nat, now: Time)
    requires Core(s, now) && k in s.pending && bi < |s.bib|
    ensures OpenIsMapped(RegisteredLate(s, k, bi, now)) <==> k.Client() in s.bibs && s.bibs[k.Client()] == bi
  {
    var done := s.(pending := s.pending - {k});
    assert Core(done, now) && !HasEndpoint(done, k);
    if k.Client() in s.bibs && s.bibs[k.Client()] == bi {
      RegisteredCore(done, k, now);
    } else {
      var r := RegisteredLate(s, k, bi, now);
      assert !r.sess[|s.sess|].closed && !Mapped(r, r.sess[|s.sess|]);
    }
  }

  /** A tick between the two, on a BIB idle for longer than the timeout, is enough to go wrong. */
  lemma TickBetweenBreaksMapping(s: State, k: SessionKey, now: Time, t: Time)
    requires Core(s, t) && t <= now && k in s.pending && k.Client() in s.bibs
    requires s.settings.udpTimeout > 0 && s.bib[s.bibs[k.Client()]].lastSeen < now - s.settings.udpTimeout
    ensures !OpenIsMapped(RegisteredLate(Expired(s, now), k, s.bibs[k.Client()], now))
  {
    ExpiredCore(s, now, t);
    SplitSetupIsSafeIff(Expired(s, now), k, s.bibs[k.Client()], now);
  }

  // ---------------------------------------------------------------------
  // A run that goes wrong.

  predicate Unlimited(s: Settings) {
    s.udpTimeout > 0 && s.maxSessions <= 0 && s.perSrcMax <= 0
  }

  lemma ArrivesFreely(s: State, k: SessionKey)
    requires Wf(s) && Unlimited(s.settings) && !HasEndpoint(s, k)
    ensures Next(s, Arrive(k, [], true)) == s.(pending := s.pending + {k})
  {
    hide Wf, HasEndpoint;
  }

  lemma FirstSetup(s: State, k: SessionKey, now: Time, addr: V4Tuple)
    requires Wf(s) && k in s.pending && s.bibs == map[]
    ensures var r, b := Next(s, Setup(now, k, Some(addr))), |s.bib|;
            && r.settings == s.settings && r.pending == s.pending - {k} && r.bibs == map[k.Client() := b]
            && r.sess == s.sess + [Session(k, b, addr.addr, addr.port, now, false)] && r.sessions == s.sessions[k := |s.sess|]
            && |r.bib| == b + 1 && (forall i :: 0 <= i < b ==> r.bib[i] == s.bib[i])
            && r.bib[b].lastSeen == now && r.bib[b].localIP == addr.addr && r.bib[b].localPort == addr.port
  {
    hide Wf;
  }

  lemma TickDropsOnly(s: State, c: BibKey, now: Time)
    requires Wf(s) && Unlimited(s.settings) && s.bibs == map[c := 0] && |s.bib| > 0 && s.bib[0].lastSeen < now - s.settings.udpTimeout
    ensures var r := Next(s, Tick(now));
            && r.settings == s.settings && r.pending == s.pending && r.bibs == map[] && r.bib == s.bib && |r.sess| == |s.sess|
            && r.sessions == s.sessions && r.delivered == s.delivered
            && (forall i :: 0 <= i < |s.sess| ==> r.sess[i] == if Listed(s, i) && s.sess[i].lastSeen < now - s.settings.udpTimeout
                                                               then s.sess[i].(closed := true) else s.sess[i])
  {
    ExpiredParts(s, now);
    assert IdleDropped(s.bibs, s.bib, now - s.settings.udpTimeout) == map[];
    hide Wf, Expired;
  }

  lemma OneStepMore(s: State, es: seq<Event>, e: Event)
    requires Wf(s)
    ensures After(s, es + [e]) == Next(After(s, es), e)
  {
    assert (es + [e])[..|es|] == es;
  }

  lemma InitWf(settings: Settings)
    ensures Wf(Init(settings))
  {
  }

  /** One client, three destinations: the first flow is set up, the next two are admitted. */
  function FirstFlow(k: SessionKey, addr: V4Tuple): seq<Event> {
    [Arrive(k, [], true)] + [Setup(0, k, Some(addr))]
  }

  function Before(c: BibKey, d1: V4Tuple, d2: V4Tuple, d3: V4Tuple, addr: V4Tuple): seq<Event> {
    FirstFlow(KeyFor(c, d1), addr) + [Arrive(KeyFor(c, d2), [], true)] + [Arrive(KeyFor(c, d3), [], true)]
  }

  lemma AfterFirstFlow(settings: Settings, k: SessionKey, addr: V4Tuple)
    requires Unlimited(settings)
    ensures var s := After(Init(settings), FirstFlow(k, addr));
            && s.settings == settings && s.pending == {} && s.bibs == map[k.Client() := 0]
            && s.sess == [Session(k, 0, addr.addr, addr.port, 0, false)] && s.sessions == map[k := 0]
            && |s.bib| == 1 && s.bib[0].lastSeen == 0
            && s.bib[0].localIP == addr.addr && s.bib[0].localPort == addr.port
  {
    var i, e := Init(settings), [Arrive(k, [], true)];
    InitWf(settings);
    hide Wf, Next;
    OneStepMore(i, [], Arrive(k, [], true));
    assert [] + [Arrive(k, [], true)] == e && After(i, []) == i;
    ArrivesFreely(i, k);
    OneStepMore(i, e, Setup(0, k, Some(addr)));
    FirstSetup(After(i, e), k, 0, addr);
  }

  lemma BeforeTick(settings: Settings, c: BibKey, d1: V4Tuple, d2: V4Tuple, d3: V4Tuple, addr: V4Tuple)
    requires Unlimited(settings) && d1 != d2 && d1 != d3 && d2 != d3
    ensures var s := After(Init(settings), Before(c, d1, d2, d3, addr));
            && s.settings == settings && s.pending == {KeyFor(c, d2), KeyFor(c, d3)} && s.bibs == map[c := 0]
            && |s.sess| == 1 && |s.bib| == 1 && s.bib[0].lastSeen == 0
            && s.bib[0].localIP == addr.addr && s.bib[0].localPort == addr.port
  {
    hide After, Next, Wf;
    var i, k1, k2, k3 := Init(settings), KeyFor(c, d1), KeyFor(c, d2), KeyFor(c, d3);
    InitWf(settings);
    var es := FirstFlow(k1, addr);
    AfterFirstFlow(settings, k1, addr);
    OneStepMore(i, es, Arrive(k2, [], true));
    ArrivesFreely(After(i, es), k2);
    OneStepMore(i, es + [Arrive(k2, [], true)], Arrive(k3, [], true));
    ArrivesFreely(After(i, es + [Arrive(k2, [], true)]), k3);
  }

  /** The tick drops the idle BIB, and the third flow gets a new one. */
  function Between(c: BibKey, d3: V4Tuple, addr: V4Tuple, now: Time): seq<Event> {
    [Tick(now)] + [Setup(now, KeyFor(c, d3), Some(addr))]
  }

  lemma AfterTick(settings: Settings, c: BibKey, d1: V4Tuple, d2: V4Tuple, d3: V4Tuple, old1: V4Tuple, new3: V4Tuple, now: Time)
    requires Unlimited(settings) && d1 != d2 && d1 != d3 && d2 != d3 && now > settings.udpTimeout
    ensures var s := After(Init(settings), Before(c, d1, d2, d3, old1) + Between(c, d3, new3, now));
            && KeyFor(c, d2) in s.pending && |s.bib| == 2 && |s.sess| == 2
            && s.bib[0].localIP == old1.addr && s.bib[0].localPort == old1.port
            && s.sess[1] == Session(KeyFor(c, d3), 1, new3.addr, new3.port, now, false)
  {
    hide After, Next, Wf;
    var i, es, k3 := Init(settings), Before(c, d1, d2, d3, old1), KeyFor(c, d3);
    InitWf(settings);
    BeforeTick(settings, c, d1, d2, d3, old1);
    OneStepMore(i, es, Tick(now));
    TickDropsOnly(After(i, es), c, now);
    OneStepMore(i, es + [Tick(now)], Setup(now, k3, Some(new3)));
    assert es + [Tick(now)] + [Setup(now, k3, Some(new3))] == es + Between(c, d3, new3, now);
    FirstSetup(After(i, es + [Tick(now)]), k3, now, new3);
  }

  /**
   From a fresh start, with the second flow's goroutine holding the first BIB
   across a tick: its session and the third flow's are open, belong to one
   client socket and have different external addresses.
   */
  lemma SplitSetupSplitsMapping(settings: Settings, c: BibKey, d1: V4Tuple, d2: V4Tuple, d3: V4Tuple, old1: V4Tuple, new3: V4Tuple, now: Time)
    requires Unlimited(settings) && d1 != d2 && d1 != d3 && d2 != d3 && old1 != new3 && now > settings.udpTimeout
    ensures Wf(Init(settings))
    ensures var s := After(Init(settings), Before(c, d1, d2, d3, old1)); KeyFor(c, d2) in s.pending && s.bibs == map[c := 0]
    ensures var s := After(Init(settings), Before(c, d1, d2, d3, old1) + Between(c, d3, new3, now));
            && KeyFor(c, d2) in s.pending && |s.bib| == 2
            && var r := RegisteredLate(s, KeyFor(c, d2), 0, now);
               && |r.sess| == 3 && !r.sess[1].closed && !r.sess[2].closed
               && r.sess[1].key.Client() == r.sess[2].key.Client() == c
               && V4Tuple(r.sess[1].localIP, r.sess[1].localPort) != V4Tuple(r.sess[2].localIP, r.sess[2].localPort)
  {
    hide After, Next, Wf;
    InitWf(settings);
    BeforeTick(settings, c, d1, d2, d3, old1);
    AfterTick(settings, c, d1, d2, d3, old1, new3, now);
  }
}
