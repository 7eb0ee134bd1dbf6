/** What keeps a UDP flow alive: its activity stamps are its client's last datagram, and a tick closes only the idle. */
module UdpActivity {
  import opened Octets
  import opened UdpNat
  import opened UdpNatLaws

  // ---------------------------------------------------------------------
  // Where a stamp comes from.

  /** Event m of a run is the setup of session i or a datagram of its client. */
  ghost predicate Touches(s: State, es: seq<Event>, m: nat, i: nat)
    requires Wf(s)
  {
    && m < |es|
    && var before, after := After(s, es[..m]), After(s, es[..m + 1]);
       || (es[m].Forward? && es[m].i == i && i < |before.sess|)
       || (es[m].Setup? && |before.sess| == i && |after.sess| == i + 1)
  }

  /** The same of one step. */
  ghost predicate Touched(s: State, e: Event, i: nat)
    requires Wf(s)
  {
    || (e.Forward? && e.i == i && i < |s.sess|)
    || (e.Setup? && |s.sess| == i && |Next(s, e).sess| == i + 1)
  }

  lemma TouchesIsTouched(s: State, es: seq<Event>, m: nat, i: nat)
    requires Wf(s) && m < |es|
    ensures After(s, es[..m + 1]) == Next(After(s, es[..m]), es[m])
    ensures Touches(s, es, m, i) <==> Touched(After(s, es[..m]), es[m], i)
  {
    assert es[..m + 1][..m] == es[..m];
    hide Next;
  }

  /** Stamps and their owners are as before. */
  ghost predicate SameStamps(s: State, r: State) {
    && |r.sess| == |s.sess| && |r.bib| == |s.bib|
    && (forall i :: 0 <= i < |s.sess| ==> r.sess[i].lastSeen == s.sess[i].lastSeen && r.sess[i].bib == s.sess[i].bib)
    && (forall b :: 0 <= b < |s.bib| ==> r.bib[b].lastSeen == s.bib[b].lastSeen)
  }

  lemma DeletedStamps(s: State, i: nat)
    requires Wf(s) && i < |s.sess|
    ensures s.sess[i].bib < |s.bib| && SameStamps(s, Deleted(s, i))
  {
  }

  lemma {:induction false} EvictedAllStamps(s: State, vs: seq<SessionKey>)
    requires Wf(s)
    ensures SameStamps(s, EvictedAll(s, vs))
    decreases |vs|
  {
    if vs != [] {
      if vs[0] in s.sessions {
        DeletedStamps(s, s.sessions[vs[0]]);
        hide Deleted, Wf;
        EvictedAllStamps(Evicted(s, vs[0]), vs[1..]);
      } else {
        EvictedAllStamps(s, vs[1..]);
      }
    }
  }

  /** All stamps but those of session i and its BIB are as before, and these two say now. */
  ghost predicate Stamps(s: State, r: State, i: nat, now: Time) {
    && i < |r.sess| && |s.sess| <= |r.sess| <= |s.sess| + 1 && |s.bib| <= |r.bib| <= |s.bib| + 1
    && r.sess[i].lastSeen == now && (if i < |s.sess| then |r.sess| == |s.sess| else i == |s.sess|)
    && (forall j :: 0 <= j < |s.sess| ==> r.sess[j].bib == s.sess[j].bib)
    && (forall j :: 0 <= j < |s.sess| && j != i ==> r.sess[j].lastSeen == s.sess[j].lastSeen)
    && r.sess[i].bib < |r.bib| && r.bib[r.sess[i].bib].lastSeen == now
    && (|r.bib| > |s.bib| ==> r.sess[i].bib == |s.bib|)
    && (forall b :: 0 <= b < |s.bib| && b != r.sess[i].bib ==> r.bib[b].lastSeen == s.bib[b].lastSeen)
  }

  lemma ForwardedStamps(s: State, i: nat, now: Time)
    requires Wf(s) && i < |s.sess|
    ensures Stamps(s, Forwarded(s, i, now), i, now)
  {
    hide WfTable, WfBibs, WfFlows;
  }

  /** A setup that comes to nothing leaves the stamps, any other one stamps the new session. */
  lemma SetUpStamps(s: State, now: Time, k: SessionKey, bound: Option<V4Tuple>)
    requires Wf(s)
    ensures var r := SetUp(s, now, k, bound);
            if |r.sess| == |s.sess| then SameStamps(s, r) else Stamps(s, r, |s.sess|, now)
  {
    hide WfTable, WfFlows, WfSessions;
  }

  /** Which session a step stamps, if any. */
  ghost function StampedBy(s: State, e: Event): Option<nat>
    requires Wf(s)
  {
    if e.Forward? && e.i < |s.sess| then Some(e.i)
    else if e.Setup? && |Next(s, e).sess| == |s.sess| + 1 then Some(|s.sess|)
    else None
  }

  lemma StampedByIffTouched(s: State, e: Event, i: nat)
    requires Wf(s)
    ensures StampedBy(s, e) == Some(i) <==> Touched(s, e, i)
    ensures StampedBy(s, e).Some? ==> Reads(e)
  {
    hide Next;
  }

  lemma NextStamps(s: State, e: Event)
    requires Wf(s)
    ensures var i := StampedBy(s, e);
            if i.Some? then Reads(e) && Stamps(s, Next(s, e), i.value, e.now) else SameStamps(s, Next(s, e))
  {
    hide Wf, Stamps;
    if Enabled(s, e) {
      match e
      case Arrive(k, vs, _) => EvictedAllStamps(s, vs);
      case Setup(now, k, bound) =>
        SetUpStamps(s, now, k, bound);
        hide SetUp;
      case Forward(now, i) => ForwardedStamps(s, i, now);
      case Teardown(i) => DeletedStamps(s, i);
      case _ =>
    }
  }

  /** Event m touched session i, and no later event did. */
  ghost predicate LastTouch(s: State, es: seq<Event>, m: nat, i: nat)
    requires Wf(s)
  {
    Touches(s, es, m, i) && forall n :: m < n < |es| ==> !Touches(s, es, n, i)
  }

  lemma TouchesOfFront(s: State, es: seq<Event>, n: nat, m: nat, i: nat)
    requires Wf(s) && m < n <= |es|
    ensures Touches(s, es[..n], m, i) <==> Touches(s, es, m, i)
  {
    assert es[..n][..m] == es[..m] && es[..n][..m + 1] == es[..m + 1];
    hide After;
  }

  lemma LastTouchStays(s: State, es: seq<Event>, m: nat, i: nat)
    requires Wf(s) && es != [] && LastTouch(s, es[..|es| - 1], m, i) && !Touches(s, es, |es| - 1, i)
    ensures LastTouch(s, es, m, i)
  {
    hide Touches, After;
    LastTouchIsThere(s, es[..|es| - 1], m, i);
    forall n | m <= n < |es| - 1
      ensures Touches(s, es[..|es| - 1], n, i) <==> Touches(s, es, n, i)
    {
      TouchesOfFront(s, es, |es| - 1, n, i);
    }
  }

  lemma NothingYet(settings: Settings)
    ensures After(Init(settings), []) == Init(settings)
  {
  }

  lemma LastStep(s: State, es: seq<Event>)
    requires Wf(s) && es != []
    ensures After(s, es) == Next(After(s, es[..|es| - 1]), es[|es| - 1])
  {
    hide Next;
  }

  /** In every run the stamp of a session is the time of its setup or its client's last datagram, whichever came last. */
  lemma {:induction false} StampIsLastTouch(settings: Settings, es: seq<Event>, i: nat) returns (m: nat)
    requires i < |After(Init(settings), es).sess|
    ensures LastTouch(Init(settings), es, m, i) && Reads(es[m]) && After(Init(settings), es).sess[i].lastSeen == es[m].now
  {
    hide After, Next, Touches, Touched, StampedBy, LastTouch;
    NothingYet(settings);
    var n := |es| - 1;
    var s, e := After(Init(settings), es[..n]), es[n];
    LastStep(Init(settings), es);
    NextStamps(s, e);
    StampedByIffTouched(s, e, i);
    assert es[..n + 1] == es;
    TouchesIsTouched(Init(settings), es, n, i);
    if Touches(Init(settings), es, n, i) {
      m := n;
      LastIsLast(Init(settings), es, i);
    } else {
      m := StampIsLastTouch(settings, es[..n], i);
      LastTouchIsThere(Init(settings), es[..n], m, i);
      LastTouchStays(Init(settings), es, m, i);
    }
  }

  lemma LastIsLast(s: State, es: seq<Event>, i: nat)
    requires Wf(s) && es != [] && Touches(s, es, |es| - 1, i)
    ensures LastTouch(s, es, |es| - 1, i)
  {
    hide Touches;
  }

  lemma LastTouchIsThere(s: State, es: seq<Event>, m: nat, i: nat)
    requires Wf(s) && LastTouch(s, es, m, i)
    ensures m < |es| && Touches(s, es, m, i)
  {
    hide After;
  }

  lemma LastTouchIsLast(s: State, es: seq<Event>, m: nat, n: nat, i: nat)
    requires Wf(s) && LastTouch(s, es, m, i) && Touches(s, es, n, i)
    ensures n <= m < |es|
  {
    hide After;
  }

  /** A BIB has the stamp of one of its sessions. */
  lemma {:induction false} BibHasItsStamp(settings: Settings, es: seq<Event>, b: nat) returns (i: nat)
    requires b < |After(Init(settings), es).bib|
    ensures var s := After(Init(settings), es);
            i < |s.sess| && s.sess[i].bib == b && s.sess[i].lastSeen == s.bib[b].lastSeen
  {
    hide After, Next, StampedBy;
    NothingYet(settings);
    var n := |es| - 1;
    var s, e := After(Init(settings), es[..n]), es[n];
    LastStep(Init(settings), es);
    NextStamps(s, e);
    var j := StampedBy(s, e);
    if j.Some? && Next(s, e).sess[j.value].bib == b {
      i := j.value;
    } else {
      i := BibHasItsStamp(settings, es[..n], b);
    }
  }

  // ---------------------------------------------------------------------
  // Ticks.

  /** One tick: a registered session is closed, and a BIB dropped, exactly when it is idle for longer than the timeout. */
  lemma TickIsExact(s: State, now: Time, i: nat, c: BibKey)
    requires Wf(s) && i < |s.sess| && !s.sess[i].closed && Listed(s, i) && c in s.bibs
    ensures var r, idle := Next(s, Tick(now)), s.settings.udpTimeout > 0;
            && i < |r.sess| && (r.sess[i].closed <==> idle && s.sess[i].lastSeen < now - s.settings.udpTimeout)
            && (c !in r.bibs <==> idle && s.bib[s.bibs[c]].lastSeen < now - s.settings.udpTimeout)
            && (c in r.bibs ==> r.bibs[c] == s.bibs[c])
  {
    hide WfTable, WfFlows, WfSessions;
  }

  /** All activity of session i was longer ago than the timeout. */
  ghost predicate IdleFor(settings: Settings, es: seq<Event>, i: nat, timeout: int, now: Time) {
    forall m :: 0 <= m < |es| && Touches(Init(settings), es, m, i) ==> Reads(es[m]) && es[m].now < now - timeout
  }

  lemma TouchReads(s: State, es: seq<Event>, m: nat, i: nat)
    requires Wf(s) && Touches(s, es, m, i)
    ensures m < |es| && Reads(es[m])
  {
    hide After;
  }

  lemma IdleIffStampOld(settings: Settings, es: seq<Event>, i: nat, timeout: int, now: Time)
    requires Timed(es) && i < |After(Init(settings), es).sess|
    ensures IdleFor(settings, es, i, timeout, now) <==> After(Init(settings), es).sess[i].lastSeen < now - timeout
  {
    hide After, Touches, LastTouch;
    var m := StampIsLastTouch(settings, es, i);
    LastTouchIsThere(Init(settings), es, m, i);
    forall n | 0 <= n < |es| && Touches(Init(settings), es, n, i)
      ensures Reads(es[n]) && es[n].now <= es[m].now
    {
      TouchReads(Init(settings), es, n, i);
      LastTouchIsLast(Init(settings), es, m, n, i);
    }
  }

  /**
   In every timed run a tick closes an open session if and only if there is a
   timeout and its setup and all datagrams of its client are longer ago than
   that. It drops the external mapping of an open session's client if and only
   if that is so of every session through it.
   */
  lemma TickClosesExactlyTheIdle(settings: Settings, es: seq<Event>, now: Time, i: nat)
    requires Timed(es) && AllBefore(es, now)
    requires var s := After(Init(settings), es); i < |s.sess| && !s.sess[i].closed
    ensures var s := After(Init(settings), es);
            var r, timeout, c := Next(s, Tick(now)), s.settings.udpTimeout, s.sess[i].key.Client();
            && i < |r.sess| && c in s.bibs
            && (r.sess[i].closed <==> timeout > 0 && IdleFor(settings, es, i, timeout, now))
            && (c !in r.bibs <==> timeout > 0 && forall j :: 0 <= j < |s.sess| && s.sess[j].bib == s.bibs[c] ==> IdleFor(settings, es, j, timeout, now))
            && (c in r.bibs ==> r.bibs[c] == s.bibs[c])
  {
    hide After, Next, IdleFor;
    var s := After(Init(settings), es);
    var timeout, c := s.settings.udpTimeout, s.sess[i].key.Client();
    RunsKeepCore(settings, es, now);
    OpenIsThere(s, now, i);
    TickIsExact(s, now, i, c);
    IdleIffStampOld(settings, es, i, timeout, now);
    var b := s.bibs[c];
    var k := BibHasItsStamp(settings, es, b);
    forall j | 0 <= j < |s.sess| && s.sess[j].bib == b
      ensures IdleFor(settings, es, j, timeout, now) <==> s.sess[j].lastSeen < now - timeout
      ensures s.sess[j].lastSeen <= s.bib[b].lastSeen
    {
      IdleIffStampOld(settings, es, j, timeout, now);
      StampedAt(s, now, j);
    }
  }

  lemma OpenIsThere(s: State, t: Time, i: nat)
    requires Core(s, t) && i < |s.sess| && !s.sess[i].closed
    ensures Listed(s, i) && Mapped(s, s.sess[i]) && s.bibs[s.sess[i].key.Client()] < |s.bib|
  {
  }

  lemma StampedAt(s: State, t: Time, j: nat)
    requires Core(s, t) && j < |s.sess|
    ensures s.sess[j].bib < |s.bib| && s.sess[j].lastSeen <= s.bib[s.sess[j].bib].lastSeen
  {
  }

  // ---------------------------------------------------------------------
  // A client that keeps sending.

  /** The event neither tears session i down nor evicts a session of its key. */
  predicate Spares(e: Event, i: nat, key: SessionKey) {
    e != Teardown(i) && (e.Arrive? ==> key !in e.victims)
  }

  lemma DeletedLeavesOpen(s: State, i: nat, j: nat)
    requires Wf(s) && i < |s.sess| && j < |s.sess| && i != j
    ensures s.sess[j].bib < |s.bib| && Deleted(s, j).sess[i] == s.sess[i]
  {
  }

  lemma {:induction false} EvictionLeavesOpen(s: State, vs: seq<SessionKey>, i: nat)
    requires Wf(s) && i < |s.sess| && s.sess[i].key !in vs
    ensures i < |EvictedAll(s, vs).sess| && EvictedAll(s, vs).sess[i] == s.sess[i]
    decreases |vs|
  {
    if vs != [] {
      if vs[0] in s.sessions {
        assert s.sess[s.sessions[vs[0]]].key == vs[0];
        DeletedParts(s, s.sessions[vs[0]]);
        DeletedLeavesOpen(s, i, s.sessions[vs[0]]);
        hide Deleted, Wf;
        EvictionLeavesOpen(Evicted(s, vs[0]), vs[1..], i);
      } else {
        EvictionLeavesOpen(s, vs[1..], i);
      }
    }
  }

  /** Only a teardown, an eviction or a tick closes a session. */
  lemma NextLeavesOpen(s: State, e: Event, i: nat)
    requires Wf(s) && i < |s.sess| && !s.sess[i].closed && Spares(e, i, s.sess[i].key) && !e.Tick?
    ensures i < |Next(s, e).sess| && !Next(s, e).sess[i].closed
  {
    hide Wf;
    if Enabled(s, e) {
      match e
      case Arrive(k, vs, _) => EvictionLeavesOpen(s, vs, i);
      case Setup(now, k, bound) => SetUpLeavesOpen(s, now, k, bound, i);
      case Forward(now, j) => ForwardedGrows(s, j, now);
      case Teardown(j) => DeletedLeavesOpen(s, i, j);
      case _ =>
    }
  }

  lemma SetUpLeavesOpen(s: State, now: Time, k: SessionKey, bound: Option<V4Tuple>, i: nat)
    requires Wf(s) && i < |s.sess|
    ensures i < |SetUp(s, now, k, bound).sess| && SetUp(s, now, k, bound).sess[i] == s.sess[i]
  {
    hide WfTable, WfFlows, WfSessions;
  }

  /** At event n of the run, if it is a tick, session i was set up or its client sent within the timeout. */
  ghost predicate Awake(settings: Settings, es: seq<Event>, n: nat, i: nat)
    requires n < |es|
  {
    var timeout := After(Init(settings), es[..n]).settings.udpTimeout;
    es[n].Tick? && timeout > 0 ==>
      exists m :: 0 <= m < n && Touches(Init(settings), es, m, i) && Reads(es[m]) && es[m].now >= es[n].now - timeout
  }

  /** From event `from` on, session i is spared and awake. */
  ghost predicate KeepsSending(settings: Settings, es: seq<Event>, from: nat, i: nat, key: SessionKey) {
    forall n :: from <= n < |es| ==> Spares(es[n], i, key) && Awake(settings, es, n, i)
  }

  lemma AwakeIsNotIdle(settings: Settings, es: seq<Event>, n: nat, i: nat)
    requires n < |es| && es[n].Tick? && Awake(settings, es, n, i)
    ensures var timeout := After(Init(settings), es[..n]).settings.udpTimeout;
            timeout > 0 ==> !IdleFor(settings, es[..n], i, timeout, es[n].now)
  {
    hide After, Touches;
    var timeout := After(Init(settings), es[..n]).settings.udpTimeout;
    if timeout > 0 {
      var m :| 0 <= m < n && Touches(Init(settings), es, m, i) && Reads(es[m]) && es[m].now >= es[n].now - timeout;
      TouchesOfFront(Init(settings), es, n, m, i);
      assert es[..n][m] == es[m];
    }
  }

  lemma SendingFront(settings: Settings, es: seq<Event>, from: nat, i: nat, key: SessionKey)
    requires from < |es| && KeepsSending(settings, es, from, i, key)
    ensures KeepsSending(settings, es[..|es| - 1], from, i, key)
    ensures Spares(es[|es| - 1], i, key) && Awake(settings, es, |es| - 1, i)
  {
    hide After, Touches;
    var front := es[..|es| - 1];
    forall n | from <= n < |front|
      ensures Spares(front[n], i, key) && Awake(settings, front, n, i)
    {
      assert front[..n] == es[..n] && front[n] == es[n] && Awake(settings, es, n, i);
      AwakeInFront(settings, es, n, i);
    }
  }

  lemma AwakeInFront(settings: Settings, es: seq<Event>, n: nat, i: nat)
    requires n + 1 < |es| && Awake(settings, es, n, i)
    ensures Awake(settings, es[..|es| - 1], n, i)
  {
    hide After, Touches;
    var front := es[..|es| - 1];
    assert front[..n] == es[..n] && front[n] == es[n];
    var timeout := After(Init(settings), es[..n]).settings.udpTimeout;
    if es[n].Tick? && timeout > 0 {
      var m :| 0 <= m < n && Touches(Init(settings), es, m, i) && Reads(es[m]) && es[m].now >= es[n].now - timeout;
      TouchesOfFront(Init(settings), es, |front|, m, i);
      assert front[m] == es[m];
    }
  }

  lemma TimedFront(es: seq<Event>)
    requires es != [] && Timed(es)
    ensures Timed(es[..|es| - 1])
    ensures Reads(es[|es| - 1]) ==> AllBefore(es[..|es| - 1], es[|es| - 1].now)
  {
  }

  lemma {:induction false} SendingStaysOpen(settings: Settings, es: seq<Event>, from: nat, i: nat, key: SessionKey)
    requires Timed(es) && from <= |es|
    requires var s := After(Init(settings), es[..from]); i < |s.sess| && !s.sess[i].closed && s.sess[i].key == key
    requires KeepsSending(settings, es, from, i, key)
    ensures var r := After(Init(settings), es); i < |r.sess| && !r.sess[i].closed && r.sess[i].key == key
  {
    hide After, Next, Timed, KeepsSending, Awake, IdleFor, AllBefore, Spares;
    if from == |es| {
      assert es[..from] == es;
    } else {
      var n := |es| - 1;
      var e := es[n];
      assert es[..n][..from] == es[..from];
      TimedFront(es);
      SendingFront(settings, es, from, i, key);
      SendingStaysOpen(settings, es[..n], from, i, key);
      var s := After(Init(settings), es[..n]);
      LastStep(Init(settings), es);
      NextGrows(s, e);
      if e.Tick? {
        AwakeIsNotIdle(settings, es, n, i);
        TickClosesExactlyTheIdle(settings, es[..n], e.now, i);
      } else {
        NextLeavesOpen(s, e, i);
      }
    }
  }

  lemma {:induction false} RunsCompose(s: State, es: seq<Event>, from: nat)
    requires Wf(s) && from <= |es|
    ensures After(s, es) == After(After(s, es[..from]), es[from..])
  {
    hide Next;
    if from == |es| {
      assert es[..from] == es && es[from..] == [];
    } else {
      var n := |es| - 1;
      assert es[..n][..from] == es[..from] && es[..n][from..] == es[from..n] == es[from..][..n - from];
      RunsCompose(s, es[..n], from);
      assert es[from..][n - from] == es[n];
    }
  }

  /**
   A client that keeps sending keeps its flow: in every timed run, from a state
   in which session i is open and for as long as it is neither torn down nor
   evicted and at each tick its client has sent within the timeout, the session
   stays open, mapped, and at the same external address and port.
   */
  lemma ActiveFlowSurvives(settings: Settings, es: seq<Event>, t: Time, from: nat, i: nat)
    requires Timed(es) && AllBefore(es, t) && from <= |es|
    requires var s := After(Init(settings), es[..from]);
             i < |s.sess| && !s.sess[i].closed && KeepsSending(settings, es, from, i, s.sess[i].key)
    ensures var s, r := After(Init(settings), es[..from]), After(Init(settings), es);
            && i < |r.sess| && !r.sess[i].closed && Listed(r, i) && Mapped(r, r.sess[i])
            && r.sess[i].localIP == s.sess[i].localIP && r.sess[i].localPort == s.sess[i].localPort
  {
    hide After, Next, Timed, AllBefore, KeepsSending;
    var s := After(Init(settings), es[..from]);
    SendingStaysOpen(settings, es, from, i, s.sess[i].key);
    RunsKeepCore(settings, es, t);
    OpenIsThere(After(Init(settings), es), t, i);
    RunsCompose(Init(settings), es, from);
    MappingIsStable(s, es[from..]);
  }
}
