/** What keeps an echo session alive: requests of its client and replies under its identifier. */
module EchoActivity {
  import opened Octets
  import opened IcmpNat
  import opened IcmpNatLaws

  /** The session a step stamps: a repeated request's, a new one, or that of a reply. */
  ghost function StampedBy(s: State, e: Event): Option<nat> {
    if !Enabled(s, e) then None
    else if e.Refresh? then Some(s.reader.sid)
    else if e.CheckCount? && s.count < 4096 then Some(|s.store|)
    else if e.ReplyRefresh? then Some(s.replier.sid)
    else None
  }

  /** One step: the stamp it sets, and that it sets no other. */
  lemma NextStamps(s: State, e: Event, i: nat)
    requires i < |Next(s, e).store|
    ensures StampedBy(s, e) == Some(i) ==> (e.Refresh? || e.CheckCount? || e.ReplyRefresh?) && Next(s, e).store[i].lastSeen == e.now
    ensures StampedBy(s, e) != Some(i) ==> i < |s.store| && Next(s, e).store[i].lastSeen == s.store[i].lastSeen
  {
    hide IdsToward;
  }

  /** Step m stamped session i, and no later one did. */
  ghost predicate LastActivity(seed: uint32, es: seq<Event>, m: nat, i: nat) {
    && m < |es| && StampedBy(After(seed, es[..m]), es[m]) == Some(i)
    && forall n :: m < n < |es| ==> StampedBy(After(seed, es[..n]), es[n]) != Some(i)
  }

  lemma LastStep(seed: uint32, es: seq<Event>)
    requires es != []
    ensures After(seed, es) == Next(After(seed, es[..|es| - 1]), es[|es| - 1])
  {
  }

  lemma ActivityStays(seed: uint32, es: seq<Event>, m: nat, i: nat)
    requires es != [] && LastActivity(seed, es[..|es| - 1], m, i)
    requires StampedBy(After(seed, es[..|es| - 1]), es[|es| - 1]) != Some(i)
    ensures LastActivity(seed, es, m, i) && es[m] == es[..|es| - 1][m]
  {
    hide After, StampedBy;
    var front := es[..|es| - 1];
    assert forall n :: 0 <= n < |front| ==> front[..n] == es[..n] && front[n] == es[n];
  }

  /** In every interleaving the stamp of a session is the time of its last activity. */
  lemma {:induction false} StampIsLastActivity(seed: uint32, es: seq<Event>, i: nat) returns (m: nat)
    requires i < |After(seed, es).store|
    ensures LastActivity(seed, es, m, i)
    ensures (es[m].Refresh? || es[m].CheckCount? || es[m].ReplyRefresh?) && After(seed, es).store[i].lastSeen == es[m].now
  {
    assert es != [];
    hide After, Next, StampedBy;
    var n := |es| - 1;
    LastStep(seed, es);
    NextStamps(After(seed, es[..n]), es[n], i);
    if StampedBy(After(seed, es[..n]), es[n]) == Some(i) {
      m := n;
    } else {
      m := StampIsLastActivity(seed, es[..n], i);
      ActivityStays(seed, es, m, i);
    }
  }

  // ---------------------------------------------------------------------
  // Whose activity it is.

  /** A request being refreshed is for the session of the same client, server and identifier. */
  ghost predicate RefreshesOwn(s: State) {
    s.reader.Refreshing? ==> s.reader.sid < |s.store| && QueryOf(s.store[s.reader.sid]) == s.reader.q
  }

  lemma NextRefreshesOwn(s: State, e: Event)
    requires Linked(s) && RefreshesOwn(s)
    ensures RefreshesOwn(Next(s, e))
  {
    StoreOnlyGrows(s, e);
    hide IdsToward, SlotsLinked, SweeperLinked;
  }

  lemma {:induction false} RefreshIsForItsQuery(seed: uint32, es: seq<Event>)
    ensures RefreshesOwn(After(seed, es))
  {
    if es != [] {
      RefreshIsForItsQuery(seed, es[..|es| - 1]);
      RunsAreLinked(seed, es[..|es| - 1]);
      hide Linked, RefreshesOwn, Next;
      NextRefreshesOwn(After(seed, es[..|es| - 1]), es[|es| - 1]);
    }
  }

  /** Step j found session i under the identifier of a reply. */
  ghost predicate FoundBy(seed: uint32, es: seq<Event>, j: nat, i: nat) {
    && j < |es| && es[j].ReplyLoad?
    && var s, k := After(seed, es[..j]), SlotKey(es[j].server, es[j].id);
       k in s.slots && s.slots[k] == i
  }

  lemma ReplierStep(s: State, e: Event)
    requires Next(s, e).replier.Matched? && Next(s, e).replier != s.replier
    ensures e.ReplyLoad? && SlotKey(e.server, e.id) in s.slots && Next(s, e).replier.sid == s.slots[SlotKey(e.server, e.id)]
  {
    hide IdsToward;
  }

  /** A reply about to refresh a session was found in its slot. */
  lemma {:induction false} ReplyWasFound(seed: uint32, es: seq<Event>) returns (j: nat)
    requires After(seed, es).replier.Matched?
    ensures FoundBy(seed, es, j, After(seed, es).replier.sid)
  {
    assert es != [];
    hide After, Next;
    var n := |es| - 1;
    LastStep(seed, es);
    var s := After(seed, es[..n]);
    if Next(s, es[n]).replier != s.replier {
      ReplierStep(s, es[n]);
      j := n;
    } else {
      j := ReplyWasFound(seed, es[..n]);
      assert es[..n][..j] == es[..j] && es[..n][j] == es[j];
    }
  }

  /** A reply under a taken identifier is matched to the session in the slot and stamps it; any other is not matched. */
  lemma ReplyStampsItsSession(s: State, server: Addr4, id: uint16, now: int)
    requires s.replier.Waiting? && s.clock <= now && Linked(s)
    ensures var k, r := SlotKey(server, id), Next(Next(s, ReplyLoad(server, id)), ReplyRefresh(now));
            if k in s.slots then s.slots[k] < |r.store| && r.store[s.slots[k]] == s.store[s.slots[k]].(lastSeen := now) && r.replier.Waiting?
            else r == s
  {
    hide QueriesLinked, ReaderLinked, SweeperLinked, IdsToward;
  }

  // ---------------------------------------------------------------------
  // Sweeps.

  /**
   In every interleaving a sweep condemns the entry it visits if and only if
   the last request or reply of that session is older than the sweep's cutoff;
   it leaves every other entry in both tables.
   */
  lemma SweepCondemnsExactlyTheIdle(seed: uint32, es: seq<Event>) returns (m: nat)
    requires After(seed, es).sweeper.Visiting?
    ensures var s, r := After(seed, es), After(seed, es + [CheckIdle]);
            && LastActivity(seed, es, m, s.sweeper.sid) && (es[m].Refresh? || es[m].CheckCount? || es[m].ReplyRefresh?)
            && (r.sweeper.Condemned? <==> es[m].now < s.sweeper.cutoff)
            && (!r.sweeper.Condemned? ==> r == s.(sweeper := Sweeping(s.sweeper.cutoff)))
  {
    RunsAreLinked(seed, es);
    var s := After(seed, es);
    Extended(seed, es, CheckIdle);
    hide After, LastActivity;
    m := StampIsLastActivity(seed, es, s.sweeper.sid);
  }
}
