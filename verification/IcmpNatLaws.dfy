/** What every interleaving of the echo NAT keeps. */
module IcmpNatLaws {
  import opened Octets
  import opened IcmpNat
  import opened Cardinality

  // ---------------------------------------------------------------------
  // The tables point at each other.

  /** Every query entry's session sits in its own identifier slot. */
  ghost predicate QueriesLinked(store: seq<Session>, queries: map<QueryKey, nat>, slots: map<SlotKey, nat>) {
    forall q :: q in queries ==>
      && queries[q] < |store| && QueryOf(store[queries[q]]) == q
      && SlotOf(store[queries[q]]) in slots && slots[SlotOf(store[queries[q]])] == queries[q]
  }

  /** Every identifier slot holds the session that was given it, and zero is never given. */
  ghost predicate SlotsLinked(store: seq<Session>, slots: map<SlotKey, nat>) {
    forall k :: k in slots ==> slots[k] < |store| && SlotOf(store[slots[k]]) == k && k.id != 0
  }

  predicate Holds(r: Reader) {
    r.Probing? || r.Trying? || r.Claiming? || r.Publishing?
  }

  /** A session being registered: made for its query, which has no entry, and in no slot before it is published. */
  ghost predicate ReaderLinked(s: State) {
    && (s.reader.Checking? ==> s.reader.q !in s.queries)
    && (s.reader.Refreshing? ==> s.reader.sid < |s.store|)
    && (Holds(s.reader) ==>
          && s.reader.sid < |s.store| && QueryOf(s.store[s.reader.sid]) == s.reader.q && s.reader.q !in s.queries
          && (!s.reader.Publishing? ==> forall k :: k in s.slots ==> s.slots[k] != s.reader.sid))
    && (s.reader.Trying? ==> s.reader.cand != 0)
    && (s.reader.Claiming? ==> s.store[s.reader.sid].allocId != 0 && SlotOf(s.store[s.reader.sid]) !in s.slots)
    && (s.reader.Publishing? ==> InSlot(s, s.reader.sid))
  }

  ghost predicate InSlot(s: State, sid: nat)
    requires sid < |s.store|
  {
    SlotOf(s.store[sid]) in s.slots && s.slots[SlotOf(s.store[sid])] == sid
  }

  /** A session being dropped: still its query's entry until the deletion, then still in its slot. */
  ghost predicate SweeperLinked(s: State) {
    && (s.sweeper.Visiting? || s.sweeper.Condemned? ==> s.sweeper.q in s.queries && s.queries[s.sweeper.q] == s.sweeper.sid)
    && (s.sweeper.Unlinking? ==>
          && s.sweeper.sid < |s.store| && QueryOf(s.store[s.sweeper.sid]) == s.sweeper.q && InSlot(s, s.sweeper.sid)
          && (Holds(s.reader) ==> s.reader.sid != s.sweeper.sid)
          && forall q :: q in s.queries ==> s.queries[q] != s.sweeper.sid)
  }

  ghost predicate Linked(s: State) {
    && QueriesLinked(s.store, s.queries, s.slots) && SlotsLinked(s.store, s.slots)
    && ReaderLinked(s) && SweeperLinked(s)
    && (s.replier.Matched? ==> s.replier.sid < |s.store|)
  }

  lemma TouchedIsLinked(s: State, sid: nat, now: int)
    requires Linked(s) && sid < |s.store|
    ensures Linked(s.(store := Touched(s.store, sid, now), clock := now))
  {
    var store := Touched(s.store, sid, now);
    assert forall i :: 0 <= i < |store| ==> QueryOf(store[i]) == QueryOf(s.store[i]) && SlotOf(store[i]) == SlotOf(s.store[i]);
  }

  lemma RefreshKeepsLinked(s: State, now: int)
    requires Linked(s) && s.reader.Refreshing?
    ensures Linked(Refreshed(s, now))
  {
    TouchedIsLinked(s, s.reader.sid, now);
  }

  lemma CheckKeepsLinked(s: State, now: int)
    requires Linked(s) && s.reader.Checking?
    ensures Linked(Checked(s, now))
  {
    var t := Checked(s, now);
    assert forall i :: 0 <= i < |s.store| ==> t.store[i] == s.store[i];
  }

  lemma AdvanceKeepsLinked(s: State)
    requires Linked(s) && s.reader.Probing?
    ensures Linked(Advanced(s))
  {
    var t := Advanced(s);
    assert t.reader.q == s.reader.q && t.reader.sid == s.reader.sid && (t.reader.Trying? ==> t.reader.cand != 0);
  }

  lemma LoadSlotKeepsLinked(s: State)
    requires Linked(s) && s.reader.Trying?
    ensures Linked(SlotLoaded(s))
  {
    var t := SlotLoaded(s);
    var r := s.reader.sid;
    assert forall q :: q in s.queries ==> s.queries[q] != r;
    assert forall i :: 0 <= i < |s.store| && i != r ==> t.store[i] == s.store[i];
  }

  lemma StoreSlotKeepsLinked(s: State)
    requires Linked(s) && s.reader.Claiming?
    ensures Linked(SlotStored(s))
  {
    var t := SlotStored(s);
    var k := SlotOf(s.store[s.reader.sid]);
    assert t.slots == s.slots[k := s.reader.sid];
  }

  lemma StoreQueryKeepsLinked(s: State)
    requires Linked(s) && s.reader.Publishing?
    ensures Linked(QueryStored(s))
  {
  }

  lemma DeleteQueryKeepsLinked(s: State)
    requires Linked(s) && s.sweeper.Condemned?
    ensures Linked(ComparedAndDeleted(s)) && ComparedAndDeleted(s).sweeper.Unlinking?
  {
    var t := ComparedAndDeleted(s);
    assert t.queries == s.queries - {s.sweeper.q};
    assert forall q :: q in t.queries ==> q in s.queries && t.queries[q] == s.queries[q];
  }

  lemma DeleteSlotKeepsLinked(s: State)
    requires Linked(s) && s.sweeper.Unlinking?
    ensures Linked(SlotDeleted(s))
  {
    var t := SlotDeleted(s);
    var k := SlotOf(s.store[s.sweeper.sid]);
    assert t.slots == s.slots - {k};
    assert forall q :: q in s.queries ==> SlotOf(s.store[s.queries[q]]) != k;
  }

  lemma EntriesExist(s: State)
    requires Linked(s)
    ensures forall q :: q in s.queries ==> s.queries[q] < |s.store|
    ensures forall k :: k in s.slots ==> s.slots[k] < |s.store|
  {
  }

  lemma NextKeepsLinked(s: State, e: Event)
    requires Linked(s)
    ensures Linked(Next(s, e))
  {
    hide QueriesLinked, SlotsLinked;
    if Enabled(s, e) {
      match e
      case Refresh(now) => RefreshKeepsLinked(s, now);
      case CheckCount(now) => CheckKeepsLinked(s, now);
      case NextCandidate => AdvanceKeepsLinked(s);
      case LoadSlot => LoadSlotKeepsLinked(s);
      case StoreSlot => StoreSlotKeepsLinked(s);
      case StoreQuery => StoreQueryKeepsLinked(s);
      case CompareAndDelete => DeleteQueryKeepsLinked(s);
      case DeleteSlot => DeleteSlotKeepsLinked(s);
      case ReplyRefresh(now) => TouchedIsLinked(s, s.replier.sid, now);
      case LoadQuery => EntriesExist(s);
      case ReplyLoad(_, _) => EntriesExist(s);
      case _ =>
    }
  }

  lemma {:induction false} RunsAreLinked(seed: uint32, es: seq<Event>)
    ensures Linked(After(seed, es))
  {
    if es != [] {
      RunsAreLinked(seed, es[..|es| - 1]);
      hide Linked, Next;
      NextKeepsLinked(After(seed, es[..|es| - 1]), es[|es| - 1]);
    }
  }

  /** The unconditional slot deletion removes the very session whose query entry was just deleted. */
  lemma SlotDeletionHitsItsSession(seed: uint32, es: seq<Event>)
    requires After(seed, es).sweeper.Unlinking?
    ensures var s := After(seed, es);
            var w := s.sweeper;
            && w.sid < |s.store| && QueryOf(s.store[w.sid]) == w.q
            && SlotKey(w.q.server, s.store[w.sid].allocId) in s.slots
            && s.slots[SlotKey(w.q.server, s.store[w.sid].allocId)] == w.sid
  {
    RunsAreLinked(seed, es);
    hide After;
  }

  /** The conditional deletion never finds another session in the entry it visited. */
  lemma DeletionAlwaysMatches(seed: uint32, es: seq<Event>)
    requires After(seed, es).sweeper.Condemned?
    ensures var s := After(seed, es); s.sweeper.q in s.queries && s.queries[s.sweeper.q] == s.sweeper.sid
  {
    RunsAreLinked(seed, es);
    hide After;
  }

  /** Live queries toward one destination carry distinct identifiers, never zero. */
  lemma IdentifiersAreDistinct(seed: uint32, es: seq<Event>, p: QueryKey, q: QueryKey)
    requires p in After(seed, es).queries && q in After(seed, es).queries && p.server == q.server
    ensures var s := After(seed, es);
            && s.queries[p] < |s.store| && s.queries[q] < |s.store|
            && s.store[s.queries[p]].allocId != 0
            && (s.store[s.queries[p]].allocId == s.store[s.queries[q]].allocId ==> p == q)
  {
    RunsAreLinked(seed, es);
    hide After;
  }

  // ---------------------------------------------------------------------
  // Counting.

  /** The counter and both table sizes, exact at every step. */
  ghost predicate Counted(s: State) {
    && s.count == |s.queries| + One(s.sweeper.Unlinking? || s.sweeper.Uncounting?) - One(s.reader.Counting?)
    && |s.slots| == |s.queries| + One(s.reader.Publishing?) + One(s.sweeper.Unlinking?)
    && s.count <= MAX_SESSIONS
    && (Holds(s.reader) || s.reader.Counting? ==> s.count < MAX_SESSIONS)
  }

  predicate Moves(e: Event) {
    e.StoreSlot? || e.StoreQuery? || e.CompareAndDelete? || e.DeleteSlot?
  }

  lemma OthersKeepCounted(s: State, e: Event)
    requires Counted(s) && Enabled(s, e) && !Moves(e)
    ensures Counted(Step(s, e))
  {
    var t := Step(s, e);
    assert t.queries == s.queries && t.slots == s.slots;
    hide IdsToward, Touched;
  }

  lemma StoreSlotKeepsCounted(s: State)
    requires Linked(s) && Counted(s) && s.reader.Claiming?
    ensures Counted(SlotStored(s))
  {
    SizeWith(s.slots, SlotOf(s.store[s.reader.sid]), s.reader.sid);
  }

  lemma StoreQueryKeepsCounted(s: State)
    requires Linked(s) && Counted(s) && s.reader.Publishing?
    ensures Counted(QueryStored(s))
  {
    SizeWith(s.queries, s.reader.q, s.reader.sid);
  }

  lemma DeleteQueryKeepsCounted(s: State)
    requires Linked(s) && Counted(s) && s.sweeper.Condemned?
    ensures Counted(ComparedAndDeleted(s))
  {
    SizeWithout(s.queries, s.sweeper.q);
  }

  lemma DeleteSlotKeepsCounted(s: State)
    requires Linked(s) && Counted(s) && s.sweeper.Unlinking?
    ensures Counted(SlotDeleted(s))
  {
    SizeWithout(s.slots, SlotOf(s.store[s.sweeper.sid]));
  }

  lemma NextKeepsCounted(s: State, e: Event)
    requires Linked(s) && Counted(s)
    ensures Counted(Next(s, e))
  {
    hide Linked, Counted;
    if Enabled(s, e) {
      match e
      case StoreSlot => StoreSlotKeepsCounted(s);
      case StoreQuery => StoreQueryKeepsCounted(s);
      case CompareAndDelete => DeleteQueryKeepsCounted(s);
      case DeleteSlot => DeleteSlotKeepsCounted(s);
      case _ => OthersKeepCounted(s, e);
    }
  }

  lemma {:induction false} RunsAreCounted(seed: uint32, es: seq<Event>)
    ensures Counted(After(seed, es))
  {
    if es != [] {
      RunsAreCounted(seed, es[..|es| - 1]);
      RunsAreLinked(seed, es[..|es| - 1]);
      hide Linked, Counted, Next;
      NextKeepsCounted(After(seed, es[..|es| - 1]), es[|es| - 1]);
    }
  }

  /** Both tables and the counter stay within the bound in every interleaving; at rest all three agree. */
  lemma TablesStayBounded(seed: uint32, es: seq<Event>)
    ensures var s := After(seed, es);
            && |s.queries| <= MAX_SESSIONS && |s.slots| <= MAX_SESSIONS && 0 <= s.count + 1 && s.count <= MAX_SESSIONS
            && (s.reader.Idle? && s.sweeper.Resting? ==> s.count == |s.queries| == |s.slots|)
  {
    RunsAreCounted(seed, es);
    hide After;
  }

  // ---------------------------------------------------------------------
  // Identifiers cannot run out before 63 are in use.

  /** The identifier j steps after a counter value. */
  function Candidate(first: int, j: int): uint16 {
    (first + j) % 0x1_0000
  }

  /** How far probing got: everything tried and refused was in use when probing began. */
  ghost predicate Probed(s: State) {
    s.reader.Probing? || s.reader.Trying? ==>
      var r := s.reader;
      && r.tries <= MAX_ATTEMPTS
      && s.nextId == (r.first + r.tries) % 0x1_0000_0000
      && IdsToward(s.slots, r.q.server) <= r.busy
      && (r.Trying? ==> r.tries > 0 && r.cand == Candidate(r.first, r.tries))
      && forall j :: 0 < j <= r.tries - One(r.Trying?) && Candidate(r.first, j) != 0 ==> Candidate(r.first, j) in r.busy
  }

  lemma CandidateOfNext(first: uint32, tries: nat, id: uint32)
    requires tries < MAX_ATTEMPTS && id == (first + tries) % 0x1_0000_0000
    ensures (id + 1) % 0x1_0000_0000 == (first + tries + 1) % 0x1_0000_0000
    ensures ((id + 1) % 0x1_0000_0000) % 0x1_0000 == Candidate(first, tries + 1)
  {
    var x := first + tries;
    assert x == id || x == id + 0x1_0000_0000;
    var n := (id + 1) % 0x1_0000_0000;
    assert x + 1 == n || x + 1 == n + 0x1_0000_0000;
    SameLow(n);
  }

  lemma SameLow(n: nat)
    ensures (n + 0x1_0000_0000) % 0x1_0000 == n % 0x1_0000
  {
    var q, r := n / 0x1_0000, n % 0x1_0000;
    assert n + 0x1_0000_0000 == (q + 0x1_0000) * 0x1_0000 + r;
  }

  predicate Seeking(r: Reader) {
    r.Probing? || r.Trying?
  }

  lemma AdvanceKeepsProbed(s: State)
    requires Probed(s) && s.reader.Probing? && s.reader.tries < MAX_ATTEMPTS
    ensures Probed(Advanced(s))
  {
    CandidateOfNext(s.reader.first, s.reader.tries, s.nextId);
    hide Candidate, IdsToward;
  }

  lemma LoadSlotKeepsProbed(s: State)
    requires Probed(s) && s.reader.Trying? && s.reader.sid < |s.store|
    ensures Probed(SlotLoaded(s))
  {
    hide Candidate, IdsToward;
  }

  /** While an identifier is being sought nobody else adds slots or moves the counter. */
  lemma SeekingIsUndisturbed(s: State, e: Event)
    requires Enabled(s, e) && Seeking(s.reader) && !e.NextCandidate? && !e.LoadSlot? && !e.GiveUp?
    ensures Step(s, e).reader == s.reader && Step(s, e).nextId == s.nextId
    ensures forall k :: k in Step(s, e).slots ==> k in s.slots
  {
    hide IdsToward, Touched;
  }

  lemma SeekingBegins(s: State, e: Event)
    requires Enabled(s, e) && !Seeking(s.reader)
    ensures Probed(Step(s, e))
  {
    hide Touched;
  }

  lemma NextKeepsProbed(s: State, e: Event)
    requires Probed(s)
    ensures Probed(Next(s, e))
  {
    if Enabled(s, e) {
      if e.NextCandidate? {
        AdvanceKeepsProbed(s);
      } else if e.LoadSlot? {
        LoadSlotKeepsProbed(s);
      } else if Seeking(s.reader) && !e.GiveUp? {
        SeekingIsUndisturbed(s, e);
        ProbedStays(s, Step(s, e));
      } else if !e.GiveUp? {
        SeekingBegins(s, e);
      }
      hide Probed;
      assert e.GiveUp? ==> Step(s, e) == s.(reader := Idle);
      NotSeeking(s.(reader := Idle));
    }
  }

  lemma NotSeeking(s: State)
    requires !Seeking(s.reader)
    ensures Probed(s)
  {
  }

  lemma ProbedStays(s: State, t: State)
    requires Probed(s) && Seeking(s.reader) && t.reader == s.reader && t.nextId == s.nextId
    requires forall k :: k in t.slots ==> k in s.slots
    ensures Probed(t)
  {
    hide Candidate;
  }

  lemma {:induction false} RunsAreProbed(seed: uint32, es: seq<Event>)
    ensures Probed(After(seed, es))
  {
    if es != [] {
      RunsAreProbed(seed, es[..|es| - 1]);
      hide Probed, Next;
      NextKeepsProbed(After(seed, es[..|es| - 1]), es[|es| - 1]);
    }
  }

  /** The candidates after `first`, as a set. */
  function Candidates(first: int, n: nat): (c: set<uint16>)
    ensures forall x :: x in c ==> exists j :: 0 < j <= n && x == Candidate(first, j)
  {
    if n == 0 then {}
    else
      assert Candidate(first, n) == Candidate(first, n);
      Candidates(first, n - 1) + {Candidate(first, n)}
  }

  lemma {:induction false} CandidatesAreDistinct(first: int, n: nat)
    requires n <= 0x1_0000
    ensures |Candidates(first, n)| == n
  {
    if n > 0 {
      CandidatesAreDistinct(first, n - 1);
      forall j | 0 < j < n
        ensures Candidate(first, j) != Candidate(first, n)
      {
        LowDiffers(first + j, first + n);
      }
      hide Candidate;
      assert Candidate(first, n) !in Candidates(first, n - 1);
    }
  }

  lemma LowDiffers(a: int, b: int)
    requires a < b < a + 0x1_0000
    ensures a % 0x1_0000 != b % 0x1_0000
  {
  }

  lemma CrowdedSize(first: uint32, busy: set<uint16>)
    requires forall j :: 0 < j <= MAX_ATTEMPTS && Candidate(first, j) != 0 ==> Candidate(first, j) in busy
    ensures |busy| >= MAX_ATTEMPTS - 1
  {
    CandidatesAreDistinct(first, MAX_ATTEMPTS);
    hide Candidate;
    var c := Candidates(first, MAX_ATTEMPTS);
    assert c - {0} <= busy;
    SubsetSize(c - {0}, busy);
    SubsetSize(c, (c - {0}) + {0});
  }

  /** Probing began at step i of the run. */
  ghost predicate BeganAt(seed: uint32, es: seq<Event>, i: nat, r: Reader)
    requires r.Probing? || r.Trying?
  {
    && i < |es| && es[i].CheckCount?
    && After(seed, es[..i]).reader == Checking(r.q)
    && r.busy == IdsToward(After(seed, es[..i]).slots, r.q.server)
  }

  /** Probing begins at a count check and keeps its record until it ends. */
  lemma ProbingBegins(s: State, e: Event)
    requires Next(s, e).reader.Probing? || Next(s, e).reader.Trying?
    ensures var r := Next(s, e).reader;
            if s.reader.Probing? || s.reader.Trying? then r.q == s.reader.q && r.busy == s.reader.busy
            else e.CheckCount? && s.reader == Checking(r.q) && r.busy == IdsToward(s.slots, r.q.server)
  {
    hide IdsToward, Touched;
  }

  lemma {:induction false} ProbingBegan(seed: uint32, es: seq<Event>) returns (i: nat)
    requires After(seed, es).reader.Probing? || After(seed, es).reader.Trying?
    ensures BeganAt(seed, es, i, After(seed, es).reader)
  {
    var n := |es| - 1;
    assert n >= 0;
    ProbingBegins(After(seed, es[..n]), es[n]);
    hide Next, IdsToward;
    if After(seed, es[..n]).reader.Probing? || After(seed, es[..n]).reader.Trying? {
      i := ProbingBegan(seed, es[..n]);
      assert es[..n][..i] == es[..i];
    } else {
      i := n;
    }
  }

  /**
   The read loop gives up on identifiers only if, when it began probing, at
   least 63 were in use toward that destination - whatever ran in between and
   wherever the counter wraps.
   */
  lemma GivingUpMeansCrowded(seed: uint32, es: seq<Event>) returns (i: nat)
    requires After(seed, es).reader.Probing? && After(seed, es).reader.tries >= MAX_ATTEMPTS
    ensures BeganAt(seed, es, i, After(seed, es).reader)
    ensures |IdsToward(After(seed, es[..i]).slots, After(seed, es).reader.q.server)| >= MAX_ATTEMPTS - 1
  {
    i := ProbingBegan(seed, es);
    RunsAreProbed(seed, es);
    hide After;
    CrowdedSize(After(seed, es).reader.first, After(seed, es).reader.busy);
  }

  // ---------------------------------------------------------------------
  // Replies reach the client that asked.

  predicate Busy(r: Reader) {
    !r.Idle?
  }

  /** Every session, and every registration under way, was requested. */
  ghost predicate Asked(es: seq<Event>, s: State) {
    && (forall i :: 0 <= i < |s.store| ==> Request(QueryOf(s.store[i])) in es)
    && (Busy(s.reader) ==> Request(s.reader.q) in es)
  }

  lemma MadeForItsQuery(s: State, now: int)
    requires s.reader.Checking?
    ensures var t := Checked(s, now);
            && |s.store| <= |t.store| <= |s.store| + 1
            && (forall i :: 0 <= i < |s.store| ==> t.store[i] == s.store[i])
            && (|t.store| > |s.store| ==> QueryOf(t.store[|s.store|]) == s.reader.q)
  {
    hide IdsToward;
  }

  lemma StoreOnlyGrows(s: State, e: Event)
    ensures var t := Next(s, e);
            && |s.store| <= |t.store|
            && (forall i :: 0 <= i < |s.store| ==> QueryOf(t.store[i]) == QueryOf(s.store[i]))
            && (forall i :: |s.store| <= i < |t.store| ==> Busy(s.reader) && QueryOf(t.store[i]) == s.reader.q)
  {
    if e.CheckCount? && Enabled(s, e) {
      MadeForItsQuery(s, e.now);
    }
    hide IdsToward, Checked;
  }

  lemma ReaderWasAsked(s: State, e: Event)
    requires Busy(Next(s, e).reader)
    ensures e == Request(Next(s, e).reader.q) || (Busy(s.reader) && Next(s, e).reader.q == s.reader.q)
  {
    hide IdsToward, Touched;
  }

  lemma NextKeepsAsked(es: seq<Event>, s: State, e: Event)
    requires Asked(es, s)
    ensures Asked(es + [e], Next(s, e))
  {
    var t := Next(s, e);
    StoreOnlyGrows(s, e);
    if Busy(t.reader) {
      ReaderWasAsked(s, e);
    }
    hide Next, Busy, QueryOf;
  }

  lemma {:induction false} RunsAreAsked(seed: uint32, es: seq<Event>)
    ensures Asked(es, After(seed, es))
  {
    if es != [] {
      var n := |es| - 1;
      RunsAreAsked(seed, es[..n]);
      hide Asked, Next;
      NextKeepsAsked(es[..n], After(seed, es[..n]), es[n]);
      assert es == es[..n] + [es[n]];
    }
  }

  // ---------------------------------------------------------------------
  // Eviction of sessions that are not idle.

  /** A condemned session's stamp is the old one that was read, or newer than the sweep's cutoff. */
  ghost predicate Judged(s: State) {
    && (!s.sweeper.Resting? ==> s.sweeper.cutoff <= s.clock)
    && (s.sweeper.Condemned? ==>
          var w := s.sweeper;
          && w.sid < |s.store| && w.seen < w.cutoff
          && (s.store[w.sid].lastSeen == w.seen || s.store[w.sid].lastSeen >= w.cutoff))
  }

  lemma NextKeepsJudged(s: State, e: Event)
    requires Judged(s)
    ensures Judged(Next(s, e))
  {
    hide IdsToward;
  }

  lemma {:induction false} RunsAreJudged(seed: uint32, es: seq<Event>)
    ensures Judged(After(seed, es))
  {
    if es != [] {
      RunsAreJudged(seed, es[..|es| - 1]);
      hide Judged, Next;
      NextKeepsJudged(After(seed, es[..|es| - 1]), es[|es| - 1]);
    }
  }

  /**
   The entry a sweep deletes is idle if and only if its stamp has not moved
   since the sweep read it: the conditional deletion compares the session, not
   its stamp, so a refresh in between does not save it.
   */
  lemma EvictedIdleIff(seed: uint32, es: seq<Event>)
    requires After(seed, es).sweeper.Condemned?
    ensures var s, t := After(seed, es), After(seed, es + [CompareAndDelete]);
            && s.sweeper.q in s.queries && s.sweeper.q !in t.queries && s.sweeper.sid < |s.store|
            && (s.store[s.sweeper.sid].lastSeen < s.sweeper.cutoff
                <==> s.store[s.sweeper.sid].lastSeen == s.sweeper.seen)
  {
    RunsAreJudged(seed, es);
    RunsAreLinked(seed, es);
    assert (es + [CompareAndDelete])[..|es|] == es;
    assert After(seed, es + [CompareAndDelete]) == Next(After(seed, es), CompareAndDelete);
    hide After;
  }

  lemma Extended(seed: uint32, es: seq<Event>, e: Event)
    ensures After(seed, es + [e]) == Next(After(seed, es), e)
  {
    assert (es + [e])[..|es|] == es;
  }

  /** Three steps of the sweep condemn an entry that was idle for longer than the timeout. */
  lemma SweepCondemns(s: State, q: QueryKey, now: int)
    requires s.sweeper.Resting? && s.clock <= now && q in s.queries && s.queries[q] < |s.store|
    requires s.store[s.queries[q]].lastSeen < now - TIMEOUT
    ensures Next(Next(Next(s, BeginSweep(now)), Visit(q)), CheckIdle)
         == s.(sweeper := Condemned(now - TIMEOUT, q, s.queries[q], s.store[s.queries[q]].lastSeen), clock := now)
  {
  }

  /** Three steps of the read loop refresh a known query. */
  lemma RepeatRefreshes(s: State, q: QueryKey)
    requires s.reader.Idle? && q in s.queries && s.queries[q] < |s.store|
    ensures Next(Next(Next(s, Request(q)), LoadQuery), Refresh(s.clock)) == s.(store := Touched(s.store, s.queries[q], s.clock))
  {
  }

  function Race(q: QueryKey, now: int): seq<Event> {
    [BeginSweep(now), Visit(q), CheckIdle, Request(q), LoadQuery, Refresh(now)]
  }

  lemma RaceRuns(seed: uint32, es: seq<Event>, q: QueryKey, now: int)
    ensures var s := Next(Next(Next(After(seed, es), BeginSweep(now)), Visit(q)), CheckIdle);
            After(seed, es + Race(q, now)) == Next(Next(Next(s, Request(q)), LoadQuery), Refresh(now))
  {
    hide Next;
    Extended(seed, es, BeginSweep(now));
    Extended(seed, es + [BeginSweep(now)], Visit(q));
    Extended(seed, es + [BeginSweep(now)] + [Visit(q)], CheckIdle);
    var d := es + [BeginSweep(now)] + [Visit(q)] + [CheckIdle];
    Extended(seed, d, Request(q));
    Extended(seed, d + [Request(q)], LoadQuery);
    Extended(seed, d + [Request(q)] + [LoadQuery], Refresh(now));
    assert es + Race(q, now) == d + [Request(q)] + [LoadQuery] + [Refresh(now)];
  }

  /**
   In every state at rest with an idle entry, a repeat request can land between
   the idle check and the deletion: it is answered with the session, stamped
   just now, and the deletion drops it all the same.
   */
  lemma RefreshedYetEvicted(seed: uint32, es: seq<Event>, q: QueryKey, now: int)
    requires var s := After(seed, es);
             && s.reader.Idle? && s.sweeper.Resting? && s.clock <= now
             && q in s.queries && s.queries[q] < |s.store| && s.store[s.queries[q]].lastSeen < now - TIMEOUT
    ensures var s := After(seed, es + Race(q, now));
            q in s.queries && s.queries[q] < |s.store| && s.store[s.queries[q]].lastSeen == now == s.clock
    ensures q !in After(seed, es + Race(q, now) + [CompareAndDelete]).queries
  {
    var s := After(seed, es);
    RaceRuns(seed, es, q, now);
    SweepCondemns(s, q, now);
    var t := s.(sweeper := Condemned(now - TIMEOUT, q, s.queries[q], s.store[s.queries[q]].lastSeen), clock := now);
    RepeatRefreshes(t, q);
    Extended(seed, es + Race(q, now), CompareAndDelete);
    var u := After(seed, es + Race(q, now));
    assert u == t.(store := Touched(t.store, t.queries[q], now));
    hide After, Next;
    EvictionIsUnconditional(u, q);
  }

  lemma EvictionIsUnconditional(s: State, q: QueryKey)
    requires s.sweeper.Condemned? && s.sweeper.q == q && q in s.queries && s.queries[q] == s.sweeper.sid
    ensures q !in Next(s, CompareAndDelete).queries
  {
  }

  function Registration(q: QueryKey): seq<Event> {
    [Request(q), LoadQuery, CheckCount(0), NextCandidate] + [LoadSlot, StoreSlot, StoreQuery, CountUp]
  }

  lemma FourSteps(seed: uint32, es: seq<Event>, a: Event, b: Event, c: Event, d: Event)
    ensures After(seed, es + [a, b, c, d]) == Next(Next(Next(Next(After(seed, es), a), b), c), d)
  {
    hide Next;
    Extended(seed, es, a);
    Extended(seed, es + [a], b);
    Extended(seed, es + [a] + [b], c);
    Extended(seed, es + [a] + [b] + [c], d);
    assert es + [a, b, c, d] == es + [a] + [b] + [c] + [d];
  }

  lemma FirstHalf(q: QueryKey, s: State)
    requires s == State([Session(q.server, q.client, q.id, 0, 0)], map[], map[], 0, 1, Trying(q, 0, 1, 0, {}, 1), Resting, Waiting, 0)
    ensures Next(Next(Next(Next(Init(0), Request(q)), LoadQuery), CheckCount(0)), NextCandidate) == s
  {
    assert IdsToward(map[], q.server) == {};
  }

  lemma SecondHalf(q: QueryKey, s: State)
    requires s == State([Session(q.server, q.client, q.id, 0, 0)], map[], map[], 0, 1, Trying(q, 0, 1, 0, {}, 1), Resting, Waiting, 0)
    ensures var t := Next(Next(Next(Next(s, LoadSlot), StoreSlot), StoreQuery), CountUp);
            && t.reader.Idle? && t.sweeper.Resting? && t.clock == 0
            && q in t.queries && t.queries[q] == 0 && |t.store| == 1 && t.store[0].lastSeen == 0
  {
  }

  /** Such a state exists: one echo request leads there. */
  lemma RaceIsReachable(q: QueryKey)
    ensures q !in After(0, Registration(q) + Race(q, TIMEOUT + 1) + [CompareAndDelete]).queries
    ensures q in After(0, Registration(q) + Race(q, TIMEOUT + 1)).queries
  {
    var s := State([Session(q.server, q.client, q.id, 0, 0)], map[], map[], 0, 1, Trying(q, 0, 1, 0, {}, 1), Resting, Waiting, 0);
    FirstHalf(q, s);
    SecondHalf(q, s);
    FourSteps(0, [], Request(q), LoadQuery, CheckCount(0), NextCandidate);
    assert [] + [Request(q), LoadQuery, CheckCount(0), NextCandidate] == [Request(q), LoadQuery, CheckCount(0), NextCandidate];
    FourSteps(0, [Request(q), LoadQuery, CheckCount(0), NextCandidate], LoadSlot, StoreSlot, StoreQuery, CountUp);
    assert After(0, []) == Init(0);
    hide After, Next;
    RefreshedYetEvicted(0, Registration(q), q, TIMEOUT + 1);
  }
}
