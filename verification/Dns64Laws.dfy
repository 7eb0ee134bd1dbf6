/**
 Where every AAAA record comes from, over runs of concurrent questions, cache
 hits and reloads.
 */
module Dns64Laws {
  import opened Octets
  import opened Buffers
  import opened Records
  import opened Prefixes
  import opened Dns64
  import C = DnsCaches

  // ---------------------------------------------------------------------
  // One resolution.

  /** r is the upstream AAAA record u, perhaps aged, and u is admitted. */
  predicate Passes(cfg: Config, z: Zone, u: RR, r: RR) {
    u.Aaaa? && r.Aaaa? && r.owner == u.owner && r.v6 == u.v6 && r.ttl <= u.ttl && Admitted(cfg, z, u)
  }

  /** r embeds the upstream A record u, with a TTL within both bounds; 0.0.0.0 may instead have become ::. */
  predicate Embeds(cfg: Config, p: Pref64, name: string, cap: uint32, u: RR, r: RR) {
    && u.A? && r.Aaaa? && r.owner == OwnerName(u, name) && r.ttl <= u.ttl && r.ttl <= cap
    && if u.v4 == [0, 0, 0, 0] && cfg.ia.Process? then r.v6 == Unspecified()
       else r.v6 == Embed(p, u.v4) && !Ignored(cfg, u.v4)
  }

  ghost predicate Sourced(cfg: Config, z: Zone, name: string, up: Option<Reply>, a: Option<Reply>, r: RR) {
    && up.Some?
    && (|| (exists u :: u in up.value.answer && Passes(cfg, z, u, r))
        || (z.prefix.Some? && a.Some? && exists u :: u in a.value.answer && Embeds(cfg, z.prefix.value, name, Cap(up.value.ns), u, r)))
  }

  /** The answer to the A question decides: no usable AAAA came from upstream, and the zone has a prefix. */
  predicate AsksA(cfg: Config, z: Zone, up: Option<Reply>, a: Option<Reply>) {
    && up.Some? && up.value.rcode != NAME_ERROR
    && !(up.value.rcode == NO_ERROR && HasAaaa(Filtered(cfg, z, up.value.answer)))
    && z.prefix.Some? && a.Some?
  }

  /** r came along as an AAAA record in the answer to the A question, perhaps aged. */
  ghost predicate Stowed(a: Option<Reply>, r: RR) {
    a.Some? && exists u :: u in a.value.answer && SameBut(u, r)
  }

  predicate SameBut(u: RR, r: RR) {
    u.Aaaa? && r.Aaaa? && r.owner == u.owner && r.v6 == u.v6 && r.ttl <= u.ttl
  }

  ghost predicate Traced(cfg: Config, z: Zone, name: string, up: Option<Reply>, a: Option<Reply>, r: RR) {
    Sourced(cfg, z, name, up, a, r) || (AsksA(cfg, z, up, a) && Stowed(a, r))
  }

  lemma FilteredIsSourced(cfg: Config, z: Zone, name: string, up: Option<Reply>, a: Option<Reply>, r: RR)
    requires up.Some? && r.Aaaa? && r in Filtered(cfg, z, up.value.answer)
    ensures Sourced(cfg, z, name, up, a, r)
  {
    FilterKeeps(up.value.answer, AdmittedBy(cfg, z), r);
    assert Passes(cfg, z, r, r);
  }

  lemma SynthesisedIsSourced(cfg: Config, z: Zone, name: string, up: Option<Reply>, a: Option<Reply>, r: RR)
    requires up.Some? && a.Some? && z.prefix.Some?
    requires r in Synthesised(cfg, z.prefix.value, name, Cap(up.value.ns), a.value.answer)
    ensures Sourced(cfg, z, name, up, a, r)
  {
    var p, cap := z.prefix.value, Cap(up.value.ns);
    SynthesisedFrom(cfg, p, name, cap, a.value.answer, r);
    var i :| 0 <= i < |a.value.answer| && r in FromA(cfg, p, name, cap, a.value.answer[i]);
    var u := a.value.answer[i];
    assert u in a.value.answer && Embeds(cfg, p, name, cap, u, r);
  }

  /** Every AAAA of a fresh answer has its source, or was in the answer to the A question. */
  lemma ResolvedIsTraced(cfg: Config, z: Zone, name: string, up: Option<Reply>, a: Option<Reply>, r: RR)
    requires r.Aaaa?
    requires var x := Resolved(cfg, z, name, up, a).0; x.Answer? && r in x.records
    ensures Sourced(cfg, z, name, up, a, r) || (AsksA(cfg, z, up, a) && r in a.value.answer)
    ensures Traced(cfg, z, name, up, a, r)
  {
    hide Sourced, Filter, Synthesised;
    var filtered := Filtered(cfg, z, up.value.answer);
    if up.value.rcode == NO_ERROR && HasAaaa(filtered) {
      FilteredIsSourced(cfg, z, name, up, a, r);
    } else {
      FilterKeeps(a.value.answer, NotA(), r);
      if r in a.value.answer {
        assert SameBut(r, r);
      } else {
        SynthesisedIsSourced(cfg, z, name, up, a, r);
      }
    }
  }

  /** In no excluded subnet and, if unspecified, passed on, else returned by the zone. */
  ghost predicate MayPass(cfg: Config, z: Zone, v6: Octets16) {
    && (forall i :: 0 <= i < |cfg.excluded| ==> !cfg.excluded[i](v6))
    && if v6 == Zeros(16) || v6 == Zeros(10) + [255, 255, 0, 0, 0, 0] then cfg.ia.Process? else z.returnV6
  }

  /** Filtering keeps everything but the AAAA records that may not pass. */
  lemma FilteredExactly(cfg: Config, z: Zone, rrs: seq<RR>, r: RR)
    ensures r in Filtered(cfg, z, rrs) <==> r in rrs && (r.Aaaa? ==> MayPass(cfg, z, r.v6))
  {
    FilterKeeps(rrs, AdmittedBy(cfg, z), r);
    assert Zeros(10) + [255, 255] + Zeros(4) == Zeros(10) + [255, 255, 0, 0, 0, 0];
    hide Filter;
  }

  /** The cache serves a name if and only if it has a usable AAAA for it: live, and in no excluded subnet. Then it serves all it has but the excluded ones. */
  lemma CacheServesIff(cfg: Config, c: C.Cache, name: string, now: int, r: RR)
    ensures FromCache(cfg, c, name, now).Some? <==>
              && C.Got(c, C.Key(name, 28), now).Some?
              && exists u :: u in C.Got(c, C.Key(name, 28), now).value && u.Aaaa? && forall i :: 0 <= i < |cfg.excluded| ==> !cfg.excluded[i](u.v6)
    ensures FromCache(cfg, c, name, now).Some? ==>
              (r in FromCache(cfg, c, name, now).value <==>
                 && r in C.Got(c, C.Key(name, 28), now).value
                 && (r.Aaaa? ==> forall i :: 0 <= i < |cfg.excluded| ==> !cfg.excluded[i](r.v6)))
  {
    hide C.Got, Filter;
    var got := C.Got(c, C.Key(name, 28), now);
    if got.Some? {
      var kept := DroppedExcluded(cfg, got.value);
      FilterKeeps(got.value, OutsideOf(cfg), r);
      if i :| 0 <= i < |kept| && kept[i].Aaaa? {
        FilterKeeps(got.value, OutsideOf(cfg), kept[i]);
      }
      if u :| u in got.value && u.Aaaa? && forall i :: 0 <= i < |cfg.excluded| ==> !cfg.excluded[i](u.v6) {
        FilterKeeps(got.value, OutsideOf(cfg), u);
        var i :| 0 <= i < |kept| && kept[i] == u;
      }
    }
  }

  /** What an A record gives rise to, if anything. */
  ghost predicate GivesRise(cfg: Config, p: Pref64, name: string, cap: uint32, u: RR, r: RR) {
    && u.A? && r.Aaaa? && r == Synthetic(name, cap, u, r.v6)
    && if u.v4 == [0, 0, 0, 0] && !cfg.ia.Ignore? then cfg.ia.Process? && r.v6 == Zeros(16)
       else r.v6 == Embed(p, u.v4) && forall i :: 0 <= i < |cfg.ignored| ==> !cfg.ignored[i](u.v4)
  }

  lemma FromAIff(cfg: Config, p: Pref64, name: string, cap: uint32, u: RR, r: RR)
    ensures r in FromA(cfg, p, name, cap, u) <==> GivesRise(cfg, p, name, cap, u, r)
  {
    hide Embed;
  }

  /** A record is synthesised if and only if an A record gives rise to it. */
  lemma SynthesisedExactly(cfg: Config, p: Pref64, name: string, cap: uint32, rrs: seq<RR>, r: RR)
    ensures r in Synthesised(cfg, p, name, cap, rrs) <==> exists u :: u in rrs && GivesRise(cfg, p, name, cap, u, r)
  {
    SynthesisedFrom(cfg, p, name, cap, rrs, r);
    hide FromA, GivesRise, Synthesised;
    forall i | 0 <= i < |rrs|
      ensures r in FromA(cfg, p, name, cap, rrs[i]) <==> rrs[i] in rrs && GivesRise(cfg, p, name, cap, rrs[i], r)
    {
      FromAIff(cfg, p, name, cap, rrs[i], r);
    }
  }

  /** The AAAA record that an ordinary A record must give rise to. */
  function Synthetic(name: string, cap: uint32, u: RR, v6: Octets16): RR {
    Aaaa(if u.owner == "" then name else u.owner, if u.ttl < cap then u.ttl else cap, v6)
  }

  /** An ordinary A record gives rise to its embedding. */
  lemma OrdinaryIsSynthesised(cfg: Config, p: Pref64, name: string, cap: uint32, rrs: seq<RR>, u: RR)
    requires u in rrs && u.A? && !Ignored(cfg, u.v4) && (u.v4 != [0, 0, 0, 0] || cfg.ia.Ignore?)
    ensures Synthetic(name, cap, u, Embed(p, u.v4)) in Synthesised(cfg, p, name, cap, rrs)
  {
    var i :| 0 <= i < |rrs| && rrs[i] == u;
    assert Synthetic(name, cap, u, Embed(p, u.v4)) in FromA(cfg, p, name, cap, rrs[i]);
    SynthesisedFrom(cfg, p, name, cap, rrs, Synthetic(name, cap, u, Embed(p, u.v4)));
  }

  /** And 0.0.0.0 to ::, where unspecified addresses are passed on. */
  lemma UnspecifiedIsSynthesised(cfg: Config, p: Pref64, name: string, cap: uint32, rrs: seq<RR>, u: RR)
    requires u in rrs && u.A? && u.v4 == [0, 0, 0, 0] && cfg.ia.Process?
    ensures Synthetic(name, cap, u, Unspecified()) in Synthesised(cfg, p, name, cap, rrs)
  {
    var i :| 0 <= i < |rrs| && rrs[i] == u;
    assert Synthetic(name, cap, u, Unspecified()) in FromA(cfg, p, name, cap, rrs[i]);
    SynthesisedFrom(cfg, p, name, cap, rrs, Synthetic(name, cap, u, Unspecified()));
  }

  /** r is served fresh, with no error, and stored. */
  ghost predicate ServedAndStored(cfg: Config, z: Zone, name: string, up: Option<Reply>, a: Option<Reply>, r: RR) {
    var (x, kept) := Resolved(cfg, z, name, up, a);
    x.Answer? && x.rcode == NO_ERROR && r in x.records && kept.Some? && r in kept.value
  }

  /**
   Completeness: where the answer to the A question decides and is no error,
   each of its A records that is neither ignored nor a special 0.0.0.0 is
   served and stored as its embedding, with the smaller of its TTL and the cap;
   each admitted upstream AAAA is served and stored as it is where there is one.
   */
  lemma EverySourceIsServed(cfg: Config, z: Zone, name: string, up: Option<Reply>, a: Option<Reply>, u: RR)
    ensures AsksA(cfg, z, up, a) && a.value.rcode == NO_ERROR && u in a.value.answer && u.A? && !Ignored(cfg, u.v4)
            && (u.v4 != [0, 0, 0, 0] || cfg.ia.Ignore?) ==>
              ServedAndStored(cfg, z, name, up, a, Synthetic(name, Cap(up.value.ns), u, Embed(z.prefix.value, u.v4)))
    ensures AsksA(cfg, z, up, a) && a.value.rcode == NO_ERROR && u in a.value.answer && u.A?
            && u.v4 == [0, 0, 0, 0] && cfg.ia.Process? ==>
              ServedAndStored(cfg, z, name, up, a, Synthetic(name, Cap(up.value.ns), u, Unspecified()))
    ensures up.Some? && up.value.rcode == NO_ERROR && u in up.value.answer && u.Aaaa? && Admitted(cfg, z, u) ==>
              ServedAndStored(cfg, z, name, up, a, u)
  {
    if AsksA(cfg, z, up, a) && a.value.rcode == NO_ERROR && u in a.value.answer && u.A? {
      var p, cap := z.prefix.value, Cap(up.value.ns);
      if !Ignored(cfg, u.v4) && (u.v4 != [0, 0, 0, 0] || cfg.ia.Ignore?) {
        OrdinaryIsSynthesised(cfg, p, name, cap, a.value.answer, u);
      }
      if u.v4 == [0, 0, 0, 0] && cfg.ia.Process? {
        UnspecifiedIsSynthesised(cfg, p, name, cap, a.value.answer, u);
      }
    }
    hide Filter, Synthesised, Ignored, Cap, Admitted;
    if up.Some? && u in up.value.answer && u.Aaaa? && Admitted(cfg, z, u) {
      FilterKeeps(up.value.answer, AdmittedBy(cfg, z), u);
      var i :| 0 <= i < |Filtered(cfg, z, up.value.answer)| && Filtered(cfg, z, up.value.answer)[i] == u;
      assert HasAaaa(Filtered(cfg, z, up.value.answer));
    }
  }

  /** Nothing is stored, and no AAAA made up, in the other cases: the error or the empty answer goes to the client. */
  lemma OtherwiseNothingIsStored(cfg: Config, z: Zone, name: string, up: Option<Reply>, a: Option<Reply>)
    ensures up.None? ==> Resolved(cfg, z, name, up, a) == (Failed, None)
    ensures up.Some? && up.value.rcode == NAME_ERROR ==> Resolved(cfg, z, name, up, a) == (Answer(NAME_ERROR, []), None)
    ensures up.Some? && up.value.rcode != NAME_ERROR && !AsksA(cfg, z, up, a)
            && !(up.value.rcode == NO_ERROR && exists u :: u in up.value.answer && u.Aaaa? && Admitted(cfg, z, u)) ==>
              Resolved(cfg, z, name, up, a) == (if z.prefix.None? then Answer(NO_ERROR, []) else Failed, None)
    ensures AsksA(cfg, z, up, a) && a.value.rcode != NO_ERROR ==>
              Resolved(cfg, z, name, up, a) == (Answer(a.value.rcode, Filter(a.value.answer, NotA())), None)
  {
    hide Filter, Synthesised;
    if up.Some? && HasAaaa(Filtered(cfg, z, up.value.answer)) {
      var i :| 0 <= i < |Filtered(cfg, z, up.value.answer)| && Filtered(cfg, z, up.value.answer)[i].Aaaa?;
      FilterKeeps(up.value.answer, AdmittedBy(cfg, z), Filtered(cfg, z, up.value.answer)[i]);
    }
  }

  /** An AAAA in the answer to the A question is served as it came. */
  lemma StowedIsServed(cfg: Config, z: Zone, name: string, up: Option<Reply>, a: Option<Reply>, r: RR)
    requires AsksA(cfg, z, up, a) && r in a.value.answer && r.Aaaa?
    ensures Resolved(cfg, z, name, up, a).0.Answer? && r in Resolved(cfg, z, name, up, a).0.records
  {
    FilterKeeps(a.value.answer, NotA(), r);
    hide Filter, Synthesised;
  }

  /**
   Every AAAA of a fresh answer is an admitted upstream AAAA or the embedding
   of an upstream A if and only if that is true already of every AAAA in the
   answer to the A question, where that answer decides.
   */
  lemma ResolvedIsSourcedIff(cfg: Config, z: Zone, name: string, up: Option<Reply>, a: Option<Reply>)
    ensures var x := Resolved(cfg, z, name, up, a).0;
            (x.Answer? ==> forall r :: r in x.records && r.Aaaa? ==> Sourced(cfg, z, name, up, a, r))
            <==> (AsksA(cfg, z, up, a) ==> forall r :: r in a.value.answer && r.Aaaa? ==> Sourced(cfg, z, name, up, a, r))
  {
    hide Sourced, Resolved;
    var x := Resolved(cfg, z, name, up, a).0;
    forall r | x.Answer? && r in x.records && r.Aaaa?
      ensures Sourced(cfg, z, name, up, a, r) || (AsksA(cfg, z, up, a) && r in a.value.answer)
    {
      ResolvedIsTraced(cfg, z, name, up, a, r);
    }
    forall r | AsksA(cfg, z, up, a) && r in a.value.answer && r.Aaaa?
      ensures x.Answer? && r in x.records
    {
      StowedIsServed(cfg, z, name, up, a, r);
    }
  }

  lemma NothingFiltered(cfg: Config, z: Zone)
    ensures Filtered(cfg, z, []) == []
  {
  }

  lemma NothingSynthesised(cfg: Config, p: Pref64, name: string, cap: uint32, r: RR)
    requires r.Aaaa?
    ensures Synthesised(cfg, p, name, cap, [r]) == []
  {
    assert [r][..0] == [];
  }

  /**
   It fails for every zone with a prefix and every excluded address: upstream
   has no AAAA, the answer to the A question holds the excluded one, and it is
   served although no upstream AAAA or A record accounts for it.
   */
  lemma ExcludedYetServed(cfg: Config, z: Zone, name: string, r: RR)
    requires z.prefix.Some? && r.Aaaa? && Excluded(cfg, r.v6)
    ensures var up, a := Some(Reply(NO_ERROR, [], [])), Some(Reply(NO_ERROR, [r], []));
            && Resolved(cfg, z, name, up, a).0 == Answer(NO_ERROR, [r])
            && !Admitted(cfg, z, r) && !Sourced(cfg, z, name, up, a, r)
  {
    var up, a := Some(Reply(NO_ERROR, [], [])), Some(Reply(NO_ERROR, [r], []));
    NothingFiltered(cfg, z);
    FilterAll([r], NotA());
    NothingSynthesised(cfg, z.prefix.value, name, Cap([]), r);
    hide Filter, Synthesised, Cap;
  }

  lemma KeptIsAnswered(cfg: Config, z: Zone, name: string, up: Option<Reply>, a: Option<Reply>)
    requires Resolved(cfg, z, name, up, a).1.Some?
    ensures Resolved(cfg, z, name, up, a).0 == Answer(NO_ERROR, Resolved(cfg, z, name, up, a).1.value)
  {
  }

  /** Ageing keeps the source. */
  lemma AgedIsTraced(cfg: Config, z: Zone, name: string, up: Option<Reply>, a: Option<Reply>, r: RR, ttl: uint32)
    requires r.Aaaa? && ttl <= r.ttl
    ensures Sourced(cfg, z, name, up, a, r) ==> Sourced(cfg, z, name, up, a, WithTtl(r, ttl))
    ensures Traced(cfg, z, name, up, a, r) ==> Traced(cfg, z, name, up, a, WithTtl(r, ttl))
  {
    var s := WithTtl(r, ttl);
    if Sourced(cfg, z, name, up, a, r) {
      if u :| u in up.value.answer && Passes(cfg, z, u, r) {
        assert Passes(cfg, z, u, s);
      } else {
        var u :| u in a.value.answer && Embeds(cfg, z.prefix.value, name, Cap(up.value.ns), u, r);
        assert Embeds(cfg, z.prefix.value, name, Cap(up.value.ns), u, s);
      }
    } else if Stowed(a, r) {
      var u :| u in a.value.answer && SameBut(u, r);
      assert SameBut(u, s);
    }
  }

  /** With the zone prefix the translator's pool, the embedded address leads back to the A record. */
  lemma EmbeddedLeadsBack(cfg: Config, p: Pref64, name: string, cap: uint32, u: RR, r: RR)
    requires Valid(p) && Embeds(cfg, p, name, cap, u, r)
    requires !(u.v4 == [0, 0, 0, 0] && cfg.ia.Process?)
    ensures Extract(p, r.v6) == Some(u.v4) <==> !Hidden(p, u.v4)
  {
    RoundTripIff(p, u.v4);
  }

  // ---------------------------------------------------------------------
  // Runs.

  /** How far a question has come. One that holds records resolved them under `cfg` and has yet to store and send them. */
  datatype Phase = Asking | Missed | Holding(rrs: seq<RR>, cfg: Config)

  /** A question in flight with the zone it was matched to; `epoch` counts the swaps of settings before it. */
  datatype Question = Question(name: string, zone: Zone, epoch: nat, phase: Phase)

  /** A reload swaps the settings and then flushes the cache; `flushed` is how many swaps the last flush came after. */
  datatype State = State(cfg: Config, cache: C.Cache, open: map<nat, Question>, swaps: nat, flushed: nat)

  datatype Event =
    | Start(id: nat, name: string)
    | Lookup(id: nat, asked: int)
    | Resolve(id: nat, up: Option<Reply>, a: Option<Reply>)
    | Store(id: nat, now: int, later: int, victim: C.Key)
    | Purge(now: int)
    | Swap(cfg: Config)
    | Flush(defaultExp: int, maxEntries: int)

  predicate Enabled(s: State, e: Event) {
    match e
    case Start(id, name) => id !in s.open && name in s.cfg.zones
    case Lookup(id, _) => id in s.open && s.open[id].phase.Asking?
    case Resolve(id, _, _) => id in s.open && s.open[id].phase.Missed?
    case Store(id, _, _, _) => id in s.open && s.open[id].phase.Holding?
    case _ => true
  }

  function Outcome(s: State, e: Event): (Answer, Option<seq<RR>>)
    requires e.Resolve? && Enabled(s, e)
  {
    var q := s.open[e.id];
    Resolved(s.cfg, q.zone, q.name, e.up, e.a)
  }

  /** The records a step sends to a client. */
  function Served(s: State, e: Event): seq<RR>
    requires Enabled(s, e)
  {
    match e
    case Lookup(id, asked) =>
      var hit := FromCache(s.cfg, s.cache, s.open[id].name, asked);
      if hit.Some? then hit.value else []
    case Resolve(_, _, _) =>
      var (x, kept) := Outcome(s, e);
      if x.Answer? && kept.None? then x.records else []
    case Store(id, _, _, _) => s.open[id].phase.rrs
    case _ => []
  }

  function Step(s: State, e: Event): State
    requires Enabled(s, e)
  {
    match e
    case Start(id, name) => s.(open := s.open[id := Question(name, s.cfg.zones[name], s.swaps, Asking)])
    case Lookup(id, asked) =>
      if FromCache(s.cfg, s.cache, s.open[id].name, asked).Some? then s.(open := s.open - {id})
      else s.(open := s.open[id := s.open[id].(phase := Missed)])
    case Resolve(id, _, _) =>
      var kept := Outcome(s, e).1;
      if kept.None? then s.(open := s.open - {id})
      else s.(open := s.open[id := s.open[id].(phase := Holding(kept.value, s.cfg))])
    case Store(id, now, later, victim) =>
      var q := s.open[id];
      s.(open := s.open - {id}, cache := C.Stored(s.cache, C.Key(q.name, AAAA), q.phase.rrs, now, later, victim))
    case Purge(now) => s.(cache := C.Purged(s.cache, now))
    case Swap(cfg) => s.(cfg := cfg, swaps := s.swaps + 1)
    case Flush(d, m) => s.(cache := C.Reloaded(s.cache, d, m), flushed := s.swaps)
  }

  function Next(s: State, e: Event): State {
    if Enabled(s, e) then Step(s, e) else s
  }

  function After(s: State, es: seq<Event>): State {
    if es == [] then s else Next(After(s, es[..|es| - 1]), es[|es| - 1])
  }

  ghost predicate Initial(s: State) {
    s.cache.items == map[] && s.open == map[] && s.flushed == s.swaps
  }

  /** No reload is between its swap and its flush. */
  predicate Settled(s: State) {
    s.flushed == s.swaps
  }

  /** An answer is made or stored in this step. */
  predicate Answers(s: State, e: Event) {
    (e.Resolve? || e.Store?) && Enabled(s, e)
  }

  /** The question was started before the last swap. */
  predicate Straddles(s: State, e: Event)
    requires Answers(s, e)
  {
    s.open[e.id].epoch != s.swaps
  }

  /** The zone the question was matched to, and the settings it was resolved under if it was, are these. */
  ghost predicate Agrees(q: Question, cfg: Config) {
    q.name in cfg.zones && q.zone == cfg.zones[q.name] && (q.phase.Holding? ==> q.phase.cfg == cfg)
  }

  /** They are those in force. */
  ghost predicate Stands(s: State, e: Event)
    requires Answers(s, e)
  {
    Agrees(s.open[e.id], s.cfg)
  }

  /** Step j made or stored an answer for that name. */
  ghost predicate AnswersFor(s: State, es: seq<Event>, j: nat, name: string) {
    j < |es| && Answers(After(s, es[..j]), es[j]) && After(s, es[..j]).open[es[j].id].name == name
  }

  /** The record goes back to the resolution that step i completed for that name. */
  ghost predicate Origin(s: State, es: seq<Event>, i: nat, name: string, r: RR) {
    && AnswersFor(s, es, i, name) && es[i].Resolve?
    && var t := After(s, es[..i]);
       Traced(t.cfg, t.open[es[i].id].zone, name, es[i].up, es[i].a, r)
  }

  /** That resolution used the zone and settings in force now. */
  ghost predicate Current(s: State, es: seq<Event>, i: nat, name: string)
    requires AnswersFor(s, es, i, name)
  {
    var t, now := After(s, es[..i]), After(s, es);
    t.cfg == now.cfg && name in now.cfg.zones && t.open[es[i].id].zone == now.cfg.zones[name]
  }

  /** Questions of this epoch were matched against the present zones and resolved under the present settings. */
  ghost predicate OpenIsCurrent(s: State) {
    && s.flushed <= s.swaps
    && forall id :: id in s.open ==>
         && s.open[id].epoch <= s.swaps
         && (s.open[id].epoch == s.swaps ==> Agrees(s.open[id], s.cfg))
  }

  lemma NextKeepsOpen(s: State, e: Event)
    requires OpenIsCurrent(s)
    ensures OpenIsCurrent(Next(s, e))
  {
    hide Resolved, FromCache, C.Stored, C.Purged, C.Reloaded;
  }

  lemma {:induction false} RunsKeepOpen(s: State, es: seq<Event>)
    requires Initial(s)
    ensures OpenIsCurrent(After(s, es))
  {
    if es != [] {
      RunsKeepOpen(s, es[..|es| - 1]);
      hide OpenIsCurrent, Next;
      NextKeepsOpen(After(s, es[..|es| - 1]), es[|es| - 1]);
    }
  }

  // ---------------------------------------------------------------------
  // What a question holds goes back to its resolution.

  /** Question id comes out of this step holding records. */
  predicate Takes(s: State, e: Event, id: nat) {
    e.Resolve? && e.id == id && Enabled(s, e) && Outcome(s, e).1.Some?
  }

  lemma HeldStays(s: State, e: Event, id: nat)
    requires id in Next(s, e).open && Next(s, e).open[id].phase.Holding? && !Takes(s, e, id)
    ensures id in s.open && s.open[id] == Next(s, e).open[id]
  {
    hide Resolved, FromCache, C.Stored, C.Purged, C.Reloaded;
  }

  lemma TakenIsHeld(s: State, e: Event, id: nat)
    requires Takes(s, e, id)
    ensures id in Next(s, e).open && Next(s, e).open[id] == s.open[id].(phase := Holding(Outcome(s, e).1.value, s.cfg))
  {
    hide Resolved;
  }

  lemma TakenIsTraced(s: State, e: Event, id: nat, r: RR)
    requires Takes(s, e, id) && r.Aaaa? && r in Outcome(s, e).1.value
    ensures Traced(s.cfg, s.open[id].zone, s.open[id].name, e.up, e.a, r)
  {
    var q := s.open[id];
    hide Resolved, Sourced, Traced;
    KeptIsAnswered(s.cfg, q.zone, q.name, e.up, e.a);
    ResolvedIsTraced(s.cfg, q.zone, q.name, e.up, e.a, r);
  }

  /** Step i resolved question q, as q remembers it. */
  ghost predicate ResolvedAt(s: State, es: seq<Event>, i: nat, q: Question) {
    && AnswersFor(s, es, i, q.name) && es[i].Resolve? && q.phase.Holding?
    && After(s, es[..i]).cfg == q.phase.cfg && After(s, es[..i]).open[es[i].id].zone == q.zone
  }

  lemma {:induction false} HeldHasOrigin(s: State, es: seq<Event>, id: nat, r: RR) returns (i: nat)
    requires Initial(s) && r.Aaaa?
    requires id in After(s, es).open && After(s, es).open[id].phase.Holding? && r in After(s, es).open[id].phase.rrs
    ensures ResolvedAt(s, es, i, After(s, es).open[id]) && Origin(s, es, i, After(s, es).open[id].name, r)
  {
    var n := |es| - 1;
    assert n >= 0;
    var t, e := After(s, es[..n]), es[n];
    assert After(s, es) == Next(t, e);
    if Takes(t, e, id) {
      i := n;
      TakenIsHeld(t, e, id);
      hide After, Next, Traced, Outcome;
      TakenIsTraced(t, e, id, r);
    } else {
      HeldStays(t, e, id);
      hide Next, Traced, Outcome, Takes;
      i := HeldHasOrigin(s, es[..n], id, r);
      assert es[..n][..i] == es[..i] && es[..n][i] == es[i];
      hide After;
    }
  }

  // ---------------------------------------------------------------------
  // What the cache holds goes back to a store, and so to a resolution.

  predicate Puts(s: State, e: Event, k: C.Key) {
    e.Store? && Enabled(s, e) && k == C.Key(s.open[e.id].name, AAAA)
  }

  /** An entry is new with this step or was there before, and then the step was no flush. */
  lemma EntryStays(s: State, e: Event, k: C.Key)
    requires k in Next(s, e).cache.items && !Puts(s, e, k)
    ensures k in s.cache.items && Next(s, e).cache.items[k] == s.cache.items[k] && Next(s, e).flushed == s.flushed
    ensures s.swaps <= Next(s, e).swaps && (s.swaps == Next(s, e).swaps ==> Next(s, e).cfg == s.cfg)
  {
    hide Resolved, FromCache;
  }

  lemma EntryIsNew(s: State, e: Event, k: C.Key)
    requires Puts(s, e, k)
    ensures k in Next(s, e).cache.items && Next(s, e).cache.items[k].value == s.open[e.id].phase.rrs
    ensures Next(s, e).cfg == s.cfg && Next(s, e).swaps == s.swaps && Next(s, e).flushed == s.flushed
  {
  }

  /** Step j stored the entry, after every swap that the last flush came after. */
  ghost predicate StoredAt(s: State, es: seq<Event>, j: nat, name: string) {
    && AnswersFor(s, es, j, name) && es[j].Store?
    && var t, now := After(s, es[..j]), After(s, es);
       now.flushed <= t.swaps <= now.swaps && (t.swaps == now.swaps ==> t.cfg == now.cfg)
  }

  /** Every AAAA in the cache was stored by a question that is not older than the last flush, and has an origin. */
  lemma {:induction false} CachedHasOrigin(s: State, es: seq<Event>, k: C.Key, r: RR) returns (i: nat, j: nat)
    requires Initial(s) && r.Aaaa?
    requires k in After(s, es).cache.items && r in After(s, es).cache.items[k].value
    ensures i < j && StoredAt(s, es, j, k.name)
    ensures Origin(s, es, i, k.name, r) && ResolvedAt(s, es, i, After(s, es[..j]).open[es[j].id])
  {
    var n := |es| - 1;
    assert n >= 0;
    var t, e := After(s, es[..n]), es[n];
    assert After(s, es) == Next(t, e);
    if Puts(t, e, k) {
      j := n;
      EntryIsNew(t, e, k);
      RunsKeepOpen(s, es[..n]);
      hide Next, Traced;
      i := HeldHasOrigin(s, es[..n], e.id, r);
      hide After;
      assert es[..n][..i] == es[..i] && es[..n][i] == es[i];
    } else {
      EntryStays(t, e, k);
      hide Next, Traced;
      i, j := CachedHasOrigin(s, es[..n], k, r);
      assert es[..n][..i] == es[..i] && es[..n][i] == es[i];
      assert es[..n][..j] == es[..j] && es[..n][j] == es[j];
      hide After;
    }
  }

  /** A record read from the cache is a stored one with a TTL no greater. */
  lemma GotIsAged(c: C.Cache, k: C.Key, now: int, r: RR) returns (o: RR)
    requires C.Got(c, k, now).Some? && r in C.Got(c, k, now).value
    ensures k in c.items && o in c.items[k].value && r.ttl <= o.ttl && r == WithTtl(o, r.ttl)
  {
    var got := C.Got(c, k, now).value;
    var value := c.items[k].value;
    var i :| 0 <= i < |got| && got[i] == r;
    assert |got| == |value|;
    o := value[i];
  }

  lemma HitIsStored(cfg: Config, c: C.Cache, name: string, now: int, r: RR) returns (o: RR)
    requires FromCache(cfg, c, name, now).Some? && r in FromCache(cfg, c, name, now).value
    ensures var k := C.Key(name, AAAA); k in c.items && o in c.items[k].value && r.ttl <= o.ttl && r == WithTtl(o, r.ttl)
    ensures Outside(cfg, r)
  {
    var k := C.Key(name, AAAA);
    FilterKeeps(C.Got(c, k, now).value, OutsideOf(cfg), r);
    hide C.Got;
    o := GotIsAged(c, k, now, r);
  }

  lemma OneMore(s: State, es: seq<Event>, e: Event)
    ensures After(s, es + [e]) == Next(After(s, es), e)
    ensures forall i :: 0 <= i <= |es| ==> (es + [e])[..i] == es[..i]
  {
    assert (es + [e])[..|es|] == es;
  }

  /** Serving a question changes no settings. */
  lemma ServingKeepsSettings(s: State, e: Event)
    requires e.Lookup? || e.Resolve? || e.Store?
    ensures Next(s, e).cfg == s.cfg && Next(s, e).swaps == s.swaps && Next(s, e).flushed == s.flushed
  {
    hide FromCache, Outcome, C.Stored;
  }

  // ---------------------------------------------------------------------
  // Provenance.

  /**
   Step i resolved the record served by e, and step j is the one that counts:
   the resolution or the store of that answer, for the same name. For a hit it
   lies no further back than the last flush. The resolution is current if and
   only if the question, as it was at j, agrees with the settings in force.
   */
  ghost predicate ServedFrom(s: State, es: seq<Event>, e: Event, name: string, i: nat, j: nat) {
    && i <= j <= |es| && AnswersFor(s, es + [e], i, name) && AnswersFor(s, es + [e], j, name)
    && var t, now := After(s, (es + [e])[..j]), After(s, es);
       && now.flushed <= t.swaps <= now.swaps && (t.swaps == now.swaps ==> t.cfg == now.cfg) && (!e.Lookup? ==> t == now)
       && (Current(s, es + [e], i, name) <==> Agrees(t.open[(es + [e])[j].id], now.cfg))
  }

  /**
   Every AAAA record served, fresh or cached, goes back to one resolution of
   that name: it is an upstream AAAA admitted there, or embeds an upstream A
   that was not ignored, with a TTL no greater than the A record's and the cap,
   or came as an AAAA in the answer to the A question. From the cache it also
   lies outside the exclusions in force. Unless a hit falls between a swap and
   its flush, the resolution used the zone and settings in force if and only if
   those of its question stood when the answer was made and stored, and so
   whenever that one question did not straddle a swap.
   */
  lemma ServedHasOrigin(s: State, es: seq<Event>, e: Event, r: RR) returns (i: nat, j: nat)
    requires Initial(s) && r.Aaaa?
    requires Enabled(After(s, es), e) && r in Served(After(s, es), e)
    ensures e.Lookup? || e.Resolve? || e.Store?
    ensures e.Lookup? ==> Outside(After(s, es).cfg, r)
    ensures var name, es' := After(s, es).open[e.id].name, es + [e];
            && ServedFrom(s, es, e, name, i, j) && Origin(s, es', i, name, r)
            && (Settled(After(s, es)) || !e.Lookup? ==>
                  && (Current(s, es', i, name) <==> Stands(After(s, es'[..j]), es'[j]))
                  && (!Straddles(After(s, es'[..j]), es'[j]) ==> Current(s, es', i, name)))
  {
    assert e.Lookup? || e.Resolve? || e.Store?;
    if e.Lookup? {
      i, j := LookupHasOrigin(s, es, e, r);
    } else if e.Store? {
      i, j := StoreHasOrigin(s, es, e, r);
    } else {
      i, j := ResolveHasOrigin(s, es, e, r);
    }
    RunsKeepOpen(s, (es + [e])[..j]);
    hide After, Next, Traced, Current, Stands, OpenIsCurrent, Served;
    if !Straddles(After(s, (es + [e])[..j]), (es + [e])[j]) {
      FreshStands(After(s, (es + [e])[..j]), (es + [e])[j]);
    }
  }

  /** A question that does not straddle a swap stands. */
  lemma FreshStands(s: State, e: Event)
    requires OpenIsCurrent(s) && Answers(s, e) && !Straddles(s, e)
    ensures Stands(s, e)
  {
  }

  lemma ResolveHasOrigin(s: State, es: seq<Event>, e: Event, r: RR) returns (i: nat, j: nat)
    requires Initial(s) && r.Aaaa? && e.Resolve?
    requires Enabled(After(s, es), e) && r in Served(After(s, es), e)
    ensures var name := After(s, es).open[e.id].name;
            ServedFrom(s, es, e, name, i, j) && Origin(s, es + [e], i, name, r)
  {
    i, j := |es|, |es|;
    var t := After(s, es);
    var q := t.open[e.id];
    OneMore(s, es, e);
    ServingKeepsSettings(t, e);
    RunsKeepOpen(s, es);
    assert (es + [e])[|es|] == e && (es + [e])[..|es|] == es;
    hide Resolved, Traced, After, Next;
    ResolvedIsTraced(t.cfg, q.zone, q.name, e.up, e.a, r);
  }

  lemma StoreHasOrigin(s: State, es: seq<Event>, e: Event, r: RR) returns (i: nat, j: nat)
    requires Initial(s) && r.Aaaa? && e.Store?
    requires Enabled(After(s, es), e) && r in Served(After(s, es), e)
    ensures var name := After(s, es).open[e.id].name;
            ServedFrom(s, es, e, name, i, j) && Origin(s, es + [e], i, name, r)
  {
    j := |es|;
    var t := After(s, es);
    OneMore(s, es, e);
    ServingKeepsSettings(t, e);
    RunsKeepOpen(s, es);
    hide Traced, Next;
    i := HeldHasOrigin(s, es, e.id, r);
    assert (es + [e])[|es|] == e && (es + [e])[i] == es[i];
    hide After;
  }

  lemma LookupHasOrigin(s: State, es: seq<Event>, e: Event, r: RR) returns (i: nat, j: nat)
    requires Initial(s) && r.Aaaa? && e.Lookup?
    requires Enabled(After(s, es), e) && r in Served(After(s, es), e)
    ensures Outside(After(s, es).cfg, r)
    ensures var name := After(s, es).open[e.id].name;
            ServedFrom(s, es, e, name, i, j) && Origin(s, es + [e], i, name, r)
  {
    var t := After(s, es);
    var name := t.open[e.id].name;
    var o := HitIsStored(t.cfg, t.cache, name, e.asked, r);
    assert o.Aaaa?;
    OneMore(s, es, e);
    ServingKeepsSettings(t, e);
    hide FromCache, Outcome, Traced, Next;
    i, j := CachedHasOrigin(s, es, C.Key(name, AAAA), o);
    assert (es + [e])[i] == es[i] && (es + [e])[j] == es[j];
    var u := After(s, es[..i]);
    hide After;
    AgedIsTraced(u.cfg, u.open[es[i].id].zone, name, es[i].up, es[i].a, o, r.ttl);
  }

  // ---------------------------------------------------------------------
  // Three ways a served address is not the present zone's.

  function Upstream(u: RR): Option<Reply> {
    Some(Reply(NO_ERROR, [u], []))
  }

  function Asked(name: string): seq<Event> {
    [Start(0, name)] + [Lookup(0, 0)]
  }

  /** The first question for a name finds the cache empty. */
  lemma AsksAndMisses(s: State, name: string)
    requires Initial(s) && name in s.cfg.zones
    ensures After(s, Asked(name))
         == s.(open := map[0 := Question(name, s.cfg.zones[name], s.swaps, Missed)])
  {
    var t := Next(s, Start(0, name));
    OneMore(s, [], Start(0, name));
    assert [] + [Start(0, name)] == [Start(0, name)];
    OneMore(s, [Start(0, name)], Lookup(0, 0));
    hide After;
    assert t.open == map[0 := Question(name, s.cfg.zones[name], s.swaps, Asking)];
    assert Next(t, Lookup(0, 0)).open == map[0 := Question(name, s.cfg.zones[name], s.swaps, Missed)];
  }

  /** An admitted upstream AAAA is held. */
  lemma ResolveHolds(s: State, q: Question, u: RR)
    requires s.open == map[0 := q] && q.phase.Missed? && u.Aaaa? && Admitted(s.cfg, q.zone, u)
    ensures Next(s, Resolve(0, Upstream(u), None)) == s.(open := map[0 := q.(phase := Holding([u], s.cfg))])
  {
    assert Filtered(s.cfg, q.zone, [u]) == [u] by {
      FilterAll([u], AdmittedBy(s.cfg, q.zone));
    }
    hide Filter;
    assert HasAaaa([u]);
    assert Outcome(s, Resolve(0, Upstream(u), None)) == (Answer(NO_ERROR, [u]), Some([u]));
    assert s.open[0 := q.(phase := Holding([u], s.cfg))] == map[0 := q.(phase := Holding([u], s.cfg))];
  }

  /** The cache after one entry was stored in an empty one. */
  function OneEntry(c: C.Cache, name: string, u: RR): C.Cache {
    C.Stored(c, C.Key(name, AAAA), [u], 0, 0, C.Key(name, AAAA))
  }

  lemma HeldIsStored(s: State, q: Question, u: RR)
    requires s.open == map[0 := q] && q.phase.Holding? && q.phase.rrs == [u]
    ensures Next(s, Store(0, 0, 0, C.Key(q.name, AAAA))) == s.(open := map[], cache := OneEntry(s.cache, q.name, u))
  {
    hide C.Stored;
    assert s.open - {0} == map[];
  }

  lemma NewlyStored(c: C.Cache, k: C.Key, u: RR, now: int)
    requires c.items == map[] && c.defaultExp > 0 && now >= 0
    ensures C.Got(C.Stored(c, k, [u], now, now, k), k, now) == Some([u])
  {
    var d := C.Stored(c, k, [u], now, now, k);
    C.ReadBack([u], c.defaultExp, now, now, k, d);
    assert C.Seconds(0) == 0;
    assert WithTtl(u, C.AgedTtl(u.ttl, 0)) == u;
    assert C.Aged([u], 0) == [u];
  }

  /** What is in the cache is served to the next question for that name, whatever zone that one is matched to. */
  lemma EntryIsServed(s: State, c: C.Cache, name: string, u: RR)
    requires s.open == map[] && name in s.cfg.zones && s.cache == OneEntry(c, name, u)
    requires c.items == map[] && c.defaultExp > 0 && u.Aaaa? && !Excluded(s.cfg, u.v6)
    ensures var t := Next(s, Start(0, name));
            Enabled(t, Lookup(0, 0)) && Served(t, Lookup(0, 0)) == [u] && t.cfg == s.cfg && t.swaps == s.swaps && t.flushed == s.flushed
  {
    NewlyStored(c, C.Key(name, AAAA), u, 0);
    assert DroppedExcluded(s.cfg, [u]) == [u] by {
      FilterAll([u], OutsideOf(s.cfg));
    }
    hide Filter, C.Got, C.Stored;
    assert HasAaaa([u]);
    assert FromCache(s.cfg, s.cache, name, 0) == Some([u]);
  }

  /** A hit that serves u although the zone in force does not admit it. */
  ghost predicate Stale(s: State, es: seq<Event>, e: Event, name: string, cfg: Config, u: RR) {
    && var t := After(s, es);
       && Enabled(t, e) && e.Lookup? && t.open[e.id].name == name && Served(t, e) == [u]
       && t.cfg == cfg && name in cfg.zones && !Admitted(cfg, cfg.zones[name], u)
  }

  /** Its last two steps: the question whose answer is in the cache, and the hit. */
  lemma StaleHit(s: State, d: seq<Event>, c: C.Cache, name: string, cfg: Config, u: RR) returns (es: seq<Event>, e: Event)
    requires var t := After(s, d); t.open == map[] && t.cfg == cfg && t.cache == OneEntry(c, name, u)
    requires name in cfg.zones && c.items == map[] && c.defaultExp > 0
    requires u.Aaaa? && !Excluded(cfg, u.v6) && !Admitted(cfg, cfg.zones[name], u)
    ensures Stale(s, es, e, name, cfg, u) && (Settled(After(s, es)) <==> Settled(After(s, d)))
  {
    es, e := d + [Start(0, name)], Lookup(0, 0);
    OneMore(s, d, Start(0, name));
    EntryIsServed(After(s, d), c, name, u);
    assert Next(After(s, d), Start(0, name)).open[0].name == name;
    hide After, Next, Served, Admitted, C.Stored;
  }

  /**
   The zone: a question is matched to a zone that returns IPv6 addresses, and
   resolves and stores after the reload. The new zone returns none and the
   reload is over; still its address is served from the cache.
   */
  lemma StaleAnswerOutlivesReload(s: State, name: string, cfg: Config, defaultExp: int, maxEntries: int, u: RR)
    returns (es: seq<Event>, e: Event)
    requires Initial(s) && name in s.cfg.zones && s.cfg.zones[name].returnV6
    requires name in cfg.zones && !cfg.zones[name].returnV6 && defaultExp > 0
    requires u.Aaaa? && !IsUnspecified(u.v6) && !Excluded(cfg, u.v6)
    ensures Stale(s, es, e, name, cfg, u) && Settled(After(s, es))
  {
    var q := Question(name, s.cfg.zones[name], s.swaps, Missed);
    AsksAndMisses(s, name);
    var d := Asked(name);
    var t := After(s, d + [Swap(cfg)] + [Flush(defaultExp, maxEntries)]);
    OneMore(s, d, Swap(cfg));
    OneMore(s, d + [Swap(cfg)], Flush(defaultExp, maxEntries));
    assert t.open == map[0 := q] && t.cfg == cfg && t.cache.items == map[] && t.cache.defaultExp == defaultExp && Settled(t);
    d := d + [Swap(cfg)] + [Flush(defaultExp, maxEntries)];
    hide After, Next, Excluded, IsUnspecified;
    OneMore(s, d, Resolve(0, Upstream(u), None));
    ResolveHolds(t, q, u);
    d := d + [Resolve(0, Upstream(u), None)];
    OneMore(s, d, Store(0, 0, 0, C.Key(name, AAAA)));
    HeldIsStored(After(s, d), q.(phase := Holding([u], cfg)), u);
    d := d + [Store(0, 0, 0, C.Key(name, AAAA))];
    es, e := StaleHit(s, d, t.cache, name, cfg, u);
  }

  /**
   The settings: the zone stays as it is, but the unspecified address is no
   longer passed on. A question resolved before the reload stores after it, and
   the unspecified address is served from the cache.
   */
  lemma HeldAnswerOutlivesReload(s: State, name: string, cfg: Config, defaultExp: int, maxEntries: int, u: RR)
    returns (es: seq<Event>, e: Event)
    requires Initial(s) && name in s.cfg.zones && s.cfg.ia.Process?
    requires name in cfg.zones && cfg.zones[name] == s.cfg.zones[name] && !cfg.ia.Process? && defaultExp > 0
    requires u.Aaaa? && IsUnspecified(u.v6) && !Excluded(s.cfg, u.v6) && !Excluded(cfg, u.v6)
    ensures Stale(s, es, e, name, cfg, u) && Settled(After(s, es))
  {
    var q := Question(name, s.cfg.zones[name], s.swaps, Missed);
    AsksAndMisses(s, name);
    var d := Asked(name) + [Resolve(0, Upstream(u), None)];
    OneMore(s, Asked(name), Resolve(0, Upstream(u), None));
    ResolveHolds(After(s, Asked(name)), q, u);
    OneMore(s, d, Swap(cfg));
    OneMore(s, d + [Swap(cfg)], Flush(defaultExp, maxEntries));
    var h := q.(phase := Holding([u], s.cfg));
    d := d + [Swap(cfg)] + [Flush(defaultExp, maxEntries)];
    var t := After(s, d);
    assert t.open == map[0 := h] && t.cfg == cfg && t.cache.items == map[] && t.cache.defaultExp == defaultExp && Settled(t);
    hide After, Next, Excluded, IsUnspecified;
    OneMore(s, d, Store(0, 0, 0, C.Key(name, AAAA)));
    HeldIsStored(t, h, u);
    d := d + [Store(0, 0, 0, C.Key(name, AAAA))];
    es, e := StaleHit(s, d, t.cache, name, cfg, u);
  }

  /** The moment: everything is stored before the reload, and the hit falls between its swap and its flush. */
  lemma HitBeforeFlush(s: State, name: string, cfg: Config, u: RR) returns (es: seq<Event>, e: Event)
    requires Initial(s) && name in s.cfg.zones && s.cfg.zones[name].returnV6 && s.cache.defaultExp > 0
    requires name in cfg.zones && !cfg.zones[name].returnV6
    requires u.Aaaa? && !IsUnspecified(u.v6) && !Excluded(s.cfg, u.v6) && !Excluded(cfg, u.v6)
    ensures Stale(s, es, e, name, cfg, u) && !Settled(After(s, es))
  {
    var q := Question(name, s.cfg.zones[name], s.swaps, Missed);
    AsksAndMisses(s, name);
    var d := Asked(name) + [Resolve(0, Upstream(u), None)];
    OneMore(s, Asked(name), Resolve(0, Upstream(u), None));
    ResolveHolds(After(s, Asked(name)), q, u);
    OneMore(s, d, Store(0, 0, 0, C.Key(name, AAAA)));
    HeldIsStored(After(s, d), q.(phase := Holding([u], s.cfg)), u);
    d := d + [Store(0, 0, 0, C.Key(name, AAAA))];
    OneMore(s, d, Swap(cfg));
    d := d + [Swap(cfg)];
    hide After, C.Stored, Excluded, IsUnspecified;
    es, e := StaleHit(s, d, s.cache, name, cfg, u);
  }
}
