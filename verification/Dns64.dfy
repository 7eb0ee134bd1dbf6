/**
 AAAA synthesis of src/dns64/proxy.go: filtering, embedding and the cached or
 fresh answer to one AAAA question.
 */
module Dns64 {
  import opened Octets
  import opened Buffers
  import opened Records
  import opened Prefixes
  import opened DnsCaches

  const AAAA := 28
  const NO_ERROR := 0
  const NAME_ERROR := 3
  const DEFAULT_CAP := 600

  /** What to do with 0.0.0.0 and ::. */
  datatype Policy = Ignore | Process | Discard

  datatype Zone = Zone(prefix: Option<Pref64>, returnV6: bool)

  /** Reloadable settings; a subnet is the predicate of belonging to it. */
  datatype Config = Config(zones: map<string, Zone>, ia: Policy, excluded: seq<Octets16 -> bool>, ignored: seq<Octets4 -> bool>)

  datatype Reply = Reply(rcode: nat, answer: seq<RR>, ns: seq<RR>)

  /** An upstream exchange that failed, or the answer given. */
  datatype Answer = Failed | Answer(rcode: nat, records: seq<RR>)

  predicate Excluded(cfg: Config, a: Octets16) {
    exists i :: 0 <= i < |cfg.excluded| && cfg.excluded[i](a)
  }

  predicate Ignored(cfg: Config, v: Octets4) {
    exists i :: 0 <= i < |cfg.ignored| && cfg.ignored[i](v)
  }

  function Unspecified(): Octets16 {
    Zeros(16)
  }

  /** Of either family: :: or 0.0.0.0 mapped into IPv6. */
  predicate IsUnspecified(a: Octets16) {
    a == Unspecified() || a == Zeros(10) + [255, 255] + Zeros(4)
  }

  // ---------------------------------------------------------------------
  // Filtering.

  function Filter(rrs: seq<RR>, keep: RR -> bool): (r: seq<RR>) {
    if rrs == [] then []
    else
      var last := rrs[|rrs| - 1];
      Filter(rrs[..|rrs| - 1], keep) + if keep(last) then [last] else []
  }

  lemma {:induction false} FilterKeeps(rrs: seq<RR>, keep: RR -> bool, r: RR)
    ensures r in Filter(rrs, keep) <==> r in rrs && keep(r)
  {
    if rrs != [] {
      var front, last := rrs[..|rrs| - 1], rrs[|rrs| - 1];
      FilterKeeps(front, keep, r);
      assert rrs == front + [last];
    }
  }

  function Both(p: RR -> bool, q: RR -> bool): RR -> bool {
    r => p(r) && q(r)
  }

  /** Filtering twice is filtering by both. */
  lemma {:induction false} FilterTwice(rrs: seq<RR>, p: RR -> bool, q: RR -> bool)
    ensures Filter(Filter(rrs, p), q) == Filter(rrs, Both(p, q))
  {
    if rrs != [] {
      var front, last := rrs[..|rrs| - 1], rrs[|rrs| - 1];
      FilterTwice(front, p, q);
      var f := Filter(front, p);
      assert (f + [last])[..|f|] == f;
      assert f + [] == f;
    }
  }

  predicate Outside(cfg: Config, r: RR) {
    r.Aaaa? ==> !Excluded(cfg, r.v6)
  }

  predicate Allowed(cfg: Config, z: Zone, r: RR) {
    r.Aaaa? ==> if IsUnspecified(r.v6) then cfg.ia.Process? else z.returnV6
  }

  /** Exclusions, zone flag and the rule for the unspecified address together. */
  predicate Admitted(cfg: Config, z: Zone, r: RR) {
    Outside(cfg, r) && Allowed(cfg, z, r)
  }

  function OutsideOf(cfg: Config): RR -> bool {
    r => Outside(cfg, r)
  }

  function AllowedBy(cfg: Config, z: Zone): RR -> bool {
    r => Allowed(cfg, z, r)
  }

  function AdmittedBy(cfg: Config, z: Zone): RR -> bool {
    r => Admitted(cfg, z, r)
  }

  function DroppedExcluded(cfg: Config, rrs: seq<RR>): seq<RR> {
    Filter(rrs, OutsideOf(cfg))
  }

  function Filtered(cfg: Config, z: Zone, rrs: seq<RR>): seq<RR> {
    Filter(rrs, AdmittedBy(cfg, z))
  }

  predicate HasAaaa(rrs: seq<RR>) {
    exists i :: 0 <= i < |rrs| && rrs[i].Aaaa?
  }

  lemma FilterOfFront(rrs: seq<RR>, keep: RR -> bool, i: nat)
    requires i < |rrs|
    ensures Filter(rrs[..i + 1], keep) == Filter(rrs[..i], keep) + if keep(rrs[i]) then [rrs[i]] else []
  {
    assert rrs[..i + 1][..i] == rrs[..i];
  }

  lemma {:induction false} FilterAll(rrs: seq<RR>, keep: RR -> bool)
    requires forall i :: 0 <= i < |rrs| ==> keep(rrs[i])
    ensures Filter(rrs, keep) == rrs
  {
    if rrs != [] {
      FilterAll(rrs[..|rrs| - 1], keep);
      assert rrs == rrs[..|rrs| - 1] + [rrs[|rrs| - 1]];
    }
  }

  /** dropExcludedAAAA. */
  method DropExcluded(cfg: Config, rrs: seq<RR>) returns (out: seq<RR>)
    ensures out == DroppedExcluded(cfg, rrs)
  {
    var keep := OutsideOf(cfg);
    if |cfg.excluded| == 0 {
      FilterAll(rrs, keep);
      return rrs;
    }
    out := [];
    var i := 0;
    while i < |rrs|
      invariant 0 <= i <= |rrs| && out == Filter(rrs[..i], keep)
    {
      FilterOfFront(rrs, keep, i);
      var rr := rrs[i];
      if !rr.Aaaa? {
        out := out + [rr];
      } else {
        var excluded := false;
        var j := 0;
        while j < |cfg.excluded| && !excluded
          invariant 0 <= j <= |cfg.excluded|
          invariant excluded ==> Excluded(cfg, rr.v6)
          invariant !excluded ==> forall k :: 0 <= k < j ==> !cfg.excluded[k](rr.v6)
          decreases |cfg.excluded| - j, !excluded
        {
          if cfg.excluded[j](rr.v6) {
            excluded := true;
          }
          j := j + 1;
        }
        if !excluded {
          out := out + [rr];
        }
      }
      i := i + 1;
    }
    assert rrs[..|rrs|] == rrs;
  }

  /** filterAAAA: the exclusions in one pass, zone flag and unspecified address in a second. */
  method FilterAaaa(cfg: Config, z: Zone, rrs: seq<RR>) returns (filtered: seq<RR>)
    ensures filtered == Filtered(cfg, z, rrs)
  {
    var out := DropExcluded(cfg, rrs);
    var keep := AllowedBy(cfg, z);
    filtered := [];
    var i := 0;
    while i < |out|
      invariant 0 <= i <= |out| && filtered == Filter(out[..i], keep)
    {
      FilterOfFront(out, keep, i);
      var rr := out[i];
      if !rr.Aaaa? {
        filtered := filtered + [rr];
      } else if IsUnspecified(rr.v6) {
        if cfg.ia.Process? {
          filtered := filtered + [rr];
        }
      } else if z.returnV6 {
        filtered := filtered + [rr];
      }
      i := i + 1;
    }
    assert out[..|out|] == out;
    FilterTwice(rrs, OutsideOf(cfg), keep);
    SameFilter(rrs, Both(OutsideOf(cfg), keep), AdmittedBy(cfg, z));
  }

  lemma {:induction false} SameFilter(rrs: seq<RR>, p: RR -> bool, q: RR -> bool)
    requires forall r :: p(r) == q(r)
    ensures Filter(rrs, p) == Filter(rrs, q)
  {
    if rrs != [] {
      SameFilter(rrs[..|rrs| - 1], p, q);
    }
  }

  // ---------------------------------------------------------------------
  // Synthesis.

  function OwnerName(u: RR, name: string): string {
    if u.owner == "" then name else u.owner
  }

  /** The AAAA records one record of an A answer gives rise to: none or one. */
  function FromA(cfg: Config, p: Pref64, name: string, cap: uint32, u: RR): (r: seq<RR>)
    ensures |r| <= 1
  {
    if !u.A? then []
    else
      var ttl := if u.ttl > cap then cap else u.ttl;
      if u.v4 == [0, 0, 0, 0] && cfg.ia.Discard? then []
      else if u.v4 == [0, 0, 0, 0] && cfg.ia.Process? then [Aaaa(OwnerName(u, name), ttl, Unspecified())]
      else if Ignored(cfg, u.v4) then []
      else [Aaaa(OwnerName(u, name), ttl, Embed(p, u.v4))]
  }

  function Synthesised(cfg: Config, p: Pref64, name: string, cap: uint32, rrs: seq<RR>): seq<RR> {
    if rrs == [] then []
    else Synthesised(cfg, p, name, cap, rrs[..|rrs| - 1]) + FromA(cfg, p, name, cap, rrs[|rrs| - 1])
  }

  lemma {:induction false} SynthesisedFrom(cfg: Config, p: Pref64, name: string, cap: uint32, rrs: seq<RR>, r: RR)
    ensures r in Synthesised(cfg, p, name, cap, rrs) <==> exists i :: 0 <= i < |rrs| && r in FromA(cfg, p, name, cap, rrs[i])
  {
    if rrs != [] {
      var front := rrs[..|rrs| - 1];
      SynthesisedFrom(cfg, p, name, cap, front, r);
      hide FromA;
      if i :| 0 <= i < |rrs| && r in FromA(cfg, p, name, cap, rrs[i]) {
        assert i < |front| ==> r in FromA(cfg, p, name, cap, front[i]);
      }
      if j :| 0 <= j < |front| && r in FromA(cfg, p, name, cap, front[j]) {
        assert r in FromA(cfg, p, name, cap, rrs[j]);
      }
    }
  }

  method IsIgnoredDst(cfg: Config, v: Octets4) returns (r: bool)
    ensures r == Ignored(cfg, v)
  {
    var j := 0;
    while j < |cfg.ignored|
      invariant 0 <= j <= |cfg.ignored|
      invariant forall k :: 0 <= k < j ==> !cfg.ignored[k](v)
    {
      if cfg.ignored[j](v) {
        return true;
      }
      j := j + 1;
    }
    r := false;
  }

  /** synthesiseFromA. */
  method SynthesiseFromA(cfg: Config, p: Pref64, name: string, cap: uint32, rrs: seq<RR>) returns (out: seq<RR>)
    ensures out == Synthesised(cfg, p, name, cap, rrs)
  {
    out := [];
    var i := 0;
    while i < |rrs|
      invariant 0 <= i <= |rrs| && out == Synthesised(cfg, p, name, cap, rrs[..i])
    {
      assert rrs[..i + 1][..i] == rrs[..i];
      var rr := rrs[i];
      i := i + 1;
      if !rr.A? {
        continue;
      }
      var owner := OwnerName(rr, name);
      var ttl := rr.ttl;
      if ttl > cap {
        ttl := cap;
      }
      if rr.v4 == [0, 0, 0, 0] {
        if cfg.ia.Discard? {
          continue;
        }
        if cfg.ia.Process? {
          out := out + [Aaaa(owner, ttl, Unspecified())];
          continue;
        }
      }
      var ignored := IsIgnoredDst(cfg, rr.v4);
      if ignored {
        continue;
      }
      out := out + [Aaaa(owner, ttl, Embed(p, rr.v4))];
    }
    assert rrs[..|rrs|] == rrs;
  }

  /** The TTL of the first SOA record of a negative answer, or 600. */
  function Cap(ns: seq<RR>): uint32 {
    if ns == [] then DEFAULT_CAP else if ns[0].Soa? then ns[0].ttl else Cap(ns[1..])
  }

  /** By position: the record at i is the first SOA, or there is none. */
  lemma {:induction false} CapIsFirstSoa(ns: seq<RR>, i: nat)
    requires i <= |ns| && (forall j :: 0 <= j < i ==> !ns[j].Soa?) && (i < |ns| ==> ns[i].Soa?)
    ensures Cap(ns) == if i < |ns| then ns[i].ttl else 600
  {
    if i > 0 {
      CapIsFirstSoa(ns[1..], i - 1);
    }
  }

  method FirstSoaTtl(ns: seq<RR>) returns (cap: uint32)
    ensures cap == Cap(ns)
  {
    cap := DEFAULT_CAP;
    var i := 0;
    while i < |ns|
      invariant 0 <= i <= |ns| && Cap(ns) == Cap(ns[i..]) && cap == DEFAULT_CAP
    {
      if ns[i].Soa? {
        return ns[i].ttl;
      }
      assert ns[i..][1..] == ns[i + 1..];
      i := i + 1;
    }
  }

  // ---------------------------------------------------------------------
  // One question.

  function NotA(): RR -> bool {
    (r: RR) => !r.A?
  }

  /** The answer to a question that missed the cache, and what is stored for it. */
  function Resolved(cfg: Config, z: Zone, name: string, up: Option<Reply>, a: Option<Reply>): (Answer, Option<seq<RR>>) {
    if up.None? then (Failed, None)
    else if up.value.rcode == NAME_ERROR then (Answer(NAME_ERROR, []), None)
    else
      var filtered := Filtered(cfg, z, up.value.answer);
      if up.value.rcode == NO_ERROR && HasAaaa(filtered) then (Answer(NO_ERROR, filtered), Some(filtered))
      else if z.prefix.None? then (Answer(NO_ERROR, []), None)
      else if a.None? then (Failed, None)
      else
        var synth := Synthesised(cfg, z.prefix.value, name, Cap(up.value.ns), a.value.answer);
        var rest := Filter(a.value.answer, NotA());
        if a.value.rcode != NO_ERROR || synth == [] then (Answer(a.value.rcode, rest), None)
        else (Answer(NO_ERROR, rest + synth), Some(rest + synth))
  }

  /** The usable part of a cached answer under the current exclusions. */
  function FromCache(cfg: Config, c: Cache, name: string, now: int): Option<seq<RR>> {
    var got := Got(c, Key(name, AAAA), now);
    if got.None? then None
    else
      var kept := DroppedExcluded(cfg, got.value);
      if HasAaaa(kept) then Some(kept) else None
  }

  method ContainsAaaa(rrs: seq<RR>) returns (r: bool)
    ensures r == HasAaaa(rrs)
  {
    var i := 0;
    while i < |rrs|
      invariant 0 <= i <= |rrs| && forall k :: 0 <= k < i ==> !rrs[k].Aaaa?
    {
      if rrs[i].Aaaa? {
        return true;
      }
      i := i + 1;
    }
    r := false;
  }

  method WithoutA(rrs: seq<RR>) returns (out: seq<RR>)
    ensures out == Filter(rrs, NotA())
  {
    out := [];
    var i := 0;
    while i < |rrs|
      invariant 0 <= i <= |rrs| && out == Filter(rrs[..i], NotA())
    {
      FilterOfFront(rrs, NotA(), i);
      if !rrs[i].A? {
        out := out + [rrs[i]];
      }
      i := i + 1;
    }
    assert rrs[..|rrs|] == rrs;
  }

  class Proxy {
    var cfg: Config
    const cache: DnsCache

    constructor (cfg: Config, cache: DnsCache)
      ensures this.cfg == cfg && this.cache == cache
    {
      this.cfg, this.cache := cfg, cache;
    }

    /**
     handleAAAA for names other than ipv4only.arpa, with the two upstream
     exchanges it may make as inputs: either the cache serves, untouched, or
     the answer is resolved and, where there is something to keep, stored.
     */
    method HandleAaaa(name: string, z: Zone, up: Option<Reply>, a: Option<Reply>, asked: int, now: int, later: int)
      returns (r: Answer, ghost victim: Key)
      modifies cache`items
      ensures var hit := FromCache(cfg, old(cache.View()), name, asked);
              var (answer, kept) := Resolved(cfg, z, name, up, a);
              if hit.Some? then r == Answer(NO_ERROR, hit.value) && cache.View() == old(cache.View())
              else r == answer && cache.View() == if kept.None? then old(cache.View())
                                                  else Stored(old(cache.View()), Key(name, AAAA), kept.value, now, later, victim)
    {
      hide Got, Stored, Filter, Synthesised, Cap, HasAaaa;
      victim := Key(name, AAAA);
      var cached := cache.Get(Key(name, AAAA), asked);
      if cached.Some? {
        var kept := DropExcluded(cfg, cached.value);
        var usable := ContainsAaaa(kept);
        if usable {
          return Answer(NO_ERROR, kept), victim;
        }
      }
      if up.None? {
        return Failed, victim;
      }
      if up.value.rcode == NAME_ERROR {
        return Answer(NAME_ERROR, []), victim;
      }
      if up.value.rcode == NO_ERROR {
        var answer := FilterAaaa(cfg, z, up.value.answer);
        var usable := ContainsAaaa(answer);
        if usable {
          victim := cache.Set(Key(name, AAAA), answer, now, later);
          return Answer(NO_ERROR, answer), victim;
        }
      }
      if z.prefix.None? {
        return Answer(NO_ERROR, []), victim;
      }
      if a.None? {
        return Failed, victim;
      }
      var cap := FirstSoaTtl(up.value.ns);
      var answer := SynthesiseFromA(cfg, z.prefix.value, name, cap, a.value.answer);
      var rest := WithoutA(a.value.answer);
      if a.value.rcode != NO_ERROR || |answer| == 0 {
        return Answer(a.value.rcode, rest), victim;
      }
      victim := cache.Set(Key(name, AAAA), rest + answer, now, later);
      r := Answer(NO_ERROR, rest + answer);
    }
  }
}
