/**
 The per-source query rate limiter of DNS64, src/dns64/ratelimit.go: one token
 bucket per client, a bounded map of buckets and a lazy sweep of idle ones.
 */
module RateLimiter {
  import opened Octets
  import opened TokenBucket

  const MIN_BURST := 10.0
  const MAX_BUCKETS := 8192
  const BUCKET_IDLE := 300.0   // five minutes, in seconds

  datatype Limiter = Limiter(buckets: map<Addr6, Bucket>, rate: real, burst: real)

  const EMPTY := Limiter(map[], 0.0, 0.0)

  // ---------------------------------------------------------------------
  // The operations as functions of the limiter's value.

  function BurstFor(perSec: int): real {
    if (2 * perSec) as real < MIN_BURST then MIN_BURST else (2 * perSec) as real
  }

  function Capped(b: Bucket, burst: real): Bucket {
    if b.tokens > burst then b.(tokens := burst) else b
  }

  function Updated(l: Limiter, perSec: int): Limiter {
    if perSec <= 0 then l.(rate := 0.0)
    else
      var burst := BurstFor(perSec);
      Limiter(map k | k in l.buckets :: Capped(l.buckets[k], burst), perSec as real, burst)
  }

  function Swept(l: Limiter, now: real): Limiter {
    l.(buckets := map k | k in l.buckets && !(l.buckets[k].last < now - BUCKET_IDLE) :: l.buckets[k])
  }

  /** The limiter just before `src` spends a token; `sweeps` is false for a limiter that never evicts. */
  function WithBucket(l: Limiter, src: Addr6, now: real, sweeps: bool): (r: Limiter)
    ensures src in r.buckets
  {
    if src in l.buckets then l
    else
      var room := if sweeps && |l.buckets| >= MAX_BUCKETS then Swept(l, now) else l;
      room.(buckets := room.buckets[src := Bucket(l.burst, now)])
  }

  function Asked(l: Limiter, src: Addr6, now: real, sweeps: bool): (Limiter, bool) {
    if l.rate <= 0.0 then (l, true)
    else
      var m := WithBucket(l, src, now, sweeps);
      var r := Spend(m.buckets[src], now, m.rate, m.burst);
      (m.(buckets := m.buckets[src := r.0]), r.1)
  }

  // ---------------------------------------------------------------------
  // The limiter object.

  class SrcRateLimiter {
    var buckets: map<Addr6, Bucket>
    var rate: real
    var burst: real

    function View(): Limiter
      reads this
    {
      Limiter(buckets, rate, burst)
    }

    constructor (perSec: int)
      ensures View() == Updated(EMPTY, perSec)
    {
      buckets, rate, burst := map[], 0.0, 0.0;
      new;
      Update(perSec);
    }

    /** Replaces the rate and re-caps every bucket; the source's loop over the map, in any order. */
    method Update(perSec: int)
      modifies this
      ensures View() == Updated(old(View()), perSec)
    {
      if perSec <= 0 {
        rate := 0.0;
        return;
      }
      rate := perSec as real;
      burst := (2 * perSec) as real;
      if burst < MIN_BURST {
        burst := MIN_BURST;
      }
      var todo := buckets.Keys;
      while todo != {}
        invariant todo <= buckets.Keys == old(buckets).Keys
        invariant rate == perSec as real && burst == BurstFor(perSec)
        invariant forall k :: k in buckets ==>
                    buckets[k] == if k in todo then old(buckets)[k] else Capped(old(buckets)[k], burst)
        decreases |todo|
      {
        var k :| k in todo;
        if buckets[k].tokens > burst {
          buckets := buckets[k := buckets[k].(tokens := burst)];
        }
        todo := todo - {k};
      }
      assert buckets == Updated(old(View()), perSec).buckets;
    }

    method Sweep(now: real)
      modifies this
      ensures View() == Swept(old(View()), now)
    {
      var cutoff := now - BUCKET_IDLE;
      var todo := buckets.Keys;
      while todo != {}
        invariant todo <= old(buckets).Keys && rate == old(rate) && burst == old(burst)
        invariant forall k :: k in buckets <==>
                    k in old(buckets) && (k in todo || !(old(buckets)[k].last < cutoff))
        invariant forall k :: k in buckets ==> buckets[k] == old(buckets)[k]
        decreases |todo|
      {
        var k :| k in todo;
        if buckets[k].last < cutoff {
          buckets := buckets - {k};
        }
        todo := todo - {k};
      }
      assert buckets == Swept(old(View()), now).buckets;
    }

    method Allow(src: Addr6, now: real) returns (ok: bool)
      modifies this
      ensures (View(), ok) == Asked(old(View()), src, now, true)
    {
      if rate <= 0.0 {
        return true;
      }
      if src !in buckets {
        if |buckets| >= MAX_BUCKETS {
          Sweep(now);
        }
        buckets := buckets[src := Bucket(burst, now)];
      }
      assert View() == WithBucket(old(View()), src, now, true);
      var b := buckets[src];
      var tokens := b.tokens + Gain(rate, b.last, now);
      if tokens > burst {
        tokens := burst;
      }
      ok := !(tokens < 1.0);
      if ok {
        tokens := tokens - 1.0;
      }
      buckets := buckets[src := Bucket(tokens, now)];
    }
  }

  // ---------------------------------------------------------------------
  // Runs: any interleaving of queries and rate reloads.

  datatype Event = Ask(src: Addr6, now: real) | SetRate(perSec: int)

  function Apply(l: Limiter, e: Event, sweeps: bool): (Limiter, bool) {
    match e
    case Ask(src, now) => Asked(l, src, now, sweeps)
    case SetRate(perSec) => (Updated(l, perSec), true)
  }

  /** The limiter a run leaves behind. */
  function Final(l: Limiter, es: seq<Event>, sweeps: bool): Limiter {
    if es == [] then l
    else Apply(Final(l, es[..|es| - 1], sweeps), es[|es| - 1], sweeps).0
  }

  /** The answer to event n of a run. */
  predicate Decision(l: Limiter, es: seq<Event>, sweeps: bool, n: nat)
    requires n < |es|
  {
    Apply(Final(l, es[..n], sweeps), es[n], sweeps).1
  }

  /** Queries arrive in time order. */
  ghost predicate Timed(es: seq<Event>) {
    forall i, j :: 0 <= i <= j < |es| && es[i].Ask? && es[j].Ask? ==> es[i].now <= es[j].now
  }

  ghost predicate AllBefore(es: seq<Event>, t: real) {
    forall e :: e in es && e.Ask? ==> e.now <= t
  }

  /** What the rate and the buckets of any reachable limiter satisfy at time t. */
  ghost predicate Sane(l: Limiter, t: real) {
    && (l.rate == 0.0 || (l.rate >= 1.0 && 0.0 <= l.burst <= BUCKET_IDLE * l.rate))
    && l.burst >= 0.0
    && forall k :: k in l.buckets ==> l.buckets[k].tokens >= 0.0 && l.buckets[k].last <= t
  }

  /**
   `a` evicts, `b` does not: they agree on every bucket `a` still has, and a
   bucket only `b` has was idle long enough to be full again.
   */
  ghost predicate Hides(a: Limiter, b: Limiter, t: real) {
    && a.rate == b.rate && a.burst == b.burst
    && (forall k :: k in a.buckets ==> k in b.buckets && a.buckets[k] == b.buckets[k])
    && forall k :: k in b.buckets && k !in a.buckets ==> b.buckets[k].last + BUCKET_IDLE <= t
  }

  lemma SpendStaysSane(b: Bucket, now: real, rate: real, burst: real)
    requires b.tokens >= 0.0 && b.last <= now && rate >= 0.0 && burst >= 0.0
    ensures Spend(b, now, rate, burst).0.tokens >= 0.0
  {
    GainGrows(rate, b.last, b.last, now);
  }

  lemma ApplyStaysSane(l: Limiter, e: Event, sweeps: bool, t: real)
    requires Sane(l, t) && (e.Ask? ==> e.now == t)
    ensures Sane(Apply(l, e, sweeps).0, t)
  {
    match e
    case SetRate(perSec) =>
    case Ask(src, now) =>
      if l.rate > 0.0 {
        var m := WithBucket(l, src, now, sweeps);
        SpendStaysSane(m.buckets[src], now, m.rate, m.burst);
      }
  }

  /** After five idle minutes a bucket refills to the brim, whatever was left in it. */
  lemma IdleBucketIsFull(b: Bucket, now: real, rate: real, burst: real)
    requires b.tokens >= 0.0 && b.last + BUCKET_IDLE <= now && rate >= 0.0 && burst <= BUCKET_IDLE * rate
    ensures Refilled(b, now, rate, burst) == burst
  {
    GainGrows(rate, b.last, b.last + BUCKET_IDLE, now);
    assert Gain(rate, b.last, b.last + BUCKET_IDLE) == BUCKET_IDLE * rate;
  }

  lemma FreshBucketIsFull(now: real, rate: real, burst: real)
    ensures Refilled(Bucket(burst, now), now, rate, burst) == burst
  {
    assert Gain(rate, now, now) == 0.0;
  }

  /** One step keeps the two limiters in agreement and makes them answer alike. */
  lemma StepHides(a: Limiter, b: Limiter, e: Event, t: real)
    requires Hides(a, b, t) && Sane(b, t) && (e.Ask? ==> e.now == t)
    ensures Apply(a, e, true).1 == Apply(b, e, false).1
    ensures Hides(Apply(a, e, true).0, Apply(b, e, false).0, t)
  {
    match e
    case SetRate(perSec) =>
    case Ask(src, now) =>
      if a.rate > 0.0 {
        var ma, mb := WithBucket(a, src, now, true), WithBucket(b, src, now, false);
        FreshBucketIsFull(now, a.rate, a.burst);
        if src in b.buckets && src !in a.buckets {
          IdleBucketIsFull(b.buckets[src], now, b.rate, b.burst);
        }
        assert Spend(ma.buckets[src], now, a.rate, a.burst) == Spend(mb.buckets[src], now, b.rate, b.burst);
      }
  }

  lemma {:induction false} RunsAgree(perSec: int, es: seq<Event>, t: real)
    requires Timed(es) && AllBefore(es, t)
    ensures var l := Updated(EMPTY, perSec);
            Hides(Final(l, es, true), Final(l, es, false), t) && Sane(Final(l, es, false), t)
  {
    if es != [] {
      var l, front, e := Updated(EMPTY, perSec), es[..|es| - 1], es[|es| - 1];
      var u := if e.Ask? then e.now else t;
      forall x | x in front && x.Ask?
        ensures x.now <= u
      {
        var i :| 0 <= i < |front| && front[i] == x;
        assert es[i] == x;
        assert x in es;
      }
      assert e in es;
      RunsAgree(perSec, front, u);
      StepHides(Final(l, front, true), Final(l, front, false), e, u);
      ApplyStaysSane(Final(l, front, false), e, false, u);
    }
  }

  /** Eviction is invisible: every answer is the one a limiter that never evicts would give. */
  lemma SweepingIsInvisible(perSec: int, es: seq<Event>, n: nat)
    requires Timed(es) && n < |es|
    ensures Decision(Updated(EMPTY, perSec), es, true, n) == Decision(Updated(EMPTY, perSec), es, false, n)
  {
    var front, e := es[..n], es[n];
    if e.Ask? {
      forall x | x in front && x.Ask?
        ensures x.now <= e.now
      {
        var i :| 0 <= i < |front| && front[i] == x;
        assert es[i] == x;
      }
      RunsAgree(perSec, front, e.now);
      StepHides(Final(Updated(EMPTY, perSec), front, true), Final(Updated(EMPTY, perSec), front, false), e, e.now);
    }
  }

  /** Right after a bucket is added, the map is within its bound or holds only buckets used in the last five minutes. */
  lemma InsertionIsBounded(l: Limiter, src: Addr6, now: real)
    requires src !in l.buckets && l.rate > 0.0
    ensures var r := Asked(l, src, now, true).0;
            |r.buckets| <= MAX_BUCKETS
            || forall k :: k in r.buckets ==> r.buckets[k].last >= now - BUCKET_IDLE
  {
    var r := Asked(l, src, now, true).0;
    if |l.buckets| < MAX_BUCKETS {
      assert r.buckets.Keys == l.buckets.Keys + {src};
      assert |r.buckets.Keys| == |l.buckets.Keys| + 1;
    }
  }

  // ---------------------------------------------------------------------
  // Reloads.

  /** A reload forgets no source and gives no tokens: each bucket keeps what the new burst holds of it. */
  lemma ReloadKeepsTheDebt(l: Limiter, perSec: int, src: Addr6)
    requires perSec > 0
    ensures var r, burst := Updated(l, perSec), if perSec < 5 then 10.0 else 2.0 * perSec as real;
            && r.rate == perSec as real && r.burst == burst && (src in r.buckets <==> src in l.buckets)
            && (src in l.buckets ==>
                  r.buckets[src] == Bucket(if l.buckets[src].tokens < burst then l.buckets[src].tokens else burst, l.buckets[src].last))
  {
  }

  /** A rate of zero or less switches the limiter off: every query passes and every bucket waits as it is. */
  lemma SwitchedOffAllowsAll(l: Limiter, perSec: int, src: Addr6, now: real, sweeps: bool)
    requires perSec <= 0
    ensures var off := Updated(l, perSec);
            off.buckets == l.buckets && off.burst == l.burst && Asked(off, src, now, sweeps) == (off, true)
  {
  }

  ghost predicate WithinBurst(l: Limiter) {
    forall k :: k in l.buckets ==> l.buckets[k].tokens <= l.burst
  }

  /** Through every run of queries and reloads no bucket holds more than the burst. */
  lemma {:induction false} TokensWithinBurst(perSec: int, es: seq<Event>, sweeps: bool)
    ensures WithinBurst(Final(Updated(EMPTY, perSec), es, sweeps))
  {
    if es != [] {
      var front, e := es[..|es| - 1], es[|es| - 1];
      TokensWithinBurst(perSec, front, sweeps);
      match e
      case SetRate(rate) =>
      case Ask(src, now) =>
    }
  }

  // ---------------------------------------------------------------------
  // At a fixed rate every source gets exactly the token-bucket law, however
  // its queries interleave with those of others.

  /** The times at which `src` asked. */
  function TimesOf(es: seq<Event>, src: Addr6): seq<real> {
    if es == [] then []
    else
      var e := es[|es| - 1];
      TimesOf(es[..|es| - 1], src) + if e.Ask? && e.src == src then [e.now] else []
  }

  ghost predicate FixedRate(es: seq<Event>) {
    forall e :: e in es ==> e.Ask?
  }

  /** The bucket of `src` is the one its own query times produce. */
  ghost predicate Follows(l: Limiter, perSec: int, src: Addr6, ts: seq<real>) {
    && l.rate == perSec as real && l.burst == BurstFor(perSec)
    && (src in l.buckets <==> ts != [])
    && (ts != [] ==> l.buckets[src] == After(ts, l.rate, l.burst, |ts| - 1))
  }

  lemma OwnQueryFollows(l: Limiter, perSec: int, src: Addr6, ts: seq<real>, now: real)
    requires perSec > 0 && Follows(l, perSec, src, ts)
    ensures Follows(Asked(l, src, now, false).0, perSec, src, ts + [now])
    ensures Asked(l, src, now, false).1 == Allowed(ts + [now], l.rate, l.burst, |ts|)
  {
    Continues(ts, now, l.rate, l.burst);
  }

  lemma {:induction false} BucketFollowsHistory(perSec: int, es: seq<Event>, src: Addr6)
    requires perSec > 0 && FixedRate(es)
    ensures Follows(Final(Updated(EMPTY, perSec), es, false), perSec, src, TimesOf(es, src))
  {
    if es != [] {
      var front, e := es[..|es| - 1], es[|es| - 1];
      assert e in es;
      forall x | x in front
        ensures x.Ask?
      {
        assert x in es;
      }
      BucketFollowsHistory(perSec, front, src);
      var l := Final(Updated(EMPTY, perSec), front, false);
      if e.src == src {
        OwnQueryFollows(l, perSec, src, TimesOf(front, src), e.now);
      } else {
        assert TimesOf(es, src) == TimesOf(front, src);
      }
    }
  }

  /** The answer to a source's latest query is the exact law's decision on that source's own history. */
  lemma EachSourceMeetsTheLaw(perSec: int, es: seq<Event>, n: nat)
    requires perSec > 0 && FixedRate(es) && Timed(es) && n < |es|
    ensures es[n].Ask?
    ensures var ts := TimesOf(es[..n], es[n].src) + [es[n].now];
            Decision(Updated(EMPTY, perSec), es, true, n)
              == Allowed(ts, perSec as real, if perSec < 5 then 10.0 else 2.0 * perSec as real, |ts| - 1)
  {
    var front, e := es[..n], es[n];
    assert e in es;
    forall x | x in front
      ensures x.Ask?
    {
      assert x in es;
    }
    SweepingIsInvisible(perSec, es, n);
    BucketFollowsHistory(perSec, front, e.src);
    OwnQueryFollows(Final(Updated(EMPTY, perSec), front, false), perSec, e.src, TimesOf(front, e.src), e.now);
  }
}
