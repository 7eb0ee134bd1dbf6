/**
 The token bucket of src/nat64/icmperr.go (errRateLimiter) and of each source
 in src/dns64/ratelimit.go. Times are in seconds and, like token counts, are
 exact reals: the rounding of the original's float64 is not modelled.
 */
module TokenBucket {
  import opened Octets

  datatype Bucket = Bucket(tokens: real, last: real)

  /** Tokens earned between two times. */
  function Gain(rate: real, from: real, to: real): real {
    rate * (to - from)
  }

  lemma GainSplits(rate: real, from: real, mid: real, to: real)
    ensures Gain(rate, from, to) == Gain(rate, from, mid) + Gain(rate, mid, to)
  {
  }

  lemma GainGrows(rate: real, from: real, mid: real, to: real)
    requires rate >= 0.0 && mid <= to
    ensures Gain(rate, from, mid) <= Gain(rate, from, to)
  {
  }

  /** Tokens available at `now`, after the refill and the cap and before spending. */
  function Refilled(b: Bucket, now: real, rate: real, burst: real): (level: real)
    ensures level <= burst
    ensures level <= b.tokens + Gain(rate, b.last, now)
    ensures level == burst || level == b.tokens + Gain(rate, b.last, now)
  {
    var t := b.tokens + Gain(rate, b.last, now);
    if t > burst then burst else t
  }

  /** The bucket left by one request and whether the request was allowed. */
  function Spend(b: Bucket, now: real, rate: real, burst: real): (r: (Bucket, bool))
    ensures r.0.last == now
    ensures r.1 <==> Refilled(b, now, rate, burst) >= 1.0
    ensures b.tokens >= 0.0 && now >= b.last && rate >= 0.0 && burst >= 0.0 ==> r.0.tokens >= 0.0
  {
    var t := Refilled(b, now, rate, burst);
    if t < 1.0 then (Bucket(t, now), false) else (Bucket(t - 1.0, now), true)
  }

  // ---------------------------------------------------------------------
  // One bucket, a whole history of requests.

  /** Request times that never go backwards. */
  ghost predicate NonDecreasing(ts: seq<real>) {
    forall i, j :: 0 <= i <= j < |ts| ==> ts[i] <= ts[j]
  }

  /** The bucket just before request n; it is seeded full by the first request. */
  function Before(ts: seq<real>, rate: real, burst: real, n: nat): Bucket
    requires n < |ts|
    decreases n, 0
  {
    if n == 0 then Bucket(burst, ts[0]) else After(ts, rate, burst, n - 1)
  }

  /** The bucket left by request n. */
  function After(ts: seq<real>, rate: real, burst: real, n: nat): Bucket
    requires n < |ts|
    decreases n, 1
  {
    Spend(Before(ts, rate, burst, n), ts[n], rate, burst).0
  }

  /** The decision on request n. */
  predicate Allowed(ts: seq<real>, rate: real, burst: real, n: nat)
    requires n < |ts|
  {
    Spend(Before(ts, rate, burst, n), ts[n], rate, burst).1
  }

  /** How many of the requests i, ..., j-1 were allowed. */
  function Accepted(ts: seq<real>, rate: real, burst: real, i: nat, j: nat): (c: nat)
    requires i <= j <= |ts|
    ensures c <= j - i
    decreases j - i
  {
    if i == j then 0
    else Accepted(ts, rate, burst, i, j - 1) + (if Allowed(ts, rate, burst, j - 1) then 1 else 0)
  }

  /** The level request n is judged on. */
  function Level(ts: seq<real>, rate: real, burst: real, n: nat): real
    requires n < |ts|
  {
    Refilled(Before(ts, rate, burst, n), ts[n], rate, burst)
  }

  /** What is left of the credit granted since request i when request j arrives. */
  function Credit(ts: seq<real>, rate: real, burst: real, i: nat, j: nat): real
    requires i <= j < |ts|
  {
    burst + Gain(rate, ts[i], ts[j]) - Accepted(ts, rate, burst, i, j) as real
  }

  lemma CreditStep(ts: seq<real>, rate: real, burst: real, i: nat, j: nat)
    requires i < j < |ts|
    ensures Credit(ts, rate, burst, i, j)
         == Credit(ts, rate, burst, i, j - 1) + Gain(rate, ts[j - 1], ts[j])
            - (if Allowed(ts, rate, burst, j - 1) then 1.0 else 0.0)
  {
    GainSplits(rate, ts[i], ts[j - 1], ts[j]);
  }

  /** Between two requests the level drops by the token spent and rises by the refill. */
  lemma LevelStep(ts: seq<real>, rate: real, burst: real, j: nat)
    requires 0 < j < |ts|
    ensures var next := Level(ts, rate, burst, j - 1) + Gain(rate, ts[j - 1], ts[j])
                        - (if Allowed(ts, rate, burst, j - 1) then 1.0 else 0.0);
            Level(ts, rate, burst, j) == if next > burst then burst else next
  {
    var b := Before(ts, rate, burst, j);
    assert b == After(ts, rate, burst, j - 1);
    assert b.last == ts[j - 1];
    assert b.tokens == Level(ts, rate, burst, j - 1)
                       - (if Allowed(ts, rate, burst, j - 1) then 1.0 else 0.0);
  }

  /** The level is the smallest remaining credit over all starting points. */
  lemma {:induction false} LevelIsLeastCredit(ts: seq<real>, rate: real, burst: real, j: nat)
    requires j < |ts|
    ensures forall i :: 0 <= i <= j ==> Level(ts, rate, burst, j) <= Credit(ts, rate, burst, i, j)
    ensures exists i :: 0 <= i <= j && Level(ts, rate, burst, j) == Credit(ts, rate, burst, i, j)
  {
    assert Credit(ts, rate, burst, j, j) == burst;
    if j > 0 {
      LevelIsLeastCredit(ts, rate, burst, j - 1);
      LevelStep(ts, rate, burst, j);
      forall i | 0 <= i < j
        ensures Level(ts, rate, burst, j) <= Credit(ts, rate, burst, i, j)
      {
        CreditStep(ts, rate, burst, i, j);
        assert Level(ts, rate, burst, j - 1) <= Credit(ts, rate, burst, i, j - 1);
      }
      if Level(ts, rate, burst, j) != burst {
        var m :| 0 <= m <= j - 1 && Level(ts, rate, burst, j - 1) == Credit(ts, rate, burst, m, j - 1);
        CreditStep(ts, rate, burst, m, j);
      }
    }
  }

  /**
   The exact law: request j is allowed if and only if no window that ends with
   it would carry more than its burst plus its refill.
   */
  lemma AllowedExactly(ts: seq<real>, rate: real, burst: real, j: nat)
    requires j < |ts|
    ensures Allowed(ts, rate, burst, j)
       <==> forall i :: 0 <= i <= j ==>
              Accepted(ts, rate, burst, i, j) as real + 1.0 <= burst + Gain(rate, ts[i], ts[j])
  {
    LevelIsLeastCredit(ts, rate, burst, j);
    var m :| 0 <= m <= j && Level(ts, rate, burst, j) == Credit(ts, rate, burst, m, j);
    forall i | 0 <= i <= j
      ensures Level(ts, rate, burst, j) >= 1.0 ==>
                Accepted(ts, rate, burst, i, j) as real + 1.0 <= burst + Gain(rate, ts[i], ts[j])
    {
      assert Level(ts, rate, burst, j) <= Credit(ts, rate, burst, i, j);
    }
    if Level(ts, rate, burst, j) < 1.0 {
      assert !(Accepted(ts, rate, burst, m, j) as real + 1.0 <= burst + Gain(rate, ts[m], ts[j]));
    }
  }

  /** No window of requests ever carries more than the burst plus the refill of its span. */
  lemma {:induction false} WindowBound(ts: seq<real>, rate: real, burst: real, i: nat, j: nat)
    requires i <= j < |ts| && NonDecreasing(ts) && rate >= 0.0 && burst >= 0.0
    ensures Accepted(ts, rate, burst, i, j + 1) as real <= burst + Gain(rate, ts[i], ts[j])
    decreases j
  {
    GainGrows(rate, ts[i], ts[i], ts[j]);
    if Allowed(ts, rate, burst, j) {
      AllowedExactly(ts, rate, burst, j);
    } else if i < j {
      WindowBound(ts, rate, burst, i, j - 1);
      GainGrows(rate, ts[i], ts[j - 1], ts[j]);
    }
  }

  /** A source whose offered load fits the budget in every window is never refused. */
  lemma ConformingIsNeverRefused(ts: seq<real>, rate: real, burst: real, j: nat)
    requires j < |ts|
    requires forall i :: 0 <= i <= j ==> (j - i + 1) as real <= burst + Gain(rate, ts[i], ts[j])
    ensures Allowed(ts, rate, burst, j)
  {
    AllowedExactly(ts, rate, burst, j);
    forall i | 0 <= i <= j
      ensures Accepted(ts, rate, burst, i, j) as real + 1.0 <= burst + Gain(rate, ts[i], ts[j])
    {
      assert Accepted(ts, rate, burst, i, j) <= j - i;
    }
  }

  /** What request n does depends only on the first n requests. */
  lemma {:induction false} PrefixDecides(ts: seq<real>, us: seq<real>, rate: real, burst: real, n: nat)
    requires n < |ts| <= |us| && us[..|ts|] == ts
    ensures After(ts, rate, burst, n) == After(us, rate, burst, n)
    ensures Allowed(ts, rate, burst, n) == Allowed(us, rate, burst, n)
  {
    assert ts[n] == us[n];
    if n > 0 {
      PrefixDecides(ts, us, rate, burst, n - 1);
    } else {
      assert ts[0] == us[0];
    }
  }

  /** One more request meets the bucket that the earlier ones left. */
  lemma Continues(ts: seq<real>, now: real, rate: real, burst: real)
    ensures Before(ts + [now], rate, burst, |ts|)
         == if ts == [] then Bucket(burst, now) else After(ts, rate, burst, |ts| - 1)
  {
    if ts != [] {
      PrefixDecides(ts, ts + [now], rate, burst, |ts| - 1);
    }
  }

  // ---------------------------------------------------------------------
  // The limiter of every synthesised ICMPv6 error and of unsolicited
  // datagrams, src/nat64/icmperr.go.

  const ICMP_ERR_RATE := 50.0
  const ICMP_ERR_BURST := 100.0
  const EIF_RATE := 100.0
  const EIF_BURST := 200.0

  /** `last` is None until the first call, like the zero time of the original. */
  datatype Lazy = Lazy(tokens: real, last: Option<real>)

  const FRESH := Lazy(0.0, None)

  /** The seeding rule of a limiter that was never used. */
  function Seeded(l: Lazy, now: real, burst: real): Bucket {
    if l.last.None? then Bucket(burst, now) else Bucket(l.tokens, l.last.value)
  }

  function SpendLazily(l: Lazy, now: real, rate: real, burst: real): (Lazy, bool) {
    var r := Spend(Seeded(l, now, burst), now, rate, burst);
    (Lazy(r.0.tokens, Some(r.0.last)), r.1)
  }

  class ErrRateLimiter {
    var tokens: real
    var last: Option<real>
    ghost var asked: seq<real>   // the times of all calls so far

    constructor ()
      ensures View() == FRESH && asked == []
    {
      tokens, last, asked := 0.0, None, [];
    }

    function View(): Lazy
      reads this
    {
      Lazy(tokens, last)
    }

    /** The limiter is where a history of requests at one rate and burst leaves it. */
    ghost predicate Tracks(rate: real, burst: real)
      reads this
    {
      if asked == [] then View() == FRESH
      else
        var b := After(asked, rate, burst, |asked| - 1);
        View() == Lazy(b.tokens, Some(b.last))
    }

    /** allow: the budget of synthesised errors. No more than burst plus refill pass in any window of calls. */
    method Allow(now: real) returns (ok: bool)
      requires Tracks(ICMP_ERR_RATE, ICMP_ERR_BURST)
      modifies this
      ensures Tracks(ICMP_ERR_RATE, ICMP_ERR_BURST)
      ensures asked == old(asked) + [now]
      ensures ok == Allowed(asked, ICMP_ERR_RATE, ICMP_ERR_BURST, |asked| - 1)
    {
      ok := AllowBudget(now, ICMP_ERR_RATE, ICMP_ERR_BURST);
    }

    /**
     Refill, cap, spend. With one rate and burst for all calls, the k-th answer
     is the k-th decision of the exact law above.
     */
    method AllowBudget(now: real, rate: real, burst: real) returns (ok: bool)
      requires Tracks(rate, burst)
      modifies this
      ensures Tracks(rate, burst)
      ensures asked == old(asked) + [now]
      ensures ok == Allowed(asked, rate, burst, |asked| - 1)
      ensures (View(), ok) == SpendLazily(old(View()), now, rate, burst)
    {
      ghost var before, seeded := asked, Seeded(View(), now, burst);
      if last.None? {
        last := Some(now);
        tokens := burst;
      }
      tokens := tokens + Gain(rate, last.value, now);
      last := Some(now);
      if tokens > burst {
        tokens := burst;
      }
      assert tokens == Refilled(seeded, now, rate, burst);
      asked := asked + [now];
      Continues(before, now, rate, burst);
      ok := tokens >= 1.0;
      if ok {
        tokens := tokens - 1.0;
      }
    }
  }
}
