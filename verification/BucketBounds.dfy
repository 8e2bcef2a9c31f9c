/**
 The rate the in-process token bucket enforces over any interval of any run, although every
 refill is rounded down.
 */
module BucketBounds {
  import opened Outcomes
  import opened Arithmetic
  import opened RateConfig
  import opened Histories
  import opened KeyMachine
  import opened Sweeping
  import opened WindowBounds

  /** A refill never adds more than the elapsed time is worth, although it is rounded down. */
  lemma RefillWorth(tokens: nat, rate: RateLimit, elapsed: nat)
    requires ValidRate(rate)
    ensures Refill(tokens, rate, elapsed) * rate.windowNanos
         <= tokens * rate.windowNanos + rate.count * 1000 * elapsed
    ensures Refill(tokens, rate, elapsed) <= rate.count * 1000
  {
    var w, earned := rate.windowNanos, rate.count * 1000 * elapsed;
    DivBrackets(earned, w);
    MulMono(Refill(tokens, rate, elapsed), tokens + earned / w, w);
    assert (tokens + earned / w) * w == tokens * w + earned / w * w;
  }

  /** The balance a call leaves. */
  lemma BucketCall(p: Policy, s: Option<KeyState>, at: Stamp) returns (held: nat)
    requires ValidRate(p.rate) && p.algorithm.TokenBucket?
    requires s.Some? ==> StateMatches(p, s.value) && s.value.lastRefill <= at.mono
    ensures held == if s.None? then p.rate.count * 1000
                    else if at.mono == s.value.lastRefill then s.value.tokensMilli
                    else Refill(s.value.tokensMilli, p.rate, at.mono - s.value.lastRefill)
    ensures var (s', r) := Advance(p, s, at);
            && (r.allowed <==> held >= 1000)
            && s' == BucketState(if r.allowed then held - 1000 else held, at.mono)
  {
    held := if s.None? then p.rate.count * 1000
            else if at.mono == s.value.lastRefill then s.value.tokensMilli
            else Refill(s.value.tokensMilli, p.rate, at.mono - s.value.lastRefill);
  }

  /**
   Milli-tokens spent from `lo` on, plus those left, scaled by the window, never exceed one
   capacity plus what the elapsed time is worth.
   */
  ghost predicate Funded(p: Policy, adm: History<nat>, tokens: nat, lo: int, now: int) {
    var cap, w := p.rate.count * 1000, p.rate.windowNanos;
    Count(adm, lo, now) * 1000 * w + tokens * w <= cap * w + cap * (now - lo)
  }

  lemma FullIsFunded(p: Policy, tokens: nat, lo: int, now: int)
    requires lo <= now && tokens == p.rate.count * 1000
    ensures Funded(p, Start, tokens, lo, now)
  {
    MulMono(0, now - lo, p.rate.count * 1000);
  }

  lemma {:induction false} BucketRun(p: Policy, calls: History<Stamp>, lo: int)
    requires ValidRate(p.rate) && p.algorithm.TokenBucket? && Ordered(calls) && calls.Then?
    requires lo <= calls.last.mono
    ensures var s := Solo(p, calls).value;
            && s.BucketState? && s.lastRefill == calls.last.mono && s.tokensMilli <= p.rate.count * 1000
            && Funded(p, Admitted(p, calls), s.tokensMilli, lo, calls.last.mono)
  {
    hide Evaluate, Refill, Funded;
    var before, at, cap, w := calls.before, calls.last, p.rate.count * 1000, p.rate.windowNanos;
    SoloMatches(p, before);
    if before.Start? {
      var held := BucketCall(p, None, at);
      FullIsFunded(p, held, lo, at.mono);
      Spend(p, Start, held, lo, at.mono, SoloResult(p, before, at).allowed);
    } else {
      var prev := before.last.mono;
      BucketRun(p, before, Min(lo, prev));
      var s := Solo(p, before).value;
      var held := BucketCall(p, Some(s), at);
      if prev < at.mono {
        RefillWorth(s.tokensMilli, p.rate, at.mono - prev);
      }
      AdmittedBy(p, before, prev);
      Accrue(p, Admitted(p, before), s.tokensMilli, held, lo, prev, at.mono);
      Spend(p, Admitted(p, before), held, lo, at.mono, SoloResult(p, before, at).allowed);
    }
  }

  /** Time passing from `prev` to `now` keeps the account funded. */
  lemma Accrue(p: Policy, adm: History<nat>, tokens: nat, held: nat, lo: int, prev: int, now: int)
    requires prev <= now && lo <= now && AtMost(adm, prev)
    requires Funded(p, adm, tokens, Min(lo, prev), prev)
    requires held <= p.rate.count * 1000
    requires held * p.rate.windowNanos <= tokens * p.rate.windowNanos + p.rate.count * 1000 * (now - prev)
    ensures Funded(p, adm, held, lo, now)
  {
    if lo <= prev {
      CountMono(adm, lo, now, lo, prev);
      CountMono(adm, lo, prev, lo, now);
      Spread(p.rate.count * 1000, prev - lo, now - prev);
    } else {
      AtMostLater(adm, prev, lo - 1);
      CountNone(adm, lo, now);
      MulMono(held, p.rate.count * 1000, p.rate.windowNanos);
      MulMono(0, now - lo, p.rate.count * 1000);
    }
  }

  lemma Spread(c: nat, a: int, b: int)
    ensures c * a + c * b == c * (a + b)
  {
  }

  lemma Spend(p: Policy, adm: History<nat>, held: nat, lo: int, now: nat, allowed: bool)
    requires ValidRate(p.rate) && lo <= now && (allowed ==> held >= 1000)
    requires Funded(p, adm, held, lo, now)
    ensures Funded(p, if allowed then Then(adm, now) else adm, if allowed then held - 1000 else held, lo, now)
  {
    var w, n := p.rate.windowNanos, Count(adm, lo, now);
    if allowed {
      assert (n + 1) * 1000 * w + (held - 1000) * w == n * 1000 * w + held * w;
    }
  }

  /** Over any interval from `lo` to `hi`: admitted * window <= limit * window + limit * (hi - lo). */
  lemma {:induction false} BucketBound(p: Policy, calls: History<Stamp>, lo: int, hi: int)
    requires ValidRate(p.rate) && p.algorithm.TokenBucket? && Ordered(calls) && lo <= hi
    ensures Count(Admitted(p, calls), lo, hi) * p.rate.windowNanos
         <= p.rate.count * p.rate.windowNanos + p.rate.count * (hi - lo)
  {
    hide Evaluate;
    var w, limit := p.rate.windowNanos, p.rate.count;
    if calls.Then? {
      var at := calls.last.mono;
      if lo <= at <= hi {
        BucketRun(p, calls, lo);
        AdmittedBy(p, calls, at);
        CountMono(Admitted(p, calls), lo, hi, lo, at);
        Unscale(limit, w, Count(Admitted(p, calls), lo, hi), Count(Admitted(p, calls), lo, at),
                Solo(p, calls).value.tokensMilli, at - lo, hi - lo);
      } else {
        BucketBound(p, calls.before, lo, hi);
      }
    } else {
      assert limit * (hi - lo) >= 0;
    }
  }

  lemma Unscale(limit: nat, w: nat, n: nat, n': nat, tokens: nat, d': nat, d: nat)
    requires n <= n' && d' <= d
    requires n' * 1000 * w + tokens * w <= limit * 1000 * w + limit * 1000 * d'
    ensures n * w <= limit * w + limit * d
  {
    MulMono(n, n', w);
    MulMono(d', d, limit);
    assert tokens * w >= 0;
    assert n' * 1000 * w == 1000 * (n' * w);
    assert limit * 1000 * w == 1000 * (limit * w);
    assert limit * 1000 * d' == 1000 * (limit * d');
  }

  /** The evicting store enforces the same rate. */
  lemma StoreBucketBound(ps: Policies, events: History<Event>, k: string, lo: int, hi: int)
    requires ValidPolicies(ps) && TimedOn(ps, events, k) && ps(k).algorithm.TokenBucket? && lo <= hi
    ensures Count(StoreAdmitted(ps, events, k), lo, hi) * ps(k).rate.windowNanos
         <= ps(k).rate.count * ps(k).rate.windowNanos + ps(k).rate.count * (hi - lo)
  {
    hide Evaluate;
    StoreAdmitsAsSolo(ps, events, k);
    CallsOrdered(ps, events, k);
    BucketBound(ps(k), CallsOn(events, k), lo, hi);
  }
}
