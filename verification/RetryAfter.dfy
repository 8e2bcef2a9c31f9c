/**
 How good the reported waiting time is, for a key nobody calls in between: exact for the
 token bucket, up to a second short for the two windows. And what calling in between does:
 polling a bucket too fast starves it.
 */
module RetryAfter {
  import opened Outcomes
  import opened Arithmetic
  import opened RateConfig
  import opened Histories
  import opened KeyMachine
  import opened WindowBounds
  import opened BucketBounds

  function InSeconds(at: Stamp, secs: nat): Stamp {
    Stamp(at.mono + secs * NANOS_PER_SEC, at.unix + secs)
  }

  // ---- Token bucket ----

  /** The reported wait, two floors and a ceiling, is the ceiling of the true one. */
  lemma WaitIsCeiling(short: nat, secs: nat, rate: RateLimit, k: nat)
    requires ValidRate(rate) && 1 <= short <= 1000 && rate.windowNanos == secs * NANOS_PER_SEC
    ensures SecondsToToken(1000 - short, rate) <= k <==> 1 <= k && short * secs <= rate.count * 1000 * k
  {
    var cap, due, paid := rate.count * 1000, short * secs, rate.count * 1000 * k;
    var floored := short * rate.windowNanos / cap;
    assert short * rate.windowNanos == due * NANOS_PER_SEC;
    assert (k * NANOS_PER_SEC + 1) * cap == paid * NANOS_PER_SEC + cap;
    DivAtLeast(due * NANOS_PER_SEC, k * NANOS_PER_SEC + 1, cap);
    assert floored <= k * NANOS_PER_SEC <==> due <= paid;
    var nanos := Max(floored, 1);
    assert SecondsToToken(1000 - short, rate) == Max((nanos + NANOS_PER_SEC - 1) / NANOS_PER_SEC, 1);
  }

  /** A bucket `short` milli-tokens below one token holds it after `k` seconds exactly when they are worth that much. */
  lemma RefilledAfter(short: nat, secs: nat, rate: RateLimit, k: nat)
    requires ValidRate(rate) && 1 <= short <= 1000 && rate.windowNanos == secs * NANOS_PER_SEC
    ensures Refill(1000 - short, rate, k * NANOS_PER_SEC) >= 1000 <==> short * secs <= rate.count * 1000 * k
  {
    var cap := rate.count * 1000;
    assert cap * (k * NANOS_PER_SEC) == cap * k * NANOS_PER_SEC;
    assert short * rate.windowNanos == short * secs * NANOS_PER_SEC;
    DivAtLeast(cap * (k * NANOS_PER_SEC), short, rate.windowNanos);
  }

  lemma HeldAfter(held: nat, rate: RateLimit, k: nat)
    requires ValidRate(rate) && held < 1000
    ensures k > 0 && Refill(held, rate, k * NANOS_PER_SEC) >= 1000 <==> SecondsToToken(held, rate) <= k
  {
    hide Refill, SecondsToToken;
    var secs := rate.windowNanos / NANOS_PER_SEC;
    assert rate.windowNanos == secs * NANOS_PER_SEC;
    WaitIsCeiling(1000 - held, secs, rate, k);
    RefilledAfter(1000 - held, secs, rate, k);
  }

  /**
   A denied caller who leaves the key alone is admitted after `k` seconds exactly when `k` reaches
   the reported wait.
   */
  lemma BucketRetryExact(p: Policy, calls: History<Stamp>, at: Stamp, k: nat)
    requires ValidRate(p.rate) && p.algorithm.TokenBucket? && Ordered(Then(calls, at))
    requires !SoloResult(p, calls, at).allowed
    ensures SoloResult(p, calls, at).retryAfter.Some?
    ensures SoloResult(p, Then(calls, at), InSeconds(at, k)).allowed
       <==> SoloResult(p, calls, at).retryAfter.value <= k
  {
    hide Evaluate, Refill, SecondsToToken;
    var held := DeniedBalance(p, calls, at);
    HeldAfter(held, p.rate, k);
    var _ := BucketCall(p, Some(BucketState(held, at.mono)), InSeconds(at, k));
  }

  /** The balance behind a denial. */
  lemma DeniedBalance(p: Policy, calls: History<Stamp>, at: Stamp) returns (held: nat)
    requires ValidRate(p.rate) && p.algorithm.TokenBucket? && Ordered(Then(calls, at))
    requires !SoloResult(p, calls, at).allowed
    ensures held < 1000 && Solo(p, Then(calls, at)) == Some(BucketState(held, at.mono))
    ensures SoloResult(p, calls, at).retryAfter == Some(SecondsToToken(held, p.rate))
  {
    SoloMatches(p, calls);
    if calls.Then? {
      BucketRun(p, calls, calls.last.mono);
    }
    held := BucketCall(p, Solo(p, calls), at);
    assert Advance(p, Solo(p, calls), at).1.retryAfter == Some(SecondsToToken(held, p.rate));
  }

  // ---- Polling ----

  /** `n` more calls, each `gap` nanoseconds after the one before. */
  function Polled(calls: History<Stamp>, gap: nat, n: nat): History<Stamp>
    requires calls.Then?
    ensures Polled(calls, gap, n).Then?
  {
    if n == 0 then calls
    else
      var before := Polled(calls, gap, n - 1);
      Then(before, Stamp(before.last.mono + gap, before.last.unix))
  }

  /** Is the `n`-th poll admitted? */
  predicate PollAdmitted(p: Policy, calls: History<Stamp>, gap: nat, n: nat)
    requires ValidRate(p.rate) && calls.Then?
  {
    n > 0 && SoloResult(p, Polled(calls, gap, n).before, Polled(calls, gap, n).last).allowed
  }

  function Balance(s: Option<KeyState>): int {
    if s.Some? && s.value.BucketState? then s.value.tokensMilli else -1
  }

  lemma {:induction false} PolledOrdered(calls: History<Stamp>, gap: nat, n: nat)
    requires calls.Then? && Ordered(calls)
    ensures Ordered(Polled(calls, gap, n))
  {
    if n > 0 {
      PolledOrdered(calls, gap, n - 1);
    }
  }

  /** A poll earns milli-tokens exactly when the gap is worth at least one. */
  lemma PollEarns(tokens: nat, rate: RateLimit, gap: nat)
    requires ValidRate(rate) && tokens < 1000
    ensures rate.count * 1000 * gap < rate.windowNanos ==> Refill(tokens, rate, gap) == tokens
    ensures rate.count * 1000 * gap >= rate.windowNanos ==> Refill(tokens, rate, gap) > tokens
  {
    DivZeroIff(rate.count * 1000 * gap, rate.windowNanos);
  }

  /** After `n` denied polls: the balance is unchanged if the gap is worth nothing, else up by at least `n`. */
  lemma {:induction false} DeniedPolls(p: Policy, calls: History<Stamp>, gap: nat, n: nat)
    requires ValidRate(p.rate) && p.algorithm.TokenBucket? && calls.Then? && Ordered(calls)
    requires 0 <= Balance(Solo(p, calls)) < 1000
    requires var dry := p.rate.count * 1000 * gap < p.rate.windowNanos;
             dry || forall i :: 0 < i <= n ==> !PollAdmitted(p, calls, gap, i)
    ensures var dry, b := p.rate.count * 1000 * gap < p.rate.windowNanos, Balance(Solo(p, Polled(calls, gap, n)));
            && (dry ==> b == Balance(Solo(p, calls)) && !PollAdmitted(p, calls, gap, n))
            && (!dry ==> Balance(Solo(p, calls)) + n <= b < 1000)
  {
    hide Evaluate;
    if n > 0 {
      DeniedPolls(p, calls, gap, n - 1);
      var before := Polled(calls, gap, n - 1);
      PolledOrdered(calls, gap, n - 1);
      BucketRun(p, before, before.last.mono);
      var s := Solo(p, before);
      var held := BucketCall(p, s, Polled(calls, gap, n).last);
      PollEarns(s.value.tokensMilli, p.rate, gap);
      assert PollAdmitted(p, calls, gap, n) <==> held >= 1000;
    }
  }

  /**
   An empty bucket polled at a fixed gap stays empty for ever exactly when one gap is worth
   less than a milli-token: each poll restarts the refill and the rounding discards it.
   */
  lemma PollingStarvesIff(p: Policy, calls: History<Stamp>, gap: nat)
    requires ValidRate(p.rate) && p.algorithm.TokenBucket? && calls.Then? && Ordered(calls)
    requires 0 <= Balance(Solo(p, calls)) < 1000
    ensures (forall n :: n > 0 ==> !PollAdmitted(p, calls, gap, n))
       <==> p.rate.count * 1000 * gap < p.rate.windowNanos
  {
    if p.rate.count * 1000 * gap < p.rate.windowNanos {
      forall n | n > 0
        ensures !PollAdmitted(p, calls, gap, n)
      {
        DeniedPolls(p, calls, gap, n);
      }
    } else if forall n :: n > 0 ==> !PollAdmitted(p, calls, gap, n) {
      DeniedPolls(p, calls, gap, 1000);
    }
  }

  // ---- Windows ----

  /** When a full window next has room. */
  function Reopens(p: Policy, s: KeyState): nat {
    match s
    case FixedState(_, start, _, _) => start + p.rate.windowNanos
    case SlidingState(ts, _) => if ts == [] then 0 else ts[0] + p.rate.windowNanos
    case BucketState(_, _) => 0
  }

  /** A sliding key never holds more than `limit` timestamps. */
  lemma {:induction false} DequeWithin(p: Policy, calls: History<Stamp>)
    requires ValidRate(p.rate) && p.algorithm.SlidingWindow?
    ensures |Deque(Solo(p, calls))| <= p.rate.count
  {
    hide Evaluate;
    if calls.Then? {
      DequeWithin(p, calls.before);
      SoloMatches(p, calls.before);
      SlidingCall(p, Solo(p, calls.before), calls.last);
      DropStaleSuffix(Deque(Solo(p, calls.before)), SatSub(calls.last.mono, p.rate.windowNanos));
    }
  }

  /** A denial leaves `limit` timestamps, none of them stale. */
  lemma FullDeque(p: Policy, calls: History<Stamp>, at: Stamp)
    requires ValidRate(p.rate) && p.algorithm.SlidingWindow? && Positive(calls) && Ordered(Then(calls, at))
    requires !SoloResult(p, calls, at).allowed
    ensures var s := Solo(p, Then(calls, at));
            && s.Some? && StateMatches(p, s.value)
            && |Deque(s)| == p.rate.count
            && 1 <= Deque(s)[0] && at.mono < Deque(s)[0] + p.rate.windowNanos
            && SoloResult(p, calls, at).retryAfter
               == Some(Max((Deque(s)[0] + p.rate.windowNanos - at.mono) / NANOS_PER_SEC, 1))
  {
    hide Evaluate;
    SoloMatches(p, calls);
    SlidingCall(p, Solo(p, calls), at);
    DequeWithin(p, Then(calls, at));
    LiveIsHistory(p, calls, at);
    AdmittedPositive(p, calls);
    AfterBounds(Admitted(p, calls), at.mono - p.rate.windowNanos);
  }

  lemma {:induction false} AfterBounds(h: History<nat>, cutoff: int)
    requires AtLeast(h, 1)
    ensures forall i :: 0 <= i < |After(h, cutoff)| ==> 1 <= After(h, cutoff)[i] && cutoff < After(h, cutoff)[i]
  {
    if h.Then? {
      AfterBounds(h.before, cutoff);
    }
  }

  lemma FixedReopens(p: Policy, calls: History<Stamp>, at: Stamp, later: Stamp)
    requires ValidRate(p.rate) && p.algorithm.FixedWindow? && Ordered(Then(calls, at))
    requires !SoloResult(p, calls, at).allowed && at.mono <= later.mono
    ensures Solo(p, Then(calls, at)).value.FixedState?
    ensures var opens := Solo(p, Then(calls, at)).value.windowStart + p.rate.windowNanos;
            && at.mono < opens
            && SoloResult(p, calls, at).retryAfter == Some(Max((opens - at.mono) / NANOS_PER_SEC, 1))
            && (SoloResult(p, Then(calls, at), later).allowed <==> opens <= later.mono)
  {
    SoloMatches(p, calls);
    FixedRun(p, Then(calls, at));
  }

  lemma SlidingReopens(p: Policy, calls: History<Stamp>, at: Stamp, later: Stamp)
    requires ValidRate(p.rate) && p.algorithm.SlidingWindow? && Positive(calls) && Ordered(Then(calls, at))
    requires !SoloResult(p, calls, at).allowed && at.mono <= later.mono
    ensures var kept := Deque(Solo(p, Then(calls, at)));
            SoloResult(p, Then(calls, at), later).allowed <==>
            (|kept| > 0 && kept[0] + p.rate.windowNanos <= later.mono)
  {
    hide Evaluate;
    FullDeque(p, calls, at);
    var s := Solo(p, Then(calls, at));
    SlidingCall(p, s, later);
    DropStaleSuffix(Deque(s)[1..], SatSub(later.mono, p.rate.windowNanos));
  }

  /**
   After a denial a quiet key admits exactly from `Reopens` on, and the report is that wait in whole
   seconds, at least 1.
   */
  lemma WindowReopens(p: Policy, calls: History<Stamp>, at: Stamp, later: Stamp)
    requires ValidRate(p.rate) && !p.algorithm.TokenBucket? && Positive(calls) && Ordered(Then(calls, at))
    requires !SoloResult(p, calls, at).allowed && at.mono <= later.mono
    ensures var opens := Reopens(p, Solo(p, Then(calls, at)).value);
            && at.mono < opens
            && SoloResult(p, calls, at).retryAfter == Some(Max((opens - at.mono) / NANOS_PER_SEC, 1))
            && (SoloResult(p, Then(calls, at), later).allowed <==> opens <= later.mono)
  {
    hide Evaluate;
    if p.algorithm.FixedWindow? {
      FixedReopens(p, calls, at, later);
    } else {
      FullDeque(p, calls, at);
      SlidingReopens(p, calls, at, later);
    }
  }

  /**
   Waiting one second more than reported always suffices for a window; waiting exactly what is
   reported suffices only if the true wait is under a second or a whole number of seconds.
   */
  lemma WindowRetryShort(p: Policy, calls: History<Stamp>, at: Stamp)
    requires ValidRate(p.rate) && !p.algorithm.TokenBucket? && Positive(calls) && Ordered(Then(calls, at))
    requires !SoloResult(p, calls, at).allowed
    ensures SoloResult(p, calls, at).retryAfter.Some? && SoloResult(p, calls, at).retryAfter.value >= 1
    ensures var retry := SoloResult(p, calls, at).retryAfter.value;
            var wait := Reopens(p, Solo(p, Then(calls, at)).value) - at.mono;
            && SoloResult(p, Then(calls, at), InSeconds(at, retry + 1)).allowed
            && (SoloResult(p, Then(calls, at), InSeconds(at, retry)).allowed
                <==> wait < NANOS_PER_SEC || wait % NANOS_PER_SEC == 0)
  {
    hide Evaluate;
    WindowReopens(p, calls, at, at);
    var retry := SoloResult(p, calls, at).retryAfter.value;
    WindowReopens(p, calls, at, InSeconds(at, retry + 1));
    WindowReopens(p, calls, at, InSeconds(at, retry));
  }

  /**
   For instance with one call a minute: a call, and half a second later a denial that says 59
   seconds. The caller who returns 59 seconds later is denied again, under either window.
   */
  lemma WindowRetryTooShort(algorithm: Algorithm)
    requires !algorithm.TokenBucket?
    ensures var p, first := Policy(RateLimit(1, 60 * NANOS_PER_SEC), algorithm), Then(Start, Stamp(1, 1000));
            var at := Stamp(500_000_001, 1000);
            && Positive(first) && Ordered(Then(first, at))
            && !SoloResult(p, first, at).allowed && SoloResult(p, first, at).retryAfter == Some(59)
            && !SoloResult(p, Then(first, at), InSeconds(at, 59)).allowed
  {
    var p, first := Policy(RateLimit(1, 60 * NANOS_PER_SEC), algorithm), Then(Start, Stamp(1, 1000));
    var at := Stamp(500_000_001, 1000);
    if algorithm.FixedWindow? {
      assert Solo(p, first) == Some(FixedState(1, 1, 1000, 60 * NANOS_PER_SEC));
    } else {
      assert DropStale([], 0) == [] && [] + [1] == [1];
      assert Solo(p, first) == Some(SlidingState([1], 60 * NANOS_PER_SEC));
      assert DropStale([1], 0) == [1];
      assert Solo(p, Then(first, at)) == Some(SlidingState([1], 60 * NANOS_PER_SEC));
    }
  }

  /** For instance a bucket of one call an hour: once used, it denies a caller who returns every second for ever. */
  lemma HourlyBucketStarves(n: nat)
    requires n > 0
    ensures var p, first := Policy(RateLimit(1, 3600 * NANOS_PER_SEC), TokenBucket), Then(Start, Stamp(1, 1000));
            SoloResult(p, Start, Stamp(1, 1000)).allowed && !PollAdmitted(p, first, NANOS_PER_SEC, n)
  {
    hide Evaluate;
    var p, first := Policy(RateLimit(1, 3600 * NANOS_PER_SEC), TokenBucket), Then(Start, Stamp(1, 1000));
    var held := BucketCall(p, None, Stamp(1, 1000));
    assert Balance(Solo(p, first)) == 0;
    PollingStarvesIff(p, first, NANOS_PER_SEC);
  }
}
