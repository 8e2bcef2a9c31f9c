/**
 What the numbers in an answer promise: the remaining count is exactly how many further calls
 would be admitted at once, and the reset time of a bucket is right to within a second.
 */
module Reports {
  import opened Outcomes
  import opened Arithmetic
  import opened RateConfig
  import opened Histories
  import opened KeyMachine
  import opened Sweeping
  import opened WindowBounds

  /** Popping again at the same time pops nothing more. */
  lemma PoppedTwice(ts: seq<nat>, t: nat, w: nat)
    requires t >= 1 && w >= 1
    ensures var live := DropStale(ts, SatSub(t, w));
            && DropStale(live, SatSub(t, w)) == live
            && DropStale(live + [t], SatSub(t, w)) == live + [t]
  {
    DropStaleTwice(ts, SatSub(t, w), SatSub(t, w));
    DropStaleSnoc(DropStale(ts, SatSub(t, w)), t, SatSub(t, w));
  }

  lemma WindowCallAgain(p: Policy, s: Option<KeyState>, at: Stamp)
    requires ValidRate(p.rate) && !p.algorithm.TokenBucket? && (p.algorithm.SlidingWindow? ==> at.mono >= 1)
    requires s.Some? ==> StateMatches(p, s.value)
    ensures var (s', r) := Advance(p, s, at);
            var r' := Advance(p, Some(s'), at).1;
            (r'.allowed <==> r.remaining > 0) && r'.remaining == SatSub(r.remaining, 1)
  {
    if p.algorithm.SlidingWindow? {
      SlidingCall(p, s, at);
      SlidingCall(p, Some(Advance(p, s, at).0), at);
      PoppedTwice(Deque(s), at.mono, p.rate.windowNanos);
    }
  }

  lemma BucketCallAgain(p: Policy, s: Option<KeyState>, at: Stamp)
    requires ValidRate(p.rate) && p.algorithm.TokenBucket?
    requires s.Some? ==> StateMatches(p, s.value)
    ensures var (s', r) := Advance(p, s, at);
            var r' := Advance(p, Some(s'), at).1;
            (r'.allowed <==> r.remaining > 0) && r'.remaining == SatSub(r.remaining, 1)
  {
    hide Refill, SecondsToFull, SecondsToToken;
  }

  /** A second call at the same instant: admitted iff something remained, and then one less remains. */
  lemma CallAgain(p: Policy, calls: History<Stamp>, at: Stamp)
    requires ValidRate(p.rate) && (p.algorithm.SlidingWindow? ==> at.mono >= 1)
    ensures var r, r' := SoloResult(p, calls, at), SoloResult(p, Then(calls, at), at);
            (r'.allowed <==> r.remaining > 0) && r'.remaining == SatSub(r.remaining, 1)
  {
    hide Evaluate;
    SoloMatches(p, calls);
    if p.algorithm.TokenBucket? {
      BucketCallAgain(p, Solo(p, calls), at);
    } else {
      WindowCallAgain(p, Solo(p, calls), at);
    }
  }

  /**
   The remaining count is exact: of further calls made at the same instant, the first
   `remaining` are admitted and no other.
   */
  lemma {:induction false} RemainingExact(p: Policy, calls: History<Stamp>, at: Stamp, k: nat)
    requires ValidRate(p.rate) && (p.algorithm.SlidingWindow? ==> at.mono >= 1)
    ensures var first, later := SoloResult(p, calls, at), SoloResult(p, Repeat(Then(calls, at), at, k), at);
            && (later.allowed <==> k < first.remaining)
            && later.remaining == SatSub(first.remaining, k + 1)
  {
    hide Evaluate;
    if k == 0 {
      CallAgain(p, calls, at);
    } else {
      RemainingExact(p, calls, at, k - 1);
      CallAgain(p, Repeat(Then(calls, at), at, k - 1), at);
    }
  }

  /**
   A bucket left alone holds at least `v` milli-tokens exactly when what the time is worth makes up
   the difference: rounding loses less than one.
   */
  lemma RefillExact(tokens: nat, rate: RateLimit, elapsed: nat, v: nat)
    requires ValidRate(rate) && tokens <= rate.count * 1000 && v <= rate.count * 1000
    ensures Refill(tokens, rate, elapsed) >= v
       <==> v <= tokens || rate.count * 1000 * elapsed >= (v - tokens) * rate.windowNanos
    ensures Refill(tokens, rate, elapsed) <= rate.count * 1000
  {
    hide Refill;
    var earned, cap := rate.count * 1000 * elapsed, rate.count * 1000;
    RefillIs(tokens, rate, elapsed, earned);
    ShareAdded(tokens, earned, rate.windowNanos, cap, v);
  }

  lemma RefillIs(tokens: nat, rate: RateLimit, elapsed: nat, earned: nat)
    requires ValidRate(rate) && earned == rate.count * 1000 * elapsed
    ensures Refill(tokens, rate, elapsed) == Min(tokens + earned / rate.windowNanos, rate.count * 1000)
  {
  }

  lemma ShareAdded(tokens: nat, earned: nat, w: nat, cap: nat, v: nat)
    requires w > 0 && tokens <= cap && v <= cap
    ensures v <= Min(tokens + earned / w, cap) <= cap
       <==> v <= tokens || earned >= (v - tokens) * w
  {
    if v > tokens {
      DivAtLeast(earned, v - tokens, w);
    }
  }

  /** A quiet bucket is full after `elapsed` nanoseconds exactly when they are worth what it lacks. */
  lemma FullIff(tokens: nat, rate: RateLimit, elapsed: nat)
    requires ValidRate(rate) && tokens < rate.count * 1000
    ensures Refill(tokens, rate, elapsed) == rate.count * 1000
       <==> rate.count * 1000 * elapsed >= (rate.count * 1000 - tokens) * rate.windowNanos
  {
    DivAtLeast(rate.count * 1000 * elapsed, rate.count * 1000 - tokens, rate.windowNanos);
  }

  /** The seconds reported lie within one of the true time to fill. */
  lemma FillWithin(tokens: nat, rate: RateLimit)
    requires ValidRate(rate) && tokens < rate.count * 1000
    ensures var secs := SecondsToFull(tokens, rate);
            && secs >= 1
            && Refill(tokens, rate, (secs - 1) * NANOS_PER_SEC) < rate.count * 1000
            && Refill(tokens, rate, (secs + 1) * NANOS_PER_SEC) == rate.count * 1000
  {
    var cap, needed := rate.count * 1000, rate.count * 1000 - tokens;
    var secs := SecondsToFull(tokens, rate);
    MulMono(1, needed, rate.windowNanos);
    WholeSecondsBracket(needed * rate.windowNanos, cap, secs);
    FullIff(tokens, rate, (secs - 1) * NANOS_PER_SEC);
    FullIff(tokens, rate, (secs + 1) * NANOS_PER_SEC);
  }

  /** A quotient rounded down to whole seconds, at least 1, is within a second of the true one. */
  lemma WholeSecondsBracket(due: nat, cap: nat, secs: nat)
    requires cap > 0 && due > 0 && secs == Max(due / cap / NANOS_PER_SEC, 1)
    ensures cap * ((secs - 1) * NANOS_PER_SEC) < due <= cap * ((secs + 1) * NANOS_PER_SEC)
  {
    var nanos := due / cap;
    DivBrackets(due, cap);
    MulMono(nanos + 1, (secs + 1) * NANOS_PER_SEC, cap);
    if secs > 1 {
      MulMono((secs - 1) * NANOS_PER_SEC + 1, nanos, cap);
    }
  }

  /**
   After an admission a bucket left alone is not yet full a second before the reported reset, and is
   full a second after it.
   */
  lemma BucketResetWithin(p: Policy, calls: History<Stamp>, at: Stamp)
    requires ValidRate(p.rate) && p.algorithm.TokenBucket? && Ordered(Then(calls, at))
    ensures Solo(p, Then(calls, at)).value.BucketState?
    ensures var r, left := SoloResult(p, calls, at), Solo(p, Then(calls, at)).value.tokensMilli;
            r.allowed ==>
              && r.resetTimestamp >= at.unix + 1
              && Refill(left, p.rate, (r.resetTimestamp - at.unix - 1) * NANOS_PER_SEC) < p.rate.count * 1000
              && Refill(left, p.rate, (r.resetTimestamp - at.unix + 1) * NANOS_PER_SEC) == p.rate.count * 1000
  {
    hide Refill, SecondsToFull, SecondsToToken;
    SoloMatches(p, calls);
    BucketLeaves(p, Solo(p, calls), at);
    if SoloResult(p, calls, at).allowed {
      FillWithin(Solo(p, Then(calls, at)).value.tokensMilli, p.rate);
    }
  }

  lemma BucketLeaves(p: Policy, s: Option<KeyState>, at: Stamp)
    requires ValidRate(p.rate) && p.algorithm.TokenBucket?
    requires s.Some? ==> StateMatches(p, s.value)
    ensures var (s', r) := Advance(p, s, at);
            && s'.BucketState?
            && (r.allowed ==>
                  && s'.tokensMilli < p.rate.count * 1000
                  && r.resetTimestamp == at.unix + SecondsToFull(s'.tokensMilli, p.rate))
  {
    hide SecondsToFull, SecondsToToken;
  }

  /** The reported seconds to fill: the most whole seconds that earn no more than is missing, and at least 1. */
  lemma FillIsFloor(tokens: nat, rate: RateLimit, k: nat)
    requires ValidRate(rate) && tokens < rate.count * 1000 && k >= 1
    ensures k <= SecondsToFull(tokens, rate) <==>
              k == 1 || rate.count * 1000 * (k * NANOS_PER_SEC) <= (rate.count * 1000 - tokens) * rate.windowNanos
  {
    var cap, needed := rate.count * 1000, rate.count * 1000 - tokens;
    FloorSeconds(needed * rate.windowNanos, cap, k);
  }

  lemma FloorSeconds(due: nat, cap: nat, k: nat)
    requires cap > 0
    ensures k <= due / cap / NANOS_PER_SEC <==> cap * (k * NANOS_PER_SEC) <= due
  {
    DivAtLeast(due / cap, k, NANOS_PER_SEC);
    DivAtLeast(due, k * NANOS_PER_SEC, cap);
  }

  /** The fields every answer fills in alike. */
  lemma AnswerFields(p: Policy, calls: History<Stamp>, at: Stamp)
    requires ValidRate(p.rate)
    ensures var r := SoloResult(p, calls, at);
            && r.limit == p.rate.count && r.remaining < p.rate.count
            && (r.allowed <==> r.retryAfter.None?)
            && (!r.allowed ==> r.remaining == 0 && r.retryAfter.value >= 1)
            && (!r.allowed && p.algorithm.TokenBucket? ==> r.resetTimestamp == at.unix + r.retryAfter.value)
  {
    hide Evaluate;
    SoloMatches(p, calls);
    StepFields(p, Solo(p, calls), at);
  }

  lemma StepFields(p: Policy, s: Option<KeyState>, at: Stamp)
    requires ValidRate(p.rate) && (s.Some? ==> StateMatches(p, s.value))
    ensures var r := Advance(p, s, at).1;
            && r.limit == p.rate.count && r.remaining < p.rate.count
            && (r.allowed <==> r.retryAfter.None?)
            && (!r.allowed ==> r.remaining == 0 && r.retryAfter.value >= 1)
            && (!r.allowed && p.algorithm.TokenBucket? ==> r.resetTimestamp == at.unix + r.retryAfter.value)
  {
  }

  /** The reset time reported with an admission, exactly. */
  lemma BucketResetExact(p: Policy, calls: History<Stamp>, at: Stamp, k: nat)
    requires ValidRate(p.rate) && p.algorithm.TokenBucket? && Ordered(Then(calls, at)) && k >= 1
    ensures Solo(p, Then(calls, at)).value.BucketState?
    ensures var r, left := SoloResult(p, calls, at), Solo(p, Then(calls, at)).value.tokensMilli;
            r.allowed ==>
              (k <= r.resetTimestamp - at.unix <==>
                 || k == 1
                 || p.rate.count * 1000 * (k * NANOS_PER_SEC) <= (p.rate.count * 1000 - left) * p.rate.windowNanos)
  {
    hide Refill, SecondsToFull, SecondsToToken;
    SoloMatches(p, calls);
    BucketLeaves(p, Solo(p, calls), at);
    if SoloResult(p, calls, at).allowed {
      FillIsFloor(Solo(p, Then(calls, at)).value.tokensMilli, p.rate, k);
    }
  }
}
