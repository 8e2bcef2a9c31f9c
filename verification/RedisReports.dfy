/**
 What the answers of the bucket in Redis promise, in whole numbers: the rate, the balance, the
 remaining count, the reset time, and when an idle key is gone.
 */
module RedisReports {
  import opened Outcomes
  import opened Histories
  import opened RedisServer
  import opened RedisBucket

  // ---- Rate ----

  lemma EarnedScaled(d: Dim, secs: int)
    requires ValidDim(d)
    ensures Earned(d, secs) * d.windowSecs as real == (d.limit * secs) as real
  {
    RatePositive(d);
    Reorder(secs as real, RatePerSec(d), d.windowSecs as real);
    assert secs as real * d.limit as real == (d.limit * secs) as real;
  }

  lemma Reorder(a: real, b: real, c: real)
    ensures a * b * c == a * (b * c)
  {
  }

  lemma Scale(n: nat, limit: nat, w: nat, earned: real, secs: int)
    requires w > 0 && n as real <= limit as real + earned && earned * w as real == (limit * secs) as real
    ensures n * w <= limit * w + limit * secs
  {
    ScaleUp(n as real, limit as real + earned, w as real);
    assert (limit as real + earned) * w as real == limit as real * w as real + earned * w as real;
    assert n as real * w as real == (n * w) as real && limit as real * w as real == (limit * w) as real;
  }

  /** Whatever expires, in any interval: admitted * window <= limit * window + limit * (hi - lo). */
  lemma RedisRateBound(d: Dim, calls: History<int>, lo: int, hi: int)
    requires ValidDim(d) && Rising(calls) && lo <= hi
    ensures Count(Admitted(d, calls, true), lo, hi) * d.windowSecs <= d.limit * d.windowSecs + d.limit * (hi - lo)
  {
    hide Earned, Admitted;
    RedisBucketBound(d, calls, lo, hi);
    EarnedScaled(d, hi - lo);
    Scale(Count(Admitted(d, calls, true), lo, hi), d.limit, d.windowSecs, Earned(d, hi - lo), hi - lo);
  }

  // ---- Balance ----

  /** From `left`, what `gained` is worth scaled by the window, up to the limit: that is `held`. */
  predicate GrownTo(held: real, limit: real, left: real, gained: int, w: nat) {
    && held <= limit
    && (held < limit ==> (held - left) * w as real == gained as real)
    && (held == limit ==> (limit - left) * w as real <= gained as real)
  }

  /** A missing key counts as full; otherwise the balance grows by `limit` a window, up to `limit`. */
  lemma HeldIs(d: Dim, calls: History<int>, now: int, later: int)
    requires ValidDim(d) && Rising(Then(Then(calls, now), later))
    ensures HeldAt(d, Start, now) == d.limit as real
    ensures var r, held := Answer(d, calls, now, true), HeldAt(d, calls, now);
            && (r.allowed <==> held >= 1.0)
            && GrownTo(HeldAt(d, Then(calls, now), later), d.limit as real, if r.allowed then held - 1.0 else held,
                       d.limit * (later - now), d.windowSecs)
  {
    hide RatePerSec, Earned, HeldAt, Answer, RMin, GrownTo;
    var left := HeldAt(d, calls, now) - if Answer(d, calls, now, true).allowed then 1.0 else 0.0;
    HeldGrows(d, calls, now, later);
    EarnedScaled(d, later - now);
    WindowPositive(d);
    Capped(HeldAt(d, Then(calls, now), later), d.limit as real, left, Earned(d, later - now), d.windowSecs,
           d.limit * (later - now));
    FullAtFirst(d, now);
  }

  lemma FullAtFirst(d: Dim, now: int)
    requires ValidDim(d)
    ensures HeldAt(d, Start, now) == d.limit as real
  {
  }

  lemma HeldGrows(d: Dim, calls: History<int>, now: int, later: int)
    requires ValidDim(d) && Rising(Then(Then(calls, now), later))
    ensures var r := Answer(d, calls, now, true);
            var left := HeldAt(d, calls, now) - if r.allowed then 1.0 else 0.0;
            && (r.allowed <==> HeldAt(d, calls, now) >= 1.0)
            && HeldAt(d, Then(calls, now), later) == RMin(d.limit as real, left + Earned(d, later - now))
  {
    hide RatePerSec, Answer, HeldAt, Refilled, Stored, Earned, RMin;
    CallSpends(d, calls, now);
    HeldIsRefilled(d, calls, now, later);
    RefilledIs(Stored(d, Then(calls, now), false).value.value, d, later);
  }

  lemma HeldIsRefilled(d: Dim, calls: History<int>, now: int, later: int)
    requires ValidDim(d)
    ensures Stored(d, Then(calls, now), false).Some?
    ensures HeldAt(d, Then(calls, now), later) == Refilled(Stored(d, Then(calls, now), false).value.value, d, later)
  {
    hide BucketScript, Refilled, Found;
  }

  lemma RefilledIs(b: Bucket, d: Dim, later: int)
    requires ValidDim(d)
    ensures Refilled(b, d, later) == RMin(d.limit as real, b.tokens + Earned(d, later - b.lastRefill))
  {
    hide RatePerSec;
  }

  lemma WindowPositive(d: Dim)
    requires ValidDim(d)
    ensures d.windowSecs as real > 0.0
  {
  }

  lemma Capped(held: real, limit: real, left: real, earned: real, w: nat, gained: int)
    requires held == RMin(limit, left + earned) && w as real > 0.0 && earned * w as real == gained as real
    ensures GrownTo(held, limit, left, gained, w)
  {
    if limit <= left + earned {
      ScaleUp(limit - left, earned, w as real);
    }
  }

  // ---- Fields ----

  lemma BalanceNonNegative(d: Dim, calls: History<int>, now: int)
    requires ValidDim(d) && Rising(Then(calls, now))
    ensures 0.0 <= HeldAt(d, calls, now) <= d.limit as real
  {
    hide RatePerSec, BucketScript;
    ExpiryTracks(d, calls);
    if calls.Then? {
      EarnedAdds(d, now - calls.last, 0);
      assert Earned(d, now - calls.last) == (now - calls.last) as real * RatePerSec(d);
    }
  }

  /** The fields of an answer: on admission the whole tokens left, on denial the wait and the time it ends. */
  lemma AnswerFields(d: Dim, calls: History<int>, now: int)
    requires ValidDim(d) && Rising(Then(calls, now))
    ensures var held, r := HeldAt(d, calls, now), Answer(d, calls, now, true);
            && r.limit == d.limit
            && (r.allowed <==> held >= 1.0) && (r.allowed <==> r.retryAfter.None?)
            && (r.allowed ==> r.remaining as real <= held - 1.0 < r.remaining as real + 1.0)
            && (!r.allowed ==> r.remaining == 0 && r.resetTimestamp == now + r.retryAfter.value)
  {
    hide RatePerSec;
    AnswerIsHolding(d, calls, now);
    BalanceNonNegative(d, calls, now);
  }

  /** The same call made `n` times. */
  function Again(calls: History<int>, now: int, n: nat): History<int> {
    if n == 0 then calls else Then(Again(calls, now, n - 1), now)
  }

  lemma HeldAgain(d: Dim, calls: History<int>, now: int)
    requires ValidDim(d) && Rising(Then(calls, now))
    ensures HeldAt(d, Then(calls, now), now)
         == HeldAt(d, calls, now) - if Answer(d, calls, now, true).allowed then 1.0 else 0.0
  {
    hide RatePerSec, BucketScript, Answer;
    CallSpends(d, calls, now);
    BalanceNonNegative(d, calls, now);
  }

  lemma CallAgain(d: Dim, calls: History<int>, now: int)
    requires ValidDim(d) && Rising(Then(calls, now))
    ensures var r, r' := Answer(d, calls, now, true), Answer(d, Then(calls, now), now, true);
            (r'.allowed <==> r.remaining > 0) && r'.remaining == SatSub(r.remaining, 1)
  {
    hide Answer, HeldAt;
    AnswerFields(d, calls, now);
    AnswerFields(d, Then(calls, now), now);
    HeldAgain(d, calls, now);
  }

  /**
   The remaining count is exact: of further calls in the same second the first that many are
   admitted, and no other.
   */
  lemma {:induction false} RemainingExact(d: Dim, calls: History<int>, now: int, k: nat)
    requires ValidDim(d) && Rising(Then(calls, now))
    ensures Rising(Then(Again(Then(calls, now), now, k), now))
    ensures var first, later := Answer(d, calls, now, true), Answer(d, Again(Then(calls, now), now, k), now, true);
            && (later.allowed <==> k < first.remaining)
            && later.remaining == SatSub(first.remaining, k + 1)
  {
    hide Answer;
    if k == 0 {
      CallAgain(d, calls, now);
    } else {
      RemainingExact(d, calls, now, k - 1);
      CallAgain(d, Again(Then(calls, now), now, k - 1), now);
    }
  }

  // ---- Reset ----

  /** The reset after an admission: the least whole seconds that fill the bucket from the whole tokens reported. */
  lemma ResetExact(d: Dim, calls: History<int>, now: int, k: nat)
    requires ValidDim(d) && Rising(Then(calls, now))
    ensures var r := Answer(d, calls, now, true);
            r.allowed ==>
              && r.remaining < d.limit
              && (r.resetTimestamp - now <= k <==> r.remaining * d.windowSecs + d.limit * k >= d.limit * d.windowSecs)
  {
    hide RatePerSec, BucketScript, HeldAt, TimeToFull, Answer;
    AnswerFields(d, calls, now);
    BalanceNonNegative(d, calls, now);
    if Answer(d, calls, now, true).allowed {
      SpentReset(d, calls, now);
      FillIff(d.limit - (HeldAt(d, calls, now) - 1.0).Floor, d, k);
      FillTime(d, (HeldAt(d, calls, now) - 1.0).Floor);
    }
  }

  lemma FillTime(d: Dim, remaining: int)
    requires ValidDim(d) && 0 <= remaining < d.limit
    ensures TimeToFull(d.limit, remaining, d) == Max(1, Ceil((d.limit - remaining) as real / RatePerSec(d)))
  {
  }

  lemma QuotientAtMost(x: real, rate: real, k: real)
    requires rate > 0.0
    ensures x / rate <= k <==> x <= k * rate
  {
    ScaleUp(x / rate, k, rate);
    ScaleUp(x, x, rate);
  }

  lemma SecondsEarn(needed: int, d: Dim, k: nat)
    requires ValidDim(d)
    ensures needed as real <= Earned(d, k) <==> needed * d.windowSecs <= d.limit * k
  {
    hide Earned;
    EarnedScaled(d, k);
    ScaleUp(needed as real, Earned(d, k), d.windowSecs as real);
    assert needed as real * d.windowSecs as real == (needed * d.windowSecs) as real;
  }

  lemma CeilAtMost(x: real, k: int)
    ensures Ceil(x) <= k <==> x <= k as real
  {
    CeilBounds(x);
  }

  /** `k` seconds earn `needed` tokens exactly when they reach the rounded-up time. */
  lemma FillIff(needed: int, d: Dim, k: nat)
    requires ValidDim(d) && needed >= 1
    ensures Max(1, Ceil(needed as real / RatePerSec(d))) <= k <==> d.limit * k >= needed * d.windowSecs
  {
    hide RatePerSec, Ceil;
    RatePositive(d);
    CeilAtMost(needed as real / RatePerSec(d), k);
    QuotientAtMost(needed as real, RatePerSec(d), k as real);
    assert Earned(d, k) == k as real * RatePerSec(d);
    SecondsEarn(needed, d, k);
    if k == 0 {
      assert needed * d.windowSecs >= 1;
    }
  }

  // ---- Expiry ----

  /** A call finds what was stored exactly until it expires. */
  lemma FoundIff(d: Dim, calls: History<int>, now: int)
    requires ValidDim(d)
    ensures var e := Stored(d, calls, true);
            && (Found(e, now, true).Some? <==> e.Some? && (e.value.expireAt.Some? ==> now < e.value.expireAt.value))
            && (Found(e, now, true).Some? ==> Found(e, now, true) == Some(e.value.value))
  {
    hide BucketScript;
  }

  /** A key left alone is gone one second after a whole window at the latest. */
  lemma GoneWithinWindow(d: Dim, calls: History<int>, now: int)
    requires ValidDim(d) && Rising(Then(calls, now))
    ensures var e := Stored(d, Then(calls, now), true);
            && e.Some? && e.value.expireAt.Some?
            && e.value.expireAt.value <= now + d.windowSecs + 1
            && LiveAt(e, now + d.windowSecs + 1).None?
  {
    hide RatePerSec;
    ExpiryTracks(d, calls);
    var b := Found(Stored(d, calls, true), now, true);
    ScriptSound(b, d, calls, now);
    WindowFills(d);
    RatePositive(d);
    if b.Some? {
      var left := BucketScript(b, d, now).0.value.tokens;
      DivMono(d.limit as real - left, d.limit as real, RatePerSec(d));
      CeilMono((d.limit as real - left) / RatePerSec(d), d.limit as real / RatePerSec(d));
    }
  }

  lemma WindowFills(d: Dim)
    requires ValidDim(d)
    ensures Ceil(d.limit as real / RatePerSec(d)) == d.windowSecs
  {
    hide RatePerSec;
    RatePositive(d);
    ScaleUp(d.limit as real / RatePerSec(d), d.windowSecs as real, RatePerSec(d));
    ScaleUp(d.windowSecs as real, d.limit as real / RatePerSec(d), RatePerSec(d));
    ScaleUp(d.limit as real, d.limit as real, RatePerSec(d));
  }
}
