/**
 The token bucket in Redis, in exact arithmetic. Its key expires, but only once the bucket
 would be full again, so expiry changes no answer; and since nothing is rounded away, denied
 calls do not slow the refill.
 */
module RedisBucket {
  import opened Outcomes
  import opened Histories
  import opened KeyMachine
  import opened RedisServer

  datatype Bucket = Bucket(tokens: real, lastRefill: int)

  datatype Reply = Reply(allowed: bool, tokens: int, timeToNext: int)

  function Ceil(x: real): int {
    -((-x).Floor)
  }

  function RMin(a: real, b: real): real {
    if a <= b then a else b
  }

  /** Tokens per second. */
  function RatePerSec(d: Dim): real
    requires d.windowSecs > 0
  {
    d.limit as real / d.windowSecs as real
  }

  predicate ValidDim(d: Dim) {
    d.limit >= 1 && d.windowSecs >= 1
  }

  function Refilled(b: Bucket, d: Dim, now: int): real
    requires ValidDim(d)
  {
    RMin(d.limit as real, b.tokens + (now - b.lastRefill) as real * RatePerSec(d))
  }

  /** The script on a key it finds holding `b`, or missing. */
  function BucketScript(b: Option<Bucket>, d: Dim, now: int): (Entry<Bucket>, Reply)
    requires ValidDim(d)
  {
    var cap, rate := d.limit as real, RatePerSec(d);
    if b.None? then
      var tokens := cap - 1.0;
      (Entry(Bucket(tokens, now), Some(now + Ceil(cap / rate) + 1)), Reply(true, tokens.Floor, 0))
    else
      var held := Refilled(b.value, d, now);
      var allowed := held >= 1.0;
      var tokens := if allowed then held - 1.0 else held;
      (Entry(Bucket(tokens, now), Some(now + Ceil((cap - tokens) / rate) + 1)),
       Reply(allowed, tokens.Floor, if allowed then 0 else Ceil((1.0 - held) / rate)))
  }

  /** Seconds to refill what is missing from whole `remaining` tokens, as the caller computes it. */
  function TimeToFull(limit: nat, remaining: int, d: Dim): int
    requires ValidDim(d)
  {
    if remaining >= limit then 0 else Max(1, Ceil((limit - remaining) as real / RatePerSec(d)))
  }

  function Interpret(r: Reply, d: Dim, nowUnix: int): DimResult
    requires ValidDim(d)
  {
    if !r.allowed
    then DimResult(false, d.limit, 0, nowUnix + Max(r.timeToNext, 1), Some(Max(r.timeToNext, 1)))
    else DimResult(true, d.limit, Max(r.tokens, 0), nowUnix + TimeToFull(d.limit, r.tokens, d), None)
  }

  function Found(e: Option<Entry<Bucket>>, now: int, expiring: bool): Option<Bucket> {
    var live := if expiring then LiveAt(e, now) else e;
    if live.Some? then Some(live.value.value) else None
  }

  /** The key after calls at the given Unix times, on a server that expires keys or on one that never does. */
  function Stored(d: Dim, calls: History<int>, expiring: bool): Option<Entry<Bucket>>
    requires ValidDim(d)
  {
    match calls
    case Start => None
    case Then(before, now) => Some(BucketScript(Found(Stored(d, before, expiring), now, expiring), d, now).0)
  }

  function Answer(d: Dim, calls: History<int>, now: int, expiring: bool): DimResult
    requires ValidDim(d)
  {
    Interpret(BucketScript(Found(Stored(d, calls, expiring), now, expiring), d, now).1, d, now)
  }

  function Admitted(d: Dim, calls: History<int>, expiring: bool): History<int>
    requires ValidDim(d)
  {
    match calls
    case Start => Start
    case Then(before, now) =>
      var earlier := Admitted(d, before, expiring);
      if Answer(d, before, now, expiring).allowed then Then(earlier, now) else earlier
  }

  // ---- Expiry ----

  lemma RatePositive(d: Dim)
    requires ValidDim(d)
    ensures RatePerSec(d) > 0.0
    ensures RatePerSec(d) * d.windowSecs as real == d.limit as real
  {
  }

  lemma CeilBounds(x: real)
    ensures x <= Ceil(x) as real < x + 1.0
  {
  }

  lemma ScaleUp(x: real, y: real, r: real)
    requires r > 0.0
    ensures x <= y <==> x * r <= y * r
    ensures (x / r) * r == x
  {
    if x <= y {
      assert (y - x) * r >= 0.0;
    } else {
      assert (x - y) * r > 0.0;
    }
  }

  /** By the time its key expires, a bucket would be full. */
  lemma ExpiredIsFull(b: Bucket, d: Dim, expireAt: int, now: int)
    requires ValidDim(d) && b.tokens <= d.limit as real
    requires expireAt >= b.lastRefill + Ceil((d.limit as real - b.tokens) / RatePerSec(d)) && expireAt <= now
    ensures Refilled(b, d, now) == d.limit as real
  {
    var rate, short := RatePerSec(d), d.limit as real - b.tokens;
    RatePositive(d);
    CeilBounds(short / rate);
    assert short / rate <= (now - b.lastRefill) as real;
    ScaleUp(short / rate, (now - b.lastRefill) as real, rate);
    ScaleUp(short, short, rate);
  }

  /** The bucket is within its capacity, and lives at least until it would be full. */
  predicate Sound(e: Option<Entry<Bucket>>, d: Dim, calls: History<int>)
    requires ValidDim(d)
  {
    if e.None? then calls.Start?
    else
      var b := e.value.value;
      && calls.Then? && b.lastRefill == calls.last
      && 0.0 <= b.tokens <= d.limit as real
      && e.value.expireAt.Some?
      && e.value.expireAt.value >= b.lastRefill + Ceil((d.limit as real - b.tokens) / RatePerSec(d))
  }

  lemma CeilMono(x: real, y: real)
    requires x <= y
    ensures Ceil(x) <= Ceil(y)
  {
  }

  lemma DivMono(x: real, y: real, r: real)
    requires x <= y && r > 0.0
    ensures x / r <= y / r
  {
    ScaleUp(x / r, y / r, r);
    ScaleUp(x, y, r);
    ScaleUp(y, x, r);
  }

  lemma ScriptSound(b: Option<Bucket>, d: Dim, calls: History<int>, now: int)
    requires ValidDim(d)
    requires b.Some? ==> 0.0 <= b.value.tokens <= d.limit as real && b.value.lastRefill <= now
    ensures Sound(Some(BucketScript(b, d, now).0), d, Then(calls, now))
  {
    var cap, rate := d.limit as real, RatePerSec(d);
    RatePositive(d);
    if b.None? {
      DivMono(cap - (cap - 1.0), cap, rate);
      CeilMono((cap - (cap - 1.0)) / rate, cap / rate);
    } else {
      ScaleUp(0.0, (now - b.value.lastRefill) as real, rate);
    }
  }

  /** With and without expiry the stored bucket is the same, while it is stored. */
  lemma {:induction false} ExpiryTracks(d: Dim, calls: History<int>)
    requires ValidDim(d) && Rising(calls)
    ensures Sound(Stored(d, calls, true), d, calls) && Sound(Stored(d, calls, false), d, calls)
    ensures calls.Then? ==> Stored(d, calls, true).value.value == Stored(d, calls, false).value.value
  {
    hide BucketScript;
    if calls.Then? {
      ExpiryTracks(d, calls.before);
      var now := calls.last;
      var e, f := Stored(d, calls.before, true), Stored(d, calls.before, false);
      ScriptSound(Found(e, now, true), d, calls.before, now);
      ScriptSound(Found(f, now, false), d, calls.before, now);
      SameScript(e, f, d, calls.before, now);
    }
  }

  /** One call gives the same reply and leaves the same bucket whether or not the key had expired. */
  lemma SameScript(e: Option<Entry<Bucket>>, f: Option<Entry<Bucket>>, d: Dim, calls: History<int>, now: int)
    requires ValidDim(d) && Sound(e, d, calls) && Sound(f, d, calls) && (calls.Then? ==> calls.last <= now)
    requires e.Some? ==> e.value.value == f.value.value
    ensures var (e', r) := BucketScript(Found(e, now, true), d, now);
            var (f', r') := BucketScript(Found(f, now, false), d, now);
            e'.value == f'.value && r == r'
  {
    if e.Some? && LiveAt(e, now).None? {
      ExpiredIsFull(f.value.value, d, e.value.expireAt.value, now);
    }
  }

  /** Expiry is unobservable: every call gets the answer of a server that keeps keys for ever. */
  lemma ExpiryUnobservable(d: Dim, calls: History<int>, now: int)
    requires ValidDim(d) && Rising(Then(calls, now))
    ensures Answer(d, calls, now, true) == Answer(d, calls, now, false)
  {
    hide BucketScript, Interpret;
    ExpiryTracks(d, calls);
    SameScript(Stored(d, calls, true), Stored(d, calls, false), d, calls, now);
  }

  // ---- Rate ----

  /** Tokens a call finds, on a server that never expires keys. */
  function HeldAt(d: Dim, calls: History<int>, now: int): real
    requires ValidDim(d)
  {
    var e := Stored(d, calls, false);
    if e.None? then d.limit as real else Refilled(e.value.value, d, now)
  }

  /** One call, on the expiring server, in terms of the tokens it finds. */
  lemma CallSpends(d: Dim, calls: History<int>, now: int)
    requires ValidDim(d) && Rising(Then(calls, now))
    ensures var held, r := HeldAt(d, calls, now), Answer(d, calls, now, true);
            && (r.allowed <==> held >= 1.0)
            && (!r.allowed ==> r.retryAfter == Some(Max(Ceil((1.0 - held) / RatePerSec(d)), 1)))
            && Stored(d, Then(calls, now), false).value.value
               == Bucket(if r.allowed then held - 1.0 else held, now)
  {
    ExpiryUnobservable(d, calls, now);
  }

  lemma {:induction false} AdmittedAtMost(d: Dim, calls: History<int>)
    requires ValidDim(d) && Rising(calls) && calls.Then?
    ensures AtMost(Admitted(d, calls, true), calls.last)
  {
    hide Answer;
    if calls.before.Then? {
      AdmittedAtMost(d, calls.before);
      AtMostLater(Admitted(d, calls.before, true), calls.before.last, calls.last);
    }
  }

  /** What time is worth. */
  function Earned(d: Dim, secs: int): real
    requires ValidDim(d)
  {
    secs as real * RatePerSec(d)
  }

  lemma EarnedAdds(d: Dim, a: int, b: int)
    requires ValidDim(d)
    ensures Earned(d, a) + Earned(d, b) == Earned(d, a + b)
    ensures 0 <= a ==> 0.0 <= Earned(d, a)
  {
    var rate := RatePerSec(d);
    RatePositive(d);
    assert a as real * rate + b as real * rate == (a + b) as real * rate;
    if 0 <= a {
      ScaleUp(0.0, a as real, rate);
    }
  }

  /** Admissions from `lo` on, plus what is left, never exceed the capacity plus what was earned since. */
  lemma {:induction false} Funded(d: Dim, calls: History<int>, lo: int)
    requires ValidDim(d) && Rising(calls) && calls.Then? && lo <= calls.last
    ensures Count(Admitted(d, calls, true), lo, calls.last) as real + Stored(d, calls, false).value.value.tokens
         <= d.limit as real + Earned(d, calls.last - lo)
  {
    hide Answer, RatePerSec, Earned;
    var before, now := calls.before, calls.last;
    CallSpends(d, before, now);
    HeldWithin(d, before, now);
    EarnedAdds(d, now - lo, 0);
    if before.Then? {
      var prev := before.last;
      AdmittedAtMost(d, before);
      if lo <= prev {
        Funded(d, before, lo);
        CountMono(Admitted(d, before, true), lo, now, lo, prev);
        EarnedAdds(d, prev - lo, now - prev);
      } else {
        AtMostLater(Admitted(d, before, true), prev, lo - 1);
        CountNone(Admitted(d, before, true), lo, now);
      }
    }
  }

  lemma HeldWithin(d: Dim, calls: History<int>, now: int)
    requires ValidDim(d) && Rising(calls)
    ensures HeldAt(d, calls, now) <= d.limit as real
    ensures calls.Then? ==>
              HeldAt(d, calls, now) <= Stored(d, calls, false).value.value.tokens + Earned(d, now - calls.last)
  {
    hide RatePerSec, BucketScript;
    ExpiryTracks(d, calls);
  }

  /** Whatever expires, any interval admits at most the capacity plus what it earns. */
  lemma {:induction false} RedisBucketBound(d: Dim, calls: History<int>, lo: int, hi: int)
    requires ValidDim(d) && Rising(calls) && lo <= hi
    ensures Count(Admitted(d, calls, true), lo, hi) as real <= d.limit as real + Earned(d, hi - lo)
  {
    hide Answer, RatePerSec, Earned, BucketScript;
    EarnedAdds(d, hi - lo, 0);
    if calls.Then? {
      if lo <= calls.last <= hi {
        Funded(d, calls, lo);
        AdmittedAtMost(d, calls);
        CountMono(Admitted(d, calls, true), lo, hi, lo, calls.last);
        ExpiryTracks(d, calls);
        EarnedAdds(d, hi - calls.last, calls.last - lo);
      } else {
        RedisBucketBound(d, calls.before, lo, hi);
      }
    }
  }

  // ---- Waiting ----

  /** Below one token, `k` seconds bring the balance to one exactly when `k` reaches the rounded-up wait. */
  lemma WaitCovers(held: real, d: Dim, k: nat)
    requires ValidDim(d) && held < 1.0
    ensures held + Earned(d, k) >= 1.0 <==> Max(Ceil((1.0 - held) / RatePerSec(d)), 1) <= k
  {
    var rate := RatePerSec(d);
    RatePositive(d);
    var wait := (1.0 - held) / rate;
    CeilBounds(wait);
    ScaleUp(wait, k as real, rate);
    ScaleUp(1.0 - held, k as real, rate);
    ScaleUp(0.0, wait, rate);
  }

  /**
   A denied caller who leaves the key alone is admitted after `k` seconds exactly when `k` reaches
   the reported wait.
   */
  lemma RedisRetryExact(d: Dim, calls: History<int>, now: int, k: nat)
    requires ValidDim(d) && Rising(Then(calls, now)) && !Answer(d, calls, now, true).allowed
    ensures Answer(d, calls, now, true).retryAfter.Some?
    ensures Answer(d, Then(calls, now), now + k, true).allowed
       <==> Answer(d, calls, now, true).retryAfter.value <= k
  {
    hide Answer, RatePerSec, BucketScript;
    CallSpends(d, calls, now);
    CallSpends(d, Then(calls, now), now + k);
    WaitCovers(HeldAt(d, calls, now), d, k);
  }

  /** The reset time reported with an admission is late enough: a key left alone is full by then. */
  lemma RedisResetFull(d: Dim, calls: History<int>, now: int)
    requires ValidDim(d) && Rising(Then(calls, now)) && Answer(d, calls, now, true).allowed
    ensures var reset := Answer(d, calls, now, true).resetTimestamp;
            reset > now && Refilled(Stored(d, Then(calls, now), false).value.value, d, reset) == d.limit as real
  {
    hide RatePerSec, BucketScript;
    CallSpends(d, calls, now);
    HeldWithin(d, calls, now);
    SpentReset(d, calls, now);
    var tokens := HeldAt(d, calls, now) - 1.0;
    FillCovers(tokens, d, TimeToFull(d.limit, tokens.Floor, d));
  }

  lemma SpentReset(d: Dim, calls: History<int>, now: int)
    requires ValidDim(d) && Rising(Then(calls, now)) && Answer(d, calls, now, true).allowed
    ensures Answer(d, calls, now, true).resetTimestamp
            == now + TimeToFull(d.limit, (HeldAt(d, calls, now) - 1.0).Floor, d)
  {
    hide RatePerSec, TimeToFull;
    ExpiryUnobservable(d, calls, now);
  }

  lemma FillCovers(tokens: real, d: Dim, secs: int)
    requires ValidDim(d) && 0.0 <= tokens <= d.limit as real - 1.0 && secs == TimeToFull(d.limit, tokens.Floor, d)
    ensures secs >= 1 && tokens + secs as real * RatePerSec(d) >= d.limit as real
  {
    var rate, needed := RatePerSec(d), (d.limit - tokens.Floor) as real;
    RatePositive(d);
    CeilBounds(needed / rate);
    ScaleUp(needed / rate, secs as real, rate);
    ScaleUp(needed, needed, rate);
  }

  /** The answer in terms of the tokens a call finds. */
  function AnswerHolding(d: Dim, held: real, now: int): DimResult
    requires ValidDim(d)
  {
    var allowed := held >= 1.0;
    var tokens := if allowed then held - 1.0 else held;
    Interpret(Reply(allowed, tokens.Floor, if allowed then 0 else Ceil((1.0 - held) / RatePerSec(d))), d, now)
  }

  lemma AnswerIsHolding(d: Dim, calls: History<int>, now: int)
    requires ValidDim(d) && Rising(Then(calls, now))
    ensures Answer(d, calls, now, true) == AnswerHolding(d, HeldAt(d, calls, now), now)
  {
    hide RatePerSec;
    ExpiryUnobservable(d, calls, now);
  }

  /** A denied call leaves the balance as if it had not been made. */
  lemma DenialKeepsBalance(d: Dim, calls: History<int>, now: int, later: int)
    requires ValidDim(d) && Rising(Then(Then(calls, now), later)) && !Answer(d, calls, now, true).allowed
    ensures HeldAt(d, Then(calls, now), later) == HeldAt(d, calls, later)
  {
    var before := Stored(d, calls, false);
    CallSpends(d, calls, now);
    if before.Some? {
      ExpiryTracks(d, calls);
      RefillTwice(before.value.value, d, now, later);
    }
  }

  lemma AdmissionSpends(d: Dim, calls: History<int>, now: int, later: int)
    requires ValidDim(d) && Rising(Then(calls, now)) && Answer(d, calls, now, true).allowed
    ensures HeldAt(d, Then(calls, now), later) == Refilled(Bucket(HeldAt(d, calls, now) - 1.0, now), d, later)
  {
    hide RatePerSec, BucketScript;
    CallSpends(d, calls, now);
  }

  /** The balance is that of the admitted calls alone. */
  lemma {:induction false} BalanceOfAdmitted(d: Dim, calls: History<int>, later: int)
    requires ValidDim(d) && Rising(Then(calls, later))
    ensures Rising(Then(Admitted(d, calls, true), later))
    ensures HeldAt(d, calls, later) == HeldAt(d, Admitted(d, calls, true), later)
  {
    hide Answer, HeldAt, Refilled, BucketScript;
    if calls.Then? {
      var before, now := calls.before, calls.last;
      BalanceOfAdmitted(d, before, now);
      BalanceOfAdmitted(d, before, later);
      if Answer(d, before, now, true).allowed {
        var kept := Admitted(d, before, true);
        AnswerIsHolding(d, before, now);
        AnswerIsHolding(d, kept, now);
        AdmissionSpends(d, before, now, later);
        AdmissionSpends(d, kept, now, later);
      } else {
        DenialKeepsBalance(d, before, now, later);
      }
    }
  }

  /** Denied calls are harmless: deleting all of them from a run changes no answer. */
  lemma DenialsHarmless(d: Dim, calls: History<int>, now: int)
    requires ValidDim(d) && Rising(Then(calls, now))
    ensures Answer(d, calls, now, true) == Answer(d, Admitted(d, calls, true), now, true)
  {
    hide Answer, HeldAt, AnswerHolding;
    BalanceOfAdmitted(d, calls, now);
    AnswerIsHolding(d, calls, now);
    AnswerIsHolding(d, Admitted(d, calls, true), now);
  }

  /** Refilling in two steps is refilling in one. */
  lemma RefillTwice(b: Bucket, d: Dim, now: int, later: int)
    requires ValidDim(d) && b.lastRefill <= now <= later
    ensures Refilled(Bucket(Refilled(b, d, now), now), d, later) == Refilled(b, d, later)
  {
    hide RatePerSec;
    EarnedAdds(d, later - now, now - b.lastRefill);
    assert (later - now) as real * RatePerSec(d) == Earned(d, later - now);
    assert (now - b.lastRefill) as real * RatePerSec(d) == Earned(d, now - b.lastRefill);
  }
}
