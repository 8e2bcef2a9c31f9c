/**
 The three counting algorithms of the in-process store, as one state machine per
 key in exact arithmetic. `Solo` runs that machine over the calls made on a single
 key by a store that never evicts anything; it is the reference against which the
 mutable, sweeping, concurrent and Redis-backed versions are compared.
 */
module KeyMachine {
  import opened Outcomes
  import opened RateConfig
  import opened Histories

  /** Idle time after which the sweep drops a token bucket. */
  const STALE_BUCKET_NANOS: nat := 3_600_000_000_000

  datatype DimResult = DimResult(
    allowed: bool, limit: nat, remaining: nat, resetTimestamp: int, retryAfter: Option<int>)

  datatype KeyState =
    | FixedState(count: nat, windowStart: nat, windowStartUnix: int, windowNanos: nat)
    | SlidingState(timestamps: seq<nat>, windowNanos: nat)
    | BucketState(tokensMilli: nat, lastRefill: nat)

  /** What a key is configured with. */
  datatype Policy = Policy(rate: RateLimit, algorithm: Algorithm)

  /** The two clock readings that travel with a call. */
  datatype Stamp = Stamp(mono: nat, unix: int)

  function NewKeyState(p: Policy, at: Stamp): KeyState {
    match p.algorithm
    case FixedWindow => FixedState(0, at.mono, at.unix, p.rate.windowNanos)
    case SlidingWindow => SlidingState([], p.rate.windowNanos)
    case TokenBucket => BucketState(p.rate.count * 1000, at.mono)
  }

  /** Pops timestamps at or before `cutoff` from the front of the deque. */
  function DropStale(ts: seq<nat>, cutoff: nat): seq<nat> {
    if |ts| > 0 && ts[0] <= cutoff then DropStale(ts[1..], cutoff) else ts
  }

  lemma {:induction false} DropStaleSuffix(ts: seq<nat>, cutoff: nat)
    ensures |DropStale(ts, cutoff)| <= |ts|
    ensures DropStale(ts, cutoff) == ts[|ts| - |DropStale(ts, cutoff)|..]
    ensures forall t :: t in DropStale(ts, cutoff) ==> t in ts
  {
    if |ts| > 0 && ts[0] <= cutoff {
      DropStaleSuffix(ts[1..], cutoff);
    }
  }

  function FixedStep(s: KeyState, rate: RateLimit, at: Stamp): (KeyState, DimResult)
    requires s.FixedState?
  {
    var w := rate.windowNanos;
    var cur := if at.mono >= s.windowStart + w
               then s.(count := 0, windowStart := at.mono, windowStartUnix := at.unix)
               else s;
    var reset := cur.windowStartUnix + Max(w / NANOS_PER_SEC, 1);
    if cur.count < rate.count then
      (cur.(count := cur.count + 1),
       DimResult(true, rate.count, rate.count - cur.count - 1, reset, None))
    else
      var left := Max(0, w - (at.mono - cur.windowStart));
      (cur, DimResult(false, rate.count, 0, reset, Some(Max(left / NANOS_PER_SEC, 1))))
  }

  function SlidingStep(s: KeyState, rate: RateLimit, at: Stamp): (KeyState, DimResult)
    requires s.SlidingState?
  {
    var w := rate.windowNanos;
    var live := DropStale(s.timestamps, SatSub(at.mono, w));
    var left := if live == [] then w else SatSub(live[0] + w, at.mono);
    var reset := at.unix + left / NANOS_PER_SEC;
    if |live| < rate.count then
      (s.(timestamps := live + [at.mono]),
       DimResult(true, rate.count, rate.count - |live| - 1, reset, None))
    else
      var retry := if live == [] then 1 else left / NANOS_PER_SEC;
      (s.(timestamps := live), DimResult(false, rate.count, 0, reset, Some(Max(retry, 1))))
  }

  /** Milli-tokens in a bucket of the given rate after `elapsed` nanoseconds of refill. */
  function Refill(tokens: nat, rate: RateLimit, elapsed: nat): nat
    requires ValidRate(rate)
  {
    Min(tokens + rate.count * 1000 * elapsed / rate.windowNanos, rate.count * 1000)
  }

  /** Seconds until a bucket holding `tokens` milli-tokens is full, as reported after an admission. */
  function SecondsToFull(tokens: nat, rate: RateLimit): nat
    requires ValidRate(rate)
  {
    var needed := SatSub(rate.count * 1000, tokens);
    if needed == 0 then 0
    else Max(needed * rate.windowNanos / (rate.count * 1000) / NANOS_PER_SEC, 1)
  }

  /** Seconds until an empty bucket holds one token, as reported by a denial. */
  function SecondsToToken(tokens: nat, rate: RateLimit): nat
    requires ValidRate(rate)
  {
    var nanos := Max(SatSub(1000, tokens) * rate.windowNanos / (rate.count * 1000), 1);
    Max((nanos + NANOS_PER_SEC - 1) / NANOS_PER_SEC, 1)
  }

  function BucketStep(s: KeyState, rate: RateLimit, at: Stamp): (KeyState, DimResult)
    requires s.BucketState? && ValidRate(rate)
  {
    var elapsed := SatSub(at.mono, s.lastRefill);
    var cur := if elapsed > 0
               then BucketState(Refill(s.tokensMilli, rate, elapsed), at.mono)
               else s;
    if cur.tokensMilli >= 1000 then
      var t := cur.tokensMilli - 1000;
      (cur.(tokensMilli := t),
       DimResult(true, rate.count, t / 1000, at.unix + SecondsToFull(t, rate), None))
    else
      var retry := SecondsToToken(cur.tokensMilli, rate);
      (cur, DimResult(false, rate.count, 0, at.unix + retry, Some(retry)))
  }

  /** Dispatches on the stored state, as the store does. */
  function Evaluate(s: KeyState, rate: RateLimit, at: Stamp): (KeyState, DimResult)
    requires ValidRate(rate)
  {
    match s
    case FixedState(_, _, _, _) => FixedStep(s, rate, at)
    case SlidingState(_, _) => SlidingStep(s, rate, at)
    case BucketState(_, _) => BucketStep(s, rate, at)
  }

  // ---- Runs of one key ----

  function Advance(p: Policy, s: Option<KeyState>, at: Stamp): (KeyState, DimResult)
    requires ValidRate(p.rate)
  {
    Evaluate(if s.Some? then s.value else NewKeyState(p, at), p.rate, at)
  }

  /** State of a never-evicted key after the given calls. */
  function Solo(p: Policy, calls: History<Stamp>): Option<KeyState>
    requires ValidRate(p.rate)
  {
    match calls
    case Start => None
    case Then(before, at) => Some(Advance(p, Solo(p, before), at).0)
  }

  /** Answer to a call made after the given ones. */
  function SoloResult(p: Policy, calls: History<Stamp>, at: Stamp): DimResult
    requires ValidRate(p.rate)
  {
    Advance(p, Solo(p, calls), at).1
  }

  /** Times of the admitted calls. */
  function Admitted(p: Policy, calls: History<Stamp>): History<nat>
    requires ValidRate(p.rate)
  {
    match calls
    case Start => Start
    case Then(before, at) =>
      if SoloResult(p, before, at).allowed then Then(Admitted(p, before), at.mono) else Admitted(p, before)
  }

  /** Calls reach the key in clock order. */
  predicate Ordered(calls: History<Stamp>) {
    calls.Then? ==> Ordered(calls.before) && (calls.before.Then? ==> calls.before.last.mono <= calls.last.mono)
  }

  /** Both clocks tick in whole seconds, a fixed distance apart. */
  predicate WholeSeconds(calls: History<Stamp>, offset: int) {
    calls.Then? ==> calls.last.mono == calls.last.unix * NANOS_PER_SEC + offset && WholeSeconds(calls.before, offset)
  }

  /** A call on a key and what else it brings. */
  datatype Visit<A> = Visit(at: Stamp, args: A)

  function Stamps<A>(visits: History<Visit<A>>): History<Stamp> {
    match visits
    case Start => Start
    case Then(before, v) => Then(Stamps(before), v.at)
  }

  ghost predicate StateMatches(p: Policy, s: KeyState) {
    match p.algorithm
    case FixedWindow => s.FixedState? && s.windowNanos == p.rate.windowNanos
    case SlidingWindow => s.SlidingState? && s.windowNanos == p.rate.windowNanos
    case TokenBucket => s.BucketState? && s.tokensMilli <= p.rate.count * 1000
  }

  /** A call keeps the shape its policy gave the key, and never takes a bucket over its capacity. */
  lemma AdvanceMatches(p: Policy, s: Option<KeyState>, at: Stamp)
    requires ValidRate(p.rate)
    requires s.Some? ==> StateMatches(p, s.value)
    ensures StateMatches(p, Advance(p, s, at).0)
  {
  }

  lemma {:induction false} SoloMatches(p: Policy, calls: History<Stamp>)
    requires ValidRate(p.rate)
    ensures Solo(p, calls).Some? ==> StateMatches(p, Solo(p, calls).value)
  {
    hide Evaluate;
    if calls.Then? {
      SoloMatches(p, calls.before);
      AdvanceMatches(p, Solo(p, calls.before), calls.last);
    }
  }

  lemma {:induction false} AdmittedBy(p: Policy, calls: History<Stamp>, hi: nat)
    requires ValidRate(p.rate) && Ordered(calls)
    requires calls.Then? ==> calls.last.mono <= hi
    ensures AtMost(Admitted(p, calls), hi)
  {
    hide Evaluate;
    if calls.Then? {
      AdmittedBy(p, calls.before, hi);
    }
  }
}
