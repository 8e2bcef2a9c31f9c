/**
 The in-process store as it is written: 64-bit fields updated in place, a deque popped
 from the front, a map edited by the amortised sweep.
 */
module MemoryStore {
  import opened Outcomes
  import opened Arithmetic
  import opened RateConfig
  import opened Histories
  import opened KeyMachine
  import opened Sweeping

  const U64: nat := 0x1_0000_0000_0000_0000
  const U128: nat := 0x1_0000_0000_0000_0000_0000_0000_0000_0000
  const SWEEP_INTERVAL: nat := 128

  /** Clock readings stay one hour short of overflowing 64 bits. */
  const MONO_LIMIT: nat := U64 - 3_600_000_000_000

  /** The value a 64-bit addition, subtraction or narrowing leaves behind. */
  function Wrap(x: int): nat {
    x % U64
  }

  function Wrap128(x: int): nat {
    x % U128
  }

  /** Two values that wrap alike differ by a multiple of 2^64, and a wrapped value fits 64 bits. */
  lemma WrapMeans(x: int)
    ensures Wrap(x) < 18_446_744_073_709_551_616 && (x - Wrap(x)) % 18_446_744_073_709_551_616 == 0
  {
  }

  function SatMul(a: nat, b: nat): nat {
    Min(a * b, U64 - 1)
  }

  /** A full window, and a reading from before it opened. */
  predicate Inverted(count: nat, start: nat, limit: nat, nowMono: nat) {
    count >= limit && nowMono < start
  }

  /**
   Exact unless a full window is called with a reading from before it opened. Then the unchecked
   subtraction underflows, and the wrapped value reads as a window long over: one second to wait.
   */
  method RunFixedWindow(count0: nat, start0: nat, startUnix0: int,
                        limit: nat, windowNanos: nat, nowMono: nat, nowUnix: int)
    returns (count: nat, windowStart: nat, windowStartUnix: int, r: DimResult, ghost underflow: bool)
    requires ValidRate(RateLimit(limit, windowNanos))
    requires count0 <= limit && start0 < MONO_LIMIT && nowMono < MONO_LIMIT
    ensures underflow <==> Inverted(count0, start0, limit, nowMono)
    ensures !Inverted(count0, start0, limit, nowMono) ==>
              (FixedState(count, windowStart, windowStartUnix, windowNanos), r)
              == FixedStep(FixedState(count0, start0, startUnix0, windowNanos),
                           RateLimit(limit, windowNanos), Stamp(nowMono, nowUnix))
    ensures Inverted(count0, start0, limit, nowMono) ==>
              && (count, windowStart, windowStartUnix) == (count0, start0, startUnix0)
              && r == DimResult(false, limit, 0, startUnix0 + windowNanos / NANOS_PER_SEC, Some(1))
  {
    underflow := false;
    count, windowStart, windowStartUnix := count0, start0, startUnix0;
    WrapSmall(windowStart + windowNanos);
    if nowMono >= Wrap(windowStart + windowNanos) {
      count := 0;
      windowStart := nowMono;
      windowStartUnix := nowUnix;
    }
    var windowSecs := Max(windowNanos / NANOS_PER_SEC, 1);
    var reset := windowStartUnix + windowSecs;
    if count < limit {
      count := Wrap(count + 1);
      var remaining := Wrap(limit - count);
      r := DimResult(true, limit, remaining, reset, None);
    } else {
      underflow := nowMono < windowStart;
      WrapDifference(nowMono, windowStart);
      var elapsed := Wrap(nowMono - windowStart);
      var left := SatSub(windowNanos, elapsed);
      r := DimResult(false, limit, 0, reset, Some(Max(left / NANOS_PER_SEC, 1)));
    }
  }

  lemma WrapDifference(a: nat, b: nat)
    requires a < MONO_LIMIT && b < MONO_LIMIT
    ensures Wrap(a - b) == if b <= a then a - b else a - b + U64
  {
  }

  method PopStale(timestamps0: seq<nat>, cutoff: nat) returns (timestamps: seq<nat>)
    ensures timestamps == DropStale(timestamps0, cutoff)
  {
    timestamps := timestamps0;
    while |timestamps| > 0 && timestamps[0] <= cutoff
      invariant DropStale(timestamps, cutoff) == DropStale(timestamps0, cutoff)
    {
      timestamps := timestamps[1..];
    }
  }

  method NanosUntilExpiry(oldest: nat, windowNanos: nat, nowMono: nat) returns (nanos: nat)
    requires oldest < MONO_LIMIT && windowNanos <= 3_600_000_000_000
    ensures nanos == SatSub(oldest + windowNanos, nowMono)
  {
    WrapSmall(oldest + windowNanos);
    nanos := SatSub(Wrap(oldest + windowNanos), nowMono);
  }

  method RunSlidingWindow(timestamps0: seq<nat>, limit: nat, windowNanos: nat, nowMono: nat, nowUnix: int)
    returns (timestamps: seq<nat>, r: DimResult)
    requires ValidRate(RateLimit(limit, windowNanos))
    requires |timestamps0| <= limit
    requires forall t :: t in timestamps0 ==> t <= nowMono
    requires nowMono < MONO_LIMIT
    ensures (SlidingState(timestamps, windowNanos), r)
         == SlidingStep(SlidingState(timestamps0, windowNanos), RateLimit(limit, windowNanos), Stamp(nowMono, nowUnix))
  {
    var cutoff := SatSub(nowMono, windowNanos);
    timestamps := PopStale(timestamps0, cutoff);
    HeadWithin(timestamps0, cutoff, nowMono);
    var count := |timestamps|;
    var nanosUntil := windowNanos;
    if count > 0 {
      nanosUntil := NanosUntilExpiry(timestamps[0], windowNanos, nowMono);
    }
    var reset := nowUnix + nanosUntil / NANOS_PER_SEC;
    if count < limit {
      timestamps := timestamps + [nowMono];
      r := DimResult(true, limit, limit - count - 1, reset, None);
    } else {
      var retry := if count > 0 then nanosUntil / NANOS_PER_SEC else 1;
      r := DimResult(false, limit, 0, reset, Some(Max(retry, 1)));
    }
  }

  lemma HeadWithin(ts: seq<nat>, cutoff: nat, bound: nat)
    requires forall t :: t in ts ==> t <= bound
    ensures DropStale(ts, cutoff) != [] ==> DropStale(ts, cutoff)[0] <= bound
  {
    DropStaleSuffix(ts, cutoff);
    assert DropStale(ts, cutoff) != [] ==> DropStale(ts, cutoff)[0] in DropStale(ts, cutoff);
  }

  /** A proportional share of `whole` never exceeds it. */
  lemma ShareAtMost(part: nat, cap: nat, whole: nat)
    requires 0 < cap && part <= cap
    ensures part * whole / cap <= whole
  {
    MulMono(part, cap, whole);
    DivAtLeast(part * whole, whole + 1, cap);
    assert (whole + 1) * cap == cap * whole + cap;
  }

  lemma WrapSmall(x: nat)
    ensures x < U64 ==> Wrap(x) == x
    ensures x < U128 ==> Wrap128(x) == x
  {
  }

  /** The 64-bit refill is exact: no product, narrowing or sum overflows. */
  method RefillTokens(tokens: nat, limit: nat, windowNanos: nat, elapsed: nat) returns (r: nat)
    requires ValidRate(RateLimit(limit, windowNanos))
    requires tokens <= limit * 1000 && elapsed < MONO_LIMIT
    ensures r == Refill(tokens, RateLimit(limit, windowNanos), elapsed)
  {
    var added := ProRata(limit * 1000, windowNanos, elapsed);
    WrapSmall(tokens + added);
    r := Min(Wrap(tokens + added), SatMul(limit, 1000));
  }

  /** `part * whole / total` by a 128-bit product narrowed to 64 bits. */
  method ProRata(part: nat, total: nat, whole: nat) returns (share: nat)
    requires 0 < total && part <= 1_000_000_000 && part <= total && whole < MONO_LIMIT
    ensures share == part * whole / total <= whole
  {
    var product := part * whole;
    assert product <= 1_000_000_000 * whole by {
      MulMono(part, 1_000_000_000, whole);
    }
    WrapSmall(product);
    share := Wrap128(product) / total;
    assert share <= whole by {
      ShareAtMost(part, total, whole);
    }
    WrapSmall(share);
    share := Wrap(share);
  }

  method FullAfter(tokens: nat, limit: nat, windowNanos: nat) returns (secs: nat)
    requires ValidRate(RateLimit(limit, windowNanos)) && tokens <= limit * 1000
    ensures secs == SecondsToFull(tokens, RateLimit(limit, windowNanos))
  {
    var needed := SatSub(SatMul(limit, 1000), tokens);
    if needed == 0 {
      return 0;
    }
    var nanos := ProRata(needed, limit * 1000, windowNanos);
    secs := Max(nanos / NANOS_PER_SEC, 1);
  }

  method TokenAfter(tokens: nat, limit: nat, windowNanos: nat) returns (secs: nat)
    requires ValidRate(RateLimit(limit, windowNanos)) && tokens < 1000
    ensures secs == SecondsToToken(tokens, RateLimit(limit, windowNanos))
  {
    var nanos := ProRata(SatSub(1000, tokens), limit * 1000, windowNanos);
    nanos := Max(nanos, 1);
    secs := Max((nanos + NANOS_PER_SEC - 1) / NANOS_PER_SEC, 1);
  }

  method RunTokenBucket(tokens0: nat, lastRefill0: nat, limit: nat, windowNanos: nat, nowMono: nat, nowUnix: int)
    returns (tokensMilli: nat, lastRefill: nat, r: DimResult)
    requires ValidRate(RateLimit(limit, windowNanos))
    requires tokens0 <= limit * 1000 && nowMono < MONO_LIMIT
    ensures (BucketState(tokensMilli, lastRefill), r)
         == BucketStep(BucketState(tokens0, lastRefill0), RateLimit(limit, windowNanos), Stamp(nowMono, nowUnix))
  {
    tokensMilli, lastRefill := tokens0, lastRefill0;
    var elapsed := SatSub(nowMono, lastRefill);
    if elapsed > 0 {
      tokensMilli := RefillTokens(tokensMilli, limit, windowNanos, elapsed);
      lastRefill := nowMono;
    }
    if tokensMilli >= 1000 {
      tokensMilli := tokensMilli - 1000;
      var refillSecs := FullAfter(tokensMilli, limit, windowNanos);
      r := DimResult(true, limit, tokensMilli / 1000, nowUnix + refillSecs, None);
    } else {
      var retry := TokenAfter(tokensMilli, limit, windowNanos);
      r := DimResult(false, limit, 0, nowUnix + retry, Some(retry));
    }
  }

  /** Bounds on a stored state that keep the 64-bit arithmetic exact. */
  ghost predicate InRange(p: Policy, s: KeyState, clock: nat) {
    && StateMatches(p, s)
    && match s
       case FixedState(count, start, _, _) => count <= p.rate.count && start <= clock
       case SlidingState(ts, _) => |ts| <= p.rate.count && forall t :: t in ts ==> t <= clock
       case BucketState(_, last) => last <= clock
  }

  lemma CallInRange(p: Policy, s: Option<KeyState>, clock: nat, at: Stamp)
    requires ValidRate(p.rate) && clock <= at.mono
    requires s.Some? ==> InRange(p, s.value, clock)
    ensures InRange(p, Advance(p, s, at).0, at.mono)
  {
    AdvanceMatches(p, s, at);
    if s.Some? && s.value.SlidingState? {
      DropStaleSuffix(s.value.timestamps, SatSub(at.mono, p.rate.windowNanos));
    }
  }

  lemma {:induction false} StoreInRange(ps: Policies, events: History<Event>, k: string)
    requires ValidPolicies(ps) && TimedOn(ps, events, k)
    ensures k in StoreAfter(ps, events) ==> InRange(ps(k), StoreAfter(ps, events)[k], KeyClock(ps, events, k))
  {
    hide Evaluate;
    if events.Then? {
      var before := events.before;
      var m := StoreAfter(ps, before);
      StoreInRange(ps, before, k);
      match events.last {
        case Check(key, at) =>
          if key == k {
            CallInRange(ps(k), Lookup(m, k), KeyClock(ps, before, k), at);
          }
        case Sweep(at, contended) =>
          if k in m && m[k].SlidingState? {
            DropStaleSuffix(m[k].timestamps, SatSub(at, m[k].windowNanos));
          }
      }
    }
  }

  /** What visiting one more key does. */
  function SweepOne(m: KeyTable, k: string, now: nat): KeyTable
    requires k in m
  {
    if Evictable(m[k], now) then m - {k} else m[k := Drained(m[k], now)]
  }

  lemma SweptOneMore(m: KeyTable, now: nat, contended: set<string>, todo: set<string>, k: string)
    requires k in todo && k in m
    ensures k !in contended ==>
              k in Swept(m, now, contended + todo) && Swept(m, now, contended + todo)[k] == m[k]
              && SweepOne(Swept(m, now, contended + todo), k, now) == Swept(m, now, contended + (todo - {k}))
    ensures k in contended ==> Swept(m, now, contended + todo) == Swept(m, now, contended + (todo - {k}))
  {
    hide Evictable, Drained;
    if k in contended {
      assert contended + todo == contended + (todo - {k});
    }
  }

  lemma SweptNone(m: KeyTable, now: nat, contended: set<string>)
    ensures Swept(m, now, contended + m.Keys) == m
    ensures contended + {} == contended
  {
  }

  /** A call keeps every key's readings in order if its own key's are. */
  lemma CallTimed(ps: Policies, events: History<Event>, key: string, at: Stamp)
    requires ValidPolicies(ps) && (forall k :: TimedOn(ps, events, k)) && KeyClock(ps, events, key) <= at.mono
    ensures forall k :: TimedOn(ps, Then(events, Check(key, at)), k)
  {
    hide TimedOn, KeyClock, StoreAfter;
    CallStep(ps, events, key, at);
  }

  lemma SweepTimed(ps: Policies, events: History<Event>, now: nat, contended: set<string>)
    requires ValidPolicies(ps) && forall k :: TimedOn(ps, events, k)
    ensures forall k :: TimedOn(ps, Then(events, Event.Sweep(now, contended)), k)
    ensures StoreAfter(ps, Then(events, Event.Sweep(now, contended))) == Swept(StoreAfter(ps, events), now, contended)
  {
  }

  class Store {
    var inner: map<string, KeyState>
    var callCount: nat
    /** How each key is configured; every call on a key passes the same limit, window and algorithm. */
    ghost const policies: Policies
    /** Calls and sweeps so far, in lock order. */
    ghost var events: History<Event>

    ghost predicate Valid()
      reads this
    {
      && ValidPolicies(policies)
      && (forall k :: TimedOn(policies, events, k))
      && inner == StoreAfter(policies, events)
    }

    constructor (ghost policies: Policies)
      requires ValidPolicies(policies)
      ensures Valid() && this.policies == policies && events == Start && inner == map[]
    {
      this.policies := policies;
      inner := map[];
      callCount := 0;
      events := Start;
    }

    /** Visits the keys in any order; the lock of a `contended` key cannot be taken. */
    method Sweep(nowMono: nat, contended: set<string>)
      requires Valid()
      modifies this`inner, this`events
      ensures Valid()
      ensures events == Then(old(events), Event.Sweep(nowMono, contended))
      ensures inner == Swept(old(inner), nowMono, contended)
    {
      hide Swept, StoreAfter, TimedOn, Drained, Evictable;
      var todo := inner.Keys;
      SweptNone(inner, nowMono, contended);
      while todo != {}
        invariant events == old(events) && todo <= old(inner).Keys
        invariant inner == Swept(old(inner), nowMono, contended + todo)
        decreases todo
      {
        var k :| k in todo;
        SweptOneMore(old(inner), nowMono, contended, todo, k);
        if k !in contended {
          var kept := Retain(inner[k], nowMono);
          inner := if kept.Some? then inner[k := kept.value] else inner - {k};
        }
        todo := todo - {k};
      }
      SweepTimed(policies, events, nowMono, contended);
      events := Then(events, Event.Sweep(nowMono, contended));
    }

    /** Drains a key, then keeps it or lets it go. */
    method Retain(state: KeyState, nowMono: nat) returns (kept: Option<KeyState>)
      ensures kept == if Evictable(state, nowMono) then None else Some(Drained(state, nowMono))
    {
      var keep: bool;
      var state' := state;
      match state {
        case FixedState(_, start, _, w) =>
          keep := SatSub(nowMono, start) < w;
        case SlidingState(ts, w) =>
          var live := PopStale(ts, SatSub(nowMono, w));
          state' := SlidingState(live, w);
          keep := live != [];
        case BucketState(_, last) =>
          keep := SatSub(nowMono, last) < STALE_BUCKET_NANOS;
      }
      kept := if keep then Some(state') else None;
    }

    /** Runs the algorithm of the stored state on it. */
    method EvaluateState(state: KeyState, limit: nat, windowNanos: nat, nowMono: nat, nowUnix: int,
                         ghost p: Policy) returns (state': KeyState, r: DimResult)
      requires p.rate == RateLimit(limit, windowNanos) && ValidRate(p.rate)
      requires InRange(p, state, nowMono) && nowMono < MONO_LIMIT
      ensures (state', r) == Evaluate(state, p.rate, Stamp(nowMono, nowUnix))
    {
      match state {
        case FixedState(count0, start0, startUnix0, w) =>
          var count, start, startUnix;
          ghost var underflow;
          count, start, startUnix, r, underflow :=
            RunFixedWindow(count0, start0, startUnix0, limit, windowNanos, nowMono, nowUnix);
          state' := FixedState(count, start, startUnix, w);
        case SlidingState(ts0, w) =>
          var ts;
          ts, r := RunSlidingWindow(ts0, limit, windowNanos, nowMono, nowUnix);
          state' := SlidingState(ts, w);
        case BucketState(tokens0, last0) =>
          var tokens, last;
          tokens, last, r := RunTokenBucket(tokens0, last0, limit, windowNanos, nowMono, nowUnix);
          state' := BucketState(tokens, last);
      }
    }

    /** Whatever was evicted before, the answer is that of the key's own never-evicted run. */
    method CheckAndIncrement(key: string, limit: nat, windowNanos: nat, algorithm: Algorithm,
                             nowMono: nat, nowUnix: int)
      returns (r: DimResult, ghost contended: set<string>)
      requires Valid() && policies(key) == Policy(RateLimit(limit, windowNanos), algorithm)
      requires KeyClock(policies, events, key) <= nowMono < MONO_LIMIT
      modifies this
      ensures Valid()
      ensures callCount == Wrap(old(callCount) + 1)
      ensures var called := Then(old(events), Check(key, Stamp(nowMono, nowUnix)));
              events == if old(callCount) % SWEEP_INTERVAL == 0 && old(callCount) > 0
                        then Then(called, Event.Sweep(nowMono, contended)) else called
      ensures r == SoloResult(policies(key), CallsOn(old(events), key), Stamp(nowMono, nowUnix))
    {
      hide Evaluate, StoreAfter, TimedOn, KeyClock;
      ghost var at, p := Stamp(nowMono, nowUnix), policies(key);
      var state;
      if key in inner {
        StoreInRange(policies, events, key);
        state, r := EvaluateState(inner[key], limit, windowNanos, nowMono, nowUnix, p);
      } else {
        var blank := NewState(limit, windowNanos, algorithm, nowMono, nowUnix);
        state, r := EvaluateState(blank, limit, windowNanos, nowMono, nowUnix, p);
      }
      SweepUnobservable(policies, events, key, at);
      CallTimed(policies, events, key, at);
      CallStep(policies, events, key, at);
      inner := inner[key := state];
      events := Then(events, Check(key, at));

      var n := callCount;
      callCount := Wrap(callCount + 1);
      contended := {};
      if n % SWEEP_INTERVAL == 0 && n > 0 {
        var busy: set<string> := *;
        contended := busy;
        Sweep(nowMono, busy);
      }
    }

    method NewState(limit: nat, windowNanos: nat, algorithm: Algorithm, nowMono: nat, nowUnix: int)
      returns (s: KeyState)
      requires limit <= MAX_RATE_COUNT
      ensures s == NewKeyState(Policy(RateLimit(limit, windowNanos), algorithm), Stamp(nowMono, nowUnix))
    {
      match algorithm {
        case FixedWindow => s := FixedState(0, nowMono, nowUnix, windowNanos);
        case SlidingWindow => s := SlidingState([], windowNanos);
        case TokenBucket => s := BucketState(SatMul(limit, 1000), nowMono);
      }
    }
  }
}
