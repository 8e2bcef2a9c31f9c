/**
 Eviction. A store's life is a sequence of calls and sweeps in lock order. Whatever
 the sweeps remove, every call gets the answer `Solo` gives: the answer of a store
 that never evicts and holds no other key.
 */
module Sweeping {
  import opened Outcomes
  import opened RateConfig
  import opened Histories
  import opened KeyMachine
  import opened Arithmetic

  type KeyTable = map<string, KeyState>

  /** A sweep at time `at` leaves alone the keys whose lock is `contended`. */
  datatype Event =
    | Check(key: string, stamp: Stamp)
    | Sweep(at: nat, contended: set<string>)

  type Policies = string -> Policy

  ghost predicate ValidPolicies(ps: Policies) {
    forall k :: ValidRate(ps(k).rate)
  }

  function Drained(s: KeyState, now: nat): KeyState {
    if s.SlidingState? then s.(timestamps := DropStale(s.timestamps, SatSub(now, s.windowNanos))) else s
  }

  predicate Evictable(s: KeyState, now: nat) {
    match s
    case FixedState(_, start, _, w) => SatSub(now, start) >= w
    case SlidingState(ts, w) => DropStale(ts, SatSub(now, w)) == []
    case BucketState(_, last) => SatSub(now, last) >= STALE_BUCKET_NANOS
  }

  function Swept(m: KeyTable, now: nat, contended: set<string>): KeyTable {
    map k | k in m && (k in contended || !Evictable(m[k], now)) ::
      if k in contended then m[k] else Drained(m[k], now)
  }

  function Lookup(m: KeyTable, k: string): Option<KeyState> {
    if k in m then Some(m[k]) else None
  }

  /** The evicting store after the given events. */
  ghost function StoreAfter(ps: Policies, events: History<Event>): KeyTable
    requires ValidPolicies(ps)
  {
    match events
    case Start => map[]
    case Then(before, Check(k, at)) =>
      var m := StoreAfter(ps, before);
      m[k := Advance(ps(k), Lookup(m, k), at).0]
    case Then(before, Sweep(at, contended)) =>
      Swept(StoreAfter(ps, before), at, contended)
  }

  /** What the evicting store answers to a call made after the given events. */
  ghost function Answer(ps: Policies, events: History<Event>, k: string, at: Stamp): DimResult
    requires ValidPolicies(ps)
  {
    Advance(ps(k), Lookup(StoreAfter(ps, events), k), at).1
  }

  /** The calls made on one key. */
  function CallsOn(events: History<Event>, k: string): History<Stamp> {
    match events
    case Start => Start
    case Then(before, Check(key, at)) => if key == k then Then(CallsOn(before, k), at) else CallsOn(before, k)
    case Then(before, Sweep(_, _)) => CallsOn(before, k)
  }

  /** Does a sweep that spares `contended` take the lock of `k`? */
  ghost predicate Visited(ps: Policies, before: History<Event>, contended: set<string>, k: string)
    requires ValidPolicies(ps)
  {
    k in StoreAfter(ps, before) && k !in contended
  }

  /** Latest clock reading used under the lock of `k`, by a call on it or a sweep that visited it. */
  ghost function KeyClock(ps: Policies, events: History<Event>, k: string): nat
    requires ValidPolicies(ps)
  {
    match events
    case Start => 0
    case Then(before, Check(key, at)) =>
      if key == k then Max(KeyClock(ps, before, k), at.mono) else KeyClock(ps, before, k)
    case Then(before, Sweep(at, contended)) =>
      if Visited(ps, before, contended, k) then Max(KeyClock(ps, before, k), at) else KeyClock(ps, before, k)
  }

  /** Calls on `k` do not read the clock earlier than whoever held its lock before them; other keys do not matter. */
  ghost predicate TimedOn(ps: Policies, events: History<Event>, k: string)
    requires ValidPolicies(ps)
  {
    match events
    case Start => true
    case Then(before, Check(key, at)) => TimedOn(ps, before, k) && (key == k ==> KeyClock(ps, before, k) <= at.mono)
    case Then(before, Sweep(_, _)) => TimedOn(ps, before, k)
  }

  /** A call and a sweep at reading `now` leave no key's clock later than it was or than `now`. */
  lemma ClockWithin(ps: Policies, events: History<Event>, key: string, at: Stamp, contended: set<string>, k: string)
    requires ValidPolicies(ps) && KeyClock(ps, events, k) <= at.mono
    ensures var called := Then(events, Check(key, at));
            && KeyClock(ps, called, k) <= at.mono
            && KeyClock(ps, Then(called, Sweep(at.mono, contended)), k) <= at.mono
  {
    hide StoreAfter;
  }

  /** What one more call does to the store, and what it means that its key's readings are in order. */
  lemma CallStep(ps: Policies, events: History<Event>, key: string, at: Stamp)
    requires ValidPolicies(ps)
    ensures var called := Then(events, Check(key, at));
            && StoreAfter(ps, called)
               == StoreAfter(ps, events)[key := Advance(ps(key), Lookup(StoreAfter(ps, events), key), at).0]
            && (TimedOn(ps, called, key) <==> TimedOn(ps, events, key) && KeyClock(ps, events, key) <= at.mono)
            && (forall k :: k != key ==> (TimedOn(ps, called, k) <==> TimedOn(ps, events, k)))
  {
    hide Evaluate;
  }

  /** The stored state `s` will answer every call from time `clock` on as `ref` would. */
  ghost predicate Interchangeable(p: Policy, s: Option<KeyState>, ref: Option<KeyState>, clock: nat) {
    && (ref.None? ==> s.None?)
    && (s.Some? ==> StateMatches(p, s.value))
    && (ref.Some? ==> StateMatches(p, ref.value))
    && (s.None? && ref.Some? ==> Evictable(ref.value, clock))
    && (s.Some? && ref.Some? ==>
          if p.algorithm.SlidingWindow? then Drained(s.value, clock) == Drained(ref.value, clock)
          else s == ref)
  }

  lemma {:induction false} DropStaleTwice(ts: seq<nat>, c1: nat, c2: nat)
    requires c1 <= c2
    ensures DropStale(DropStale(ts, c1), c2) == DropStale(ts, c2)
  {
    if |ts| > 0 && ts[0] <= c1 {
      DropStaleTwice(ts[1..], c1, c2);
    }
  }

  lemma EvictableStays(s: KeyState, c1: nat, c2: nat)
    requires c1 <= c2 && Evictable(s, c1)
    ensures Evictable(s, c2)
  {
    if s.SlidingState? {
      DropStaleTwice(s.timestamps, SatSub(c1, s.windowNanos), SatSub(c2, s.windowNanos));
    }
  }

  lemma InterchangeableLater(p: Policy, s: Option<KeyState>, ref: Option<KeyState>, c1: nat, c2: nat)
    requires c1 <= c2 && Interchangeable(p, s, ref, c1)
    ensures Interchangeable(p, s, ref, c2)
  {
    if s.None? && ref.Some? {
      EvictableStays(ref.value, c1, c2);
    }
    if s.Some? && ref.Some? && p.algorithm.SlidingWindow? {
      var w := p.rate.windowNanos;
      DropStaleTwice(s.value.timestamps, SatSub(c1, w), SatSub(c2, w));
      DropStaleTwice(ref.value.timestamps, SatSub(c1, w), SatSub(c2, w));
    }
  }

  /** An idle hour fills any bucket `ParseRate` can configure. */
  lemma IdleHourFills(tokens: nat, rate: RateLimit, elapsed: nat)
    requires ValidRate(rate) && elapsed >= STALE_BUCKET_NANOS
    ensures Refill(tokens, rate, elapsed) == rate.count * 1000
  {
    var cap, w := rate.count * 1000, rate.windowNanos;
    assert cap * elapsed >= cap * w by {
      MulMono(w, elapsed, cap);
    }
    DivAtLeast(cap * elapsed, cap, w);
  }

  /** Interchangeable states answer alike, and stay interchangeable. */
  lemma CallAgrees(p: Policy, s: Option<KeyState>, ref: Option<KeyState>, at: Stamp)
    requires ValidRate(p.rate)
    requires Interchangeable(p, s, ref, at.mono)
    ensures Advance(p, s, at).1 == Advance(p, ref, at).1
    ensures Interchangeable(p, Some(Advance(p, s, at).0), Some(Advance(p, ref, at).0), at.mono)
  {
    AdvanceMatches(p, s, at);
    AdvanceMatches(p, ref, at);
    if s.None? && ref.Some? && p.algorithm.TokenBucket? {
      IdleHourFills(ref.value.tokensMilli, p.rate, SatSub(at.mono, ref.value.lastRefill));
    }
  }

  lemma SweepAgrees(p: Policy, s: KeyState, ref: Option<KeyState>, at: nat, clock: nat)
    requires at <= clock
    requires Interchangeable(p, Some(s), ref, clock)
    ensures Interchangeable(p, if Evictable(s, at) then None else Some(Drained(s, at)), ref, clock)
  {
    if Evictable(s, at) {
      EvictableStays(s, at, clock);
    }
    if s.SlidingState? {
      DropStaleTwice(s.timestamps, SatSub(at, s.windowNanos), SatSub(clock, s.windowNanos));
    }
  }

  lemma {:induction false} StoreTracksSolo(ps: Policies, events: History<Event>, k: string)
    requires ValidPolicies(ps) && TimedOn(ps, events, k)
    ensures Interchangeable(
              ps(k), Lookup(StoreAfter(ps, events), k), Solo(ps(k), CallsOn(events, k)), KeyClock(ps, events, k))
  {
    hide Evaluate;
    if events.Then? {
      var before, p := events.before, ps(k);
      StoreTracksSolo(ps, before, k);
      var s, ref := Lookup(StoreAfter(ps, before), k), Solo(p, CallsOn(before, k));
      var clock, later := KeyClock(ps, before, k), KeyClock(ps, events, k);
      InterchangeableLater(p, s, ref, clock, later);
      match events.last {
        case Check(key, at) =>
          if key == k {
            CallAgrees(p, s, ref, at);
          }
        case Sweep(at, contended) =>
          if Visited(ps, before, contended, k) {
            SweepAgrees(p, s.value, ref, at, later);
          }
      }
    }
  }

  /** Sweeping is unobservable, and so is every other key. */
  lemma SweepUnobservable(ps: Policies, events: History<Event>, k: string, at: Stamp)
    requires ValidPolicies(ps) && TimedOn(ps, events, k) && KeyClock(ps, events, k) <= at.mono
    ensures Answer(ps, events, k, at) == SoloResult(ps(k), CallsOn(events, k), at)
  {
    hide Evaluate;
    StoreTracksSolo(ps, events, k);
    var s, ref := Lookup(StoreAfter(ps, events), k), Solo(ps(k), CallsOn(events, k));
    InterchangeableLater(ps(k), s, ref, KeyClock(ps, events, k), at.mono);
    CallAgrees(ps(k), s, ref, at);
  }
}
