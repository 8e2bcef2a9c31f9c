/**
 What the two window algorithms guarantee over whole runs of a key: what the sliding
 deque holds, when a call is denied, and how many admissions any interval can contain.
 */
module WindowBounds {
  import opened Outcomes
  import opened RateConfig
  import opened Histories
  import opened KeyMachine
  import opened Sweeping

  // ---- Sliding window ----

  /** No clock reading is 0: the saturated cutoff would drop a timestamp of 0 at once. */
  predicate Positive(calls: History<Stamp>) {
    calls.Then? ==> 1 <= calls.last.mono && Positive(calls.before)
  }

  lemma {:induction false} AdmittedPositive(p: Policy, calls: History<Stamp>)
    requires ValidRate(p.rate) && Positive(calls)
    ensures AtLeast(Admitted(p, calls), 1)
  {
    hide Evaluate;
    if calls.Then? {
      AdmittedPositive(p, calls.before);
    }
  }

  lemma {:induction false} DropStaleSnoc(ts: seq<nat>, t: nat, cutoff: nat)
    ensures DropStale(ts + [t], cutoff)
         == if DropStale(ts, cutoff) == [] && t <= cutoff then [] else DropStale(ts, cutoff) + [t]
  {
    if |ts| > 0 && ts[0] <= cutoff {
      assert (ts + [t])[1..] == ts[1..] + [t];
      DropStaleSnoc(ts[1..], t, cutoff);
    } else if ts == [] {
      assert ts + [t] == [t];
    }
  }

  function Deque(s: Option<KeyState>): seq<nat> {
    if s.Some? && s.value.SlidingState? then s.value.timestamps else []
  }

  /** One call on a sliding key, in terms of what is left of its deque. */
  lemma SlidingCall(p: Policy, s: Option<KeyState>, at: Stamp)
    requires ValidRate(p.rate) && p.algorithm.SlidingWindow?
    requires s.Some? ==> StateMatches(p, s.value)
    ensures var live := DropStale(Deque(s), SatSub(at.mono, p.rate.windowNanos));
            var (s', r) := Advance(p, s, at);
            && (r.allowed <==> |live| < p.rate.count)
            && r.limit == p.rate.count && r.remaining == SatSub(p.rate.count, |live| + 1)
            && r.resetTimestamp == at.unix
               + (if live == [] then p.rate.windowNanos
                  else SatSub(live[0] + p.rate.windowNanos, at.mono)) / NANOS_PER_SEC
            && (r.allowed ==> r.retryAfter == None)
            && StateMatches(p, s')
            && Deque(Some(s')) == (if r.allowed then live + [at.mono] else live)
            && (!r.allowed ==>
                  r.retryAfter == Some(Max(SatSub(live[0] + p.rate.windowNanos, at.mono) / NANOS_PER_SEC, 1)))
  {
  }

  /** Popping to `c0`, possibly pushing `t`, then popping to `cutoff`. */
  lemma PushedDeque(ts: seq<nat>, adm: History<nat>, t: nat, c0: nat, cutoff: nat)
    requires c0 <= cutoff && DropStale(ts, cutoff) == After(adm, cutoff) && AtMost(adm, t)
    ensures DropStale(DropStale(ts, c0), cutoff) == After(adm, cutoff)
    ensures DropStale(DropStale(ts, c0) + [t], cutoff) == After(Then(adm, t), cutoff)
  {
    DropStaleTwice(ts, c0, cutoff);
    DropStaleSnoc(DropStale(ts, c0), t, cutoff);
    if t <= cutoff {
      AtMostLater(adm, t, cutoff);
      AfterNone(adm, cutoff);
    }
  }

  /** Popping from the front leaves exactly the admitted times past the cutoff. */
  lemma {:induction false} PoppedDeque(p: Policy, calls: History<Stamp>, cutoff: nat)
    requires ValidRate(p.rate) && p.algorithm.SlidingWindow? && Ordered(calls)
    requires calls.Then? ==> SatSub(calls.last.mono, p.rate.windowNanos) <= cutoff
    ensures DropStale(Deque(Solo(p, calls)), cutoff) == After(Admitted(p, calls), cutoff)
  {
    hide Evaluate;
    if calls.Then? {
      var before, at := calls.before, calls.last;
      PoppedDeque(p, before, cutoff);
      SoloMatches(p, before);
      SlidingCall(p, Solo(p, before), at);
      AdmittedBy(p, before, at.mono);
      PushedDeque(Deque(Solo(p, before)), Admitted(p, before), at.mono, SatSub(at.mono, p.rate.windowNanos), cutoff);
    }
  }

  lemma SaturatedCutoff(adm: History<nat>, t: nat, w: nat)
    requires AtLeast(adm, 1)
    ensures After(adm, SatSub(t, w)) == After(adm, t - w)
  {
    if t < w {
      AtLeastEarlier(adm, 1, t - w + 1);
      AfterAll(adm, t - w, 0);
    }
  }

  /** What a call finds in the deque is the admitted history of the last window. */
  lemma LiveIsHistory(p: Policy, calls: History<Stamp>, at: Stamp)
    requires ValidRate(p.rate) && p.algorithm.SlidingWindow? && Positive(calls) && Ordered(Then(calls, at))
    ensures DropStale(Deque(Solo(p, calls)), SatSub(at.mono, p.rate.windowNanos))
         == After(Admitted(p, calls), at.mono - p.rate.windowNanos)
  {
    hide Evaluate;
    PoppedDeque(p, calls, SatSub(at.mono, p.rate.windowNanos));
    AdmittedPositive(p, calls);
    SaturatedCutoff(Admitted(p, calls), at.mono, p.rate.windowNanos);
  }

  /** The deque is the admitted times of the last window, in order. */
  lemma SlidingDequeIsHistory(p: Policy, calls: History<Stamp>)
    requires ValidRate(p.rate) && p.algorithm.SlidingWindow? && Positive(calls) && Ordered(calls) && calls.Then?
    ensures Deque(Solo(p, calls)) == After(Admitted(p, calls), calls.last.mono - p.rate.windowNanos)
  {
    hide Evaluate;
    SoloMatches(p, calls.before);
    LiveIsHistory(p, calls.before, calls.last);
    SlidingCall(p, Solo(p, calls.before), calls.last);
  }

  /** A call is admitted exactly when fewer than `limit` admissions lie in the window ending now. */
  lemma SlidingAdmitsIff(p: Policy, calls: History<Stamp>, at: Stamp)
    requires ValidRate(p.rate) && p.algorithm.SlidingWindow? && Positive(calls) && Ordered(Then(calls, at))
    ensures var used := Count(Admitted(p, calls), at.mono - p.rate.windowNanos + 1, at.mono);
            var r := SoloResult(p, calls, at);
            && (r.allowed <==> used < p.rate.count)
            && r.remaining == SatSub(p.rate.count, used + 1)
  {
    hide Evaluate, Solo, Admitted;
    SoloMatches(p, calls);
    LiveIsHistory(p, calls, at);
    SlidingCall(p, Solo(p, calls), at);
    AdmittedBy(p, calls, at.mono);
    CountIsAfter(Admitted(p, calls), at.mono - p.rate.windowNanos, at.mono);
  }

  /** No interval of one window length ever holds more than `limit` admissions. */
  lemma {:induction false} SlidingBound(p: Policy, calls: History<Stamp>, lo: int)
    requires ValidRate(p.rate) && p.algorithm.SlidingWindow? && Positive(calls) && Ordered(calls)
    ensures Count(Admitted(p, calls), lo, lo + p.rate.windowNanos - 1) <= p.rate.count
  {
    hide Evaluate;
    if calls.Then? {
      var before, at, w := calls.before, calls.last, p.rate.windowNanos;
      SlidingBound(p, before, lo);
      if SoloResult(p, before, at).allowed && lo <= at.mono <= lo + w - 1 {
        AdmittedBy(p, before, at.mono);
        CountMono(Admitted(p, before), lo, lo + w - 1, at.mono - w + 1, at.mono);
        SlidingAdmitsIff(p, before, at);
      }
    }
  }

  // ---- Fixed window ----

  function WindowStart(s: Option<KeyState>): int {
    if s.Some? && s.value.FixedState? then s.value.windowStart else -1
  }

  /** Where the windows of a run begin: the calls that found no open window. */
  function WindowStarts(p: Policy, calls: History<Stamp>): seq<nat>
    requires ValidRate(p.rate)
  {
    match calls
    case Start => []
    case Then(before, at) =>
      var s := Solo(p, before);
      if s.None? || at.mono >= WindowStart(s) + p.rate.windowNanos
      then WindowStarts(p, before) + [at.mono]
      else WindowStarts(p, before)
  }

  /** The counter counts the open window; the window length up to it admitted fewer than `limit`. */
  ghost predicate FixedInvariant(p: Policy, adm: History<nat>, s: KeyState, now: nat) {
    var w := p.rate.windowNanos;
    && s.FixedState?
    && s.windowStart <= now < s.windowStart + w
    && s.count == Count(adm, s.windowStart, now) <= p.rate.count
    && 1 <= Count(adm, s.windowStart, s.windowStart)
    && Count(adm, s.windowStart - w + 1, s.windowStart - 1) < p.rate.count
    && AtMost(adm, now)
  }

  lemma FixedStepCounts(p: Policy, adm: History<nat>, s: KeyState, now: nat, at: Stamp)
    requires ValidRate(p.rate) && now <= at.mono && FixedInvariant(p, adm, s, now)
    ensures var (s', r) := FixedStep(s, p.rate, at);
            FixedInvariant(p, if r.allowed then Then(adm, at.mono) else adm, s', at.mono)
  {
    var w, t, start := p.rate.windowNanos, at.mono, s.windowStart;
    AtMostLater(adm, now, t);
    if t >= start + w {
      AtMostLater(adm, now, t - 1);
      CountNone(adm, t, t);
      CountSplit(adm, start, start + 1, now);
      CountMono(adm, t - w + 1, t - 1, start + 1, now);
    } else {
      CountMono(adm, start, t, start, now);
      CountMono(adm, start, now, start, t);
    }
  }

  lemma {:induction false} FixedRun(p: Policy, calls: History<Stamp>)
    requires ValidRate(p.rate) && p.algorithm.FixedWindow? && Ordered(calls) && calls.Then?
    ensures FixedInvariant(p, Admitted(p, calls), Solo(p, calls).value, calls.last.mono)
  {
    var before, at := calls.before, calls.last;
    if before.Then? {
      FixedRun(p, before);
      FixedStepCounts(p, Admitted(p, before), Solo(p, before).value, before.last.mono, at);
    }
  }

  /** An interval reaching into the open window meets that window and the one before it. */
  lemma TwoWindows(p: Policy, adm: History<nat>, s: KeyState, now: nat, lo: int)
    requires FixedInvariant(p, adm, s, now) && lo <= now < lo + p.rate.windowNanos
    ensures Count(adm, lo, lo + p.rate.windowNanos - 1) <= 2 * p.rate.count - 1
  {
    var w, start: int, hi := p.rate.windowNanos, s.windowStart, lo + p.rate.windowNanos - 1;
    if lo <= start {
      CountSplit(adm, lo, start, hi);
      CountMono(adm, lo, start - 1, start - w + 1, start - 1);
      CountMono(adm, start, hi, start, now);
    } else {
      CountMono(adm, lo, hi, start, now);
    }
  }

  /**
   Any interval of one window length holds at most 2 * limit - 1 admissions: windows open
   with an admission, so an interval meeting two windows misses the first call of the earlier one.
   */
  lemma {:induction false} FixedBound(p: Policy, calls: History<Stamp>, lo: int)
    requires ValidRate(p.rate) && p.algorithm.FixedWindow? && Ordered(calls)
    ensures Count(Admitted(p, calls), lo, lo + p.rate.windowNanos - 1) <= 2 * p.rate.count - 1
  {
    hide Evaluate;
    if calls.Then? {
      FixedBound(p, calls.before, lo);
      if lo <= calls.last.mono <= lo + p.rate.windowNanos - 1 {
        FixedRun(p, calls);
        TwoWindows(p, Admitted(p, calls), Solo(p, calls).value, calls.last.mono, lo);
      }
    }
  }

  /** The same call made `n` times. */
  function Repeat(calls: History<Stamp>, at: Stamp, n: nat): History<Stamp> {
    if n == 0 then calls else Then(Repeat(calls, at, n - 1), at)
  }

  /** Repeated calls inside a window with room for them are all admitted. */
  lemma {:induction false} RepeatAdmitted(p: Policy, calls: History<Stamp>, at: Stamp, n: nat, start: nat, used: nat)
    requires ValidRate(p.rate) && p.algorithm.FixedWindow? && used + n <= p.rate.count
    requires var s := Solo(p, calls);
             s.Some? && s.value.FixedState? && s.value.windowStart == start && s.value.count == used
    requires at.mono < start + p.rate.windowNanos
    ensures var s, later := Solo(p, Repeat(calls, at, n)), Repeat(calls, at, n);
            && s.Some? && s.value.FixedState? && s.value.windowStart == start && s.value.count == used + n
            && forall lo, hi :: Count(Admitted(p, later), lo, hi)
                             == Count(Admitted(p, calls), lo, hi) + if lo <= at.mono <= hi then n else 0
  {
    if n > 0 {
      RepeatAdmitted(p, calls, at, n - 1, start, used);
    }
  }

  /** A call that finds no open window opens one and is admitted. */
  lemma WindowOpens(p: Policy, calls: History<Stamp>, at: Stamp)
    requires ValidRate(p.rate) && p.algorithm.FixedWindow?
    requires var s := Solo(p, calls);
             s.Some? ==> s.value.FixedState? && at.mono >= s.value.windowStart + p.rate.windowNanos
    ensures var s := Solo(p, Then(calls, at));
            s.Some? && s.value.FixedState? && s.value.windowStart == at.mono && s.value.count == 1
    ensures Admitted(p, Then(calls, at)) == Then(Admitted(p, calls), at.mono)
  {
  }

  /**
   The bound is reached, for every configuration, by a burst at the end of a window and one at the
   start of the next.
   */
  lemma FixedBoundTight(p: Policy) returns (calls: History<Stamp>)
    requires ValidRate(p.rate) && p.algorithm.FixedWindow?
    ensures Ordered(calls)
    ensures Count(Admitted(p, calls), p.rate.windowNanos, 2 * p.rate.windowNanos - 1) == 2 * p.rate.count - 1
  {
    hide Evaluate;
    var w, limit := p.rate.windowNanos, p.rate.count;
    var first, late, next := Stamp(1, 0), Stamp(w, 0), Stamp(w + 1, 0);
    var one := Then(Start, first);
    WindowOpens(p, Start, first);
    assert Count(Admitted(p, one), w, 2 * w - 1) == Count(Admitted(p, Start), w, 2 * w - 1) == 0;
    RepeatAdmitted(p, one, late, limit - 1, 1, 1);
    var full := Repeat(one, late, limit - 1);
    assert Count(Admitted(p, full), w, 2 * w - 1) == limit - 1;
    var reopened := Then(full, next);
    WindowOpens(p, full, next);
    RepeatAdmitted(p, reopened, next, limit - 1, w + 1, 1);
    calls := Repeat(reopened, next, limit - 1);
    RepeatOrdered(one, late, limit - 1);
    RepeatOrdered(reopened, next, limit - 1);
  }

  lemma {:induction false} RepeatOrdered(calls: History<Stamp>, at: Stamp, n: nat)
    requires Ordered(Then(calls, at))
    ensures Ordered(Then(Repeat(calls, at, n), at))
  {
    if n > 0 {
      RepeatOrdered(calls, at, n - 1);
    }
  }

  /** Windows start at least one window apart, and the open one is the last. */
  lemma {:induction false} WindowsApart(p: Policy, calls: History<Stamp>)
    requires ValidRate(p.rate) && p.algorithm.FixedWindow? && Ordered(calls)
    ensures var ws := WindowStarts(p, calls);
            && (calls.Then? ==> ws != [] && ws[|ws| - 1] == WindowStart(Solo(p, calls)))
            && forall i, j :: 0 <= i < j < |ws| ==> ws[i] + p.rate.windowNanos <= ws[j]
  {
    if calls.Then? {
      WindowsApart(p, calls.before);
      SoloMatches(p, calls.before);
    }
  }

  /** Each window of a run admits at most `limit` calls. */
  lemma {:induction false} WindowAdmits(p: Policy, calls: History<Stamp>, i: nat)
    requires ValidRate(p.rate) && p.algorithm.FixedWindow? && Ordered(calls)
    requires i < |WindowStarts(p, calls)|
    ensures var start := WindowStarts(p, calls)[i];
            Count(Admitted(p, calls), start, start + p.rate.windowNanos - 1) <= p.rate.count
  {
    hide Evaluate;
    var w, ws := p.rate.windowNanos, WindowStarts(p, calls);
    WindowsApart(p, calls);
    FixedRun(p, calls);
    if i == |ws| - 1 {
      CountMono(Admitted(p, calls), ws[i], ws[i] + w - 1, ws[i], calls.last.mono);
    } else {
      WindowAdmits(p, calls.before, i);
    }
  }

  /** A call is denied only when its window has already admitted `limit` calls. */
  lemma FixedDeniesIff(p: Policy, calls: History<Stamp>, at: Stamp)
    requires ValidRate(p.rate) && p.algorithm.FixedWindow? && Ordered(Then(calls, at))
    ensures var s := Solo(p, calls);
            !SoloResult(p, calls, at).allowed <==>
              && s.Some?
              && at.mono < WindowStart(s) + p.rate.windowNanos
              && Count(Admitted(p, calls), WindowStart(s), at.mono) == p.rate.count
  {
    if calls.Then? {
      FixedRun(p, calls);
      var adm, start, now := Admitted(p, calls), WindowStart(Solo(p, calls)), calls.last.mono;
      CountMono(adm, start, now, start, at.mono);
      CountMono(adm, start, at.mono, start, now);
    }
  }

  /** `later` extends `calls` by further calls. */
  predicate Extends(later: History<Stamp>, calls: History<Stamp>) {
    later == calls || (later.Then? && Extends(later.before, calls))
  }

  lemma {:induction false} WindowKept(p: Policy, calls: History<Stamp>, later: History<Stamp>)
    requires ValidRate(p.rate) && p.algorithm.FixedWindow? && calls.Then? && Extends(later, calls) && Ordered(later)
    requires later.last.mono < WindowStart(Solo(p, calls)) + p.rate.windowNanos
    ensures var s, s' := Solo(p, calls).value, Solo(p, later).value;
            s.FixedState? && s'.FixedState?
            && s'.windowStart == s.windowStart && s'.windowStartUnix == s.windowStartUnix
  {
    SoloMatches(p, calls);
    if later != calls {
      WindowKept(p, calls, later.before);
    }
  }

  lemma ResetReported(p: Policy, calls: History<Stamp>)
    requires ValidRate(p.rate) && p.algorithm.FixedWindow? && calls.Then?
    ensures Solo(p, calls).value.FixedState?
    ensures SoloResult(p, calls.before, calls.last).resetTimestamp
         == Solo(p, calls).value.windowStartUnix + p.rate.windowNanos / NANOS_PER_SEC
  {
    SoloMatches(p, calls.before);
  }

  /** While a window is open, every answer reports the reset time fixed when it opened. */
  lemma ResetConstant(p: Policy, calls: History<Stamp>, later: History<Stamp>)
    requires ValidRate(p.rate) && p.algorithm.FixedWindow? && calls.Then? && Extends(later, calls) && Ordered(later)
    requires later.last.mono < WindowStart(Solo(p, calls)) + p.rate.windowNanos
    ensures SoloResult(p, later.before, later.last).resetTimestamp
         == SoloResult(p, calls.before, calls.last).resetTimestamp
  {
    hide Evaluate;
    WindowKept(p, calls, later);
    ResetReported(p, calls);
    ResetReported(p, later);
  }

  // ---- The evicting store obeys the same bounds ----

  /** Times at which the evicting store admitted calls on `k`. */
  ghost function StoreAdmitted(ps: Policies, events: History<Event>, k: string): History<nat>
    requires ValidPolicies(ps)
  {
    match events
    case Start => Start
    case Then(before, Check(key, at)) =>
      var earlier := StoreAdmitted(ps, before, k);
      if key == k && Answer(ps, before, k, at).allowed then Then(earlier, at.mono) else earlier
    case Then(before, Sweep(_, _)) => StoreAdmitted(ps, before, k)
  }

  lemma {:induction false} StoreAdmitsAsSolo(ps: Policies, events: History<Event>, k: string)
    requires ValidPolicies(ps) && TimedOn(ps, events, k)
    ensures StoreAdmitted(ps, events, k) == Admitted(ps(k), CallsOn(events, k))
  {
    hide Evaluate;
    if events.Then? {
      StoreAdmitsAsSolo(ps, events.before, k);
      if events.last.Check? && events.last.key == k {
        SweepUnobservable(ps, events.before, k, events.last.stamp);
      }
    }
  }

  lemma {:induction false} CallsOrdered(ps: Policies, events: History<Event>, k: string)
    requires ValidPolicies(ps) && TimedOn(ps, events, k)
    ensures var calls := CallsOn(events, k);
            Ordered(calls) && (calls.Then? ==> calls.last.mono <= KeyClock(ps, events, k))
  {
    if events.Then? {
      CallsOrdered(ps, events.before, k);
    }
  }

  /** The window limits hold of the evicting store, for every key and every interval. */
  lemma StoreWindowBound(ps: Policies, events: History<Event>, k: string, lo: int)
    requires ValidPolicies(ps) && TimedOn(ps, events, k) && Positive(CallsOn(events, k))
    ensures var p := ps(k);
            var n := Count(StoreAdmitted(ps, events, k), lo, lo + p.rate.windowNanos - 1);
            && (p.algorithm.SlidingWindow? ==> n <= p.rate.count)
            && (p.algorithm.FixedWindow? ==> n <= 2 * p.rate.count - 1)
  {
    hide Evaluate;
    StoreAdmitsAsSolo(ps, events, k);
    CallsOrdered(ps, events, k);
    if ps(k).algorithm.SlidingWindow? {
      SlidingBound(ps(k), CallsOn(events, k), lo);
    } else if ps(k).algorithm.FixedWindow? {
      FixedBound(ps(k), CallsOn(events, k), lo);
    }
  }
}
