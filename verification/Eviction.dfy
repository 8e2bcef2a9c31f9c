/**
 What a sweep removes, in terms of the calls made: no more than is unobservable, and no less than
 the windows and the idle hour say.
 */
module Eviction {
  import opened Outcomes
  import opened RateConfig
  import opened Histories
  import opened KeyMachine
  import opened Sweeping
  import opened WindowBounds
  import opened BucketBounds

  lemma {:induction false} AfterNothingIff(h: History<nat>, cutoff: int)
    ensures After(h, cutoff) == [] <==> AtMost(h, cutoff)
  {
    if h.Then? {
      AfterNothingIff(h.before, cutoff);
    }
  }

  /** A stored bucket was last refilled by the last call; a stored window is the run's own. */
  lemma StoredIsSolo(ps: Policies, events: History<Event>, k: string)
    requires ValidPolicies(ps) && TimedOn(ps, events, k) && k in StoreAfter(ps, events)
    ensures var calls, s := CallsOn(events, k), StoreAfter(ps, events)[k];
            && calls.Then? && StateMatches(ps(k), s)
            && (!ps(k).algorithm.SlidingWindow? ==> Solo(ps(k), calls) == Some(s))
            && (s.BucketState? ==> s.lastRefill == calls.last.mono)
  {
    hide Evaluate;
    var calls := CallsOn(events, k);
    StoreTracksSolo(ps, events, k);
    CallsOrdered(ps, events, k);
    if ps(k).algorithm.TokenBucket? {
      BucketRun(ps(k), calls, calls.last.mono);
    }
  }

  /** What a sweep leaves of a sliding key's deque is the admissions of the last window. */
  lemma DrainedIsHistory(ps: Policies, events: History<Event>, k: string, at: nat)
    requires ValidPolicies(ps) && TimedOn(ps, events, k) && k in StoreAfter(ps, events)
    requires ps(k).algorithm.SlidingWindow? && KeyClock(ps, events, k) <= at
    ensures var s, w := StoreAfter(ps, events)[k], ps(k).rate.windowNanos;
            && s.SlidingState? && s.windowNanos == w
            && DropStale(s.timestamps, SatSub(at, w)) == After(Admitted(ps(k), CallsOn(events, k)), SatSub(at, w))
  {
    hide Evaluate;
    var p, calls := ps(k), CallsOn(events, k);
    var s, ref, w := Lookup(StoreAfter(ps, events), k), Solo(p, calls), p.rate.windowNanos;
    StoreTracksSolo(ps, events, k);
    InterchangeableLater(p, s, ref, KeyClock(ps, events, k), at);
    CallsOrdered(ps, events, k);
    PoppedDeque(p, calls, SatSub(at, w));
  }

  /**
   A sweep that visits a key removes it exactly if its window is over, if nothing was admitted in
   the last window, or if it has not been called for an hour.
   */
  lemma SweepEvictsIff(ps: Policies, events: History<Event>, k: string, at: nat, contended: set<string>)
    requires ValidPolicies(ps) && TimedOn(ps, events, k) && k in StoreAfter(ps, events)
    requires k !in contended && KeyClock(ps, events, k) <= at
    ensures var p, calls := ps(k), CallsOn(events, k);
            calls.Then? &&
            (k !in Swept(StoreAfter(ps, events), at, contended) <==>
               match p.algorithm
               case FixedWindow => WindowStart(Solo(p, calls)) + p.rate.windowNanos <= at
               case SlidingWindow => AtMost(Admitted(p, calls), SatSub(at, p.rate.windowNanos))
               case TokenBucket => calls.last.mono + 3_600_000_000_000 <= at)
  {
    hide Evaluate;
    var p, calls := ps(k), CallsOn(events, k);
    StoredIsSolo(ps, events, k);
    CallsOrdered(ps, events, k);
    if p.algorithm.SlidingWindow? {
      DrainedIsHistory(ps, events, k, at);
      AfterNothingIff(Admitted(p, calls), SatSub(at, p.rate.windowNanos));
    } else if p.algorithm.FixedWindow? {
      FixedRun(p, calls);
    }
  }

  /** A key that stays keeps its state, but for admissions that have left the window; a contended key keeps it all. */
  lemma SweepKeeps(ps: Policies, events: History<Event>, k: string, at: nat, contended: set<string>)
    requires ValidPolicies(ps) && TimedOn(ps, events, k) && KeyClock(ps, events, k) <= at
    requires k in StoreAfter(ps, events)
    ensures k in contended ==>
              k in Swept(StoreAfter(ps, events), at, contended)
              && Swept(StoreAfter(ps, events), at, contended)[k] == StoreAfter(ps, events)[k]
    ensures k !in contended && k in Swept(StoreAfter(ps, events), at, contended) ==>
              var s, s' := StoreAfter(ps, events)[k], Swept(StoreAfter(ps, events), at, contended)[k];
              if ps(k).algorithm.SlidingWindow?
              then s' == SlidingState(After(Admitted(ps(k), CallsOn(events, k)), SatSub(at, ps(k).rate.windowNanos)),
                                      ps(k).rate.windowNanos)
              else s' == s
  {
    hide Evaluate;
    StoredIsSolo(ps, events, k);
    if ps(k).algorithm.SlidingWindow? {
      DrainedIsHistory(ps, events, k, at);
    }
  }
}
