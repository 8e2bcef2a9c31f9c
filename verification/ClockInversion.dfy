/**
 What happens to a fixed window when the readings on its key are not in order, as the engine reads
 its clock before it takes the lock.
 */
module ClockInversion {
  import opened Outcomes
  import opened RateConfig
  import opened Histories
  import opened KeyMachine
  import opened WindowBounds
  import MemoryStore

  /** Does this call, made after these in any order, run into the unchecked subtraction's underflow? */
  predicate Underflows(p: Policy, calls: History<Stamp>, at: Stamp)
    requires ValidRate(p.rate)
  {
    var s := Solo(p, calls);
    s.Some? && s.value.FixedState? && MemoryStore.Inverted(s.value.count, s.value.windowStart, p.rate.count, at.mono)
  }

  /** A call underflows exactly when it is denied at a reading from before its window opened. */
  lemma UnderflowIff(p: Policy, calls: History<Stamp>, at: Stamp)
    requires ValidRate(p.rate) && p.algorithm.FixedWindow?
    ensures Underflows(p, calls, at) <==> at.mono < WindowStart(Solo(p, calls)) && !SoloResult(p, calls, at).allowed
  {
    SoloMatches(p, calls);
  }

  /** So never while the readings are in order. */
  lemma OrderedNeverUnderflows(p: Policy, calls: History<Stamp>, at: Stamp)
    requires ValidRate(p.rate) && p.algorithm.FixedWindow? && Ordered(Then(calls, at))
    ensures !Underflows(p, calls, at)
  {
    if calls.Then? {
      FixedRun(p, calls);
    }
  }

  /** The true wait is then longer than a whole window, where the wrapped arithmetic says one second. */
  lemma UnderflowWait(p: Policy, calls: History<Stamp>, at: Stamp)
    requires ValidRate(p.rate) && p.algorithm.FixedWindow? && Underflows(p, calls, at)
    ensures var retry := SoloResult(p, calls, at).retryAfter;
            retry.Some? && retry.value >= p.rate.windowNanos / NANOS_PER_SEC >= 1
  {
    SoloMatches(p, calls);
    UnderflowIff(p, calls, at);
  }

  /** An instance: a limit of one, a call, and a second call that read its clock before the first did. */
  lemma TwoCallsUnderflow(p: Policy)
    requires ValidRate(p.rate) && p.algorithm.FixedWindow? && p.rate.count == 1
    ensures Underflows(p, Then(Start, Stamp(2, 0)), Stamp(1, 0))
  {
    WindowOpens(p, Start, Stamp(2, 0));
  }
}
