/**
 Requests whose dimensions are checked by interleaving threads. Each thread's call belongs to
 some request, and a request is allowed if all its calls are. Whatever the schedule, the allowed
 requests that carry a key obey that key's bound.
 */
module ConcurrentRequests {
  import Arithmetic
  import opened RateConfig
  import opened Histories
  import opened KeyMachine
  import opened Sweeping
  import opened WindowBounds
  import opened BucketBounds
  import opened Interleaving

  /** The request a thread's call belongs to. */
  type RequestOf = nat -> nat

  ghost predicate RequestAllowed(s: State, requestOf: RequestOf, request: nat) {
    forall t :: t in s.threads && requestOf(t) == request ==> HasAnswer(s.threads[t].pc) && s.threads[t].pc.r.allowed
  }

  /** Times of the calls on `k` that belong to allowed requests. */
  ghost function AllowedCalls(s: State, requestOf: RequestOf, log: History<Entry>, k: string): History<nat> {
    match log
    case Start => Start
    case Then(before, e) =>
      var earlier := AllowedCalls(s, requestOf, before, k);
      if e.Called? && e.key == k && RequestAllowed(s, requestOf, requestOf(e.tid))
      then Then(earlier, e.at.mono) else earlier
  }

  lemma {:induction false} AllowedAreGranted(s: State, requestOf: RequestOf, log: History<Entry>, k: string,
                                             lo: int, hi: int)
    requires Owned(s.threads, log)
    ensures Count(AllowedCalls(s, requestOf, log, k), lo, hi) <= Count(Granted(s.threads, log, k), lo, hi)
  {
    if log.Then? {
      AllowedAreGranted(s, requestOf, log.before, k, lo, hi);
    }
  }

  /** In every interleaving, and for any grouping of calls into requests, the allowed requests obey each key's bound. */
  lemma ConcurrentBound(ps: Policies, steps: History<Step>, requestOf: RequestOf, k: string, lo: int, hi: int)
    requires ValidPolicies(ps) && Legal(ps, steps) && LockOrdered(ps, StateAfter(ps, steps).log) && lo <= hi
    ensures var s := StateAfter(ps, steps);
            var n, rate, w := Count(AllowedCalls(s, requestOf, s.log, k), lo, hi), ps(k).rate, ps(k).rate.windowNanos;
            match ps(k).algorithm
            case FixedWindow => hi == lo + w - 1 ==> n <= 2 * rate.count - 1
            case SlidingWindow => hi == lo + w - 1 && Positive(CallsOn(Events(s.log), k)) ==> n <= rate.count
            case TokenBucket => n * w <= rate.count * w + rate.count * (hi - lo)
  {
    hide Evaluate, StateAfter, Legal, RequestAllowed;
    var s, p := StateAfter(ps, steps), ps(k);
    var calls := CallsOn(Events(s.log), k);
    Linearizable(ps, steps, k);
    AlwaysOwned(ps, steps);
    AllowedAreGranted(s, requestOf, s.log, k, lo, hi);
    CallsOrdered(ps, Events(s.log), k);
    match p.algorithm {
      case FixedWindow =>
        FixedBound(p, calls, lo);
      case SlidingWindow =>
        if Positive(calls) {
          SlidingBound(p, calls, lo);
        }
      case TokenBucket =>
        BucketBound(p, calls, lo, hi);
        Arithmetic.MulMono(
          Count(AllowedCalls(s, requestOf, s.log, k), lo, hi), Count(Admitted(p, calls), lo, hi), p.rate.windowNanos);
    }
  }
}
