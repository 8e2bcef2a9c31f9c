/**
 The fixed window in Redis: `INCR`, `EXPIRE` on the first hit, `TTL`. The counter runs past
 the limit and the window closes by expiry, yet on whole-second clocks every answer is the
 in-process one.
 */
module RedisFixed {
  import opened Outcomes
  import opened RateConfig
  import opened Histories
  import opened KeyMachine
  import opened WindowBounds
  import opened RedisServer

  datatype Reply = Reply(current: nat, ttl: int)

  function FixedScript(e: Option<Entry<nat>>, d: Dim, now: int): (Option<Entry<nat>>, Reply) {
    var live := LiveAt(e, now);
    var counted := if live.Some? then live.value.(value := live.value.value + 1) else Entry(1, None);
    var stored := if counted.value == 1 then counted.(expireAt := Some(now + d.windowSecs)) else counted;
    (Some(stored), Reply(stored.value, Ttl(stored, now)))
  }

  function Interpret(r: Reply, limit: nat, nowUnix: int): DimResult {
    var reset := nowUnix + Max(r.ttl, 0);
    if r.current > limit
    then DimResult(false, limit, 0, reset, Some(Max(r.ttl, 1)))
    else DimResult(true, limit, limit - r.current, reset, None)
  }

  function DimOf(rate: RateLimit): Dim {
    Dim(rate.count, rate.windowNanos / NANOS_PER_SEC)
  }

  /** The key after the given calls; the server clock is the callers' Unix clock. */
  function Stored(rate: RateLimit, calls: History<Stamp>): Option<Entry<nat>> {
    match calls
    case Start => None
    case Then(before, at) => FixedScript(Stored(rate, before), DimOf(rate), at.unix).0
  }

  function RedisResult(rate: RateLimit, calls: History<Stamp>, at: Stamp): DimResult {
    Interpret(FixedScript(Stored(rate, calls), DimOf(rate), at.unix).1, rate.count, at.unix)
  }

  /** In-process count = Redis count cut at the limit; expiry = end of the window. */
  predicate Simulates(rate: RateLimit, s: Option<KeyState>, e: Option<Entry<nat>>, offset: int) {
    if s.None? then e.None?
    else
      && s.value.FixedState? && e.Some?
      && e.value.value >= 1
      && s.value.count == Min(e.value.value, rate.count)
      && s.value.windowStart == s.value.windowStartUnix * NANOS_PER_SEC + offset
      && e.value.expireAt == Some(s.value.windowStartUnix + rate.windowNanos / NANOS_PER_SEC)
  }

  lemma CallSimulates(p: Policy, s: Option<KeyState>, e: Option<Entry<nat>>, at: Stamp, offset: int)
    requires ValidRate(p.rate) && p.algorithm.FixedWindow?
    requires Simulates(p.rate, s, e, offset)
    requires at.mono == at.unix * NANOS_PER_SEC + offset
    requires s.Some? ==> s.value.windowStart <= at.mono
    ensures var (s', r) := Advance(p, s, at);
            var (e', reply) := FixedScript(e, DimOf(p.rate), at.unix);
            && r == Interpret(reply, p.rate.count, at.unix)
            && Simulates(p.rate, Some(s'), e', offset)
  {
  }

  lemma {:induction false} RunSimulates(p: Policy, calls: History<Stamp>, offset: int)
    requires ValidRate(p.rate) && p.algorithm.FixedWindow? && Ordered(calls) && WholeSeconds(calls, offset)
    ensures Simulates(p.rate, Solo(p, calls), Stored(p.rate, calls), offset)
  {
    hide Evaluate, FixedScript;
    if calls.Then? {
      RunSimulates(p, calls.before, offset);
      if calls.before.Then? {
        FixedRun(p, calls.before);
      }
      CallSimulates(p, Solo(p, calls.before), Stored(p.rate, calls.before), calls.last, offset);
    }
  }

  /** On whole-second clocks Redis and the in-process store answer every call alike. */
  lemma FixedRefines(p: Policy, calls: History<Stamp>, at: Stamp, offset: int)
    requires ValidRate(p.rate) && p.algorithm.FixedWindow?
    requires Ordered(Then(calls, at)) && WholeSeconds(Then(calls, at), offset)
    ensures RedisResult(p.rate, calls, at) == SoloResult(p, calls, at)
  {
    hide Evaluate, FixedScript, Interpret;
    RunSimulates(p, calls, offset);
    if calls.Then? {
      FixedRun(p, calls);
    }
    CallSimulates(p, Solo(p, calls), Stored(p.rate, calls), at, offset);
  }
}
