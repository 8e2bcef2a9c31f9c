# Verified models of the rate limiter, the PII span pipeline and the output length guard

Dafny models of three Rust plugins, with proofs about every run, every input and every
interleaving of them. `dafny verify dfyconfig.toml` checks the whole project.

## What is modelled

**Rate limiter.** `KeyMachine` is the reference: fixed window, sliding log and integer token
bucket as one state machine per key in exact arithmetic; `Solo` runs it over the calls of a key
that is never evicted. Everything else is compared with it.

- `Sweeping` adds the key table and the sweep, and proves that eviction is unobservable.
- `MemoryStore` is the imperative store: a class over a map, 64- and 128-bit arithmetic with
  explicit wrap-around, the deque popped from the front, the amortised sweep. Every method is
  proved equal to the reference, which also shows that nothing overflows.
- `WindowBounds`, `BucketBounds`, `RetryAfter` and `Reports` hold the bounds over whole runs and how
  far the reported waits, resets and remaining counts can be trusted.
- `Eviction` says what a sweep removes, in terms of the calls made.
- `Interleaving` splits a call into the steps of its locks and lets any number of threads interleave;
  `SweepSchedule` counts their sweeps.
- `RedisServer` models keys with expiry and uninterrupted scripts. `RedisFixed`, `RedisSliding` and
  `RedisBucket` model the three Lua scripts key by key, and `RedisReports` says what the bucket's answers
  promise. `RedisBackend` runs them over batches in a shared database and compares the verdicts with
  the in-process engine. `ScriptCache` is the EVALSHA/EVAL protocol, `ScriptRecovery` what makes a
  call fail or load the script again.
- `RateConfig`, `Keys`, `Engine` and `Aggregation` cover rate strings, dimension keys, requests
  over several dimensions, and the verdict. `KeyCollisions` says exactly when requests share a
  counter, and `ConcurrentRequests` carries the request bounds over to interleaving threads.
  `RedisRequests` does so for Redis, and ties the members sent to the processes' counters.

**PII filter.** `PiiSpans` (overlap resolution), `PiiTies` (which of equal spans wins), `PiiCoverage` (what it leaves uncovered), `PiiMasking` (validation and splicing on UTF-8
bytes), `PiiOrders` (which detection maps are masked in every listing order), `PiiNested` (containers), `Luhn` (card numbers), over the stable sort of `Sorting`. `Utf8Form` ties the bytes to the characters of `Text`.

**Output length guard.** `Truncation` (byte offsets, word boundaries, character and token mode)
and `LengthGuard` (nested values, both strategies).

Histories are a datatype with the latest entry outermost (`Histories`); `Count(h, lo, hi)` counts
the recorded times in a closed interval.

## Assumptions

- Key by key, monotonic readings do not decrease in the order in which that key's lock is taken, by
  calls on it and by sweeps that visit it. Calls on different keys may overtake each other. The
  engine reads its clock before locking (`engine.rs:288`), so this is a premise, not a consequence;
  `ClockInversion` says what happens to a fixed window without it. Readings stay at least an hour of
  nanoseconds below 2^64. Only theorems about the contents of the sliding window also need readings
  of at least 1: the saturated cutoff drops a timestamp of 0.
- Each key is always used with one limit, window and algorithm, from a parsed rate string.
  `KeyCollisions.PoliciesExistIff` says for which sets of requests this can hold at all.
- A Redis key is gone once its time to live has elapsed; a script runs without interruption; the
  server clock is the Unix clock the callers pass. The comparisons with the in-process store are
  on whole-second clocks, since Redis is given whole seconds.
- A SHA names one script. The regex engine yields matches on character boundaries of the text;
  only custom patterns may match the empty text. The library sort is stable.

## What the proofs found

- **Fixed window.** The documentation promises at most twice the limit in one window length. The
  code gives `2 * limit - 1`, and that is reached for every configuration: a window opens with the
  admission that starts it, so an interval meeting two windows misses the first call of the
  earlier one. The documentation also speaks of fixed slots such as "minute 14:03"; in the code a
  window starts with the first request.
- **Waiting times of the windows** are rounded down, so a caller who waits exactly as told is
  denied again unless the true wait is under a second or a whole number of seconds
  (`WindowRetryShort`; `WindowRetryTooShort` is an instance for both windows). One second more
  always suffices. The token bucket's waiting time is exact.
- **Polling starves a token bucket** exactly when `limit * 1000 * gap < window`: each poll restarts
  the refill and the rounding discards what it earned (`PollingStarvesIff`). A bucket of one call an
  hour polled every second never admits again (`HourlyBucketStarves`). The bucket in Redis does not
  round, and there deleting all denied calls changes no answer (`DenialsHarmless`).
- **Sliding window in Redis.** Set and deque agree throughout a run exactly when no admission reuses
  a member still in the window (`AlwaysSameIff`). Two draws coincide exactly when different processes
  with one pid draw at the same time after equally many draws (`MembersCollideIff`); the second
  admission then replaces the first and the limit is exceeded (`SharedMemberUndercounts`).
  The script sets the expiry before it adds, so a key that held nothing is stored without one
  (`FirstUseNeverExpires`); no answer changes.
- **Keys.** Nothing escapes colons. Under one prefix, one key serves two rates exactly when the two
  user limits differ and one user's name is another's followed by `:server:` and that request's
  server id (`TwoRatesIff`, instance `ColonCollision`). `TwoRatesAnyPrefixIff` is the condition across
  prefixes, with `PrefixCollision` as an instance.
- **Clock inversion.** A fixed window's unchecked subtraction underflows exactly when a full window is
  called at a reading from before it opened (`UnderflowIff`). The wrapped value then reports one
  second, where the true wait is more than a window; a build with overflow checks stops instead.
- **Overlaps.** A dropped candidate may reach past the span that displaced it, and that tail stays in
  the text. `CoveredIff` says exactly when no such tail is left; `TailLeft` is an instance.
- **Masking.** The validator accepts an empty span beside a non-empty one with the same start. If
  the map lists the non-empty one first, masking slices backwards. `FaultIff` says exactly when for
  a listing, and `MapFaultsIff` for the map, whatever order it lists its types in; detections that
  the detector itself reports never do this (`DetectThenMask`).
- **Token-mode truncation** is idempotent exactly when the first pass changes nothing or ends within
  budget, or the part of the ellipsis that falls back within the budget and the byte cap does not
  move the cut (`TokenTwiceIff`). While the byte cap is idle that means: no word end in that part
  (`TokenTwiceUncapped`), so the default ellipsis is safe (`DefaultIdempotent`) and three dots
  are not (`TokenTruncationUnstable`).

## Model

| member | source | states |
|---|---|---|
| Sweeping.SweepUnobservable | plugins/rust/python-package/rate_limiter/src/memory.rs:92-185 | After any sequence of calls on all keys and sweeps that evict or drain any stale keys, every answer is the one of a store that never evicts and holds only that key. |
| Sweeping.StoreTracksSolo | plugins/rust/python-package/rate_limiter/src/memory.rs:92-185 | The invariant behind it: a stored state answers every later call as the never-evicted one would; a missing key is one the sweep was entitled to drop. |
| Sweeping.CallAgrees | plugins/rust/python-package/rate_limiter/src/memory.rs:136-185 | Interchangeable states give the same answer and leave interchangeable states, for all three algorithms. |
| Sweeping.IdleHourFills | plugins/rust/python-package/rate_limiter/src/memory.rs:31-33 | An hour without calls fills every bucket a rate string can configure, which is why an evicted bucket may be recreated full. |
| Eviction.SweepEvictsIff | plugins/rust/python-package/rate_limiter/src/memory.rs:92-129 | A sweep that visits a key removes it iff its window is over, nothing was admitted in the last window, or it has not been called for an hour. |
| Eviction.SweepKeeps | plugins/rust/python-package/rate_limiter/src/memory.rs:92-129 | A key that stays keeps its state, but for admissions that have left the window; a contended key keeps it all. |
| MemoryStore.RunFixedWindow | plugins/rust/python-package/rate_limiter/src/memory.rs:262-307 | The 64-bit fixed window equals the exact one, state and answer, except when a full window is called at a reading from before it opened; exactly then the subtraction underflows, and the answer is a denial that says one second. |
| MemoryStore.PopStale | plugins/rust/python-package/rate_limiter/src/memory.rs:317-320 | The front-popping loop removes exactly the leading stale timestamps. |
| MemoryStore.RunSlidingWindow | plugins/rust/python-package/rate_limiter/src/memory.rs:309-358 | The sliding window on its deque equals the exact one: state and answer, with no overflow. |
| MemoryStore.RefillTokens | plugins/rust/python-package/rate_limiter/src/memory.rs:371-377 | The refill by a 128-bit product narrowed to 64 bits is the exact capped share: nothing overflows or is cut off. |
| MemoryStore.FullAfter | plugins/rust/python-package/rate_limiter/src/memory.rs:385-392 | The narrowed computation of the seconds to a full bucket is exact. |
| MemoryStore.TokenAfter | plugins/rust/python-package/rate_limiter/src/memory.rs:402-406 | The computation of the seconds to one token is exact. |
| MemoryStore.RunTokenBucket | plugins/rust/python-package/rate_limiter/src/memory.rs:361-416 | The 64-bit token bucket equals the exact one: state and answer. |
| MemoryStore.StoreInRange | plugins/rust/python-package/rate_limiter/src/memory.rs:40-66 | Every state reachable in the evicting store keeps the bounds that make the 64-bit arithmetic exact. |
| MemoryStore.Store.constructor | plugins/rust/python-package/rate_limiter/src/memory.rs:79-90 | A new store holds no key. |
| MemoryStore.Store.Sweep | plugins/rust/python-package/rate_limiter/src/memory.rs:92-129 | The sweep, visiting keys in any order, leaves exactly the contended keys untouched and the drained keys that are not stale. |
| MemoryStore.Store.Retain | plugins/rust/python-package/rate_limiter/src/memory.rs:99-126 | One key is drained, then kept iff it is not stale. |
| MemoryStore.Store.EvaluateState | plugins/rust/python-package/rate_limiter/src/memory.rs:219-260 | Dispatch runs the algorithm of the stored state and agrees with the exact one. |
| MemoryStore.Store.CheckAndIncrement | plugins/rust/python-package/rate_limiter/src/memory.rs:136-185 | The answer is that of the key's own never-evicted run, whatever else happened; the store gains this call, and a sweep exactly when the call counter is a positive multiple of 128. |
| MemoryStore.Store.NewState | plugins/rust/python-package/rate_limiter/src/memory.rs:193-217 | Fresh state of each algorithm. |
| WindowBounds.SlidingDequeIsHistory | plugins/rust/python-package/rate_limiter/src/memory.rs:316-334 | After every call the deque is exactly the admitted times in (now - window, now], in order. |
| WindowBounds.SlidingAdmitsIff | plugins/rust/python-package/rate_limiter/src/memory.rs:322-358 | A call is admitted iff fewer than limit admissions really lie in the window ending now; the remaining count says how many more fit. |
| WindowBounds.SlidingBound | plugins/rust/python-package/rate_limiter/src/memory.rs:309-358 | In any run, every interval of one window length holds at most limit admissions. |
| WindowBounds.FixedRun | plugins/rust/python-package/rate_limiter/src/memory.rs:262-307 | In any run the counter is the number of admissions since the window start, and the window length before it admitted fewer than limit. |
| WindowBounds.WindowsApart | plugins/rust/python-package/rate_limiter/src/memory.rs:271-276 | Window starts are at least one window apart. |
| WindowBounds.WindowAdmits | plugins/rust/python-package/rate_limiter/src/memory.rs:285-295 | Each window of a run admits at most limit calls. |
| WindowBounds.FixedDeniesIff | plugins/rust/python-package/rate_limiter/src/memory.rs:285-306 | A call is denied iff its window is open and has admitted limit calls. |
| WindowBounds.FixedBound | plugins/rust/python-package/rate_limiter/src/memory.rs:262-307 | In any run, every interval of one window length holds at most 2 * limit - 1 admissions. |
| WindowBounds.FixedBoundTight | plugins/rust/python-package/rate_limiter/src/memory.rs:262-307 | For every configuration some run reaches 2 * limit - 1. |
| WindowBounds.ResetConstant | plugins/rust/python-package/rate_limiter/src/memory.rs:281-283 | All answers within one window report the same reset time. |
| ClockInversion.UnderflowIff | plugins/rust/python-package/rate_limiter/src/memory.rs:295-298 | After calls in any order, a call underflows iff it is denied at a reading from before its window opened. |
| ClockInversion.OrderedNeverUnderflows | plugins/rust/python-package/rate_limiter/src/memory.rs:295-298 | It never does while the readings on the key are in order. |
| ClockInversion.UnderflowWait | plugins/rust/python-package/rate_limiter/src/memory.rs:295-304 | The true wait is then at least a whole window. |
| ClockInversion.TwoCallsUnderflow | plugins/rust/python-package/rate_limiter/src/memory.rs:295-298 | An instance of two calls, the second with the earlier reading. |
| WindowBounds.StoreAdmitsAsSolo | plugins/rust/python-package/rate_limiter/src/memory.rs:92-185 | The evicting store admits exactly the calls the never-evicting run admits. |
| WindowBounds.StoreWindowBound | plugins/rust/python-package/rate_limiter/src/memory.rs:92-358 | The window bounds hold of the evicting store for every key and interval. |
| BucketBounds.BucketRun | plugins/rust/python-package/rate_limiter/src/memory.rs:361-416 | Tokens spent since any time plus those left never exceed one capacity plus what the elapsed time is worth, although each refill rounds down. |
| BucketBounds.BucketBound | plugins/rust/python-package/rate_limiter/src/memory.rs:361-416 | In any run and interval from s to t: admitted * window <= limit * window + limit * (t - s). |
| BucketBounds.StoreBucketBound | plugins/rust/python-package/rate_limiter/src/memory.rs:92-185 | The same rate bound for the evicting store. |
| RetryAfter.WaitIsCeiling | plugins/rust/python-package/rate_limiter/src/memory.rs:402-406 | Two floors and a ceiling give the ceiling of the true wait; this rests on counts up to 1,000,000 and whole-second windows. |
| RetryAfter.BucketRetryExact | plugins/rust/python-package/rate_limiter/src/memory.rs:401-414 | A denied caller of a quiet bucket is admitted after k seconds iff k is at least the reported wait. |
| RetryAfter.PollingStarvesIff | plugins/rust/python-package/rate_limiter/src/memory.rs:371-377 | An empty bucket polled at a fixed gap is never admitted again iff limit * 1000 * gap < window. |
| RetryAfter.DeniedPolls | plugins/rust/python-package/rate_limiter/src/memory.rs:371-377 | What any number of denied polls does to the balance: nothing below that gap, at least one milli-token each above it. |
| RetryAfter.WindowReopens | plugins/rust/python-package/rate_limiter/src/memory.rs:295-305 | After a denial a quiet window admits exactly from the end of the window, or of the oldest timestamp, on; the report is that wait in whole seconds, at least 1. |
| RetryAfter.WindowRetryShort | plugins/rust/python-package/rate_limiter/src/memory.rs:295-358 | For both windows, waiting one second more than reported always suffices; waiting exactly as reported suffices iff the true wait is under a second or a whole number of seconds. |
| RetryAfter.WindowRetryTooShort | plugins/rust/python-package/rate_limiter/src/memory.rs:295-358 | An instance under either window: told to wait 59 seconds, a caller who does is denied again. |
| RetryAfter.HourlyBucketStarves | plugins/rust/python-package/rate_limiter/src/memory.rs:371-377 | An instance: a used bucket of one call an hour denies every later call of a caller who returns each second. |
| RetryAfter.FullDeque | plugins/rust/python-package/rate_limiter/src/memory.rs:343-357 | A sliding denial leaves exactly limit live timestamps and reports the wait for the oldest. |
| RetryAfter.DequeWithin | plugins/rust/python-package/rate_limiter/src/memory.rs:333-334 | A sliding key never stores more than limit timestamps. |
| Reports.RemainingExact | plugins/rust/python-package/rate_limiter/src/memory.rs:285-295 | For all three algorithms the remaining count is exact: of further calls made at the same instant the first that many are admitted, and no other. |
| Reports.BucketResetWithin | plugins/rust/python-package/rate_limiter/src/memory.rs:384-393 | A bucket left alone after an admission is not yet full a second before the reported reset time, and is full a second after it. |
| Reports.AnswerFields | plugins/rust/python-package/rate_limiter/src/memory.rs:262-416 | Every answer names the configured limit; a denial has nothing remaining and a wait of at least a second, an admission no wait; a bucket resets when its wait ends. |
| Reports.RefillExact | plugins/rust/python-package/rate_limiter/src/memory.rs:371-377 | A bucket left alone holds at least v milli-tokens iff what the time is worth makes up the difference: rounding loses less than one. |
| Reports.BucketResetExact | plugins/rust/python-package/rate_limiter/src/memory.rs:384-393 | The reset time after an admission is the most whole seconds that earn no more than is missing, and at least one. |
| WindowBounds.SlidingCall | plugins/rust/python-package/rate_limiter/src/memory.rs:309-358 | The fields of a sliding answer in terms of the live deque, the reset time among them. |
| WindowBounds.ResetReported | plugins/rust/python-package/rate_limiter/src/memory.rs:278-283 | A fixed window reports the Unix time of its opening plus its length. |
| Interleaving.StepInvariant | plugins/rust/python-package/rate_limiter/src/memory.rs:145-185 | Lookup, evaluation, insertion, counting and sweeping by any thread keep the store equal to the sequential one in lock order. |
| Interleaving.Reachable | plugins/rust/python-package/rate_limiter/src/memory.rs:145-185 | The invariant holds in every reachable state of any number of threads, with readings in order key by key only. |
| Interleaving.Linearizable | plugins/rust/python-package/rate_limiter/src/memory.rs:145-185 | In every interleaving each call evaluates exactly once and gets the answer of its key's run in lock order, and the admissions granted on a key are exactly those of that run: two threads that both miss cannot both start fresh. |
| SweepSchedule.SweepsDue | plugins/rust/python-package/rate_limiter/src/memory.rs:179-183 | In every run of the threads, sweeps made and sweeps owed are together one for every 128 calls counted after the first. |
| RateConfig.ParseRate | plugins/rust/python-package/rate_limiter/src/config.rs:55-83 | Whatever is accepted has a count from 1 to 1,000,000 and a window of 1, 60 or 3600 seconds. |
| RateConfig.ParseRateRoundTrip | plugins/rust/python-package/rate_limiter/src/config.rs:55-83 | Every count with each of the nine unit words, in any case and with any padding, parses to that count a second, a minute or an hour, or to the error for zero, for a count above the ceiling, or for one above 64 bits. |
| RateConfig.ParseRateIff | plugins/rust/python-package/rate_limiter/src/config.rs:55-83 | An input gives a rate iff it says a count from 1 to 1,000,000 (a numeral, perhaps after zeros or a plus sign) and one of the nine unit words, with the window written out for each. |
| RateConfig.ParseRateErrors | plugins/rust/python-package/rate_limiter/src/config.rs:55-83 | Which inputs give the zero error and which the ceiling error; a bad count is reported before a bad unit. |
| RateConfig.ParseU64Iff | plugins/rust/python-package/rate_limiter/src/config.rs:61-64 | The number parser accepts exactly numerals up to 64 bits, perhaps after zeros, perhaps after a plus sign. |
| Text.TrimMeans | plugins/rust/python-package/rate_limiter/src/config.rs:56 | Trimming takes off white space only, and all of it. |
| Text.SpaceIff | plugins/rust/python-package/rate_limiter/src/config.rs:56 | White space, character by character. |
| Text.ToLowerMeans | plugins/rust/python-package/rate_limiter/src/config.rs:73 | Lower-casing a word written with any capitals gives the word. |
| Text.LowerMeans | plugins/rust/python-package/rate_limiter/src/config.rs:73 | The twenty-six capitals become small letters; nothing else changes. |
| Aggregation.AggregateMeaning | plugins/rust/python-package/rate_limiter/src/types.rs:105-159 | The request is allowed iff every dimension is; a denial reports the limit, reset and wait of a blocked dimension with the smallest wait, an admission the limit, remaining and reset of a dimension with the least remaining. |
| Aggregation.ReportPartitions | plugins/rust/python-package/rate_limiter/src/types.rs:105-159 | The violated and passed lists partition the dimensions: each appears once with its remaining count and reset, a blocked one as violated with its wait and an admitting one as passed without. |
| Aggregation.VerdictSource | plugins/rust/python-package/rate_limiter/src/types.rs:105-159 | Ties go to the dimension checked first; with nothing to check the request is allowed without limit. |
| Keys.JoinInjective | plugins/rust/python-package/rate_limiter/src/engine.rs:424-469 | Colon-joined keys of colon-free parts determine their parts. |
| Engine.ValidatedServerId | plugins/rust/python-package/rate_limiter/src/engine.rs:93-117 | Without a per-server limit the id is ignored; with one, it is accepted iff its trimmed form is non-empty, at most 128 bytes and made of the permitted characters, and that form, which has no colon, is what is returned. |
| Engine.ServerIdCharIff | plugins/rust/python-package/rate_limiter/src/engine.rs:107-115 | The permitted characters: ASCII letters and digits, hyphen, underscore and period. |
| Engine.DimensionsAre | plugins/rust/python-package/rate_limiter/src/engine.rs:424-469 | Every configured limit whose subject the request names is checked, at its own rate and under its own key, in the order user, user with server, tenant, tool. |
| Engine.CheckedIff | plugins/rust/python-package/rate_limiter/src/engine.rs:424-469 | A dimension is checked iff one of four written-out cases holds. |
| Engine.AllowedIff | plugins/rust/python-package/rate_limiter/src/engine.rs:284-310 | A request is allowed iff the run of every configured subject it names admits it. |
| Engine.KeysDistinct | plugins/rust/python-package/rate_limiter/src/engine.rs:424-469 | The keys of one request are pairwise distinct, whatever the identity. |
| KeyCollisions.SameKeyIff | plugins/rust/python-package/rate_limiter/src/engine.rs:424-469 | Under one prefix, two dimensions share a key iff they are the same slot of the same subject, or the one user name continues the other with its server. |
| KeyCollisions.TwoRatesIff | plugins/rust/python-package/rate_limiter/src/engine.rs:424-469 | Under one prefix and whatever colons the identities hold, some key of two requests has two rates iff the user limits differ and one user nests in the other request's user and server. |
| KeyCollisions.UnequalPrefixesIff | plugins/rust/python-package/rate_limiter/src/engine.rs:424-469 | Under different prefixes two keys are equal iff the longer prefix continues the shorter one into its text. |
| KeyCollisions.TwoRatesAnyPrefixIff | plugins/rust/python-package/rate_limiter/src/engine.rs:424-469 | Under any prefixes, one key has two rates iff two configured slots with different rates share it in that sense. |
| KeyCollisions.ColonCollision | plugins/rust/python-package/rate_limiter/src/engine.rs:424-469 | A concrete pair of requests with one key and two rates. |
| KeyCollisions.PrefixCollision | plugins/rust/python-package/rate_limiter/src/engine.rs:424-469 | A concrete collision between an unprefixed and a prefixed request. |
| KeyCollisions.ApartNeverShare | plugins/rust/python-package/rate_limiter/src/engine.rs:424-469 | Keys under two prefixes that are not empty and do not continue each other are never equal. |
| KeyCollisions.ColonFreeCompatible | plugins/rust/python-package/rate_limiter/src/engine.rs:424-469 | Requests without colons in their identities never clash, under any prefixes. |
| KeyCollisions.PoliciesExistIff | plugins/rust/python-package/rate_limiter/src/engine.rs:424-469 | There are valid policies under which each of a set of requests may be checked iff no two of the requests clash. |
| KeyCollisions.PromptDimensions | plugins/rust/python-package/rate_limiter/src/engine.rs:80-84 | A prompt carries exactly the dimensions of a tool call without a server. |
| Engine.RedisKeyInjective | plugins/rust/python-package/rate_limiter/src/redis_backend.rs:709-712 | Equal Redis keys come from equal dimension keys and equal windows, colons or not. |
| Engine.RedisKeyIs | plugins/rust/python-package/rate_limiter/src/redis_backend.rs:709-712 | The key is the prefix, the dimension key and 1, 60 or 3600, joined by colons. |
| Engine.RateLimiter.constructor | plugins/rust/python-package/rate_limiter/src/engine.rs:70-76 | A new engine has served nothing. |
| Engine.RateLimiter.AskAll | plugins/rust/python-package/rate_limiter/src/engine.rs:286-302 | Every dimension gets the answer of its own run and each carried key gains exactly this call, denied or not. |
| Engine.RateLimiter.Check | plugins/rust/python-package/rate_limiter/src/engine.rs:257-310 | A tool or prompt request either fails validation and changes nothing, or gets the aggregate of its keys' own runs, on a store both kinds of request share; it is allowed iff every configured subject's run admits it, and a prompt never fails and is not held to the per-server limit. |
| Engine.VerdictMeaning | plugins/rust/python-package/rate_limiter/src/engine.rs:284-310 | A request is allowed iff every key it carries admits it; a denial reports the minimum wait over the blocked keys. |
| Engine.AllowedIsAdmitted | plugins/rust/python-package/rate_limiter/src/engine.rs:284-310 | In any interval of any run, the allowed requests carrying a key are at most the admissions of that key. |
| Engine.RequestBound | plugins/rust/python-package/rate_limiter/src/engine.rs:80-84 | So in any run of tool and prompt requests the allowed requests carrying one key obey that key's bound, for each algorithm. |
| ConcurrentRequests.ConcurrentBound | plugins/rust/python-package/rate_limiter/src/engine.rs:284-310 | The same in every interleaving of threads, requests with different readings included, and for any grouping of calls into requests; readings are in order key by key only. |
| RedisServer.Server.constructor | plugins/rust/python-package/rate_limiter/src/redis_backend.rs:31-42 | An empty database. |
| RedisServer.Server.Eval | plugins/rust/python-package/rate_limiter/src/redis_backend.rs:31-108 | A script loops over its keys in order, each seeing what the ones before it left. |
| RedisServer.BatchIndependent | plugins/rust/python-package/rate_limiter/src/redis_backend.rs:31-108 | With distinct keys every reply and every stored value depends on that key alone, and other keys are untouched. |
| RedisFixed.CallSimulates | plugins/rust/python-package/rate_limiter/src/redis_backend.rs:31-42 | One call keeps memory count = min(Redis count, limit) and expiry = window end, and both sides answer alike. |
| RedisFixed.RunSimulates | plugins/rust/python-package/rate_limiter/src/redis_backend.rs:31-42 | That relation holds after every whole-second run. |
| RedisFixed.FixedRefines | plugins/rust/python-package/rate_limiter/src/redis_backend.rs:728-776 | On every whole-second run the fixed window in Redis and in process answer alike, reset and wait included. |
| RedisSliding.KeptIgnoresExpiry | plugins/rust/python-package/rate_limiter/src/redis_backend.rs:44-71 | An expired sorted set held only stale scores: what a call keeps does not depend on expiry. |
| RedisSliding.KeptIs | plugins/rust/python-package/rate_limiter/src/redis_backend.rs:44-71 | A call reads what was stored until it expires, less the scores at or before the cutoff. |
| RedisSliding.RunSimulates | plugins/rust/python-package/rate_limiter/src/redis_backend.rs:44-71 | After every whole-second run in which no admission reuses a member still in the window, the scores are the deque's times, rank by rank. |
| RedisSliding.SlidingRefines | plugins/rust/python-package/rate_limiter/src/redis_backend.rs:781-837 | On every such run the sliding window in Redis and in process answer alike. |
| RedisSliding.AlwaysSameIff | plugins/rust/python-package/rate_limiter/src/redis_backend.rs:44-71 | Scores and deque agree after every call of a run iff every admitted call's member was new to what the script kept. |
| RedisSliding.DistinctIsLive | plugins/rust/python-package/rate_limiter/src/redis_backend.rs:110-128 | Members never used before satisfy that condition. |
| RedisSliding.MembersCollideIff | plugins/rust/python-package/rate_limiter/src/redis_backend.rs:110-128 | Two draws coincide iff different processes with one pid draw at the same time after equally many draws. |
| RedisSliding.DrawsDistinct | plugins/rust/python-package/rate_limiter/src/redis_backend.rs:110-128 | Where pids name processes, no two draws coincide. |
| RedisSliding.RecordedIff | plugins/rust/python-package/rate_limiter/src/redis_backend.rs:61 | Adding grows the set iff the member is new. |
| RedisSliding.SharedMemberUndercounts | plugins/rust/python-package/rate_limiter/src/redis_backend.rs:110-128 | Two processes that share a pid draw one member, and a limit of 2 admits three calls in one second. |
| RedisSliding.FirstUseNeverExpires | plugins/rust/python-package/rate_limiter/src/redis_backend.rs:54-62 | The key a first admission creates is stored without expiry, and only such a key is. |
| RedisBucket.ExpiryTracks | plugins/rust/python-package/rate_limiter/src/redis_backend.rs:73-108 | With and without expiry the same bucket is stored, and the key outlives the refill. |
| RedisBucket.ExpiryUnobservable | plugins/rust/python-package/rate_limiter/src/redis_backend.rs:73-108 | In exact arithmetic every call gets the answer of a server that never expires keys. |
| RedisBucket.RedisBucketBound | plugins/rust/python-package/rate_limiter/src/redis_backend.rs:73-108 | Whatever expires, every interval admits at most the capacity plus what it earns. |
| RedisBucket.RedisRetryExact | plugins/rust/python-package/rate_limiter/src/redis_backend.rs:842-897 | A denied caller of a quiet bucket is admitted after k seconds iff k is at least the reported wait. |
| RedisBucket.DenialsHarmless | plugins/rust/python-package/rate_limiter/src/redis_backend.rs:89-103 | Deleting all denied calls from any run changes no answer. |
| RedisBucket.RedisResetFull | plugins/rust/python-package/rate_limiter/src/redis_backend.rs:714-722 | By the reset time reported with an admission a bucket left alone is full. |
| RedisReports.RedisRateBound | plugins/rust/python-package/rate_limiter/src/redis_backend.rs:73-108 | In whole numbers: admitted * window <= limit * window + limit * (t - s), whatever expires. |
| RedisReports.HeldIs | plugins/rust/python-package/rate_limiter/src/redis_backend.rs:73-108 | The balance: a missing key counts as full, an admission takes one, and time adds the limit a window up to the limit. |
| RedisReports.AnswerFields | plugins/rust/python-package/rate_limiter/src/redis_backend.rs:842-897 | The limit; on admission the whole tokens left, on denial nothing remaining and the time the wait ends. |
| RedisReports.RemainingExact | plugins/rust/python-package/rate_limiter/src/redis_backend.rs:842-897 | Of further calls in the same second exactly the first that many are admitted. |
| RedisReports.ResetExact | plugins/rust/python-package/rate_limiter/src/redis_backend.rs:714-722 | The reset after an admission is the least whole seconds that fill the bucket from the whole tokens reported. |
| RedisReports.GoneWithinWindow | plugins/rust/python-package/rate_limiter/src/redis_backend.rs:73-108 | A key left alone is gone one second after a whole window at the latest. |
| RedisReports.FoundIff | plugins/rust/python-package/rate_limiter/src/redis_backend.rs:73-108 | A call finds what was stored exactly until it expires. |
| RedisBackend.KeysIndependent | plugins/rust/python-package/rate_limiter/src/redis_backend.rs:31-108 | In the shared database each key holds what its own visits alone put there. |
| RedisBackend.EvalFixed | plugins/rust/python-package/rate_limiter/src/redis_backend.rs:728-776 | A batch of fixed windows: the database gains this batch, and each result is the in-process answer for that key's visits. |
| RedisBackend.EvalSliding | plugins/rust/python-package/rate_limiter/src/redis_backend.rs:781-837 | The same for sliding windows while no admission reuses a member still in its key's window. |
| RedisBackend.EvalTokenBucket | plugins/rust/python-package/rate_limiter/src/redis_backend.rs:842-897 | The same for token buckets, with the answer of the exact bucket whose key expires. |
| RedisBackend.VisitsAreRequests | plugins/rust/python-package/rate_limiter/src/engine.rs:321-390 | A Redis key is visited by exactly the requests that carry its dimension. |
| RedisBackend.CheckFixed | plugins/rust/python-package/rate_limiter/src/engine.rs:355-390 | A request checked against fixed windows in Redis gets the very verdict the in-process engine gives after the same requests. |
| RedisBackend.CheckSliding | plugins/rust/python-package/rate_limiter/src/engine.rs:355-390 | The same for sliding windows while no admission reuses a member still in its key's window. |
| RedisBackend.FreshIsLive | plugins/rust/python-package/rate_limiter/src/redis_backend.rs:110-128 | Members no earlier request used satisfy that condition for every key of a request. |
| RedisRequests.DrawnAreFresh | plugins/rust/python-package/rate_limiter/src/redis_backend.rs:110-128 | Where pids name processes, requests whose members are drawn from the processes' counters never reuse a member, in whatever order they reach the server. |
| RedisRequests.DrawnMembersLive | plugins/rust/python-package/rate_limiter/src/redis_backend.rs:781-837 | So each of them meets the premise of CheckSliding. |
| RedisRequests.CheckTokenBucket | plugins/rust/python-package/rate_limiter/src/engine.rs:355-390 | A request checked against token buckets in Redis gets the aggregate of its keys' own exact buckets. |
| RedisRequests.AllowedByBucket | plugins/rust/python-package/rate_limiter/src/engine.rs:355-390 | In any interval the allowed requests carrying a key are at most the admissions of its bucket. |
| RedisRequests.RedisRequestBound | plugins/rust/python-package/rate_limiter/src/engine.rs:355-390 | In any run against Redis the allowed requests carrying a key obey, in any interval, admitted * window <= limit * window + limit * (t - s). |
| ScriptCache.StepInvariant | plugins/rust/python-package/rate_limiter/src/redis_backend.rs:576-664 | Every step of any caller, a flush, a lost reply or a shutdown keeps the cached SHA the limiter's own and each caller's runs within what its position allows. |
| ScriptCache.ScriptRunsOnce | plugins/rust/python-package/rate_limiter/src/redis_backend.rs:576-664 | In every reachable state a call that returned Ok ran the limiter's script exactly once, one that returned Err at most once, and no other script ever ran. |
| ScriptCache.RunsAccounted | plugins/rust/python-package/rate_limiter/src/redis_backend.rs:576-664 | Once all calls have returned, the server's total of runs lies between the successes and the successes plus failures. |
| ScriptRecovery.FailsIff | plugins/rust/python-package/rate_limiter/src/redis_backend.rs:621-664 | A call fails iff the reply to its EVALSHA or EVAL was lost or could not be read, whatever flushes, loads by others and shutdowns happen meanwhile; a forgotten script is no reason to fail. |
| ScriptRecovery.UntroubledSucceeds | plugins/rust/python-package/rate_limiter/src/redis_backend.rs:621-664 | Otherwise every call that returns succeeds, having run the script exactly once. |
| ScriptRecovery.CallsAreShort | plugins/rust/python-package/rate_limiter/src/redis_backend.rs:576-664 | No call takes more than nine steps of its own. |
| ScriptRecovery.CallsNeverStuck | plugins/rust/python-package/rate_limiter/src/redis_backend.rs:576-664 | A call that has not returned can always take a step of its own. |
| ScriptRecovery.CacheIs | plugins/rust/python-package/rate_limiter/src/redis_backend.rs:576-619 | The cached SHA is there iff the cell was last stored rather than cleared, and the server knows the script iff it was given it since the last flush. |
| ScriptRecovery.LoadsIff | plugins/rust/python-package/rate_limiter/src/redis_backend.rs:599-619 | A call loads the script iff it finds none cached. |
| ScriptRecovery.ForgottenIff | plugins/rust/python-package/rate_limiter/src/redis_backend.rs:629-647 | A delivered reply sends a call on to clear the SHA iff the server has forgotten the script. |
| PiiSpans.SelectIsLeftmostLongest | plugins/rust/python-package/pii_filter/src/detector.rs:69-93 | The selection is ordered and disjoint, contains only candidates, covers the start of every candidate it drops, and prefers the longest at each start. |
| PiiSpans.LeftmostLongestUnique | plugins/rust/python-package/pii_filter/src/detector.rs:69-93 | For non-empty candidates these properties determine the spans: the greedy loop has no choice. |
| PiiTies.RankIff | plugins/rust/python-package/pii_filter/src/detector.rs:72-73 | Types are ranked by the alphabetical order of their names. |
| PiiTies.SelectBreaksTies | plugins/rust/python-package/pii_filter/src/detector.rs:69-75 | Of candidates over the same bytes the one with the alphabetically first type name is taken, and of one type the one with the first pattern. |
| PiiTies.SelectionDetermined | plugins/rust/python-package/pii_filter/src/detector.rs:69-93 | For non-empty candidates, leftmost, longest and ties broken so fixes range, type and pattern of every selected span. |
| PiiCoverage.CoveredIff | plugins/rust/python-package/pii_filter/src/detector.rs:77-93 | Every byte of every candidate lies in a selected span iff no candidate crosses the end of a selected span unless another candidate starts there. |
| PiiCoverage.SelectionCoversIff | plugins/rust/python-package/pii_filter/src/detector.rs:69-93 | In particular of the greedy selection. |
| PiiCoverage.TailLeft | plugins/rust/python-package/pii_filter/src/detector.rs:77-81 | Candidates over 0 to 5 and 3 to 10: the tail of the second stays uncovered. |
| PiiSpans.CollectDetections | plugins/rust/python-package/pii_filter/src/detector.rs:69-95 | The loop groups exactly the selected spans by type, in text order. |
| PiiMasking.ValidateRanges | plugins/rust/python-package/pii_filter/src/masking.rs:63-112 | Accepts iff every span lies in the text on character boundaries and no two overlap. |
| Utf8Form.BoundaryIff | plugins/rust/python-package/pii_filter/src/masking.rs:87-93 | A byte offset is a boundary by the byte test iff a character of the encoded text ends there. |
| Utf8Form.EncodedLength | plugins/rust/python-package/output_length_guard/src/guards.rs:65 | The byte counts are the lengths of the encoded texts. |
| Utf8Form.CharRoundTrip | plugins/rust/python-package/output_length_guard/src/guards.rs:65 | Each encoded character can be read back. |
| PiiMasking.NeighboursDecide | plugins/rust/python-package/pii_filter/src/masking.rs:99-109 | Comparing neighbours in sorted order decides overlap of all pairs. |
| PiiMasking.SpliceAll | plugins/rust/python-package/pii_filter/src/masking.rs:46-58 | The buffer-and-cursor loop is the splice, and faults iff a slice would run backwards. |
| PiiMasking.MaskPii | plugins/rust/python-package/pii_filter/src/masking.rs:24-61 | Whatever order the map yields, the result is validate, sort by start, splice. |
| PiiMasking.SplicedReplaces | plugins/rust/python-package/pii_filter/src/masking.rs:46-58 | Text and result agree on every gap between the spans and differ only in what fills them. |
| PiiMasking.FaultIff | plugins/rust/python-package/pii_filter/src/masking.rs:24-112 | For a listing of the map, masking faults iff validation passes and a span is listed after a non-empty one with the same start. |
| PiiMasking.NonEmptyNeverFaults | plugins/rust/python-package/pii_filter/src/masking.rs:24-112 | Non-empty spans never fault, in any order. |
| PiiMasking.OrderCanFault | plugins/rust/python-package/pii_filter/src/masking.rs:44 | An accepted pair that faults in one listing order and is masked in the other. |
| PiiOrders.ValidWhateverOrder | plugins/rust/python-package/pii_filter/src/masking.rs:63-112 | Validation does not depend on the order of types: it is a property of the map. |
| PiiOrders.MapFaultsIff | plugins/rust/python-package/pii_filter/src/masking.rs:24-112 | Some listing order of a map makes masking fault iff the map is valid and holds a span after a non-empty one with the same start in one list, or a non-empty and an empty span with the same start in two. |
| PiiMasking.DetectThenMask | plugins/rust/python-package/pii_filter/src/masking.rs:24-112 | Detector output is always accepted and masked, in whatever order the types come. |
| PiiMasking.SelectOneKind | plugins/rust/python-package/pii_filter/src/detector.rs:69-95 | Selected spans that start together have one type, if only custom patterns match the empty text. |
| PiiMasking.MaskedIsSelection | plugins/rust/python-package/pii_filter/src/masking.rs:24-112 | If selected spans that start together have one type, the masked text is the original with exactly the selected spans replaced, whatever the map's order. |
| PiiNested.MergeDetectionMaps | plugins/rust/python-package/pii_filter/src/detector.rs:662-669 | Merging appends list by list and touches no other type. |
| PiiNested.MergeGroups | plugins/rust/python-package/pii_filter/src/detector.rs:662-669 | Merged groupings group the concatenated lists: no detection is lost or invented. |
| PiiNested.TotalIsLength | plugins/rust/python-package/pii_filter/src/detector.rs:662-669 | A grouping holds as many detections as the spans it groups, so a tree's count is the sum over its leaves. |
| PiiNested.ProcessText | plugins/rust/python-package/pii_filter/src/detector.rs:332-361 | A text within the size limit becomes its masked form and reports its selection. |
| PiiNested.ProcessItems | plugins/rust/python-package/pii_filter/src/detector.rs:431-442 | The loop over a list or tuple: first fault, or all items masked and all detections merged in order. |
| PiiNested.ProcessEntries | plugins/rust/python-package/pii_filter/src/detector.rs:381-401 | The same for mappings, keys kept. |
| PiiNested.ProcessNested | plugins/rust/python-package/pii_filter/src/detector.rs:314-490 | Fails iff some node breaks a limit, with the first one broken in traversal order. Otherwise returns the same containers with the same keys, every text with exactly its selected spans replaced and all else as it was, modified iff anything was selected, and the leaves' detections grouped in order. |
| PiiNested.FaultlessIffWithin | plugins/rust/python-package/pii_filter/src/detector.rs:321-429 | No fault is found iff every node respects the depth, size and text limits. |
| PiiNested.FirstFaultIs | plugins/rust/python-package/pii_filter/src/detector.rs:321-429 | The limit reported is broken at a node all of whose predecessors respect theirs. |
| PiiNested.MaskTreeMasks | plugins/rust/python-package/pii_filter/src/detector.rs:314-490 | Node by node: same container, length and keys, every text with exactly its selected spans replaced. |
| PiiNested.FoundInLeaves | plugins/rust/python-package/pii_filter/src/detector.rs:314-490 | What is found in a tree is what is selected in its texts, in traversal order. |
| PiiNested.CleanTree | plugins/rust/python-package/pii_filter/src/detector.rs:403-490 | A tree without findings is its own masked form, so handing back the original is correct. |
| Luhn.PassesLuhn | plugins/rust/python-package/pii_filter/src/detector.rs:702-728 | Digit extraction and the left-to-right parity loop compute the length, sum and prefix tests. |
| Luhn.CardNumberIff | plugins/rust/python-package/pii_filter/src/detector.rs:702-756 | Accepted are 13 to 19 digits with the standard's sum and some issuer's prefix and length, from a table. |
| Luhn.SumTestIsStandard | plugins/rust/python-package/pii_filter/src/detector.rs:712-727 | The left-to-right parity loop is the right-to-left test of the standard. |
| Luhn.KnownPrefixIff | plugins/rust/python-package/pii_filter/src/detector.rs:730-756 | A prefix is known iff some issuer of the table has numbers like it. |
| Luhn.DigitsOfMeans | plugins/rust/python-package/pii_filter/src/detector.rs:703-707 | Digits are read in order and everything else is passed over. |
| Luhn.SingleErrorDetected | plugins/rust/python-package/pii_filter/src/detector.rs:712-726 | Changing one digit of a number that passes the sum test makes it fail, at any length. |
| Luhn.AdjacentSwapDetected | plugins/rust/python-package/pii_filter/src/detector.rs:712-726 | Swapping two neighbours goes unnoticed iff they are equal or are 0 and 9. |
| Luhn.CheckDigitUnique | plugins/rust/python-package/pii_filter/src/detector.rs:712-726 | Every number has exactly one check digit. |
| Luhn.MistypedRejected | plugins/rust/python-package/pii_filter/src/detector.rs:702-728 | A card number with one digit changed is not accepted. |
| Truncation.SnapToCharBoundary | plugins/rust/python-package/output_length_guard/src/guards.rs:132-136 | Stepping down from a byte offset stops after the last character that fits. |
| Truncation.WordCut | plugins/rust/python-package/output_length_guard/src/guards.rs:57-68 | The cut follows the last boundary character of the window, or stays if there is none. |
| Truncation.BoundaryCharIff | plugins/rust/python-package/output_length_guard/src/guards.rs:13-16 | The boundary characters, one by one. |
| Truncation.FindWordBoundary | plugins/rust/python-package/output_length_guard/src/guards.rs:50-70 | The byte offset returned is that of the word cut within max/5 characters. |
| Truncation.CapAtMaxTextLength | plugins/rust/python-package/output_length_guard/src/guards.rs:103-113 | The cap is the longest prefix of whole characters within the byte limit. |
| Truncation.TruncateText | plugins/rust/python-package/output_length_guard/src/guards.rs:140-210 | The byte-offset code computes the truncation described in characters; every slice is on a character boundary. |
| Truncation.TruncatedFits | plugins/rust/python-package/output_length_guard/src/guards.rs:172-208 | In character mode an over-long text becomes a prefix ending as the word rule says plus the ellipsis, or a hard cut, of at most max characters, and always changes. |
| Truncation.UnchangedIff | plugins/rust/python-package/output_length_guard/src/guards.rs:172-181 | In character mode a text is left as it is iff there is no limit or it is within it. |
| Truncation.TruncatedTwice | plugins/rust/python-package/output_length_guard/src/guards.rs:172-208 | In character mode a second truncation changes nothing. |
| Truncation.TokenTruncatedFits | plugins/rust/python-package/output_length_guard/src/guards.rs:144-171 | In token mode what precedes the ellipsis is a prefix within the token budget and the byte cap, and without word boundaries the longest. |
| Truncation.TokenTwiceIff | plugins/rust/python-package/output_length_guard/src/guards.rs:144-171 | Exactly when a second pass in token mode is the identity, for every text and configuration, word boundaries and biting byte cap included. |
| Truncation.TokenTwiceUncapped | plugins/rust/python-package/output_length_guard/src/guards.rs:144-171 | While the byte cap is idle: the identity iff the once-truncated text is within budget or no word end lies in the part of the ellipsis that falls back within it; otherwise the text grows. |
| Truncation.PlainEllipsisIdempotent | plugins/rust/python-package/output_length_guard/src/guards.rs:144-171 | So an ellipsis without word ends makes token mode idempotent while the byte cap is idle. |
| Truncation.DefaultIdempotent | plugins/rust/python-package/output_length_guard/src/guards.rs:144-171 | In particular the default ellipsis. |
| Truncation.HardCutTwiceIff | plugins/rust/python-package/output_length_guard/src/guards.rs:144-171 | Without word boundaries a second pass is the identity iff the text is within budget, the whole budget was kept, or no character of the ellipsis fits the byte cap behind it. |
| Truncation.HardCutIdempotent | plugins/rust/python-package/output_length_guard/src/guards.rs:144-171 | So it is whenever the byte cap does not bite the text. |
| Truncation.TokenTruncationUnstable | plugins/rust/python-package/output_length_guard/src/guards.rs:144-171 | A concrete such configuration and text. |
| LengthGuard.ProcessString | plugins/rust/python-package/output_length_guard/src/structured.rs:91-197 | Block accepts a text iff it is numeric or its length or estimated tokens, as the mode says, lie within the configured minimum and maximum, and otherwise reports its offence. Truncate leaves it alone if it is numeric, within the maximum, or there is none; otherwise it becomes a prefix within the budget ending as the word rule says, plus the ellipsis. |
| LengthGuard.ProcessList | plugins/rust/python-package/output_length_guard/src/structured.rs:200-269 | The loop over a list: block stops at the first offence below it, truncate rebuilds it and reports whether it changed. |
| LengthGuard.ProcessDict | plugins/rust/python-package/output_length_guard/src/structured.rs:272-343 | The same for mappings, keys kept. |
| LengthGuard.ProcessStructuredData | plugins/rust/python-package/output_length_guard/src/structured.rs:27-89 | Truncate never reports a violation, sets modified iff the value changed, and cuts every reached text so, keeping shape and keys. Block returns the value untouched iff every node respects the limits, and otherwise the first offence in traversal order, with its reason, its measure and the path spelt out. |
| LengthGuard.BlockAcceptsIff | plugins/rust/python-package/output_length_guard/src/structured.rs:27-343 | There is no offence iff every node respects the depth, size and text limits. |
| LengthGuard.ReportedIsFirst | plugins/rust/python-package/output_length_guard/src/structured.rs:27-343 | The offence reported is the first: nothing before it offends, and its location spells the way to it. |
| LengthGuard.TruncateCuts | plugins/rust/python-package/output_length_guard/src/structured.rs:27-343 | In either mode every reached text is cut as the mode says, and nothing else changes. |
| LengthGuard.TruncateShortens | plugins/rust/python-package/output_length_guard/src/structured.rs:27-343 | In character mode every non-numeric text reached is left alone if short enough and otherwise cut to at most max characters; shape, keys and everything beyond the limits stay. |
| LengthGuard.TruncateKeepsShape | plugins/rust/python-package/output_length_guard/src/structured.rs:27-343 | In both modes shape and keys stay and each text reached is its own truncation. |
| LengthGuard.SecondPassIdentity | plugins/rust/python-package/output_length_guard/src/structured.rs:27-343 | In character mode a second pass is the identity. |
| LengthGuard.TruncatedPassesBlock | plugins/rust/python-package/output_length_guard/src/structured.rs:91-197 | Block would refuse a truncated value only for its structure or for texts that are too short. |

## Left out

- Rate limiter: Python bindings, header and metadata dictionaries, logging, unknown-key warnings, configuration loading beyond rate strings.
- Rate limiter: connections, TLS, timeouts and the Tokio runtime. A lost reply or connection is a step of `ScriptCache`; `fail_mode` is not modelled.
- Rate limiter: parsing of script replies, member text and number formatting. Members are triples of time, process id and counter.
- RedisBackend.EvalTokenBucket: is in exact arithmetic over reals. Floating-point rounding in the Lua bucket and the text form of its rate are not modelled, nor is agreement with the in-process bucket, which rounds to milli-tokens and so differs.
- RedisBackend.CheckSliding: takes as a premise that members do not recur within the window; `RedisRequests.DrawnMembersLive` derives it where pids name processes.
- RedisFixed.FixedRefines: compares on whole-second clocks only, since Redis is given whole seconds and the in-process store nanoseconds.
- RateConfig.ParseRate: does not carry the input text inside its errors.
- Engine.RateLimiter.Check: tool names arrive lower-cased; normalising them when the configuration is read is not modelled.
- A denied request is not rolled back in the dimensions that admitted it; the model keeps this.
- PII filter: regular expressions, whitelist and per-type validation. The candidates are a parameter.
- PII filter: partial, hash and token masks. Each span carries its replacement text.
- PII filter: sets and objects with attributes, whose members can collide after masking or need Python's copying.
- PiiMasking.ValidateRanges: does not say which of the validator's messages a rejection carries.
- PiiNested.ProcessNested: does not carry the path and numbers in the messages.
- Luhn: the separate validity rules for social security numbers.
- Length guard: the numeric-string test is an arbitrary predicate; JSON output, text representation and plugin metadata are not modelled.
- LengthGuard.ProcessStructuredData: mappings are lists of entries whose keys differ, so setting them in order rebuilds them in order; the violation carries its kind, measured size and location, not the prose and not the configured limits.
- Truncation.FindWordBoundary: the window is `max / 5`, where the source multiplies a float by 0.2; the two agree on counts below 2^52.
- The encoded-exfiltration detector, retry with backoff, secrets detection, tools and package shims: no invariant that these three plugins do not already show, or dominated by regular expressions.
