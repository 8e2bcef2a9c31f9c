/**
 The Redis-backed limiter: each request is one script run over the keys of its dimensions, on a
 database shared by all callers. Each answer is the one its key alone determines; for the two
 windows that is the answer of the in-process store, so both backends reach the same verdict.
 */
module RedisBackend {
  import opened Outcomes
  import opened RateConfig
  import opened Histories
  import opened KeyMachine
  import opened Sweeping
  import opened RedisServer
  import opened Aggregation
  import opened Engine
  import WindowBounds
  import RedisFixed
  import RedisSliding
  import RedisBucket

  /** One script run, and the clock readings of the request behind it. */
  datatype Batch<A> = Batch(at: Stamp, ops: seq<Op<A>>)

  /** A script that is told the time. */
  type Timed<!V, !A, !R> = int -> Script<V, A, R>

  /** The database after the given runs. */
  ghost function DbAfter<V, A, R>(script: Timed<V, A, R>, batches: History<Batch<A>>): Db<V> {
    match batches
    case Start => map[]
    case Then(before, b) => RunBatch(script(b.at.unix), DbAfter(script, before), b.ops).0
  }

  // ---- One key at a time ----

  function ArgsFor<A>(ops: seq<Op<A>>, k: string): Option<A> {
    if ops == [] then None else if ops[0].key == k then Some(ops[0].args) else ArgsFor(ops[1..], k)
  }

  /** The runs that touched a key. */
  function Visits<A>(batches: History<Batch<A>>, k: string): History<Visit<A>> {
    match batches
    case Start => Start
    case Then(before, b) =>
      var args := ArgsFor(b.ops, k);
      if args.Some? then Then(Visits(before, k), Visit(b.at, args.value)) else Visits(before, k)
  }

  /** A key that is alone in its database. */
  function KeyAfter<V, A, R>(script: Timed<V, A, R>, visits: History<Visit<A>>): Option<Entry<V>> {
    match visits
    case Start => None
    case Then(before, v) => script(v.at.unix)(KeyAfter(script, before), v.args).0
  }

  ghost predicate BatchesDistinct<A>(batches: History<Batch<A>>) {
    batches.Then? ==> BatchesDistinct(batches.before) && RedisServer.DistinctKeys(batches.last.ops)
  }

  lemma {:induction false} ArgsForMeans<A>(ops: seq<Op<A>>, k: string)
    requires RedisServer.DistinctKeys(ops)
    ensures ArgsFor(ops, k).None? <==> forall i :: 0 <= i < |ops| ==> ops[i].key != k
    ensures forall i :: 0 <= i < |ops| && ops[i].key == k ==> ArgsFor(ops, k) == Some(ops[i].args)
  {
    if ops != [] {
      ArgsForMeans(ops[1..], k);
      assert forall i :: 1 <= i < |ops| ==> ops[i] == ops[1..][i - 1];
    }
  }

  /** Sharing the database is unobservable: a key holds what its own visits alone put there. */
  lemma {:induction false} KeysIndependent<V, A, R>(script: Timed<V, A, R>, batches: History<Batch<A>>, k: string)
    requires BatchesDistinct(batches)
    ensures Find(DbAfter(script, batches), k) == KeyAfter(script, Visits(batches, k))
  {
    hide RunBatch;
    if batches.Then? {
      var before, b := batches.before, batches.last;
      KeysIndependent(script, before, k);
      ArgsForMeans(b.ops, k);
      BatchIndependent(script(b.at.unix), DbAfter(script, before), b.ops);
      if i :| 0 <= i < |b.ops| && b.ops[i].key == k {
        assert ArgsFor(b.ops, k) == Some(b.ops[i].args);
      }
    }
  }

  // ---- The keys of a request ----

  function Ops<A>(prefix: string, checks: seq<Dimension>, args: seq<A>): seq<Op<A>>
    requires |args| == |checks|
  {
    seq(|checks|, i requires 0 <= i < |checks| => Op(RedisKey(prefix, checks[i]), args[i]))
  }

  /** Distinct dimensions have distinct Redis keys. */
  lemma OpsDistinct<A>(prefix: string, checks: seq<Dimension>, args: seq<A>)
    requires |args| == |checks| && Engine.DistinctKeys(checks)
    ensures RedisServer.DistinctKeys(Ops(prefix, checks, args))
  {
    hide RedisKey;
    forall i, j | 0 <= i < j < |checks|
      ensures RedisKey(prefix, checks[i]) != RedisKey(prefix, checks[j])
    {
      if RedisKey(prefix, checks[i]) == RedisKey(prefix, checks[j]) {
        RedisKeyInjective(prefix, checks[i], checks[j]);
      }
    }
  }

  ghost predicate ValidChecks(checks: seq<Dimension>) {
    forall i :: 0 <= i < |checks| ==> ValidRate(checks[i].rate)
  }

  /** Every visit to a key brings the same limit and window. */
  ghost predicate AllDims<A>(visits: History<Visit<A>>, dimOf: A -> Dim, d: Dim) {
    visits.Then? ==> dimOf(visits.last.args) == d && AllDims(visits.before, dimOf, d)
  }

  // ---- Fixed window ----

  const FIXED_TIMED: Timed<nat, Dim, RedisFixed.Reply> := now => (e, d) => RedisFixed.FixedScript(e, d, now)

  const ITS_DIM: Dim -> Dim := d => d

  lemma {:induction false} FixedKey(rate: RateLimit, visits: History<Visit<Dim>>)
    requires AllDims(visits, ITS_DIM, RedisFixed.DimOf(rate))
    ensures KeyAfter(FIXED_TIMED, visits) == RedisFixed.Stored(rate, Stamps(visits))
  {
    hide RedisFixed.FixedScript;
    if visits.Then? {
      FixedKey(rate, visits.before);
    }
  }

  /** What the callers of one key agree on: its rate, whole-second clocks, and clock order. */
  ghost predicate FixedFit(visits: History<Visit<Dim>>, rate: RateLimit, at: Stamp, offset: int) {
    && AllDims(visits, ITS_DIM, RedisFixed.DimOf(rate))
    && Ordered(Then(Stamps(visits), at)) && WholeSeconds(Then(Stamps(visits), at), offset)
  }

  function FixedArgs(checks: seq<Dimension>): seq<Dim> {
    seq(|checks|, i requires 0 <= i < |checks| => RedisFixed.DimOf(checks[i].rate))
  }

  method EvalFixed(server: Server<nat>, prefix: string, checks: seq<Dimension>, at: Stamp,
                   ghost batches: History<Batch<Dim>>, ghost offset: int)
    returns (results: seq<DimResult>)
    requires server.db == DbAfter(FIXED_TIMED, batches)
    requires BatchesDistinct(batches) && Engine.DistinctKeys(checks) && ValidChecks(checks)
    requires forall i :: 0 <= i < |checks| ==>
               FixedFit(Visits(batches, RedisKey(prefix, checks[i])), checks[i].rate, at, offset)
    modifies server
    ensures server.db == DbAfter(FIXED_TIMED, Then(batches, Batch(at, Ops(prefix, checks, FixedArgs(checks)))))
    ensures |results| == |checks|
    ensures forall i :: 0 <= i < |checks| ==>
              results[i] == SoloResult(Policy(checks[i].rate, FixedWindow),
                                       Stamps(Visits(batches, RedisKey(prefix, checks[i]))), at)
  {
    hide RunBatch, RedisKey, Evaluate, RedisFixed.FixedScript, RedisFixed.Interpret;
    var ops := Ops(prefix, checks, FixedArgs(checks));
    ghost var db0 := server.db;
    var replies := server.Eval(FIXED_TIMED(at.unix), ops);
    OpsDistinct(prefix, checks, FixedArgs(checks));
    BatchIndependent(FIXED_TIMED(at.unix), db0, ops);
    results := [];
    for i := 0 to |checks|
      invariant server.db == RunBatch(FIXED_TIMED(at.unix), db0, ops).0
      invariant |results| == i
      invariant forall j :: 0 <= j < i ==>
          results[j] == SoloResult(Policy(checks[j].rate, FixedWindow),
                                   Stamps(Visits(batches, RedisKey(prefix, checks[j]))), at)
    {
      var rate := checks[i].rate;
      ghost var k := RedisKey(prefix, checks[i]);
      KeysIndependent(FIXED_TIMED, batches, k);
      FixedKey(rate, Visits(batches, k));
      RedisFixed.FixedRefines(Policy(rate, FixedWindow), Stamps(Visits(batches, k)), at, offset);
      assert replies[i] == FIXED_TIMED(at.unix)(Find(db0, k), RedisFixed.DimOf(rate)).1;
      results := results + [RedisFixed.Interpret(replies[i], rate.count, at.unix)];
    }
  }

  // ---- Sliding window ----

  datatype SlidingArgs = SlidingArgs(dim: Dim, member: RedisSliding.Member)

  const SLIDING_TIMED: Timed<RedisSliding.SortedSet, SlidingArgs, RedisSliding.Reply> :=
    now => (e, a: SlidingArgs) => RedisSliding.SlidingScript(e, a.dim, a.member, now)

  const SLIDING_DIM: SlidingArgs -> Dim := (a: SlidingArgs) => a.dim

  function SlidingCalls(visits: History<Visit<SlidingArgs>>): History<RedisSliding.Call> {
    match visits
    case Start => Start
    case Then(before, v) => Then(SlidingCalls(before), Visit(v.at, v.args.member))
  }

  lemma {:induction false} SlidingStamps(visits: History<Visit<SlidingArgs>>)
    ensures Stamps(SlidingCalls(visits)) == Stamps(visits)
  {
    if visits.Then? {
      SlidingStamps(visits.before);
    }
  }

  lemma {:induction false} SlidingKey(d: Dim, visits: History<Visit<SlidingArgs>>)
    requires AllDims(visits, SLIDING_DIM, d)
    ensures KeyAfter(SLIDING_TIMED, visits) == RedisSliding.Stored(d, SlidingCalls(visits))
  {
    hide RedisSliding.SlidingScript;
    if visits.Then? {
      SlidingKey(d, visits.before);
    }
  }

  /** As for the fixed window, with positive clocks, and no admission reusing a member still in the window. */
  ghost predicate SlidingFit(visits: History<Visit<SlidingArgs>>, rate: RateLimit, at: Stamp,
                             member: RedisSliding.Member, offset: int) {
    && AllDims(visits, SLIDING_DIM, RedisFixed.DimOf(rate))
    && WindowBounds.Positive(Stamps(visits)) && Ordered(Then(Stamps(visits), at))
    && WholeSeconds(Then(Stamps(visits), at), offset)
    && RedisSliding.LiveDistinct(RedisFixed.DimOf(rate), Then(SlidingCalls(visits), Visit(at, member)))
  }

  function SlidingArgsFor(checks: seq<Dimension>, members: seq<RedisSliding.Member>): seq<SlidingArgs>
    requires |members| == |checks|
  {
    seq(|checks|, i requires 0 <= i < |checks| => SlidingArgs(RedisFixed.DimOf(checks[i].rate), members[i]))
  }

  method EvalSliding(server: Server<RedisSliding.SortedSet>, prefix: string, checks: seq<Dimension>, at: Stamp,
                     members: seq<RedisSliding.Member>, ghost batches: History<Batch<SlidingArgs>>, ghost offset: int)
    returns (results: seq<DimResult>)
    requires server.db == DbAfter(SLIDING_TIMED, batches) && |members| == |checks|
    requires BatchesDistinct(batches) && Engine.DistinctKeys(checks) && ValidChecks(checks)
    requires forall i :: 0 <= i < |checks| ==>
               SlidingFit(Visits(batches, RedisKey(prefix, checks[i])), checks[i].rate, at, members[i], offset)
    modifies server
    ensures server.db
            == DbAfter(SLIDING_TIMED, Then(batches, Batch(at, Ops(prefix, checks, SlidingArgsFor(checks, members)))))
    ensures |results| == |checks|
    ensures forall i :: 0 <= i < |checks| ==>
              results[i] == SoloResult(Policy(checks[i].rate, SlidingWindow),
                                       Stamps(Visits(batches, RedisKey(prefix, checks[i]))), at)
  {
    hide RunBatch, RedisKey, Evaluate, RedisSliding.SlidingScript, RedisSliding.Interpret;
    var args := SlidingArgsFor(checks, members);
    var ops := Ops(prefix, checks, args);
    ghost var db0 := server.db;
    var replies := server.Eval(SLIDING_TIMED(at.unix), ops);
    OpsDistinct(prefix, checks, args);
    BatchIndependent(SLIDING_TIMED(at.unix), db0, ops);
    results := [];
    for i := 0 to |checks|
      invariant server.db == RunBatch(SLIDING_TIMED(at.unix), db0, ops).0
      invariant |results| == i
      invariant forall j :: 0 <= j < i ==>
          results[j] == SoloResult(Policy(checks[j].rate, SlidingWindow),
                                   Stamps(Visits(batches, RedisKey(prefix, checks[j]))), at)
    {
      var rate := checks[i].rate;
      ghost var k := RedisKey(prefix, checks[i]);
      KeysIndependent(SLIDING_TIMED, batches, k);
      SlidingKey(RedisFixed.DimOf(rate), Visits(batches, k));
      SlidingStamps(Visits(batches, k));
      RedisSliding.SlidingRefines(Policy(rate, SlidingWindow), RedisFixed.DimOf(rate), SlidingCalls(Visits(batches, k)),
                                  Visit(at, members[i]), offset);
      assert replies[i] == SLIDING_TIMED(at.unix)(Find(db0, k), args[i]).1;
      results := results + [RedisSliding.Interpret(replies[i], args[i].dim, at.unix)];
    }
  }

  // ---- Token bucket ----

  type BucketDim = d: Dim | RedisBucket.ValidDim(d) witness Dim(1, 1)

  const BUCKET_TIMED: Timed<RedisBucket.Bucket, BucketDim, RedisBucket.Reply> :=
    now => (e, d: BucketDim) =>
      var (e', r) := RedisBucket.BucketScript(RedisBucket.Found(e, now, true), d, now);
      (Some(e'), r)

  const BUCKET_ITS_DIM: BucketDim -> Dim := (d: BucketDim) => d

  function UnixTimes<A>(visits: History<Visit<A>>): History<int> {
    match visits
    case Start => Start
    case Then(before, v) => Then(UnixTimes(before), v.at.unix)
  }

  lemma {:induction false} BucketKey(d: BucketDim, visits: History<Visit<BucketDim>>)
    requires AllDims(visits, BUCKET_ITS_DIM, d)
    ensures KeyAfter(BUCKET_TIMED, visits) == RedisBucket.Stored(d, UnixTimes(visits), true)
  {
    hide RedisBucket.BucketScript;
    if visits.Then? {
      BucketKey(d, visits.before);
    }
  }

  function BucketDimOf(rate: RateLimit): BucketDim
    requires ValidRate(rate)
  {
    RedisFixed.DimOf(rate)
  }

  function BucketArgs(checks: seq<Dimension>): seq<BucketDim>
    requires ValidChecks(checks)
  {
    seq(|checks|, i requires 0 <= i < |checks| => BucketDimOf(checks[i].rate))
  }

  method EvalTokenBucket(server: Server<RedisBucket.Bucket>, prefix: string, checks: seq<Dimension>, at: Stamp,
                         ghost batches: History<Batch<BucketDim>>)
    returns (results: seq<DimResult>)
    requires server.db == DbAfter(BUCKET_TIMED, batches)
    requires BatchesDistinct(batches) && Engine.DistinctKeys(checks) && ValidChecks(checks)
    requires forall i :: 0 <= i < |checks| ==>
               AllDims(Visits(batches, RedisKey(prefix, checks[i])), BUCKET_ITS_DIM, RedisFixed.DimOf(checks[i].rate))
    modifies server
    ensures server.db == DbAfter(BUCKET_TIMED, Then(batches, Batch(at, Ops(prefix, checks, BucketArgs(checks)))))
    ensures |results| == |checks|
    ensures forall i :: 0 <= i < |checks| ==>
              results[i] == RedisBucket.Answer(BucketDimOf(checks[i].rate),
                                               UnixTimes(Visits(batches, RedisKey(prefix, checks[i]))), at.unix, true)
  {
    hide RunBatch, RedisKey, RedisBucket.BucketScript, RedisBucket.Interpret;
    var args := BucketArgs(checks);
    var ops := Ops(prefix, checks, args);
    ghost var db0 := server.db;
    var replies := server.Eval(BUCKET_TIMED(at.unix), ops);
    OpsDistinct(prefix, checks, args);
    BatchIndependent(BUCKET_TIMED(at.unix), db0, ops);
    results := [];
    for i := 0 to |checks|
      invariant server.db == RunBatch(BUCKET_TIMED(at.unix), db0, ops).0
      invariant |results| == i
      invariant forall j :: 0 <= j < i ==>
          results[j] == RedisBucket.Answer(BucketDimOf(checks[j].rate),
                                           UnixTimes(Visits(batches, RedisKey(prefix, checks[j]))), at.unix, true)
    {
      ghost var k := RedisKey(prefix, checks[i]);
      KeysIndependent(BUCKET_TIMED, batches, k);
      BucketKey(args[i], Visits(batches, k));
      assert replies[i] == BUCKET_TIMED(at.unix)(Find(db0, k), args[i]).1;
      results := results + [RedisBucket.Interpret(replies[i], args[i], at.unix)];
    }
  }

  // ---- Both backends ----

  /** The database's runs are those of the requests served, key by key. */
  ghost predicate Records<A>(prefix: string, served: History<Served>, batches: History<Batch<A>>, dimOf: A -> Dim) {
    match served
    case Start => batches.Start?
    case Then(before, s) =>
      && batches.Then? && Records(prefix, before, batches.before, dimOf)
      && batches.last.at == s.at && |batches.last.ops| == |s.dims|
      && forall i :: 0 <= i < |s.dims| ==>
           && batches.last.ops[i].key == RedisKey(prefix, s.dims[i])
           && dimOf(batches.last.ops[i].args) == RedisFixed.DimOf(s.dims[i].rate)
  }

  ghost predicate AllConfigured(ps: Policies, served: History<Served>, algorithm: Algorithm) {
    served.Then? ==>
      && AllConfigured(ps, served.before, algorithm)
      && Configured(ps, served.last.dims, algorithm) && Engine.DistinctKeys(served.last.dims)
  }

  /** Both clocks tick in whole seconds a fixed distance apart. */
  predicate WholeTimes(served: History<Served>, offset: int) {
    served.Then? ==>
      && WholeTimes(served.before, offset)
      && served.last.at.mono == served.last.at.unix * NANOS_PER_SEC + offset
  }

  /** A request at `at` comes in clock order on each key it carries. */
  ghost predicate InTurn(served: History<Served>, dims: seq<Dimension>, at: Stamp) {
    forall i :: 0 <= i < |dims| ==> Ordered(Then(RequestsOn(served, dims[i].key), at))
  }

  /** A Redis key is visited by exactly the requests that carry its dimension. */
  lemma CarriedIffVisited<A>(ps: Policies, prefix: string, s: Served, b: Batch<A>, dimOf: A -> Dim,
                             algorithm: Algorithm, d: Dimension)
    requires Configured(ps, s.dims, algorithm) && Engine.DistinctKeys(s.dims)
    requires |b.ops| == |s.dims|
    requires forall i :: 0 <= i < |s.dims| ==>
               b.ops[i].key == RedisKey(prefix, s.dims[i]) && dimOf(b.ops[i].args) == RedisFixed.DimOf(s.dims[i].rate)
    requires ps(d.key) == Policy(d.rate, algorithm)
    ensures RedisServer.DistinctKeys(b.ops)
    ensures var args := ArgsFor(b.ops, RedisKey(prefix, d));
            (args.Some? <==> Carries(s.dims, d.key)) && (args.Some? ==> dimOf(args.value) == RedisFixed.DimOf(d.rate))
  {
    hide RedisKey;
    forall i, e | 0 <= i < |s.dims| && e in s.dims + [d] && RedisKey(prefix, s.dims[i]) == RedisKey(prefix, e)
      ensures s.dims[i].key == e.key
    {
      RedisKeyInjective(prefix, s.dims[i], e);
    }
    assert forall i :: 0 <= i < |s.dims| ==> s.dims[i] in s.dims + [d];
    ArgsForMeans(b.ops, RedisKey(prefix, d));
    if Carries(s.dims, d.key) {
      var i :| 0 <= i < |s.dims| && s.dims[i].key == d.key;
      assert s.dims[i] == d;
    }
  }

  lemma {:induction false} VisitsAreRequests<A>(ps: Policies, prefix: string, served: History<Served>,
                                                batches: History<Batch<A>>,
                                                dimOf: A -> Dim, algorithm: Algorithm, d: Dimension)
    requires Records(prefix, served, batches, dimOf) && AllConfigured(ps, served, algorithm)
    requires ps(d.key) == Policy(d.rate, algorithm)
    ensures Stamps(Visits(batches, RedisKey(prefix, d))) == RequestsOn(served, d.key)
    ensures AllDims(Visits(batches, RedisKey(prefix, d)), dimOf, RedisFixed.DimOf(d.rate))
  {
    hide RedisKey, Configured;
    if served.Then? {
      VisitsAreRequests(ps, prefix, served.before, batches.before, dimOf, algorithm, d);
      CarriedIffVisited(ps, prefix, served.last, batches.last, dimOf, algorithm, d);
    }
  }

  lemma {:induction false} RecordsDistinct<A>(ps: Policies, prefix: string, served: History<Served>,
                                              batches: History<Batch<A>>,
                                              dimOf: A -> Dim, algorithm: Algorithm)
    requires Records(prefix, served, batches, dimOf) && AllConfigured(ps, served, algorithm)
    ensures BatchesDistinct(batches)
  {
    hide RedisKey;
    if served.Then? {
      RecordsDistinct(ps, prefix, served.before, batches.before, dimOf, algorithm);
      forall i, j | 0 <= i < j < |served.last.dims|
        ensures RedisKey(prefix, served.last.dims[i]) != RedisKey(prefix, served.last.dims[j])
      {
        if RedisKey(prefix, served.last.dims[i]) == RedisKey(prefix, served.last.dims[j]) {
          RedisKeyInjective(prefix, served.last.dims[i], served.last.dims[j]);
        }
      }
    }
  }

  lemma {:induction false} RequestsWhole(served: History<Served>, offset: int, k: string)
    requires WholeTimes(served, offset)
    ensures WholeSeconds(RequestsOn(served, k), offset)
  {
    if served.Then? {
      RequestsWhole(served.before, offset, k);
    }
  }

  /**
   A request checked against fixed windows in Redis gets the verdict the in-process engine gives
   after the same requests.
   */
  method CheckFixed(server: Server<nat>, prefix: string, dims: seq<Dimension>, at: Stamp,
                    ghost ps: Policies, ghost served: History<Served>, ghost batches: History<Batch<Dim>>,
                    ghost offset: int)
    returns (verdict: EvalResult, ghost batches': History<Batch<Dim>>)
    requires ValidPolicies(ps) && server.db == DbAfter(FIXED_TIMED, batches)
    requires Records(prefix, served, batches, ITS_DIM)
    requires AllConfigured(ps, Then(served, Served(dims, at)), FixedWindow)
    requires WholeTimes(Then(served, Served(dims, at)), offset) && InTurn(served, dims, at)
    modifies server
    ensures verdict == FromDims(Answers(ps, dims, k => RequestsOn(served, k), at))
    ensures Records(prefix, Then(served, Served(dims, at)), batches', ITS_DIM)
    ensures server.db == DbAfter(FIXED_TIMED, batches')
  {
    hide RedisKey, FromDims, Evaluate, RunBatch;
    forall i | 0 <= i < |dims|
      ensures var visits := Visits(batches, RedisKey(prefix, dims[i]));
              FixedFit(visits, dims[i].rate, at, offset) && Stamps(visits) == RequestsOn(served, dims[i].key)
      ensures ValidRate(dims[i].rate)
    {
      assert ps(dims[i].key) == Policy(dims[i].rate, FixedWindow);
      VisitsAreRequests(ps, prefix, served, batches, ITS_DIM, FixedWindow, dims[i]);
      RequestsWhole(served, offset, dims[i].key);
    }
    RecordsDistinct(ps, prefix, served, batches, ITS_DIM, FixedWindow);
    var results := EvalFixed(server, prefix, dims, at, batches, offset);
    assert results == Answers(ps, dims, k => RequestsOn(served, k), at);
    verdict := FromDims(results);
    batches' := Then(batches, Batch(at, Ops(prefix, dims, FixedArgs(dims))));
  }

  // ---- Sliding windows need members no other admission uses ----

  predicate UsedIn(batches: History<Batch<SlidingArgs>>, m: RedisSliding.Member) {
    batches.Then? && ((exists i :: 0 <= i < |batches.last.ops| && batches.last.ops[i].args.member == m)
                      || UsedIn(batches.before, m))
  }

  /** No request reuses a member of an earlier one. */
  ghost predicate MembersFresh(batches: History<Batch<SlidingArgs>>) {
    batches.Then? ==>
      && MembersFresh(batches.before)
      && forall i :: 0 <= i < |batches.last.ops| ==> !UsedIn(batches.before, batches.last.ops[i].args.member)
  }

  lemma {:induction false} VisitedMembers(batches: History<Batch<SlidingArgs>>, k: string, m: RedisSliding.Member)
    requires BatchesDistinct(batches) && !UsedIn(batches, m)
    ensures !RedisSliding.Used(m, SlidingCalls(Visits(batches, k)))
  {
    if batches.Then? {
      VisitedMembers(batches.before, k, m);
      ArgsForMeans(batches.last.ops, k);
    }
  }

  lemma {:induction false} VisitsDistinct(batches: History<Batch<SlidingArgs>>, k: string)
    requires BatchesDistinct(batches) && MembersFresh(batches)
    ensures RedisSliding.Distinct(SlidingCalls(Visits(batches, k)))
  {
    if batches.Then? {
      VisitsDistinct(batches.before, k);
      ArgsForMeans(batches.last.ops, k);
      if i :| 0 <= i < |batches.last.ops| && batches.last.ops[i].key == k {
        VisitedMembers(batches.before, k, batches.last.ops[i].args.member);
      }
    }
  }

  predicate PositiveTimes(served: History<Served>) {
    served.Then? ==> PositiveTimes(served.before) && served.last.at.mono >= 1
  }

  lemma {:induction false} RequestsPositive(served: History<Served>, k: string)
    requires PositiveTimes(served)
    ensures WindowBounds.Positive(RequestsOn(served, k))
  {
    if served.Then? {
      RequestsPositive(served.before, k);
    }
  }

  /** No admission so far, nor this one, reuses a member still in the window of its key. */
  ghost predicate MembersLive(batches: History<Batch<SlidingArgs>>, prefix: string, dims: seq<Dimension>, at: Stamp,
                              members: seq<RedisSliding.Member>)
    requires |members| == |dims|
  {
    forall i :: 0 <= i < |dims| ==>
      RedisSliding.LiveDistinct(
        RedisFixed.DimOf(dims[i].rate),
        Then(SlidingCalls(Visits(batches, RedisKey(prefix, dims[i]))), Visit(at, members[i])))
  }

  /** Members no earlier request used will do. */
  lemma FreshIsLive(batches: History<Batch<SlidingArgs>>, prefix: string, dims: seq<Dimension>, at: Stamp,
                    members: seq<RedisSliding.Member>)
    requires |members| == |dims| && BatchesDistinct(batches)
    requires MembersFresh(Then(batches, Batch(at, Ops(prefix, dims, SlidingArgsFor(dims, members)))))
    ensures MembersLive(batches, prefix, dims, at, members)
  {
    hide RedisKey, UsedIn;
    forall i | 0 <= i < |dims|
      ensures RedisSliding.LiveDistinct(
                RedisFixed.DimOf(dims[i].rate),
                Then(SlidingCalls(Visits(batches, RedisKey(prefix, dims[i]))), Visit(at, members[i])))
    {
      var k := RedisKey(prefix, dims[i]);
      VisitsDistinct(batches, k);
      assert Ops(prefix, dims, SlidingArgsFor(dims, members))[i].args.member == members[i];
      VisitedMembers(batches, k, members[i]);
      RedisSliding.DistinctIsLive(
        RedisFixed.DimOf(dims[i].rate), Then(SlidingCalls(Visits(batches, k)), Visit(at, members[i])));
    }
  }

  /** The same for sliding windows. */
  method CheckSliding(server: Server<RedisSliding.SortedSet>, prefix: string, dims: seq<Dimension>, at: Stamp,
                      members: seq<RedisSliding.Member>, ghost ps: Policies, ghost served: History<Served>,
                      ghost batches: History<Batch<SlidingArgs>>, ghost offset: int)
    returns (verdict: EvalResult, ghost batches': History<Batch<SlidingArgs>>)
    requires ValidPolicies(ps) && server.db == DbAfter(SLIDING_TIMED, batches) && |members| == |dims|
    requires Records(prefix, served, batches, SLIDING_DIM) && PositiveTimes(served)
    requires AllConfigured(ps, Then(served, Served(dims, at)), SlidingWindow)
    requires WholeTimes(Then(served, Served(dims, at)), offset) && InTurn(served, dims, at)
    requires MembersLive(batches, prefix, dims, at, members)
    modifies server
    ensures verdict == FromDims(Answers(ps, dims, k => RequestsOn(served, k), at))
    ensures Records(prefix, Then(served, Served(dims, at)), batches', SLIDING_DIM)
    ensures batches' == Then(batches, Batch(at, Ops(prefix, dims, SlidingArgsFor(dims, members))))
    ensures server.db == DbAfter(SLIDING_TIMED, batches')
  {
    hide RedisKey, FromDims, Evaluate, RunBatch, RedisSliding.LiveDistinct;
    RecordsDistinct(ps, prefix, served, batches, SLIDING_DIM, SlidingWindow);
    batches' := Then(batches, Batch(at, Ops(prefix, dims, SlidingArgsFor(dims, members))));
    forall i | 0 <= i < |dims|
      ensures var visits := Visits(batches, RedisKey(prefix, dims[i]));
              && SlidingFit(visits, dims[i].rate, at, members[i], offset)
              && Stamps(visits) == RequestsOn(served, dims[i].key)
      ensures ValidRate(dims[i].rate)
    {
      assert ps(dims[i].key) == Policy(dims[i].rate, SlidingWindow);
      VisitsAreRequests(ps, prefix, served, batches, SLIDING_DIM, SlidingWindow, dims[i]);
      RequestsWhole(served, offset, dims[i].key);
      RequestsPositive(served, dims[i].key);
    }
    var results := EvalSliding(server, prefix, dims, at, members, batches, offset);
    assert results == Answers(ps, dims, k => RequestsOn(served, k), at);
    verdict := FromDims(results);
  }
}
