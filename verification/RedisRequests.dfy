/**
 Whole runs of requests against Redis: members drawn from the processes' counters meet the premise
 of the sliding window, and the allowed requests that carry a key obey its token bucket.
 */
module RedisRequests {
  import opened Outcomes
  import opened RateConfig
  import opened Histories
  import opened KeyMachine
  import opened Sweeping
  import opened RedisServer
  import opened Aggregation
  import opened Engine
  import opened RedisBackend
  import opened RedisSliding
  import RedisFixed
  import RedisBucket
  import RedisReports
  import Arithmetic

  // ---- Members come from draws ----

  /** The history when `n` entries had been made. */
  function Stage<T>(h: History<T>, n: nat): History<T> {
    if h.Start? || n >= Length(h) then h else Stage(h.before, n)
  }

  function Length<T>(h: History<T>): nat {
    match h
    case Start => 0
    case Then(before, _) => Length(before) + 1
  }

  /** Pids name processes: one process behind each pid. */
  predicate NamedBy(draws: History<Draw>, processOf: nat -> nat) {
    draws.Then? ==> draws.last.process == processOf(draws.last.pid) && NamedBy(draws.before, processOf)
  }

  predicate Taken(numbers: History<seq<nat>>, n: nat) {
    numbers.Then? && (n in numbers.last || Taken(numbers.before, n))
  }

  /**
   Every member sent was drawn, and no draw was sent in two requests. Requests may reach the server
   in another order than their members were drawn.
   */
  ghost predicate DrawnFrom(batches: History<Batch<SlidingArgs>>, numbers: History<seq<nat>>, draws: History<Draw>) {
    match batches
    case Start => numbers.Start?
    case Then(before, b) =>
      && numbers.Then? && DrawnFrom(before, numbers.before, draws) && |numbers.last| == |b.ops|
      && forall i :: 0 <= i < |b.ops| ==> IsDraw(b.ops[i].args.member, numbers.last[i], numbers.before, draws)
  }

  /** The member came from draw number `n`, which no earlier request used. */
  predicate IsDraw(m: Member, n: nat, earlier: History<seq<nat>>, draws: History<Draw>) {
    && 1 <= n <= Length(draws) && !Taken(earlier, n)
    && Stage(draws, n).Then? && m == UniqueMember(Stage(draws, n))
  }

  lemma {:induction false} StageEarlier(draws: History<Draw>, m: nat, n: nat)
    requires 1 <= m < n <= Length(draws)
    ensures Stage(draws, m).Then? && Earlier(Stage(draws, m), Stage(draws, n))
  {
    if n < Length(draws) {
      StageEarlier(draws.before, m, n);
    } else if m < n - 1 {
      StageEarlier(draws.before, m, n - 1);
    }
  }

  lemma {:induction false} StageNamed(draws: History<Draw>, processOf: nat -> nat, n: nat)
    requires NamedBy(draws, processOf) && 1 <= n <= Length(draws)
    ensures Stage(draws, n).Then? && Stage(draws, n).last.process == processOf(Stage(draws, n).last.pid)
  {
    if n < Length(draws) {
      StageNamed(draws.before, processOf, n);
    }
  }

  lemma DrawsDiffer(draws: History<Draw>, processOf: nat -> nat, m: nat, n: nat)
    requires NamedBy(draws, processOf) && 1 <= m < n <= Length(draws)
    ensures Stage(draws, m).Then? && Stage(draws, n).Then?
    ensures UniqueMember(Stage(draws, m)) != UniqueMember(Stage(draws, n))
  {
    StageEarlier(draws, m, n);
    StageNamed(draws, processOf, m);
    StageNamed(draws, processOf, n);
    DrawsDistinct(Stage(draws, m), Stage(draws, n));
  }

  lemma {:induction false} UsedWasTaken(batches: History<Batch<SlidingArgs>>, numbers: History<seq<nat>>,
                                        draws: History<Draw>, m: Member)
    returns (n: nat)
    requires DrawnFrom(batches, numbers, draws) && UsedIn(batches, m)
    ensures Taken(numbers, n) && 1 <= n <= Length(draws)
    ensures Stage(draws, n).Then? && m == UniqueMember(Stage(draws, n))
  {
    if i :| 0 <= i < |batches.last.ops| && batches.last.ops[i].args.member == m {
      assert IsDraw(m, numbers.last[i], numbers.before, draws);
      n := numbers.last[i];
    } else {
      n := UsedWasTaken(batches.before, numbers.before, draws, m);
    }
  }

  /** Where pids name processes, no request reuses a member, whatever order requests arrive in. */
  lemma {:induction false} DrawnAreFresh(batches: History<Batch<SlidingArgs>>, numbers: History<seq<nat>>,
                                         draws: History<Draw>, processOf: nat -> nat)
    requires DrawnFrom(batches, numbers, draws) && NamedBy(draws, processOf)
    ensures MembersFresh(batches)
  {
    if batches.Then? {
      DrawnAreFresh(batches.before, numbers.before, draws, processOf);
      forall i | 0 <= i < |batches.last.ops|
        ensures !UsedIn(batches.before, batches.last.ops[i].args.member)
      {
        var m, n := batches.last.ops[i].args.member, numbers.last[i];
        assert IsDraw(m, n, numbers.before, draws);
        if UsedIn(batches.before, m) {
          var k := UsedWasTaken(batches.before, numbers.before, draws, m);
          if k < n {
            DrawsDiffer(draws, processOf, k, n);
          } else if n < k {
            DrawsDiffer(draws, processOf, n, k);
          }
        }
      }
    }
  }

  /** So a request whose members were drawn meets the premise of `CheckSliding`. */
  lemma DrawnMembersLive(batches: History<Batch<SlidingArgs>>, prefix: string, dims: seq<Dimension>, at: Stamp,
                         members: seq<Member>, numbers: History<seq<nat>>, draws: History<Draw>, processOf: nat -> nat)
    requires |members| == |dims| && BatchesDistinct(batches) && NamedBy(draws, processOf)
    requires DrawnFrom(Then(batches, Batch(at, Ops(prefix, dims, SlidingArgsFor(dims, members)))), numbers, draws)
    ensures MembersLive(batches, prefix, dims, at, members)
  {
    var batch := Batch(at, Ops(prefix, dims, SlidingArgsFor(dims, members)));
    DrawnAreFresh(Then(batches, batch), numbers, draws, processOf);
    FreshIsLive(batches, prefix, dims, at, members);
  }

  // ---- Token buckets ----

  function Unixes(calls: History<Stamp>): History<int> {
    match calls
    case Start => Start
    case Then(before, at) => Then(Unixes(before), at.unix)
  }

  lemma {:induction false} UnixesOfVisits<A>(visits: History<Visit<A>>)
    ensures UnixTimes(visits) == Unixes(Stamps(visits))
  {
    if visits.Then? {
      UnixesOfVisits(visits.before);
    }
  }

  /** The answers of exact buckets, given the calls made on each key so far. */
  ghost function BucketAnswers(dims: seq<Dimension>, callsOn: string -> History<Stamp>, now: int): seq<DimResult>
    requires ValidChecks(dims)
  {
    seq(|dims|, i requires 0 <= i < |dims| =>
      RedisBucket.Answer(BucketDimOf(dims[i].rate), Unixes(callsOn(dims[i].key)), now, true))
  }

  lemma ConfiguredValid(ps: Policies, dims: seq<Dimension>, algorithm: Algorithm)
    requires ValidPolicies(ps) && Configured(ps, dims, algorithm)
    ensures ValidChecks(dims)
  {
    forall i | 0 <= i < |dims|
      ensures ValidRate(dims[i].rate)
    {
      assert ps(dims[i].key) == Policy(dims[i].rate, algorithm);
    }
  }

  /** A request checked against token buckets in Redis gets the aggregate of its keys' own exact buckets. */
  method CheckTokenBucket(server: Server<RedisBucket.Bucket>, prefix: string, dims: seq<Dimension>, at: Stamp,
                          ghost ps: Policies, ghost served: History<Served>, ghost batches: History<Batch<BucketDim>>)
    returns (verdict: EvalResult, ghost batches': History<Batch<BucketDim>>)
    requires ValidPolicies(ps) && ValidChecks(dims) && server.db == DbAfter(BUCKET_TIMED, batches)
    requires Records(prefix, served, batches, BUCKET_ITS_DIM)
    requires AllConfigured(ps, Then(served, Served(dims, at)), TokenBucket)
    modifies server
    ensures verdict == FromDims(BucketAnswers(dims, k => RequestsOn(served, k), at.unix))
    ensures Records(prefix, Then(served, Served(dims, at)), batches', BUCKET_ITS_DIM)
    ensures server.db == DbAfter(BUCKET_TIMED, batches')
  {
    hide RedisKey, FromDims, RunBatch, RedisBucket.Answer;
    forall i | 0 <= i < |dims|
      ensures var visits := Visits(batches, RedisKey(prefix, dims[i]));
              && AllDims(visits, BUCKET_ITS_DIM, RedisFixed.DimOf(dims[i].rate))
              && UnixTimes(visits) == Unixes(RequestsOn(served, dims[i].key))
    {
      assert ps(dims[i].key) == Policy(dims[i].rate, TokenBucket);
      VisitsAreRequests(ps, prefix, served, batches, BUCKET_ITS_DIM, TokenBucket, dims[i]);
      UnixesOfVisits(Visits(batches, RedisKey(prefix, dims[i])));
    }
    RecordsDistinct(ps, prefix, served, batches, BUCKET_ITS_DIM, TokenBucket);
    var results := EvalTokenBucket(server, prefix, dims, at, batches);
    assert results == BucketAnswers(dims, k => RequestsOn(served, k), at.unix);
    verdict := FromDims(results);
    batches' := Then(batches, Batch(at, Ops(prefix, dims, BucketArgs(dims))));
  }

  /** Times of the allowed requests that carried a key. */
  ghost function AllowedInRedis(ps: Policies, served: History<Served>, k: string): History<int>
    requires ValidPolicies(ps) && AllConfigured(ps, served, TokenBucket)
  {
    match served
    case Start => Start
    case Then(before, s) =>
      ConfiguredValid(ps, s.dims, TokenBucket);
      var earlier := AllowedInRedis(ps, before, k);
      if Carries(s.dims, k) && FromDims(BucketAnswers(s.dims, key => RequestsOn(before, key), s.at.unix)).allowed
      then Then(earlier, s.at.unix) else earlier
  }

  lemma CarriedAnswer(ps: Policies, dims: seq<Dimension>, callsOn: string -> History<Stamp>, now: int, k: string)
    requires ValidPolicies(ps) && Configured(ps, dims, TokenBucket) && ValidChecks(dims) && Carries(dims, k)
    requires FromDims(BucketAnswers(dims, callsOn, now)).allowed
    ensures RedisBucket.Answer(BucketDimOf(ps(k).rate), Unixes(callsOn(k)), now, true).allowed
  {
    hide RedisBucket.Answer, FromDims;
    var answers := BucketAnswers(dims, callsOn, now);
    AllowedMeansAll(answers);
    var i :| 0 <= i < |dims| && dims[i].key == k;
    assert ps(dims[i].key) == Policy(dims[i].rate, TokenBucket) && answers[i].allowed;
  }

  lemma AllowedMeansAll(dims: seq<DimResult>)
    ensures FromDims(dims).allowed ==> AllAllowed(dims)
  {
    BlockedAndPassed(dims);
  }

  /** An allowed request was admitted by every bucket it carried. */
  lemma {:induction false} AllowedByBucket(ps: Policies, served: History<Served>, k: string, lo: int, hi: int)
    requires ValidPolicies(ps) && AllConfigured(ps, served, TokenBucket)
    ensures Count(AllowedInRedis(ps, served, k), lo, hi)
         <= Count(RedisBucket.Admitted(BucketDimOf(ps(k).rate), Unixes(RequestsOn(served, k)), true), lo, hi)
  {
    hide RedisBucket.Answer, FromDims, Configured;
    if served.Then? {
      var before, s := served.before, served.last;
      AllowedByBucket(ps, before, k, lo, hi);
      ConfiguredValid(ps, s.dims, TokenBucket);
      if Carries(s.dims, k) && FromDims(BucketAnswers(s.dims, key => RequestsOn(before, key), s.at.unix)).allowed {
        CarriedAnswer(ps, s.dims, key => RequestsOn(before, key), s.at.unix, k);
      }
    }
  }

  /**
   In any run against Redis, the allowed requests carrying a key obey its bucket: capacity plus what
   the interval earns.
   */
  lemma RedisRequestBound(ps: Policies, served: History<Served>, k: string, lo: int, hi: int)
    requires ValidPolicies(ps) && AllConfigured(ps, served, TokenBucket)
    requires Rising(Unixes(RequestsOn(served, k))) && lo <= hi
    ensures var d := BucketDimOf(ps(k).rate);
            Count(AllowedInRedis(ps, served, k), lo, hi) * d.windowSecs <= d.limit * d.windowSecs + d.limit * (hi - lo)
  {
    hide RedisBucket.Admitted;
    var d, calls := BucketDimOf(ps(k).rate), Unixes(RequestsOn(served, k));
    AllowedByBucket(ps, served, k, lo, hi);
    RedisReports.RedisRateBound(d, calls, lo, hi);
    Arithmetic.MulMono(Count(AllowedInRedis(ps, served, k), lo, hi),
                       Count(RedisBucket.Admitted(d, calls, true), lo, hi), d.windowSecs);
  }
}
