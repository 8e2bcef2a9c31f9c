/** One verdict out of the answers of several dimensions. */
module Aggregation {
  import opened Outcomes
  import opened KeyMachine
  import opened RateConfig

  const I64_MAX: int := 0x7FFF_FFFF_FFFF_FFFF

  datatype EvalDimension = EvalDimension(remaining: nat, resetTimestamp: int, retryAfter: Option<int>)

  datatype EvalResult = EvalResult(
    allowed: bool, limit: nat, remaining: nat, resetTimestamp: int, retryAfter: Option<int>,
    violated: seq<EvalDimension>, passed: seq<EvalDimension>)

  function RetryKey(d: DimResult): int {
    if d.retryAfter.Some? then d.retryAfter.value else I64_MAX
  }

  function Blocked(dims: seq<DimResult>): seq<DimResult> {
    if dims == [] then [] else (if dims[0].allowed then [] else [dims[0]]) + Blocked(dims[1..])
  }

  function Passed(dims: seq<DimResult>): seq<DimResult> {
    if dims == [] then [] else (if dims[0].allowed then [dims[0]] else []) + Passed(dims[1..])
  }

  /** Index of the first element with the smallest key. */
  function MinBy(dims: seq<DimResult>, key: DimResult -> int): (i: nat)
    requires dims != []
    ensures i < |dims|
    ensures forall j :: 0 <= j < |dims| ==> key(dims[i]) <= key(dims[j])
    ensures forall j :: 0 <= j < i ==> key(dims[i]) < key(dims[j])
  {
    if |dims| == 1 then 0
    else
      var i := 1 + MinBy(dims[1..], key);
      if key(dims[0]) <= key(dims[i]) then 0 else i
  }

  function Expose(d: DimResult): EvalDimension {
    EvalDimension(d.remaining, d.resetTimestamp, if d.allowed then None else d.retryAfter)
  }

  function ExposeAll(dims: seq<DimResult>): seq<EvalDimension> {
    seq(|dims|, i requires 0 <= i < |dims| => Expose(dims[i]))
  }

  function FromDims(dims: seq<DimResult>): EvalResult {
    var blocked, passed := Blocked(dims), Passed(dims);
    if dims == [] then EvalResult(true, U64_MAX, U64_MAX, 0, None, [], [])
    else if blocked != [] then
      var worst := blocked[MinBy(blocked, RetryKey)];
      EvalResult(false, worst.limit, 0, worst.resetTimestamp, worst.retryAfter, ExposeAll(blocked), ExposeAll(passed))
    else
      var tightest := dims[MinBy(dims, (d: DimResult) => d.remaining)];
      EvalResult(true, tightest.limit, tightest.remaining, tightest.resetTimestamp, None,
                 ExposeAll(blocked), ExposeAll(passed))
  }

  ghost predicate AllAllowed(dims: seq<DimResult>) {
    forall i :: 0 <= i < |dims| ==> dims[i].allowed
  }

  /** A denial always says how long to wait. */
  ghost predicate WellAnswered(dims: seq<DimResult>) {
    forall i :: 0 <= i < |dims| ==> (dims[i].allowed <==> dims[i].retryAfter.None?)
  }

  lemma {:induction false} BlockedAndPassed(dims: seq<DimResult>)
    ensures Blocked(dims) == [] <==> AllAllowed(dims)
    ensures forall d :: d in Blocked(dims) <==> d in dims && !d.allowed
    ensures forall d :: d in Passed(dims) <==> d in dims && d.allowed
    ensures |Blocked(dims)| + |Passed(dims)| == |dims|
  {
    if dims != [] {
      BlockedAndPassed(dims[1..]);
      assert dims == [dims[0]] + dims[1..];
    }
  }

  lemma ExposeCons(d: DimResult, dims: seq<DimResult>)
    ensures ExposeAll([d] + dims) == [Expose(d)] + ExposeAll(dims)
  {
  }

  lemma OneMore(x: EvalDimension, b: seq<EvalDimension>, p: seq<EvalDimension>, all: seq<EvalDimension>)
    requires multiset(b) + multiset(p) == multiset(all)
    ensures multiset([x] + b) + multiset(p) == multiset([x] + all)
    ensures multiset(b) + multiset([x] + p) == multiset([x] + all)
  {
  }

  lemma BlockedStep(first: DimResult, rest: seq<DimResult>)
    ensures Blocked([first] + rest) == if first.allowed then Blocked(rest) else [first] + Blocked(rest)
    ensures Passed([first] + rest) == if first.allowed then [first] + Passed(rest) else Passed(rest)
  {
    assert ([first] + rest)[1..] == rest;
  }

  lemma {:induction false} BlockedPassedPartition(dims: seq<DimResult>)
    ensures multiset(ExposeAll(Blocked(dims))) + multiset(ExposeAll(Passed(dims))) == multiset(ExposeAll(dims))
  {
    hide Expose, ExposeAll, Blocked, Passed;
    if dims == [] {
      ExposeNothing();
    } else {
      var first, rest := dims[0], dims[1..];
      BlockedPassedPartition(rest);
      BlockedStep(first, rest);
      ExposeCons(first, rest);
      ExposeCons(first, Blocked(rest));
      ExposeCons(first, Passed(rest));
      OneMore(Expose(first), ExposeAll(Blocked(rest)), ExposeAll(Passed(rest)), ExposeAll(rest));
      assert dims == [first] + rest;
    }
  }

  lemma ExposeNothing()
    ensures ExposeAll([]) == [] && Blocked([]) == [] && Passed([]) == []
  {
  }

  lemma ReportedLists(dims: seq<DimResult>)
    ensures FromDims(dims).violated == ExposeAll(Blocked(dims)) && FromDims(dims).passed == ExposeAll(Passed(dims))
  {
  }

  lemma ExposedFrom(dims: seq<DimResult>, v: EvalDimension)
    requires v in ExposeAll(dims)
    ensures exists d :: d in dims && v == Expose(d)
  {
    var i :| 0 <= i < |ExposeAll(dims)| && ExposeAll(dims)[i] == v;
    assert dims[i] in dims;
  }

  /**
   The report partitions the dimensions: each appears once, a blocked one as violated with its wait,
   an admitting one as passed without.
   */
  lemma ReportPartitions(dims: seq<DimResult>)
    ensures var r := FromDims(dims);
            && |r.violated| + |r.passed| == |dims|
            && multiset(r.violated) + multiset(r.passed) == multiset(ExposeAll(dims))
            && (forall v :: v in r.violated <==>
                  exists d :: d in dims && !d.allowed
                      && v == EvalDimension(d.remaining, d.resetTimestamp, d.retryAfter))
            && (forall v :: v in r.passed <==>
                  exists d :: d in dims && d.allowed && v == EvalDimension(d.remaining, d.resetTimestamp, None))
            && (r.violated == [] <==> r.allowed)
  {
    BlockedAndPassed(dims);
    BlockedPassedPartition(dims);
    ReportedLists(dims);
    forall v
      ensures v in FromDims(dims).violated <==>
                exists d :: d in dims && !d.allowed && v == EvalDimension(d.remaining, d.resetTimestamp, d.retryAfter)
    {
      ExposedIff(Blocked(dims), v);
    }
    forall v
      ensures v in FromDims(dims).passed <==>
                exists d :: d in dims && d.allowed && v == EvalDimension(d.remaining, d.resetTimestamp, None)
    {
      ExposedIff(Passed(dims), v);
    }
  }

  lemma ExposedIff(dims: seq<DimResult>, v: EvalDimension)
    ensures v in ExposeAll(dims) <==>
              exists d :: d in dims
                && v == EvalDimension(d.remaining, d.resetTimestamp, if d.allowed then None else d.retryAfter)
  {
    if v in ExposeAll(dims) {
      ExposedFrom(dims, v);
    }
    if d :| d in dims && v == EvalDimension(d.remaining, d.resetTimestamp, if d.allowed then None else d.retryAfter) {
      var i :| 0 <= i < |dims| && dims[i] == d;
      assert ExposeAll(dims)[i] == v;
    }
  }

  /** The first of the dimensions for which `key` is least. */
  ghost predicate FirstLeast(dims: seq<DimResult>, key: DimResult -> int, d: DimResult) {
    exists i :: 0 <= i < |dims| && dims[i] == d
      && (forall j :: 0 <= j < |dims| ==> key(d) <= key(dims[j])) && forall j :: 0 <= j < i ==> key(d) < key(dims[j])
  }

  /** The first of the blocked dimensions with the least wait. */
  ghost predicate FirstBlocked(dims: seq<DimResult>, d: DimResult) {
    exists i :: FirstBlockedAt(dims, d, i)
  }

  ghost predicate FirstBlockedAt(dims: seq<DimResult>, d: DimResult, i: int) {
    && 0 <= i < |dims| && dims[i] == d && !d.allowed
    && (forall j :: 0 <= j < |dims| && !dims[j].allowed ==> RetryKey(d) <= RetryKey(dims[j]))
    && (forall j :: 0 <= j < i && !dims[j].allowed ==> RetryKey(d) < RetryKey(dims[j]))
  }

  /** Where the blocked dimensions stand among all: `at[k]` is the place of the `k`-th. */
  ghost predicate Places(dims: seq<DimResult>, blocked: seq<DimResult>, at: seq<nat>) {
    && |at| == |blocked|
    && (forall k :: 0 <= k < |at| ==> at[k] < |dims| && dims[at[k]] == blocked[k])
    && (forall k, l :: 0 <= k < l < |at| ==> at[k] < at[l])
    && (forall j: nat :: j < |dims| && !dims[j].allowed ==> j in at)
  }

  function Shifted(at: seq<nat>): (s: seq<nat>)
    ensures |s| == |at| && forall k :: 0 <= k < |at| ==> s[k] == at[k] + 1
  {
    seq(|at|, k requires 0 <= k < |at| => at[k] + 1)
  }

  lemma ShiftedHas(at: seq<nat>, j: nat)
    requires j in at
    ensures j + 1 in Shifted(at)
  {
    var k :| 0 <= k < |at| && at[k] == j;
    assert Shifted(at)[k] == j + 1;
  }

  lemma PlacesSkip(first: DimResult, rest: seq<DimResult>, blocked: seq<DimResult>, later: seq<nat>)
    requires Places(rest, blocked, later) && first.allowed
    ensures Places([first] + rest, blocked, Shifted(later))
  {
    var dims := [first] + rest;
    forall j: nat | j < |dims| && !dims[j].allowed
      ensures j in Shifted(later)
    {
      assert rest[j - 1] == dims[j];
      ShiftedHas(later, j - 1);
    }
    assert forall k :: 0 <= k < |later| ==> dims[Shifted(later)[k]] == rest[later[k]];
  }

  lemma PlacesTake(first: DimResult, rest: seq<DimResult>, blocked: seq<DimResult>, later: seq<nat>)
    requires Places(rest, blocked, later)
    ensures Places([first] + rest, [first] + blocked, [0] + Shifted(later))
  {
    var dims, all, at := [first] + rest, [first] + blocked, [0] + Shifted(later);
    forall k | 0 <= k < |at|
      ensures at[k] < |dims| && dims[at[k]] == all[k]
    {
      if k > 0 {
        assert at[k] == later[k - 1] + 1 && dims[at[k]] == rest[later[k - 1]] && all[k] == blocked[k - 1];
      }
    }
    forall k, l | 0 <= k < l < |at|
      ensures at[k] < at[l]
    {
      assert at[l] == later[l - 1] + 1;
      assert k > 0 ==> at[k] == later[k - 1] + 1;
    }
    forall j: nat | j < |dims| && !dims[j].allowed
      ensures j in at
    {
      if j > 0 {
        assert rest[j - 1] == dims[j];
        ShiftedHas(later, j - 1);
      }
    }
  }

  lemma {:induction false} BlockedPlaces(dims: seq<DimResult>) returns (at: seq<nat>)
    ensures Places(dims, Blocked(dims), at)
  {
    hide Places, Blocked;
    if dims == [] {
      at := [];
      NoPlaces();
    } else {
      var later := BlockedPlaces(dims[1..]);
      BlockedStep(dims[0], dims[1..]);
      if dims[0].allowed {
        PlacesSkip(dims[0], dims[1..], Blocked(dims[1..]), later);
      } else {
        PlacesTake(dims[0], dims[1..], Blocked(dims[1..]), later);
      }
      assert dims == [dims[0]] + dims[1..];
      at := if dims[0].allowed then Shifted(later) else [0] + Shifted(later);
    }
  }

  lemma NoPlaces()
    ensures Places([], Blocked([]), [])
  {
  }

  lemma LeastBlocked(dims: seq<DimResult>) returns (i: nat)
    requires Blocked(dims) != []
    ensures FirstBlockedAt(dims, Blocked(dims)[MinBy(Blocked(dims), RetryKey)], i)
  {
    hide RetryKey, Blocked;
    var blocked := Blocked(dims);
    var at := BlockedPlaces(dims);
    var m := MinBy(blocked, RetryKey);
    BlockedAndPassed(dims);
    i := at[m];
    assert blocked[m] in blocked;
    forall j | 0 <= j < |dims| && !dims[j].allowed
      ensures RetryKey(blocked[m]) <= RetryKey(dims[j]) && (j < i ==> RetryKey(blocked[m]) < RetryKey(dims[j]))
    {
      var k :| 0 <= k < |at| && at[k] == j;
      assert dims[j] == blocked[k];
    }
  }

  /** With nothing to check the request is allowed without limit; ties go to the dimension checked first. */
  lemma VerdictSource(dims: seq<DimResult>)
    requires WellAnswered(dims)
    ensures var r := FromDims(dims);
            && (dims == [] ==> r == EvalResult(true, 0xFFFF_FFFF_FFFF_FFFF, 0xFFFF_FFFF_FFFF_FFFF, 0, None, [], []))
            && (!r.allowed ==>
                  exists d :: FirstBlocked(dims, d)
                    && (r.limit, r.remaining, r.resetTimestamp, r.retryAfter)
                        == (d.limit, 0, d.resetTimestamp, d.retryAfter))
            && (r.allowed && dims != [] ==>
                  exists d :: FirstLeast(dims, (x: DimResult) => x.remaining, d)
                    && (r.limit, r.remaining, r.resetTimestamp, r.retryAfter)
                        == (d.limit, d.remaining, d.resetTimestamp, None))
  {
    hide FirstBlockedAt;
    BlockedAndPassed(dims);
    var blocked := Blocked(dims);
    if blocked != [] {
      var i := LeastBlocked(dims);
      assert FirstBlocked(dims, blocked[MinBy(blocked, RetryKey)]);
    } else if dims != [] {
      var i := MinBy(dims, (x: DimResult) => x.remaining);
      assert FirstLeast(dims, (x: DimResult) => x.remaining, dims[i]);
    }
  }

  /**
   Allowed iff every dimension allows; a denial waits for the first dimension to reopen, an admission
   reports the tightest.
   */
  lemma AggregateMeaning(dims: seq<DimResult>)
    requires WellAnswered(dims)
    ensures var r := FromDims(dims);
            && (r.allowed <==> AllAllowed(dims))
            && (r.retryAfter.Some? <==> !r.allowed)
            && (!r.allowed ==>
                  && r.remaining == 0
                  && (exists d :: d in dims && !d.allowed
                                  && (r.limit, r.resetTimestamp, r.retryAfter)
                                      == (d.limit, d.resetTimestamp, d.retryAfter))
                  && (forall d :: d in dims && !d.allowed ==> r.retryAfter.value <= d.retryAfter.value))
            && (r.allowed && dims != [] ==>
                  && (exists d :: d in dims
                                  && (r.limit, r.remaining, r.resetTimestamp)
                                      == (d.limit, d.remaining, d.resetTimestamp))
                  && (forall d :: d in dims ==> r.remaining <= d.remaining))
  {
    BlockedAndPassed(dims);
    var blocked := Blocked(dims);
    forall d | d in blocked
      ensures d.retryAfter.Some?
    {
      assert d in dims;
    }
    if dims != [] {
      if blocked != [] {
        var worst := blocked[MinBy(blocked, RetryKey)];
        assert worst in blocked && worst in dims;
        forall d | d in dims && !d.allowed
          ensures worst.retryAfter.value <= d.retryAfter.value
        {
          assert d in blocked;
          var j :| 0 <= j < |blocked| && blocked[j] == d;
          assert RetryKey(worst) <= RetryKey(blocked[j]);
        }
      } else {
        var tightest := dims[MinBy(dims, (d: DimResult) => d.remaining)];
        assert tightest in dims;
      }
    }
  }
}
