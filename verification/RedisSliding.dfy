/**
 The sliding window in Redis: a sorted set of admitted times. It answers as the in-process
 deque does as long as no two admissions share a member.
 */
module RedisSliding {
  import opened Outcomes
  import opened RateConfig
  import opened Histories
  import opened KeyMachine
  import opened WindowBounds
  import opened RedisServer

  /** `{now}:{pid}:{counter}`. */
  datatype Member = Member(now: int, pid: nat, n: nat)

  datatype Scored = Scored(member: Member, score: int)

  /** A sorted set in rank order. */
  type SortedSet = seq<Scored>

  datatype Reply = Reply(allowed: int, count: nat, oldest: int)

  /** `ZREMRANGEBYSCORE key -inf cutoff`. */
  function RemoveUpTo(z: SortedSet, cutoff: int): SortedSet {
    if z == [] then []
    else if z[0].score <= cutoff then RemoveUpTo(z[1..], cutoff)
    else [z[0]] + RemoveUpTo(z[1..], cutoff)
  }

  function Remove(z: SortedSet, m: Member): SortedSet {
    if z == [] then [] else if z[0].member == m then z[1..] else [z[0]] + Remove(z[1..], m)
  }

  function Insert(z: SortedSet, s: Scored): SortedSet {
    if z == [] || z[|z| - 1].score <= s.score then z + [s]
    else Insert(z[..|z| - 1], s) + [z[|z| - 1]]
  }

  /** `ZADD`: a member already present is moved, not added. */
  function Add(z: SortedSet, m: Member, score: int): SortedSet {
    Insert(Remove(z, m), Scored(m, score))
  }

  function Oldest(z: SortedSet): int {
    if z == [] then 0 else z[0].score
  }

  /** What one key's sorted set keeps for a call. */
  function Kept(e: Option<Entry<SortedSet>>, d: Dim, now: int): SortedSet {
    var live := LiveAt(e, now);
    if live.Some? then RemoveUpTo(live.value.value, now - d.windowSecs) else []
  }

  /** `EXPIRE` does nothing to a key that does not exist, and an empty sorted set does not. */
  function SlidingScript(e: Option<Entry<SortedSet>>, d: Dim, m: Member, now: int): (Option<Entry<SortedSet>>, Reply) {
    var kept := Kept(e, d, now);
    var expiry := if kept == [] then None else Some(now + d.windowSecs + 1);
    if |kept| >= d.limit then
      (if kept == [] then None else Some(Entry(kept, expiry)), Reply(0, |kept|, Oldest(kept)))
    else
      var added := Add(kept, m, now);
      (Some(Entry(added, expiry)), Reply(1, |kept| + 1, Oldest(added)))
  }

  function Interpret(r: Reply, d: Dim, nowUnix: int): DimResult {
    var reset := r.oldest + d.windowSecs;
    if r.allowed == 0
    then DimResult(false, d.limit, 0, reset, Some(Max(reset - nowUnix, 1)))
    else DimResult(true, d.limit, SatSub(d.limit, r.count), reset, None)
  }

  /** A call brings the member it would add. */
  type Call = Visit<Member>

  function Stored(d: Dim, calls: History<Call>): Option<Entry<SortedSet>> {
    match calls
    case Start => None
    case Then(before, c) => SlidingScript(Stored(d, before), d, c.args, c.at.unix).0
  }

  function RedisResult(d: Dim, calls: History<Call>, c: Call): DimResult {
    Interpret(SlidingScript(Stored(d, calls), d, c.args, c.at.unix).1, d, c.at.unix)
  }

  /** No entry holds this member. */
  ghost predicate NewTo(z: SortedSet, m: Member) {
    forall x :: x in z ==> x.member != m
  }

  /** Would an admitted `c` add an entry, rather than move one? */
  ghost predicate RecordsCall(d: Dim, calls: History<Call>, c: Call) {
    var kept := Kept(Stored(d, calls), d, c.at.unix);
    |kept| < d.limit ==> NewTo(kept, c.args)
  }

  /** Every admission was recorded: its member was not among those still in the window. */
  ghost predicate LiveDistinct(d: Dim, calls: History<Call>) {
    calls.Then? ==> LiveDistinct(d, calls.before) && RecordsCall(d, calls.before, calls.last)
  }

  /** Scores are the deque's times, rank by rank. */
  ghost predicate SameTimes(z: SortedSet, ts: seq<nat>, offset: int) {
    |z| == |ts| && forall i :: 0 <= i < |z| ==> ts[i] == z[i].score * NANOS_PER_SEC + offset
  }

  ghost predicate Ascending(ts: seq<nat>) {
    forall i, j :: 0 <= i < j < |ts| ==> ts[i] <= ts[j]
  }

  /** Removing by score and popping stale times from the front are the same on ascending times. */
  lemma {:induction false} RemoveIsPop(z: SortedSet, ts: seq<nat>, offset: int, now: int, w: nat, mono: nat)
    requires SameTimes(z, ts, offset) && Ascending(ts)
    requires mono == now * NANOS_PER_SEC + offset && forall i :: 0 <= i < |ts| ==> 1 <= ts[i]
    ensures SameTimes(RemoveUpTo(z, now - w), DropStale(ts, SatSub(mono, w * NANOS_PER_SEC)), offset)
    ensures forall s :: s in RemoveUpTo(z, now - w) ==> s in z
  {
    if z != [] {
      RemoveIsPop(z[1..], ts[1..], offset, now, w, mono);
      assert forall x :: x in z[1..] ==> x in z;
      var cutoff := SatSub(mono, w * NANOS_PER_SEC);
      assert z[0].score <= now - w <==> ts[0] <= cutoff;
      if ts[0] > cutoff {
        NothingStale(z[1..], ts[1..], offset, now, w);
        assert [z[0]] + z[1..] == z;
      }
    }
  }

  lemma {:induction false} NothingStale(z: SortedSet, ts: seq<nat>, offset: int, now: int, w: nat)
    requires SameTimes(z, ts, offset)
    requires forall i :: 0 <= i < |ts| ==> ts[i] > (now - w) * NANOS_PER_SEC + offset
    ensures RemoveUpTo(z, now - w) == z
  {
    if z != [] {
      NothingStale(z[1..], ts[1..], offset, now, w);
      assert [z[0]] + z[1..] == z;
    }
  }

  lemma {:induction false} RemoveAbsent(z: SortedSet, m: Member)
    requires forall s :: s in z ==> s.member != m
    ensures Remove(z, m) == z
  {
    if z != [] {
      assert z[0] in z;
      assert forall s :: s in z[1..] ==> s in z;
      RemoveAbsent(z[1..], m);
      assert [z[0]] + z[1..] == z;
    }
  }

  lemma {:induction false} RemoveAll(z: SortedSet, cutoff: int)
    requires forall s :: s in z ==> s.score <= cutoff
    ensures RemoveUpTo(z, cutoff) == []
  {
    if z != [] {
      assert z[0] in z;
      assert forall s :: s in z[1..] ==> s in z;
      RemoveAll(z[1..], cutoff);
    }
  }

  function Contents(e: Option<Entry<SortedSet>>): SortedSet {
    if e.Some? then e.value.value else []
  }

  /** After the last call: same times, and an expiry no score outlives. */
  ghost predicate Simulates(d: Dim, s: Option<KeyState>, e: Option<Entry<SortedSet>>, calls: History<Call>,
                            offset: int) {
    var z := Contents(e);
    && SameTimes(z, Deque(s), offset)
    && (calls.Then? ==> forall x :: x in z ==> x.score <= calls.last.at.unix)
    && (e.Some? && e.value.expireAt.Some? ==>
          calls.Then? && e.value.expireAt == Some(calls.last.at.unix + d.windowSecs + 1))
  }

  /** An expired key held only stale scores: what the script keeps does not depend on expiry. */
  lemma KeptIgnoresExpiry(e: Option<Entry<SortedSet>>, d: Dim, now: int, last: int)
    requires last <= now && forall x :: x in Contents(e) ==> x.score <= last
    requires e.Some? && e.value.expireAt.Some? ==> e.value.expireAt.value == last + d.windowSecs + 1
    ensures Kept(e, d, now) == RemoveUpTo(Contents(e), now - d.windowSecs)
  {
    if LiveAt(e, now).None? {
      RemoveAll(Contents(e), now - d.windowSecs);
    }
  }

  /** A key is read as long as it has not expired, and is empty after. */
  lemma KeptIs(e: Option<Entry<SortedSet>>, d: Dim, now: int)
    ensures Kept(e, d, now)
         == if e.Some? && (e.value.expireAt.Some? ==> now < e.value.expireAt.value)
            then RemoveUpTo(e.value.value, now - d.windowSecs) else []
    ensures forall x :: x in Kept(e, d, now) ==> x.score > now - d.windowSecs
  {
    if LiveAt(e, now).Some? {
      RemovedAll(e.value.value, now - d.windowSecs);
    }
  }

  lemma {:induction false} RemovedAll(z: SortedSet, cutoff: int)
    ensures forall x :: x in RemoveUpTo(z, cutoff) <==> x in z && x.score > cutoff
  {
    if z != [] {
      RemovedAll(z[1..], cutoff);
      assert z == [z[0]] + z[1..];
    }
  }

  function Latest(calls: History<Call>, otherwise: int): int {
    if calls.Then? then calls.last.at.unix else otherwise
  }

  /** Popped deque = what the script keeps. */
  lemma KeptIsLive(p: Policy, d: Dim, calls: History<Call>, at: Stamp, offset: int)
    requires ValidRate(p.rate) && p.algorithm.SlidingWindow? && d.windowSecs * NANOS_PER_SEC == p.rate.windowNanos
    requires Positive(Stamps(calls)) && Ordered(Then(Stamps(calls), at)) && WholeSeconds(Stamps(calls), offset)
    requires at.mono == at.unix * NANOS_PER_SEC + offset
    requires Simulates(d, Solo(p, Stamps(calls)), Stored(d, calls), calls, offset)
    ensures var kept := Kept(Stored(d, calls), d, at.unix);
            && SameTimes(kept, DropStale(Deque(Solo(p, Stamps(calls))), SatSub(at.mono, p.rate.windowNanos)), offset)
            && (forall x :: x in kept ==> x.score <= at.unix)
  {
    hide Evaluate, SlidingScript, Kept, DropStale, RemoveUpTo, Deque;
    var e, ts := Stored(d, calls), Deque(Solo(p, Stamps(calls)));
    DequeAscending(p, Stamps(calls));
    KeptIgnoresExpiry(e, d, at.unix, Latest(calls, at.unix));
    RemoveIsPop(Contents(e), ts, offset, at.unix, d.windowSecs, at.mono);
  }

  /** Facts about the deque a run leaves. */
  lemma DequeAscending(p: Policy, calls: History<Stamp>)
    requires ValidRate(p.rate) && p.algorithm.SlidingWindow? && Positive(calls) && Ordered(calls)
    ensures Ascending(Deque(Solo(p, calls)))
    ensures forall i :: 0 <= i < |Deque(Solo(p, calls))| ==> 1 <= Deque(Solo(p, calls))[i]
  {
    hide Evaluate;
    if calls.Then? {
      SlidingDequeIsHistory(p, calls);
      AdmittedPositive(p, calls);
      AdmittedAscending(p, calls);
      AfterAscending(Admitted(p, calls), calls.last.mono - p.rate.windowNanos);
    }
  }

  lemma {:induction false} AdmittedAscending(p: Policy, calls: History<Stamp>)
    requires ValidRate(p.rate) && Ordered(calls)
    ensures Rising(Admitted(p, calls))
  {
    hide Evaluate;
    if calls.Then? {
      AdmittedAscending(p, calls.before);
      AdmittedBy(p, calls.before, calls.last.mono);
    }
  }

  lemma {:induction false} AfterAscending(h: History<nat>, cutoff: int)
    requires Rising(h) && AtLeast(h, 1)
    ensures Ascending(After(h, cutoff))
    ensures forall i :: 0 <= i < |After(h, cutoff)| ==> 1 <= After(h, cutoff)[i]
    ensures forall b :: AtMost(h, b) ==> forall i :: 0 <= i < |After(h, cutoff)| ==> After(h, cutoff)[i] <= b
  {
    if h.Then? {
      RisingAtMost(h);
      AfterAscending(h.before, cutoff);
    }
  }

  lemma {:induction false} DropStaleHead(ts: seq<nat>, cutoff: nat)
    ensures DropStale(ts, cutoff) != [] ==> cutoff < DropStale(ts, cutoff)[0]
  {
    if |ts| > 0 && ts[0] <= cutoff {
      DropStaleHead(ts[1..], cutoff);
    }
  }

  lemma FreshIsAppended(z: SortedSet, m: Member, now: int)
    requires forall x :: x in z ==> x.member != m && x.score <= now
    ensures Add(z, m, now) == z + [Scored(m, now)]
  {
    RemoveAbsent(z, m);
    assert |z| > 0 ==> z[|z| - 1] in z;
  }

  /** The reply read by the caller is the in-process answer. */
  lemma SameAnswer(p: Policy, d: Dim, s: Option<KeyState>, e: Option<Entry<SortedSet>>, c: Call, offset: int)
    requires ValidRate(p.rate) && p.algorithm.SlidingWindow?
    requires d.limit == p.rate.count && d.windowSecs * NANOS_PER_SEC == p.rate.windowNanos
    requires s.Some? ==> StateMatches(p, s.value)
    requires c.at.mono == c.at.unix * NANOS_PER_SEC + offset
    requires SameTimes(Kept(e, d, c.at.unix), DropStale(Deque(s), SatSub(c.at.mono, p.rate.windowNanos)), offset)
    requires forall x :: x in Kept(e, d, c.at.unix) ==> x.score <= c.at.unix
    requires |Kept(e, d, c.at.unix)| < d.limit ==> NewTo(Kept(e, d, c.at.unix), c.args)
    ensures Advance(p, s, c.at).1 == Interpret(SlidingScript(e, d, c.args, c.at.unix).1, d, c.at.unix)
  {
    hide Evaluate, RemoveUpTo, DropStale;
    var kept := Kept(e, d, c.at.unix);
    if |kept| < d.limit {
      FreshIsAppended(kept, c.args, c.at.unix);
    }
    SlidingCall(p, s, c.at);
    DropStaleHead(Deque(s), SatSub(c.at.mono, p.rate.windowNanos));
    if kept != [] {
      assert kept[0] in kept;
    }
  }

  lemma ScriptLeaves(e: Option<Entry<SortedSet>>, d: Dim, m: Member, now: int)
    ensures var (e', _), kept := SlidingScript(e, d, m, now), Kept(e, d, now);
            && Contents(e') == (if |kept| < d.limit then Add(kept, m, now) else kept)
            && (e'.Some? && e'.value.expireAt.Some? ==> e'.value.expireAt == Some(now + d.windowSecs + 1))
  {
  }

  /** The sorted set left behind matches the deque left behind. */
  lemma SameState(p: Policy, d: Dim, s: Option<KeyState>, e: Option<Entry<SortedSet>>, calls: History<Call>, c: Call,
                  offset: int)
    requires ValidRate(p.rate) && p.algorithm.SlidingWindow?
    requires d.limit == p.rate.count
    requires s.Some? ==> StateMatches(p, s.value)
    requires c.at.mono == c.at.unix * NANOS_PER_SEC + offset
    requires SameTimes(Kept(e, d, c.at.unix), DropStale(Deque(s), SatSub(c.at.mono, p.rate.windowNanos)), offset)
    requires forall x :: x in Kept(e, d, c.at.unix) ==> x.score <= c.at.unix
    requires |Kept(e, d, c.at.unix)| < d.limit ==> NewTo(Kept(e, d, c.at.unix), c.args)
    ensures Simulates(d, Some(Advance(p, s, c.at).0), SlidingScript(e, d, c.args, c.at.unix).0, Then(calls, c), offset)
  {
    hide Evaluate, RemoveUpTo, DropStale, SlidingScript, Kept, Add;
    ScriptLeaves(e, d, c.args, c.at.unix);
    if |Kept(e, d, c.at.unix)| < d.limit {
      FreshIsAppended(Kept(e, d, c.at.unix), c.args, c.at.unix);
    }
    SlidingCall(p, s, c.at);
  }

  lemma {:induction false} RunSimulates(p: Policy, d: Dim, calls: History<Call>, offset: int)
    requires ValidRate(p.rate) && p.algorithm.SlidingWindow?
    requires d.limit == p.rate.count && d.windowSecs * NANOS_PER_SEC == p.rate.windowNanos
    requires Positive(Stamps(calls)) && Ordered(Stamps(calls)) && WholeSeconds(Stamps(calls), offset)
    requires LiveDistinct(d, calls)
    ensures Simulates(d, Solo(p, Stamps(calls)), Stored(d, calls), calls, offset)
  {
    hide Evaluate, SlidingScript;
    if calls.Then? {
      var before, c := calls.before, calls.last;
      RunSimulates(p, d, before, offset);
      KeptIsLive(p, d, before, c.at, offset);
      SoloMatches(p, Stamps(before));
      SameState(p, d, Solo(p, Stamps(before)), Stored(d, before), before, c, offset);
    }
  }

  /**
   On whole-second clocks, while no admission reuses a member still in the window, Redis and the
   in-process store answer every call alike.
   */
  lemma SlidingRefines(p: Policy, d: Dim, calls: History<Call>, c: Call, offset: int)
    requires ValidRate(p.rate) && p.algorithm.SlidingWindow?
    requires d.limit == p.rate.count && d.windowSecs * NANOS_PER_SEC == p.rate.windowNanos
    requires Positive(Stamps(calls)) && Ordered(Stamps(Then(calls, c)))
    requires WholeSeconds(Stamps(Then(calls, c)), offset) && LiveDistinct(d, Then(calls, c))
    ensures RedisResult(d, calls, c) == SoloResult(p, Stamps(calls), c.at)
  {
    hide Evaluate, SlidingScript, Interpret;
    RunSimulates(p, d, calls, offset);
    KeptIsLive(p, d, calls, c.at, offset);
    SoloMatches(p, Stamps(calls));
    SameAnswer(p, d, Solo(p, Stamps(calls)), Stored(d, calls), c, offset);
  }

  /** After every call the set held the deque's times. */
  ghost predicate AlwaysSame(p: Policy, d: Dim, calls: History<Call>, offset: int)
    requires ValidRate(p.rate)
  {
    calls.Then? ==>
      && AlwaysSame(p, d, calls.before, offset)
      && SameTimes(Contents(Stored(d, calls)), Deque(Solo(p, Stamps(calls))), offset)
  }

  /** Set and deque agree throughout a run exactly when every admission was recorded. */
  lemma {:induction false} AlwaysSameIff(p: Policy, d: Dim, calls: History<Call>, offset: int)
    requires ValidRate(p.rate) && p.algorithm.SlidingWindow?
    requires d.limit == p.rate.count && d.windowSecs * NANOS_PER_SEC == p.rate.windowNanos
    requires Positive(Stamps(calls)) && Ordered(Stamps(calls)) && WholeSeconds(Stamps(calls), offset)
    ensures AlwaysSame(p, d, calls, offset) <==> LiveDistinct(d, calls)
  {
    hide Evaluate, SlidingScript, Kept, NewTo, Deque;
    if calls.Then? {
      AlwaysSameIff(p, d, calls.before, offset);
      if LiveDistinct(d, calls) {
        RunSimulates(p, d, calls, offset);
      } else if AlwaysSame(p, d, calls, offset) {
        Recorded(p, d, calls.before, calls.last, offset);
      }
    }
  }

  /** If the set still matches the deque after a call, the call was recorded. */
  lemma Recorded(p: Policy, d: Dim, calls: History<Call>, c: Call, offset: int)
    requires ValidRate(p.rate) && p.algorithm.SlidingWindow?
    requires d.limit == p.rate.count && d.windowSecs * NANOS_PER_SEC == p.rate.windowNanos
    requires Positive(Stamps(calls)) && Ordered(Stamps(Then(calls, c))) && WholeSeconds(Stamps(Then(calls, c)), offset)
    requires LiveDistinct(d, calls)
    requires SameTimes(Contents(Stored(d, Then(calls, c))), Deque(Solo(p, Stamps(Then(calls, c)))), offset)
    ensures RecordsCall(d, calls, c)
  {
    hide Evaluate, SlidingScript, Kept, Deque, Add, DropStale;
    RunSimulates(p, d, calls, offset);
    KeptIsLive(p, d, calls, c.at, offset);
    SoloMatches(p, Stamps(calls));
    ScriptLeaves(Stored(d, calls), d, c.args, c.at.unix);
    SlidingCall(p, Solo(p, Stamps(calls)), c.at);
    RecordedIff(Kept(Stored(d, calls), d, c.at.unix), c.args, c.at.unix);
  }

  /** An admission is recorded exactly when its member is new to the set. */
  lemma RecordedIff(z: SortedSet, m: Member, score: int)
    ensures |Add(z, m, score)| == |z| + 1 <==> forall x :: x in z ==> x.member != m
  {
    RemoveSize(z, m);
    InsertSize(Remove(z, m), Scored(m, score));
  }

  lemma {:induction false} RemoveSize(z: SortedSet, m: Member)
    ensures |Remove(z, m)| == |z| <==> forall x :: x in z ==> x.member != m
    ensures |Remove(z, m)| <= |z|
  {
    if z != [] {
      RemoveSize(z[1..], m);
      assert z[0] in z && forall x :: x in z ==> x == z[0] || x in z[1..];
      assert forall x :: x in z[1..] ==> x in z;
    }
  }

  lemma {:induction false} InsertSize(z: SortedSet, s: Scored)
    ensures |Insert(z, s)| == |z| + 1
  {
    if !(z == [] || z[|z| - 1].score <= s.score) {
      InsertSize(z[..|z| - 1], s);
    }
  }

  // ---- Members never used before ----

  predicate Used(m: Member, calls: History<Call>) {
    calls.Then? && (calls.last.args == m || Used(m, calls.before))
  }

  predicate Distinct(calls: History<Call>) {
    calls.Then? ==> !Used(calls.last.args, calls.before) && Distinct(calls.before)
  }

  lemma {:induction false} RemoveUpToMembers(z: SortedSet, cutoff: int)
    ensures forall x :: x in RemoveUpTo(z, cutoff) ==> x in z
  {
    if z != [] {
      RemoveUpToMembers(z[1..], cutoff);
      assert z == [z[0]] + z[1..];
    }
  }

  lemma {:induction false} RemoveMembers(z: SortedSet, m: Member)
    ensures forall x :: x in Remove(z, m) ==> x in z
  {
    if z != [] {
      RemoveMembers(z[1..], m);
      assert z == [z[0]] + z[1..];
    }
  }

  lemma {:induction false} InsertMembers(z: SortedSet, s: Scored)
    ensures forall x :: x in Insert(z, s) ==> x == s || x in z
  {
    if !(z == [] || z[|z| - 1].score <= s.score) {
      InsertMembers(z[..|z| - 1], s);
    }
  }

  /** The set holds only members some call brought. */
  lemma {:induction false} StoredUsed(d: Dim, calls: History<Call>)
    ensures forall x :: x in Contents(Stored(d, calls)) ==> Used(x.member, calls)
  {
    hide SlidingScript, RemoveUpTo, Remove, Insert;
    if calls.Then? {
      var c, e := calls.last, Stored(d, calls.before);
      StoredUsed(d, calls.before);
      ScriptLeaves(e, d, c.args, c.at.unix);
      var kept := Kept(e, d, c.at.unix);
      RemoveUpToMembers(Contents(e), c.at.unix - d.windowSecs);
      RemoveMembers(kept, c.args);
      InsertMembers(Remove(kept, c.args), Scored(c.args, c.at.unix));
    }
  }

  /** Members never used before are certainly new to the window. */
  lemma {:induction false} DistinctIsLive(d: Dim, calls: History<Call>)
    requires Distinct(calls)
    ensures LiveDistinct(d, calls)
  {
    hide SlidingScript, RemoveUpTo;
    if calls.Then? {
      var before, c := calls.before, calls.last;
      DistinctIsLive(d, before);
      StoredUsed(d, before);
      RemoveUpToMembers(Contents(Stored(d, before)), c.at.unix - d.windowSecs);
    }
  }

  // ---- Where members come from ----

  /** A process draws a member; its operating system calls it `pid`. */
  datatype Draw = Draw(now: int, process: nat, pid: nat)

  /** Each process has one counter, shared by all its keys. */
  function Drawn(draws: History<Draw>, process: nat): nat {
    match draws
    case Start => 0
    case Then(before, d) => Drawn(before, process) + if d.process == process then 1 else 0
  }

  /** The member drawn last. */
  function UniqueMember(draws: History<Draw>): Member
    requires draws.Then?
  {
    Member(draws.last.now, draws.last.pid, Drawn(draws.before, draws.last.process))
  }

  predicate Earlier(draws: History<Draw>, later: History<Draw>) {
    later.Then? && (draws == later.before || Earlier(draws, later.before))
  }

  /**
   Two draws yield the same member exactly when different processes that share a pid draw at the
   same time after equally many draws: pids unique among processes rule that out.
   */
  lemma {:induction false} MembersCollideIff(draws: History<Draw>, later: History<Draw>)
    requires draws.Then? && Earlier(draws, later)
    ensures UniqueMember(draws) == UniqueMember(later) <==>
              && draws.last.process != later.last.process
              && draws.last.pid == later.last.pid && draws.last.now == later.last.now
              && Drawn(draws.before, draws.last.process) == Drawn(later.before, later.last.process)
  {
    DrawnGrows(draws, later.before, draws.last.process);
  }

  /** Where pids name processes, no two draws yield the same member. */
  lemma {:induction false} DrawsDistinct(draws: History<Draw>, later: History<Draw>)
    requires draws.Then? && Earlier(draws, later)
    requires draws.last.pid == later.last.pid ==> draws.last.process == later.last.process
    ensures UniqueMember(draws) != UniqueMember(later)
  {
    MembersCollideIff(draws, later);
  }

  lemma {:induction false} DrawnGrows(draws: History<Draw>, later: History<Draw>, process: nat)
    requires draws == later || Earlier(draws, later)
    ensures Drawn(draws, process) <= Drawn(later, process)
  {
    if draws != later {
      DrawnGrows(draws, later.before, process);
    }
  }

  /**
   Two processes that share a pid draw the same member, and the second admission then replaces
   the first: with a limit of 2, three calls in one second are admitted.
   */
  lemma SharedMemberUndercounts()
    ensures var d, at := Dim(2, 60), Stamp(1000 * NANOS_PER_SEC, 1000);
            var draw1 := Then(Start, Draw(1000, 0, 1));
            var draw2 := Then(draw1, Draw(1000, 1, 1));
            var draw3 := Then(draw2, Draw(1000, 0, 1));
            var first := Then(Start, Visit(at, UniqueMember(draw1)));
            var second := Then(first, Visit(at, UniqueMember(draw2)));
            && RedisResult(d, Start, Visit(at, UniqueMember(draw1))).allowed
            && RedisResult(d, first, Visit(at, UniqueMember(draw2))).allowed
            && RedisResult(d, second, Visit(at, UniqueMember(draw3))).allowed
            && !LiveDistinct(d, second)
  {
    var d, m, at := Dim(2, 60), Member(1000, 1, 0), Stamp(1000 * NANOS_PER_SEC, 1000);
    var draw1 := Then(Start, Draw(1000, 0, 1));
    var draw2 := Then(draw1, Draw(1000, 1, 1));
    assert Drawn(draw1, 1) == Drawn(Start, 1) == Drawn(Start, 0) == 0;
    assert UniqueMember(draw1) == m && UniqueMember(draw2) == m;
    var one := [Scored(m, 1000)];
    var first := Then(Start, Visit(at, m));
    assert Kept(None, d, 1000) == [] && Remove([], m) == [];
    assert Add([], m, 1000) == one;
    assert Stored(d, Start) == None;
    assert Stored(d, first) == Some(Entry(one, None));
    assert RemoveUpTo(one, 1000 - 60) == one;
    assert Remove(one, m) == [];
    assert one[0].member == m;
    assert Stored(d, Then(first, Visit(at, m))) == Some(Entry(one, Some(1061)));
  }

  /** The script sets the expiry before it adds: a key that held nothing is stored without one. */
  lemma FirstUseNeverExpires(e: Option<Entry<SortedSet>>, d: Dim, m: Member, now: int)
    requires d.limit > 0
    ensures var stored := SlidingScript(e, d, m, now).0;
            stored.Some? && (stored.value.expireAt.None? <==> Kept(e, d, now) == [])
  {
  }
}
