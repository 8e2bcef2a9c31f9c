/**
 Many threads calling `check_and_increment` on one store. A call is several steps: look the
 key up under the shared lock and evaluate it if present; if it was missing, take the
 exclusive lock, insert fresh state unless another thread has done so meanwhile, and
 evaluate; then count the call; then perhaps sweep. Any interleaving of any number of calls
 gives each call the answer of its key's own run, taken in the order the locks were acquired.
 */
module Interleaving {
  import opened Histories
  import opened KeyMachine
  import opened Sweeping
  import MemoryStore

  datatype Pc =
    | Ready
    | Missed
    | Evaluated(r: DimResult)
    | MustSweep(r: DimResult)
    | Returned(r: DimResult)

  datatype Thread = Thread(key: string, at: Stamp, pc: Pc)

  /** What was done under a lock, in lock order. */
  datatype Entry =
    | Called(tid: nat, key: string, at: Stamp)
    | Swept(time: nat, contended: set<string>)

  datatype State = State(store: KeyTable, callCount: nat, threads: map<nat, Thread>, log: History<Entry>)

  datatype Step =
    | Spawn(tid: nat, key: string, at: Stamp)
    | Hit(tid: nat)
    | Miss(tid: nat)
    | Insert(tid: nat)
    | Tally(tid: nat)
    | SweepNow(tid: nat, contended: set<string>)

  const INITIAL := State(map[], 0, map[], Start)

  predicate Enabled(s: State, step: Step) {
    match step
    case Spawn(t, _, _) => t !in s.threads
    case Hit(t) => t in s.threads && s.threads[t].pc.Ready? && s.threads[t].key in s.store
    case Miss(t) => t in s.threads && s.threads[t].pc.Ready? && s.threads[t].key !in s.store
    case Insert(t) => t in s.threads && s.threads[t].pc.Missed?
    case Tally(t) => t in s.threads && s.threads[t].pc.Evaluated?
    case SweepNow(t, _) => t in s.threads && s.threads[t].pc.MustSweep?
  }

  /** `entry().or_insert_with(..)`: state already there wins over fresh state. */
  function OrInsert(m: KeyTable, k: string, blank: KeyState): KeyTable {
    if k in m then m else m[k := blank]
  }

  /** Evaluates the stored state of `t`'s key in place. */
  ghost function EvaluateIn(ps: Policies, s: State, t: nat): State
    requires ValidPolicies(ps) && t in s.threads && s.threads[t].key in s.store
  {
    var th := s.threads[t];
    var (state, r) := Evaluate(s.store[th.key], ps(th.key).rate, th.at);
    s.(store := s.store[th.key := state],
       threads := s.threads[t := th.(pc := Evaluated(r))],
       log := Then(s.log, Called(t, th.key, th.at)))
  }

  ghost function Apply(ps: Policies, s: State, step: Step): State
    requires ValidPolicies(ps) && Enabled(s, step)
  {
    match step
    case Spawn(t, k, at) => s.(threads := s.threads[t := Thread(k, at, Ready)])
    case Hit(t) => EvaluateIn(ps, s, t)
    case Miss(t) => s.(threads := s.threads[t := s.threads[t].(pc := Missed)])
    case Insert(t) =>
      var th := s.threads[t];
      EvaluateIn(ps, s.(store := OrInsert(s.store, th.key, NewKeyState(ps(th.key), th.at))), t)
    case Tally(t) =>
      var th, n := s.threads[t], s.callCount;
      var due := n % MemoryStore.SWEEP_INTERVAL == 0 && n > 0;
      s.(callCount := MemoryStore.Wrap(n + 1),
         threads := s.threads[t := th.(pc := if due then MustSweep(th.pc.r) else Returned(th.pc.r))])
    case SweepNow(t, contended) =>
      var th := s.threads[t];
      s.(store := Sweeping.Swept(s.store, th.at.mono, contended),
         threads := s.threads[t := th.(pc := Returned(th.pc.r))],
         log := Then(s.log, Swept(th.at.mono, contended)))
  }

  ghost predicate Legal(ps: Policies, steps: History<Step>)
    requires ValidPolicies(ps)
    decreases steps, 0
  {
    steps.Then? ==> Legal(ps, steps.before) && Enabled(StateAfter(ps, steps.before), steps.last)
  }

  ghost function StateAfter(ps: Policies, steps: History<Step>): State
    requires ValidPolicies(ps) && Legal(ps, steps)
    decreases steps, 1
  {
    match steps
    case Start => INITIAL
    case Then(before, step) => Apply(ps, StateAfter(ps, before), step)
  }

  function Events(log: History<Entry>): History<Event> {
    match log
    case Start => Start
    case Then(before, Called(_, k, at)) => Then(Events(before), Check(k, at))
    case Then(before, Swept(time, contended)) => Then(Events(before), Sweep(time, contended))
  }

  /**
   Key by key, a call's clock reading is not earlier than those used under that key's lock before
   it. Calls on different keys may overtake each other.
   */
  ghost predicate LockOrdered(ps: Policies, log: History<Entry>)
    requires ValidPolicies(ps)
  {
    forall k :: TimedOn(ps, Events(log), k)
  }

  /** How often thread `t` evaluated, and what was logged before its latest evaluation. */
  function Evaluations(log: History<Entry>, t: nat): nat {
    match log
    case Start => 0
    case Then(before, e) => Evaluations(before, t) + if e.Called? && e.tid == t then 1 else 0
  }

  function BeforeCall(log: History<Entry>, t: nat): History<Entry> {
    match log
    case Start => Start
    case Then(before, e) => if e.Called? && e.tid == t then before else BeforeCall(before, t)
  }

  predicate HasAnswer(pc: Pc) {
    pc.Evaluated? || pc.MustSweep? || pc.Returned?
  }

  /** Thread `t` has evaluated exactly once, with the answer of its key's run at that point, or not at all yet. */
  ghost predicate Serialized(ps: Policies, s: State, t: nat)
    requires ValidPolicies(ps) && t in s.threads
  {
    var th := s.threads[t];
    if HasAnswer(th.pc) then
      && Evaluations(s.log, t) == 1
      && th.pc.r == SoloResult(ps(th.key), CallsOn(Events(BeforeCall(s.log, t)), th.key), th.at)
    else
      Evaluations(s.log, t) == 0
  }

  ghost predicate Inv(ps: Policies, s: State)
    requires ValidPolicies(ps)
  {
    && s.store == StoreAfter(ps, Events(s.log))
    && (forall t :: t in s.threads ==> Serialized(ps, s, t))
    && (forall t :: t !in s.threads ==> Evaluations(s.log, t) == 0)
  }

  /** Evaluating in place, on hit or after inserting, is one call of the key's own state. */
  lemma EvaluateStep(ps: Policies, s: State, step: Step)
    requires ValidPolicies(ps) && Enabled(s, step) && (step.Hit? || step.Insert?)
    ensures var th, s' := s.threads[step.tid], Apply(ps, s, step);
            var (state, r) := Advance(ps(th.key), Lookup(s.store, th.key), th.at);
            && s'.store == s.store[th.key := state]
            && s'.threads == s.threads[step.tid := th.(pc := Evaluated(r))]
            && s'.log == Then(s.log, Called(step.tid, th.key, th.at))
  {
    hide Evaluate;
  }

  lemma EvaluateInvariant(ps: Policies, s: State, step: Step)
    requires ValidPolicies(ps) && Inv(ps, s) && Enabled(s, step) && (step.Hit? || step.Insert?)
    requires LockOrdered(ps, Apply(ps, s, step).log)
    ensures Inv(ps, Apply(ps, s, step))
  {
    hide Evaluate, Advance, Apply, StoreAfter, TimedOn, KeyClock, SoloResult;
    var th, s', before := s.threads[step.tid], Apply(ps, s, step), Events(s.log);
    EvaluateStep(ps, s, step);
    CallStep(ps, before, th.key, th.at);
    assert TimedOn(ps, Events(s'.log), th.key);
    SweepUnobservable(ps, before, th.key, th.at);
    forall t | t in s'.threads
      ensures Serialized(ps, s', t)
    {
      assert t in s.threads && Serialized(ps, s, t);
    }
  }

  lemma StepInvariant(ps: Policies, s: State, step: Step)
    requires ValidPolicies(ps) && Inv(ps, s) && Enabled(s, step)
    requires LockOrdered(ps, Apply(ps, s, step).log)
    ensures Inv(ps, Apply(ps, s, step))
  {
    hide Evaluate;
    if step.Hit? || step.Insert? {
      EvaluateInvariant(ps, s, step);
    } else {
      var s' := Apply(ps, s, step);
      forall t | t in s'.threads
        ensures Serialized(ps, s', t)
      {
        assert t in s.threads ==> Serialized(ps, s, t);
      }
    }
  }

  lemma LockOrderedBefore(ps: Policies, s: State, step: Step)
    requires ValidPolicies(ps) && Enabled(s, step) && LockOrdered(ps, Apply(ps, s, step).log)
    ensures LockOrdered(ps, s.log)
  {
    hide Evaluate;
    var log := Apply(ps, s, step).log;
    if log != s.log {
      forall k
        ensures TimedOn(ps, Events(s.log), k)
      {
        assert TimedOn(ps, Events(log), k);
      }
    }
  }

  lemma {:induction false} Reachable(ps: Policies, steps: History<Step>)
    requires ValidPolicies(ps) && Legal(ps, steps) && LockOrdered(ps, StateAfter(ps, steps).log)
    ensures Inv(ps, StateAfter(ps, steps))
  {
    hide Evaluate;
    if steps.Then? {
      var s := StateAfter(ps, steps.before);
      LockOrderedBefore(ps, s, steps.last);
      Reachable(ps, steps.before);
      StepInvariant(ps, s, steps.last);
    }
  }

  /** Admission times granted to the threads that called on `k`, in lock order. */
  function Granted(threads: map<nat, Thread>, log: History<Entry>, k: string): History<nat> {
    match log
    case Start => Start
    case Then(before, e) =>
      var earlier := Granted(threads, before, k);
      if e.Called? && e.key == k && e.tid in threads && HasAnswer(threads[e.tid].pc) && threads[e.tid].pc.r.allowed
      then Then(earlier, e.at.mono) else earlier
  }

  /** `log` is the whole log or an earlier stage of it. */
  predicate Prefix(log: History<Entry>, whole: History<Entry>) {
    log == whole || (whole.Then? && Prefix(log, whole.before))
  }

  lemma {:induction false} PrefixStep(log: History<Entry>, whole: History<Entry>)
    requires log.Then? && Prefix(log, whole)
    ensures Prefix(log.before, whole)
  {
    if log != whole {
      PrefixStep(log, whole.before);
    }
  }

  lemma {:induction false} EvaluationsGrow(log: History<Entry>, whole: History<Entry>, t: nat)
    requires Prefix(log, whole)
    ensures Evaluations(log, t) <= Evaluations(whole, t)
  {
    if log != whole {
      EvaluationsGrow(log, whole.before, t);
    }
  }

  /** A thread that evaluated once did so where the log says. */
  lemma {:induction false} BeforeOnlyCall(log: History<Entry>, whole: History<Entry>)
    requires Prefix(log, whole) && log.Then? && log.last.Called?
    requires Evaluations(whole, log.last.tid) <= 1
    ensures BeforeCall(whole, log.last.tid) == log.before
  {
    if log != whole {
      EvaluationsGrow(log, whole.before, log.last.tid);
      BeforeOnlyCall(log, whole.before);
    }
  }

  /** Every logged call belongs to the thread it names. */
  ghost predicate Owned(threads: map<nat, Thread>, log: History<Entry>) {
    log.Then? ==>
      && Owned(threads, log.before)
      && (log.last.Called? ==>
            var e := log.last;
            && e.tid in threads && HasAnswer(threads[e.tid].pc)
            && threads[e.tid].key == e.key && threads[e.tid].at == e.at)
  }

  /** Threads that have answered keep their call. */
  ghost predicate AnswersKept(threads: map<nat, Thread>, threads': map<nat, Thread>) {
    forall t :: t in threads && HasAnswer(threads[t].pc) ==>
      t in threads' && HasAnswer(threads'[t].pc)
      && threads'[t].key == threads[t].key && threads'[t].at == threads[t].at
  }

  lemma {:induction false} OwnedKept(threads: map<nat, Thread>, threads': map<nat, Thread>, log: History<Entry>)
    requires Owned(threads, log) && AnswersKept(threads, threads')
    ensures Owned(threads', log)
  {
    if log.Then? {
      OwnedKept(threads, threads', log.before);
    }
  }

  lemma StepOwned(ps: Policies, s: State, step: Step)
    requires ValidPolicies(ps) && Enabled(s, step) && Owned(s.threads, s.log)
    ensures Owned(Apply(ps, s, step).threads, Apply(ps, s, step).log)
  {
    hide Evaluate;
    var s' := Apply(ps, s, step);
    assert AnswersKept(s.threads, s'.threads);
    OwnedKept(s.threads, s'.threads, s.log);
  }

  lemma {:induction false} AlwaysOwned(ps: Policies, steps: History<Step>)
    requires ValidPolicies(ps) && Legal(ps, steps)
    ensures Owned(StateAfter(ps, steps).threads, StateAfter(ps, steps).log)
  {
    hide Apply;
    if steps.Then? {
      AlwaysOwned(ps, steps.before);
      StepOwned(ps, StateAfter(ps, steps.before), steps.last);
    }
  }

  lemma {:induction false} GrantedUpTo(ps: Policies, s: State, log: History<Entry>, k: string)
    requires ValidPolicies(ps) && Inv(ps, s) && Owned(s.threads, log) && Prefix(log, s.log)
    ensures Granted(s.threads, log, k) == Admitted(ps(k), CallsOn(Events(log), k))
  {
    hide Evaluate;
    if log.Then? {
      PrefixStep(log, s.log);
      GrantedUpTo(ps, s, log.before, k);
      if log.last.Called? && log.last.key == k {
        assert Serialized(ps, s, log.last.tid);
        BeforeOnlyCall(log, s.log);
      }
    }
  }

  /**
   Every interleaving is some sequential run: each call evaluates exactly once, and the calls
   on a key are granted exactly the admissions of that key's run in lock order. In particular
   two threads that both missed cannot both start from fresh state.
   */
  lemma Linearizable(ps: Policies, steps: History<Step>, k: string)
    requires ValidPolicies(ps) && Legal(ps, steps) && LockOrdered(ps, StateAfter(ps, steps).log)
    ensures var s := StateAfter(ps, steps);
            && (forall t :: t in s.threads ==> Serialized(ps, s, t))
            && Granted(s.threads, s.log, k) == Admitted(ps(k), CallsOn(Events(s.log), k))
  {
    hide Evaluate;
    Reachable(ps, steps);
    AlwaysOwned(ps, steps);
    var s := StateAfter(ps, steps);
    GrantedUpTo(ps, s, s.log, k);
  }
}
