/**
 How often the threads sweep: one sweep falls due with every 128 calls counted, and none is lost.
 */
module SweepSchedule {
  import opened Histories
  import opened KeyMachine
  import opened Sweeping
  import opened Interleaving
  import MemoryStore

  /** Calls counted. */
  function Tallies(steps: History<Step>): nat {
    match steps
    case Start => 0
    case Then(before, step) => Tallies(before) + if step.Tally? then 1 else 0
  }

  function Sweeps(steps: History<Step>): nat {
    match steps
    case Start => 0
    case Then(before, step) => Sweeps(before) + if step.SweepNow? then 1 else 0
  }

  /** Threads that still owe a sweep. */
  function Pending(s: State): set<nat> {
    set t | t in s.threads && s.threads[t].pc.MustSweep?
  }

  lemma PendingStep(ps: Policies, s: State, step: Step)
    requires ValidPolicies(ps) && Enabled(s, step)
    ensures var s' := Apply(ps, s, step);
            match step
            case Tally(t) =>
              && s'.callCount == MemoryStore.Wrap(s.callCount + 1)
              && t !in Pending(s)
              && Pending(s') == if s.callCount % 128 == 0 && s.callCount > 0 then Pending(s) + {t} else Pending(s)
            case SweepNow(t, _) => s'.callCount == s.callCount && t in Pending(s) && Pending(s') == Pending(s) - {t}
            case _ => s'.callCount == s.callCount && Pending(s') == Pending(s)
  {
    hide Evaluate;
  }

  /** Sweeps made and sweeps owed are together one for every 128 calls counted after the first. */
  lemma {:induction false} SweepsDue(ps: Policies, steps: History<Step>)
    requires ValidPolicies(ps) && Legal(ps, steps) && Tallies(steps) < MemoryStore.U64
    ensures var s, n := StateAfter(ps, steps), Tallies(steps);
            && s.callCount == n
            && Sweeps(steps) + |Pending(s)| == if n == 0 then 0 else (n - 1) / 128
  {
    hide Apply, Pending, Enabled;
    if steps.Then? {
      SweepsDue(ps, steps.before);
      PendingStep(ps, StateAfter(ps, steps.before), steps.last);
    } else {
      NothingPending();
    }
  }

  lemma NothingPending()
    ensures Pending(INITIAL) == {}
  {
  }
}
