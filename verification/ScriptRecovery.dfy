/**
 Recovery: what makes a call fail, and that every call ends. A script the server has forgotten is
 no reason to fail; only a lost reply to the script itself, or a malformed one, is.
 */
module ScriptRecovery {
  import opened Outcomes
  import opened Histories
  import opened ScriptCache

  /** A step of `c` whose reply was lost while it asked for the script to be run, or could not be read. */
  predicate Trouble(step: Step, c: nat) {
    match step
    case EvalSha(d, outcome) => d == c && outcome.Lost?
    case Eval(d, outcome) => d == c && outcome.Lost?
    case Parse(d, wellFormed) => d == c && !wellFormed
    case _ => false
  }

  predicate Troubled(steps: History<Step>, c: nat) {
    steps.Then? && (Trouble(steps.last, c) || Troubled(steps.before, c))
  }

  predicate Failed(s: State, c: nat) {
    At(s, c, Failing) || At(s, c, ReturnedErr)
  }

  /** One step fails a call exactly if it is trouble for it. */
  lemma StepFails(own: string, s: State, step: Step, c: nat)
    requires Enabled(s, step)
    ensures Failed(Apply(own, s, step), c) <==> Failed(s, c) || Trouble(step, c)
    ensures Trouble(step, c) ==> c in s.callers
  {
  }

  /** A call fails exactly if it met trouble of its own, whatever flushes, loads and shutdowns happen meanwhile. */
  lemma {:induction false} FailsIff(own: string, steps: History<Step>, c: nat)
    requires Legal(own, steps)
    ensures Failed(StateAfter(own, steps), c) <==> Troubled(steps, c)
  {
    hide Apply, Enabled;
    if steps.Then? {
      FailsIff(own, steps.before, c);
      StepFails(own, StateAfter(own, steps.before), steps.last, c);
    }
  }

  /** Without trouble every call that returns succeeds, having run the script exactly once. */
  lemma UntroubledSucceeds(own: string, steps: History<Step>, c: nat)
    requires Legal(own, steps) && !Troubled(steps, c)
    ensures var s := StateAfter(own, steps);
            && !At(s, c, ReturnedErr)
            && (At(s, c, ReturnedOk) ==> RunsBy(s.runs, c) == 1)
  {
    FailsIff(own, steps, c);
    ScriptRunsOnce(own, steps);
  }

  // ---- Every call ends ----

  /** Steps a call may still need. */
  function Rank(pc: Pc): nat {
    match pc
    case Begin => 8
    case Loading => 7
    case Storing(_) => 6
    case HasSha(_) => 5
    case ClearingSha => 4
    case MustEval => 3
    case Replied => 2
    case Failing => 1
    case ReturnedOk => 0
    case ReturnedErr => 0
  }

  /** Steps `c` has taken. */
  function OwnSteps(steps: History<Step>, c: nat): nat {
    match steps
    case Start => 0
    case Then(before, step) => OwnSteps(before, c) + if Actor(step) == Some(c) then 1 else 0
  }

  lemma StepRank(own: string, s: State, step: Step, c: nat)
    requires Enabled(s, step)
    ensures var s' := Apply(own, s, step);
            && (Actor(step) != Some(c) ==> (c in s'.callers <==> c in s.callers))
            && (Actor(step) != Some(c) && c in s.callers ==> s'.callers[c] == s.callers[c])
            && (Actor(step) == Some(c) ==>
                  && c in s'.callers
                  && (c in s.callers ==> Rank(s'.callers[c]) < Rank(s.callers[c]))
                  && (c !in s.callers ==> Rank(s'.callers[c]) == 8))
  {
  }

  /** No call takes more than nine steps of its own. */
  lemma {:induction false} CallsAreShort(own: string, steps: History<Step>, c: nat)
    requires Legal(own, steps)
    ensures var s := StateAfter(own, steps);
            OwnSteps(steps, c) + (if c in s.callers then Rank(s.callers[c]) else 9) <= 9
  {
    hide Apply, Enabled, Rank, Actor;
    if steps.Then? {
      CallsAreShort(own, steps.before, c);
      StepRank(own, StateAfter(own, steps.before), steps.last, c);
    }
  }

  /** A call that has not returned can always take a step of its own, whose reply may be delivered. */
  lemma CallsNeverStuck(own: string, steps: History<Step>, c: nat) returns (step: Step)
    requires Legal(own, steps)
    requires var s := StateAfter(own, steps);
             c in s.callers && !At(s, c, ReturnedOk) && !At(s, c, ReturnedErr)
    ensures Enabled(StateAfter(own, steps), step) && Actor(step) == Some(c) && !Trouble(step, c)
  {
    match StateAfter(own, steps).callers[c] {
      case Begin => step := ReadCell(c);
      case Loading => step := ScriptLoad(c, Delivered);
      case Storing(_) => step := StoreCell(c);
      case HasSha(_) => step := EvalSha(c, Delivered);
      case ClearingSha => step := ClearCell(c);
      case MustEval => step := Eval(c, Delivered);
      case Replied => step := Parse(c, true);
      case Failing => step := Reset(c);
    }
  }

  // ---- When the cached SHA is used, and when it is dropped ----

  /** Was the cell last written by a call that had loaded the script, rather than cleared? */
  predicate Cached(steps: History<Step>) {
    match steps
    case Start => false
    case Then(before, step) =>
      match step
      case StoreCell(_) => true
      case ClearCell(_) => false
      case Reset(_) => false
      case Shutdown => false
      case _ => Cached(before)
  }

  /** A reply says it ran, or it was lost after it had. */
  predicate Ran(outcome: Outcome) {
    outcome.Delivered? || outcome.ranBefore
  }

  /** Has the server been given the limiter's script since it last forgot everything? */
  predicate Known(own: string, steps: History<Step>) {
    match steps
    case Start => false
    case Then(before, step) =>
      match step
      case Flush => false
      case ScriptLoad(_, outcome) => Ran(outcome) || Known(own, before)
      case Eval(_, outcome) => Ran(outcome) || Known(own, before)
      case LoadedByOthers(script) => script == own || Known(own, before)
      case _ => Known(own, before)
  }

  lemma StepCache(own: string, s: State, step: Step)
    requires Inv(own, s) && Enabled(s, step)
    ensures var s' := Apply(own, s, step);
            && s'.cell == (match step
                           case StoreCell(_) => Some(own)
                           case ClearCell(_) => None
                           case Reset(_) => None
                           case Shutdown => None
                           case _ => s.cell)
            && (own in s'.loaded <==>
                  match step
                  case Flush => false
                  case ScriptLoad(_, outcome) => Ran(outcome) || own in s.loaded
                  case Eval(_, outcome) => Ran(outcome) || own in s.loaded
                  case LoadedByOthers(script) => script == own || own in s.loaded
                  case _ => own in s.loaded)
  {
    hide RunsFit, OnlyOwn, RunsBy;
    if step.StoreCell? {
      assert HoldsOwn(own, s.callers[step.c]);
    }
  }

  /** The cell and the server's memory are what the history of writes and flushes says. */
  lemma {:induction false} CacheIs(own: string, steps: History<Step>)
    requires Legal(own, steps)
    ensures StateAfter(own, steps).cell == if Cached(steps) then Some(own) else None
    ensures own in StateAfter(own, steps).loaded <==> Known(own, steps)
  {
    hide Apply, Enabled, Inv;
    if steps.Then? {
      CacheIs(own, steps.before);
      ScriptRunsOnce(own, steps.before);
      StepCache(own, StateAfter(own, steps.before), steps.last);
    }
  }

  /** A call loads the script exactly if it finds none cached. */
  lemma LoadsIff(own: string, steps: History<Step>, c: nat)
    requires Legal(own, Then(steps, ReadCell(c)))
    ensures At(StateAfter(own, Then(steps, ReadCell(c))), c, if Cached(steps) then HasSha(own) else Loading)
  {
    hide Inv;
    CacheIs(own, steps);
  }

  /** A delivered reply to the SHA sends a call on to clear it exactly if the server has forgotten the script. */
  lemma ForgottenIff(own: string, steps: History<Step>, c: nat)
    requires Legal(own, Then(steps, EvalSha(c, Delivered)))
    ensures var s := StateAfter(own, Then(steps, EvalSha(c, Delivered)));
            At(s, c, if Known(own, steps) then Replied else ClearingSha)
  {
    hide RunsFit, OnlyOwn, RunsBy;
    CacheIs(own, steps);
    ScriptRunsOnce(own, steps);
    assert HoldsOwn(own, StateAfter(own, steps).callers[c]);
  }
}
