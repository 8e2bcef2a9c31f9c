/**
 Running the batch script through the server's script cache. Callers share one cell holding
 the script's SHA; the server may forget its scripts at any moment; any reply may be lost.
 However the steps interleave, a call that succeeds ran the limiter's script exactly once, a
 call that fails ran it at most once, and nobody ever runs another script.
 */
module ScriptCache {
  import opened Outcomes
  import opened Histories

  /** A SHA names one script; the model uses the script's text for its SHA. */
  type Sha = string

  datatype Pc =
    | Begin
    | Loading
    | Storing(sha: Sha)
    | HasSha(sha: Sha)
    | ClearingSha
    | MustEval
    | Replied
    | Failing
    | ReturnedOk
    | ReturnedErr

  /** How a server round trip ends for the caller; `ranBefore` says whether a lost reply came from a script that ran. */
  datatype Outcome = Delivered | Lost(ranBefore: bool)

  /** `runs` is the server's own record: which caller ran which script. */
  datatype Run = Run(caller: nat, script: string)

  datatype State = State(
    cell: Option<Sha>, loaded: set<string>, callers: map<nat, Pc>, runs: History<Run>)

  datatype Step =
    | Call(c: nat)
    | ReadCell(c: nat)
    | ScriptLoad(c: nat, outcome: Outcome)
    | StoreCell(c: nat)
    | EvalSha(c: nat, outcome: Outcome)
    | ClearCell(c: nat)
    | Eval(c: nat, outcome: Outcome)
    | Parse(c: nat, wellFormed: bool)
    | Reset(c: nat)
    | Flush
    | LoadedByOthers(script: string)
    | Shutdown

  predicate At(s: State, c: nat, pc: Pc) {
    c in s.callers && s.callers[c] == pc
  }

  predicate Enabled(s: State, step: Step) {
    match step
    case Call(c) => c !in s.callers
    case ReadCell(c) => At(s, c, Begin)
    case ScriptLoad(c, _) => At(s, c, Loading)
    case StoreCell(c) => c in s.callers && s.callers[c].Storing?
    case EvalSha(c, _) => c in s.callers && s.callers[c].HasSha?
    case ClearCell(c) => At(s, c, ClearingSha)
    case Eval(c, _) => At(s, c, MustEval)
    case Parse(c, _) => At(s, c, Replied)
    case Reset(c) => At(s, c, Failing)
    case _ => true
  }

  function Goto(s: State, c: nat, pc: Pc): State {
    s.(callers := s.callers[c := pc])
  }

  /** The server runs `script` for `c` unless the request is lost on the way there. */
  function Execute(s: State, c: nat, script: string, outcome: Outcome): State {
    var ran := outcome.Delivered? || outcome.ranBefore;
    Goto(if ran then s.(runs := Then(s.runs, Run(c, script))) else s,
         c, if outcome.Delivered? then Replied else Failing)
  }

  function Apply(own: string, s: State, step: Step): State
    requires Enabled(s, step)
  {
    match step
    case Call(c) => Goto(s, c, Begin)
    case ReadCell(c) => Goto(s, c, if s.cell.Some? then HasSha(s.cell.value) else Loading)
    case ScriptLoad(c, outcome) =>
      var ran := outcome.Delivered? || outcome.ranBefore;
      Goto(if ran then s.(loaded := s.loaded + {own}) else s,
           c, if outcome.Delivered? then Storing(own) else MustEval)
    case StoreCell(c) => Goto(s.(cell := Some(s.callers[c].sha)), c, HasSha(s.callers[c].sha))
    case EvalSha(c, outcome) =>
      var sha := s.callers[c].sha;
      if sha in s.loaded then Execute(s, c, sha, outcome)
      else Goto(s, c, if outcome.Delivered? then ClearingSha else Failing)
    case ClearCell(c) => Goto(s.(cell := None), c, MustEval)
    case Eval(c, outcome) =>
      var s' := Execute(s, c, own, outcome);
      if s'.runs != s.runs then s'.(loaded := s'.loaded + {own}) else s'
    case Parse(c, wellFormed) => Goto(s, c, if wellFormed then ReturnedOk else Failing)
    case Reset(c) => Goto(s.(cell := None), c, ReturnedErr)
    case Flush => s.(loaded := {})
    case LoadedByOthers(script) => s.(loaded := s.loaded + {script})
    case Shutdown => s.(cell := None)
  }

  const INITIAL := State(None, {}, map[], Start)

  predicate Legal(own: string, steps: History<Step>)
    decreases steps, 0
  {
    steps.Then? ==> Legal(own, steps.before) && Enabled(StateAfter(own, steps.before), steps.last)
  }

  function StateAfter(own: string, steps: History<Step>): State
    requires Legal(own, steps)
    decreases steps, 1
  {
    match steps
    case Start => INITIAL
    case Then(before, step) => Apply(own, StateAfter(own, before), step)
  }

  function RunsBy(runs: History<Run>, c: nat): nat {
    match runs
    case Start => 0
    case Then(before, r) => RunsBy(before, c) + if r.caller == c then 1 else 0
  }

  predicate OnlyOwn(own: string, runs: History<Run>) {
    runs.Then? ==> runs.last.script == own && OnlyOwn(own, runs.before)
  }

  /** How often a caller at `pc` has had the script run. */
  predicate RunsFit(pc: Pc, n: nat) {
    match pc
    case Replied => n == 1
    case ReturnedOk => n == 1
    case Failing => n <= 1
    case ReturnedErr => n <= 1
    case _ => n == 0
  }

  predicate HoldsOwn(own: string, pc: Pc) {
    pc.HasSha? || pc.Storing? ==> pc.sha == own
  }

  ghost predicate Inv(own: string, s: State) {
    && (s.cell.Some? ==> s.cell.value == own)
    && OnlyOwn(own, s.runs)
    && (forall c :: c in s.callers ==> HoldsOwn(own, s.callers[c]) && RunsFit(s.callers[c], RunsBy(s.runs, c)))
    && (forall c :: c !in s.callers ==> RunsBy(s.runs, c) == 0)
  }

  /** The caller whose step it is, if it is a caller's. */
  function Actor(step: Step): Option<nat> {
    match step
    case Call(c) => Some(c)
    case ReadCell(c) => Some(c)
    case ScriptLoad(c, _) => Some(c)
    case StoreCell(c) => Some(c)
    case EvalSha(c, _) => Some(c)
    case ClearCell(c) => Some(c)
    case Eval(c, _) => Some(c)
    case Parse(c, _) => Some(c)
    case Reset(c) => Some(c)
    case _ => None
  }

  /** A step moves only its own caller, and leaves in the cell nothing but the limiter's own SHA. */
  lemma StepLocal(own: string, s: State, step: Step)
    requires Inv(own, s) && Enabled(s, step)
    ensures var s' := Apply(own, s, step);
            && (s'.cell.Some? ==> s'.cell.value == own)
            && (forall c :: Actor(step) != Some(c) ==>
                  && (c in s'.callers <==> c in s.callers)
                  && (c in s.callers ==> s'.callers[c] == s.callers[c]))
            && (Actor(step).Some? ==> Actor(step).value in s'.callers)
  {
    hide RunsFit, OnlyOwn, RunsBy;
    if step.StoreCell? {
      assert HoldsOwn(own, s.callers[step.c]);
    }
  }

  /** At most the caller's own run of the limiter's own script is added, and its position accounts for it. */
  lemma StepRuns(own: string, s: State, step: Step)
    requires Inv(own, s) && Enabled(s, step)
    ensures var s' := Apply(own, s, step);
            && (s'.runs == s.runs || (Actor(step).Some? && s'.runs == Then(s.runs, Run(Actor(step).value, own))))
            && (Actor(step).Some? ==>
                  var c := Actor(step).value;
                  c in s'.callers && HoldsOwn(own, s'.callers[c]) && RunsFit(s'.callers[c], RunsBy(s'.runs, c)))
  {
    if Actor(step).Some? && Actor(step).value in s.callers {
      var c := Actor(step).value;
      assert HoldsOwn(own, s.callers[c]) && RunsFit(s.callers[c], RunsBy(s.runs, c));
    }
  }

  lemma StepInvariant(own: string, s: State, step: Step)
    requires Inv(own, s) && Enabled(s, step)
    ensures Inv(own, Apply(own, s, step))
  {
    hide Apply, Enabled, RunsFit, HoldsOwn, Actor;
    StepLocal(own, s, step);
    StepRuns(own, s, step);
    var s' := Apply(own, s, step);
    forall c | c in s'.callers
      ensures HoldsOwn(own, s'.callers[c]) && RunsFit(s'.callers[c], RunsBy(s'.runs, c))
    {
      if Actor(step) != Some(c) {
        assert RunsBy(s'.runs, c) == RunsBy(s.runs, c);
      }
    }
  }

  /** In every reachable state, for every caller. */
  lemma {:induction false} ScriptRunsOnce(own: string, steps: History<Step>)
    requires Legal(own, steps)
    ensures var s := StateAfter(own, steps);
            && Inv(own, s)
            && (forall c :: At(s, c, ReturnedOk) ==> RunsBy(s.runs, c) == 1)
            && (forall c :: At(s, c, ReturnedErr) ==> RunsBy(s.runs, c) <= 1)
  {
    hide Apply;
    if steps.Then? {
      ScriptRunsOnce(own, steps.before);
      StepInvariant(own, StateAfter(own, steps.before), steps.last);
    }
    var s := StateAfter(own, steps);
    assert forall c :: c in s.callers ==> RunsFit(s.callers[c], RunsBy(s.runs, c));
  }

  // ---- Conservation ----

  function Total(runs: History<Run>): nat {
    match runs
    case Start => 0
    case Then(before, _) => 1 + Total(before)
  }

  function SumOver(runs: History<Run>, cs: seq<nat>): nat {
    if cs == [] then 0 else RunsBy(runs, cs[0]) + SumOver(runs, cs[1..])
  }

  lemma {:induction false} SumStep(runs: History<Run>, r: Run, cs: seq<nat>)
    requires forall i, j :: 0 <= i < j < |cs| ==> cs[i] != cs[j]
    ensures SumOver(Then(runs, r), cs) == SumOver(runs, cs) + if r.caller in cs then 1 else 0
  {
    if cs != [] {
      SumStep(runs, r, cs[1..]);
      assert r.caller in cs <==> r.caller == cs[0] || r.caller in cs[1..];
    }
  }

  /** Every run on the server belongs to one caller: the total is the sum over the callers. */
  lemma {:induction false} RunsConserved(runs: History<Run>, cs: seq<nat>)
    requires forall i, j :: 0 <= i < j < |cs| ==> cs[i] != cs[j]
    requires forall c :: c !in cs ==> RunsBy(runs, c) == 0
    ensures Total(runs) == SumOver(runs, cs)
  {
    if runs.Then? {
      assert runs.last.caller in cs by {
        assert RunsBy(runs, runs.last.caller) > 0;
      }
      RunsConserved(runs.before, cs);
      SumStep(runs.before, runs.last, cs);
    } else {
      SumNothing(cs);
    }
  }

  lemma {:induction false} SumNothing(cs: seq<nat>)
    ensures SumOver(Start, cs) == 0
  {
    if cs != [] {
      SumNothing(cs[1..]);
    }
  }

  /** How many of `cs` returned in the given way. */
  function HowMany(s: State, cs: seq<nat>, pc: Pc): nat {
    if cs == [] then 0 else (if At(s, cs[0], pc) then 1 else 0) + HowMany(s, cs[1..], pc)
  }

  lemma {:induction false} SumBounds(own: string, s: State, cs: seq<nat>)
    requires Inv(own, s)
    requires forall i :: 0 <= i < |cs| ==> At(s, cs[i], ReturnedOk) || At(s, cs[i], ReturnedErr)
    ensures HowMany(s, cs, ReturnedOk) <= SumOver(s.runs, cs)
            <= HowMany(s, cs, ReturnedOk) + HowMany(s, cs, ReturnedErr)
  {
    if cs != [] {
      assert At(s, cs[0], ReturnedOk) || At(s, cs[0], ReturnedErr);
      forall i | 0 <= i < |cs[1..]|
        ensures At(s, cs[1..][i], ReturnedOk) || At(s, cs[1..][i], ReturnedErr)
      {
        assert cs[1..][i] == cs[i + 1];
      }
      SumBounds(own, s, cs[1..]);
      assert RunsFit(s.callers[cs[0]], RunsBy(s.runs, cs[0]));
    }
  }

  /** Once every call has returned, the server ran the script once per success and at most once per failure. */
  lemma RunsAccounted(own: string, steps: History<Step>, cs: seq<nat>)
    requires Legal(own, steps)
    requires forall i, j :: 0 <= i < j < |cs| ==> cs[i] != cs[j]
    requires forall c :: c in cs <==> c in StateAfter(own, steps).callers
    requires forall i :: 0 <= i < |cs| ==>
               At(StateAfter(own, steps), cs[i], ReturnedOk) || At(StateAfter(own, steps), cs[i], ReturnedErr)
    ensures var s := StateAfter(own, steps);
            HowMany(s, cs, ReturnedOk) <= Total(s.runs) <= HowMany(s, cs, ReturnedOk) + HowMany(s, cs, ReturnedErr)
  {
    var s := StateAfter(own, steps);
    ScriptRunsOnce(own, steps);
    RunsConserved(s.runs, cs);
    SumBounds(own, s, cs);
  }
}
