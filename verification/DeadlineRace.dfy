/** Attempts under a deadline: each runs its executor in a worker thread of its own, and the engine
  waits for it, for at most the deadline. Workers that outlive their attempt keep running beside
  later ones. The steps of all workers and of the engine interleave freely. */
module DeadlineRace {
  import opened Scheduler

  const DEADLINE_EXCEEDED := "deadline exceeded"

  /** Busy in the executor; past it, with any error in the box, but still a live thread; gone. */
  datatype Life = Busy | Leaving(outcome: Attempt) | Dead(outcome: Attempt)

  /** One worker thread with the error box it shares with the engine. */
  datatype Worker = Worker(life: Life, box: seq<string>)

  datatype Engine =
    | Between                // no attempt under way
    | Joining                // in worker.join(timeout)
    | Joined                 // join is back, liveness not yet read
    | SawDead                // is_alive() was false, box not yet read

  /** Worker i is the thread of attempt i; verdicts are those of the attempts settled so far. */
  datatype Race = Race(workers: seq<Worker>, engine: Engine, verdicts: seq<Attempt>, max: nat)

  datatype Step =
    | StartAttempt
    | JoinReturns              // the worker died or the deadline passed
    | ReadLiveness
    | ReadBox
    | ExecutorEnds(i: nat, outcome: Attempt)
    | ThreadDies(i: nat)

  predicate Finished(r: Race) {
    r.engine.Between? && |r.verdicts| > 0 && (r.verdicts[|r.verdicts| - 1].Returned? || |r.verdicts| == r.max)
  }

  predicate Enabled(r: Race, s: Step) {
    match s
    case StartAttempt => r.engine.Between? && !Finished(r) && |r.verdicts| < r.max
    case JoinReturns => r.engine.Joining?
    case ReadLiveness => r.engine.Joined? && |r.workers| > 0
    case ReadBox => r.engine.SawDead? && |r.workers| > 0
    case ExecutorEnds(i, _) => i < |r.workers| && r.workers[i].life.Busy?
    case ThreadDies(i) => i < |r.workers| && r.workers[i].life.Leaving?
  }

  function Take(r: Race, s: Step): Race
    requires Enabled(r, s)
  {
    var current := |r.workers| - 1;
    match s
    case StartAttempt => r.(workers := r.workers + [Worker(Busy, [])], engine := Joining)
    case JoinReturns => r.(engine := Joined)
    case ReadLiveness =>
      if r.workers[current].life.Dead? then r.(engine := SawDead)
      else r.(engine := Between, verdicts := r.verdicts + [Raised(DEADLINE_EXCEEDED)])
    case ReadBox =>
      var box := r.workers[current].box;
      r.(engine := Between, verdicts := r.verdicts + [if box != [] then Raised(box[0]) else Returned])
    case ExecutorEnds(i, outcome) =>
      var box := if outcome.Raised? then r.workers[i].box + [outcome.message] else r.workers[i].box;
      r.(workers := r.workers[i := Worker(Leaving(outcome), box)])
    case ThreadDies(i) => r.(workers := r.workers[i := r.workers[i].(life := Dead(r.workers[i].life.outcome))])
  }

  function Start(max: nat): Race { Race([], Between, [], max) }

  ghost predicate CanRun(max: nat, steps: seq<Step>)
    decreases |steps|, 0
  {
    steps == [] || (
      var n := |steps| - 1;
      CanRun(max, steps[..n]) && Enabled(After(max, steps[..n]), steps[n]))
  }

  ghost function After(max: nat, steps: seq<Step>): Race
    requires CanRun(max, steps)
    decreases |steps|, 1
  {
    if steps == [] then Start(max) else Take(After(max, steps[..|steps| - 1]), steps[|steps| - 1])
  }

  // ---------------------------------------------------------------- the invariant

  /** The box holds the error of an executor that raised, and nothing else. */
  predicate BoxOk(w: Worker) {
    match w.life
    case Busy => w.box == []
    case Leaving(o) => w.box == (if o.Raised? then [o.message] else [])
    case Dead(o) => w.box == (if o.Raised? then [o.message] else [])
  }

  ghost predicate Inv(r: Race) {
    && |r.verdicts| <= r.max
    && |r.workers| == |r.verdicts| + (if r.engine.Between? then 0 else 1)
    && |r.workers| <= r.max
    && (forall i :: 0 <= i < |r.workers| ==> BoxOk(r.workers[i]))
    && (forall i :: 0 <= i < |r.verdicts| && (i + 1 < |r.verdicts| || !r.engine.Between?) ==> r.verdicts[i].Raised?)
    && (r.engine.SawDead? ==> r.workers[|r.workers| - 1].life.Dead?)
  }

  lemma StepKeepsInv(r: Race, s: Step)
    requires Inv(r) && Enabled(r, s)
    ensures Inv(Take(r, s))
  {
  }

  lemma {:induction false} RunKeepsInv(max: nat, steps: seq<Step>)
    requires CanRun(max, steps)
    ensures Inv(After(max, steps)) && After(max, steps).max == max
  {
    hide Inv, Enabled;
    if steps == [] {
      StartInv(max);
    } else {
      RunKeepsInv(max, steps[..|steps| - 1]);
      StepKeepsInv(After(max, steps[..|steps| - 1]), steps[|steps| - 1]);
    }
  }

  lemma StartInv(max: nat)
    ensures Inv(Start(max))
  {
  }

  // ---------------------------------------------------------------- what it gives

  /** At most max attempts are started, one after the other, and all but the last settled one failed. */
  lemma AttemptsAreBounded(max: nat, steps: seq<Step>)
    requires CanRun(max, steps)
    ensures var r := After(max, steps);
            && |r.verdicts| <= |r.workers| <= max && |r.workers| <= |r.verdicts| + 1
            && forall i :: 0 <= i < |r.workers| - 1 ==> r.verdicts[i].Raised?
  {
    hide CanRun;
    RunKeepsInv(max, steps);
  }

  /** No step takes back a verdict: whatever happens later, settled attempts stay as they were. */
  lemma {:induction false} VerdictsStay(max: nat, steps: seq<Step>, k: nat)
    requires CanRun(max, steps) && k <= |steps|
    ensures CanRun(max, steps[..k]) && After(max, steps[..k]).verdicts <= After(max, steps).verdicts
    decreases |steps|
  {
    if k == |steps| {
      assert steps[..k] == steps;
    } else {
      var init := steps[..|steps| - 1];
      VerdictsStay(max, init, k);
      assert init[..k] == steps[..k];
    }
  }

  lemma {:induction false} PrefixRuns(max: nat, steps: seq<Step>, k: nat)
    requires CanRun(max, steps) && k <= |steps|
    ensures CanRun(max, steps[..k])
    ensures k < |steps| ==> Enabled(After(max, steps[..k]), steps[k])
    ensures k < |steps| ==> CanRun(max, steps[..k + 1]) && After(max, steps[..k + 1]) == Take(After(max, steps[..k]), steps[k])
    decreases |steps|
  {
    hide Enabled, Take;
    if k < |steps| {
      var init := steps[..|steps| - 1];
      assert steps[..k + 1][..k] == steps[..k] && steps[..k + 1][k] == steps[k];
      if k < |steps| - 1 {
        PrefixRuns(max, init, k);
        assert init[..k] == steps[..k] && init[..k + 1] == steps[..k + 1] && init[k] == steps[k];
      } else {
        assert steps[..k + 1] == steps;
      }
    } else {
      assert steps[..k] == steps;
    }
  }

  /** What the liveness check of attempt i says the verdict has to be. */
  function Expected(w: Worker): Attempt {
    if w.life.Dead? then w.life.outcome else Raised("deadline exceeded")
  }

  /** Attempt i has the verdict, or its worker was found dead with that outcome and the box is next. */
  predicate Bound(r: Race, i: nat, verdict: Attempt) {
    if i < |r.verdicts| then r.verdicts[i] == verdict
    else r.engine.SawDead? && i == |r.verdicts| && i < |r.workers| && r.workers[i].life == Dead(verdict)
  }

  lemma StepKeepsBound(r: Race, s: Step, i: nat, verdict: Attempt)
    requires Inv(r) && Enabled(r, s) && Bound(r, i, verdict)
    ensures Bound(Take(r, s), i, verdict)
  {
  }

  /** The liveness check binds the verdict to what it saw. */
  lemma CheckBinds(r: Race)
    requires Inv(r) && Enabled(r, ReadLiveness)
    ensures |r.verdicts| == |r.workers| - 1 && Bound(Take(r, ReadLiveness), |r.verdicts|, Expected(r.workers[|r.verdicts|]))
    ensures !r.workers[|r.verdicts|].life.Dead? ==> Take(r, ReadLiveness).verdicts == r.verdicts + [Raised("deadline exceeded")]
  {
  }

  lemma {:induction false} StaysBound(max: nat, steps: seq<Step>, k: nat, i: nat, verdict: Attempt)
    requires CanRun(max, steps) && k <= |steps| && CanRun(max, steps[..k]) && Bound(After(max, steps[..k]), i, verdict)
    ensures Bound(After(max, steps), i, verdict)
    decreases |steps|
  {
    hide Bound, Enabled, Inv, Take;
    if k == |steps| {
      assert steps[..k] == steps;
    } else {
      var init := steps[..|steps| - 1];
      assert init[..k] == steps[..k];
      StaysBound(max, init, k, i, verdict);
      RunKeepsInv(max, init);
      StepKeepsBound(After(max, init), steps[|steps| - 1], i, verdict);
    }
  }

  /** The race is decided at the liveness check. In every interleaving, if step k is the check of attempt
    i, then attempt i's verdict, whenever it is there, is the outcome of its worker if that worker was
    dead at step k and "deadline exceeded" otherwise; in the second case the check itself settles it. */
  lemma LivenessDecides(max: nat, steps: seq<Step>, k: nat)
    requires CanRun(max, steps) && k < |steps| && steps[k] == ReadLiveness
    ensures CanRun(max, steps[..k]) && CanRun(max, steps[..k + 1])
    ensures var r := After(max, steps[..k]);
            var i := |r.verdicts|;
            && i < |r.workers|
            && (i < |After(max, steps).verdicts| ==> After(max, steps).verdicts[i] == Expected(r.workers[i]))
            && (!r.workers[i].life.Dead? ==> After(max, steps[..k + 1]).verdicts == r.verdicts + [Raised("deadline exceeded")])
  {
    hide CanRun, Inv, Enabled, Take;
    PrefixRuns(max, steps, k);
    RunKeepsInv(max, steps[..k]);
    var r := After(max, steps[..k]);
    CheckBinds(r);
    StaysBound(max, steps, k + 1, |r.verdicts|, Expected(r.workers[|r.verdicts|]));
  }

  /** Step k is the liveness check of attempt i. */
  ghost predicate ChecksAttempt(max: nat, steps: seq<Step>, k: nat, i: nat) {
    k < |steps| && steps[k] == ReadLiveness && CanRun(max, steps[..k]) && |After(max, steps[..k]).verdicts| == i
  }

  /** An attempt is past its check once it is settled or its worker was found dead. */
  lemma {:induction false} CheckedBefore(max: nat, steps: seq<Step>, i: nat) returns (k: nat)
    requires CanRun(max, steps)
    requires var r := After(max, steps); i < |r.verdicts| || (i == |r.verdicts| && r.engine.SawDead?)
    ensures ChecksAttempt(max, steps, k, i)
  {
    var n := |steps| - 1;
    var init := steps[..n];
    if steps[n] == ReadLiveness && |After(max, init).verdicts| == i {
      k := n;
    } else {
      k := CheckedBefore(max, init, i);
      assert init[..k] == steps[..k] && init[k] == steps[k];
    }
  }

  /** Every settled attempt went through exactly such a check, so its verdict is the worker's own outcome
    if the worker was dead at that check and "deadline exceeded" otherwise. */
  lemma VerdictMeaning(max: nat, steps: seq<Step>, i: nat) returns (k: nat)
    requires CanRun(max, steps) && i < |After(max, steps).verdicts|
    ensures ChecksAttempt(max, steps, k, i) && i < |After(max, steps[..k]).workers|
    ensures After(max, steps).verdicts[i] == Expected(After(max, steps[..k]).workers[i])
  {
    hide CanRun, Enabled, Take;
    k := CheckedBefore(max, steps, i);
    LivenessDecides(max, steps, k);
  }

  // ---------------------------------------------------------------- late workers do not matter

  predicate IsStepOf(s: Step, i: nat) {
    (s.ExecutorEnds? || s.ThreadDies?) && s.i == i
  }

  /** The steps without those of worker i. */
  function Without(steps: seq<Step>, i: nat): seq<Step> {
    if steps == [] then []
    else Without(steps[..|steps| - 1], i) + (if IsStepOf(steps[|steps| - 1], i) then [] else [steps[|steps| - 1]])
  }

  /** Two races that differ at most in worker i, whose attempt is settled. */
  ghost predicate AlikeBut(r: Race, q: Race, i: nat) {
    && i < |r.verdicts| && r.verdicts == q.verdicts && r.engine == q.engine && r.max == q.max
    && |r.workers| == |q.workers|
    && forall j :: 0 <= j < |r.workers| && j != i ==> r.workers[j] == q.workers[j]
  }

  lemma StepKeepsAlike(r: Race, q: Race, i: nat, s: Step)
    requires Inv(r) && Enabled(r, s) && AlikeBut(r, q, i)
    ensures IsStepOf(s, i) ==> AlikeBut(Take(r, s), q, i)
    ensures !IsStepOf(s, i) ==> Enabled(q, s) && AlikeBut(Take(r, s), Take(q, s), i)
  {
  }

  lemma CanRunMore(max: nat, steps: seq<Step>, s: Step)
    requires CanRun(max, steps) && Enabled(After(max, steps), s)
    ensures CanRun(max, steps + [s]) && After(max, steps + [s]) == Take(After(max, steps), s)
  {
    var all := steps + [s];
    assert all[..|all| - 1] == steps;
  }

  /** Once attempt i is settled, the steps its worker still takes make no difference: a run with all of
    them left out can be made just as well and comes to the same verdicts, the same state of the engine
    and the same other workers. */
  lemma {:induction false} LateWorkerDoesNotMatter(max: nat, before: seq<Step>, rest: seq<Step>, i: nat)
    requires CanRun(max, before + rest) && CanRun(max, before) && i < |After(max, before).verdicts|
    ensures CanRun(max, before + Without(rest, i))
    ensures AlikeBut(After(max, before + rest), After(max, before + Without(rest, i)), i)
  {
    hide Enabled, Take, Inv;
    if rest == [] {
      assert before + rest == before && before + Without(rest, i) == before;
      SelfAlike(After(max, before), i);
    } else {
      var n := |rest| - 1;
      var init, s := rest[..n], rest[n];
      var all := before + rest;
      assert all[..|all| - 1] == before + init && all[|all| - 1] == s;
      LateWorkerDoesNotMatter(max, before, init, i);
      RunKeepsInv(max, before + init);
      var r, q := After(max, before + init), After(max, before + Without(init, i));
      StepKeepsAlike(r, q, i, s);
      if IsStepOf(s, i) {
        assert Without(rest, i) == Without(init, i);
      } else {
        CanRunMore(max, before + Without(init, i), s);
        assert before + Without(rest, i) == (before + Without(init, i)) + [s];
      }
    }
  }

  lemma SelfAlike(r: Race, i: nat)
    requires i < |r.verdicts|
    ensures AlikeBut(r, r, i)
  {
  }

  // ---------------------------------------------------------------- the race ends

  predicate IsEngineStep(s: Step) { !s.ExecutorEnds? && !s.ThreadDies? }

  function EngineSteps(steps: seq<Step>): nat {
    if steps == [] then 0
    else EngineSteps(steps[..|steps| - 1]) + if IsEngineStep(steps[|steps| - 1]) then 1 else 0
  }

  /** Engine steps made in the attempt under way. */
  function Stage(e: Engine): nat {
    match e
    case Between => 0
    case Joining => 1
    case Joined => 2
    case SawDead => 3
  }

  /** Until the race is over the engine can always move, whatever the workers do or fail to do. */
  lemma EngineMoves(r: Race) returns (s: Step)
    requires Inv(r) && r.max > 0 && !Finished(r)
    ensures IsEngineStep(s) && Enabled(r, s)
  {
    match r.engine
    case Between => s := StartAttempt;
    case Joining => s := JoinReturns;
    case Joined => s := ReadLiveness;
    case SawDead => s := ReadBox;
  }

  /** And it makes at most four steps for each allowed attempt, in every interleaving. */
  lemma {:induction false} EngineStepsAreBounded(max: nat, steps: seq<Step>)
    requires CanRun(max, steps)
    ensures var r := After(max, steps); EngineSteps(steps) <= 4 * |r.verdicts| + Stage(r.engine)
    ensures EngineSteps(steps) <= 4 * max
  {
    hide Inv;
    if steps != [] { EngineStepsAreBounded(max, steps[..|steps| - 1]); }
    RunKeepsInv(max, steps);
    StageFits(After(max, steps));
  }

  lemma StageFits(r: Race)
    requires Inv(r)
    ensures 4 * |r.verdicts| + Stage(r.engine) <= 4 * r.max
  {
  }

  /** So every run can be brought to its end by the engine alone, with no more steps than are left of
    those: a worker that hangs never blocks the retry loop. */
  lemma {:induction false} EngineFinishes(max: nat, steps: seq<Step>) returns (more: seq<Step>)
    requires CanRun(max, steps) && max > 0
    ensures forall i :: 0 <= i < |more| ==> IsEngineStep(more[i])
    ensures |more| <= 4 * max - EngineSteps(steps)
    ensures CanRun(max, steps + more) && Finished(After(max, steps + more))
    decreases 4 * max - EngineSteps(steps)
  {
    hide CanRun, Inv, Enabled, Take, Finished;
    EngineStepsAreBounded(max, steps);
    if Finished(After(max, steps)) {
      more := [];
      assert steps + more == steps;
    } else {
      RunKeepsInv(max, steps);
      var s := EngineMoves(After(max, steps));
      CanRunMore(max, steps, s);
      assert (steps + [s])[..|steps|] == steps;
      EngineStepsAreBounded(max, steps + [s]);
      var rest := EngineFinishes(max, steps + [s]);
      more := [s] + rest;
      assert steps + more == (steps + [s]) + rest;
    }
  }

  // ---------------------------------------------------------------- the retry loop

  /** The verdicts as the outcomes the retry loop sees. */
  function AsWorld(verdicts: seq<Attempt>): World {
    (name: string, k: nat) => if 1 <= k <= |verdicts| then verdicts[k - 1] else Returned
  }

  lemma {:induction false} StopsAtVerdicts(verdicts: seq<Attempt>, name: string, k: nat, max: nat)
    requires k < |verdicts| <= max
    requires forall i :: 0 <= i < |verdicts| - 1 ==> verdicts[i].Raised?
    requires verdicts[|verdicts| - 1].Returned? || |verdicts| == max
    ensures StopsAt(AsWorld(verdicts), name, k, max) == |verdicts|
    decreases max - k
  {
    if k + 1 < |verdicts| { StopsAtVerdicts(verdicts, name, k + 1, max); }
  }

  /** When the race is over, its attempts are those of the sequential retry loop fed with the verdicts. */
  lemma RaceIsRetryLoop(max: nat, steps: seq<Step>, name: string)
    requires CanRun(max, steps) && max > 0 && Finished(After(max, steps))
    ensures var verdicts := After(max, steps).verdicts;
            StopsAt(AsWorld(verdicts), name, 0, max) == |verdicts|
  {
    RunKeepsInv(max, steps);
    StopsAtVerdicts(After(max, steps).verdicts, name, 0, max);
  }
}
