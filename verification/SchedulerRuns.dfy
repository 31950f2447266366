/** Whole runs of the scheduler: what each job does over every sequence of passes, what the notifier
  hears, and on which minutes the resident loop wakes. */
module SchedulerRuns {
  import opened Text
  import opened Cron
  import opened Scheduler

  ghost predicate UniqueNames(c: Config) {
    forall i, j :: 0 <= i < j < |c.jobs| ==> c.jobs[i].name != c.jobs[j].name
  }

  /** The notifier, if any, does not raise. */
  ghost predicate Quiet(p: Pass) {
    p.notifier.Some? ==> forall r :: !p.notifier.value(r)
  }

  // ---------------------------------------------------------------- one pass

  /** The outcome of job j from its own last firing and its own executor alone. */
  function OwnOutcome(c: Config, p: Pass, last: Fired, j: nat): Option<JobResult>
    requires j < |c.jobs|
  {
    var job := c.jobs[j];
    JobOutcome(job, LastFired(last, job.name), job.name in c.executors, p.minute, p.world)
  }

  function OwnOutcomes(c: Config, p: Pass, last: Fired, k: nat): seq<JobResult>
    requires k <= |c.jobs|
  {
    if k == 0 then []
    else OwnOutcomes(c, p, last, k - 1) + match OwnOutcome(c, p, last, k - 1) case None => [] case Some(r) => [r]
  }

  /** The last firing of a job after a pass. */
  function NextLast(job: Job, last: Option<nat>, minute: nat): Option<nat> {
    if Fires(job, last, minute) then Some(minute) else last
  }

  lemma {:induction false} FiringsAreIndependent(c: Config, p: Pass, last: Fired, k: nat)
    requires UniqueNames(c) && Quiet(p) && k <= |c.jobs|
    ensures var st := AfterJobs(c, p, last, k);
            && !st.aborted
            && (forall j :: 0 <= j < k ==>
                  LastFired(st.last, c.jobs[j].name) == NextLast(c.jobs[j], LastFired(last, c.jobs[j].name), p.minute))
            && (forall j :: k <= j < |c.jobs| ==> LastFired(st.last, c.jobs[j].name) == LastFired(last, c.jobs[j].name))
  {
    hide JobOutcome, Fires;
    if k > 0 { FiringsAreIndependent(c, p, last, k - 1); }
  }

  lemma {:induction false} ResultsAreIndependent(c: Config, p: Pass, last: Fired, k: nat)
    requires UniqueNames(c) && Quiet(p) && k <= |c.jobs|
    ensures AfterJobs(c, p, last, k).results == OwnOutcomes(c, p, last, k)
  {
    hide JobOutcome, Fires, UniqueNames, Quiet, NextLast;
    if k > 0 {
      ResultsAreIndependent(c, p, last, k - 1);
      FiringsAreIndependent(c, p, last, k - 1);
    }
  }

  /** Non-interference: the results of a pass are the jobs' own outcomes in job order, each computed
    from that job's state before the pass and its own executor, whatever the others do or raise. */
  lemma PassIsIndependent(c: Config, p: Pass, last: Fired)
    requires UniqueNames(c) && Quiet(p)
    ensures PassResult(c, p, last).results == OwnOutcomes(c, p, last, |c.jobs|)
  {
    ResultsAreIndependent(c, p, last, |c.jobs|);
  }

  lemma {:induction false} StopsAtDependsOnOwn(w1: World, w2: World, name: string, k: nat, max: nat)
    requires k < max && forall n :: w1(name, n) == w2(name, n)
    ensures StopsAt(w1, name, k, max) == StopsAt(w2, name, k, max)
    decreases max - k
  {
    if k + 1 < max { StopsAtDependsOnOwn(w1, w2, name, k + 1, max); }
  }

  /** Two passes at the same minute that agree on one job's last firing and executor give that job the
    same outcome, however they differ elsewhere. */
  lemma OutcomeDependsOnOwn(c: Config, p: Pass, q: Pass, last1: Fired, last2: Fired, j: nat)
    requires j < |c.jobs| && p.minute == q.minute
    requires LastFired(last1, c.jobs[j].name) == LastFired(last2, c.jobs[j].name)
    requires forall n :: p.world(c.jobs[j].name, n) == q.world(c.jobs[j].name, n)
    ensures OwnOutcome(c, p, last1, j) == OwnOutcome(c, q, last2, j)
  {
    var job := c.jobs[j];
    if job.backoffLimit.Some? {
      StopsAtDependsOnOwn(p.world, q.world, job.name, 0, MaxAttempts(job.backoffLimit.value));
    }
  }

  function TerminalOnly(rs: seq<JobResult>): seq<JobResult> {
    if rs == [] then []
    else TerminalOnly(rs[..|rs| - 1]) + (if rs[|rs| - 1].status != Skipped then [rs[|rs| - 1]] else [])
  }

  /** That is the results that are not skipped, all of them and in their order. */
  lemma {:induction false} TerminalOnlyMeaning(rs: seq<JobResult>) returns (from: seq<nat>)
    ensures IsFilter((r: JobResult) => r.status == Succeeded || r.status == Failed, rs, TerminalOnly(rs), from)
  {
    from := [];
    if rs != [] {
      hide IsFilter;
      var n := |rs| - 1;
      from := TerminalOnlyMeaning(rs[..n]);
      FilterMore((r: JobResult) => r.status == Succeeded || r.status == Failed, rs, TerminalOnly(rs[..n]), from);
      if rs[n].status != Skipped { from := from + [n]; }
    }
  }

  lemma TerminalOnlyMore(rs: seq<JobResult>, r: JobResult)
    ensures TerminalOnly(rs + [r]) == TerminalOnly(rs) + (if Terminal(r) then [r] else [])
  {
    assert (rs + [r])[..|rs|] == rs;
  }

  lemma JobCalls(c: Config, p: Pass, job: Job, st: Progress)
    requires st.calls == if p.notifier.Some? then TerminalOnly(st.results) else []
    ensures var st' := AfterJob(c, p, job, st);
            st'.calls == if p.notifier.Some? then TerminalOnly(st'.results) else []
  {
    hide JobOutcome, Fires, Terminal, LastFired, TerminalOnly;
    var r := JobOutcome(job, LastFired(st.last, job.name), job.name in c.executors, p.minute, p.world);
    if r.Some? { TerminalOnlyMore(st.results, r.value); }
  }

  /** In one pass the notifier hears exactly the succeeded and failed results, once each and in order,
    and nothing if there is none; even a pass it ends by raising keeps to this. */
  lemma {:induction false} CallsAreTerminal(c: Config, p: Pass, last: Fired, k: nat)
    requires k <= |c.jobs|
    ensures var st := AfterJobs(c, p, last, k);
            st.calls == if p.notifier.Some? then TerminalOnly(st.results) else []
  {
    hide AfterJob;
    if k > 0 {
      CallsAreTerminal(c, p, last, k - 1);
      JobCalls(c, p, c.jobs[k - 1], AfterJobs(c, p, last, k - 1));
    }
  }

  lemma {:induction false} NeverAborts(c: Config, p: Pass, last: Fired, k: nat)
    requires k <= |c.jobs| && p.notifier.None?
    ensures !AfterJobs(c, p, last, k).aborted
  {
    hide JobOutcome, Fires;
    if k > 0 { NeverAborts(c, p, last, k - 1); }
  }

  /** A job without a notifier adds to the results, and with one does the same unless the pass is over. */
  lemma JobAdds(c: Config, p: Pass, job: Job, st: Progress, free: Progress)
    requires !free.aborted
    ensures var q := p.(notifier := None);
            && free.results <= AfterJob(c, q, job, free).results
            && (!st.aborted && st.results == free.results && st.last == free.last ==>
                  AfterJob(c, p, job, st).results == AfterJob(c, q, job, free).results
                  && AfterJob(c, p, job, st).last == AfterJob(c, q, job, free).last)
  {
    hide JobOutcome, Fires, Terminal, LastFired;
  }

  /** A notifier that raises only cuts the pass short: the results are a beginning of those the same
    pass would have had without it. */
  lemma {:induction false} RaiseCutsShort(c: Config, p: Pass, last: Fired, k: nat)
    requires k <= |c.jobs|
    ensures var st, free := AfterJobs(c, p, last, k), AfterJobs(c, p.(notifier := None), last, k);
            st.results <= free.results && (!st.aborted ==> st.results == free.results && st.last == free.last)
  {
    hide AfterJob;
    if k > 0 {
      RaiseCutsShort(c, p, last, k - 1);
      var q, job := p.(notifier := None), c.jobs[k - 1];
      var st, free := AfterJobs(c, p, last, k - 1), AfterJobs(c, q, last, k - 1);
      NeverAborts(c, q, last, k - 1);
      JobAdds(c, p, job, st, free);
      if st.aborted { AbortSticks(c, p, last, k - 1, k); }
    }
  }

  // ---------------------------------------------------------------- many passes

  /** Last firings before pass n of a run that starts with nothing fired. */
  function LastBefore(c: Config, passes: seq<Pass>, n: nat): Fired
    requires n <= |passes|
  {
    if n == 0 then map[] else PassResult(c, passes[n - 1], LastBefore(c, passes, n - 1)).last
  }

  /** The job went past the double-fire guard: it has a terminal result, or none because nobody executes it. */
  predicate IsDispatch(r: JobResult) {
    r.status != Skipped || r.reason == "no executor"
  }

  /** How often the results hold a dispatch of the job of that name. */
  function Dispatches(results: seq<JobResult>, name: string): nat {
    if results == [] then 0
    else
      var r := results[|results| - 1];
      Dispatches(results[..|results| - 1], name) + if r.name == name && IsDispatch(r) then 1 else 0
  }

  /** How often the executor of that name was called for the results. */
  function Calls(results: seq<JobResult>, name: string): nat {
    multiset(Starts(results))[name]
  }

  function ResultsOf(c: Config, passes: seq<Pass>, i: nat): seq<JobResult>
    requires i < |passes|
  {
    PassResult(c, passes[i], LastBefore(c, passes, i)).results
  }

  /** How often job j is dispatched in pass i, counted in the results the pass produces. */
  function DispatchesIn(c: Config, passes: seq<Pass>, j: nat, i: nat): nat
    requires j < |c.jobs| && i < |passes|
  {
    Dispatches(ResultsOf(c, passes, i), c.jobs[j].name)
  }

  /** How often the executor of job j is called in pass i. */
  function CallsIn(c: Config, passes: seq<Pass>, j: nat, i: nat): nat
    requires j < |c.jobs| && i < |passes|
  {
    Calls(ResultsOf(c, passes, i), c.jobs[j].name)
  }

  /** A job has a result exactly if its cron matches: that it already fired, if it did so in this minute under
    forbid, and that of its dispatch otherwise. */
  lemma ResultMeaning(job: Job, last: Option<nat>, hasExecutor: bool, minute: nat, world: World)
    ensures JobOutcome(job, last, hasExecutor, minute, world)
         == if !Matches(job.cron, minute) then None
            else if job.forbid && last == Some(minute) then Some(JobResult(job.name, Skipped, "already fired this minute", None))
            else Some(DispatchResult(job, hasExecutor, world))
  {
    hide Matches, DispatchResult;
  }

  lemma OutcomeMeaning(job: Job, last: Option<nat>, hasExecutor: bool, minute: nat, world: World)
    ensures match JobOutcome(job, last, hasExecutor, minute, world)
            case None => !Fires(job, last, minute)
            case Some(r) => (
              && r.name == job.name && (IsDispatch(r) <==> Fires(job, last, minute))
              && (r.attempts.Some? <==> Fires(job, last, minute) && hasExecutor && job.backoffLimit.Some?)
              && (r.attempts.Some? ==> r.attempts.value >= 1 && RightAttempts(world, job.name, job.backoffLimit.value, r.attempts.value)))
  {
    hide Matches;
    DispatchMeaning(job, hasExecutor, world);
  }

  lemma CountOneMore(results: seq<JobResult>, r: JobResult, name: string)
    ensures Dispatches(results + [r], name) == Dispatches(results, name) + if r.name == name && IsDispatch(r) then 1 else 0
    ensures Calls(results + [r], name) == Calls(results, name) + if r.name == name && r.attempts.Some? then r.attempts.value else 0
  {
    assert (results + [r])[..|results|] == results;
    if r.attempts.Some? { CountCopies(r.name, r.attempts.value, name); }
  }

  lemma {:induction false} CountCopies(name: string, n: nat, other: string)
    ensures multiset(Copies(name, n))[other] == if name == other then n else 0
  {
    if n > 0 {
      CountCopies(name, n - 1, other);
      assert Copies(name, n) == Copies(name, n - 1) + [name];
    }
  }

  /** What the first k jobs of a pass, ended early or not, have done about job j. */
  lemma {:induction false} PassDispatches(c: Config, p: Pass, last: Fired, j: nat, k: nat)
    requires UniqueNames(c) && j < |c.jobs| && k <= |c.jobs|
    ensures var st, job := AfterJobs(c, p, last, k), c.jobs[j];
            var n, before := Dispatches(st.results, job.name), LastFired(last, job.name);
            && n == (if j < k && !AfterJobs(c, p, last, j).aborted && Fires(job, before, p.minute) then 1 else 0)
            && LastFired(st.last, job.name) == (if n == 1 then Some(p.minute) else before)
            && (Calls(st.results, job.name) > 0 <==> n == 1 && job.name in c.executors && job.backoffLimit.Some?)
            && (Calls(st.results, job.name) > 0 ==> RightAttempts(p.world, job.name, job.backoffLimit.value, Calls(st.results, job.name)))
  {
    hide JobOutcome, Fires, Dispatches, Calls, IsDispatch, RightAttempts;
    if k == 0 {
      NoCount(c.jobs[j].name);
    } else {
      PassDispatches(c, p, last, j, k - 1);
      var st, job := AfterJobs(c, p, last, k - 1), c.jobs[k - 1];
      OutcomeMeaning(job, LastFired(st.last, job.name), job.name in c.executors, p.minute, p.world);
      var r := JobOutcome(job, LastFired(st.last, job.name), job.name in c.executors, p.minute, p.world);
      if r.Some? { CountOneMore(st.results, r.value, c.jobs[j].name); }
    }
  }

  lemma NoCount(name: string)
    ensures Dispatches([], name) == 0 && Calls([], name) == 0
  {
  }

  /** Job i's own result ends the pass: the notifier hears it and raises. */
  predicate EndsPass(c: Config, p: Pass, last: Fired, i: nat)
    requires i < |c.jobs|
  {
    var r := OwnOutcome(c, p, last, i);
    r.Some? && Terminal(r.value) && p.notifier.Some? && p.notifier.value(r.value)
  }

  /** No job before job j ends the pass. */
  predicate Reached(c: Config, p: Pass, last: Fired, j: nat)
    requires j <= |c.jobs|
  {
    forall i :: 0 <= i < j ==> !EndsPass(c, p, last, i)
  }

  lemma QuietReaches(c: Config, p: Pass, last: Fired, j: nat)
    requires Quiet(p) && j <= |c.jobs|
    ensures Reached(c, p, last, j)
  {
  }

  /** A pass is over before job k exactly if the own result of some job before it ends it. */
  lemma {:induction false} AbortedIffEnded(c: Config, p: Pass, last: Fired, k: nat)
    requires UniqueNames(c) && k <= |c.jobs|
    ensures AfterJobs(c, p, last, k).aborted <==> !Reached(c, p, last, k)
  {
    hide JobOutcome, Fires, Dispatches, Calls, RightAttempts, UniqueNames, LastFired;
    if k > 0 {
      AbortedIffEnded(c, p, last, k - 1);
      PassDispatches(c, p, last, k - 1, k - 1);
      var st, job := AfterJobs(c, p, last, k - 1), c.jobs[k - 1];
      assert LastFired(st.last, job.name) == LastFired(last, job.name);
      assert Reached(c, p, last, k) <==> Reached(c, p, last, k - 1) && !EndsPass(c, p, last, k - 1);
    }
  }

  /** Exactly what a pass, ended early or not, does about job j: it dispatches it, once, if and only if no
    job before it ends the pass and the guard lets it, and then records the firing; its executor is called
    between once and the allowed number of attempts if it is dispatched and has one, and not otherwise. */
  lemma DispatchedIffReached(c: Config, p: Pass, last: Fired, j: nat)
    requires UniqueNames(c) && j < |c.jobs|
    ensures var st, job := PassResult(c, p, last), c.jobs[j];
            var n, before := Dispatches(st.results, job.name), LastFired(last, job.name);
            && n == (if Reached(c, p, last, j) && Fires(job, before, p.minute) then 1 else 0)
            && LastFired(st.last, job.name) == (if n == 1 then Some(p.minute) else before)
            && (Calls(st.results, job.name) > 0 <==> n == 1 && job.name in c.executors && job.backoffLimit.Some?)
            && (Calls(st.results, job.name) > 0 ==> RightAttempts(p.world, job.name, job.backoffLimit.value, Calls(st.results, job.name)))
  {
    hide AfterJobs, Fires, Dispatches, Calls, RightAttempts, UniqueNames, LastFired;
    AbortedIffEnded(c, p, last, j);
    PassDispatches(c, p, last, j, |c.jobs|);
  }

  predicate MatchesIn(c: Config, passes: seq<Pass>, j: nat, i: nat)
    requires j < |c.jobs| && i < |passes|
  {
    Matches(c.jobs[j].cron, passes[i].minute)
  }

  /** Pass i comes to job j. */
  predicate ReachedIn(c: Config, passes: seq<Pass>, j: nat, i: nat)
    requires j < |c.jobs| && i < |passes|
  {
    Reached(c, passes[i], LastBefore(c, passes, i), j)
  }

  /** Pass i comes to job j and the job's cron matches. */
  predicate DueIn(c: Config, passes: seq<Pass>, j: nat, i: nat)
    requires j < |c.jobs| && i < |passes|
  {
    MatchesIn(c, passes, j, i) && ReachedIn(c, passes, j, i)
  }

  /** Under a notifier that does not raise, due means matched. */
  lemma QuietIsDue(c: Config, passes: seq<Pass>, j: nat, i: nat)
    requires j < |c.jobs| && i < |passes| && Quiet(passes[i])
    ensures DueIn(c, passes, j, i) <==> MatchesIn(c, passes, j, i)
  {
    QuietReaches(c, passes[i], LastBefore(c, passes, i), j);
  }

  /** Time does not run back between passes. */
  predicate Forward(passes: seq<Pass>) {
    forall i, j :: 0 <= i < j < |passes| ==> passes[i].minute <= passes[j].minute
  }

  /** Pass i is the latest before pass n in which the job was due. */
  ghost predicate LatestDue(c: Config, passes: seq<Pass>, j: nat, n: nat, i: nat)
    requires j < |c.jobs| && n <= |passes|
  {
    i < n && DueIn(c, passes, j, i) && forall k :: i < k < n ==> !DueIn(c, passes, j, k)
  }

  /** The last firing recorded for a job is the minute of the latest pass in which it was due. */
  lemma {:induction false} LastIsLatestDue(c: Config, passes: seq<Pass>, j: nat, n: nat)
    requires UniqueNames(c) && j < |c.jobs| && n <= |passes|
    ensures match LastFired(LastBefore(c, passes, n), c.jobs[j].name)
            case None => forall i :: 0 <= i < n ==> !DueIn(c, passes, j, i)
            case Some(m) => exists i: nat :: LatestDue(c, passes, j, n, i) && passes[i].minute == m
  {
    hide LastBefore, MatchesIn, ReachedIn, UniqueNames;
    if n == 0 {
      NothingFired(c, passes);
    } else {
      LastIsLatestDue(c, passes, j, n - 1);
      LastAfterPass(c, passes, j, n - 1);
      var before := LastFired(LastBefore(c, passes, n - 1), c.jobs[j].name);
      if DueIn(c, passes, j, n - 1) {
        assert LatestDue(c, passes, j, n, n - 1);
      } else if before.Some? {
        var i: nat :| LatestDue(c, passes, j, n - 1, i) && passes[i].minute == before.value;
        assert LatestDue(c, passes, j, n, i);
      }
    }
  }

  lemma NothingFired(c: Config, passes: seq<Pass>)
    ensures LastBefore(c, passes, 0) == map[]
  {
  }

  lemma LastAfterPass(c: Config, passes: seq<Pass>, j: nat, i: nat)
    requires UniqueNames(c) && j < |c.jobs| && i < |passes|
    ensures LastFired(LastBefore(c, passes, i + 1), c.jobs[j].name)
         == if DueIn(c, passes, j, i) then Some(passes[i].minute) else LastFired(LastBefore(c, passes, i), c.jobs[j].name)
  {
    hide PassResult, Matches, Dispatches, Calls, Reached, UniqueNames;
    DispatchedIffReached(c, passes[i], LastBefore(c, passes, i), j);
  }

  /** A pass dispatches a job, once, exactly when it is due and did not fire in this very minute under forbid. */
  lemma DispatchMeansFires(c: Config, passes: seq<Pass>, j: nat, i: nat)
    requires UniqueNames(c) && j < |c.jobs| && i < |passes|
    ensures DispatchesIn(c, passes, j, i)
         == if DueIn(c, passes, j, i) && !(c.jobs[j].forbid && LastFired(LastBefore(c, passes, i), c.jobs[j].name) == Some(passes[i].minute))
            then 1 else 0
    ensures CallsIn(c, passes, j, i) > 0 <==>
      DispatchesIn(c, passes, j, i) == 1 && c.jobs[j].name in c.executors && c.jobs[j].backoffLimit.Some?
    ensures CallsIn(c, passes, j, i) > 0 ==>
      RightAttempts(passes[i].world, c.jobs[j].name, c.jobs[j].backoffLimit.value, CallsIn(c, passes, j, i))
  {
    hide PassResult, Matches, Dispatches, Calls, RightAttempts, LastBefore, Reached, UniqueNames;
    DispatchedIffReached(c, passes[i], LastBefore(c, passes, i), j);
  }

  /** Over any run of passes whose minutes do not decrease, a forbid job is dispatched, once, in exactly
    the passes in which it is due and that are the first of their minute in which it is. */
  lemma ForbidFiresOnFirstPass(c: Config, passes: seq<Pass>, j: nat, i: nat)
    requires UniqueNames(c) && Forward(passes) && j < |c.jobs| && i < |passes| && c.jobs[j].forbid
    ensures DispatchesIn(c, passes, j, i)
         == if DueIn(c, passes, j, i) && (forall k :: 0 <= k < i && passes[k].minute == passes[i].minute ==> !DueIn(c, passes, j, k))
            then 1 else 0
  {
    hide LastBefore, DispatchesIn, DueIn, UniqueNames;
    DispatchMeansFires(c, passes, j, i);
    LastIsLatestDue(c, passes, j, i);
    var last := LastFired(LastBefore(c, passes, i), c.jobs[j].name);
    if last.Some? {
      var l: nat :| LatestDue(c, passes, j, i, l) && passes[l].minute == last.value;
      assert DueIn(c, passes, j, l);
      if last.value != passes[i].minute {
        forall k | 0 <= k < i && passes[k].minute == passes[i].minute
          ensures !DueIn(c, passes, j, k)
        {
          assert k > l;
        }
      }
    }
  }

  /** Dispatches of job j over the first n passes of a run that fall in minute m. */
  function MinuteDispatches(c: Config, passes: seq<Pass>, j: nat, m: nat, n: nat): nat
    requires j < |c.jobs| && n <= |passes|
  {
    if n == 0 then 0
    else MinuteDispatches(c, passes, j, m, n - 1) + if passes[n - 1].minute == m then DispatchesIn(c, passes, j, n - 1) else 0
  }

  /** In some of the first n passes that fall in minute m, job j is due. */
  predicate DueInMinute(c: Config, passes: seq<Pass>, j: nat, m: nat, n: nat)
    requires j < |c.jobs| && n <= |passes|
  {
    exists i :: 0 <= i < n && passes[i].minute == m && DueIn(c, passes, j, i)
  }

  /** Over the whole run a forbid job is dispatched exactly once in every minute in which some pass finds it
    due, however many passes the minute has, and never in another. */
  lemma {:induction false} ForbidOncePerMinute(c: Config, passes: seq<Pass>, j: nat, m: nat, n: nat)
    requires UniqueNames(c) && Forward(passes) && j < |c.jobs| && c.jobs[j].forbid && n <= |passes|
    ensures MinuteDispatches(c, passes, j, m, n) == if DueInMinute(c, passes, j, m, n) then 1 else 0
  {
    hide DueIn, DispatchesIn, UniqueNames;
    if n > 0 {
      ForbidOncePerMinute(c, passes, j, m, n - 1);
      ForbidFiresOnFirstPass(c, passes, j, n - 1);
    }
  }

  /** So a forbid job is never dispatched twice in a minute, and its executor is called in one pass of it
    at most. */
  lemma ForbidNeverTwice(c: Config, passes: seq<Pass>, j: nat, i: nat, k: nat)
    requires UniqueNames(c) && Forward(passes) && j < |c.jobs| && i < k < |passes| && c.jobs[j].forbid
    requires passes[i].minute == passes[k].minute
    ensures DispatchesIn(c, passes, j, i) + DispatchesIn(c, passes, j, k) <= 1
    ensures CallsIn(c, passes, j, i) == 0 || CallsIn(c, passes, j, k) == 0
  {
    hide DispatchesIn, CallsIn, DueIn, LastBefore, UniqueNames;
    ForbidFiresOnFirstPass(c, passes, j, i);
    ForbidFiresOnFirstPass(c, passes, j, k);
    DispatchMeansFires(c, passes, j, i);
    DispatchMeansFires(c, passes, j, k);
  }

  /** When the minutes strictly increase, forbid makes no difference: every job is dispatched, once, in
    exactly the passes in which it is due. */
  lemma DispatchedIffDue(c: Config, passes: seq<Pass>, j: nat, i: nat)
    requires UniqueNames(c) && j < |c.jobs| && i < |passes|
    requires forall a, b :: 0 <= a < b < |passes| ==> passes[a].minute < passes[b].minute
    ensures DispatchesIn(c, passes, j, i) == if DueIn(c, passes, j, i) then 1 else 0
  {
    hide LastBefore, DispatchesIn, DueIn, UniqueNames;
    if c.jobs[j].forbid {
      ForbidFiresOnFirstPass(c, passes, j, i);
    } else {
      DispatchMeansFires(c, passes, j, i);
    }
  }

  function RunResults(c: Config, passes: seq<Pass>, n: nat): seq<JobResult>
    requires n <= |passes|
  {
    if n == 0 then []
    else RunResults(c, passes, n - 1) + PassResult(c, passes[n - 1], LastBefore(c, passes, n - 1)).results
  }

  function RunCalls(c: Config, passes: seq<Pass>, n: nat): seq<JobResult>
    requires n <= |passes|
  {
    if n == 0 then []
    else RunCalls(c, passes, n - 1) + PassResult(c, passes[n - 1], LastBefore(c, passes, n - 1)).calls
  }

  lemma {:induction false} TerminalOnlyAppend(a: seq<JobResult>, b: seq<JobResult>)
    ensures TerminalOnly(a + b) == TerminalOnly(a) + TerminalOnly(b)
  {
    if b == [] {
      assert a + b == a;
    } else {
      var n := |b| - 1;
      assert (a + b)[..|a| + n] == a + b[..n];
      TerminalOnlyAppend(a, b[..n]);
    }
  }

  /** Over any run with a notifier, its calls are exactly the succeeded and failed results of all
    passes, once each and in order. */
  lemma {:induction false} RunCallsAreTerminal(c: Config, passes: seq<Pass>, n: nat)
    requires n <= |passes| && forall i :: 0 <= i < n ==> passes[i].notifier.Some?
    ensures RunCalls(c, passes, n) == TerminalOnly(RunResults(c, passes, n))
  {
    hide AfterJobs;
    if n > 0 {
      RunCallsAreTerminal(c, passes, n - 1);
      CallsAreTerminal(c, passes[n - 1], LastBefore(c, passes, n - 1), |c.jobs|);
      TerminalOnlyAppend(RunResults(c, passes, n - 1), PassResult(c, passes[n - 1], LastBefore(c, passes, n - 1)).results);
    }
  }

  // ---------------------------------------------------------------- the resident loop

  /** Clock of the loop before pass k, in microseconds: each turn runs the pass, which takes cost(k),
    and then sleeps as long as was left of the minute when the pass began. */
  function Clock(start: nat, cost: nat -> nat, k: nat): nat {
    if k == 0 then start
    else
      var now := Clock(start, cost, k - 1);
      var nextMinute := now / MINUTE * MINUTE + MINUTE;
      var sleep := if nextMinute - now > 0 then nextMinute - now else 0;
      now + cost(k - 1) + sleep
  }

  function WakeMinute(start: nat, cost: nat -> nat, k: nat): nat {
    Clock(start, cost, k) / MINUTE
  }

  /** Each pass begins as long after the next full minute as the pass before it took, so it lands on the
    previous minute plus one plus the whole minutes that took. */
  lemma WakeStep(start: nat, cost: nat -> nat, k: nat)
    ensures Clock(start, cost, k + 1) == (WakeMinute(start, cost, k) + 1) * 60_000_000 + cost(k)
    ensures WakeMinute(start, cost, k + 1) == WakeMinute(start, cost, k) + 1 + cost(k) / MINUTE
  {
    var now := Clock(start, cost, k);
    assert Clock(start, cost, k + 1) == (now / MINUTE + 1) * MINUTE + cost(k);
  }

  lemma {:induction false} WakesIncrease(start: nat, cost: nat -> nat, i: nat, j: nat)
    requires i < j
    ensures WakeMinute(start, cost, i) < WakeMinute(start, cost, j)
  {
    hide WakeMinute;
    WakeStep(start, cost, j - 1);
    if i < j - 1 { WakesIncrease(start, cost, i, j - 1); }
  }

  /** Every minute of a run belongs to one turn of the loop. It is woken exactly when that turn begins in it;
    the other minutes of a turn, there when its pass takes a minute or more, are never woken. */
  lemma {:induction false} WokenOrSkipped(start: nat, cost: nat -> nat, m: nat, n: nat) returns (k: nat)
    requires WakeMinute(start, cost, 0) <= m < WakeMinute(start, cost, n)
    ensures k < n && WakeMinute(start, cost, k) <= m < WakeMinute(start, cost, k + 1)
    ensures m == WakeMinute(start, cost, k) <==> exists i: nat :: WakeMinute(start, cost, i) == m
    ensures m == WakeMinute(start, cost, k) || cost(k) >= MINUTE
  {
    hide WakeMinute;
    if n > 0 && WakeMinute(start, cost, n - 1) <= m {
      k := n - 1;
      WakeStep(start, cost, k);
      if m != WakeMinute(start, cost, k) { NeverWokenBetween(start, cost, k, m); }
    } else {
      k := WokenOrSkipped(start, cost, m, n - 1);
    }
  }

  /** No turn wakes on a minute strictly between two neighbouring wakes. */
  lemma NeverWokenBetween(start: nat, cost: nat -> nat, k: nat, m: nat)
    requires WakeMinute(start, cost, k) < m < WakeMinute(start, cost, k + 1)
    ensures forall i: nat :: WakeMinute(start, cost, i) != m
  {
    hide WakeMinute;
    forall i: nat
      ensures WakeMinute(start, cost, i) != m
    {
      if i < k { WakesIncrease(start, cost, i, k); }
      if k + 1 < i { WakesIncrease(start, cost, k + 1, i); }
    }
  }

  /** The passes of the resident loop. */
  ghost predicate IsLoop(passes: seq<Pass>, start: nat, cost: nat -> nat) {
    forall i :: 0 <= i < |passes| ==> passes[i].minute == WakeMinute(start, cost, i)
  }

  /** In the resident loop a job is dispatched, once, in exactly the passes in which it is due, and no minute
    has two passes, however long they take. */
  lemma LoopDispatches(c: Config, passes: seq<Pass>, start: nat, cost: nat -> nat, j: nat, i: nat)
    requires UniqueNames(c) && IsLoop(passes, start, cost) && j < |c.jobs| && i < |passes|
    ensures DispatchesIn(c, passes, j, i) == if DueIn(c, passes, j, i) then 1 else 0
    ensures forall k :: 0 <= k < |passes| && k != i ==> passes[k].minute != passes[i].minute
  {
    hide WakeMinute, DispatchesIn, DueIn, UniqueNames;
    forall a, b | 0 <= a < b < |passes|
      ensures passes[a].minute < passes[b].minute
    {
      WakesIncrease(start, cost, a, b);
    }
    DispatchedIffDue(c, passes, j, i);
  }

  /** If every pass stays under a minute, each minute of the run that the cron matches has exactly one
    pass, and the job is dispatched in it, once, exactly if the pass comes to it, which it does under a
    notifier that does not raise; its executor, if it has one, is called then. */
  lemma EveryMatchedMinuteFires(c: Config, passes: seq<Pass>, start: nat, cost: nat -> nat, j: nat, m: nat) returns (i: nat)
    requires UniqueNames(c) && IsLoop(passes, start, cost) && j < |c.jobs|
    requires forall k :: cost(k) < MINUTE
    requires start / MINUTE <= m < WakeMinute(start, cost, |passes|) && Matches(c.jobs[j].cron, m)
    ensures i < |passes| && passes[i].minute == m
    ensures DispatchesIn(c, passes, j, i) == if ReachedIn(c, passes, j, i) then 1 else 0
    ensures Quiet(passes[i]) ==> DispatchesIn(c, passes, j, i) == 1
    ensures CallsIn(c, passes, j, i) > 0 <==>
      DispatchesIn(c, passes, j, i) == 1 && c.jobs[j].name in c.executors && c.jobs[j].backoffLimit.Some?
    ensures forall k :: 0 <= k < |passes| && k != i ==> passes[k].minute != m
  {
    hide WakeMinute, DispatchesIn, CallsIn, ReachedIn, UniqueNames, Quiet;
    assert WakeMinute(start, cost, 0) == start / MINUTE by { FirstWake(start, cost); }
    i := WokenOrSkipped(start, cost, m, |passes|);
    LoopDispatches(c, passes, start, cost, j, i);
    DispatchMeansFires(c, passes, j, i);
    if Quiet(passes[i]) { QuietIsDue(c, passes, j, i); }
  }

  lemma FirstWake(start: nat, cost: nat -> nat)
    ensures WakeMinute(start, cost, 0) == start / MINUTE
  {
  }

  /** A pass of a minute or more does lose minutes: as many after the one it begins in as it takes whole
    minutes, and no pass of the run has any of them. */
  lemma LongPassSkips(passes: seq<Pass>, start: nat, cost: nat -> nat, k: nat, d: nat)
    requires IsLoop(passes, start, cost) && 1 <= d <= cost(k) / MINUTE
    ensures forall i :: 0 <= i < |passes| ==> passes[i].minute != WakeMinute(start, cost, k) + d
  {
    hide WakeMinute;
    WakeStep(start, cost, k);
    NeverWokenBetween(start, cost, k, WakeMinute(start, cost, k) + d);
  }

  /** The passes the loop makes when the executors behave as worlds says. */
  function LoopPasses(start: nat, cost: nat -> nat, worlds: nat -> World, notifier: Notifier, n: nat): (passes: seq<Pass>)
    ensures |passes| == n
    ensures forall i :: 0 <= i < n ==> passes[i] == Pass(WakeMinute(start, cost, i), worlds(i), notifier)
  {
    seq(n, i requires 0 <= i < n => Pass(WakeMinute(start, cost, i), worlds(i), notifier))
  }

  lemma WakeIsClock(start: nat, cost: nat -> nat, k: nat)
    ensures WakeMinute(start, cost, k) == Clock(start, cost, k) / MINUTE
  {
  }

  lemma {:induction false} StartsAppend(a: seq<JobResult>, b: seq<JobResult>)
    ensures Starts(a + b) == Starts(a) + Starts(b)
  {
    if b == [] {
      NoStarts();
      assert a + b == a;
    } else {
      hide Starts, StartsOf;
      var init, r := b[..|b| - 1], b[|b| - 1];
      assert b == init + [r] && a + b == (a + init) + [r];
      StartsAppend(a, init);
      StartsMore(init, r);
      StartsMore(a + init, r);
    }
  }

  /** The first n turns of `run_forever` on a fresh engine. */
  method RunForever(e: Engine, start: nat, cost: nat -> nat, worlds: nat -> World, notifier: Notifier, n: nat)
    returns (now: nat, calls: seq<JobResult>, starts: seq<string>)
    requires e.lastFired == map[]
    modifies e
    ensures now == Clock(start, cost, n)
    ensures var passes := LoopPasses(start, cost, worlds, notifier, n);
            && IsLoop(passes, start, cost)
            && e.lastFired == LastBefore(e.config, passes, n)
            && calls == RunCalls(e.config, passes, n)
            && starts == Starts(RunResults(e.config, passes, n))
  {
    hide PassResult, WakeMinute, Starts;
    NoStarts();
    ghost var passes := LoopPasses(start, cost, worlds, notifier, n);
    now, calls, starts := start, [], [];
    for k := 0 to n
      invariant now == Clock(start, cost, k)
      invariant e.lastFired == LastBefore(e.config, passes, k)
      invariant calls == RunCalls(e.config, passes, k)
      invariant starts == Starts(RunResults(e.config, passes, k))
    {
      WakeIsClock(start, cost, k);
      var results, heard, aborted, made := e.RunPending(Pass(now / MINUTE, worlds(k), notifier));
      StartsAppend(RunResults(e.config, passes, k), results);
      calls, starts := calls + heard, starts + made;
      var nextMinute := now / MINUTE * MINUTE + MINUTE;
      var seconds := if nextMinute - now > 0 then nextMinute - now else 0;
      now := now + cost(k) + seconds;
    }
  }
}
