/** The scheduler engine: one pass over the jobs, and the state it carries from pass to pass. */
module Scheduler {
  import opened Text
  import opened Cron

  /** What one attempt of an executor reports. */
  datatype Attempt = Returned | Raised(message: string)

  /** backoffLimit is None where the configured value is not a number, which makes dispatch raise. */
  datatype Job = Job(name: string, cron: CronSchedule, forbid: bool, backoffLimit: Option<int>)

  datatype Status = Succeeded | Failed | Skipped

  datatype JobResult = JobResult(name: string, status: Status, reason: string, attempts: Option<nat>)

  /** The outcome of attempt k (from 1) of each job's executor in one pass. */
  type World = (string, nat) -> Attempt

  const NO_EXECUTOR := "no executor"
  const ALREADY_FIRED := "already fired this minute"

  function MaxAttempts(backoffLimit: int): nat {
    if backoffLimit + 1 > 1 then backoffLimit + 1 else 1
  }

  // ---------------------------------------------------------------- dispatch

  /** The attempt a retry loop stops at, when k attempts are made already. */
  function StopsAt(world: World, name: string, k: nat, max: nat): (n: nat)
    requires k < max
    ensures k < n <= max
    ensures forall i :: k < i < n ==> world(name, i).Raised?
    ensures world(name, n).Returned? || n == max
    decreases max - k
  {
    if world(name, k + 1).Returned? || k + 1 == max then k + 1 else StopsAt(world, name, k + 1, max)
  }

  function DispatchResult(job: Job, hasExecutor: bool, world: World): JobResult {
    if !hasExecutor then JobResult(job.name, Skipped, NO_EXECUTOR, None)
    else if job.backoffLimit.None? then JobResult(job.name, Failed, "backoff_limit is not a number", None)
    else
      var n := StopsAt(world, job.name, 0, MaxAttempts(job.backoffLimit.value));
      match world(job.name, n)
      case Returned => JobResult(job.name, Succeeded, "", Some(n))
      case Raised(message) => JobResult(job.name, Failed, message, Some(n))
  }

  function Copies(name: string, n: nat): seq<string> {
    seq(n, _ => name)
  }

  /** The executor calls behind a result: one for each attempt. */
  function StartsOf(r: JobResult): seq<string> {
    if r.attempts.Some? then Copies(r.name, r.attempts.value) else []
  }

  function Starts(results: seq<JobResult>): seq<string> {
    if results == [] then [] else Starts(results[..|results| - 1]) + StartsOf(results[|results| - 1])
  }

  lemma StartsMore(results: seq<JobResult>, r: JobResult)
    ensures Starts(results + [r]) == Starts(results) + StartsOf(r)
  {
    assert (results + [r])[..|results|] == results;
  }

  lemma NoStarts()
    ensures Starts([]) == []
  {
  }

  /** `_dispatch`, with the exception boundary of `_run_job_safely` around it. starts lists the executor
    calls made, by job name. */
  method Dispatch(job: Job, hasExecutor: bool, world: World) returns (r: JobResult, starts: seq<string>)
    ensures r == DispatchResult(job, hasExecutor, world)
    ensures starts == StartsOf(r)
  {
    starts := [];
    if !hasExecutor {
      return JobResult(job.name, Skipped, NO_EXECUTOR, None), starts;
    }
    if job.backoffLimit.None? {
      return JobResult(job.name, Failed, "backoff_limit is not a number", None), starts;
    }
    var attempts := 0;
    var maxAttempts := MaxAttempts(job.backoffLimit.value);
    var lastError: Option<string> := None;
    while attempts < maxAttempts
      invariant attempts <= maxAttempts
      invariant starts == Copies(job.name, attempts)
      invariant attempts == 0 ==> lastError == None
      invariant attempts > 0 ==> world(job.name, attempts) == Raised(if lastError.Some? then lastError.value else "")
      invariant attempts > 0 ==> lastError.Some?
      invariant StopsAt(world, job.name, 0, maxAttempts)
             == if attempts < maxAttempts then StopsAt(world, job.name, attempts, maxAttempts) else maxAttempts
    {
      attempts := attempts + 1;
      starts := starts + [job.name];
      match world(job.name, attempts)
      case Returned =>
        lastError := None;
        break;
      case Raised(message) =>
        lastError := Some(message);
    }
    if lastError.None? {
      return JobResult(job.name, Succeeded, "", Some(attempts)), starts;
    }
    return JobResult(job.name, Failed, lastError.value, Some(attempts)), starts;
  }

  /** With the configured limit b, n attempts are what a retry loop makes: one more than b allowed, or one if
    b is negative; all before the n-th raised, and the n-th returned or was the last allowed. */
  ghost predicate RightAttempts(world: World, name: string, b: int, n: nat) {
    && 1 <= n && (if b >= 0 then n <= b + 1 else n == 1)
    && (forall k :: 1 <= k < n ==> world(name, k).Raised?)
    && (world(name, n).Returned? || n == b + 1 || b < 0)
  }

  /** What dispatching a job comes to. Without an executor it is skipped, and a limit that is no number fails
    it, both without an attempt. Otherwise the attempts are the right ones for the limit; it succeeded exactly
    if one of the allowed attempts returns, and it failed, after all of them, with the last one's error. */
  lemma DispatchMeaning(job: Job, hasExecutor: bool, world: World)
    ensures var r := DispatchResult(job, hasExecutor, world);
            && r.name == job.name
            && (!hasExecutor ==> r.status == Skipped && r.reason == "no executor" && r.attempts == None)
            && (hasExecutor && job.backoffLimit.None? ==> r.status == Failed && r.attempts == None)
            && (hasExecutor && job.backoffLimit.Some? ==>
                  var b := job.backoffLimit.value;
                  && r.attempts.Some? && RightAttempts(world, job.name, b, r.attempts.value)
                  && (r.status == Succeeded || r.status == Failed)
                  && (r.status == Succeeded <==> exists k :: 1 <= k && (k <= b + 1 || k == 1) && world(job.name, k).Returned?)
                  && (r.status == Succeeded ==> world(job.name, r.attempts.value).Returned?)
                  && (r.status == Failed ==> r.attempts.value == (if b >= 0 then b + 1 else 1))
                  && (r.status == Failed ==> world(job.name, r.attempts.value) == Raised(r.reason)))
  {
    if hasExecutor && job.backoffLimit.Some? {
      var n := StopsAt(world, job.name, 0, MaxAttempts(job.backoffLimit.value));
    }
  }

  // ---------------------------------------------------------------- one pass

  type Fired = map<string, nat>

  function LastFired(last: Fired, name: string): Option<nat> {
    if name in last then Some(last[name]) else None
  }

  /** The job's cron matches and, under forbid, it has not fired in this very minute. */
  predicate Fires(job: Job, last: Option<nat>, minute: nat) {
    Matches(job.cron, minute) && !(job.forbid && last == Some(minute))
  }

  /** What one job adds to a pass; None if its cron does not match. */
  function JobOutcome(job: Job, last: Option<nat>, hasExecutor: bool, minute: nat, world: World): Option<JobResult> {
    if !Matches(job.cron, minute) then None
    else if !Fires(job, last, minute) then Some(JobResult(job.name, Skipped, ALREADY_FIRED, None))
    else Some(DispatchResult(job, hasExecutor, world))
  }

  datatype Config = Config(jobs: seq<Job>, executors: set<string>)

  /** A notifier that is not configured, or tells for each result whether the call raises. */
  type Notifier = Option<JobResult -> bool>

  datatype Pass = Pass(minute: nat, world: World, notifier: Notifier)

  /** A pass under way: last firings, results, notifier calls, and whether a notifier raise ended it. */
  datatype Progress = Progress(last: Fired, results: seq<JobResult>, calls: seq<JobResult>, aborted: bool)

  predicate Terminal(r: JobResult) { r.status == Succeeded || r.status == Failed }

  function AfterJob(c: Config, p: Pass, job: Job, st: Progress): Progress {
    if st.aborted then st
    else
      var last := LastFired(st.last, job.name);
      var last' := if Fires(job, last, p.minute) then st.last[job.name := p.minute] else st.last;
      match JobOutcome(job, last, job.name in c.executors, p.minute, p.world)
      case None => st.(last := last')
      case Some(r) =>
        var notifies := p.notifier.Some? && Terminal(r);
        Progress(last', st.results + [r], st.calls + (if notifies then [r] else []), notifies && p.notifier.value(r))
  }

  function AfterJobs(c: Config, p: Pass, last: Fired, k: nat): Progress
    requires k <= |c.jobs|
  {
    if k == 0 then Progress(last, [], [], false) else AfterJob(c, p, c.jobs[k - 1], AfterJobs(c, p, last, k - 1))
  }

  function PassResult(c: Config, p: Pass, last: Fired): Progress {
    AfterJobs(c, p, last, |c.jobs|)
  }

  /** `SchedulerEngine`, reduced to what it keeps between passes. */
  class Engine {
    const config: Config
    var lastFired: Fired

    constructor (config: Config)
      ensures this.config == config && lastFired == map[]
    {
      this.config := config;
      lastFired := map[];
    }

    /** `_run_job_safely`. */
    method RunJob(job: Job, minute: nat, world: World) returns (r: Option<JobResult>, starts: seq<string>)
      modifies this
      ensures r == JobOutcome(job, LastFired(old(lastFired), job.name), job.name in config.executors, minute, world)
      ensures lastFired == if Fires(job, LastFired(old(lastFired), job.name), minute)
                           then old(lastFired)[job.name := minute] else old(lastFired)
      ensures starts == if r.Some? then StartsOf(r.value) else []
    {
      starts := [];
      if !Matches(job.cron, minute) {
        return None, starts;
      }
      if job.forbid {
        if job.name in lastFired && lastFired[job.name] == minute {
          return Some(JobResult(job.name, Skipped, ALREADY_FIRED, None)), starts;
        }
      }
      lastFired := lastFired[job.name := minute];
      var result;
      result, starts := Dispatch(job, job.name in config.executors, world);
      return Some(result), starts;
    }

    /** `run_pending` with `_notify`: results in job order, one notifier call per terminal result. A raise
      of the notifier ends the pass. starts lists the executor calls of the whole pass. */
    method RunPending(p: Pass) returns (results: seq<JobResult>, calls: seq<JobResult>, aborted: bool, starts: seq<string>)
      modifies this
      ensures Progress(lastFired, results, calls, aborted) == PassResult(config, p, old(lastFired))
      ensures starts == Starts(results)
    {
      hide JobOutcome, Fires, StartsOf, Starts, Terminal, LastFired;
      NoStarts();
      results, calls, aborted, starts := [], [], false, [];
      for i := 0 to |config.jobs|
        invariant Progress(lastFired, results, calls, aborted) == AfterJobs(config, p, old(lastFired), i)
        invariant !aborted
        invariant starts == Starts(results)
      {
        var result, made := RunJob(config.jobs[i], p.minute, p.world);
        starts := starts + made;
        if result.Some? {
          StartsMore(results, result.value);
          results := results + [result.value];
          if p.notifier.Some? && Terminal(result.value) {
            calls := calls + [result.value];
            if p.notifier.value(result.value) {
              aborted := true;
              AbortSticks(config, p, old(lastFired), i + 1, |config.jobs|);
              return;
            }
          }
        }
      }
    }
  }

  lemma {:induction false} AbortSticks(c: Config, p: Pass, last: Fired, j: nat, k: nat)
    requires j <= k <= |c.jobs| && AfterJobs(c, p, last, j).aborted
    ensures AfterJobs(c, p, last, k) == AfterJobs(c, p, last, j)
  {
    if j < k { AbortSticks(c, p, last, j, k - 1); }
  }
}
